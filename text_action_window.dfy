/** The non-graphical state of the text action window: the registry of extra
    button providers, the selection-change state machine behind "tap the same
    spot twice to show the window", the enabled flag that gates showing, and
    the vertical clamp of the window position. Providers and buttons are
    opaque ids; whether the popup is showing is a boolean field. */
module TextActionWindow {

  /** The identity of an extra-button provider object. */
  type ProviderId = nat

  /** The identity of a button view. */
  type ButtonId = nat

  /** A registered provider together with the button created for it. */
  datatype Entry = Entry(provider: ProviderId, button: ButtonId)

  /** Why the selection changed (the editor's cause codes; `Unknown` is
      code 0). */
  datatype Cause = Unknown | Tap | LongPress | Search | DeadKeys | OtherCause

  /** A selection change: its cause, whether text is now selected, and the
      index of the selection's left end. */
  datatype SelectionEvent = SelectionEvent(cause: Cause, selected: bool, leftIndex: int)

  /** What the handlers read from the editor when an event arrives. */
  datatype EditorView = EditorView(
    anyHeldHandle: bool,
    dragSelecting: bool,
    textLength: nat,
    inBatchEdit: bool,
    editable: bool,
    cursorSelected: bool,
    cursorLeft: int,
    cursorRight: int,
    inSnippet: bool,
    hasFocus: bool,
    inMouseMode: bool,
    editorHeight: int)

  /** The vertical positions proposed for the window next to the left and
      right selection handles and next to the insert handle, and the
      window's own height. */
  datatype Placement = Placement(leftTop: int, rightTop: int, insertTop: int, windowHeight: int)

  /** What a selection change did to the window: nothing, dismissed it, or
      posted a later display of it. */
  datatype Action = NoAction | Dismissed | DisplayPosted

  /** The fields the selection state machine reads and writes. */
  datatype SelectionState = SelectionState(lastCause: Cause, lastPosition: int, showing: bool)

  // ---------------------------------------------------------------------
  // The provider registry as a sequence.

  function Providers(es: seq<Entry>): (ps: seq<ProviderId>)
    ensures |ps| == |es| && forall i :: 0 <= i < |es| ==> ps[i] == es[i].provider
  {
    seq(|es|, i requires 0 <= i < |es| => es[i].provider)
  }

  function Buttons(es: seq<Entry>): (bs: seq<ButtonId>)
    ensures |bs| == |es| && forall i :: 0 <= i < |es| ==> bs[i] == es[i].button
  {
    seq(|es|, i requires 0 <= i < |es| => es[i].button)
  }

  predicate Distinct(s: seq<ProviderId>)
  {
    forall i, j :: 0 <= i < j < |s| ==> s[i] != s[j]
  }

  /** `s` with every occurrence of `p` taken out, the rest in order. */
  function Without(s: seq<ProviderId>, p: ProviderId): (r: seq<ProviderId>)
    ensures forall x :: x in r <==> x in s && x != p
    ensures |r| <= |s|
    decreases |s|
  {
    if s == [] then []
    else if s[0] == p then Without(s[1..], p)
    else [s[0]] + Without(s[1..], p)
  }

  /** Taking out a provider that is not there changes nothing. */
  lemma {:induction false} WithoutAbsent(s: seq<ProviderId>, p: ProviderId)
    requires p !in s
    ensures Without(s, p) == s
    decreases |s|
  {
    if s != [] {
      assert s[0] != p && p !in s[1..];
      WithoutAbsent(s[1..], p);
      assert s == [s[0]] + s[1..];
    }
  }

  /** In a list without duplicates, taking out the provider at `k` is the
      same as cutting out position `k`: the others keep their order. */
  lemma {:induction false} WithoutAt(s: seq<ProviderId>, k: nat)
    requires Distinct(s) && k < |s|
    ensures Without(s, s[k]) == s[..k] + s[k + 1..]
    decreases |s|
  {
    var tail := s[1..];
    assert Distinct(tail) by {
      forall i, j | 0 <= i < j < |tail| ensures tail[i] != tail[j] {
        assert tail[i] == s[i + 1] && tail[j] == s[j + 1];
      }
    }
    if k == 0 {
      assert s[0] !in tail by {
        forall i | 0 <= i < |tail| ensures tail[i] != s[0] {
          assert tail[i] == s[i + 1];
        }
      }
      WithoutAbsent(tail, s[0]);
    } else {
      assert s[0] != s[k];
      assert tail[k - 1] == s[k];
      WithoutAt(tail, k - 1);
      assert s[..k] == [s[0]] + tail[..k - 1];
      assert s[k + 1..] == tail[k..];
    }
  }

  /** Removal works piecewise over a concatenation. */
  lemma {:induction false} WithoutAppend(a: seq<ProviderId>, b: seq<ProviderId>, p: ProviderId)
    ensures Without(a + b, p) == Without(a, p) + Without(b, p)
    decreases |a|
  {
    if a == [] {
      assert a + b == b;
    } else {
      assert (a + b)[0] == a[0] && (a + b)[1..] == a[1..] + b;
      WithoutAppend(a[1..], b, p);
    }
  }

  /** Registering a new provider and then removing it restores the list. */
  lemma AddThenRemove(s: seq<ProviderId>, p: ProviderId)
    requires p !in s
    ensures Without(s + [p], p) == s
  {
    WithoutAppend(s, [p], p);
    WithoutAbsent(s, p);
    assert [p][1..] == [];
  }

  /** Removing keeps the list free of duplicates. */
  lemma {:induction false} WithoutKeepsDistinct(s: seq<ProviderId>, p: ProviderId)
    requires Distinct(s)
    ensures Distinct(Without(s, p))
    decreases |s|
  {
    if s != [] {
      var tail := s[1..];
      assert Distinct(tail) by {
        forall i, j | 0 <= i < j < |tail| ensures tail[i] != tail[j] {
          assert tail[i] == s[i + 1] && tail[j] == s[j + 1];
        }
      }
      WithoutKeepsDistinct(tail, p);
      if s[0] != p {
        assert s[0] !in tail by {
          forall i | 0 <= i < |tail| ensures tail[i] != s[0] {
            assert tail[i] == s[i + 1];
          }
        }
        var r := Without(tail, p);
        assert s[0] !in r;
        assert Distinct([s[0]] + r) by {
          forall i, j | 0 <= i < j < |[s[0]] + r|
            ensures ([s[0]] + r)[i] != ([s[0]] + r)[j]
          {
            if i > 0 {
              assert ([s[0]] + r)[i] == r[i - 1];
            }
            assert ([s[0]] + r)[j] == r[j - 1];
          }
        }
      }
    }
  }

  /** `es` with the first entry for `p` taken out, as the search loop and
      the list removal do together; the others keep their order. */
  function WithoutEntry(es: seq<Entry>, p: ProviderId): (r: seq<Entry>)
    ensures |es| - 1 <= |r| <= |es|
    ensures forall e :: e in r ==> e in es
    decreases |es|
  {
    if es == [] then []
    else if es[0].provider == p then es[1..]
    else [es[0]] + WithoutEntry(es[1..], p)
  }

  /** The entry taken out is the first one for `p`, at index `k`. */
  lemma {:induction false} WithoutEntryAt(es: seq<Entry>, p: ProviderId, k: nat)
    requires k < |es| && es[k].provider == p
    requires forall j :: 0 <= j < k ==> es[j].provider != p
    ensures WithoutEntry(es, p) == es[..k] + es[k + 1..]
    decreases k
  {
    if k > 0 {
      var tail := es[1..];
      assert es[0].provider != p;
      assert tail[k - 1] == es[k];
      WithoutEntryAt(tail, p, k - 1);
      assert es[..k] == [es[0]] + tail[..k - 1];
      assert es[k + 1..] == tail[k..];
      assert ([es[0]] + tail[..k - 1]) + tail[k..] == [es[0]] + (tail[..k - 1] + tail[k..]);
    }
  }

  /** Taking out an absent provider's entry changes nothing. */
  lemma {:induction false} WithoutEntryAbsent(es: seq<Entry>, p: ProviderId)
    requires p !in Providers(es)
    ensures WithoutEntry(es, p) == es
    decreases |es|
  {
    if es != [] {
      var tail := es[1..];
      assert Providers(es)[0] == es[0].provider;
      assert p !in Providers(tail) by {
        forall i | 0 <= i < |tail| ensures Providers(tail)[i] != p {
          assert Providers(tail)[i] == Providers(es)[i + 1];
        }
      }
      WithoutEntryAbsent(tail, p);
      assert es == [es[0]] + tail;
    }
  }

  /** Cutting position `k` out of the entries cuts it out of the providers. */
  lemma ProvidersOfCut(es: seq<Entry>, k: nat)
    requires k < |es|
    ensures Providers(es[..k] + es[k + 1..]) == Providers(es)[..k] + Providers(es)[k + 1..]
  {
    var cut := es[..k] + es[k + 1..];
    var ps := Providers(es);
    assert |Providers(cut)| == |ps[..k] + ps[k + 1..]|;
    forall i | 0 <= i < |cut|
      ensures Providers(cut)[i] == (ps[..k] + ps[k + 1..])[i]
    {
      if i < k {
        assert cut[i] == es[i];
      } else {
        assert cut[i] == es[i + 1];
      }
    }
  }

  /** Button views are all different and all below `n`. */
  predicate ButtonsFresh(es: seq<Entry>, n: nat)
  {
    (forall i, j :: 0 <= i < j < |es| ==> es[i].button != es[j].button) &&
    (forall i :: 0 <= i < |es| ==> es[i].button < n)
  }

  /** Cutting position `k` out of the entries cuts it out of the buttons and
      keeps the buttons different. */
  lemma ButtonsOfCut(es: seq<Entry>, k: nat, n: nat)
    requires k < |es| && ButtonsFresh(es, n)
    ensures Buttons(es[..k] + es[k + 1..]) == Buttons(es)[..k] + Buttons(es)[k + 1..]
    ensures ButtonsFresh(es[..k] + es[k + 1..], n)
  {
    var cut := es[..k] + es[k + 1..];
    var bs := Buttons(es);
    assert forall i :: 0 <= i < |cut| ==> cut[i] == es[if i < k then i else i + 1];
    assert |Buttons(cut)| == |bs[..k] + bs[k + 1..]|;
    forall i | 0 <= i < |cut|
      ensures Buttons(cut)[i] == (bs[..k] + bs[k + 1..])[i]
    {
      assert cut[i] == es[if i < k then i else i + 1];
    }
  }

  /** With no provider twice, taking out `p`'s entry takes `p` out of the
      provider list. */
  lemma WithoutEntryProviders(es: seq<Entry>, p: ProviderId)
    requires Distinct(Providers(es))
    ensures Providers(WithoutEntry(es, p)) == Without(Providers(es), p)
  {
    var ps := Providers(es);
    if p in ps {
      var k :| 0 <= k < |ps| && ps[k] == p;
      assert forall j :: 0 <= j < k ==> es[j].provider != p;
      WithoutEntryAt(es, p, k);
      WithoutAt(ps, k);
      ProvidersOfCut(es, k);
    } else {
      WithoutEntryAbsent(es, p);
      WithoutAbsent(ps, p);
    }
  }

  // ---------------------------------------------------------------------
  // The selection-change state machine.

  /** The event reaches the state machine: no handle is held, the cause is
      not a dead-key composition, and no drag selection is in progress. */
  predicate Handled(e: SelectionEvent, ed: EditorView)
  {
    !ed.anyHeldHandle && e.cause != DeadKeys && !ed.dragSelecting
  }

  /** The event opens the window outright: text got selected, or a long
      press landed in an empty document. */
  predicate Opens(e: SelectionEvent, ed: EditorView)
  {
    e.selected || (e.cause == LongPress && ed.textLength == 0)
  }

  /** A caret tap on the remembered spot while the window is hidden, outside
      a batch edit, in an editable editor. */
  predicate SecondTap(s: SelectionState, e: SelectionEvent, ed: EditorView)
  {
    e.cause == Tap && e.leftIndex == s.lastPosition && !s.showing && !ed.inBatchEdit && ed.editable
  }

  /** One selection change. A held handle or a dead-key cause leaves
      everything alone; a drag selection only dismisses; otherwise the
      cause is remembered, and the tap position is remembered exactly when
      a tap did not show the window. */
  function SelectionStep(s: SelectionState, e: SelectionEvent, ed: EditorView): (res: (SelectionState, Action))
    ensures ed.anyHeldHandle || e.cause == DeadKeys ==> res == (s, NoAction)
    ensures !ed.anyHeldHandle && e.cause != DeadKeys && ed.dragSelecting ==>
      res == (s.(showing := false), Dismissed)
    ensures Handled(e, ed) ==> res.0.lastCause == e.cause
    ensures Handled(e, ed) ==>
      res.0.lastPosition == if e.cause == Tap && res.1 != DisplayPosted then e.leftIndex else -1
    ensures Handled(e, ed) ==>
      (res.1 == DisplayPosted <==>
        (Opens(e, ed) && e.cause != Search) || (!Opens(e, ed) && SecondTap(s, e, ed)))
    ensures Handled(e, ed) ==> res.1 != NoAction
    ensures res.0.showing == (s.showing && res.1 != Dismissed)
  {
    if ed.anyHeldHandle || e.cause == DeadKeys then (s, NoAction)
    else if ed.dragSelecting then (s.(showing := false), Dismissed)
    else if Opens(e, ed) then
      if e.cause != Search then (SelectionState(e.cause, -1, s.showing), DisplayPosted)
      else (SelectionState(e.cause, -1, false), Dismissed)
    else
      var show := SecondTap(s, e, ed);
      var showing := if show then s.showing else false;
      var position := if e.cause == Tap && !show then e.leftIndex else -1;
      (SelectionState(e.cause, position, showing), if show then DisplayPosted else Dismissed)
  }

  /** Two caret taps on the same spot post the window: either the first tap
      already does, or it remembers the spot and the second one does. */
  lemma TapTwiceShows(s: SelectionState, k: nat, ed: EditorView)
    requires !ed.anyHeldHandle && !ed.dragSelecting && !ed.inBatchEdit && ed.editable
    ensures var tap := SelectionEvent(Tap, false, k);
      var first := SelectionStep(s, tap, ed);
      first.1 == DisplayPosted ||
      (first.0.lastPosition == k && !first.0.showing &&
       SelectionStep(first.0, tap, ed).1 == DisplayPosted)
  {
  }

  /** After a tap has posted the window, the next tap on the same spot does
      not post it again: it dismisses and starts counting afresh. */
  lemma ThirdTapStartsOver(s: SelectionState, k: nat, ed: EditorView)
    requires !ed.anyHeldHandle && !ed.dragSelecting
    ensures var tap := SelectionEvent(Tap, false, k);
      var first := SelectionStep(s, tap, ed);
      first.1 == DisplayPosted ==>
        SelectionStep(first.0, tap, ed) == (SelectionState(Tap, k, false), Dismissed)
  {
  }

  /** The window's vertical position, kept inside the editor with a margin
      of 5 below. */
  function ClampTop(top: int, editorHeight: int, windowHeight: int): (r: int)
    ensures r >= 0
    ensures editorHeight - windowHeight - 5 >= 0 ==> r <= editorHeight - windowHeight - 5
    ensures 0 <= top <= editorHeight - windowHeight - 5 ==> r == top
    ensures r == top || r == 0 || r == editorHeight - windowHeight - 5
    ensures top < 0 ==> r == 0
    ensures editorHeight - windowHeight - 5 < 0 ==> r == 0
    ensures 0 <= editorHeight - windowHeight - 5 < top ==> r == editorHeight - windowHeight - 5
  {
    var upper := editorHeight - windowHeight - 5;
    var lowered := if top < upper then top else upper;
    if lowered > 0 then lowered else 0
  }

  /** Whether `show` lets the popup appear. */
  predicate ShowAllowed(enabled: bool, ed: EditorView)
  {
    enabled && !ed.inSnippet && ed.hasFocus && !ed.inMouseMode
  }

  // ---------------------------------------------------------------------
  // The window object.

  class Window {
    /** Whether the layout provided a container for extra buttons. */
    const hasContainer: bool
    var entries: seq<Entry>
    /** The extra buttons placed in the container, in order. */
    var containerButtons: seq<ButtonId>
    /** The id the next created button view gets. */
    var nextButton: nat
    var lastCause: Cause
    var lastPosition: int
    var enabled: bool
    var showing: bool
    /** The vertical location the window was last placed at. */
    var top: int

    /** No provider twice and no button view twice; the container holds
        exactly the registered buttons; every button id was handed out; no
        container, no entries. */
    ghost predicate Valid()
      reads this
    {
      Distinct(Providers(entries)) &&
      ButtonsFresh(entries, nextButton) &&
      containerButtons == Buttons(entries) &&
      (!hasContainer ==> entries == [])
    }

    function Registered(): seq<ProviderId>
      reads this
    {
      Providers(entries)
    }

    function State(): SelectionState
      reads this
    {
      SelectionState(lastCause, lastPosition, showing)
    }

    /** A new window: enabled, hidden, no providers, and the integer fields
        at their default 0. */
    constructor (hasContainer: bool)
      ensures Valid() && this.hasContainer == hasContainer
      ensures entries == [] && enabled && !showing
      ensures lastCause == Unknown && lastPosition == 0 && top == 0
    {
      this.hasContainer := hasContainer;
      entries := [];
      containerButtons := [];
      nextButton := 0;
      lastCause := Unknown;
      lastPosition := 0;
      enabled := true;
      showing := false;
      top := 0;
    }

    /** The search loop: the first entry whose provider is `p`, or -1. */
    method IndexOfProvider(p: ProviderId) returns (k: int)
      ensures -1 <= k < |entries|
      ensures k == -1 <==> p !in Registered()
      ensures k >= 0 ==> entries[k].provider == p
      ensures k >= 0 ==> forall j :: 0 <= j < k ==> entries[j].provider != p
    {
      var i := 0;
      while i < |entries|
        invariant 0 <= i <= |entries|
        invariant forall j :: 0 <= j < i ==> entries[j].provider != p
      {
        if entries[i].provider == p {
          return i;
        }
        i := i + 1;
      }
      return -1;
    }

    /** Registers `p` with a new button at the end, unless there is no
        container or `p` is registered already. */
    method AddExtraButtonProvider(p: ProviderId)
      requires Valid()
      modifies this`entries, this`containerButtons, this`nextButton
      ensures Valid()
      ensures entries ==
        if !hasContainer || p in old(Registered()) then old(entries)
        else old(entries) + [Entry(p, old(nextButton))]
      ensures Registered() ==
        if !hasContainer || p in old(Registered()) then old(Registered())
        else old(Registered()) + [p]
    {
      if !hasContainer {
        return;
      }
      var k := IndexOfProvider(p);
      if k >= 0 {
        return;
      }
      var button := nextButton;
      nextButton := nextButton + 1;
      containerButtons := containerButtons + [button];
      entries := entries + [Entry(p, button)];
      assert Registered() == old(Registered()) + [p];
    }

    /** Unregisters `p` and takes its button out of the container; the
        other providers keep their order. */
    method RemoveExtraButtonProvider(p: ProviderId)
      requires Valid()
      modifies this`entries, this`containerButtons
      ensures Valid()
      ensures entries == if !hasContainer then old(entries) else WithoutEntry(old(entries), p)
      ensures Registered() == if !hasContainer then old(Registered()) else Without(old(Registered()), p)
    {
      if !hasContainer {
        return;
      }
      var k := IndexOfProvider(p);
      if k < 0 {
        WithoutAbsent(Registered(), p);
        WithoutEntryAbsent(entries, p);
        return;
      }
      ghost var before := entries;
      WithoutEntryAt(before, p, k);
      WithoutEntryProviders(before, p);
      WithoutKeepsDistinct(Providers(before), p);
      ButtonsOfCut(before, k, nextButton);
      containerButtons := containerButtons[..k] + containerButtons[k + 1..];
      entries := entries[..k] + entries[k + 1..];
    }

    /** Unregisters every provider, unless there is no container. */
    method ClearExtraButtonProviders()
      requires Valid()
      modifies this`entries, this`containerButtons
      ensures Valid()
      ensures Registered() == if hasContainer then [] else old(Registered())
    {
      if !hasContainer {
        return;
      }
      containerButtons := [];
      entries := [];
    }

    /** The registered providers in insertion order, as a new list. */
    method GetExtraButtonProviders() returns (ps: seq<ProviderId>)
      ensures ps == Registered()
    {
      ps := [];
      var i := 0;
      while i < |entries|
        invariant 0 <= i <= |entries|
        invariant ps == Providers(entries[..i])
      {
        ps := ps + [entries[i].provider];
        i := i + 1;
        assert entries[..i] == entries[..i - 1] + [entries[i - 1]];
      }
      assert entries[..i] == entries;
    }

    method Dismiss()
      modifies this`showing
      ensures !showing
    {
      showing := false;
    }

    /** Shows the popup unless the window is disabled, a snippet is being
        edited, the editor has no focus, or it is in mouse mode. */
    method Show(ed: EditorView)
      modifies this`showing
      ensures showing == (old(showing) || ShowAllowed(enabled, ed))
    {
      if !enabled || ed.inSnippet || !ed.hasFocus || ed.inMouseMode {
        return;
      }
      showing := true;
    }

    /** Turning the window off also dismisses it. */
    method SetEnabled(enable: bool)
      modifies this`enabled, this`showing
      ensures enabled == enable
      ensures showing == (old(showing) && enable)
    {
      enabled := enable;
      if !enable {
        Dismiss();
      }
    }

    /** Places the window above or below the selection (the higher of the
        two handle positions when text is selected), clamps it, and shows it. */
    method DisplayWindow(ed: EditorView, place: Placement)
      modifies this`top, this`showing
      ensures top == PlacedTop(ed, place)
      ensures showing == (old(showing) || ShowAllowed(enabled, ed))
    {
      var t: int;
      if ed.cursorSelected {
        t := Min(place.leftTop, place.rightTop);
      } else {
        t := place.insertTop;
      }
      top := ClampTop(t, ed.editorHeight, place.windowHeight);
      Show(ed);
    }

    method OnSelectionChange(e: SelectionEvent, ed: EditorView) returns (action: Action)
      modifies this`lastCause, this`lastPosition, this`showing
      ensures (State(), action) == SelectionStep(old(State()), e, ed)
    {
      if ed.anyHeldHandle || e.cause == DeadKeys {
        return NoAction;
      }
      if ed.dragSelecting {
        Dismiss();
        return Dismissed;
      }
      lastCause := e.cause;
      if e.selected || (e.cause == LongPress && ed.textLength == 0) {
        if e.cause != Search {
          action := DisplayPosted;
        } else {
          Dismiss();
          action := Dismissed;
        }
        lastPosition := -1;
      } else {
        var show := false;
        if e.cause == Tap && e.leftIndex == lastPosition && !showing && !ed.inBatchEdit && ed.editable {
          action := DisplayPosted;
          show := true;
        } else {
          Dismiss();
          action := Dismissed;
        }
        if e.cause == Tap && !show {
          lastPosition := e.leftIndex;
        } else {
          lastPosition := -1;
        }
      }
    }

    /** A long press inside a selection made by search brings the window
        up; any long press on such a selection is consumed. */
    method OnEditorLongPress(index: int, ed: EditorView, place: Placement) returns (intercepted: bool)
      modifies this`lastCause, this`top, this`showing
      ensures intercepted == (ed.cursorSelected && old(lastCause) == Search)
      ensures var inside := intercepted && ed.cursorLeft <= index <= ed.cursorRight;
        lastCause == (if inside then Unknown else old(lastCause)) &&
        showing == (old(showing) || (inside && ShowAllowed(enabled, ed))) &&
        (!inside ==> top == old(top)) &&
        (inside ==> top == PlacedTop(ed, place))
    {
      intercepted := false;
      if ed.cursorSelected && lastCause == Search {
        if index >= ed.cursorLeft && index <= ed.cursorRight {
          lastCause := Unknown;
          DisplayWindow(ed, place);
        }
        intercepted := true;
      }
    }

    method OnEditorFocusChange(gainFocus: bool)
      modifies this`showing
      ensures showing == (old(showing) && gainFocus)
    {
      if !gainFocus {
        Dismiss();
      }
    }

    method OnEditorRelease()
      modifies this`enabled, this`showing
      ensures !enabled && !showing
    {
      SetEnabled(false);
    }

    method OnDragSelectingStop(ed: EditorView, place: Placement)
      modifies this`top, this`showing
      ensures top == PlacedTop(ed, place)
      ensures showing == (old(showing) || ShowAllowed(enabled, ed))
    {
      DisplayWindow(ed, place);
    }
  }

  /** Where `displayWindow` puts the window: the higher of the two handle
      positions when text is selected, else the insert-handle position,
      clamped into the editor. */
  function PlacedTop(ed: EditorView, place: Placement): int
  {
    ClampTop(if ed.cursorSelected then Min(place.leftTop, place.rightTop) else place.insertTop,
             ed.editorHeight, place.windowHeight)
  }

  function Min(a: int, b: int): int
  {
    if a <= b then a else b
  }
}
