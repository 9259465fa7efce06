/** The `any-of?` query predicate: `(#any-of? @name "a" "b" ...)` keeps a
    match when every text of the capture is one of the listed strings. */
module AnyOf {
  import opened PredicateCommon

  /** The guards before any candidate is read: a non-empty call named
      `any-of?` or `any_of?`, with at least four steps, whose second step
      is a capture. */
  predicate Owns(steps: seq<Step>)
  {
    |steps| > 0 &&
    (steps[0].content == "any-of?" || steps[0].content == "any_of?") &&
    |steps| >= 4 &&
    steps[1].kind == CaptureStep
  }

  /** The index of the first Done step at or after `from`, or the length
      of the list when there is none. */
  function FirstDone(steps: seq<Step>, from: nat): (d: nat)
    requires from <= |steps|
    ensures from <= d <= |steps|
    ensures forall j :: from <= j < d ==> steps[j].kind != DoneStep
    ensures d < |steps| ==> steps[d].kind == DoneStep
    decreases |steps| - from
  {
    if from == |steps| || steps[from].kind == DoneStep then from
    else FirstDone(steps, from + 1)
  }

  /** The candidates: the contents of the String steps from index 2 up to,
      and not including, the first Done step. */
  function CandidateSet(steps: seq<Step>): set<string>
    requires |steps| >= 2
  {
    set i | 2 <= i < FirstDone(steps, 2) && steps[i].kind == StringStep :: steps[i].content
  }

  predicate NoDuplicates(s: seq<string>)
  {
    forall i, j :: 0 <= i < j < |s| ==> s[i] != s[j]
  }

  /** The loop that fills the insertion-ordered set of candidates: it stops
      at the first Done step and skips steps of any other non-String type. */
  method CollectCandidates(steps: seq<Step>) returns (cands: seq<string>)
    requires |steps| >= 2
    ensures NoDuplicates(cands)
    ensures forall s :: s in cands <==> s in CandidateSet(steps)
  {
    cands := [];
    var i := 2;
    while i < |steps|
      invariant 2 <= i <= FirstDone(steps, 2)
      invariant NoDuplicates(cands)
      invariant forall s :: s in cands <==>
        exists j :: 2 <= j < i && steps[j].kind == StringStep && steps[j].content == s
    {
      var step := steps[i];
      if step.kind == DoneStep {
        break;
      }
      if step.kind == StringStep && step.content !in cands {
        cands := cands + [step.content];
      }
      i := i + 1;
    }
    assert i == FirstDone(steps, 2);
    forall s ensures s in cands <==> s in CandidateSet(steps) {
      if s in CandidateSet(steps) {
        var j :| 2 <= j < FirstDone(steps, 2) && steps[j].kind == StringStep && steps[j].content == s;
        assert s in cands;
      }
    }
  }

  /** `captured` holds the texts of the capture named by step 1. */
  method DoPredicate(steps: seq<Step>, captured: seq<string>) returns (r: PredicateResult)
    ensures r == Unhandled <==> !Owns(steps) || CandidateSet(steps) == {}
    ensures r == Accept <==>
      Owns(steps) && CandidateSet(steps) != {} &&
      forall i :: 0 <= i < |captured| ==> captured[i] in CandidateSet(steps)
    ensures r == Reject <==>
      Owns(steps) && CandidateSet(steps) != {} &&
      exists i :: 0 <= i < |captured| && captured[i] !in CandidateSet(steps)
  {
    if |steps| == 0 {
      return Unhandled;
    }
    var name := steps[0].content;
    if name != "any-of?" && name != "any_of?" {
      return Unhandled;
    }
    if |steps| < 4 {
      return Unhandled;
    }
    if steps[1].kind != CaptureStep {
      return Unhandled;
    }
    var cands := CollectCandidates(steps);
    if |cands| == 0 {
      assert forall s :: s !in CandidateSet(steps);
      return Unhandled;
    }
    assert cands[0] in CandidateSet(steps);
    var i := 0;
    while i < |captured|
      invariant 0 <= i <= |captured|
      invariant forall j :: 0 <= j < i ==> captured[j] in CandidateSet(steps)
    {
      if captured[i] !in cands {
        return Reject;
      }
      i := i + 1;
    }
    return Accept;
  }

  /** Appending steps after a Done step does not move the first Done step. */
  lemma {:induction false} FirstDoneOfExtension(steps: seq<Step>, tail: seq<Step>, from: nat)
    requires from <= |steps| && FirstDone(steps, from) < |steps|
    ensures FirstDone(steps + tail, from) == FirstDone(steps, from)
    decreases |steps| - from
  {
    var ext := steps + tail;
    assert ext[from] == steps[from];
    if steps[from].kind != DoneStep {
      FirstDoneOfExtension(steps, tail, from + 1);
    }
  }

  /** Steps after the first Done step never contribute candidates. */
  lemma StepsAfterDoneIgnored(steps: seq<Step>, tail: seq<Step>)
    requires |steps| >= 2 && FirstDone(steps, 2) < |steps|
    ensures CandidateSet(steps + tail) == CandidateSet(steps)
  {
    FirstDoneOfExtension(steps, tail, 2);
    var ext := steps + tail;
    assert forall i :: 0 <= i < |steps| ==> ext[i] == steps[i];
  }
}
