# sora-editor: query predicates, touch regions and the text action window

This project models, in Dafny, the self-contained decision logic of three
parts of the sora-editor Android code editor:

- the built-in tree-sitter query predicates `eq?`, `any-of?` and
  `lua-match?`, including the translation of Lua patterns into Java regular
  expressions (`predicate_common.dfy`, `eq_predicate.dfy`, `any_of.dfy`,
  `lua_match.dfy`);
- the touch-region classifier, which maps a touch to one of six horizontal
  regions (outside, line numbers, side icons, divider margin, divider, text)
  and to in-bound or out-of-bound vertically (`region_resolver.dfy`);
- the non-graphical state of the text action window: the registry of extra
  button providers, the selection-change state machine that shows the window
  when the same spot is tapped twice, the enabled flag that gates showing,
  and the clamp of the window's vertical position (`text_action_window.dfy`).

A predicate call arrives as a list of steps, each with a type (String,
Capture, Done) and a content. A predicate answers UNHANDLED when the call is
not its own or is badly shaped. Otherwise it answers ACCEPT when every
captured text passes its test, and REJECT when some text fails.

The Lua translation is a loop over the pattern that appends to a buffer. The
method is proved equal to a recursive specification, `Translate`. A second,
independent view cuts the pattern into tokens (plain character, escape `%c`,
`%` at the very end) and renders each token on its own. It is proved to agree
with `Translate`, and cutting is proved lossless in both directions. The
per-character rules are lemmas stated in context: a prefix whose `%`s are
all paired (so the scan is not in the middle of an escape), then the
character, then any suffix.

The modelling choices are:

- The capture's texts are an input (`captured: seq<string>`).
- The regex engine is a pair of function parameters: `compiles(r)` (the
  `Regex` constructor does not throw) and `finds(r, v)` (`find` returns a
  match).
- The shape test `parametersMatch` is defined outside the modelled files and
  is not modelled as written. It is taken as an exact match: the same number of steps, with step `i` of type
  `shape[i]`.
- Touch coordinates are `real`; the measured widths (`measureLineNumber`,
  `measureTextRegionOffset`, the margins, the divider width) are fields of a
  `Layout` input. The result is a pair rather than a packed long.
- In the window, providers and button views are `nat` ids, and `isShowing()`
  is the field `showing`. Posting `displayWindow` to the event loop is the
  recorded action `DisplayPosted`. The positions computed by `selectTop` are
  inputs (`Placement`).
- The window's integer fields start at Java's default of 0, so `lastPosition`
  starts at 0 and `lastCause` starts at 0, the unknown cause.

## Model

| member | source | states |
|---|---|---|
| PredicateCommon.IsTwoArgCall | language-treesitter/src/main/java/io/github/rosemoe/sora/editor/ts/predicate/builtin/EqPredicate.kt:13 | a call with the declared shape String, Capture, String, Done has exactly four steps |
| PredicateCommon.CheckAll | language-treesitter/src/main/java/io/github/rosemoe/sora/editor/ts/predicate/builtin/EqPredicate.kt:27-32 | the early-return loop over the captures never answers UNHANDLED; it answers ACCEPT iff every value passes (so an empty list is ACCEPT), and REJECT iff some value fails |
| Eq.DoPredicate | language-treesitter/src/main/java/io/github/rosemoe/sora/editor/ts/predicate/builtin/EqPredicate.kt:22-32 | UNHANDLED iff the shape is wrong or the name is not exactly `eq?`; otherwise ACCEPT iff every captured value equals step 2's content, REJECT iff one differs |
| Eq.EqIsSingletonAnyOf | language-treesitter/src/main/java/io/github/rosemoe/sora/editor/ts/predicate/builtin/EqPredicate.kt:22-32 | `(#eq? @c "v")` gives the answer that `(#any-of? @c "v")` gives: the any-of call is owned, its only candidate is "v", and the equality test agrees with membership on every capture list |
| AnyOf.FirstDone | language-treesitter/src/main/java/io/github/rosemoe/sora/editor/ts/predicate/builtin/AnyOfPredicate.kt:27-29 | the index where the candidate loop stops: no Done step before it, and a Done step at it unless it is the end of the list |
| AnyOf.CollectCandidates | language-treesitter/src/main/java/io/github/rosemoe/sora/editor/ts/predicate/builtin/AnyOfPredicate.kt:26-33 | the collected candidates have no duplicates and are exactly the contents of the String steps from index 2 up to the first Done step; other step types are skipped |
| AnyOf.DoPredicate | language-treesitter/src/main/java/io/github/rosemoe/sora/editor/ts/predicate/builtin/AnyOfPredicate.kt:20-42 | UNHANDLED iff the call is empty, misnamed (`any-of?`/`any_of?`), shorter than 4 steps, has no capture at step 1, or has no candidates; otherwise ACCEPT iff every captured value is a candidate, REJECT iff one is not |
| AnyOf.FirstDoneOfExtension | language-treesitter/src/main/java/io/github/rosemoe/sora/editor/ts/predicate/builtin/AnyOfPredicate.kt:29 | appending steps after a Done step does not move the first Done step |
| AnyOf.StepsAfterDoneIgnored | language-treesitter/src/main/java/io/github/rosemoe/sora/editor/ts/predicate/builtin/AnyOfPredicate.kt:27-33 | whatever follows the first Done step never changes the candidate set |
| LuaMatch.ClassToRegex | language-treesitter/src/main/java/io/github/rosemoe/sora/editor/ts/predicate/builtin/LuaMatchPredicate.kt:85-105 | a replacement exists iff the letter is one of `aAcCdDlLpPsSuUwWxX`, and every replacement is a backslash escape |
| LuaMatch.UpperClassIsComplement | language-treesitter/src/main/java/io/github/rosemoe/sora/editor/ts/predicate/builtin/LuaMatchPredicate.kt:86-103 | for each lower-case class letter, the upper-case letter's regex is the lower-case one with its second character upper-cased (`\p{..}` to `\P{..}`, `\d` to `\D`, `\s` to `\S`), which is Java's negated class |
| LuaMatch.LuaPatternToJavaRegex | language-treesitter/src/main/java/io/github/rosemoe/sora/editor/ts/predicate/builtin/LuaMatchPredicate.kt:45-83 | the loop and its fast path for patterns without `%` return exactly `Translate(pattern)`; the loop ends because `|pattern| - i` decreases by 1 or 2 each round |
| LuaMatch.ScanStep | language-treesitter/src/main/java/io/github/rosemoe/sora/editor/ts/predicate/builtin/LuaMatchPredicate.kt:51-80 | one round of the loop consumes one or two pattern characters, and what it appends followed by the translation of the rest is the translation from the current index |
| LuaMatch.NoPercentIsIdentity | language-treesitter/src/main/java/io/github/rosemoe/sora/editor/ts/predicate/builtin/LuaMatchPredicate.kt:46 | a pattern without `%` translates to itself, which justifies the fast path |
| LuaMatch.TokenizeWellFormed | language-treesitter/src/main/java/io/github/rosemoe/sora/editor/ts/predicate/builtin/LuaMatchPredicate.kt:50-62 | a token made from a plain character is never `%`, and a lone `%` can only be the last token |
| LuaMatch.UntokenizeTokenize | language-treesitter/src/main/java/io/github/rosemoe/sora/editor/ts/predicate/builtin/LuaMatchPredicate.kt:49-81 | the scan reads every pattern character exactly once: gluing the tokens' source texts back together gives the pattern |
| LuaMatch.TokenizeUntokenize | language-treesitter/src/main/java/io/github/rosemoe/sora/editor/ts/predicate/builtin/LuaMatchPredicate.kt:49-81 | conversely, every well-formed token list is recovered from its text |
| LuaMatch.TranslateIsRenderedTokens | language-treesitter/src/main/java/io/github/rosemoe/sora/editor/ts/predicate/builtin/LuaMatchPredicate.kt:49-81 | the scan's output equals the tokens rendered one by one, for every pattern |
| LuaMatch.TranslateAppend | language-treesitter/src/main/java/io/github/rosemoe/sora/editor/ts/predicate/builtin/LuaMatchPredicate.kt:49-81 | after a prefix whose `%`s are all paired, the rest translates independently: `Translate(a + b) == Translate(a) + Translate(b)` |
| LuaMatch.LiteralIsCopied | language-treesitter/src/main/java/io/github/rosemoe/sora/editor/ts/predicate/builtin/LuaMatchPredicate.kt:51-56 | after a prefix whose `%`s are all paired, a character other than `%` is copied verbatim, in place, whatever follows |
| LuaMatch.TrailingPercentIsLiteral | language-treesitter/src/main/java/io/github/rosemoe/sora/editor/ts/predicate/builtin/LuaMatchPredicate.kt:58-62 | after a prefix whose `%`s are all paired, a `%` that ends the pattern is emitted as a literal `%` |
| LuaMatch.EscapeIsRewritten | language-treesitter/src/main/java/io/github/rosemoe/sora/editor/ts/predicate/builtin/LuaMatchPredicate.kt:64-80 | `%c` becomes the class table entry when `c` is a class letter, `%%` becomes `%`, and any other `%c` becomes `\c`, after any prefix whose `%`s are all paired and before any suffix |
| LuaMatch.DoPredicate | language-treesitter/src/main/java/io/github/rosemoe/sora/editor/ts/predicate/builtin/LuaMatchPredicate.kt:25-42 | UNHANDLED iff the shape is wrong, the name is neither `lua-match?` nor `lua_match?`, or the translated pattern does not compile; otherwise ACCEPT iff the regex is found in every captured value, REJECT iff it is missing from one |
| RegionResolver.Region | editor/src/main/java/io/github/rosemoe/sora/widget/RegionResolver.kt:46-64 | the region is one of the six constants; a negative gutter x is OUTBOUND; the line-number region is exactly `0..lineNumberWidth`; with non-negative widths, the side icons are the half-open interval after it, the divider margin is the two intervals around the divider, the divider is only the OPEN interval between them, the gutter regions cover exactly `0..gutterEnd`, and TEXT is returned iff x lies past the gutter and passes the text or word-wrap test |
| RegionResolver.HalfOf | editor/src/main/java/io/github/rosemoe/sora/widget/RegionResolver.kt:65 | `height / 2` is Kotlin's `Int` division, truncating toward zero for both signs |
| RegionResolver.Bound | editor/src/main/java/io/github/rosemoe/sora/widget/RegionResolver.kt:49-69 | the bound is IN_BOUND or OUT_BOUND, and IN_BOUND iff `0 <= rawY + offsetY <= scrollMaxY + height/2` |
| RegionResolver.ResolveTouchRegion | editor/src/main/java/io/github/rosemoe/sora/widget/RegionResolver.kt:42-71 | the pair holds a region in `0..5` and a bound in `0..1` |
| RegionResolver.PinnedGutterIgnoresScroll | editor/src/main/java/io/github/rosemoe/sora/widget/RegionResolver.kt:44-47 | with pinned line numbers and no word wrap, horizontal scrolling never moves a touch into, out of, or between the gutter regions |
| RegionResolver.UnpinnedGutterScrollsWithText | editor/src/main/java/io/github/rosemoe/sora/widget/RegionResolver.kt:46-48 | otherwise only `rawX + offsetX` matters: shifting the touch against the scroll offset leaves the region unchanged |
| TextActionWindow.Without | editor/src/main/java/io/github/rosemoe/sora/widget/component/EditorTextActionWindow.java:427 | after removal, a provider is in the list iff it was there before and is not the removed one |
| TextActionWindow.WithoutAbsent | editor/src/main/java/io/github/rosemoe/sora/widget/component/EditorTextActionWindow.java:425-428 | removing an absent provider changes nothing |
| TextActionWindow.WithoutAt | editor/src/main/java/io/github/rosemoe/sora/widget/component/EditorTextActionWindow.java:417-428 | in a duplicate-free list, removing the provider at `k` cuts out exactly position `k` and keeps the others in order |
| TextActionWindow.AddThenRemove | editor/src/main/java/io/github/rosemoe/sora/widget/component/EditorTextActionWindow.java:405-427 | appending a new provider and then removing it gives back the original list |
| TextActionWindow.WithoutKeepsDistinct | editor/src/main/java/io/github/rosemoe/sora/widget/component/EditorTextActionWindow.java:412-429 | removal keeps the registry free of duplicates |
| TextActionWindow.WithoutEntry | editor/src/main/java/io/github/rosemoe/sora/widget/component/EditorTextActionWindow.java:417-427 | the entry list with the first entry for a provider taken out: at most one entry shorter, and every remaining entry was there before |
| TextActionWindow.WithoutEntryAt | editor/src/main/java/io/github/rosemoe/sora/widget/component/EditorTextActionWindow.java:417-427 | when `k` is the first index whose entry has the provider, the removal cuts out exactly position `k` |
| TextActionWindow.WithoutEntryAbsent | editor/src/main/java/io/github/rosemoe/sora/widget/component/EditorTextActionWindow.java:425-428 | when no entry has the provider, the entry list is unchanged |
| TextActionWindow.WithoutEntryProviders | editor/src/main/java/io/github/rosemoe/sora/widget/component/EditorTextActionWindow.java:412-429 | in a registry with no provider twice, removing the provider's entry removes the provider from the provider list |
| TextActionWindow.SelectionStep | editor/src/main/java/io/github/rosemoe/sora/widget/component/EditorTextActionWindow.java:223-254 | a held handle or DEAD_KEYS changes nothing; drag-selecting only dismisses and keeps `lastCause`; otherwise `lastCause` is the event's cause, `lastPosition` is the tap index iff the cause is TAP and the window was not posted (else -1), the window is posted iff the selection opens it with a cause other than SEARCH or a tap repeats the remembered spot while hidden, outside a batch edit, in an editable editor, and the window stays showing iff it was and was not dismissed |
| TextActionWindow.TapTwiceShows | editor/src/main/java/io/github/rosemoe/sora/widget/component/EditorTextActionWindow.java:241-252 | two caret taps on the same spot post the window: either the first one does, or it remembers the spot and hides the window, and the second one does |
| TextActionWindow.ThirdTapStartsOver | editor/src/main/java/io/github/rosemoe/sora/widget/component/EditorTextActionWindow.java:241-252 | once a tap has posted the window, the next tap on that spot dismisses and remembers the spot again |
| TextActionWindow.ClampTop | editor/src/main/java/io/github/rosemoe/sora/widget/component/EditorTextActionWindow.java:330 | the clamped top is at least 0, at most `editorHeight - windowHeight - 5` whenever that bound is non-negative, unchanged when already in range; a negative top or a negative bound gives 0, and a top past a non-negative bound gives the bound |
| TextActionWindow.Window.constructor | editor/src/main/java/io/github/rosemoe/sora/widget/component/EditorTextActionWindow.java:76-82 | a new window is enabled and hidden, has an empty registry, and its integer fields start at 0 |
| TextActionWindow.Window.IndexOfProvider | editor/src/main/java/io/github/rosemoe/sora/widget/component/EditorTextActionWindow.java:418-423 | the search loop returns -1 iff the provider is not registered, and otherwise the first index holding it |
| TextActionWindow.Window.AddExtraButtonProvider | editor/src/main/java/io/github/rosemoe/sora/widget/component/EditorTextActionWindow.java:369-406 | without a container, or with the provider already registered, the entries stay as they were; otherwise exactly one entry is appended, pairing the provider with a newly numbered button, and the container's buttons stay equal to the entries' buttons; no provider and no button appears twice |
| TextActionWindow.Window.RemoveExtraButtonProvider | editor/src/main/java/io/github/rosemoe/sora/widget/component/EditorTextActionWindow.java:412-429 | without a container the entries stay as they were; otherwise the first entry for the provider leaves the entries and its button leaves the container, the other entries keep their buttons and their order, and the provider list loses exactly that provider |
| TextActionWindow.Window.ClearExtraButtonProviders | editor/src/main/java/io/github/rosemoe/sora/widget/component/EditorTextActionWindow.java:434-443 | the registry and the container's extra buttons become empty, unless there is no container |
| TextActionWindow.Window.GetExtraButtonProviders | editor/src/main/java/io/github/rosemoe/sora/widget/component/EditorTextActionWindow.java:449-455 | returns the registered providers in insertion order |
| TextActionWindow.Window.Show | editor/src/main/java/io/github/rosemoe/sora/widget/component/EditorTextActionWindow.java:500-505 | the popup appears only when the window is enabled, no snippet is active, the editor has focus and is not in mouse mode |
| TextActionWindow.Window.SetEnabled | editor/src/main/java/io/github/rosemoe/sora/widget/component/EditorTextActionWindow.java:262-268 | sets `enabled`; disabling also dismisses |
| TextActionWindow.Window.DisplayWindow | editor/src/main/java/io/github/rosemoe/sora/widget/component/EditorTextActionWindow.java:317-336 | the window goes to the clamped higher of the two handle positions when text is selected, else to the insert-handle position, and is then shown through the `Show` gate |
| TextActionWindow.Window.OnSelectionChange | editor/src/main/java/io/github/rosemoe/sora/widget/component/EditorTextActionWindow.java:223-254 | the handler's new `lastCause`, `lastPosition` and `showing`, and its action, are exactly `SelectionStep` of the old state |
| TextActionWindow.Window.OnEditorLongPress | editor/src/main/java/io/github/rosemoe/sora/widget/component/EditorTextActionWindow.java:181-190 | a long press on a search selection is intercepted; inside the selection it resets `lastCause` and displays the window at the clamped handle position; otherwise nothing changes |
| TextActionWindow.Window.OnEditorFocusChange | editor/src/main/java/io/github/rosemoe/sora/widget/component/EditorTextActionWindow.java:167-171 | losing focus dismisses the window |
| TextActionWindow.Window.OnEditorRelease | editor/src/main/java/io/github/rosemoe/sora/widget/component/EditorTextActionWindow.java:177-179 | releasing the editor disables and hides the window |
| TextActionWindow.Window.OnDragSelectingStop | editor/src/main/java/io/github/rosemoe/sora/widget/component/EditorTextActionWindow.java:173-175 | the end of a drag selection places the window at the clamped handle position and shows it through the `Show` gate |

## Left out

- `getCaptureContent`, `parametersMatch`, the tree-sitter query and match objects and the Java regex engine are defined outside the modelled files and are not modelled. Captures are an input, the shape test is an exact match, and compiling and finding regexes are function parameters.
- `LuaMatchPredicate`: the map that memoises compiled regexes (lines 16 and 32) and the stack-trace print in the `catch` block (line 40) are both left out. Neither changes any answer.
- RegionResolver: floating-point rounding and NaN are not modelled, because coordinates are real numbers. Reading the pointer from the `MotionEvent` is not modelled either; the raw coordinates are inputs. `IntPair.pack` is replaced by a pair.
- TextActionWindow: the Android views, popup window, drawables, colour filters, inflation, measuring and button visibility updates are UI toolkit calls and are left out. The button click handlers are left out too: they only forward to editor operations that are not part of this model.
- TextActionWindow: `onEditorScroll`, `postDisplay`, `onHandleStateChange` and all posted or delayed runnables are left out. They depend on the clock and the event loop. Posting `displayWindow` from `onSelectionChange` is recorded as an action but never run.
- TextActionWindow: `selectTop` and the horizontal `panelX` midpoint use float arithmetic and casts. They are left out; the proposed vertical positions are inputs.
- TextActionWindow.Window.SetEnabled: does not model switching the sub event manager on or off. So the model does not capture that a disabled window stops receiving events.
- TextActionWindow: `dismiss()`, `isShowing()` and `super.show()` belong to the popup base class, which is not part of this model. They are modelled as clearing the field `showing`, reading it, and setting it unconditionally.
- TextActionWindow.ClampTop, RegionResolver.Region, RegionResolver.Bound: 32-bit `int` overflow is not modelled in `editorHeight - windowHeight - 5`, `scrollMaxX + width` or `scrollMaxY + height / 2`; the sums are unbounded integers, because view sizes and scroll ranges are far below the 32-bit range.
- TextActionWindow.Window.RemoveExtraButtonProvider: removes the button from the container by its position, not by view identity. The two agree because the invariant `Valid` keeps the container's extra buttons equal to the registered entries' buttons, with no button id twice.
- The numeric values of the selection-change causes come from a class that is not part of this model. Causes are a datatype, and `lastCause = 0` is the unknown cause.
- Kotlin strings are sequences of UTF-16 code units, and Dafny strings are sequences of Unicode scalar values. For well-formed text the translation gives the same result, because only the ASCII characters `%` and the class letters are special: `%` before a surrogate pair becomes `\` followed by that character. Strings that hold a lone surrogate cannot be represented in the model.
- LineBreakpoint.kt is a plain data holder with no behaviour and is not modelled.
