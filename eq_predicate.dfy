/** The `eq?` query predicate: `(#eq? @name "value")` keeps a match when
    every text of the capture equals the given string. */
module Eq {
  import opened PredicateCommon
  import AnyOf

  /** The call has the shape String, Capture, String, Done and is named
      exactly `eq?`; no other spelling is accepted. */
  predicate Owns(steps: seq<Step>)
  {
    IsTwoArgCall(steps) && steps[0].content == "eq?"
  }

  /** `captured` holds the texts of the capture named by step 1. */
  function DoPredicate(steps: seq<Step>, captured: seq<string>): (r: PredicateResult)
    ensures r == Unhandled <==> !Owns(steps)
    ensures r == Accept <==>
      Owns(steps) && forall i :: 0 <= i < |captured| ==> captured[i] == steps[2].content
    ensures r == Reject <==>
      Owns(steps) && exists i :: 0 <= i < |captured| && captured[i] != steps[2].content
  {
    if !IsTwoArgCall(steps) then Unhandled
    else if steps[0].content != "eq?" then Unhandled
    else
      var expected := steps[2].content;
      CheckAll(captured, value => value == expected)
  }

  /** `(#eq? @c "v")` decides a match exactly as `(#any-of? @c "v")` does:
      the any-of call owns the match, its only candidate is "v", and the
      equality test agrees with the membership test on every capture list. */
  lemma EqIsSingletonAnyOf(capture: string, value: string, captured: seq<string>)
    ensures var anySteps := [Step(StringStep, "any-of?"), Step(CaptureStep, capture),
                             Step(StringStep, value), Step(DoneStep, "")];
      AnyOf.Owns(anySteps) && AnyOf.CandidateSet(anySteps) == {value} &&
      DoPredicate([Step(StringStep, "eq?"), Step(CaptureStep, capture),
                   Step(StringStep, value), Step(DoneStep, "")], captured) ==
        if forall i :: 0 <= i < |captured| ==> captured[i] in AnyOf.CandidateSet(anySteps)
        then Accept else Reject
  {
    var anySteps := [Step(StringStep, "any-of?"), Step(CaptureStep, capture),
                     Step(StringStep, value), Step(DoneStep, "")];
    assert AnyOf.FirstDone(anySteps, 3) == 3;
    assert AnyOf.FirstDone(anySteps, 2) == 3;
    assert AnyOf.CandidateSet(anySteps) == {value} by {
      assert anySteps[2].content in AnyOf.CandidateSet(anySteps);
    }
    var eqSteps := [Step(StringStep, "eq?"), Step(CaptureStep, capture),
                    Step(StringStep, value), Step(DoneStep, "")];
    assert IsTwoArgCall(eqSteps);
  }
}
