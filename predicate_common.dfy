/** Vocabulary shared by the built-in tree-sitter query predicates: the steps a
    predicate call is made of, the three answers a predicate can give, the
    shape test every predicate starts with, and the per-capture check loop. */
module PredicateCommon {

  /** The type tag of one predicate step, as tree-sitter reports it. */
  datatype StepType = StringStep | CaptureStep | DoneStep

  /** One step of a predicate call: `(#eq? @name "value")` arrives as the
      steps String "eq?", Capture "name", String "value", Done. */
  datatype Step = Step(kind: StepType, content: string)

  /** UNHANDLED: the predicate does not apply; ACCEPT / REJECT: it applies and
      the match is kept / dropped. */
  datatype PredicateResult = Unhandled | Accept | Reject

  /** The shape String, Capture, String, Done that `eq?` and `lua-match?`
      declare. */
  const TwoArgShape: seq<StepType> := [StringStep, CaptureStep, StringStep, DoneStep]

  /** True when the steps have exactly the declared type sequence. */
  predicate ParametersMatch(steps: seq<Step>, shape: seq<StepType>)
  {
    |steps| == |shape| && forall i :: 0 <= i < |steps| ==> steps[i].kind == shape[i]
  }

  /** A two-argument call: shape String, Capture, String, Done. */
  predicate IsTwoArgCall(steps: seq<Step>)
    ensures IsTwoArgCall(steps) ==> |steps| == 4
  {
    ParametersMatch(steps, TwoArgShape)
  }

  /** The loop `for (value in captured) if (!ok(value)) return REJECT;
      return ACCEPT`, written as the recursion it unrolls to. */
  function CheckAll(values: seq<string>, ok: string -> bool): (r: PredicateResult)
    ensures r != Unhandled
    ensures r == Accept <==> forall i :: 0 <= i < |values| ==> ok(values[i])
    ensures r == Reject <==> exists i :: 0 <= i < |values| && !ok(values[i])
    decreases |values|
  {
    if values == [] then Accept
    else if !ok(values[0]) then Reject
    else
      var rest := CheckAll(values[1..], ok);
      assert forall i :: 1 <= i < |values| ==> values[i] == values[1..][i - 1];
      rest
  }
}
