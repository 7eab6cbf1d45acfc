/** Runs of a deterministic machine that may emit outputs at every step. */
module Machine {
  import opened Bytes

  datatype Outcome<S, O> = Outcome(state: S, outputs: seq<O>)

  function Run<S, I, O>(step: (S, I) -> Outcome<S, O>, state: S, inputs: seq<I>): Outcome<S, O>
    decreases |inputs|
  {
    if inputs == [] then Outcome(state, [])
    else
      var first := step(state, inputs[0]);
      var rest := Run(step, first.state, inputs[1..]);
      Outcome(rest.state, first.outputs + rest.outputs)
  }

  lemma {:induction false} RunConcat<S, I, O>(step: (S, I) -> Outcome<S, O>, state: S, xs: seq<I>, ys: seq<I>)
    ensures
      var first := Run(step, state, xs);
      var second := Run(step, first.state, ys);
      Run(step, state, xs + ys) == Outcome(second.state, first.outputs + second.outputs)
    decreases |xs|
  {
    if xs == [] {
      assert xs + ys == ys;
    } else {
      ConcatParts(xs, ys);
      var head := step(state, xs[0]);
      RunConcat(step, head.state, xs[1..], ys);
      var r1 := Run(step, head.state, xs[1..]);
      var r2 := Run(step, r1.state, ys);
      assert head.outputs + (r1.outputs + r2.outputs) == head.outputs + r1.outputs + r2.outputs;
    }
  }
}
