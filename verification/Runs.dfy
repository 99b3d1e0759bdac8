/** Runs of a state machine that consumes one input and produces one output per step.  The codecs
    of this project are such machines, one sample, code or frame at a time. */
module Runs {

  /** Feeds `inputs` to `step` from left to right; returns the last state and all outputs. */
  function Run<State, In, Out>(step: (State, In) -> (State, Out), s: State, inputs: seq<In>): (r: (State, seq<Out>))
    ensures |r.1| == |inputs|
  {
    if inputs == [] then (s, [])
    else
      var n := |inputs| - 1;
      var (s1, out) := Run(step, s, inputs[..n]);
      var (s2, o) := step(s1, inputs[n]);
      (s2, out + [o])
  }

  /** A run over a concatenation is the run over its parts, state handed on. */
  lemma {:induction false} RunConcat<State, In, Out>(step: (State, In) -> (State, Out), s: State, a: seq<In>, b: seq<In>)
    ensures Run(step, s, a + b).0 == Run(step, Run(step, s, a).0, b).0
    ensures Run(step, s, a + b).1 == Run(step, s, a).1 + Run(step, Run(step, s, a).0, b).1
  {
    if b == [] {
      assert a + b == a;
    } else {
      var n := |b| - 1;
      RunConcat(step, s, a, b[..n]);
      assert (a + b)[..|a + b| - 1] == a + b[..n];
    }
  }

  /** No input. */
  lemma RunNothing<State, In, Out>(step: (State, In) -> (State, Out), s: State)
    ensures Run(step, s, []) == (s, [])
  {
  }

  /** One more input. */
  lemma RunSnoc<State, In, Out>(step: (State, In) -> (State, Out), s: State, inputs: seq<In>, k: nat)
    requires k < |inputs|
    ensures var r := Run(step, s, inputs[..k]);
            var t := step(r.0, inputs[k]);
            Run(step, s, inputs[..k + 1]) == (t.0, r.1 + [t.1])
  {
    assert inputs[..k + 1][..k] == inputs[..k];
  }

  /** A property every step keeps holds after every run. */
  lemma {:induction false} RunKeeps<State(!new), In(!new), Out>(step: (State, In) -> (State, Out), inv: State -> bool, s: State, inputs: seq<In>)
    requires inv(s)
    requires forall t, i :: inv(t) ==> inv(step(t, i).0)
    ensures inv(Run(step, s, inputs).0)
  {
    if inputs != [] {
      RunKeeps(step, inv, s, inputs[..|inputs| - 1]);
    }
  }

  /** A run cut into four. */
  lemma RunFour<State, In, Out>(step: (State, In) -> (State, Out), s: State, a: seq<In>, b: seq<In>, c: seq<In>, d: seq<In>)
    ensures var ra := Run(step, s, a);
            var rb := Run(step, ra.0, b);
            var rc := Run(step, rb.0, c);
            var rd := Run(step, rc.0, d);
            Run(step, s, a + b + c + d) == (rd.0, ra.1 + rb.1 + rc.1 + rd.1)
  {
    RunConcat(step, s, a, b);
    RunConcat(step, s, a + b, c);
    RunConcat(step, s, a + b + c, d);
  }
}
