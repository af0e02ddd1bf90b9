/** Runs of a state machine whose steps may have several outcomes. */
module Runs {

  /** Taking the inputs one after the other, starting in from, can end in s. */
  ghost predicate Reaches<S(!new), M(!new)>(step: (S, M, S) -> bool, from: S, inputs: seq<M>, s: S)
    decreases |inputs|
  {
    if inputs == [] then s == from
    else
      var front, last := inputs[..|inputs| - 1], inputs[|inputs| - 1];
      exists before :: Reaches(step, from, front, before) && step(before, last, s)
  }

  lemma ReachesNext<S(!new), M(!new)>(step: (S, M, S) -> bool, from: S, inputs: seq<M>, before: S, m: M, s: S)
    requires Reaches(step, from, inputs, before) && step(before, m, s)
    ensures Reaches(step, from, inputs + [m], s)
  {
    assert (inputs + [m])[..|inputs|] == inputs;
  }

  lemma LastStep<S(!new), M(!new)>(step: (S, M, S) -> bool, from: S, inputs: seq<M>, s: S) returns (before: S)
    requires inputs != [] && Reaches(step, from, inputs, s)
    ensures Reaches(step, from, inputs[..|inputs| - 1], before) && step(before, inputs[|inputs| - 1], s)
  {
    before :| Reaches(step, from, inputs[..|inputs| - 1], before) && step(before, inputs[|inputs| - 1], s);
  }

  lemma ThreeSteps<S(!new), M(!new)>(step: (S, M, S) -> bool, s0: S, a: M, s1: S, b: M, s2: S, c: M, s3: S)
    requires step(s0, a, s1) && step(s1, b, s2) && step(s2, c, s3)
    ensures Reaches(step, s0, [a, b, c], s3)
  {
    ReachesNext(step, s0, [], s0, a, s1);
    ReachesNext(step, s0, [] + [a], s1, b, s2);
    ReachesNext(step, s0, [] + [a] + [b], s2, c, s3);
    assert [] + [a] + [b] + [c] == [a, b, c];
  }
}
