/** Runs of a step relation: sequences of states that follow each other. */
module Runs {
  ghost predicate StepAt<S(!new), T(!new)>(next: (S, T, S) -> bool, states: seq<S>, steps: seq<T>, n: nat)
    requires |states| == |steps| + 1 && n < |steps|
  {
    next(states[n], steps[n], states[n + 1])
  }

  ghost predicate Run<S(!new), T(!new)>(init: S -> bool, next: (S, T, S) -> bool, states: seq<S>, steps: seq<T>) {
    && |states| == |steps| + 1 && init(states[0])
    && forall n: nat | n < |steps| :: StepAt(next, states, steps, n)
  }

  /** Some run ends here. */
  ghost predicate Reachable<S(!new), T(!new)>(init: S -> bool, next: (S, T, S) -> bool, s: S) {
    exists states: seq<S>, steps: seq<T> :: Run(init, next, states, steps) && states[|steps|] == s
  }

  /** What holds at first and is kept by every step holds throughout every run. */
  lemma {:induction false} Always<S(!new), T(!new)>(init: S -> bool, next: (S, T, S) -> bool, inv: S -> bool,
                                                     states: seq<S>, steps: seq<T>, n: nat)
    requires Run(init, next, states, steps) && n <= |steps|
    requires forall s | init(s) :: inv(s)
    requires forall s, t, u | inv(s) && next(s, t, u) :: inv(u)
    ensures inv(states[n])
  {
    if n > 0 {
      Always(init, next, inv, states, steps, n - 1);
      assert StepAt(next, states, steps, n - 1);
    }
  }

  lemma ReachableKeeps<S(!new), T(!new)>(init: S -> bool, next: (S, T, S) -> bool, inv: S -> bool, s: S)
    requires Reachable(init, next, s)
    requires forall s | init(s) :: inv(s)
    requires forall s, t, u | inv(s) && next(s, t, u) :: inv(u)
    ensures inv(s)
  {
    var states: seq<S>, steps: seq<T> :| Run(init, next, states, steps) && states[|steps|] == s;
    Always(init, next, inv, states, steps, |steps|);
  }

  lemma InitIsReachable<S(!new), T(!new)>(init: S -> bool, next: (S, T, S) -> bool, s: S)
    requires init(s)
    ensures Reachable(init, next, s)
  {
    assert Run<S, T>(init, next, [s], []);
  }

  lemma NextIsReachable<S(!new), T(!new)>(init: S -> bool, next: (S, T, S) -> bool, s: S, t: T, u: S)
    requires Reachable(init, next, s) && next(s, t, u)
    ensures Reachable(init, next, u)
  {
    var states: seq<S>, steps: seq<T> :| Run(init, next, states, steps) && states[|steps|] == s;
    var states', steps' := states + [u], steps + [t];
    forall n: nat | n < |steps'| ensures StepAt(next, states', steps', n) {
      if n < |steps| { assert StepAt(next, states, steps, n); }
    }
    assert Run(init, next, states', steps');
  }
}
