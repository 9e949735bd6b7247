/** Induction over the runs of a state machine. */
module Runs {

  /** `states[k + 1]` follows from `states[k]` by `events[k]`. */
  ghost predicate IsRunOf<S(!new), E(!new)>(step: (S, E, S) -> bool, states: seq<S>, events: seq<E>) {
    && |states| == |events| + 1
    && forall k {:trigger events[k]} :: 0 <= k < |events| ==> step(states[k], events[k], states[k + 1])
  }

  ghost predicate AllOk<S(!new), E(!new)>(ok: (S, E) -> bool, states: seq<S>, events: seq<E>, n: nat)
    requires n <= |events| < |states|
  {
    forall k :: 0 <= k < n ==> ok(states[k], events[k])
  }

  lemma {:induction false} Invariant<S(!new), E(!new)>(step: (S, E, S) -> bool, inv: S -> bool, states: seq<S>,
                                       events: seq<E>, n: nat)
    requires IsRunOf(step, states, events) && n < |states| && inv(states[0])
    requires forall s, e, s' :: inv(s) && step(s, e, s') ==> inv(s')
    ensures inv(states[n])
  {
    if n > 0 {
      Invariant(step, inv, states, events, n - 1);
      assert step(states[n - 1], events[n - 1], states[n - 1 + 1]);
    }
  }

  /** If a good state stays good by an acceptable step and becomes bad by any other, and a bad state
    * stays bad, then a state is good exactly when every step to it was acceptable. */
  lemma {:induction false} GoodIff<S(!new), E(!new)>(step: (S, E, S) -> bool, inv: S -> bool, good: S -> bool,
                                     bad: S -> bool, ok: (S, E) -> bool,
                                                     states: seq<S>, events: seq<E>, n: nat)
    requires IsRunOf(step, states, events) && n < |states| && inv(states[0]) && good(states[0])
    requires forall s, e, s' :: inv(s) && step(s, e, s') ==> inv(s')
    requires forall s, e, s' :: inv(s) && good(s) && step(s, e, s') ==> if ok(s, e) then good(s') else bad(s')
    requires forall s, e, s' :: inv(s) && bad(s) && step(s, e, s') ==> bad(s')
    requires forall s :: bad(s) ==> !good(s)
    ensures inv(states[n]) && (if AllOk(ok, states, events, n) then good(states[n]) else bad(states[n]))
    ensures good(states[n]) <==> AllOk(ok, states, events, n)
  {
    if n > 0 {
      GoodIff(step, inv, good, bad, ok, states, events, n - 1);
      assert step(states[n - 1], events[n - 1], states[n - 1 + 1]);
      assert AllOk(ok, states, events, n) <==> AllOk(ok, states, events, n - 1) && ok(states[n - 1], events[n - 1]);
    }
  }
}
