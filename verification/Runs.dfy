/** Runs of a state machine, and what can be observed along them. */
module Runs {

  /** `states[k]` becomes `states[k + 1]` by turn `k`. */
  ghost predicate Linked<S(!new), T(!new)>(states: seq<S>, turns: seq<T>, next: (S, T, S) -> bool) {
    && |states| == |turns| + 1
    && forall k {:trigger turns[k]} :: 0 <= k < |turns| ==> next(states[k], turns[k], states[k + 1])
  }

  /** A value an observer keeps up to date turn by turn, after `k` turns. */
  ghost function Observed<S(!new), T(!new), V(!new)>(states: seq<S>, turns: seq<T>, k: nat, start: V,
      after: (S, T, S, V) -> V): V
    requires |states| == |turns| + 1 && k < |states|
  {
    if k == 0 then start
    else after(states[k - 1], turns[k - 1], states[k], Observed(states, turns, k - 1, start, after))
  }

  /** A relation between state and observer that every turn keeps holds all along. */
  lemma {:induction false} Always<S(!new), T(!new), V(!new)>(states: seq<S>, turns: seq<T>, k: nat,
      next: (S, T, S) -> bool, start: V, after: (S, T, S, V) -> V, good: (S, V) -> bool)
    requires Linked(states, turns, next) && k < |states| && good(states[0], start)
    requires forall s, turn, t, v :: good(s, v) && next(s, turn, t) ==> good(t, after(s, turn, t, v))
    ensures good(states[k], Observed(states, turns, k, start, after))
  {
    if k > 0 {
      Always(states, turns, k - 1, next, start, after, good);
      assert next(states[k - 1], turns[k - 1], states[k]);
    }
  }
}
