/** Runs of a state machine: the state after a list of actions and the events they report, one each. */
module Runs {
  /** A step: the state before, the action and how many actions came before it, to the state after and an event. */
  type Machine<!S, !A, !E> = (S, A, nat) -> (S, E)

  function Last<T>(xs: seq<T>): T
    requires xs != []
  {
    xs[|xs| - 1]
  }

  function Init<T>(xs: seq<T>): seq<T>
    requires xs != []
  {
    xs[..|xs| - 1]
  }

  ghost function StateAfter<S, A, E>(m: Machine<S, A, E>, start: S, actions: seq<A>): S {
    if actions == [] then start
    else m(StateAfter(m, start, Init(actions)), Last(actions), |actions| - 1).0
  }

  ghost function LogOf<S, A, E>(m: Machine<S, A, E>, start: S, actions: seq<A>): (log: seq<E>)
    ensures |log| == |actions|
  {
    if actions == [] then []
    else
      var event := m(StateAfter(m, start, Init(actions)), Last(actions), |actions| - 1).1;
      LogOf(m, start, Init(actions)) + [event]
  }

  /** What one more action does. */
  lemma OneMore<S, A, E>(m: Machine<S, A, E>, start: S, actions: seq<A>, a: A)
    ensures StateAfter(m, start, actions + [a]) == m(StateAfter(m, start, actions), a, |actions|).0
    ensures LogOf(m, start, actions + [a]) ==
      LogOf(m, start, actions) + [m(StateAfter(m, start, actions), a, |actions|).1]
  {
    assert Init(actions + [a]) == actions && Last(actions + [a]) == a;
  }

  lemma {:induction false} LogOfPrefix<S, A, E>(m: Machine<S, A, E>, start: S, actions: seq<A>, n: nat)
    requires n <= |actions|
    ensures LogOf(m, start, actions[..n]) == LogOf(m, start, actions)[..n]
  {
    if n < |actions| {
      LogOfPrefix(m, start, Init(actions), n);
      assert Init(actions)[..n] == actions[..n];
    } else {
      assert actions[..n] == actions;
    }
  }

  /** The event and the log at one point of a run. */
  lemma {:induction false} EventAt<S, A, E>(m: Machine<S, A, E>, start: S, actions: seq<A>, i: nat)
    requires i < |actions|
    ensures LogOf(m, start, actions)[i] == m(StateAfter(m, start, actions[..i]), actions[i], i).1
    ensures LogOf(m, start, actions)[..i] == LogOf(m, start, actions[..i])
  {
    LogOfPrefix(m, start, actions, i);
    if i + 1 < |actions| {
      EventAt(m, start, Init(actions), i);
      assert Init(actions)[..i] == actions[..i];
    }
  }

  lemma PrefixPlusOne<T>(xs: seq<T>, i: nat)
    requires i < |xs|
    ensures xs[..i + 1] == xs[..i] + [xs[i]]
  {
  }

  /** A property that holds at the start, and that each step taken while it has always held keeps exactly when
      the step is not bad, holds throughout exactly when no step is bad. */
  lemma Throughout(n: nat, good: nat -> bool, bad: nat -> bool)
    requires good(0)
    requires forall i: nat | i < n && AllGood(good, i) :: good(i + 1) <==> !bad(i)
    ensures AllGood(good, n) <==> forall i: nat | i < n :: !bad(i)
  {
    if AllGood(good, n) {
      forall i: nat | i < n ensures !bad(i) {
        assert AllGood(good, i) && good(i + 1);
      }
    }
    if forall i: nat | i < n :: !bad(i) {
      GoodUpTo(n, n, good, bad);
    }
  }

  predicate AllGood(good: nat -> bool, n: nat) {
    forall i: nat | i <= n :: good(i)
  }

  lemma {:induction false} GoodUpTo(k: nat, n: nat, good: nat -> bool, bad: nat -> bool)
    requires k <= n && good(0)
    requires forall i: nat | i < n && AllGood(good, i) :: good(i + 1) <==> !bad(i)
    requires forall i: nat | i < n :: !bad(i)
    ensures AllGood(good, k)
  {
    if k > 0 {
      GoodUpTo(k - 1, n, good, bad);
      assert good(k - 1 + 1);
    }
  }
}
