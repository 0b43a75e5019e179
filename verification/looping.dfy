/**
 The shape of the parser's two `for` loops over parsed lines: a state
 threaded through the iterations, where any iteration may end the whole
 loop with an error. Facts about the loop are stated here once, over any
 state and error type; facts about one iteration stay with each pass.
 */
module Looping {
  import opened Wrappers

  /** The loop after its first `n` iterations, starting from `init`; iteration `k` is `step(_, k)`. */
  function Loop<S, E>(init: S, step: (S, nat) -> Result<S, E>, n: nat): Result<S, E> {
    if n == 0 then Success(init)
    else
      match Loop(init, step, n - 1)
      case Failure(e) => Failure(e)
      case Success(s) => step(s, n - 1)
  }

  /** A failed loop failed in some iteration `k`, run on the state the earlier iterations left. */
  lemma {:induction false} LoopFailsAt<S, E>(init: S, step: (S, nat) -> Result<S, E>, n: nat) returns (k: nat, s: S)
    requires Loop(init, step, n).Failure?
    ensures k < n && Loop(init, step, k) == Success(s)
    ensures step(s, k) == Loop(init, step, n)
  {
    if Loop(init, step, n - 1).Failure? {
      k, s := LoopFailsAt(init, step, n - 1);
    } else {
      k, s := n - 1, Loop(init, step, n - 1).value;
    }
  }

  /** A property that holds initially and that every successful iteration keeps holds of the final state. */
  lemma {:induction false} LoopInvariant<S, E>(init: S, step: (S, nat) -> Result<S, E>, n: nat, inv: (S, nat) -> bool)
    requires inv(init, 0)
    requires forall s, k :: 0 <= k < n && inv(s, k) && step(s, k).Success? ==> inv(step(s, k).value, k + 1)
    ensures Loop(init, step, n).Success? ==> inv(Loop(init, step, n).value, n)
  {
    if n > 0 {
      LoopInvariant(init, step, n - 1, inv);
      match Loop(init, step, n - 1)
      case Failure(_) =>
      case Success(s) => assert inv(s, n - 1);
    }
  }

  /** `k` is the first index `bad` holds for. */
  predicate FirstBad(bad: nat -> bool, k: nat) {
    bad(k) && forall j :: 0 <= j < k ==> !bad(j)
  }

  /**
   When, on every state an invariant admits, iteration `k` fails exactly
   when `bad(k)`, with an error `reports` accepts for `k`, the loop fails
   exactly when some `k` is bad, with an error reported for the first one.
   */
  lemma {:induction false} LoopStopsAtFirstBad<S, E>(
    init: S, step: (S, nat) -> Result<S, E>, n: nat, inv: (S, nat) -> bool, bad: nat -> bool, reports: (E, nat) -> bool)
    requires inv(init, 0)
    requires forall s, k :: 0 <= k < n && inv(s, k) ==> (step(s, k).Failure? <==> bad(k))
    requires forall s, k :: 0 <= k < n && inv(s, k) && step(s, k).Failure? ==> reports(step(s, k).error, k)
    requires forall s, k :: 0 <= k < n && inv(s, k) && step(s, k).Success? ==> inv(step(s, k).value, k + 1)
    ensures Loop(init, step, n).Success? ==> inv(Loop(init, step, n).value, n)
    ensures Loop(init, step, n).Failure? <==> exists k :: 0 <= k < n && bad(k)
    ensures Loop(init, step, n).Failure? ==> exists k :: 0 <= k < n && FirstBad(bad, k) && reports(Loop(init, step, n).error, k)
  {
    if n > 0 {
      LoopStopsAtFirstBad(init, step, n - 1, inv, bad, reports);
      match Loop(init, step, n - 1)
      case Failure(e) =>
        var k :| 0 <= k < n - 1 && FirstBad(bad, k) && reports(e, k);
        assert 0 <= k < n && bad(k);
      case Success(s) =>
        assert inv(s, n - 1);
        if bad(n - 1) {
          assert FirstBad(bad, n - 1);
        }
    }
  }

  /** Two loops whose iterations agree on every state an invariant admits give the same result. */
  lemma {:induction false} LoopsAgree<S, E>(
    init: S, step: (S, nat) -> Result<S, E>, step': (S, nat) -> Result<S, E>, n: nat, inv: (S, nat) -> bool)
    requires inv(init, 0)
    requires forall s, k :: 0 <= k < n && inv(s, k) ==> step(s, k) == step'(s, k)
    requires forall s, k :: 0 <= k < n && inv(s, k) && step(s, k).Success? ==> inv(step(s, k).value, k + 1)
    ensures Loop(init, step, n) == Loop(init, step', n)
  {
    if n > 0 {
      LoopsAgree(init, step, step', n - 1, inv);
      LoopInvariant(init, step, n - 1, inv);
      match Loop(init, step, n - 1)
      case Failure(_) =>
      case Success(s) => assert inv(s, n - 1);
    }
  }
}
