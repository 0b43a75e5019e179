/**
 The shape shared by the parser's loops: walk a list of per-item outcomes,
 stop at the first failure, and keep the values that are present, in order.
 Stating it once, over any item and error type, keeps the facts about the
 loop apart from the facts about what one iteration does.
 */
module Collecting {
  import opened Wrappers

  /** The loop after its first `n` outcomes. */
  function Collect<T, E>(outs: seq<Result<Option<T>, E>>, n: nat): (r: Result<seq<T>, E>)
    requires n <= |outs|
    ensures r.Success? ==> |r.value| <= n
  {
    if n == 0 then Success([])
    else
      match Collect(outs, n - 1)
      case Failure(e) => Failure(e)
      case Success(vs) =>
        match outs[n - 1]
        case Failure(e) => Failure(e)
        case Success(None) => Success(vs)
        case Success(Some(v)) => Success(vs + [v])
  }

  /** The loop fails with the error of the first failing outcome. */
  lemma {:induction false} CollectFails<T, E>(outs: seq<Result<Option<T>, E>>, n: nat) returns (i: nat)
    requires n <= |outs|
    requires Collect(outs, n).Failure?
    ensures i < n && outs[i].Failure? && Collect(outs, n).error == outs[i].error
    ensures forall j :: 0 <= j < i ==> outs[j].Success?
  {
    if Collect(outs, n - 1).Failure? {
      i := CollectFails(outs, n - 1);
    } else {
      CollectSucceeds(outs, n - 1);
      i := n - 1;
    }
  }

  /** A loop that meets no failing outcome succeeds; one that succeeds met none. */
  lemma {:induction false} CollectSucceeds<T, E>(outs: seq<Result<Option<T>, E>>, n: nat)
    requires n <= |outs|
    ensures Collect(outs, n).Success? <==> forall j :: 0 <= j < n ==> outs[j].Success?
  {
    if n > 0 {
      CollectSucceeds(outs, n - 1);
    }
  }

  /**
   Each value kept comes from a present outcome, at strictly increasing
   positions: `src[k]` is where value `k` came from.
   */
  lemma {:induction false} CollectSources<T, E>(outs: seq<Result<Option<T>, E>>, n: nat) returns (src: seq<nat>)
    requires n <= |outs|
    requires Collect(outs, n).Success?
    ensures |src| == |Collect(outs, n).value|
    ensures forall k :: 0 <= k < |src| ==> src[k] < n && outs[src[k]] == Success(Some(Collect(outs, n).value[k]))
    ensures forall j, k :: 0 <= j < k < |src| ==> src[j] < src[k]
  {
    if n == 0 {
      src := [];
    } else {
      var prev := CollectSources(outs, n - 1);
      var vs := Collect(outs, n - 1).value;
      match outs[n - 1]
      case Success(None) =>
        src := prev;
      case Success(Some(v)) =>
        src := prev + [n - 1];
        assert Collect(outs, n).value == vs + [v];
    }
  }

  /** How many of the first `n` outcomes carry a value. */
  function CountPresent<T, E>(outs: seq<Result<Option<T>, E>>, n: nat): (c: nat)
    requires n <= |outs|
    ensures c <= n
  {
    if n == 0 then 0
    else CountPresent(outs, n - 1) + if outs[n - 1].Success? && outs[n - 1].value.Some? then 1 else 0
  }

  /** A successful loop keeps one value per present outcome. */
  lemma {:induction false} CollectCount<T, E>(outs: seq<Result<Option<T>, E>>, n: nat)
    requires n <= |outs|
    ensures Collect(outs, n).Success? ==> |Collect(outs, n).value| == CountPresent(outs, n)
  {
    if n > 0 {
      CollectCount(outs, n - 1);
    }
  }

  /** When each of the first `n` outcomes is the value at its position, the loop keeps exactly those values. */
  lemma {:induction false} CollectAllPresent<T, E>(outs: seq<Result<Option<T>, E>>, vs: seq<T>, n: nat)
    requires n <= |outs| && n <= |vs|
    requires forall k :: 0 <= k < n ==> outs[k] == Success(Some(vs[k]))
    ensures Collect(outs, n) == Success(vs[..n])
  {
    if n > 0 {
      CollectAllPresent(outs, vs, n - 1);
      assert vs[..n] == vs[..n - 1] + [vs[n - 1]];
    }
  }
}
