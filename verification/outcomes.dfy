/** Failure-compatible wrappers used for every operation that can throw in the
    original program: a thrown error becomes a `Failure` carrying an error value. */
module Outcomes {

  /** A value that may be absent (a `null`/`undefined` result, or an
      operation of an unseen library that throws without useful detail). */
  datatype Option<+T> = None | Some(value: T)

  /** The result of an operation that either returns a value or throws. */
  datatype Result<+T, +E> = Success(value: T) | Failure(error: E) {

    predicate IsFailure() {
      Failure?
    }

    function PropagateFailure<U>(): Result<U, E>
      requires Failure?
    {
      Failure(error)
    }

    function Extract(): T
      requires Success?
    {
      value
    }
  }

  /** Entry `k` is the first entry at or after `from` on which `step`
      fails, and `e` is its error. */
  ghost predicate FirstFailure<X, Y, E>(step: (X, nat) -> Result<Y, E>, xs: seq<X>, from: nat, k: int, e: E) {
    && from <= k < |xs|
    && (forall j :: from <= j < k ==> step(xs[j], j + 1).Success?)
    && step(xs[k], k + 1) == Failure(e)
  }

  /** `xs.map(step)` where `step` may throw, from entry `from` on: the
      entries are handled in order, each with its 1-based position, and the
      first one that throws decides the outcome. */
  function MapInOrder<X, Y, E>(step: (X, nat) -> Result<Y, E>, xs: seq<X>, from: nat): (r: Result<seq<Y>, E>)
    requires from <= |xs|
    ensures r.Success? <==> forall k :: from <= k < |xs| ==> step(xs[k], k + 1).Success?
    ensures r.Success? ==>
              && |r.value| == |xs| - from
              && forall k :: from <= k < |xs| ==> step(xs[k], k + 1) == Success(r.value[k - from])
    ensures r.Failure? ==> exists k :: FirstFailure(step, xs, from, k, r.error)
    decreases |xs| - from
  {
    if from == |xs| then Success([])
    else
      match step(xs[from], from + 1)
      case Failure(e) =>
        assert FirstFailure(step, xs, from, from, e);
        Failure(e)
      case Success(y) =>
        match MapInOrder(step, xs, from + 1)
        case Failure(e) =>
          FirstFailureAfterHead(step, xs, from, from + 1, e);
          Failure(e)
        case Success(ys) =>
          var all := [y] + ys;
          forall k | from < k < |xs|
            ensures step(xs[k], k + 1) == Success(all[k - from])
          {
            assert all[k - from] == ys[k - (from + 1)];
          }
          Success(all)
  }

  /** A first failure after an entry that succeeds is also the first failure
      counted from that entry. */
  lemma {:induction false} FirstFailureAfterHead<X, Y, E>(step: (X, nat) -> Result<Y, E>, xs: seq<X>, from: nat, next: nat, e: E)
    requires from < |xs| && next == from + 1
    requires step(xs[from], from + 1).Success?
    requires exists k :: FirstFailure(step, xs, next, k, e)
    ensures exists k :: FirstFailure(step, xs, from, k, e)
  {
    var k :| FirstFailure(step, xs, next, k, e);
    forall j | from <= j < k
      ensures step(xs[j], j + 1).Success?
    {
      if j != from {
        assert next <= j;
      }
    }
    assert FirstFailure(step, xs, from, k, e);
  }

  /** The outcome depends only on what `step` makes of each entry: two lists
      on which `step` agrees position by position map alike. */
  lemma {:induction false} MapInOrderPointwise<X, Y, E>(step: (X, nat) -> Result<Y, E>, xs: seq<X>, ys: seq<X>, from: nat)
    requires |xs| == |ys| && from <= |xs|
    requires forall k :: 0 <= k < |xs| ==> step(xs[k], k + 1) == step(ys[k], k + 1)
    ensures MapInOrder(step, xs, from) == MapInOrder(step, ys, from)
    decreases |xs| - from
  {
    if from < |xs| {
      assert step(xs[from], from + 1) == step(ys[from], from + 1);
      MapInOrderPointwise(step, xs, ys, from + 1);
    }
  }
}
