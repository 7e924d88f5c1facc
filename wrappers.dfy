/** Result types shared by the whole model. */
module Wrappers {

  /** The `None`/value convention of the literal unifier's soft failure. */
  datatype Option<+T> = None | Some(value: T)

  /** A value, or the error the source raises instead of returning one. */
  datatype Result<+T, +E> = Success(value: T) | Failure(error: E)

  /**
   * One step of an all-or-nothing comprehension `[f(x) for x in xs]`: if
   * the result is `f` of the head consed onto the result on the tail, and
   * the tail's result is pointwise, so is the whole result.
   */
  lemma AllCons<A, T, E>(f: A -> Result<T, E>, xs: seq<A>, r: Result<seq<T>, E>, tail: Result<seq<T>, E>)
    requires |xs| >= 1
    requires r.Success? <==> f(xs[0]).Success? && tail.Success?
    requires r.Success? ==> r.value == [f(xs[0]).value] + tail.value
    requires tail.Success? <==> forall k | 0 <= k < |xs| - 1 :: f(xs[1..][k]).Success?
    requires tail.Success? ==> |tail.value| == |xs| - 1
    requires tail.Success? ==> forall k | 0 <= k < |xs| - 1 :: tail.value[k] == f(xs[1..][k]).value
    ensures r.Success? <==> forall k | 0 <= k < |xs| :: f(xs[k]).Success?
    ensures r.Success? ==> forall k | 0 <= k < |xs| :: r.value[k] == f(xs[k]).value
  {
    if r.Success? {
      forall k | 0 <= k < |xs| ensures f(xs[k]).Success? && r.value[k] == f(xs[k]).value {
        if k > 0 {
          assert xs[1..][k - 1] == xs[k];
        }
      }
    } else if f(xs[0]).Success? {
      var k :| 0 <= k < |xs| - 1 && !f(xs[1..][k]).Success?;
      assert xs[1..][k] == xs[k + 1];
    }
  }
}
