/** Option and Result, the stand-ins for Java's null and for thrown exceptions. */
module Wrappers {

  /** `None` stands for a Java `null`. */
  datatype Option<+T> = None | Some(value: T)

  /** `Failure` stands for an exception escaping the operation. */
  datatype Result<+R, +E> = Success(value: R) | Failure(error: E)
  {
    /** With `PropagateFailure` and `Extract`, lets `:-` pass an exception on. */
    predicate IsFailure()
    {
      Failure?
    }

    function PropagateFailure<U>(): Result<U, E>
      requires Failure?
    {
      Failure(error)
    }

    function Extract(): R
      requires Success?
    {
      value
    }
  }

  /**
   * `f` applied to each element in order, as a Java `for` loop that adds each
   * result to a list: the first failure ends the loop and is passed on.
   */
  function MapAll<A, B, E>(xs: seq<A>, f: A -> Result<B, E>): (r: Result<seq<B>, E>)
    ensures r.Success? <==> forall i :: 0 <= i < |xs| ==> f(xs[i]).Success?
    ensures r.Success? ==> |r.value| == |xs| && forall i :: 0 <= i < |xs| ==> f(xs[i]) == Success(r.value[i])
    ensures r.Failure? ==> exists i :: (0 <= i < |xs| && f(xs[i]) == Failure(r.error)
      && forall j :: 0 <= j < i ==> f(xs[j]).Success?)
  {
    if |xs| == 0 then Success([])
    else match f(xs[0])
      case Failure(e) => Failure(e)
      case Success(y) =>
        assert forall k :: 0 <= k < |xs| - 1 ==> xs[1..][k] == xs[k + 1];
        match MapAll(xs[1..], f)
        case Failure(e) =>
          FirstFailureShift(xs, f, e);
          Failure(e)
        case Success(ys) => Success([y] + ys)
  }

  /** A first failure in the tail, after a successful head, is the first failure of the whole sequence. */
  lemma FirstFailureShift<A, B, E>(xs: seq<A>, f: A -> Result<B, E>, e: E)
    requires |xs| > 0 && f(xs[0]).Success?
    requires exists i :: (0 <= i < |xs| - 1 && f(xs[1..][i]) == Failure(e)
      && forall j :: 0 <= j < i ==> f(xs[1..][j]).Success?)
    ensures exists i :: (0 <= i < |xs| && f(xs[i]) == Failure(e)
      && forall j :: 0 <= j < i ==> f(xs[j]).Success?)
  {
    var i :| 0 <= i < |xs| - 1 && f(xs[1..][i]) == Failure(e) && forall j :: 0 <= j < i ==> f(xs[1..][j]).Success?;
    assert xs[i + 1] == xs[1..][i];
    forall j | 0 <= j < i + 1 ensures f(xs[j]).Success? {
      if j > 0 {
        assert xs[j] == xs[1..][j - 1];
      }
    }
  }
}
