/**
 * The two caching suppliers of the base package, over any delegate. A delegate
 * call is a `Result`: the value it returned (possibly null, as `None`) or the
 * exception it threw.
 */
module CachingSuppliers {
  import opened Wrappers
  import opened Records

  // ---------------------------------------------------------------------------
  // AsyncRefreshingSupplier

  /**
   * One scheduled run: the delegate's value replaces the held one, null
   * included; an exception is logged and the held value stays.
   */
  function Refresh<T>(held: Option<T>, outcome: Result<Option<T>, Failure>): Option<T>
  {
    match outcome
    case Success(v) => v
    case Failure(_) => held
  }

  /** The value `get()` returns after the given runs, starting from null. */
  function Refreshed<T>(outcomes: seq<Result<Option<T>, Failure>>): Option<T>
  {
    if |outcomes| == 0 then None
    else Refresh(Refreshed(outcomes[..|outcomes| - 1]), outcomes[|outcomes| - 1])
  }

  /** The run that last returned normally, if any. */
  predicate LastReturning<T>(outcomes: seq<Result<Option<T>, Failure>>, i: int)
  {
    0 <= i < |outcomes| && outcomes[i].Success?
      && forall j :: i < j < |outcomes| ==> outcomes[j].Failure?
  }

  /**
   * `get()` returns what the most recent normally returning run returned, and
   * null while every run so far has thrown.
   */
  lemma {:induction false} RefreshedIsLastReturned<T>(outcomes: seq<Result<Option<T>, Failure>>)
    ensures forall i :: LastReturning(outcomes, i) ==> Refreshed(outcomes) == outcomes[i].value
    ensures (forall j :: 0 <= j < |outcomes| ==> outcomes[j].Failure?) ==> Refreshed(outcomes) == None
    decreases |outcomes|
  {
    if |outcomes| > 0 {
      var init := outcomes[..|outcomes| - 1];
      RefreshedIsLastReturned(init);
      forall i | LastReturning(outcomes, i) ensures Refreshed(outcomes) == outcomes[i].value {
        if i < |outcomes| - 1 {
          assert LastReturning(init, i);
        }
      }
      if forall j :: 0 <= j < |outcomes| ==> outcomes[j].Failure? {
        assert forall j :: 0 <= j < |init| ==> init[j] == outcomes[j];
      }
    }
  }

  /** Exceptions never disturb the held value: dropping failed runs changes nothing. */
  lemma {:induction false} FailedRunsAreInvisible<T>(outcomes: seq<Result<Option<T>, Failure>>, e: Failure)
    ensures Refreshed(outcomes + [Failure(e)]) == Refreshed(outcomes)
  {
    assert (outcomes + [Failure(e)])[..|outcomes|] == outcomes;
  }

  /**
   * The test run: a delegate yielding 1, 2, 3, 4 that throws on every second
   * call reads as null, 2, 2, 4.
   */
  lemma ThrowingDelegateScenario()
    ensures var outcomes: seq<Result<Option<int>, Failure>> :=
      [Failure(RuntimeError), Success(Some(2)), Failure(RuntimeError), Success(Some(4))];
      Refreshed(outcomes[..1]) == None && Refreshed(outcomes[..2]) == Some(2)
      && Refreshed(outcomes[..3]) == Some(2) && Refreshed(outcomes) == Some(4)
  {
    var outcomes: seq<Result<Option<int>, Failure>> :=
      [Failure(RuntimeError), Success(Some(2)), Failure(RuntimeError), Success(Some(4))];
    assert outcomes[..3][..2] == outcomes[..2];
    assert outcomes[..2][..1] == outcomes[..1];
    assert outcomes[..1][..0] == [];
    assert outcomes[..|outcomes| - 1] == outcomes[..3];
  }

  // ---------------------------------------------------------------------------
  // PrefetchingMemoizingSupplier

  datatype Memo<T> = Memo(held: Option<T>)

  /** The constructor calls the delegate once; its exception escapes the constructor. */
  function Prefetch<T>(outcome: Result<Option<T>, Failure>): (r: Result<Memo<T>, Failure>)
    ensures r.Success? <==> outcome.Success?
    ensures r.Failure? ==> r.error == outcome.error
    ensures r.Success? ==> MemoGet(r.value) == outcome.value
  {
    match outcome
    case Success(v) => Success(Memo(v))
    case Failure(e) => Failure(e)
  }

  function MemoGet<T>(memo: Memo<T>): Option<T>
  {
    memo.held
  }

  /**
   * A constructed memoizing supplier reads as a refreshing one after exactly one
   * run of the same delegate call, whatever that call returned.
   */
  lemma PrefetchAgreesWithOneRefresh<T>(outcome: Result<Option<T>, Failure>)
    requires outcome.Success?
    ensures Prefetch(outcome).Success? && MemoGet(Prefetch(outcome).value) == Refreshed([outcome])
  {
    assert [outcome][..0] == [];
  }
}
