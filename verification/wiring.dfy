/**
 * How the provider suppliers behave once wrapped in the caching suppliers, and
 * how the two provider suppliers relate.
 */
module SupplierWiring {
  import opened Wrappers
  import opened Records
  import opened RangeIndexes
  import opened Providers
  import opened MultiAspectSupplier
  import opened SourcingSupplier
  import opened CachingSuppliers

  /** A sourcing supplier's `get()` seen as a possibly-null provider supplier. */
  function AsNullable(r: Result<Provider, Failure>): (o: Result<Option<Provider>, Failure>)
    ensures o.Success? <==> r.Success?
    ensures o.Success? ==> o.value == Some(r.value)
  {
    match r
    case Success(p) => Success(Some(p))
    case Failure(e) => Failure(e)
  }

  /**
   * A refreshing supplier over the multi-aspect supplier loses its provider when
   * the source fails with an I/O error: the null the supplier returns is stored.
   */
  lemma MultiAspectIOErrorClears(sourceName: string, aspect: string, earlier: seq<Result<Option<Provider>, Failure>>)
    ensures Refreshed(earlier + [MultiAspectGet(sourceName, aspect, Failure(IOError))]) == None
  {
    var outcomes := earlier + [MultiAspectGet(sourceName, aspect, Failure(IOError))];
    assert outcomes[|outcomes| - 1] == Success(None);
  }

  /**
   * A refreshing supplier over the sourcing supplier keeps its last provider
   * when the source fails with an I/O error: the wrapped exception is swallowed.
   */
  lemma SourcingIOErrorKeeps(sourceName: string, earlier: seq<Result<Option<Provider>, Failure>>)
    ensures Refreshed(earlier + [AsNullable(SourcingGet(sourceName, Failure(IOError)))]) == Refreshed(earlier)
  {
    FailedRunsAreInvisible(earlier, RuntimeError);
  }

  /** When every record carries the same attribute value, all records form one group, in order. */
  lemma {:induction false} UniformGroup(recs: seq<IpRangeInfos>, aspect: string, value: string)
    requires AllHaveAspect(recs, aspect)
    requires forall i :: 0 <= i < |recs| ==> AspectOf(recs[i], aspect) == value
    ensures Group(recs, aspect, value) == recs
    ensures AspectValues(recs, aspect) == if |recs| == 0 then [] else [value]
    decreases |recs|
  {
    if |recs| > 0 {
      var init := recs[..|recs| - 1];
      UniformGroup(init, aspect, value);
      assert init + [recs[|recs| - 1]] == recs;
    }
  }

  /**
   * On a batch whose records all carry the value `v`, the multi-aspect supplier
   * builds exactly the index the sourcing supplier builds for the source name
   * `"<source>:<v>"`.
   */
  lemma UniformBatchAgreesWithSourcing(sourceName: string, aspect: string, recs: seq<IpRangeInfos>, value: string)
    requires |recs| > 0 && AllHaveAspect(recs, aspect)
    requires forall i :: 0 <= i < |recs| ==> AspectOf(recs[i], aspect) == value
    ensures MultiAspectGet(sourceName, aspect, Success(recs))
      == Success(Some(Aggregating([SourcingGet(SubIndexName(sourceName, value), Success(recs)).value.index])))
  {
    UniformGroup(recs, aspect, value);
    var subs := SubIndexes(sourceName, aspect, recs);
    assert |subs| == 1;
    assert subs == [NewIndex(SubIndexName(sourceName, value), recs)];
  }
}
