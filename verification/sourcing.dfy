/**
 * `SourcingIpInfoProviderSupplier`: every `get()` fetches the source once and
 * builds a fresh single range index named after the source.
 */
module SourcingSupplier {
  import opened Wrappers
  import opened Records
  import opened RangeMaps
  import opened RangeIndexes
  import opened Providers

  /**
   * `get()` for one fetch of the source: an `IOException` is rethrown wrapped in a
   * `RuntimeException`, so the supplier never hands out null.
   */
  function SourcingGet(sourceName: string, fetched: Result<seq<IpRangeInfos>, Failure>): (r: Result<Provider, Failure>)
    ensures r.Success? <==> fetched.Success?
    ensures r.Failure? ==> r.error == RuntimeError
    ensures r.Success? ==> r.value.RangeBased? && r.value.index.name == sourceName && WellFormed(r.value.index.ranges)
    ensures r.Success? ==> r.value.index == NewIndex(sourceName, fetched.value)
    ensures r.Success? ==> forall ip: Address, rec ::
      Lookup(r.value.index, ip) == Some(rec) ==> rec in fetched.value && InRange(rec.range, ip)
  {
    match fetched
    case Success(recs) => Success(RangeBased(NewIndex(sourceName, recs)))
    case Failure(_) => Failure(RuntimeError)
  }
}
