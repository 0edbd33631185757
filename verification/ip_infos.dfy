/**
 * `IpInfos`: the per-query result, a map from provider name to the record that
 * provider matched for the queried address.
 */
module IpInfoResults {
  import opened Wrappers
  import opened Records

  datatype IpInfos = IpInfos(ip: Address, byProvider: map<string, IpRangeInfos>)

  /** `new IpInfos(ip)`: no provider has contributed yet. */
  function Fresh(ip: Address): (r: IpInfos)
    ensures r.ip == ip
    ensures forall n :: !HasAnyFrom(r, n)
    ensures ProviderNames(r) == {}
  {
    IpInfos(ip, map[])
  }

  /** `hasAnyFrom(providerName)` */
  predicate HasAnyFrom(infos: IpInfos, providerName: string)
  {
    providerName in infos.byProvider
  }

  /** `getProviderNames()` */
  function ProviderNames(infos: IpInfos): set<string>
  {
    infos.byProvider.Keys
  }

  /** `infosFromProvider(providerName)`: the record, or null. */
  function InfosFromProvider(infos: IpInfos, providerName: string): (r: Option<IpRangeInfos>)
    ensures r.Some? <==> HasAnyFrom(infos, providerName)
  {
    if providerName in infos.byProvider then Some(infos.byProvider[providerName]) else None
  }

  /**
   * `infoFromProvider(providerName, key)`: one attribute of a provider's record.
   * The record is dereferenced without a check, so a provider that has not
   * contributed makes it throw; a missing key and a null value both read as null.
   */
  function InfoFromProvider(infos: IpInfos, providerName: string, key: string): (r: Result<Option<string>, Failure>)
    ensures r.Success? <==> HasAnyFrom(infos, providerName)
    ensures r.Failure? ==> r.error == RuntimeError
    ensures r.Success? ==> (r.value.Some? <==> key in infos.byProvider[providerName].infos && infos.byProvider[providerName].infos[key].Some?)
    ensures r.Success? && r.value.Some? ==> infos.byProvider[providerName].infos[key] == r.value
  {
    if providerName !in infos.byProvider then Failure(RuntimeError)
    else
      var attrs := infos.byProvider[providerName].infos;
      Success(if key in attrs then attrs[key] else None)
  }

  /** `add(providerName, record)`: records a match, replacing any earlier one from that provider. */
  function Add(infos: IpInfos, providerName: string, record: IpRangeInfos): (r: IpInfos)
    ensures r.ip == infos.ip
    ensures InfosFromProvider(r, providerName) == Some(record)
    ensures forall n :: n != providerName ==> InfosFromProvider(r, n) == InfosFromProvider(infos, n)
    ensures ProviderNames(r) == ProviderNames(infos) + {providerName}
  {
    IpInfos(infos.ip, infos.byProvider[providerName := record])
  }

  /** A sequence of `add` calls on one accumulator, in call order. */
  function AddAll(infos: IpInfos, adds: seq<(string, IpRangeInfos)>): IpInfos
    decreases |adds|
  {
    if |adds| == 0 then infos else AddAll(Add(infos, adds[0].0, adds[0].1), adds[1..])
  }

  /** The record of the last `add` for `providerName`, if there was one. */
  function LastAdded(adds: seq<(string, IpRangeInfos)>, providerName: string): Option<IpRangeInfos>
  {
    if |adds| == 0 then None
    else if adds[|adds| - 1].0 == providerName then Some(adds[|adds| - 1].1)
    else LastAdded(adds[..|adds| - 1], providerName)
  }

  lemma {:induction false} LastAddedSome(adds: seq<(string, IpRangeInfos)>, providerName: string)
    ensures LastAdded(adds, providerName).Some? <==> exists i :: 0 <= i < |adds| && adds[i].0 == providerName
    decreases |adds|
  {
    if |adds| > 0 {
      var init := adds[..|adds| - 1];
      LastAddedSome(init, providerName);
      if exists i :: 0 <= i < |init| && init[i].0 == providerName {
        var i :| 0 <= i < |init| && init[i].0 == providerName;
        assert adds[i] == init[i];
      }
      if exists i :: 0 <= i < |adds| && adds[i].0 == providerName {
        var i :| 0 <= i < |adds| && adds[i].0 == providerName;
        if i < |adds| - 1 {
          assert init[i] == adds[i];
        }
      }
    }
  }

  /**
   * On a fresh accumulator, a provider name is present exactly when some `add`
   * used it, and it holds the record of the last such `add`.
   */
  lemma {:induction false} AddAllObserved(ip: Address, adds: seq<(string, IpRangeInfos)>, providerName: string)
    ensures InfosFromProvider(AddAll(Fresh(ip), adds), providerName) == LastAdded(adds, providerName)
    ensures HasAnyFrom(AddAll(Fresh(ip), adds), providerName) <==> exists i :: 0 <= i < |adds| && adds[i].0 == providerName
  {
    AddAllLast(Fresh(ip), adds, providerName);
    LastAddedSome(adds, providerName);
  }

  lemma {:induction false} AddAllLast(infos: IpInfos, adds: seq<(string, IpRangeInfos)>, providerName: string)
    ensures InfosFromProvider(AddAll(infos, adds), providerName)
      == if LastAdded(adds, providerName).Some? then LastAdded(adds, providerName) else InfosFromProvider(infos, providerName)
    decreases |adds|
  {
    if |adds| > 0 {
      var init, last := adds[..|adds| - 1], adds[|adds| - 1];
      AddAllSnoc(infos, init, last);
      assert adds == init + [last];
      AddAllLast(infos, init, providerName);
    }
  }

  lemma {:induction false} AddAllSnoc(infos: IpInfos, adds: seq<(string, IpRangeInfos)>, last: (string, IpRangeInfos))
    ensures AddAll(infos, adds + [last]) == Add(AddAll(infos, adds), last.0, last.1)
    decreases |adds|
  {
    if |adds| == 0 {
      assert adds + [last] == [last];
    } else {
      assert (adds + [last])[1..] == adds[1..] + [last];
      AddAllSnoc(Add(infos, adds[0].0, adds[0].1), adds[1..], last);
    }
  }
}
