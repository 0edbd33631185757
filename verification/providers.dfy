/**
 * `IpInfoProvider` and its two implementations: a single range index, and the
 * aggregating provider that applies a list of range indexes one after another.
 */
module Providers {
  import opened Wrappers
  import opened Records
  import opened IpInfoResults
  import opened RangeIndexes

  datatype Provider =
    | RangeBased(index: RangeIndex)
    | Aggregating(delegates: seq<RangeIndex>)

  /** `AggregatingIpInfoProvider.add`: every delegate's `add`, in list order. */
  function AddEach(delegates: seq<RangeIndex>, ip: Address, infos: IpInfos): IpInfos
    decreases |delegates|
  {
    if |delegates| == 0 then infos else AddEach(delegates[1..], ip, AddTo(delegates[0], ip, infos))
  }

  /** `provider.add(ip, infos)` */
  function ProviderAdd(provider: Provider, ip: Address, infos: IpInfos): IpInfos
  {
    match provider
    case RangeBased(index) => AddTo(index, ip, infos)
    case Aggregating(delegates) => AddEach(delegates, ip, infos)
  }

  /** The range indexes a provider consults. */
  function Indexes(provider: Provider): seq<RangeIndex>
  {
    match provider
    case RangeBased(index) => [index]
    case Aggregating(delegates) => delegates
  }

  /** The names of those indexes whose ranges contain `ip`. */
  function HitNames(indexes: seq<RangeIndex>, ip: Address): set<string>
  {
    set i | 0 <= i < |indexes| && Lookup(indexes[i], ip).Some? :: indexes[i].name
  }

  /** Applying a list of delegates is applying its first part, then the rest. */
  lemma {:induction false} AddEachConcat(a: seq<RangeIndex>, b: seq<RangeIndex>, ip: Address, infos: IpInfos)
    ensures AddEach(a + b, ip, infos) == AddEach(b, ip, AddEach(a, ip, infos))
    decreases |a|
  {
    if |a| == 0 {
      assert a + b == b;
    } else {
      assert (a + b)[0] == a[0] && (a + b)[1..] == a[1..] + b;
      AddEachConcat(a[1..], b, ip, AddTo(a[0], ip, infos));
    }
  }

  /**
   * The aggregating `add` adds exactly the names of the delegates whose index
   * contains the address, leaves other names alone and keeps the queried address.
   */
  lemma {:induction false} AddEachNames(delegates: seq<RangeIndex>, ip: Address, infos: IpInfos)
    ensures ProviderNames(AddEach(delegates, ip, infos)) == ProviderNames(infos) + HitNames(delegates, ip)
    ensures AddEach(delegates, ip, infos).ip == infos.ip
    ensures forall n :: n !in HitNames(delegates, ip) ==>
      InfosFromProvider(AddEach(delegates, ip, infos), n) == InfosFromProvider(infos, n)
    decreases |delegates|
  {
    if |delegates| > 0 {
      var rest := delegates[1..];
      AddEachNames(rest, ip, AddTo(delegates[0], ip, infos));
      HitNamesCons(delegates, ip);
      SingleHitNames(delegates[0], ip);
    }
  }

  lemma HitNamesCons(delegates: seq<RangeIndex>, ip: Address)
    requires |delegates| > 0
    ensures HitNames(delegates, ip) == HitNames([delegates[0]], ip) + HitNames(delegates[1..], ip)
  {
    var rest := delegates[1..];
    forall n | n in HitNames(delegates, ip) ensures n in HitNames([delegates[0]], ip) + HitNames(rest, ip) {
      var i :| 0 <= i < |delegates| && Lookup(delegates[i], ip).Some? && delegates[i].name == n;
      if i > 0 {
        assert rest[i - 1] == delegates[i];
      } else {
        assert [delegates[0]][0] == delegates[0];
      }
    }
    forall n | n in HitNames(rest, ip) ensures n in HitNames(delegates, ip) {
      var i :| 0 <= i < |rest| && Lookup(rest[i], ip).Some? && rest[i].name == n;
      assert delegates[i + 1] == rest[i];
    }
    forall n | n in HitNames([delegates[0]], ip) ensures n in HitNames(delegates, ip) {
      assert [delegates[0]][0] == delegates[0];
    }
  }

  lemma SingleHitNames(index: RangeIndex, ip: Address)
    ensures HitNames([index], ip) == if Lookup(index, ip).Some? then {index.name} else {}
  {
    assert [index][0] == index;
  }

  /** What any provider's `add` contributes: the names of its indexes that contain the address. */
  lemma ProviderAddNames(provider: Provider, ip: Address, infos: IpInfos)
    ensures ProviderNames(ProviderAdd(provider, ip, infos)) == ProviderNames(infos) + HitNames(Indexes(provider), ip)
    ensures ProviderAdd(provider, ip, infos).ip == infos.ip
    ensures forall n :: n !in HitNames(Indexes(provider), ip) ==>
      InfosFromProvider(ProviderAdd(provider, ip, infos), n) == InfosFromProvider(infos, n)
  {
    match provider
    case RangeBased(index) =>
      SingleHitNames(index, ip);
    case Aggregating(delegates) =>
      AddEachNames(delegates, ip, infos);
  }
}
