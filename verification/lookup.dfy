/**
 * `IpInfoLookupImpl.infosFor`: a fresh result for the address, then one `get()`
 * per provider supplier, in list order; a null provider (not yet initialised)
 * is skipped, and an exception from a supplier ends the query.
 */
module IpInfoLookups {
  import opened Wrappers
  import opened Records
  import opened IpInfoResults
  import opened Providers

  /** What one supplier's `get()` gave: a provider, null, or an exception. */
  type Read = Result<Option<Provider>, Failure>

  /** The loop over the remaining gets, starting from `infos`. */
  function Accumulate(ip: Address, infos: IpInfos, gets: seq<Read>): Result<IpInfos, Failure>
    decreases |gets|
  {
    if |gets| == 0 then Success(infos)
    else match gets[0]
      case Failure(e) => Failure(e)
      case Success(None) => Accumulate(ip, infos, gets[1..])
      case Success(Some(provider)) => Accumulate(ip, ProviderAdd(provider, ip, infos), gets[1..])
  }

  function InfosFor(ip: Address, gets: seq<Read>): Result<IpInfos, Failure>
  {
    Accumulate(ip, Fresh(ip), gets)
  }

  /** The names a list of gets contributes for `ip`: those of every non-null provider's hitting indexes. */
  function ReadHits(gets: seq<Read>, ip: Address): set<string>
  {
    set i, n | 0 <= i < |gets| && gets[i].Success? && gets[i].value.Some?
      && n in HitNames(Indexes(gets[i].value.value), ip) :: n
  }

  /** The index of the first failed read, if any. */
  function FirstFailure(gets: seq<Read>): (r: Option<nat>)
    ensures r.Some? ==> (r.value < |gets| && gets[r.value].Failure?
      && forall j :: 0 <= j < r.value ==> gets[j].Success?)
    ensures r.None? ==> forall j :: 0 <= j < |gets| ==> gets[j].Success?
    decreases |gets|
  {
    if |gets| == 0 then None
    else if gets[0].Failure? then Some(0)
    else match FirstFailure(gets[1..])
      case None => None
      case Some(k) => Some(k + 1)
  }

  /**
   * The query succeeds exactly when no supplier throws; then its result is for
   * `ip` and holds exactly the names of the hitting indexes of the non-null
   * providers; otherwise it fails with the first exception.
   */
  lemma {:induction false} AccumulateOutcome(ip: Address, infos: IpInfos, gets: seq<Read>)
    ensures Accumulate(ip, infos, gets).Success? <==> FirstFailure(gets).None?
    ensures Accumulate(ip, infos, gets).Failure? ==>
      Accumulate(ip, infos, gets).error == gets[FirstFailure(gets).value].error
    ensures Accumulate(ip, infos, gets).Success? ==>
      Accumulate(ip, infos, gets).value.ip == infos.ip
      && ProviderNames(Accumulate(ip, infos, gets).value) == ProviderNames(infos) + ReadHits(gets, ip)
    decreases |gets|
  {
    if |gets| > 0 {
      var rest := gets[1..];
      ReadHitsCons(gets, ip);
      match gets[0]
      case Failure(e) =>
        assert FirstFailure(gets) == Some(0);
      case Success(None) =>
        ReadHitsSingle(gets[0], ip);
        AccumulateOutcome(ip, infos, rest);
        assert Accumulate(ip, infos, gets) == Accumulate(ip, infos, rest);
      case Success(Some(provider)) =>
        ReadHitsSingle(gets[0], ip);
        ProviderAddNames(provider, ip, infos);
        AccumulateOutcome(ip, ProviderAdd(provider, ip, infos), rest);
        assert Accumulate(ip, infos, gets) == Accumulate(ip, ProviderAdd(provider, ip, infos), rest);
    }
  }

  lemma ReadHitsCons(gets: seq<Read>, ip: Address)
    requires |gets| > 0
    ensures ReadHits(gets, ip) == ReadHits([gets[0]], ip) + ReadHits(gets[1..], ip)
  {
    var rest := gets[1..];
    forall n | n in ReadHits(gets, ip) ensures n in ReadHits([gets[0]], ip) + ReadHits(rest, ip) {
      var i :| 0 <= i < |gets| && gets[i].Success? && gets[i].value.Some?
        && n in HitNames(Indexes(gets[i].value.value), ip);
      if i > 0 {
        assert rest[i - 1] == gets[i];
      } else {
        assert [gets[0]][0] == gets[0];
      }
    }
    forall n | n in ReadHits(rest, ip) ensures n in ReadHits(gets, ip) {
      var i :| 0 <= i < |rest| && rest[i].Success? && rest[i].value.Some?
        && n in HitNames(Indexes(rest[i].value.value), ip);
      assert gets[i + 1] == rest[i];
    }
    forall n | n in ReadHits([gets[0]], ip) ensures n in ReadHits(gets, ip) {
      assert [gets[0]][0] == gets[0];
    }
  }

  /** A single read hits with its provider's indexes, or not at all when it is null or failed. */
  lemma ReadHitsSingle(g: Read, ip: Address)
    ensures ReadHits([g], ip) == if g.Success? && g.value.Some? then HitNames(Indexes(g.value.value), ip) else {}
  {
    var single := [g];
    assert single[0] == g;
    if g.Success? && g.value.Some? {
      forall n | n in HitNames(Indexes(g.value.value), ip) ensures n in ReadHits(single, ip) {
        assert 0 <= 0 < |single| && single[0].Success? && single[0].value.Some?
          && n in HitNames(Indexes(single[0].value.value), ip);
      }
    }
  }

  /** `infosFor(ip)` in terms of the gets alone. */
  lemma InfosForOutcome(ip: Address, gets: seq<Read>)
    ensures InfosFor(ip, gets).Success? <==> forall j :: 0 <= j < |gets| ==> gets[j].Success?
    ensures InfosFor(ip, gets).Success? ==>
      InfosFor(ip, gets).value.ip == ip && ProviderNames(InfosFor(ip, gets).value) == ReadHits(gets, ip)
  {
    AccumulateOutcome(ip, Fresh(ip), gets);
  }

  /** Before any supplier is initialised, the answer is an empty result for the address. */
  lemma {:induction false} AllNullGivesFresh(ip: Address, gets: seq<Read>)
    requires forall j :: 0 <= j < |gets| ==> gets[j] == Success(None)
    ensures InfosFor(ip, gets) == Success(Fresh(ip))
  {
    AccumulateAllNull(ip, Fresh(ip), gets);
  }

  lemma {:induction false} AccumulateAllNull(ip: Address, infos: IpInfos, gets: seq<Read>)
    requires forall j :: 0 <= j < |gets| ==> gets[j] == Success(None)
    ensures Accumulate(ip, infos, gets) == Success(infos)
    decreases |gets|
  {
    if |gets| > 0 {
      AccumulateAllNull(ip, infos, gets[1..]);
    }
  }

  /** The loop over a concatenation is the loop over the first part, continued. */
  lemma {:induction false} AccumulateConcat(ip: Address, infos: IpInfos, a: seq<Read>, b: seq<Read>)
    ensures Accumulate(ip, infos, a + b) ==
      match Accumulate(ip, infos, a)
      case Failure(e) => Failure(e)
      case Success(mid) => Accumulate(ip, mid, b)
    decreases |a|
  {
    if |a| == 0 {
      assert a + b == b;
    } else {
      assert (a + b)[0] == a[0] && (a + b)[1..] == a[1..] + b;
      match a[0]
      case Failure(_) =>
      case Success(None) => AccumulateConcat(ip, infos, a[1..], b);
      case Success(Some(p)) => AccumulateConcat(ip, ProviderAdd(p, ip, infos), a[1..], b);
    }
  }

  /** A supplier that is not initialised yet has no effect wherever it sits in the list. */
  lemma NullReadIsSkipped(ip: Address, a: seq<Read>, b: seq<Read>)
    ensures InfosFor(ip, a + [Success(None)] + b) == InfosFor(ip, a + b)
  {
    var none: seq<Read> := [Success(None)];
    assert a + none + b == a + (none + b);
    AccumulateConcat(ip, Fresh(ip), a, none + b);
    AccumulateConcat(ip, Fresh(ip), a, b);
    assert (none + b)[1..] == b;
  }
}
