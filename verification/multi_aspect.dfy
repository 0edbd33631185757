/**
 * `MultiAspectIpInfoProviderSupplier`: fetches one batch, groups it by the
 * value of one attribute (Guava `Multimaps.index`) and builds one range index
 * per group, named `"<source>:<value>"`, behind an aggregating provider.
 */
module MultiAspectSupplier {
  import opened Wrappers
  import opened Records
  import opened IpInfoResults
  import opened RangeIndexes
  import opened Providers

  /** The attribute is present with a non-null value: `Multimaps.index` rejects a null key. */
  predicate HasAspect(rec: IpRangeInfos, aspect: string)
  {
    aspect in rec.infos && rec.infos[aspect].Some?
  }

  predicate AllHaveAspect(recs: seq<IpRangeInfos>, aspect: string)
  {
    forall i :: 0 <= i < |recs| ==> HasAspect(recs[i], aspect)
  }

  function AspectOf(rec: IpRangeInfos, aspect: string): string
    requires HasAspect(rec, aspect)
  {
    rec.infos[aspect].value
  }

  /** The distinct attribute values, in order of first appearance (the multimap's key order). */
  function AspectValues(recs: seq<IpRangeInfos>, aspect: string): seq<string>
    requires AllHaveAspect(recs, aspect)
  {
    if |recs| == 0 then []
    else
      var values := AspectValues(recs[..|recs| - 1], aspect);
      var v := AspectOf(recs[|recs| - 1], aspect);
      if v in values then values else values + [v]
  }

  /** The records whose attribute is `value`, in input order (the multimap's value list). */
  function Group(recs: seq<IpRangeInfos>, aspect: string, value: string): seq<IpRangeInfos>
    requires AllHaveAspect(recs, aspect)
  {
    if |recs| == 0 then []
    else
      var group := Group(recs[..|recs| - 1], aspect, value);
      if AspectOf(recs[|recs| - 1], aspect) == value then group + [recs[|recs| - 1]] else group
  }

  /** The name of the sub-index for one attribute value. */
  function SubIndexName(sourceName: string, value: string): string
  {
    sourceName + ":" + value
  }

  /** One range index per distinct value, in key order. */
  function SubIndexes(sourceName: string, aspect: string, recs: seq<IpRangeInfos>): (r: seq<RangeIndex>)
    requires AllHaveAspect(recs, aspect)
    ensures |r| == |AspectValues(recs, aspect)|
    ensures forall k :: 0 <= k < |r| ==> r[k].name == SubIndexName(sourceName, AspectValues(recs, aspect)[k])
  {
    var values := AspectValues(recs, aspect);
    seq(|values|, k requires 0 <= k < |values| => SubIndexFor(sourceName, aspect, recs, values[k]))
  }

  /** The sub-index of one attribute value: its group of records under `"<source>:<value>"`. */
  function SubIndexFor(sourceName: string, aspect: string, recs: seq<IpRangeInfos>, value: string): RangeIndex
    requires AllHaveAspect(recs, aspect)
  {
    NewIndex(SubIndexName(sourceName, value), Group(recs, aspect, value))
  }

  /**
   * `get()`: an aggregating provider over the sub-indexes. An `IOException` from
   * the source gives null; a record without the attribute makes the multimap
   * index throw (a null key); any other exception of the source escapes.
   */
  function MultiAspectGet(sourceName: string, aspect: string, fetched: Result<seq<IpRangeInfos>, Failure>): (r: Result<Option<Provider>, Failure>)
    ensures fetched == Failure(IOError) ==> r == Success(None)
    ensures fetched == Failure(RuntimeError) ==> r == Failure(RuntimeError)
    ensures fetched.Success? ==> (r.Success? <==> AllHaveAspect(fetched.value, aspect))
    ensures r.Success? && r.value.Some? ==> fetched.Success? && r.value.value.Aggregating?
    ensures r.Success? && r.value.Some? ==> |Indexes(r.value.value)| == |AspectValues(fetched.value, aspect)|
  {
    match fetched
    case Success(recs) =>
      if AllHaveAspect(recs, aspect) then Success(Some(Aggregating(SubIndexes(sourceName, aspect, recs))))
      else Failure(RuntimeError)
    case Failure(IOError) => Success(None)
    case Failure(RuntimeError) => Failure(RuntimeError)
  }

  // ---------------------------------------------------------------------------
  // the grouping partitions the batch

  /** A value has a sub-index exactly when some record carries it, and values are not repeated. */
  lemma {:induction false} AspectValuesExact(recs: seq<IpRangeInfos>, aspect: string)
    requires AllHaveAspect(recs, aspect)
    ensures forall v :: v in AspectValues(recs, aspect) <==> exists i :: 0 <= i < |recs| && AspectOf(recs[i], aspect) == v
    ensures forall j, k :: 0 <= j < k < |AspectValues(recs, aspect)| ==> AspectValues(recs, aspect)[j] != AspectValues(recs, aspect)[k]
    decreases |recs|
  {
    if |recs| > 0 {
      var init := recs[..|recs| - 1];
      AspectValuesExact(init, aspect);
      var values, last := AspectValues(init, aspect), AspectOf(recs[|recs| - 1], aspect);
      assert AspectValues(recs, aspect) == if last in values then values else values + [last];
      forall v ensures v in AspectValues(recs, aspect) <==> exists i :: 0 <= i < |recs| && AspectOf(recs[i], aspect) == v {
        if exists i :: 0 <= i < |init| && AspectOf(init[i], aspect) == v {
          var i :| 0 <= i < |init| && AspectOf(init[i], aspect) == v;
          assert recs[i] == init[i];
        }
        if exists i :: 0 <= i < |recs| && AspectOf(recs[i], aspect) == v {
          var i :| 0 <= i < |recs| && AspectOf(recs[i], aspect) == v;
          if i < |init| {
            assert init[i] == recs[i];
          }
        }
      }
    }
  }

  /** A group holds exactly the records carrying its value. */
  lemma {:induction false} GroupMembers(recs: seq<IpRangeInfos>, aspect: string, value: string)
    requires AllHaveAspect(recs, aspect)
    ensures forall x :: x in Group(recs, aspect, value) <==> x in recs && AspectOf(x, aspect) == value
    decreases |recs|
  {
    if |recs| > 0 {
      var init := recs[..|recs| - 1];
      GroupMembers(init, aspect, value);
      assert recs == init + [recs[|recs| - 1]];
    }
  }

  /** A single record forms a group of its own value and is absent from every other group. */
  lemma GroupSingle(rec: IpRangeInfos, aspect: string, value: string)
    requires HasAspect(rec, aspect)
    ensures AllHaveAspect([rec], aspect)
    ensures Group([rec], aspect, value) == if AspectOf(rec, aspect) == value then [rec] else []
  {
    assert [rec][..0] == [];
  }

  /** Groups keep input order: the group of `a + b` is the group of `a`, then that of `b`. */
  lemma {:induction false} GroupConcat(a: seq<IpRangeInfos>, b: seq<IpRangeInfos>, aspect: string, value: string)
    requires AllHaveAspect(a, aspect) && AllHaveAspect(b, aspect)
    ensures AllHaveAspect(a + b, aspect)
    ensures Group(a + b, aspect, value) == Group(a, aspect, value) + Group(b, aspect, value)
    decreases |b|
  {
    var ab := a + b;
    assert forall i :: |a| <= i < |ab| ==> ab[i] == b[i - |a|];
    if |b| == 0 {
      assert ab == a;
    } else {
      var init := b[..|b| - 1];
      assert ab[..|ab| - 1] == a + init;
      GroupConcat(a, init, aspect, value);
    }
  }

  /** Each record is in exactly one group: the group sizes add up to the batch size. */
  lemma {:induction false} GroupsPartition(recs: seq<IpRangeInfos>, aspect: string)
    requires AllHaveAspect(recs, aspect)
    ensures GroupSizes(recs, aspect, AspectValues(recs, aspect)) == |recs|
    decreases |recs|
  {
    if |recs| > 0 {
      var init, x := recs[..|recs| - 1], recs[|recs| - 1];
      var a := AspectOf(x, aspect);
      var values := AspectValues(init, aspect);
      GroupsPartition(init, aspect);
      AspectValuesExact(init, aspect);
      GroupSizesSnoc(recs, aspect, values);
      if a in values {
        CountDistinct(values, a);
      } else {
        CountDistinct(values, a);
        GroupSizesAppend(recs, aspect, values, a);
        GroupSizesSnoc(recs, aspect, [a]);
        GroupEmpty(init, aspect, a);
      }
    }
  }

  lemma {:induction false} GroupEmpty(recs: seq<IpRangeInfos>, aspect: string, value: string)
    requires AllHaveAspect(recs, aspect)
    requires value !in AspectValues(recs, aspect)
    ensures Group(recs, aspect, value) == []
    decreases |recs|
  {
    if |recs| > 0 {
      var init := recs[..|recs| - 1];
      AspectValuesExact(recs, aspect);
      AspectValuesExact(init, aspect);
      GroupEmpty(init, aspect, value);
    }
  }

  function GroupSizes(recs: seq<IpRangeInfos>, aspect: string, values: seq<string>): nat
    requires AllHaveAspect(recs, aspect)
  {
    if |values| == 0 then 0 else |Group(recs, aspect, values[0])| + GroupSizes(recs, aspect, values[1..])
  }

  function Count(values: seq<string>, v: string): nat
  {
    if |values| == 0 then 0 else (if values[0] == v then 1 else 0) + Count(values[1..], v)
  }

  lemma {:induction false} CountDistinct(values: seq<string>, v: string)
    requires forall j, k :: 0 <= j < k < |values| ==> values[j] != values[k]
    ensures Count(values, v) == if v in values then 1 else 0
    decreases |values|
  {
    if |values| > 0 {
      CountDistinct(values[1..], v);
    }
  }

  lemma {:induction false} GroupSizesSnoc(recs: seq<IpRangeInfos>, aspect: string, values: seq<string>)
    requires |recs| > 0 && AllHaveAspect(recs, aspect)
    ensures GroupSizes(recs, aspect, values)
      == GroupSizes(recs[..|recs| - 1], aspect, values) + Count(values, AspectOf(recs[|recs| - 1], aspect))
    decreases |values|
  {
    if |values| > 0 {
      GroupSizesSnoc(recs, aspect, values[1..]);
    }
  }

  lemma {:induction false} GroupSizesAppend(recs: seq<IpRangeInfos>, aspect: string, values: seq<string>, v: string)
    requires AllHaveAspect(recs, aspect)
    ensures GroupSizes(recs, aspect, values + [v]) == GroupSizes(recs, aspect, values) + |Group(recs, aspect, v)|
    decreases |values|
  {
    if |values| == 0 {
      assert values + [v] == [v];
    } else {
      assert (values + [v])[1..] == values[1..] + [v];
      GroupSizesAppend(recs, aspect, values[1..], v);
    }
  }

  // ---------------------------------------------------------------------------
  // queries

  /**
   * For a query, the aggregating provider adds exactly the sub-index names
   * `"<source>:<value>"` whose index contains the address.
   */
  lemma QueryAddsHitSubIndexes(sourceName: string, aspect: string, recs: seq<IpRangeInfos>, ip: Address, infos: IpInfos)
    requires AllHaveAspect(recs, aspect)
    ensures MultiAspectGet(sourceName, aspect, Success(recs)).Success?
    ensures var provider := MultiAspectGet(sourceName, aspect, Success(recs)).value.value;
      ProviderNames(ProviderAdd(provider, ip, infos)) == ProviderNames(infos)
        + (set v | v in AspectValues(recs, aspect) && Lookup(SubIndexFor(sourceName, aspect, recs, v), ip).Some?
           :: SubIndexName(sourceName, v))
  {
    var subs := SubIndexes(sourceName, aspect, recs);
    assert MultiAspectGet(sourceName, aspect, Success(recs)) == Success(Some(Aggregating(subs)));
    ProviderAddNames(Aggregating(subs), ip, infos);
    SubIndexHits(sourceName, aspect, recs, ip);
  }

  lemma SubIndexHits(sourceName: string, aspect: string, recs: seq<IpRangeInfos>, ip: Address)
    requires AllHaveAspect(recs, aspect)
    ensures HitNames(SubIndexes(sourceName, aspect, recs), ip)
      == set v | v in AspectValues(recs, aspect) && Lookup(SubIndexFor(sourceName, aspect, recs, v), ip).Some?
           :: SubIndexName(sourceName, v)
  {
    var hits := set v | v in AspectValues(recs, aspect) && Lookup(SubIndexFor(sourceName, aspect, recs, v), ip).Some?
      :: SubIndexName(sourceName, v);
    forall n | n in HitNames(SubIndexes(sourceName, aspect, recs), ip) ensures n in hits {
      HitIsValueHit(sourceName, aspect, recs, ip, n);
    }
    forall n | n in hits ensures n in HitNames(SubIndexes(sourceName, aspect, recs), ip) {
      var v :| v in AspectValues(recs, aspect) && Lookup(SubIndexFor(sourceName, aspect, recs, v), ip).Some? && SubIndexName(sourceName, v) == n;
      ValueHitIsHit(sourceName, aspect, recs, ip, v);
    }
  }

  lemma HitIsValueHit(sourceName: string, aspect: string, recs: seq<IpRangeInfos>, ip: Address, n: string)
    requires AllHaveAspect(recs, aspect)
    requires n in HitNames(SubIndexes(sourceName, aspect, recs), ip)
    ensures exists v :: (v in AspectValues(recs, aspect) && Lookup(SubIndexFor(sourceName, aspect, recs, v), ip).Some?
      && SubIndexName(sourceName, v) == n)
  {
    var values := AspectValues(recs, aspect);
    var subs := SubIndexes(sourceName, aspect, recs);
    var k :| 0 <= k < |subs| && Lookup(subs[k], ip).Some? && subs[k].name == n;
    assert subs[k] == SubIndexFor(sourceName, aspect, recs, values[k]);
    assert values[k] in values;
  }

  lemma ValueHitIsHit(sourceName: string, aspect: string, recs: seq<IpRangeInfos>, ip: Address, v: string)
    requires AllHaveAspect(recs, aspect)
    requires v in AspectValues(recs, aspect) && Lookup(SubIndexFor(sourceName, aspect, recs, v), ip).Some?
    ensures SubIndexName(sourceName, v) in HitNames(SubIndexes(sourceName, aspect, recs), ip)
  {
    var values := AspectValues(recs, aspect);
    var subs := SubIndexes(sourceName, aspect, recs);
    var k :| 0 <= k < |values| && values[k] == v;
    assert subs[k] == SubIndexFor(sourceName, aspect, recs, v);
  }
}
