/**
 * `RangeBasedIpInfoProvider`: builds one range map from a batch of records,
 * resolving overlaps by a fixed policy, and answers point lookups.
 */
module RangeIndexes {
  import opened Wrappers
  import opened Records
  import opened RangeMaps
  import opened IpInfoResults

  /** A named provider over the range map built from one batch. */
  datatype RangeIndex = RangeIndex(name: string, ranges: RangeMap<IpRangeInfos>)

  /** `Range.closed(start, end)` of a record's range. */
  function SpanOf(range: AddressRange): (s: Span)
    ensures ValidSpan(s) && !IsEmpty(s)
    ensures forall p :: Contains(s, p) <==> InRange(range, p)
  {
    Closed(range.first, range.last)
  }

  /** The branch the build loop takes for one record, after probing at its start address. */
  datatype Step =
    | PutIntoGap                   // nothing stored at the start: put the record
    | SkipEnclosed                 // the stored piece encloses the record: keep the stored one
    | Supersede(existing: Span)    // the record encloses the stored piece: remove it, put the record
    | SkipOverlap(existing: Span)  // neither encloses the other: warn and keep the stored one

  predicate Puts(step: Step)
  {
    step.PutIntoGap? || step.Supersede?
  }

  function Classify(m: RangeMap<IpRangeInfos>, rec: IpRangeInfos): (step: Step)
    ensures step.PutIntoGap? <==> forall i :: 0 <= i < |m| ==> !Contains(m[i].span, rec.range.first)
    ensures step.SkipEnclosed? <==> (GetEntry(m, rec.range.first).Some?
      && Encloses(GetEntry(m, rec.range.first).value.span, SpanOf(rec.range)))
    ensures step.Supersede? <==> (GetEntry(m, rec.range.first).Some?
      && Encloses(SpanOf(rec.range), GetEntry(m, rec.range.first).value.span)
      && !Encloses(GetEntry(m, rec.range.first).value.span, SpanOf(rec.range)))
    ensures step.SkipOverlap? <==> (GetEntry(m, rec.range.first).Some?
      && !Encloses(SpanOf(rec.range), GetEntry(m, rec.range.first).value.span)
      && !Encloses(GetEntry(m, rec.range.first).value.span, SpanOf(rec.range)))
    ensures step.Supersede? || step.SkipOverlap? ==>
      GetEntry(m, rec.range.first) == Some(Entry(step.existing, Get(m, rec.range.first).value))
  {
    match GetEntry(m, rec.range.first)
    case None => PutIntoGap
    case Some(existing) =>
      if Encloses(existing.span, SpanOf(rec.range)) then SkipEnclosed
      else if Encloses(SpanOf(rec.range), existing.span) then Supersede(existing.span)
      else SkipOverlap(existing.span)
  }

  /** One iteration of the constructor's loop. */
  function Insert(m: RangeMap<IpRangeInfos>, rec: IpRangeInfos): RangeMap<IpRangeInfos>
  {
    match Classify(m, rec)
    case PutIntoGap => Put(m, SpanOf(rec.range), rec)
    case SkipEnclosed => m
    case Supersede(existing) => Put(Remove(m, existing), SpanOf(rec.range), rec)
    case SkipOverlap(_) => m
  }

  /** The constructor's loop: the records inserted in input order into an empty map. */
  function Build(recs: seq<IpRangeInfos>): RangeMap<IpRangeInfos>
  {
    if |recs| == 0 then Empty() else Insert(Build(recs[..|recs| - 1]), recs[|recs| - 1])
  }

  /** `ipInfos.get(ip)` */
  function Lookup(index: RangeIndex, ip: Address): Option<IpRangeInfos>
  {
    Get(index.ranges, ip)
  }

  /**
   * `new RangeBasedIpInfoProvider(name, records)`: the ranges are disjoint, and
   * every hit is a record of the batch whose range contains the address.
   */
  function NewIndex(name: string, recs: seq<IpRangeInfos>): (r: RangeIndex)
    ensures r.name == name
    ensures WellFormed(r.ranges)
    ensures forall ip: Address :: Lookup(r, ip).Some? ==> Lookup(r, ip).value in recs && InRange(Lookup(r, ip).value.range, ip)
  {
    BuildSound(recs);
    var r := RangeIndex(name, Build(recs));
    assert forall ip: Address :: Lookup(r, ip).Some? ==> Lookup(r, ip).value in recs && InRange(Lookup(r, ip).value.range, ip) by {
      forall ip: Address | Lookup(r, ip).Some? ensures Lookup(r, ip).value in recs && InRange(Lookup(r, ip).value.range, ip) {
        var e := GetEntry(r.ranges, ip).value;
        assert Contains(SpanOf(e.value.range), ip);
      }
    }
    r
  }

  /**
   * `add(ip, infos)`: adds `name -> record` exactly when the lookup hits and
   * leaves the accumulator as it was otherwise.
   */
  function AddTo(index: RangeIndex, ip: Address, infos: IpInfos): (r: IpInfos)
    ensures r.ip == infos.ip
    ensures Lookup(index, ip).Some? ==> InfosFromProvider(r, index.name) == Lookup(index, ip)
    ensures Lookup(index, ip).None? ==> r == infos
    ensures HasAnyFrom(r, index.name) <==> HasAnyFrom(infos, index.name) || Lookup(index, ip).Some?
    ensures forall n :: n != index.name ==> InfosFromProvider(r, n) == InfosFromProvider(infos, n)
  {
    match Lookup(index, ip)
    case Some(rangeInfo) => Add(infos, index.name, rangeInfo)
    case None => infos
  }

  // ---------------------------------------------------------------------------
  // the overlap policy, one insertion at a time

  /**
   * What one insertion does to every address: when the record is put (its start
   * lies in a gap, or it encloses the stored piece at its start) all of its
   * range maps to it, even where it overlapped later entries; every other
   * address keeps its value. When it is skipped the map is unchanged, the
   * non-overlapping tail of a partially overlapping record included.
   */
  lemma InsertLookup(m: RangeMap<IpRangeInfos>, rec: IpRangeInfos, p: int)
    ensures Get(Insert(m, rec), p) == if Puts(Classify(m, rec)) && InRange(rec.range, p) then Some(rec) else Get(m, p)
    ensures !Puts(Classify(m, rec)) ==> Insert(m, rec) == m
  {
    var r := SpanOf(rec.range);
    match Classify(m, rec)
    case PutIntoGap =>
      PutLookup(m, r, rec, p);
    case SkipEnclosed =>
    case Supersede(existing) =>
      PutLookup(Remove(m, existing), r, rec, p);
      RemoveLookup(m, existing, p);
    case SkipOverlap(_) =>
  }

  /** No insertion changes the value of any address outside the new record's range. */
  lemma InsertOutsideUnchanged(m: RangeMap<IpRangeInfos>, rec: IpRangeInfos, p: int)
    requires !InRange(rec.range, p)
    ensures Get(Insert(m, rec), p) == Get(m, p)
  {
    InsertLookup(m, rec, p);
  }

  /** Ranges are closed: after a put, both the first and the last address hit the record. */
  lemma InsertHitsBothEnds(m: RangeMap<IpRangeInfos>, rec: IpRangeInfos)
    requires Puts(Classify(m, rec))
    ensures Get(Insert(m, rec), rec.range.first) == Some(rec)
    ensures Get(Insert(m, rec), rec.range.last) == Some(rec)
  {
    InsertLookup(m, rec, rec.range.first);
    InsertLookup(m, rec, rec.range.last);
  }

  /** Every insertion keeps the stored ranges non-empty and pairwise disjoint. */
  lemma InsertKeepsWellFormed(m: RangeMap<IpRangeInfos>, rec: IpRangeInfos)
    requires WellFormed(m)
    ensures WellFormed(Insert(m, rec))
  {
    match Classify(m, rec)
    case PutIntoGap =>
      PutWellFormed(m, SpanOf(rec.range), rec);
    case SkipEnclosed =>
    case Supersede(existing) =>
      var e := GetEntry(m, rec.range.first).value;
      var i :| 0 <= i < |m| && m[i] == e;
      RemoveWellFormed(m, existing);
      PutWellFormed(Remove(m, existing), SpanOf(rec.range), rec);
    case SkipOverlap(_) =>
  }

  // ---------------------------------------------------------------------------
  // the whole build

  /** Every stored piece belongs to a record of the batch and lies within that record's range. */
  predicate Sound(m: RangeMap<IpRangeInfos>, recs: seq<IpRangeInfos>)
  {
    forall i :: 0 <= i < |m| ==> m[i].value in recs && Encloses(SpanOf(m[i].value.range), m[i].span)
  }

  lemma InsertKeepsSound(m: RangeMap<IpRangeInfos>, rec: IpRangeInfos, recs: seq<IpRangeInfos>)
    requires Sound(m, recs) && rec in recs
    ensures Sound(Insert(m, rec), recs)
  {
    var r := SpanOf(rec.range);
    match Classify(m, rec)
    case PutIntoGap =>
      PutKeepsSound(m, rec, recs);
    case SkipEnclosed =>
    case Supersede(existing) =>
      RemoveKeepsSound(m, existing, recs);
      PutKeepsSound(Remove(m, existing), rec, recs);
    case SkipOverlap(_) =>
  }

  lemma RemoveKeepsSound(m: RangeMap<IpRangeInfos>, r: Span, recs: seq<IpRangeInfos>)
    requires Sound(m, recs)
    ensures Sound(Remove(m, r), recs)
  {
    RemoveShrinks(m, r);
    var m' := Remove(m, r);
    forall j | 0 <= j < |m'| ensures m'[j].value in recs && Encloses(SpanOf(m'[j].value.range), m'[j].span) {
      var i :| 0 <= i < |m| && Encloses(m[i].span, m'[j].span) && m'[j].value == m[i].value;
    }
  }

  lemma PutKeepsSound(m: RangeMap<IpRangeInfos>, rec: IpRangeInfos, recs: seq<IpRangeInfos>)
    requires Sound(m, recs) && rec in recs
    ensures Sound(Put(m, SpanOf(rec.range), rec), recs)
  {
    var r := SpanOf(rec.range);
    PutShrinks(m, r, rec);
    var m' := Put(m, r, rec);
    forall j | 0 <= j < |m'| ensures m'[j].value in recs && Encloses(SpanOf(m'[j].value.range), m'[j].span) {
      if m'[j] != Entry(r, rec) {
        var i :| 0 <= i < |m| && Encloses(m[i].span, m'[j].span) && m'[j].value == m[i].value;
      }
    }
  }

  /** The built map is well formed, and sound with respect to its batch. */
  lemma {:induction false} BuildSound(recs: seq<IpRangeInfos>)
    ensures WellFormed(Build(recs))
    ensures Sound(Build(recs), recs)
    decreases |recs|
  {
    if |recs| > 0 {
      var init := recs[..|recs| - 1];
      BuildSound(init);
      assert Sound(Build(init), recs) by {
        forall i | 0 <= i < |Build(init)| ensures Build(init)[i].value in recs {
          var k :| 0 <= k < |init| && init[k] == Build(init)[i].value;
          assert recs[k] == init[k];
        }
      }
      InsertKeepsWellFormed(Build(init), recs[|recs| - 1]);
      InsertKeepsSound(Build(init), recs[|recs| - 1], recs);
    }
  }
}
