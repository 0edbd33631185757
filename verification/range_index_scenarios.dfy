/** Concrete batches exercising each branch of the overlap policy. */
module RangeIndexScenarios {
  import opened Wrappers
  import opened Records
  import opened RangeMaps
  import opened RangeIndexes

  function Rec(first: Address, last: Address, tag: string): IpRangeInfos
    requires first <= last
  {
    IpRangeInfos(Bounds(first, last), map["tag" := Some(tag)])
  }

  /** A single closed range hits at both ends and misses just outside them. */
  lemma Boundaries()
    ensures Get(Build([Rec(10, 20, "A")]), 10) == Some(Rec(10, 20, "A"))
    ensures Get(Build([Rec(10, 20, "A")]), 20) == Some(Rec(10, 20, "A"))
    ensures Get(Build([Rec(10, 20, "A")]), 9) == None
    ensures Get(Build([Rec(10, 20, "A")]), 21) == None
  {
    var a := Rec(10, 20, "A");
    assert [a][..0] == [];
  }

  /** An equal or enclosed later record is skipped: the earlier one keeps the whole range. */
  lemma ExistingEnclosingWins(p: int)
    requires 10 <= p <= 20
    ensures Get(Build([Rec(10, 20, "A"), Rec(10, 20, "B")]), p) == Some(Rec(10, 20, "A"))
    ensures Get(Build([Rec(10, 20, "A"), Rec(12, 18, "B")]), p) == Some(Rec(10, 20, "A"))
  {
    var a, b, c := Rec(10, 20, "A"), Rec(10, 20, "B"), Rec(12, 18, "B");
    assert [a, b][..1] == [a] && [a, c][..1] == [a] && [a][..0] == [];
    assert Classify(Build([a]), b) == SkipEnclosed;
    assert Classify(Build([a]), c) == SkipEnclosed;
  }

  /** The probe at 10 finds [10, 15], which [10, 20] encloses: the old entry is replaced. */
  lemma SameStartSupersedes(p: int)
    requires 10 <= p <= 20
    ensures Get(Build([Rec(10, 15, "A"), Rec(10, 20, "B")]), p) == Some(Rec(10, 20, "B"))
  {
    var a, b := Rec(10, 15, "A"), Rec(10, 20, "B");
    assert [a, b][..1] == [a];
    BuildSingle(a);
    assert Classify(Build([a]), b) == Supersede(Closed(10, 15));
    InsertLookup(Build([a]), b, p);
  }

  /** A later, broader record starting in a gap takes over the whole of its range. */
  lemma BroaderRecordSupersedes(p: int)
    requires 10 <= p <= 20
    ensures Get(Build([Rec(12, 18, "A"), Rec(10, 20, "B")]), p) == Some(Rec(10, 20, "B"))
  {
    var a, b := Rec(12, 18, "A"), Rec(10, 20, "B");
    assert [a, b][..1] == [a] && [a][..0] == [];
    InsertLookup(Build([a]), b, p);
  }

  /** A partially overlapping later record is dropped entirely, its tail [21, 25] included. */
  lemma PartialOverlapDropsTail()
    ensures Get(Build([Rec(10, 20, "A"), Rec(15, 25, "B")]), 17) == Some(Rec(10, 20, "A"))
    ensures Get(Build([Rec(10, 20, "A"), Rec(15, 25, "B")]), 23) == None
  {
    var a, b := Rec(10, 20, "A"), Rec(15, 25, "B");
    assert [a, b][..1] == [a] && [a][..0] == [];
    assert Classify(Build([a]), b).SkipOverlap?;
  }

  /**
   * Enclosure is decided on Guava cuts. After [0, 7] truncates [5, 10] to the
   * piece (7, 10], the record [8, 20] covers every address of that piece, yet
   * its lower cut lies above the piece's, so it does not enclose it: the record
   * is skipped as a partial overlap and 11..20 stay unmapped.
   */
  lemma TruncatedPieceIsNotEnclosed()
    ensures Get(Build([Rec(5, 10, "A"), Rec(0, 7, "B"), Rec(8, 20, "C")]), 9) == Some(Rec(5, 10, "A"))
    ensures Get(Build([Rec(5, 10, "A"), Rec(0, 7, "B"), Rec(8, 20, "C")]), 15) == None
  {
    var a, b, c := Rec(5, 10, "A"), Rec(0, 7, "B"), Rec(8, 20, "C");
    var m: RangeMap<IpRangeInfos> := [Entry(Span(Above(7), Above(10)), a), Entry(Closed(0, 7), b)];
    TruncatedPiece();
    assert [a, b, c][..2] == [a, b];
    assert Classify(m, c) == SkipOverlap(Span(Above(7), Above(10)));
    InsertLookup(m, c, 9);
    InsertLookup(m, c, 15);
    PieceLookups(m);
  }

  /** After [5, 10] then [0, 7], the first record survives as the piece (7, 10]. */
  lemma TruncatedPiece()
    ensures Build([Rec(5, 10, "A"), Rec(0, 7, "B")]) == [Entry(Span(Above(7), Above(10)), Rec(5, 10, "A")), Entry(Closed(0, 7), Rec(0, 7, "B"))]
  {
    var a, b := Rec(5, 10, "A"), Rec(0, 7, "B");
    BuildSingle(a);
    var m1: RangeMap<IpRangeInfos> := [Entry(Closed(5, 10), a)];
    assert [a, b][..1] == [a];
    assert Classify(m1, b) == PutIntoGap;
    assert Outside(m1[0], Closed(0, 7)) == [Entry(Span(Above(7), Above(10)), a)];
    assert Carve(m1, Closed(0, 7)) == [Entry(Span(Above(7), Above(10)), a)];
  }

  lemma PieceLookups(m: RangeMap<IpRangeInfos>)
    requires m == [Entry(Span(Above(7), Above(10)), Rec(5, 10, "A")), Entry(Closed(0, 7), Rec(0, 7, "B"))]
    ensures Get(m, 9) == Some(Rec(5, 10, "A"))
    ensures Get(m, 15) == None
  {
  }

  /** A batch of one record maps exactly that record's range. */
  lemma BuildSingle(rec: IpRangeInfos)
    ensures Build([rec]) == [Entry(SpanOf(rec.range), rec)]
  {
    var none: RangeMap<IpRangeInfos> := [];
    var noRecs: seq<IpRangeInfos> := [];
    assert [rec][..0] == noRecs;
    assert Build(noRecs) == none;
    assert Classify(none, rec) == PutIntoGap;
    assert Carve(none, SpanOf(rec.range)) == none;
  }
}
