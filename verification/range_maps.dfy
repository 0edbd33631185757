/**
 * Guava's `TreeRangeMap`, by its documented contract: a set of disjoint,
 * non-empty ranges, each mapped to a value. Range bounds are Guava cuts, so a
 * piece left over after a `put` or `remove` may have an open bound, and
 * `encloses` compares cuts rather than the integers a range contains.
 */
module RangeMaps {
  import opened Wrappers

  /** A bound of a Guava range: `Below(v)` lies just below `v`, `Above(v)` just above it. */
  datatype Cut = Below(v: int) | Above(v: int)

  /** Cuts compare as these positions on a doubled line (Guava's `Cut.compareTo`). */
  function Pos(c: Cut): int
  {
    match c
    case Below(v) => 2 * v
    case Above(v) => 2 * v + 1
  }

  /** A Guava `Range<Long>` with finite bounds. */
  datatype Span = Span(lower: Cut, upper: Cut)

  /** `Range.closed(lo, hi)` */
  function Closed(lo: int, hi: int): Span
  {
    Span(Below(lo), Above(hi))
  }

  /** Guava requires `lower <= upper` of every range. */
  predicate ValidSpan(s: Span)
  {
    Pos(s.lower) <= Pos(s.upper)
  }

  /** `Range.isEmpty`: both bounds are the same cut. */
  predicate IsEmpty(s: Span)
  {
    Pos(s.lower) == Pos(s.upper)
  }

  /** `Range.contains(p)` */
  predicate Contains(s: Span, p: int)
  {
    Pos(s.lower) <= 2 * p < Pos(s.upper)
  }

  /** `outer.encloses(inner)`: the bounds of `inner` do not extend outside those of `outer`. */
  predicate Encloses(outer: Span, inner: Span)
  {
    Pos(outer.lower) <= Pos(inner.lower) && Pos(inner.upper) <= Pos(outer.upper)
  }

  /** The two ranges share no cut interval (they may touch). */
  predicate Disjoint(a: Span, b: Span)
  {
    Pos(a.upper) <= Pos(b.lower) || Pos(b.upper) <= Pos(a.lower)
  }

  datatype Entry<V> = Entry(span: Span, value: V)

  /** The entries of the map; their order carries no meaning. */
  type RangeMap<V> = seq<Entry<V>>

  /** The representation invariant of `TreeRangeMap`: non-empty, pairwise disjoint ranges. */
  predicate WellFormed<V>(m: RangeMap<V>)
  {
    && (forall i :: 0 <= i < |m| ==> Pos(m[i].span.lower) < Pos(m[i].span.upper))
    && (forall i, j :: 0 <= i < j < |m| ==> Disjoint(m[i].span, m[j].span))
  }

  /** `TreeRangeMap.create()` */
  function Empty<V>(): (m: RangeMap<V>)
    ensures WellFormed(m)
    ensures forall p :: GetEntry(m, p).None?
  {
    []
  }

  /** `getEntry(p)`: the stored range containing `p`, with its value. */
  function GetEntry<V>(m: RangeMap<V>, p: int): (r: Option<Entry<V>>)
    ensures r.Some? ==> r.value in m && Contains(r.value.span, p)
    ensures r.None? <==> forall i :: 0 <= i < |m| ==> !Contains(m[i].span, p)
  {
    if |m| == 0 then None
    else if Contains(m[0].span, p) then Some(m[0])
    else GetEntry(m[1..], p)
  }

  /** `get(p)`: the value mapped at `p`. */
  function Get<V>(m: RangeMap<V>, p: int): Option<V>
  {
    match GetEntry(m, p)
    case Some(e) => Some(e.value)
    case None => None
  }

  /**
   * The parts of `e` lying outside `r`, keeping `e`'s value: `e` itself when
   * they are disjoint, otherwise the piece below `r` (up to `r`'s lower cut) and
   * the piece above `r` (from `r`'s upper cut), whichever are non-empty.
   */
  function Outside<V>(e: Entry<V>, r: Span): seq<Entry<V>>
  {
    if Disjoint(e.span, r) then [e]
    else
      (if Pos(e.span.lower) < Pos(r.lower) then [Entry(Span(e.span.lower, r.lower), e.value)] else [])
      + (if Pos(r.upper) < Pos(e.span.upper) then [Entry(Span(r.upper, e.span.upper), e.value)] else [])
  }

  /** Every entry cut back to the parts outside `r`. */
  function Carve<V>(m: RangeMap<V>, r: Span): RangeMap<V>
  {
    if |m| == 0 then [] else Outside(m[0], r) + Carve(m[1..], r)
  }

  /** `remove(r)`: clears the coverage of `r`, truncating or splitting the entries it overlaps. */
  function Remove<V>(m: RangeMap<V>, r: Span): RangeMap<V>
  {
    if IsEmpty(r) then m else Carve(m, r)
  }

  /** `put(r, v)`: every point of `r` maps to `v`; entries `r` overlaps are truncated or split. */
  function Put<V>(m: RangeMap<V>, r: Span, v: V): RangeMap<V>
  {
    if IsEmpty(r) then m else Carve(m, r) + [Entry(r, v)]
  }

  // ---------------------------------------------------------------------------
  // point lookups

  lemma {:induction false} GetEntryAppend<V>(a: RangeMap<V>, b: RangeMap<V>, p: int)
    ensures GetEntry(a + b, p) == if GetEntry(a, p).Some? then GetEntry(a, p) else GetEntry(b, p)
    decreases |a|
  {
    if |a| == 0 {
      assert a + b == b;
    } else {
      assert (a + b)[0] == a[0];
      assert (a + b)[1..] == a[1..] + b;
      GetEntryAppend(a[1..], b, p);
    }
  }

  lemma OutsideLookup<V>(e: Entry<V>, r: Span, p: int)
    ensures GetEntry(Outside(e, r), p).Some? <==> Contains(e.span, p) && !Contains(r, p)
    ensures GetEntry(Outside(e, r), p).Some? ==> GetEntry(Outside(e, r), p).value.value == e.value
  {
  }

  /** After carving, `r` is uncovered and every point outside `r` keeps its value. */
  lemma {:induction false} CarveLookup<V>(m: RangeMap<V>, r: Span, p: int)
    ensures Get(Carve(m, r), p) == if Contains(r, p) then None else Get(m, p)
    decreases |m|
  {
    if |m| > 0 {
      var o: RangeMap<V>, c: RangeMap<V> := Outside(m[0], r), Carve(m[1..], r);
      assert Carve(m, r) == o + c;
      GetEntryAppend(o, c, p);
      OutsideLookup(m[0], r, p);
      CarveLookup(m[1..], r, p);
      if Contains(m[0].span, p) {
        assert GetEntry(m, p) == Some(m[0]);
      } else {
        assert GetEntry(m, p) == GetEntry(m[1..], p);
      }
    }
  }

  /** The documented contract of `remove`. */
  lemma RemoveLookup<V>(m: RangeMap<V>, r: Span, p: int)
    ensures Get(Remove(m, r), p) == if Contains(r, p) then None else Get(m, p)
  {
    if !IsEmpty(r) {
      CarveLookup(m, r, p);
    }
  }

  /** The documented contract of `put`. */
  lemma PutLookup<V>(m: RangeMap<V>, r: Span, v: V, p: int)
    ensures Get(Put(m, r, v), p) == if Contains(r, p) then Some(v) else Get(m, p)
  {
    if !IsEmpty(r) {
      CarveLookup(m, r, p);
      GetEntryAppend(Carve(m, r), [Entry(r, v)], p);
    }
  }

  // ---------------------------------------------------------------------------
  // the representation invariant

  lemma OutsideShrinks<V>(e: Entry<V>, r: Span)
    ensures forall j :: 0 <= j < |Outside(e, r)| ==> Encloses(e.span, Outside(e, r)[j].span) && Outside(e, r)[j].value == e.value
    ensures forall j :: 0 <= j < |Outside(e, r)| ==> Pos(e.span.lower) < Pos(e.span.upper) ==> Pos(Outside(e, r)[j].span.lower) < Pos(Outside(e, r)[j].span.upper)
  {
  }

  /** Every carved piece lies inside an original entry and keeps its value. */
  lemma {:induction false} CarveShrinks<V>(m: RangeMap<V>, r: Span)
    ensures forall j :: 0 <= j < |Carve(m, r)| ==>
      exists i :: 0 <= i < |m| && Encloses(m[i].span, Carve(m, r)[j].span) && Carve(m, r)[j].value == m[i].value
    decreases |m|
  {
    if |m| > 0 {
      var o: RangeMap<V>, c: RangeMap<V> := Outside(m[0], r), Carve(m[1..], r);
      CarveShrinks(m[1..], r);
      OutsideShrinks(m[0], r);
      forall j | 0 <= j < |o + c|
        ensures exists i :: 0 <= i < |m| && Encloses(m[i].span, (o + c)[j].span) && (o + c)[j].value == m[i].value
      {
        if j < |o| {
          assert (o + c)[j] == o[j];
          assert Encloses(m[0].span, o[j].span) && o[j].value == m[0].value;
        } else {
          assert (o + c)[j] == c[j - |o|];
          var i :| 0 <= i < |m[1..]| && Encloses(m[1..][i].span, c[j - |o|].span) && c[j - |o|].value == m[1..][i].value;
          assert m[1..][i] == m[i + 1];
          assert Encloses(m[i + 1].span, (o + c)[j].span) && (o + c)[j].value == m[i + 1].value;
        }
      }
      assert Carve(m, r) == o + c;
      forall j | 0 <= j < |Carve(m, r)|
        ensures exists i :: 0 <= i < |m| && Encloses(m[i].span, Carve(m, r)[j].span) && Carve(m, r)[j].value == m[i].value
      {
        assert Carve(m, r)[j] == (o + c)[j];
      }
    } else {
      assert Carve(m, r) == [];
    }
  }

  lemma DisjointWithin(a: Span, b: Span, a': Span, b': Span)
    requires Disjoint(a, b) && Encloses(a, a') && Encloses(b, b')
    requires Pos(a'.lower) < Pos(a'.upper) && Pos(b'.lower) < Pos(b'.upper)
    ensures Disjoint(a', b')
  {
  }

  /** Carving a well-formed map keeps it well formed and clears every cut of `r`. */
  lemma {:induction false} CarveWellFormed<V>(m: RangeMap<V>, r: Span)
    requires WellFormed(m) && ValidSpan(r)
    ensures WellFormed(Carve(m, r))
    ensures forall j :: 0 <= j < |Carve(m, r)| ==> Disjoint(Carve(m, r)[j].span, r)
    decreases |m|
  {
    if |m| > 0 {
      var o: RangeMap<V>, c: RangeMap<V> := Outside(m[0], r), Carve(m[1..], r);
      WellFormedTail(m);
      CarveWellFormed(m[1..], r);
      OutsidePieces(m[0], r);
      HeadPiecesAvoidTail(m, r);
      ConcatWellFormed(o, c);
      assert Carve(m, r) == o + c;
    }
  }

  lemma WellFormedTail<V>(m: RangeMap<V>)
    requires WellFormed(m) && |m| > 0
    ensures WellFormed(m[1..])
  {
    forall i, j | 0 <= i < j < |m[1..]| ensures Disjoint(m[1..][i].span, m[1..][j].span) {
      assert m[1..][i] == m[i + 1] && m[1..][j] == m[j + 1];
    }
  }

  /** The pieces of one entry outside `r` are well formed and avoid `r`. */
  lemma OutsidePieces<V>(e: Entry<V>, r: Span)
    requires Pos(e.span.lower) < Pos(e.span.upper) && ValidSpan(r)
    ensures WellFormed(Outside(e, r))
    ensures forall j :: 0 <= j < |Outside(e, r)| ==> Disjoint(Outside(e, r)[j].span, r)
  {
  }

  /** In a well-formed map, the pieces of the first entry avoid the pieces carved from the others. */
  lemma HeadPiecesAvoidTail<V>(m: RangeMap<V>, r: Span)
    requires WellFormed(m) && |m| > 0
    requires WellFormed(Outside(m[0], r)) && WellFormed(Carve(m[1..], r))
    ensures forall a, b :: 0 <= a < |Outside(m[0], r)| && 0 <= b < |Carve(m[1..], r)| ==>
      Disjoint(Outside(m[0], r)[a].span, Carve(m[1..], r)[b].span)
  {
    var o: RangeMap<V>, c: RangeMap<V> := Outside(m[0], r), Carve(m[1..], r);
    CarveShrinks(m[1..], r);
    OutsideShrinks(m[0], r);
    forall a, b | 0 <= a < |o| && 0 <= b < |c| ensures Disjoint(o[a].span, c[b].span) {
      var i :| 0 <= i < |m[1..]| && Encloses(m[1..][i].span, c[b].span) && c[b].value == m[1..][i].value;
      assert m[1..][i] == m[i + 1];
      DisjointWithin(m[0].span, m[i + 1].span, o[a].span, c[b].span);
    }
  }

  lemma ConcatWellFormed<V>(a: RangeMap<V>, b: RangeMap<V>)
    requires WellFormed(a) && WellFormed(b)
    requires forall i, j :: 0 <= i < |a| && 0 <= j < |b| ==> Disjoint(a[i].span, b[j].span)
    ensures WellFormed(a + b)
  {
    var s := a + b;
    forall i, j | 0 <= i < j < |s| ensures Disjoint(s[i].span, s[j].span) {
      if j < |a| {
      } else if i < |a| {
        assert Disjoint(a[i].span, b[j - |a|].span);
      } else {
        assert Disjoint(b[i - |a|].span, b[j - |a|].span);
      }
    }
  }

  lemma RemoveWellFormed<V>(m: RangeMap<V>, r: Span)
    requires WellFormed(m) && ValidSpan(r)
    ensures WellFormed(Remove(m, r))
  {
    if !IsEmpty(r) {
      CarveWellFormed(m, r);
    }
  }

  /** `put` keeps the map's ranges non-empty and pairwise disjoint. */
  lemma PutWellFormed<V>(m: RangeMap<V>, r: Span, v: V)
    requires WellFormed(m) && ValidSpan(r)
    ensures WellFormed(Put(m, r, v))
  {
    if !IsEmpty(r) {
      CarveWellFormed(m, r);
      ConcatWellFormed(Carve(m, r), [Entry(r, v)]);
    }
  }

  /** Every entry after a `put` is the new one or a piece of an old one with the old value. */
  lemma PutShrinks<V>(m: RangeMap<V>, r: Span, v: V)
    ensures forall j :: 0 <= j < |Put(m, r, v)| ==>
      Put(m, r, v)[j] == Entry(r, v)
      || exists i :: 0 <= i < |m| && Encloses(m[i].span, Put(m, r, v)[j].span) && Put(m, r, v)[j].value == m[i].value
  {
    if IsEmpty(r) {
      forall j | 0 <= j < |m| ensures Encloses(m[j].span, m[j].span) {}
    } else {
      CarveShrinks(m, r);
      var c := Carve(m, r);
      forall j | 0 <= j < |c| + 1
        ensures (c + [Entry(r, v)])[j] == Entry(r, v)
          || exists i :: 0 <= i < |m| && Encloses(m[i].span, (c + [Entry(r, v)])[j].span) && (c + [Entry(r, v)])[j].value == m[i].value
      {
        if j < |c| {
          assert (c + [Entry(r, v)])[j] == c[j];
        }
      }
    }
  }

  /** Every entry after a `remove` is a piece of an old one with the old value. */
  lemma RemoveShrinks<V>(m: RangeMap<V>, r: Span)
    ensures forall j :: 0 <= j < |Remove(m, r)| ==>
      exists i :: 0 <= i < |m| && Encloses(m[i].span, Remove(m, r)[j].span) && Remove(m, r)[j].value == m[i].value
  {
    if IsEmpty(r) {
      forall j | 0 <= j < |m| ensures Encloses(m[j].span, m[j].span) {}
    } else {
      CarveShrinks(m, r);
      assert Remove(m, r) == Carve(m, r);
    }
  }

  /** In a well-formed map a point lies in at most one entry, so `getEntry` finds that one. */
  lemma GetEntryUnique<V>(m: RangeMap<V>, i: int, p: int)
    requires WellFormed(m) && 0 <= i < |m| && Contains(m[i].span, p)
    ensures GetEntry(m, p) == Some(m[i])
  {
    var e := GetEntry(m, p).value;
    var k :| 0 <= k < |m| && m[k] == e;
  }
}
