/**
 * `ApnicAsnIpRangesSource`: joins APNIC's autonomous-system-to-organisation list
 * with its prefix-to-AS table. Each record carries the AS number as decimal text
 * and the organisation, or "unknown" when the list does not name one.
 */
module ApnicSource {
  import opened Wrappers
  import opened Records
  import opened JavaStrings

  const NAME: string := "THYME"
  const KEY_ASN: string := "ASN"
  const KEY_ASNORG: string := "ASNORG"
  const VALUE_UNKNOWN: string := "unknown"

  /**
   * One file read with `readLine` until it returns null: the lines read, and
   * whether the read then ended normally or stopped on an `IOException` (a
   * provider that throws while opening is a `Broken` read with no lines).
   * `NoReader` is a provider that returns null, as `HttpReaderProvider` does on
   * an unsuccessful answer: `new BufferedReader(null)` then throws a
   * `NullPointerException` before any line is read.
   */
  datatype LineRead = NoReader | Complete(lines: seq<string>) | Broken(lines: seq<string>)
  {
    /** The lines `readLine` returned; none without a reader. */
    function LinesRead(): seq<string>
    {
      if NoReader? then [] else lines
    }
  }

  /**
   * A loop over a file's lines that converts each line as soon as it is read: a
   * line that throws stops the loop before the read can fail later on, and only
   * when every line read converts does an `IOException` that stopped the read
   * escape. Without a reader the loop never starts.
   */
  function ReadLoop<T>(read: LineRead, converted: Result<T, Failure>): (r: Result<T, Failure>)
    ensures read.NoReader? ==> r == Failure(RuntimeError)
    ensures !read.NoReader? && converted.Failure? ==> r == converted
    ensures converted.Success? && read.Broken? ==> r == Failure(IOError)
    ensures converted.Success? && read.Complete? ==> r == converted
  {
    if read.NoReader? then Failure(RuntimeError)
    else if converted.Failure? then converted
    else if read.Broken? then Failure(IOError)
    else converted
  }

  // ---------------------------------------------------------------------------
  // data-used-autnums: a right-aligned AS number in columns 0-4, a separator, the organisation

  /**
   * One autnums line: `substring(0, 5)` and `substring(6)` fail on lines shorter
   * than six characters, and `parseInt` on a field that is not a 32-bit number.
   */
  function ParseAutnumLine(line: string): (r: Result<(int, string), Failure>)
    ensures r.Success? <==> |line| >= 6 && ParseInt(Trim(line[..5])).Some?
    ensures r.Failure? ==> r.error == RuntimeError
    ensures r.Success? ==> Some(r.value.0) == ParseInt(Trim(line[..5])) && r.value.1 == Trim(line[6..])
  {
    if |line| < 6 then Failure(RuntimeError)
    else match ParseInt(Trim(line[..5]))
      case None => Failure(RuntimeError)
      case Some(asn) => Success((asn, Trim(line[6..])))
  }

  /** Every autnums line parsed, in order; the first bad line aborts the read. */
  function AutnumEntries(lines: seq<string>): (r: Result<seq<(int, string)>, Failure>)
    ensures r.Success? <==> forall i :: 0 <= i < |lines| ==> ParseAutnumLine(lines[i]).Success?
    ensures r.Failure? ==> r.error == RuntimeError
    ensures r.Success? ==> (|r.value| == |lines|
      && forall i :: 0 <= i < |lines| ==> ParseAutnumLine(lines[i]) == Success(r.value[i]))
  {
    MapAll(lines, ParseAutnumLine)
  }

  /** `autnumOrg.put(asn, org)` for each entry in turn: a later entry for the same number overwrites. */
  function OrgMap(entries: seq<(int, string)>): map<int, string>
  {
    if |entries| == 0 then map[]
    else OrgMap(entries[..|entries| - 1])[entries[|entries| - 1].0 := entries[|entries| - 1].1]
  }

  /** The `autnumOrg` map after reading the whole list. */
  function AutnumOrgs(read: LineRead): Result<map<int, string>, Failure>
  {
    var entries :- ReadLoop(read, AutnumEntries(read.LinesRead()));
    Success(OrgMap(entries))
  }

  /** Entry `i` is the last one for `asn`. */
  predicate LastNaming(entries: seq<(int, string)>, asn: int, i: int)
  {
    0 <= i < |entries| && entries[i].0 == asn
      && forall j :: i < j < |entries| ==> entries[j].0 != asn
  }

  /** The map holds exactly the numbers the entries name. */
  lemma {:induction false} OrgMapKeys(entries: seq<(int, string)>)
    ensures forall asn :: asn in OrgMap(entries) <==> exists i :: 0 <= i < |entries| && entries[i].0 == asn
    decreases |entries|
  {
    if |entries| > 0 {
      var n := |entries|;
      var init := entries[..n - 1];
      OrgMapKeys(init);
      forall asn ensures asn in OrgMap(entries) <==> exists i :: 0 <= i < |entries| && entries[i].0 == asn {
        if asn != entries[n - 1].0 && exists i :: 0 <= i < |entries| && entries[i].0 == asn {
          var i :| 0 <= i < |entries| && entries[i].0 == asn;
          assert init[i].0 == asn;
        }
        if exists i :: 0 <= i < |init| && init[i].0 == asn {
          var i :| 0 <= i < |init| && init[i].0 == asn;
          assert entries[i].0 == asn;
        }
      }
    }
  }

  /** Each number maps to the organisation of the last entry naming it. */
  lemma {:induction false} OrgMapLastWins(entries: seq<(int, string)>, asn: int, i: int)
    requires LastNaming(entries, asn, i)
    ensures asn in OrgMap(entries) && OrgMap(entries)[asn] == entries[i].1
    decreases |entries|
  {
    var n := |entries|;
    var init := entries[..n - 1];
    if i < n - 1 {
      assert LastNaming(init, asn, i);
      OrgMapLastWins(init, asn, i);
    }
  }

  // ---------------------------------------------------------------------------
  // data-raw-table: "<cidr>\t<as number>"

  /** The two attributes of a record: the AS number as `Integer.toString` gives it, and its organisation. */
  function AsnInfos(orgs: map<int, string>, asn: int): Attrs
  {
    map[KEY_ASN := Some(IntToString(asn)), KEY_ASNORG := Some(if asn in orgs then orgs[asn] else VALUE_UNKNOWN)]
  }

  /**
   * One raw-table line: split at tabs; the first field must be a CIDR and the
   * second, trimmed, a 32-bit number. A missing field is an index-out-of-bounds
   * failure.
   */
  function ParseRawLine(parse: CidrParser, orgs: map<int, string>, line: string): (r: Result<IpRangeInfos, Failure>)
    ensures r.Failure? ==> r.error == RuntimeError
    ensures r.Success? <==> var f := Split(line, '\t');
      |f| >= 2 && parse(f[0]).Some? && ParseInt(Trim(f[1])).Some?
    ensures r.Success? ==> var f := Split(line, '\t');
      Some(r.value.range) == parse(f[0]) && r.value.infos == AsnInfos(orgs, ParseInt(Trim(f[1])).value)
  {
    var f := Split(line, '\t');
    if |f| == 0 then Failure(RuntimeError)
    else match parse(f[0])
      case None => Failure(RuntimeError)
      case Some(range) =>
        if |f| < 2 then Failure(RuntimeError)
        else match ParseInt(Trim(f[1]))
          case None => Failure(RuntimeError)
          case Some(asn) => Success(IpRangeInfos(range, AsnInfos(orgs, asn)))
  }

  /** One record per raw-table line, in order; the first bad line aborts the read. */
  function RawRecords(parse: CidrParser, orgs: map<int, string>, lines: seq<string>): (r: Result<seq<IpRangeInfos>, Failure>)
    ensures r.Success? <==> forall i :: 0 <= i < |lines| ==> ParseRawLine(parse, orgs, lines[i]).Success?
    ensures r.Failure? ==> r.error == RuntimeError
    ensures r.Success? ==> (|r.value| == |lines|
      && forall i :: 0 <= i < |lines| ==> ParseRawLine(parse, orgs, lines[i]) == Success(r.value[i]))
  {
    MapAll(lines, line => ParseRawLine(parse, orgs, line))
  }

  /**
   * `getIpRanges()`: read the organisation list, then the table. Each file is
   * converted line by line as it is read, so a bad line throws before a later read
   * failure can; the table is not read when the list fails. A null reader for
   * either file throws a `NullPointerException`, for the table only once the list
   * has been read.
   */
  function ApnicRanges(parse: CidrParser, autnums: LineRead, rawTable: LineRead): (r: Result<seq<IpRangeInfos>, Failure>)
    ensures autnums.NoReader? ==> r == Failure(RuntimeError)
    ensures AutnumEntries(autnums.LinesRead()).Failure? ==> r == Failure(RuntimeError)
    ensures AutnumEntries(autnums.LinesRead()).Success? && autnums.Broken? ==> r == Failure(IOError)
    ensures AutnumOrgs(autnums).Success? && rawTable.NoReader? ==> r == Failure(RuntimeError)
    ensures AutnumOrgs(autnums).Success? && RawRecords(parse, AutnumOrgs(autnums).value, rawTable.LinesRead()).Failure? ==>
      r == Failure(RuntimeError)
    ensures (AutnumOrgs(autnums).Success? && rawTable.Broken?
      && RawRecords(parse, AutnumOrgs(autnums).value, rawTable.LinesRead()).Success?) ==> r == Failure(IOError)
    ensures AutnumOrgs(autnums).Success? && rawTable.Complete? ==>
      r == RawRecords(parse, AutnumOrgs(autnums).value, rawTable.lines)
    ensures r.Success? ==> autnums.Complete? && rawTable.Complete? && |r.value| == |rawTable.lines|
  {
    var orgs :- AutnumOrgs(autnums);
    ReadLoop(rawTable, RawRecords(parse, orgs, rawTable.LinesRead()))
  }

  // ---------------------------------------------------------------------------
  // what a record promises

  /**
   * The join for one raw-table line: the record's range is the line's CIDR, its
   * `ASN` the line's number, and its `ASNORG` the organisation of the last
   * autnums entry for that number, or "unknown" when no entry names it.
   */
  ghost predicate Joined(parse: CidrParser, entries: seq<(int, string)>, line: string, rec: IpRangeInfos)
  {
    var f := Split(line, '\t');
    |f| >= 2 && parse(f[0]) == Some(rec.range) && ParseInt(Trim(f[1])).Some?
    && var asn := ParseInt(Trim(f[1])).value;
    rec.infos.Keys == {KEY_ASN, KEY_ASNORG}
    && rec.infos[KEY_ASN] == Some(IntToString(asn))
    && (forall j :: LastNaming(entries, asn, j) ==> rec.infos[KEY_ASNORG] == Some(entries[j].1))
    && ((forall j :: 0 <= j < |entries| ==> entries[j].0 != asn) ==> rec.infos[KEY_ASNORG] == Some(VALUE_UNKNOWN))
  }

  /** A raw-table line parsed against the map the autnums entries build is joined with those entries. */
  lemma ParsedLineJoined(parse: CidrParser, entries: seq<(int, string)>, line: string, rec: IpRangeInfos)
    requires ParseRawLine(parse, OrgMap(entries), line) == Success(rec)
    ensures Joined(parse, entries, line, rec)
  {
    var f := Split(line, '\t');
    var asn := ParseInt(Trim(f[1])).value;
    assert parse(f[0]) == Some(rec.range) && rec.infos == AsnInfos(OrgMap(entries), asn);
    forall j | LastNaming(entries, asn, j) ensures rec.infos[KEY_ASNORG] == Some(entries[j].1) {
      OrgMapLastWins(entries, asn, j);
    }
    OrgMapKeys(entries);
  }

  /** Record `i` of a successful read is raw-table line `i` joined with the autnums entries. */
  lemma ApnicRecordJoin(parse: CidrParser, autnums: LineRead, rawTable: LineRead, i: int)
    requires ApnicRanges(parse, autnums, rawTable).Success?
    requires 0 <= i < |rawTable.lines|
    ensures autnums.Complete? && AutnumEntries(autnums.lines).Success?
    ensures Joined(parse, AutnumEntries(autnums.lines).value, rawTable.lines[i], ApnicRanges(parse, autnums, rawTable).value[i])
  {
    var entries := AutnumEntries(autnums.lines).value;
    var recs := RawRecords(parse, OrgMap(entries), rawTable.lines).value;
    assert ParseRawLine(parse, OrgMap(entries), rawTable.lines[i]) == Success(recs[i]);
    ParsedLineJoined(parse, entries, rawTable.lines[i], recs[i]);
  }

  /** Every record's `ASN` text reads back, with `parseInt`, as the number the table gave. */
  lemma AsnTextRoundTrip(orgs: map<int, string>, asn: int)
    requires INT_MIN <= asn <= INT_MAX
    ensures AsnInfos(orgs, asn).Keys == {KEY_ASN, KEY_ASNORG}
    ensures ParseInt(AsnInfos(orgs, asn)[KEY_ASN].value) == Some(asn)
    ensures AsnInfos(orgs, asn)[KEY_ASNORG] == Some(VALUE_UNKNOWN) <==> asn !in orgs || orgs[asn] == VALUE_UNKNOWN
  {
    ParseIntToString(asn);
  }

  /** A table number the list does not name gets the organisation "unknown". */
  lemma UnlistedAsnIsUnknown(entries: seq<(int, string)>, asn: int)
    requires forall i :: 0 <= i < |entries| ==> entries[i].0 != asn
    ensures AsnInfos(OrgMap(entries), asn)[KEY_ASNORG] == Some(VALUE_UNKNOWN)
  {
    OrgMapKeys(entries);
  }

  /**
   * A padded autnums line: the number is trimmed out of the first five columns,
   * and a line that stops after them is rejected.
   */
  lemma AutnumLineExample(org: string)
    requires |org| > 0 && !IsTrimmable(org[0]) && !IsTrimmable(org[|org| - 1])
    ensures ParseAutnumLine("   13" + " " + org) == Success((13, org))
    ensures ParseAutnumLine("   13") == Failure(RuntimeError)
  {
    PaddedThirteen();
    TrimmedIsFixed(org);
    ParseColumns("   13", org, 13);
    ShortLine("   13");
  }

  /** A line of fewer than six characters has no organisation column. */
  lemma ShortLine(line: string)
    requires |line| < 6
    ensures ParseAutnumLine(line) == Failure(RuntimeError)
  {
  }

  /** A line made of a five-character number field, one separator and an already trimmed organisation. */
  lemma ParseColumns(head: string, org: string, asn: int)
    requires |head| == 5 && ParseInt(Trim(head)) == Some(asn) && Trim(org) == org
    ensures ParseAutnumLine(head + " " + org) == Success((asn, org))
  {
    var line := head + " " + org;
    assert line[..5] == head && line[6..] == org;
  }

  lemma PaddedThirteen()
    ensures ParseInt(Trim("   13")) == Some(13)
  {
    TrimPaddedThirteen();
    ParseThirteen();
  }

  lemma TrimPaddedThirteen()
    ensures Trim("   13") == "13"
  {
    assert "   13" == "   " + "13";
    TrimPadded("   ", "13");
  }

  lemma ParseThirteen()
    ensures ParseInt("13") == Some(13)
  {
    assert "13"[..1] == "1";
    assert DigitsValue("13") == 13;
  }
}
