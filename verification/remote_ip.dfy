/**
 * `RemoteIpDetector` of the servlet example: when the peer address is a trusted
 * proxy, the client is the right-most untrusted IPv4 address in the forwarding
 * header (`X-Forwarded-For` by default); otherwise, or when there is none, it
 * is the peer address itself.
 */
module RemoteIpDetection {
  import opened Wrappers
  import opened Records
  import opened JavaStrings

  const DEFAULT_REMOTE_HEADER: string := "X-Forwarded-For"

  // ---------------------------------------------------------------------------
  // the default trusted-proxy pattern

  /** `\d{1,3}`: one to three ASCII digits. */
  predicate DigitRun(s: string)
  {
    1 <= |s| <= 3 && AllDigits(s)
  }

  /** `1[6-9]`, `2[0-9]` or `3[0-1]`: the second octet of 172.16.0.0/12. */
  predicate PrivateSecondOctet(s: string)
  {
    |s| == 2 &&
    ((s[0] == '1' && '6' <= s[1] <= '9') || (s[0] == '2' && '0' <= s[1] <= '9') || (s[0] == '3' && '0' <= s[1] <= '1'))
  }

  /**
   * The default pattern, alternative by alternative. Digit runs hold no dot, so a
   * whole-string match is a split at dots into exactly four fields.
   */
  predicate DefaultTrusted(s: string)
  {
    var f := SplitAll(s, '.');
    |f| == 4 && DigitRun(f[2]) && DigitRun(f[3]) &&
    ((f[0] == "10" && DigitRun(f[1]))
     || (f[0] == "192" && f[1] == "168")
     || (f[0] == "169" && f[1] == "254")
     || (f[0] == "127" && DigitRun(f[1]))
     || (f[0] == "172" && PrivateSecondOctet(f[1])))
  }

  // ---------------------------------------------------------------------------
  // configuration

  /** A compiled pattern's `matches()`; `None` is the disabled pattern (null). */
  type TrustPattern = Option<string -> bool>

  /** `Pattern.compile`: `None` is a `PatternSyntaxException`. */
  type RegexCompiler = string -> Option<string -> bool>

  datatype Detector = Detector(trusted: TrustPattern, remoteHeaderName: string)

  function DefaultDetector(): (d: Detector)
    ensures d.trusted.Some? && d.remoteHeaderName == DEFAULT_REMOTE_HEADER
    ensures forall s :: d.trusted.value(s) <==> DefaultTrusted(s)
  {
    Detector(Some(s => DefaultTrusted(s)), DEFAULT_REMOTE_HEADER)
  }

  /** `setTrustedProxyIpsPattern`: null or empty disables trust; otherwise the text is compiled. */
  function SetTrustedProxyIpsPattern(d: Detector, compile: RegexCompiler, text: Option<string>): (r: Result<Detector, Failure>)
    ensures r.Success? ==> r.value.remoteHeaderName == d.remoteHeaderName
    ensures (text.None? || text == Some("")) ==> r == Success(d.(trusted := None))
    ensures text.Some? && text.value != "" ==>
      (r.Success? <==> compile(text.value).Some?) && (r.Success? ==> r.value.trusted == compile(text.value))
    ensures r.Failure? ==> r.error == RuntimeError
  {
    match text
    case None => Success(d.(trusted := None))
    case Some(t) =>
      if |t| == 0 then Success(d.(trusted := None))
      else match compile(t)
        case None => Failure(RuntimeError)
        case Some(m) => Success(d.(trusted := Some(m)))
  }

  function SetRemoteHeaderName(d: Detector, name: string): (r: Detector)
    ensures r.remoteHeaderName == name && r.trusted == d.trusted
  {
    d.(remoteHeaderName := name)
  }

  // ---------------------------------------------------------------------------
  // the request

  /**
   * The parts of an `HttpServletRequest` the detector reads: the peer address
   * and `getHeaders(name)`, which is null when the container denies header access.
   */
  datatype Request = Request(remoteAddr: string, headers: string -> Option<seq<string>>)

  function TrimAll(values: seq<string>): (r: seq<string>)
    ensures |r| == |values| && forall i :: 0 <= i < |r| ==> r[i] == Trim(values[i])
  {
    seq(|values|, i requires 0 <= i < |values| => Trim(values[i]))
  }

  /** Every header row split at commas, each value trimmed, rows in order. */
  function CsvValues(rows: seq<string>): seq<string>
    decreases |rows|
  {
    if |rows| == 0 then [] else TrimAll(Split(rows[0], ',')) + CsvValues(rows[1..])
  }

  /** `valuesFromCsvHeaders`: no values when the container gives no header access. */
  function ValuesFromCsvHeaders(req: Request, headerName: string): (r: seq<string>)
    ensures req.headers(headerName).None? ==> r == []
  {
    match req.headers(headerName)
    case None => []
    case Some(rows) => CsvValues(rows)
  }

  // ---------------------------------------------------------------------------
  // remoteIp

  /** A header value the scan accepts: not a trusted proxy, and an IPv4 address. */
  predicate Candidate(trusted: string -> bool, parse: Ipv4Parser, v: string)
  {
    !trusted(v) && parse(v).Some?
  }

  /** Position `k` holds the right-most accepted value. */
  predicate RightmostCandidate(trusted: string -> bool, parse: Ipv4Parser, ips: seq<string>, k: int)
  {
    0 <= k < |ips| && Candidate(trusted, parse, ips[k])
      && forall j :: k < j < |ips| ==> !Candidate(trusted, parse, ips[j])
  }

  /** The peer is a trusted proxy, so the header is consulted. */
  predicate Proxied(d: Detector, req: Request)
  {
    d.trusted.Some? && d.trusted.value(req.remoteAddr)
  }

  /** `Ipv4.of(remoteAddress)`: the fallback, which throws on a malformed address. */
  function PeerAddress(parse: Ipv4Parser, remoteAddr: string): (r: Result<Address, Failure>)
    ensures r.Success? <==> parse(remoteAddr).Some?
    ensures r.Success? ==> r.value == parse(remoteAddr).value
    ensures r.Failure? ==> r.error == RuntimeError
  {
    match parse(remoteAddr)
    case None => Failure(RuntimeError)
    case Some(a) => Success(a)
  }

  /**
   * The loop of `remoteIp`: from the last value leftwards, stop at the first one
   * that is untrusted and parses as IPv4; -1 when none does.
   */
  method ScanFromRight(trusted: string -> bool, parse: Ipv4Parser, ips: seq<string>) returns (k: int)
    ensures k == -1 <==> forall j :: 0 <= j < |ips| ==> !Candidate(trusted, parse, ips[j])
    ensures k != -1 ==> RightmostCandidate(trusted, parse, ips, k)
  {
    k := |ips| - 1;
    while k >= 0 && !Candidate(trusted, parse, ips[k])
      invariant -1 <= k < |ips|
      invariant forall j :: k < j < |ips| ==> !Candidate(trusted, parse, ips[j])
    {
      k := k - 1;
    }
  }

  /** `remoteIp(request)` */
  method RemoteIp(d: Detector, req: Request, parse: Ipv4Parser) returns (r: Result<Address, Failure>)
    ensures !Proxied(d, req) ==> r == PeerAddress(parse, req.remoteAddr)
    ensures Proxied(d, req) ==>
      var ips := ValuesFromCsvHeaders(req, d.remoteHeaderName);
      if exists k :: RightmostCandidate(d.trusted.value, parse, ips, k)
      then exists k :: RightmostCandidate(d.trusted.value, parse, ips, k) && r == Success(parse(ips[k]).value)
      else r == PeerAddress(parse, req.remoteAddr)
  {
    r := PeerAddress(parse, req.remoteAddr);
    if Proxied(d, req) {
      var ips := ValuesFromCsvHeaders(req, d.remoteHeaderName);
      var k := ScanFromRight(d.trusted.value, parse, ips);
      if k != -1 {
        r := Success(parse(ips[k]).value);
      }
    }
  }

  // ---------------------------------------------------------------------------
  // header rows versus one comma-separated row

  /** The right-most accepted value, by recursion from the right. */
  function Pick(trusted: string -> bool, parse: Ipv4Parser, ips: seq<string>): Option<Address>
  {
    if |ips| == 0 then None
    else if Candidate(trusted, parse, ips[|ips| - 1]) then parse(ips[|ips| - 1])
    else Pick(trusted, parse, ips[..|ips| - 1])
  }

  /** `Pick` finds exactly the value the scan of `remoteIp` stops at. */
  lemma {:induction false} PickIsRightmost(trusted: string -> bool, parse: Ipv4Parser, ips: seq<string>)
    ensures Pick(trusted, parse, ips).None? <==> forall j :: 0 <= j < |ips| ==> !Candidate(trusted, parse, ips[j])
    ensures forall k :: RightmostCandidate(trusted, parse, ips, k) ==> Pick(trusted, parse, ips) == parse(ips[k])
    decreases |ips|
  {
    if |ips| > 0 {
      var init := ips[..|ips| - 1];
      PickIsRightmost(trusted, parse, init);
      assert forall j :: 0 <= j < |init| ==> init[j] == ips[j];
      forall k | RightmostCandidate(trusted, parse, ips, k) ensures Pick(trusted, parse, ips) == parse(ips[k]) {
        if k < |ips| - 1 {
          assert RightmostCandidate(trusted, parse, init, k);
        }
      }
    }
  }

  /** The values without the empty ones. */
  function NonEmpty(values: seq<string>): (r: seq<string>)
    ensures forall i :: 0 <= i < |r| ==> r[i] != []
    ensures forall v :: v in r <==> v in values && v != []
  {
    if |values| == 0 then []
    else (if values[0] == [] then [] else [values[0]]) + NonEmpty(values[1..])
  }

  lemma {:induction false} NonEmptyConcat(a: seq<string>, b: seq<string>)
    ensures NonEmpty(a + b) == NonEmpty(a) + NonEmpty(b)
    decreases |a|
  {
    if |a| == 0 {
      assert a + b == b;
    } else {
      assert (a + b)[0] == a[0] && (a + b)[1..] == a[1..] + b;
      NonEmptyConcat(a[1..], b);
    }
  }

  lemma {:induction false} PickConcat(trusted: string -> bool, parse: Ipv4Parser, a: seq<string>, b: seq<string>)
    ensures Pick(trusted, parse, a + b) == if Pick(trusted, parse, b).Some? then Pick(trusted, parse, b) else Pick(trusted, parse, a)
    decreases |b|
  {
    if |b| == 0 {
      assert a + b == a;
    } else {
      assert (a + b)[..|a + b| - 1] == a + b[..|b| - 1];
      PickConcat(trusted, parse, a, b[..|b| - 1]);
    }
  }

  /** An empty value is never accepted, so dropping empty values does not change the pick. */
  lemma {:induction false} PickIgnoresEmpty(trusted: string -> bool, parse: Ipv4Parser, ips: seq<string>)
    requires parse("").None?
    ensures Pick(trusted, parse, NonEmpty(ips)) == Pick(trusted, parse, ips)
    decreases |ips|
  {
    if |ips| > 0 {
      var head := if ips[0] == [] then [] else [ips[0]];
      PickIgnoresEmpty(trusted, parse, ips[1..]);
      assert ips == [ips[0]] + ips[1..];
      PickConcat(trusted, parse, [ips[0]], ips[1..]);
      PickConcat(trusted, parse, head, NonEmpty(ips[1..]));
      assert Pick(trusted, parse, [ips[0]]) == Pick(trusted, parse, head) by {
        assert [ips[0]][..0] == [];
      }
    }
  }

  lemma {:induction false} TrimAllConcat(a: seq<string>, b: seq<string>)
    ensures TrimAll(a + b) == TrimAll(a) + TrimAll(b)
  {
  }

  /** Trimmed, then without empties: the same for `split` and for the raw pieces. */
  lemma SplitAndPiecesAgree(row: string)
    ensures NonEmpty(TrimAll(Split(row, ','))) == NonEmpty(TrimAll(SplitAll(row, ',')))
  {
    SplitIsPrefixOfPieces(row, ',');
    var all := SplitAll(row, ',');
    var n := |Split(row, ',')|;
    assert Split(row, ',') == all[..n];
    EmptyTailVanishes(all, n);
  }

  lemma EmptyTailVanishes(all: seq<string>, n: nat)
    requires n <= |all| && forall i :: n <= i < |all| ==> all[i] == []
    ensures NonEmpty(TrimAll(all)) == NonEmpty(TrimAll(all[..n]))
  {
    var kept, dropped := all[..n], all[n..];
    assert all == kept + dropped;
    TrimAllConcat(kept, dropped);
    NonEmptyConcat(TrimAll(kept), TrimAll(dropped));
    AllEmptyVanish(TrimAll(dropped));
    assert NonEmpty(TrimAll(kept)) + [] == NonEmpty(TrimAll(kept));
  }

  lemma {:induction false} AllEmptyVanish(values: seq<string>)
    requires forall i :: 0 <= i < |values| ==> values[i] == []
    ensures NonEmpty(values) == []
    decreases |values|
  {
    if |values| > 0 {
      AllEmptyVanish(values[1..]);
    }
  }

  /** The pieces of the joined rows are the pieces of each row, in order. */
  lemma {:induction false} PiecesOfJoinedRows(rows: seq<string>)
    requires |rows| >= 1
    ensures NonEmpty(TrimAll(SplitAll(Join(rows, ','), ','))) == NonEmpty(CsvValues(rows))
    decreases |rows|
  {
    SplitAndPiecesAgree(rows[0]);
    var first := TrimAll(SplitAll(rows[0], ','));
    if |rows| == 1 {
      assert CsvValues(rows) == TrimAll(Split(rows[0], ',')) + CsvValues(rows[1..]);
      assert CsvValues(rows[1..]) == [];
      assert TrimAll(Split(rows[0], ',')) + [] == TrimAll(Split(rows[0], ','));
    } else {
      PiecesOfJoinedRows(rows[1..]);
      SplitAllConcat(rows[0], Join(rows[1..], ','), ',');
      TrimAllConcat(SplitAll(rows[0], ','), SplitAll(Join(rows[1..], ','), ','));
      NonEmptyConcat(first, TrimAll(SplitAll(Join(rows[1..], ','), ',')));
      NonEmptyConcat(TrimAll(Split(rows[0], ',')), CsvValues(rows[1..]));
    }
  }

  /**
   * Values spread over several header rows give the same client address as the
   * same rows joined into one comma-separated row: the two value lists differ
   * only in empty values, which no IPv4 parser accepts.
   */
  lemma HeaderRowsAsOneCsv(trusted: string -> bool, parse: Ipv4Parser, rows: seq<string>)
    requires |rows| >= 1 && parse("").None?
    ensures Pick(trusted, parse, CsvValues(rows)) == Pick(trusted, parse, CsvValues([Join(rows, ',')]))
  {
    var joined := Join(rows, ',');
    PiecesOfJoinedRows(rows);
    SplitAndPiecesAgree(joined);
    assert CsvValues([joined]) == TrimAll(Split(joined, ',')) + CsvValues([]);
    assert CsvValues([joined]) == TrimAll(Split(joined, ','));
    PickIgnoresEmpty(trusted, parse, CsvValues(rows));
    PickIgnoresEmpty(trusted, parse, CsvValues([joined]));
  }

  /**
   * The two lists themselves do differ: a row ending in a comma loses its empty
   * last value to `split`, but keeps it once the rows are joined.
   */
  lemma TrailingCommaRow(x: string, y: string)
    requires x != [] && y != [] && ',' !in x && ',' !in y && Trim(x) == x && Trim(y) == y
    ensures CsvValues([x + ",", y]) == [x, y]
    ensures CsvValues([Join([x + ",", y], ',')]) == [x, "", y]
  {
    SeparateRows(x, y);
    JoinedRows(x, y);
  }

  lemma SeparateRows(x: string, y: string)
    requires x != [] && y != [] && ',' !in x && ',' !in y && Trim(x) == x && Trim(y) == y
    ensures CsvValues([x + ",", y]) == [x, y]
  {
    var empty: seq<string> := [];
    var row := x + ",";
    SplitTrailingComma(x);
    SplitAllWithoutSeparator(y, ',');
    TrimOne(x);
    TrimOne(y);
    assert [row, y] == [row] + [y];
    assert [y] == [y] + empty;
    assert CsvValues(empty) == [];
    calc {
      CsvValues([row, y]);
      { CsvValuesCons(row, [y]); }
      TrimAll(Split(row, ',')) + CsvValues([y]);
      { CsvValuesCons(y, empty); }
      TrimAll([x]) + (TrimAll([y]) + CsvValues(empty));
      [x] + [y];
    }
  }

  lemma TrimOne(x: string)
    requires Trim(x) == x
    ensures TrimAll([x]) == [x]
  {
    var r := TrimAll([x]);
    assert |r| == 1 && r[0] == Trim([x][0]);
  }

  lemma JoinedRows(x: string, y: string)
    requires x != [] && y != [] && ',' !in x && ',' !in y && Trim(x) == x && Trim(y) == y
    ensures CsvValues([Join([x + ",", y], ',')]) == [x, "", y]
  {
    var empty: seq<string> := [];
    var joined := Join([x + ",", y], ',');
    JoinPair(x + ",", y, ',');
    assert "," == [','];
    assert joined == x + [','] + ([','] + y);
    SplitDoubleComma(x, y);
    TrimThree(x, y);
    CsvValuesCons(joined, empty);
    assert [joined] == [joined] + empty;
  }

  lemma TrimThree(x: string, y: string)
    requires Trim(x) == x && Trim(y) == y
    ensures TrimAll([x, "", y]) == [x, "", y]
  {
    TrimEmpty();
    TrimAllFixedThree(x, [], y);
  }

  lemma TrimEmpty()
    ensures Trim([]) == []
  {
  }

  lemma TrimAllFixedThree(a: string, b: string, c: string)
    requires Trim(a) == a && Trim(b) == b && Trim(c) == c
    ensures TrimAll([a, b, c]) == [a, b, c]
  {
    var v := [a, b, c];
    assert forall i :: 0 <= i < |v| ==> Trim(v[i]) == v[i];
    TrimAllFixed(v);
  }

  /** Values that `trim` leaves alone pass through `TrimAll` unchanged. */
  lemma TrimAllFixed(values: seq<string>)
    requires forall i :: 0 <= i < |values| ==> Trim(values[i]) == values[i]
    ensures TrimAll(values) == values
  {
  }

  lemma SplitTrailingComma(x: string)
    requires x != [] && ',' !in x
    ensures Split(x + ",", ',') == [x]
  {
    SplitAllWithoutSeparator(x, ',');
    SplitAllWithoutSeparator("", ',');
    SplitAllConcat(x, "", ',');
    assert x + "," == x + [','] + "";
    assert [x] + [""] == [x, ""];
    assert [x, ""][..1] == [x];
  }

  lemma SplitDoubleComma(x: string, y: string)
    requires x != [] && y != [] && ',' !in x && ',' !in y
    ensures Split(x + [','] + ([','] + y), ',') == [x, "", y]
  {
    SplitAllWithoutSeparator(x, ',');
    SplitAllWithoutSeparator(y, ',');
    SplitAllWithoutSeparator("", ',');
    SplitAllConcat("", y, ',');
    assert "" + [','] + y == [','] + y;
    SplitAllConcat(x, [','] + y, ',');
    assert [x] + ([""] + [y]) == [x, "", y];
  }

  lemma JoinPair(p: string, q: string, sep: char)
    ensures Join([p, q], sep) == p + [sep] + q
  {
    assert [p, q][1..] == [q];
  }

  lemma CsvValuesCons(row: string, rest: seq<string>)
    ensures CsvValues([row] + rest) == TrimAll(Split(row, ',')) + CsvValues(rest)
  {
    assert ([row] + rest)[1..] == rest;
  }

  // ---------------------------------------------------------------------------
  // the default pattern on dotted-quad text

  /** The four octets of an address, most significant first. */
  function Octets(a: Address): (o: seq<nat>)
    ensures |o| == 4 && forall k :: 0 <= k < 4 ==> o[k] < 256
    ensures a == ((o[0] * 256 + o[1]) * 256 + o[2]) * 256 + o[3]
  {
    var q1 := a / 256;
    var q2 := q1 / 256;
    var q3 := q2 / 256;
    [q3, q2 % 256, q1 % 256, a % 256]
  }

  /** `Ipv4.toString()`: the octets in decimal, separated by dots. */
  function DottedQuad(a: Address): string
  {
    var o := Octets(a);
    Join([NatToDecimal(o[0]), NatToDecimal(o[1]), NatToDecimal(o[2]), NatToDecimal(o[3])], '.')
  }

  /** 10.0.0.0/8, 192.168.0.0/16, 169.254.0.0/16, 127.0.0.0/8 and 172.16.0.0/12. */
  predicate InTrustedBlock(a: Address)
  {
    var o := Octets(a);
    o[0] == 10 || (o[0] == 192 && o[1] == 168) || (o[0] == 169 && o[1] == 254) || o[0] == 127
      || (o[0] == 172 && 16 <= o[1] <= 31)
  }

  lemma OctetIsDigitRun(n: nat)
    requires n < 256
    ensures DigitRun(NatToDecimal(n)) && '.' !in NatToDecimal(n)
  {
    if n >= 10 {
      assert NatToDecimal(n) == NatToDecimal(n / 10) + [DigitChar(n % 10)];
      if n / 10 >= 10 {
        assert NatToDecimal(n / 10) == NatToDecimal(n / 100) + [DigitChar(n / 10 % 10)];
      }
    }
    var s := NatToDecimal(n);
    assert forall i :: 0 <= i < |s| ==> IsDigit(s[i]);
  }

  /** Decimal text names one number: two numbers have the same text only if equal. */
  lemma DecimalInjective(m: nat, n: nat)
    ensures NatToDecimal(m) == NatToDecimal(n) <==> m == n
  {
  }

  lemma LiteralDecimals()
    ensures NatToDecimal(10) == "10" && NatToDecimal(127) == "127" && NatToDecimal(168) == "168"
    ensures NatToDecimal(169) == "169" && NatToDecimal(172) == "172" && NatToDecimal(192) == "192"
    ensures NatToDecimal(254) == "254"
  {
    TwoDigitDecimal(10);
    ThreeDigitDecimal(127);
    ThreeDigitDecimal(168);
    ThreeDigitDecimal(169);
    ThreeDigitDecimal(172);
    ThreeDigitDecimal(192);
    ThreeDigitDecimal(254);
  }

  lemma TwoDigitDecimal(n: nat)
    requires 10 <= n < 100
    ensures NatToDecimal(n) == [DigitChar(n / 10), DigitChar(n % 10)]
  {
    assert NatToDecimal(n) == NatToDecimal(n / 10) + [DigitChar(n % 10)];
  }

  lemma ThreeDigitDecimal(n: nat)
    requires 100 <= n < 1000
    ensures NatToDecimal(n) == [DigitChar(n / 100), DigitChar(n / 10 % 10), DigitChar(n % 10)]
  {
    assert NatToDecimal(n) == NatToDecimal(n / 10) + [DigitChar(n % 10)];
    TwoDigitDecimal(n / 10);
    assert n / 10 / 10 == n / 100;
  }

  lemma TwoDigitValue(s: string)
    requires |s| == 2 && AllDigits(s)
    ensures DigitsValue(s) == DigitValue(s[0]) * 10 + DigitValue(s[1])
  {
    var head := s[..1];
    assert head[..0] == [] && head[0] == s[0];
    assert DigitsValue(head) == DigitValue(s[0]);
  }

  /** The `172` alternative's second field is the decimal text of 16 to 31 exactly. */
  lemma PrivateSecondOctetRange(n: nat)
    requires n < 256
    ensures PrivateSecondOctet(NatToDecimal(n)) <==> 16 <= n <= 31
  {
    var s := NatToDecimal(n);
    if 16 <= n <= 31 {
      assert s == NatToDecimal(n / 10) + [DigitChar(n % 10)];
      assert NatToDecimal(n / 10) == [DigitChar(n / 10)];
    }
    if PrivateSecondOctet(s) {
      assert AllDigits(s);
      TwoDigitValue(s);
    }
  }

  lemma SplitDottedQuad(a: Address)
    ensures var o := Octets(a);
      SplitAll(DottedQuad(a), '.') == [NatToDecimal(o[0]), NatToDecimal(o[1]), NatToDecimal(o[2]), NatToDecimal(o[3])]
  {
    var o := Octets(a);
    var parts := [NatToDecimal(o[0]), NatToDecimal(o[1]), NatToDecimal(o[2]), NatToDecimal(o[3])];
    OctetIsDigitRun(o[0]);
    OctetIsDigitRun(o[1]);
    OctetIsDigitRun(o[2]);
    OctetIsDigitRun(o[3]);
    SplitAllJoin(parts, '.');
  }

  /**
   * On an address's dotted-quad text the default pattern trusts exactly the
   * loopback, link-local and private blocks.
   */
  lemma DefaultPatternIsPrivateBlocks(a: Address)
    ensures DefaultTrusted(DottedQuad(a)) <==> InTrustedBlock(a)
  {
    var o := Octets(a);
    SplitDottedQuad(a);
    OctetIsDigitRun(o[1]);
    OctetIsDigitRun(o[2]);
    OctetIsDigitRun(o[3]);
    LiteralDecimals();
    DecimalInjective(o[0], 10);
    DecimalInjective(o[0], 127);
    DecimalInjective(o[0], 169);
    DecimalInjective(o[0], 172);
    DecimalInjective(o[0], 192);
    DecimalInjective(o[1], 168);
    DecimalInjective(o[1], 254);
    PrivateSecondOctetRange(o[1]);
  }

  /** The pattern only looks at digit counts: text that is no address can still be trusted. */
  lemma PatternAcceptsNonAddress()
    ensures DefaultTrusted("10.999.999.999")
  {
    assert AllDigits("999");
    JoinNines();
    TenNetAccepts("999", "999", "999");
  }

  /** Any three digit runs after "10" pass the 10.0.0.0/8 alternative, whatever their value. */
  lemma TenNetAccepts(b: string, c: string, d: string)
    requires DigitRun(b) && DigitRun(c) && DigitRun(d)
    ensures DefaultTrusted(Join(["10", b, c, d], '.'))
  {
    var parts := ["10", b, c, d];
    assert forall i :: 0 <= i < |parts| ==> '.' !in parts[i];
    SplitAllJoin(parts, '.');
  }

  lemma JoinNines()
    ensures Join(["10", "999", "999", "999"], '.') == "10.999.999.999"
  {
    var parts := ["10", "999", "999", "999"];
    assert parts[1..] == ["999", "999", "999"];
    assert parts[1..][1..] == ["999", "999"];
    assert parts[1..][1..][1..] == ["999"];
    assert Join(["999"], '.') == "999";
    assert Join(["999", "999"], '.') == "999.999";
    assert Join(["999", "999", "999"], '.') == "999.999.999";
  }
}
