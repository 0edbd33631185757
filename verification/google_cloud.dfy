/**
 * `GoogleCloudIpRangesSource`: follows Google's SPF netblock records. The TXT
 * records of `_cloud-netblocks.googleusercontent.com` name the level-1 domains
 * (`include:` statements); each level-1 domain's TXT records list CIDRs
 * (`ip4:` statements), and each CIDR becomes a record tagged with its domain.
 */
module GoogleCloudSource {
  import opened Wrappers
  import opened Records
  import opened JavaStrings

  const NAME: string := "GoogleCloud"
  const KEY_GROUP: string := "group"
  const INITIAL_QUERY_DOMAIN: string := "_cloud-netblocks.googleusercontent.com"
  const SPF_PREFIX: string := "v=spf1"
  const INCLUDE_PREFIX: string := "include:"
  const IP4_PREFIX: string := "ip4:"

  /** A TXT lookup: the record strings of a domain, or `None` for a `NamingException`. */
  type TxtLookup = string -> Option<seq<string>>

  // ---------------------------------------------------------------------------
  // JdkDnsTextRecordRetriever: quotes are stripped from both ends of each entry

  predicate IsQuote(c: char)
  {
    c == '"' || c == '\''
  }

  function StripLeadingQuotes(s: string): (r: string)
    ensures |r| <= |s| && r == s[|s| - |r|..]
    ensures forall k :: 0 <= k < |s| - |r| ==> IsQuote(s[k])
    ensures r == [] || !IsQuote(r[0])
  {
    if |s| > 0 && IsQuote(s[0]) then StripLeadingQuotes(s[1..]) else s
  }

  function StripTrailingQuotes(s: string): (r: string)
    ensures |r| <= |s| && r == s[..|r|]
    ensures forall k :: |r| <= k < |s| ==> IsQuote(s[k])
    ensures r == [] || !IsQuote(r[|r| - 1])
  {
    if |s| > 0 && IsQuote(s[|s| - 1]) then StripTrailingQuotes(s[..|s| - 1]) else s
  }

  /** `r` is the slice of `s` starting at `i`, and everything around it is a quote. */
  predicate QuotedSlice(s: string, r: string, i: int)
  {
    0 <= i <= |s| - |r| && r == s[i..i + |r|]
    && (forall k :: 0 <= k < i ==> IsQuote(s[k]))
    && (forall k :: i + |r| <= k < |s| ==> IsQuote(s[k]))
  }

  /** `StringUtils.strip(entry, "\"'")`: quotes removed from the start, then from the end. */
  function StripQuotes(s: string): (r: string)
    ensures r == [] || (!IsQuote(r[0]) && !IsQuote(r[|r| - 1]))
    ensures (forall k :: 0 <= k < |s| ==> !IsQuote(s[k])) ==> r == s
  {
    StripEnds(s);
    StripTrailingQuotes(StripLeadingQuotes(s))
  }

  lemma StripEnds(s: string)
    ensures var r := StripTrailingQuotes(StripLeadingQuotes(s));
      && (r == [] || (!IsQuote(r[0]) && !IsQuote(r[|r| - 1])))
      && ((forall k :: 0 <= k < |s| ==> !IsQuote(s[k])) ==> r == s)
  {
    var t := StripLeadingQuotes(s);
    var r := StripTrailingQuotes(t);
    if r != [] {
      assert r[0] == t[0];
    }
  }

  /** Stripping returns a slice of the entry: what it removes is quotes, and only from the ends. */
  lemma StripIsSlice(s: string)
    ensures exists i :: QuotedSlice(s, StripQuotes(s), i)
  {
    var t := StripLeadingQuotes(s);
    var r := StripTrailingQuotes(t);
    assert StripQuotes(s) == r;
    var i := |s| - |t|;
    assert t == s[i..] && r == t[..|r|];
    assert r == s[i..i + |r|];
    assert forall k :: i + |r| <= k < |s| ==> IsQuote(s[k]) by {
      forall k | i + |r| <= k < |s| ensures IsQuote(s[k]) {
        assert s[k] == t[k - i];
      }
    }
    assert QuotedSlice(s, r, i);
  }

  /** The retriever's entries: every TXT string with its quotes stripped. */
  function TxtEntries(raw: seq<string>): (r: seq<string>)
    ensures |r| == |raw|
    ensures forall i :: 0 <= i < |r| ==> r[i] == StripQuotes(raw[i])
    ensures forall i :: 0 <= i < |r| ==> r[i] == [] || (!IsQuote(r[i][0]) && !IsQuote(r[i][|r[i]| - 1]))
  {
    seq(|raw|, i requires 0 <= i < |raw| => StripQuotes(raw[i]))
  }

  /**
   * `JdkDnsTextRecordRetriever` over a lookup of raw TXT strings: the same domains
   * resolve, each answer is the raw strings with their quotes stripped one by one,
   * and every entry it hands on is already free of quotes at its ends.
   */
  function JdkLookup(raw: TxtLookup): (dns: TxtLookup)
    ensures forall d :: dns(d).Some? <==> raw(d).Some?
    ensures forall d :: raw(d).Some? ==> dns(d) == Some(TxtEntries(raw(d).value))
    ensures forall d :: dns(d).Some? ==> (|dns(d).value| == |raw(d).value|
      && forall i :: 0 <= i < |dns(d).value| ==> StripQuotes(dns(d).value[i]) == dns(d).value[i])
  {
    forall s ensures StripQuotes(StripQuotes(s)) == StripQuotes(s) {
      StripQuotesIdempotent(s);
    }
    d => if raw(d).Some? then Some(TxtEntries(raw(d).value)) else None
  }

  /** Stripping twice strips nothing more. */
  lemma StripQuotesIdempotent(s: string)
    ensures StripQuotes(StripQuotes(s)) == StripQuotes(s)
  {
  }

  // ---------------------------------------------------------------------------
  // scanning an SPF record

  /** The rest of each token that starts with `statement`, in order. */
  function ScanTokens(tokens: seq<string>, statement: string): (r: seq<string>)
    ensures |r| <= |tokens|
    ensures forall k :: 0 <= k < |r| ==> exists i :: 0 <= i < |tokens| && tokens[i] == statement + r[k]
    ensures (forall i :: 0 <= i < |tokens| ==> !StartsWith(tokens[i], statement)) ==> r == []
    decreases |tokens|
  {
    if |tokens| == 0 then []
    else
      var rest := ScanTokens(tokens[1..], statement);
      if StartsWith(tokens[0], statement) then
        assert tokens[0] == statement + tokens[0][|statement|..];
        [tokens[0][|statement|..]] + rest
      else rest
  }

  /** `scanSpfForStatements(spf, statement)`: the record is split at single spaces. */
  function ScanSpf(spf: string, statement: string): seq<string>
  {
    ScanTokens(Split(spf, ' '), statement)
  }

  lemma {:induction false} ScanTokensConcat(a: seq<string>, b: seq<string>, statement: string)
    ensures ScanTokens(a + b, statement) == ScanTokens(a, statement) + ScanTokens(b, statement)
    decreases |a|
  {
    if |a| == 0 {
      assert a + b == b;
    } else {
      assert (a + b)[0] == a[0] && (a + b)[1..] == a[1..] + b;
      ScanTokensConcat(a[1..], b, statement);
    }
  }

  /** Each value prefixed with the statement, as an SPF record spells it. */
  function Statements(statement: string, values: seq<string>): (r: seq<string>)
    ensures |r| == |values| && forall k :: 0 <= k < |r| ==> r[k] == statement + values[k]
  {
    seq(|values|, k requires 0 <= k < |values| => statement + values[k])
  }

  lemma {:induction false} ScanStatements(statement: string, values: seq<string>)
    ensures ScanTokens(Statements(statement, values), statement) == values
    decreases |values|
  {
    if |values| > 0 {
      var toks := Statements(statement, values);
      assert toks[0] == statement + values[0];
      assert toks[0][|statement|..] == values[0];
      assert StartsWith(toks[0], statement);
      assert ScanTokens(toks, statement) == [values[0]] + ScanTokens(toks[1..], statement);
      assert toks[1..] == Statements(statement, values[1..]);
      ScanStatements(statement, values[1..]);
    }
  }

  /** `split(" ")` of the space-separated join of non-empty, space-free tokens gives them back. */
  lemma SplitJoinTokens(tokens: seq<string>)
    requires |tokens| >= 1
    requires PlainTokens(tokens)
    ensures Split(Join(tokens, ' '), ' ') == tokens
  {
    SplitAllJoin(tokens, ' ');
    if |tokens| == 1 {
    } else {
      assert ' ' in Join(tokens, ' ') by {
        assert Join(tokens, ' ') == tokens[0] + [' '] + Join(tokens[1..], ' ');
        assert Join(tokens, ' ')[|tokens[0]|] == ' ';
      }
    }
  }

  /** Tokens that `split(" ")` gives back from their join. */
  predicate PlainTokens(tokens: seq<string>)
  {
    forall i :: 0 <= i < |tokens| ==> tokens[i] != [] && ' ' !in tokens[i]
  }

  lemma StatementsArePlain(statement: string, values: seq<string>)
    requires statement != [] && ' ' !in statement
    requires forall k :: 0 <= k < |values| ==> ' ' !in values[k]
    ensures PlainTokens(Statements(statement, values))
  {
    var stmts := Statements(statement, values);
    forall i | 0 <= i < |stmts| ensures stmts[i] != [] && ' ' !in stmts[i] {
      assert stmts[i] == statement + values[i];
      assert stmts[i][0] == statement[0];
    }
  }

  lemma {:induction false} JoinStartsWithFirst(tokens: seq<string>)
    requires |tokens| >= 1
    ensures StartsWith(Join(tokens, ' '), tokens[0])
  {
    if |tokens| > 1 {
      assert Join(tokens, ' ') == tokens[0] + ([' '] + Join(tokens[1..], ' '));
    }
  }

  /**
   * Round trip: an SPF record `v=spf1 <statement><v1> … <statement><vn> <tail>`
   * scans back to `v1 … vn`, whatever other mechanisms the tail lists.
   */
  lemma SpfRoundTrip(statement: string, values: seq<string>, tail: seq<string>)
    requires statement != [] && ' ' !in statement && !StartsWith(SPF_PREFIX, statement)
    requires forall k :: 0 <= k < |values| ==> ' ' !in values[k]
    requires PlainTokens(tail) && forall k :: 0 <= k < |tail| ==> !StartsWith(tail[k], statement)
    ensures var tokens := [SPF_PREFIX] + Statements(statement, values) + tail;
      StartsWith(Join(tokens, ' '), SPF_PREFIX) && ScanSpf(Join(tokens, ' '), statement) == values
  {
    var stmts := Statements(statement, values);
    var tokens := [SPF_PREFIX] + stmts + tail;
    StatementsArePlain(statement, values);
    assert PlainTokens(tokens) by {
      assert PlainTokens([SPF_PREFIX]);
      assert tokens == [SPF_PREFIX] + (stmts + tail);
    }
    SplitJoinTokens(tokens);
    JoinStartsWithFirst(tokens);
    ScanTokensConcat([SPF_PREFIX], stmts + tail, statement);
    ScanTokensConcat(stmts, tail, statement);
    ScanStatements(statement, values);
    assert ScanTokens(tail, statement) == [];
    assert ScanTokens([SPF_PREFIX], statement) == [];
    assert tokens == [SPF_PREFIX] + (stmts + tail);
  }

  // ---------------------------------------------------------------------------
  // retrieval

  /** The statements one TXT record contributes: its own if it is an SPF record, none otherwise. */
  function RecordStatements(record: string, statement: string): seq<string>
  {
    if StartsWith(record, SPF_PREFIX) then ScanSpf(record, statement) else []
  }

  /** The statements of every record of `records` that is an SPF record, in order. */
  function SpfStatements(records: seq<string>, statement: string): seq<string>
    decreases |records|
  {
    if |records| == 0 then [] else RecordStatements(records[0], statement) + SpfStatements(records[1..], statement)
  }

  /** A single record contributes its own statements if it is an SPF record, and none otherwise. */
  lemma SpfStatementsSingle(record: string, statement: string)
    ensures SpfStatements([record], statement) == if StartsWith(record, SPF_PREFIX) then ScanSpf(record, statement) else []
  {
    assert [record][1..] == [];
  }

  /** Records are scanned one after another: the statements of `a + b` are those of `a`, then those of `b`. */
  lemma {:induction false} SpfStatementsConcat(a: seq<string>, b: seq<string>, statement: string)
    ensures SpfStatements(a + b, statement) == SpfStatements(a, statement) + SpfStatements(b, statement)
    decreases |a|
  {
    if |a| > 0 {
      assert (a + b)[0] == a[0];
      assert (a + b)[1..] == a[1..] + b;
      SpfStatementsConcat(a[1..], b, statement);
      calc {
        SpfStatements(a + b, statement);
        RecordStatements(a[0], statement) + SpfStatements(a[1..] + b, statement);
        RecordStatements(a[0], statement) + (SpfStatements(a[1..], statement) + SpfStatements(b, statement));
      }
    } else {
      assert a + b == b;
    }
  }

  /** `retrieveSpfRule`: a `NamingException` is rethrown as an `IOException`. */
  function RetrieveSpfRule(dns: TxtLookup, domain: string, statement: string): (r: Result<seq<string>, Failure>)
    ensures r.Success? <==> dns(domain).Some?
    ensures r.Failure? ==> r.error == IOError
    ensures r.Success? ==> r.value == SpfStatements(dns(domain).value, statement)
  {
    match dns(domain)
    case None => Failure(IOError)
    case Some(records) => Success(SpfStatements(records, statement))
  }

  /** Records other than SPF records contribute nothing. */
  lemma {:induction false} NonSpfRecordsIgnored(records: seq<string>, statement: string)
    requires forall i :: 0 <= i < |records| ==> !StartsWith(records[i], SPF_PREFIX)
    ensures SpfStatements(records, statement) == []
    decreases |records|
  {
    if |records| > 0 {
      NonSpfRecordsIgnored(records[1..], statement);
    }
  }

  /** The records of one level-1 domain's CIDRs; an unparsable CIDR throws. */
  function CidrRecords(parse: CidrParser, domain: string, cidrs: seq<string>): (r: Result<seq<IpRangeInfos>, Failure>)
    ensures r.Success? <==> forall i :: 0 <= i < |cidrs| ==> parse(cidrs[i]).Some?
    ensures r.Failure? ==> r.error == RuntimeError
    ensures r.Success? ==> (|r.value| == |cidrs|
      && forall i :: 0 <= i < |cidrs| ==>
           r.value[i] == IpRangeInfos(parse(cidrs[i]).value, map[KEY_GROUP := Some(domain)]))
    decreases |cidrs|
  {
    if |cidrs| == 0 then Success([])
    else match parse(cidrs[0])
      case None => Failure(RuntimeError)
      case Some(range) =>
        match CidrRecords(parse, domain, cidrs[1..])
        case Failure(e) => Failure(e)
        case Success(rest) => Success([IpRangeInfos(range, map[KEY_GROUP := Some(domain)])] + rest)
  }

  /** The `ip4:` values a domain's TXT records list, when the lookup succeeds. */
  function Ip4Values(dns: TxtLookup, domain: string): seq<string>
    requires dns(domain).Some?
  {
    SpfStatements(dns(domain).value, IP4_PREFIX)
  }

  /**
   * The `ip4:` records of one level-1 domain: a failed lookup is an `IOException`,
   * an unparsable CIDR a runtime failure; otherwise one record per `ip4:` value,
   * in order, tagged with the domain.
   */
  function DomainRecords(dns: TxtLookup, parse: CidrParser, domain: string): (r: Result<seq<IpRangeInfos>, Failure>)
    ensures r.Success? <==> dns(domain).Some? && forall i :: 0 <= i < |Ip4Values(dns, domain)| ==> parse(Ip4Values(dns, domain)[i]).Some?
    ensures dns(domain).None? ==> r == Failure(IOError)
    ensures dns(domain).Some? && r.Failure? ==> r.error == RuntimeError
    ensures r.Success? ==> (|r.value| == |Ip4Values(dns, domain)|
      && forall i :: 0 <= i < |r.value| ==>
           r.value[i] == IpRangeInfos(parse(Ip4Values(dns, domain)[i]).value, map[KEY_GROUP := Some(domain)]))
  {
    var cidrs :- RetrieveSpfRule(dns, domain, IP4_PREFIX);
    assert cidrs == Ip4Values(dns, domain);
    CidrRecords(parse, domain, cidrs)
  }

  /** The records of every level-1 domain, in order; the first failure aborts. */
  function AllDomainRecords(dns: TxtLookup, parse: CidrParser, domains: seq<string>): Result<seq<IpRangeInfos>, Failure>
    decreases |domains|
  {
    if |domains| == 0 then Success([])
    else
      var recs :- DomainRecords(dns, parse, domains[0]);
      var rest :- AllDomainRecords(dns, parse, domains[1..]);
      Success(recs + rest)
  }

  /** The blocks of `xss` one after another. */
  function Flatten<T>(xss: seq<seq<T>>): seq<T>
  {
    if |xss| == 0 then [] else xss[0] + Flatten(xss[1..])
  }

  /**
   * The level-1 loop as a `MapAll` over the domains whose blocks are then
   * concatenated: the same records in the same order, and the same first failure.
   */
  lemma {:induction false} AllDomainRecordsFlatten(dns: TxtLookup, parse: CidrParser, domains: seq<string>)
    ensures var blocks := MapAll(domains, d => DomainRecords(dns, parse, d));
      AllDomainRecords(dns, parse, domains) == if blocks.Success? then Success(Flatten(blocks.value)) else Failure(blocks.error)
    decreases |domains|
  {
    if |domains| > 0 {
      AllDomainRecordsFlatten(dns, parse, domains[1..]);
    }
  }

  /** The level-1 domains the root domain's TXT records include; empty when the lookup fails. */
  function IncludedDomains(dns: TxtLookup): seq<string>
  {
    if dns(INITIAL_QUERY_DOMAIN).Some? then SpfStatements(dns(INITIAL_QUERY_DOMAIN).value, INCLUDE_PREFIX) else []
  }

  /**
   * `getIpRanges()`: a failed lookup of the root domain is an `IOException`; then
   * each included domain in turn, every record tagged with one of them.
   */
  function GoogleRanges(dns: TxtLookup, parse: CidrParser): (r: Result<seq<IpRangeInfos>, Failure>)
    ensures dns(INITIAL_QUERY_DOMAIN).None? ==> r == Failure(IOError)
    ensures dns(INITIAL_QUERY_DOMAIN).Some? ==> r == AllDomainRecords(dns, parse, IncludedDomains(dns))
    ensures r.Success? <==> (dns(INITIAL_QUERY_DOMAIN).Some?
      && forall i :: 0 <= i < |IncludedDomains(dns)| ==> DomainRecords(dns, parse, IncludedDomains(dns)[i]).Success?)
    ensures r.Success? ==> forall k :: 0 <= k < |r.value| ==>
      exists i :: 0 <= i < |IncludedDomains(dns)| && r.value[k].infos == map[KEY_GROUP := Some(IncludedDomains(dns)[i])]
  {
    var domains :- RetrieveSpfRule(dns, INITIAL_QUERY_DOMAIN, INCLUDE_PREFIX);
    assert domains == IncludedDomains(dns);
    AllDomainRecordsTagged(dns, parse, domains);
    AllDomainRecords(dns, parse, domains)
  }

  /** Every record is tagged with exactly one of the level-1 domains, and only with that. */
  lemma {:induction false} AllDomainRecordsTagged(dns: TxtLookup, parse: CidrParser, domains: seq<string>)
    ensures AllDomainRecords(dns, parse, domains).Success? <==>
      forall i :: 0 <= i < |domains| ==> DomainRecords(dns, parse, domains[i]).Success?
    ensures AllDomainRecords(dns, parse, domains).Success? ==>
      var r := AllDomainRecords(dns, parse, domains).value;
      forall k :: 0 <= k < |r| ==> exists i :: 0 <= i < |domains| && r[k].infos == map[KEY_GROUP := Some(domains[i])]
    decreases |domains|
  {
    if |domains| > 0 {
      AllDomainRecordsTagged(dns, parse, domains[1..]);
      assert forall i :: 0 < i < |domains| ==> domains[1..][i - 1] == domains[i];
      if AllDomainRecords(dns, parse, domains).Success? {
        var r := AllDomainRecords(dns, parse, domains).value;
        var first := DomainRecords(dns, parse, domains[0]).value;
        var rest := AllDomainRecords(dns, parse, domains[1..]).value;
        forall k | 0 <= k < |r| ensures exists i :: 0 <= i < |domains| && r[k].infos == map[KEY_GROUP := Some(domains[i])] {
          if k < |first| {
            assert r[k] == first[k];
          } else {
            assert r[k] == rest[k - |first|];
            var i :| 0 <= i < |domains[1..]| && rest[k - |first|].infos == map[KEY_GROUP := Some(domains[1..][i])];
            assert domains[1..][i] == domains[i + 1];
          }
        }
      }
    }
  }
}
