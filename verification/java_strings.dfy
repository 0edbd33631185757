/**
 * The few `java.lang.String` and `Integer` operations the sources rely on, with
 * their Java edge cases: `split` drops trailing empty strings, `trim` strips every
 * character up to U+0020, `Integer.parseInt` takes an optional sign and rejects
 * values outside 32 bits.
 */
module JavaStrings {
  import opened Wrappers

  const INT_MIN: int := -0x8000_0000
  const INT_MAX: int := 0x7FFF_FFFF

  /** `s.startsWith(prefix)` */
  predicate StartsWith(s: string, prefix: string)
  {
    prefix <= s
  }

  // ---------------------------------------------------------------------------
  // trim

  /** `String.trim` removes characters whose code is at most U+0020 from both ends. */
  predicate IsTrimmable(c: char)
  {
    c <= ' '
  }

  function TrimLeading(s: string): (r: string)
    ensures |r| <= |s| && r == s[|s| - |r|..]
    ensures forall k :: 0 <= k < |s| - |r| ==> IsTrimmable(s[k])
    ensures r == [] || !IsTrimmable(r[0])
  {
    if |s| > 0 && IsTrimmable(s[0]) then TrimLeading(s[1..]) else s
  }

  function TrimTrailing(s: string): (r: string)
    ensures |r| <= |s| && r == s[..|r|]
    ensures forall k :: |r| <= k < |s| ==> IsTrimmable(s[k])
    ensures r == [] || !IsTrimmable(r[|r| - 1])
  {
    if |s| > 0 && IsTrimmable(s[|s| - 1]) then TrimTrailing(s[..|s| - 1]) else s
  }

  /** `r` is the slice of `s` starting at `i`, and everything around it is trimmable. */
  predicate TrimmedSlice(s: string, r: string, i: int)
  {
    0 <= i <= |s| - |r| && r == s[i..i + |r|]
    && (forall k :: 0 <= k < i ==> IsTrimmable(s[k]))
    && (forall k :: i + |r| <= k < |s| ==> IsTrimmable(s[k]))
  }

  /** `s.trim()`: the slice of `s` left after removing trimmable characters at both ends. */
  function Trim(s: string): (r: string)
    ensures r == [] || (!IsTrimmable(r[0]) && !IsTrimmable(r[|r| - 1]))
    ensures (forall k :: 0 <= k < |s| ==> !IsTrimmable(s[k])) ==> r == s
    ensures r == [] ==> forall k :: 0 <= k < |s| ==> IsTrimmable(s[k])
  {
    TrimEnds(s);
    TrimTrailing(TrimLeading(s))
  }

  lemma TrimEnds(s: string)
    ensures var r := TrimTrailing(TrimLeading(s));
      && (r == [] || (!IsTrimmable(r[0]) && !IsTrimmable(r[|r| - 1])))
      && ((forall k :: 0 <= k < |s| ==> !IsTrimmable(s[k])) ==> r == s)
      && (r == [] ==> forall k :: 0 <= k < |s| ==> IsTrimmable(s[k]))
  {
    var t := TrimLeading(s);
    var r := TrimTrailing(t);
    if r != [] {
      assert r[0] == t[0];
    }
  }

  /** `trim` returns a slice of its argument: what it removes is trimmable, and only from the ends. */
  lemma TrimIsSlice(s: string)
    ensures exists i :: TrimmedSlice(s, Trim(s), i)
  {
    TrimPartsSlice(s);
    assert Trim(s) == TrimTrailing(TrimLeading(s));
  }

  lemma TrimPartsSlice(s: string)
    ensures TrimmedSlice(s, TrimTrailing(TrimLeading(s)), |s| - |TrimLeading(s)|)
  {
    SliceOfEnds(s, TrimLeading(s), TrimTrailing(TrimLeading(s)));
  }

  /** Trimmable characters cut from the front of `s`, then from the back of what is left. */
  lemma SliceOfEnds(s: string, t: string, r: string)
    requires |t| <= |s| && t == s[|s| - |t|..] && forall k :: 0 <= k < |s| - |t| ==> IsTrimmable(s[k])
    requires |r| <= |t| && r == t[..|r|] && forall k :: |r| <= k < |t| ==> IsTrimmable(t[k])
    ensures TrimmedSlice(s, r, |s| - |t|)
  {
    var i := |s| - |t|;
    assert r == s[i..i + |r|];
    forall k | i + |r| <= k < |s| ensures IsTrimmable(s[k]) {
      assert s[k] == t[k - i];
    }
  }

  /** Blank padding in front of a string that starts and ends with a visible character is all `trim` removes. */
  lemma {:induction false} TrimPadded(pad: string, t: string)
    requires forall k :: 0 <= k < |pad| ==> IsTrimmable(pad[k])
    requires |t| > 0 && !IsTrimmable(t[0]) && !IsTrimmable(t[|t| - 1])
    ensures Trim(pad + t) == t
  {
    TrimLeadingPadded(pad, t);
  }

  /** A string that already starts and ends with a visible character is its own `trim`. */
  lemma TrimmedIsFixed(t: string)
    requires |t| > 0 && !IsTrimmable(t[0]) && !IsTrimmable(t[|t| - 1])
    ensures Trim(t) == t
  {
    assert "" + t == t;
    TrimPadded("", t);
  }

  lemma {:induction false} TrimLeadingPadded(pad: string, t: string)
    requires forall k :: 0 <= k < |pad| ==> IsTrimmable(pad[k])
    requires |t| > 0 && !IsTrimmable(t[0])
    ensures TrimLeading(pad + t) == t
    decreases |pad|
  {
    if |pad| == 0 {
      assert pad + t == t;
    } else {
      assert (pad + t)[0] == pad[0];
      assert (pad + t)[1..] == pad[1..] + t;
      TrimLeadingPadded(pad[1..], t);
    }
  }

  // ---------------------------------------------------------------------------
  // split

  /** The inverse of splitting: the pieces with `sep` between consecutive ones. */
  function Join(parts: seq<string>, sep: char): string
    requires |parts| >= 1
  {
    if |parts| == 1 then parts[0] else parts[0] + [sep] + Join(parts[1..], sep)
  }

  /**
   * Every piece between separators, empty ones included: `n` separators give
   * `n + 1` pieces. This is `s.split(sep, -1)`.
   */
  function SplitAll(s: string, sep: char): (r: seq<string>)
    ensures |r| >= 1
    ensures forall i :: 0 <= i < |r| ==> sep !in r[i]
    ensures Join(r, sep) == s
    decreases |s|
  {
    if |s| == 0 then [""]
    else
      var rest := SplitAll(s[1..], sep);
      if s[0] == sep then
        assert ([""] + rest)[1..] == rest;
        [""] + rest
      else
        var r := [[s[0]] + rest[0]] + rest[1..];
        assert r[1..] == rest[1..];
        assert s == [s[0]] + s[1..];
        r
  }

  lemma {:induction false} SplitAllWithoutSeparator(s: string, sep: char)
    requires sep !in s
    ensures SplitAll(s, sep) == [s]
    decreases |s|
  {
    if |s| > 0 {
      SplitAllWithoutSeparator(s[1..], sep);
      assert s == [s[0]] + s[1..];
    }
  }

  /** Splitting at a separator splits the pieces: `split(a + sep + b) == split(a) + split(b)`. */
  lemma {:induction false} SplitAllConcat(a: string, b: string, sep: char)
    ensures SplitAll(a + [sep] + b, sep) == SplitAll(a, sep) + SplitAll(b, sep)
    decreases |a|
  {
    if |a| == 0 {
      assert a + [sep] + b == [sep] + b;
      SplitAllCons(sep, b, sep);
    } else {
      var t := a[1..] + [sep] + b;
      assert a + [sep] + b == [a[0]] + t;
      assert a == [a[0]] + a[1..];
      SplitAllConcat(a[1..], b, sep);
      SplitAllCons(a[0], t, sep);
      SplitAllCons(a[0], a[1..], sep);
      ConsPiece(a[0], SplitAll(a[1..], sep), SplitAll(b, sep), sep);
    }
  }

  /** The step of `SplitAllCons` commutes with appending further pieces. */
  lemma ConsPiece(c: char, ra: seq<string>, rb: seq<string>, sep: char)
    requires |ra| >= 1
    ensures var rs := ra + rb;
      (if c == sep then [""] + rs else [[c] + rs[0]] + rs[1..])
      == (if c == sep then [""] + ra else [[c] + ra[0]] + ra[1..]) + rb
  {
    if c != sep {
      assert (ra + rb)[0] == ra[0] && (ra + rb)[1..] == ra[1..] + rb;
    }
  }

  /** One step of `SplitAll`: a leading separator starts a new piece, any other character joins the first. */
  lemma SplitAllCons(c: char, t: string, sep: char)
    ensures var rt := SplitAll(t, sep);
      SplitAll([c] + t, sep) == if c == sep then [""] + rt else [[c] + rt[0]] + rt[1..]
  {
    assert ([c] + t)[0] == c && ([c] + t)[1..] == t;
  }

  /** Round trip: splitting a join of separator-free pieces gives the pieces back. */
  lemma {:induction false} SplitAllJoin(parts: seq<string>, sep: char)
    requires |parts| >= 1
    requires forall i :: 0 <= i < |parts| ==> sep !in parts[i]
    ensures SplitAll(Join(parts, sep), sep) == parts
    decreases |parts|
  {
    if |parts| == 1 {
      SplitAllWithoutSeparator(parts[0], sep);
    } else {
      SplitAllJoin(parts[1..], sep);
      SplitAllConcat(parts[0], Join(parts[1..], sep), sep);
      SplitAllWithoutSeparator(parts[0], sep);
      assert parts == [parts[0]] + parts[1..];
    }
  }

  /** Drops empty strings from the end, as `split` with limit 0 does. */
  function DropTrailingEmpty(parts: seq<string>): (r: seq<string>)
    ensures r <= parts
    ensures forall i :: |r| <= i < |parts| ==> parts[i] == []
    ensures r == [] || r[|r| - 1] != []
  {
    if |parts| > 0 && parts[|parts| - 1] == [] then DropTrailingEmpty(parts[..|parts| - 1]) else parts
  }

  /**
   * `s.split(sep)` for a one-character, non-special separator: a string without
   * the separator comes back whole (so `"".split(",")` is `[""]`); otherwise all
   * pieces, minus the trailing empty ones.
   */
  function Split(s: string, sep: char): seq<string>
  {
    if sep !in s then [s] else DropTrailingEmpty(SplitAll(s, sep))
  }

  /** `split` returns the raw pieces, in order, except for some trailing empty ones. */
  lemma SplitIsPrefixOfPieces(s: string, sep: char)
    ensures Split(s, sep) <= SplitAll(s, sep)
    ensures forall i :: |Split(s, sep)| <= i < |SplitAll(s, sep)| ==> SplitAll(s, sep)[i] == []
  {
    if sep !in s {
      SplitAllWithoutSeparator(s, sep);
    }
  }

  // ---------------------------------------------------------------------------
  // decimal numbers

  predicate IsDigit(c: char)
  {
    '0' <= c <= '9'
  }

  predicate AllDigits(s: string)
  {
    forall i :: 0 <= i < |s| ==> IsDigit(s[i])
  }

  function DigitValue(c: char): nat
    requires IsDigit(c)
  {
    (c - '0') as nat
  }

  function DigitChar(d: nat): (c: char)
    requires d < 10
    ensures IsDigit(c) && DigitValue(c) == d
  {
    ('0' as int + d) as char
  }

  /** The value of a string of decimal digits, most significant first. */
  function DigitsValue(s: string): nat
    requires AllDigits(s)
  {
    if |s| == 0 then 0 else DigitsValue(s[..|s| - 1]) * 10 + DigitValue(s[|s| - 1])
  }

  /** The canonical decimal form of a natural number: digits only, no leading zero. */
  function NatToDecimal(n: nat): (r: string)
    ensures |r| >= 1 && AllDigits(r)
    ensures |r| > 1 ==> r[0] != '0'
    ensures DigitsValue(r) == n
  {
    if n < 10 then [DigitChar(n)]
    else
      var r := NatToDecimal(n / 10) + [DigitChar(n % 10)];
      assert r[..|r| - 1] == NatToDecimal(n / 10);
      r
  }

  /** `Integer.toString(n)` */
  function IntToString(n: int): string
  {
    if n < 0 then "-" + NatToDecimal(-n) else NatToDecimal(n)
  }

  /**
   * `Integer.parseInt(s)`: an optional `-` or `+`, then at least one digit, and a
   * value that fits 32 bits; anything else is a `NumberFormatException` (`None`).
   */
  function ParseInt(s: string): (r: Option<int>)
    ensures r.Some? ==> INT_MIN <= r.value <= INT_MAX
    ensures r.Some? ==> |s| >= 1
  {
    if |s| == 0 then None
    else
      var signed := s[0] == '-' || s[0] == '+';
      var digits := if signed then s[1..] else s;
      if |digits| == 0 || !AllDigits(digits) then None
      else
        var v := if s[0] == '-' then -(DigitsValue(digits) as int) else DigitsValue(digits);
        if INT_MIN <= v <= INT_MAX then Some(v) else None
  }

  /** `Integer.parseInt(Integer.toString(n)) == n` for every 32-bit `n`. */
  lemma ParseIntToString(n: int)
    requires INT_MIN <= n <= INT_MAX
    ensures ParseInt(IntToString(n)) == Some(n)
  {
    var s := IntToString(n);
    if n < 0 {
      assert s[1..] == NatToDecimal(-n);
    }
  }

  /**
   * The converse of `ParseIntToString`: text `parseInt` accepts that has no `+`
   * and no leading zero, other than "0" itself (so not "-0" either), is exactly
   * `Integer.toString` of its value.
   */
  lemma ParseIntCanonical(s: string)
    requires ParseInt(s).Some? && s[0] != '+'
    requires var digits := if s[0] == '-' then s[1..] else s; |digits| >= 1 && (digits[0] == '0' ==> s == "0")
    ensures IntToString(ParseInt(s).value) == s
  {
    if s[0] == '-' {
      var digits := s[1..];
      assert s == "-" + digits;
      NegativeCanonical(digits);
    } else {
      DecimalOfDigitsValue(s);
    }
  }

  lemma NegativeCanonical(digits: string)
    requires |digits| >= 1 && AllDigits(digits) && digits[0] != '0'
    ensures IntToString(-(DigitsValue(digits) as int)) == "-" + digits
  {
    DecimalOfDigitsValue(digits);
    LeadingDigitPositive(digits);
  }

  /** A leading `+` changes nothing: `parseInt("+" + d) == parseInt(d)` for a digit string `d`. */
  lemma ParseIntPlus(d: string)
    requires AllDigits(d)
    ensures ParseInt("+" + d) == ParseInt(d)
  {
    assert ("+" + d)[1..] == d;
  }

  /** A string `parseInt` accepts without sign or leading zero is already canonical. */
  lemma {:induction false} DecimalOfDigitsValue(s: string)
    requires |s| >= 1 && AllDigits(s) && (|s| > 1 ==> s[0] != '0')
    ensures NatToDecimal(DigitsValue(s)) == s
    decreases |s|
  {
    if |s| == 1 {
    } else {
      var init := s[..|s| - 1];
      assert init[0] == s[0];
      DecimalOfDigitsValue(init);
      if DigitsValue(init) == 0 {
        LeadingDigitPositive(init);
      }
      assert DigitsValue(s) / 10 == DigitsValue(init);
      assert DigitsValue(s) % 10 == DigitValue(s[|s| - 1]);
      assert s == init + [s[|s| - 1]];
    }
  }

  /** A digit string without a leading zero denotes a positive number (or is "0"). */
  lemma {:induction false} LeadingDigitPositive(s: string)
    requires |s| >= 1 && AllDigits(s) && s[0] != '0'
    ensures DigitsValue(s) > 0
    decreases |s|
  {
    if |s| > 1 {
      var init := s[..|s| - 1];
      assert init[0] == s[0];
      LeadingDigitPositive(init);
    }
  }
}
