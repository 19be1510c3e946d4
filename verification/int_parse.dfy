/** `int.Parse` with its default style, `NumberStyles.Integer`: white space
    may surround the number, a sign may lead it, the digits are ASCII, and
    the value must fit in an `int`. `None` stands for the exception thrown
    otherwise. */
module IntParse {
  import opened Wrappers
  import opened Decimal

  /** The white space the style skips: tab, line feed, vertical tab, form
      feed, carriage return and space. */
  predicate IsParseWhite(c: char) {
    '\t' <= c <= '\r' || c == ' '
  }

  predicate AllParseWhite(s: string) {
    forall i :: 0 <= i < |s| ==> IsParseWhite(s[i])
  }

  predicate IsSign(c: char) {
    c == '+' || c == '-'
  }

  predicate InInt32(v: int) {
    Int32Min <= v <= Int32Max
  }

  /** How many white-space characters `s` starts with. */
  function LeadingWhite(s: string): (n: nat)
    ensures n <= |s| && AllParseWhite(s[..n])
    ensures n == |s| || !IsParseWhite(s[n])
  {
    if s != [] && IsParseWhite(s[0]) then
      var m := LeadingWhite(s[1..]);
      1 + m
    else 0
  }

  /** How many white-space characters `s` ends with. */
  function TrailingWhite(s: string): (n: nat)
    ensures n <= |s| && AllParseWhite(s[|s| - n..])
    ensures n == |s| || !IsParseWhite(s[|s| - n - 1])
  {
    if s != [] && IsParseWhite(s[|s| - 1]) then
      var init := s[..|s| - 1];
      var m := TrailingWhite(init);
      1 + m
    else 0
  }

  /** `s` without its leading white space. */
  function TrimStart(s: string): string {
    s[LeadingWhite(s)..]
  }

  /** `s` without its trailing white space. */
  function TrimEnd(s: string): string {
    s[..|s| - TrailingWhite(s)]
  }

  /** The value a sign and a run of digits denote. */
  function SignedValue(sign: string, digits: string): int
    requires AllDigits(digits)
  {
    var magnitude: int := ParseDecimal(digits);
    if sign == "-" then -magnitude else magnitude
  }

  /** Reference grammar: `s` is white space, an optional sign, one or more
      digits and white space, in that order. */
  predicate IntegerText(s: string, lead: string, sign: string, digits: string, trail: string) {
    && s == lead + sign + digits + trail
    && AllParseWhite(lead) && AllParseWhite(trail)
    && (sign == "" || sign == "+" || sign == "-")
    && IsNumeral(digits)
  }

  /** `int.Parse(s)`: the value, or `None` where the call throws. */
  function ParseInt32(s: string): (r: Option<int>)
    ensures r.Some? ==> InInt32(r.value)
  {
    ParseSigned(TrimEnd(TrimStart(s)))
  }

  /** The sign and digits left once the white space is gone. */
  function ParseSigned(t: string): (r: Option<int>)
    ensures r.Some? ==> InInt32(r.value)
  {
    if t == [] then None
    else
      var sign := if IsSign(t[0]) then t[..1] else [];
      var body := t[|sign|..];
      if !IsNumeral(body) then None
      else
        var v := SignedValue(sign, body);
        if InInt32(v) then Some(v) else None
  }

  /** Leading white space before a non-white character is skipped. */
  lemma TrimStartPast(lead: string, rest: string)
    requires AllParseWhite(lead) && rest != [] && !IsParseWhite(rest[0])
    ensures TrimStart(lead + rest) == rest
  {
    var s := lead + rest;
    var n := LeadingWhite(s);
    assert n <= |lead| by {
      forall k | 0 <= k < n
        ensures IsParseWhite(s[k])
      {
        assert s[..n][k] == s[k];
      }
      assert s[|lead|] == rest[0];
    }
    assert n >= |lead|;
    SuffixOfConcat(lead, rest);
  }

  /** Trailing white space after a non-white character is dropped. */
  lemma TrimEndPast(rest: string, trail: string)
    requires AllParseWhite(trail) && rest != [] && !IsParseWhite(rest[|rest| - 1])
    ensures TrimEnd(rest + trail) == rest
  {
    var s := rest + trail;
    var n := TrailingWhite(s);
    assert n <= |trail| by {
      forall k | |s| - n <= k < |s|
        ensures IsParseWhite(s[k])
      {
        assert s[|s| - n..][k - (|s| - n)] == s[k];
      }
      assert s[|rest| - 1] == rest[|rest| - 1];
    }
    assert n >= |trail|;
    PrefixOfConcat(rest, trail);
  }

  lemma SuffixOfConcat(a: string, b: string)
    ensures (a + b)[|a|..] == b
  {
  }

  lemma PrefixOfConcat(a: string, b: string)
    ensures (a + b)[..|a|] == a
  {
  }

  /** Every text of the grammar parses to the value it denotes when that
      value fits in an `int`, and fails otherwise. */
  lemma ParseIntegerText(s: string, lead: string, sign: string, digits: string, trail: string)
    requires IntegerText(s, lead, sign, digits, trail)
    ensures ParseInt32(s) == if InInt32(SignedValue(sign, digits)) then Some(SignedValue(sign, digits)) else None
  {
    var core := sign + digits;
    assert s == lead + (core + trail);
    assert (core + trail)[0] == core[0];
    TrimStartPast(lead, core + trail);
    TrimEndPast(core, trail);
    ParseSignedDigits(sign, digits);
  }

  lemma ParseSignedDigits(sign: string, digits: string)
    requires (sign == "" || sign == "+" || sign == "-") && IsNumeral(digits)
    ensures ParseSigned(sign + digits) == if InInt32(SignedValue(sign, digits)) then Some(SignedValue(sign, digits)) else None
  {
    var t := sign + digits;
    assert t[0] == if sign == "" then digits[0] else sign[0];
    assert t[..|sign|] == sign && t[|sign|..] == digits;
  }

  /** A text with no white space at either end is parsed as it stands. */
  lemma ParseUnpadded(t: string)
    requires t != [] && !IsParseWhite(t[0]) && !IsParseWhite(t[|t| - 1])
    ensures ParseInt32(t) == ParseSigned(t)
  {
    assert AllParseWhite("");
    assert "" + t == t && t + "" == t;
    TrimStartPast("", t);
    TrimEndPast(t, "");
  }

  /** Trimming splits a text into leading white space, the trimmed text
      and trailing white space. */
  lemma TrimSplits(s: string) returns (lead: string, trail: string)
    ensures s == lead + (TrimEnd(TrimStart(s)) + trail)
    ensures AllParseWhite(lead) && AllParseWhite(trail)
  {
    var before := StartSplits(s);
    var after := EndSplits(TrimStart(s));
    lead, trail := before, after;
  }

  lemma StartSplits(s: string) returns (lead: string)
    ensures s == lead + TrimStart(s) && AllParseWhite(lead)
  {
    lead := s[..LeadingWhite(s)];
  }

  lemma EndSplits(s: string) returns (trail: string)
    ensures s == TrimEnd(s) + trail && AllParseWhite(trail)
  {
    trail := s[|s| - TrailingWhite(s)..];
  }

  /** A trimmed text that parses is a sign followed by digits. */
  lemma SignSplits(t: string) returns (sign: string, digits: string)
    requires ParseSigned(t).Some?
    ensures t == sign + digits
    ensures (sign == "" || sign == "+" || sign == "-") && IsNumeral(digits)
    ensures ParseSigned(t) == Some(SignedValue(sign, digits))
  {
    var s := if IsSign(t[0]) then t[..1] else [];
    var d := t[|s|..];
    assert t == s + d;
    sign, digits := s, d;
  }

  /** Only texts of the grammar parse: a successful parse splits its input
      into white space, sign, digits and white space, and returns the value
      they denote. */
  lemma ParsedIsIntegerText(s: string)
    requires ParseInt32(s).Some?
    ensures exists lead, sign, digits, trail ::
      IntegerText(s, lead, sign, digits, trail) && ParseInt32(s) == Some(SignedValue(sign, digits))
  {
    var lead, trail := TrimSplits(s);
    var sign, digits := SignSplits(TrimEnd(TrimStart(s)));
    Regroup4(s, lead, sign, digits, trail);
    assert IntegerText(s, lead, sign, digits, trail);
    assert ParseInt32(s) == Some(SignedValue(sign, digits));
  }

  lemma Regroup4(s: string, a: string, b: string, c: string, d: string)
    requires s == a + ((b + c) + d)
    ensures s == a + b + c + d
  {
  }

  /** A bare run of digits that fits in an `int` parses to its value. */
  lemma ParseDigits(digits: string)
    requires IsNumeral(digits) && ParseDecimal(digits) <= Int32Max
    ensures ParseInt32(digits) == Some(ParseDecimal(digits))
  {
    ParseUnpadded(digits);
    assert "" + digits == digits;
    ParseSignedDigits("", digits);
  }

  /** `D5` formatting and parsing are inverse on the `int` range. */
  lemma FormatD5RoundTrip(n: int)
    requires InInt32(n)
    ensures ParseInt32(FormatD5(n)) == Some(n)
  {
    if n >= 0 {
      ParseDigits(FormatD5(n));
    } else {
      var s := FormatD5(n);
      assert s == "-" + s[1..];
      assert s[|s| - 1] == s[1..][|s| - 2];
      ParseUnpadded(s);
      ParseSignedDigits("-", s[1..]);
    }
  }
}
