/** `CommonUtils.AutoGenerateCode`: the next sequential business code after
    a given one — keep the two-character prefix, parse the rest as an `int`,
    add one and write it back with the `D5` format. */
module CommonUtils {
  import opened Wrappers
  import opened Decimal
  import opened IntParse
  import opened ValidationRules

  /** What `AutoGenerateCode` needs of its argument to return at all:
      `Substring(0, 2)` needs two characters, and `int.Parse` must accept
      the rest — optional white space, an optional sign, digits, optional
      white space, with a value that fits in an `int`. */
  predicate ParsableCode(code: string) {
    |code| >= 2 && ParseInt32(code[2..]).Some?
  }

  /** The number `int.Parse` reads from a parsable code's suffix. */
  function Suffix(code: string): (v: int)
    requires ParsableCode(code)
    ensures InInt32(v)
  {
    ParseInt32(code[2..]).value
  }

  /** The result keeps the prefix and carries the successor of the seed's
      number, wrapped to 32 bits, in a form `int.Parse` reads back. */
  function AutoGenerateCode(code: string): (r: string)
    requires ParsableCode(code)
    ensures |r| >= 7 && r[..2] == code[..2]
    ensures ParsableCode(r) && Suffix(r) == WrapInt32(Suffix(code) + 1)
    ensures IsD5Text(r[2..], WrapInt32(Suffix(code) + 1))
    ensures Suffix(code) == Int32Max ==> r[2..] == "-2147483648"
  {
    var prefix := code[..2];
    var number := WrapInt32(Suffix(code) + 1);
    var digits := FormatD5(number);
    SplitAtPrefix(prefix, digits);
    FormatD5RoundTrip(number);
    if Suffix(code) == Int32Max then
      FormatD5Int32Min();
      prefix + digits
    else
      prefix + digits
  }

  lemma SplitAtPrefix(prefix: string, rest: string)
    requires |prefix| == 2
    ensures (prefix + rest)[..2] == prefix && (prefix + rest)[2..] == rest
  {
  }

  /** A code of prefix and five digits below 99999 steps to the same prefix
      and the next value, still exactly five digits. */
  lemma NextFiveDigitCode(prefix: string, digits: string)
    requires |prefix| == 2 && |digits| == 5 && AllDigits(digits)
    requires ParseDecimal(digits) < 99999
    ensures ParsableCode(prefix + digits)
    ensures AutoGenerateCode(prefix + digits) == prefix + Pad(ParseDecimal(digits) + 1, 5)
    ensures |AutoGenerateCode(prefix + digits)| == 7
    ensures MatchesCodePattern(prefix, AutoGenerateCode(prefix + digits))
    ensures ParseDecimal(AutoGenerateCode(prefix + digits)[2..]) == ParseDecimal(digits) + 1
  {
    var code := prefix + digits;
    assert code[2..] == digits;
    assert code[..2] == prefix;
    ParseDigits(digits);
    var r := AutoGenerateCode(code);
    assert r[..2] == prefix && r[2..] == Pad(ParseDecimal(digits) + 1, 5);
    assert r == prefix + r[2..];
    PadRoundTrip(ParseDecimal(digits) + 1, 5);
  }

  /** `AutoGenerateCode` applied `k` times, or `None` once a step's input is
      not parsable. */
  function Advance(code: string, k: nat): Option<string> {
    if k == 0 then Some(code)
    else
      match Advance(code, k - 1)
      case None => None
      case Some(c) => if ParsableCode(c) then Some(AutoGenerateCode(c)) else None
  }

  lemma CountStart(prefix: string)
    ensures CountsTo(prefix, 0)
  {
    PadZeros();
  }

  lemma PadZeros()
    ensures Pad(0, 5) == "00000"
  {
    PadStep(0, 1, "", '0'); PadStep(0, 2, "0", '0'); PadStep(0, 3, "00", '0');
    PadStep(0, 4, "000", '0'); PadStep(0, 5, "0000", '0');
  }

  lemma AdvanceStep(code: string, k: nat, previous: string)
    requires k > 0 && Advance(code, k - 1) == Some(previous) && ParsableCode(previous)
    ensures Advance(code, k) == Some(AutoGenerateCode(previous))
  {
  }

  /** `k` steps from prefix + "00000" reach prefix + k in five digits. */
  predicate CountsTo(prefix: string, k: nat) {
    Advance(prefix + "00000", k) == Some(prefix + Pad(k, 5))
  }

  /** Starting from prefix + "00000", `k` steps give prefix + k in five
      digits: the generator counts. */
  lemma AdvanceFromZero(prefix: string, k: nat)
    requires |prefix| == 2 && k <= 99999
    ensures CountsTo(prefix, k)
  {
    var i := 0;
    CountStart(prefix);
    while i < k
      invariant 0 <= i <= k && CountsTo(prefix, i)
    {
      i := i + 1;
      CountStep(prefix, i);
    }
  }

  lemma CountStep(prefix: string, k: nat)
    requires |prefix| == 2 && 0 < k <= 99999
    requires CountsTo(prefix, k - 1)
    ensures CountsTo(prefix, k)
  {
    var digits := Pad(k - 1, 5);
    PadRoundTrip(k - 1, 5);
    NextFiveDigitCode(prefix, digits);
    AdvanceStep(prefix + "00000", k, prefix + digits);
  }

  /** `D5` is a minimum width: after "XX99999" comes the eight-character
      "XX100000", which no longer fits the validators' five-digit pattern. */
  lemma OverflowsFiveDigits(prefix: string)
    requires |prefix| == 2
    ensures ParsableCode(prefix + "99999")
    ensures AutoGenerateCode(prefix + "99999") == prefix + "100000"
    ensures |AutoGenerateCode(prefix + "99999")| == 8
    ensures !MatchesCodePattern(prefix, AutoGenerateCode(prefix + "99999"))
  {
    var code := prefix + "99999";
    assert code[2..] == "99999";
    ParseNines();
    ParseDigits("99999");
    FormatHundredThousand();
    var r := AutoGenerateCode(code);
    assert r[2..] == FormatD5(100000);
    assert r == prefix + r[2..];
  }

  /** `int.Parse` reads a signed suffix, and `D5` writes the minus sign
      before five digits: "XX-0005" steps to "XX-00004". */
  lemma NegativeSuffixSteps(prefix: string)
    requires |prefix| == 2
    ensures ParsableCode(prefix + "-0005")
    ensures AutoGenerateCode(prefix + "-0005") == prefix + "-00004"
  {
    var code := prefix + "-0005";
    OneDigitPadded("000", 5);
    assert code[2..] == "" + "-" + ("000" + [DigitChar(5)]) + "";
    assert AllParseWhite("");
    ParseIntegerText(code[2..], "", "-", "000" + [DigitChar(5)], "");
    MinusFourText();
    StepsTo(code, -4, "-00004", prefix + "-00004");
  }

  lemma MinusFourText()
    ensures IsD5Text("-00004", -4)
  {
    OneDigitPadded("0000", 4);
    assert "-00004"[1..] == "0000" + [DigitChar(4)];
  }

  /** `int.Parse` skips white space around the suffix: "XX 7" steps to
      "XX00008". */
  lemma PaddedSuffixSteps(prefix: string)
    requires |prefix| == 2
    ensures ParsableCode(prefix + " 7")
    ensures AutoGenerateCode(prefix + " 7") == prefix + "00008"
  {
    var code := prefix + " 7";
    OneDigitPadded("", 7);
    assert code[2..] == " " + "" + ("" + [DigitChar(7)]) + "";
    assert AllParseWhite("") && AllParseWhite(" ");
    ParseIntegerText(code[2..], " ", "", "" + [DigitChar(7)], "");
    EightText();
    StepsTo(code, 8, "00008", prefix + "00008");
  }

  lemma EightText()
    ensures IsD5Text("00008", 8)
  {
    OneDigitPadded("0000", 8);
    assert "00008" == "0000" + [DigitChar(8)];
  }

  /** A successor whose `D5` text is known is that text after the prefix. */
  lemma StepsTo(code: string, n: int, text: string, next: string)
    requires ParsableCode(code) && WrapInt32(Suffix(code) + 1) == n
    requires IsD5Text(text, n) && next == code[..2] + text
    ensures AutoGenerateCode(code) == next
  {
    var r := AutoGenerateCode(code);
    D5TextUnique(r[2..], text, n);
    assert r == r[..2] + r[2..];
  }

  /** Zeros and then one digit read as that digit. */
  lemma OneDigitPadded(zeros: string, d: nat)
    requires d < 10 && forall i :: 0 <= i < |zeros| ==> zeros[i] == '0'
    ensures AllDigits(zeros + [DigitChar(d)]) && ParseDecimal(zeros + [DigitChar(d)]) == d
  {
    ParseZeros(zeros);
    var s := zeros + [DigitChar(d)];
    assert s[..|s| - 1] == zeros;
  }

  lemma ParseNines()
    ensures AllDigits("99999") && ParseDecimal("99999") == 99999
  {
    PadStep(9, 1, "", '9'); PadStep(99, 2, "9", '9'); PadStep(999, 3, "99", '9');
    PadStep(9999, 4, "999", '9'); PadStep(99999, 5, "9999", '9');
    assert Pad(99999, 5) == "99999";
    PadRoundTrip(99999, 5);
  }

  lemma FormatHundredThousand()
    ensures FormatD5(100000) == "100000"
  {
    NumDigitsStep(1, 1); NumDigitsStep(10, 2); NumDigitsStep(100, 3);
    NumDigitsStep(1000, 4); NumDigitsStep(10000, 5); NumDigitsStep(100000, 6);
    PadStep(1, 1, "", '1'); PadStep(10, 2, "1", '0'); PadStep(100, 3, "10", '0');
    PadStep(1000, 4, "100", '0'); PadStep(10000, 5, "1000", '0'); PadStep(100000, 6, "10000", '0');
  }

  lemma {:induction false} ParseZeros(zeros: string)
    requires forall i :: 0 <= i < |zeros| ==> zeros[i] == '0'
    ensures AllDigits(zeros) && ParseDecimal(zeros) == 0
    decreases |zeros|
  {
    if zeros != [] {
      ParseZeros(zeros[..|zeros| - 1]);
    }
  }

  /** A default code of prefix and zeros, of any length up to five, steps to
      prefix + "00001": the first code of an empty table. `code` and `next`
      name the two codes as the caller spells them. */
  lemma FirstCode(prefix: string, zeros: string, code: string, next: string)
    requires |prefix| == 2 && 1 <= |zeros| <= 5
    requires forall i :: 0 <= i < |zeros| ==> zeros[i] == '0'
    requires code == prefix + zeros && next == prefix + "00001"
    ensures ParsableCode(code)
    ensures AutoGenerateCode(code) == next
  {
    assert code[2..] == zeros;
    ParseZeros(zeros);
    ParseDigits(zeros);
    assert Pad(1, 5) == "00001";
    var r := AutoGenerateCode(code);
    assert r[..2] == prefix && r[2..] == "00001";
    assert r == prefix + r[2..];
  }
}
