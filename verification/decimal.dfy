/** Decimal numerals: the digit strings `int.Parse` reads and the zero-padded
    strings the `D<n>` format specifier writes, over unbounded naturals, with
    the 32-bit bounds of C#'s `int` stated separately. */
module Decimal {
  import opened Ordering

  const Int32Max: int := 0x7FFF_FFFF
  const Int32Min: int := -0x8000_0000

  /** C#'s unchecked `int` arithmetic: `x` reduced to two's complement. */
  function WrapInt32(x: int): (r: int)
    ensures Int32Min <= r <= Int32Max
    ensures Int32Min <= x <= Int32Max ==> r == x
    ensures x == Int32Max + 1 ==> r == Int32Min
  {
    (x - Int32Min) % 0x1_0000_0000 + Int32Min
  }

  function Pow10(n: nat): nat {
    if n == 0 then 1 else 10 * Pow10(n - 1)
  }

  predicate IsDigit(c: char) {
    '0' <= c <= '9'
  }

  predicate AllDigits(s: string) {
    forall i :: 0 <= i < |s| ==> IsDigit(s[i])
  }

  /** A non-empty run of ASCII digits. */
  predicate IsNumeral(s: string) {
    |s| > 0 && AllDigits(s)
  }

  function DigitChar(d: nat): (c: char)
    requires d < 10
    ensures IsDigit(c) && DigitValue(c) == d
  {
    ('0' as int + d) as char
  }

  function DigitValue(c: char): (d: nat)
    requires IsDigit(c)
    ensures d < 10
  {
    c as int - '0' as int
  }

  /** The value of a digit string, read most significant digit first. */
  function ParseDecimal(s: string): (n: nat)
    requires AllDigits(s)
    ensures n < Pow10(|s|)
  {
    if s == [] then 0
    else ParseDecimal(s[..|s| - 1]) * 10 + DigitValue(s[|s| - 1])
  }

  /** `n` written in exactly `width` digits, zero-padded on the left. */
  function Pad(n: nat, width: nat): (s: string)
    ensures |s| == width && AllDigits(s)
  {
    if width == 0 then [] else Pad(n / 10, width - 1) + [DigitChar(n % 10)]
  }

  /** How many digits `n` needs: at least one, and no leading zero. */
  function NumDigits(n: nat): (k: nat)
    ensures k >= 1 && n < Pow10(k)
    ensures k == 1 || Pow10(k - 1) <= n
  {
    if n < 10 then 1 else 1 + NumDigits(n / 10)
  }

  function Max(a: int, b: int): int {
    if a < b then b else a
  }

  /** The text `D5` writes for `n`: the digits of its magnitude in at least
      five places, zero-padded and no wider than needed, after a minus sign
      when `n` is negative. */
  predicate IsD5Text(s: string, n: int) {
    if n >= 0 then |s| == Max(5, NumDigits(n)) && AllDigits(s) && ParseDecimal(s) == n
    else |s| == 1 + Max(5, NumDigits(-n)) && s[0] == '-' && AllDigits(s[1..]) && ParseDecimal(s[1..]) == -n
  }

  /** `n.ToString("D5")`: at least five digits, zero-padded, with a leading
      minus sign for negative values. */
  function FormatD5(n: int): (s: string)
    ensures IsD5Text(s, n)
    ensures |s| >= 5
    ensures n >= 0 ==> IsNumeral(s) && ParseDecimal(s) == n
    ensures n < 0 ==> s[0] == '-' && IsNumeral(s[1..]) && ParseDecimal(s[1..]) == -n
    ensures n >= 0 && n < Pow10(5) ==> s == Pad(n, 5)
  {
    if n >= 0 then
      PadRoundTrip(n, Max(5, NumDigits(n)));
      if n < Pow10(5) then
        assert NumDigits(n) <= 5 by { if NumDigits(n) > 5 { Pow10Monotone(5, NumDigits(n) - 1); } }
        Pad(n, 5)
      else Pad(n, Max(5, NumDigits(n)))
    else
      var w := Max(5, NumDigits(-n));
      Pow10Monotone(NumDigits(-n), w);
      PadRoundTrip(-n, w);
      assert ("-" + Pad(-n, w))[1..] == Pad(-n, w);
      "-" + Pad(-n, w)
  }

  /** Digit strings of one length are told apart by their values. */
  lemma {:induction false} ParseDecimalInjective(a: string, b: string)
    requires |a| == |b| && AllDigits(a) && AllDigits(b)
    requires ParseDecimal(a) == ParseDecimal(b)
    ensures a == b
    decreases |a|
  {
    if |a| > 0 {
      var a', b' := a[..|a| - 1], b[..|b| - 1];
      var ca, cb := a[|a| - 1], b[|b| - 1];
      LastDigitSplit(ParseDecimal(a'), DigitValue(ca), ParseDecimal(b'), DigitValue(cb));
      ParseDecimalInjective(a', b');
      assert a == a' + [ca] && b == b' + [cb];
    }
  }

  /** The last decimal digit and the rest of a number are determined by it. */
  lemma LastDigitSplit(x: nat, dx: nat, y: nat, dy: nat)
    requires dx < 10 && dy < 10 && x * 10 + dx == y * 10 + dy
    ensures x == y && dx == dy
  {
  }

  /** `IsD5Text` pins the text down: one string per value. */
  lemma D5TextUnique(s: string, t: string, n: int)
    requires IsD5Text(s, n) && IsD5Text(t, n)
    ensures s == t
  {
    if n >= 0 {
      ParseDecimalInjective(s, t);
    } else {
      ParseDecimalInjective(s[1..], t[1..]);
      assert s == [s[0]] + s[1..] && t == [t[0]] + t[1..];
    }
  }

  /** The wrapped successor of `Int32.MaxValue`, that is `Int32.MinValue`,
      written out. */
  lemma FormatD5Int32Min()
    ensures FormatD5(Int32Min) == "-2147483648"
  {
    NumDigitsStep(2, 1); NumDigitsStep(21, 2); NumDigitsStep(214, 3); NumDigitsStep(2147, 4);
    NumDigitsStep(21474, 5); NumDigitsStep(214748, 6); NumDigitsStep(2147483, 7);
    NumDigitsStep(21474836, 8); NumDigitsStep(214748364, 9); NumDigitsStep(2147483648, 10);
    PadStep(2, 1, "", '2'); PadStep(21, 2, "2", '1'); PadStep(214, 3, "21", '4');
    PadStep(2147, 4, "214", '7'); PadStep(21474, 5, "2147", '4'); PadStep(214748, 6, "21474", '8');
    PadStep(2147483, 7, "214748", '3'); PadStep(21474836, 8, "2147483", '6');
    PadStep(214748364, 9, "21474836", '4'); PadStep(2147483648, 10, "214748364", '8');
  }

  /** One more digit on the right. */
  lemma PadStep(n: nat, w: nat, s: string, d: char)
    requires w > 0 && Pad(n / 10, w - 1) == s && d == DigitChar(n % 10)
    ensures Pad(n, w) == s + [d]
  {
  }

  lemma NumDigitsStep(n: nat, k: nat)
    requires k > 0 && (if n < 10 then k == 1 else NumDigits(n / 10) == k - 1)
    ensures NumDigits(n) == k
  {
  }

  lemma {:induction false} Pow10Monotone(a: nat, b: nat)
    requires a <= b
    ensures Pow10(a) <= Pow10(b)
    decreases b
  {
    if a < b {
      Pow10Monotone(a, b - 1);
    }
  }

  lemma {:induction false} PadRoundTrip(n: nat, width: nat)
    requires n < Pow10(width)
    ensures ParseDecimal(Pad(n, width)) == n
  {
    if width > 0 {
      var s := Pad(n, width);
      assert s[..|s| - 1] == Pad(n / 10, width - 1);
      PadRoundTrip(n / 10, width - 1);
    }
  }

  /** Reading the leading digit first gives the same value. */
  lemma {:induction false} ParseDecimalFront(s: string)
    requires |s| > 0 && AllDigits(s)
    ensures ParseDecimal(s) == DigitValue(s[0]) * Pow10(|s| - 1) + ParseDecimal(s[1..])
    decreases |s|
  {
    if |s| > 1 {
      var init := s[..|s| - 1];
      ParseDecimalFront(init);
      assert init[0] == s[0];
      ParseDecimalTail(s);
      Regroup(DigitValue(s[0]), Pow10(|s| - 2), ParseDecimal(init[1..]), DigitValue(s[|s| - 1]));
    }
  }

  lemma ParseDecimalTail(s: string)
    requires |s| > 1 && AllDigits(s)
    ensures ParseDecimal(s[1..]) == ParseDecimal(s[..|s| - 1][1..]) * 10 + DigitValue(s[|s| - 1])
  {
    assert s[..|s| - 1][1..] == s[1..][..|s[1..]| - 1];
  }

  lemma Regroup(d: nat, p: nat, r: nat, last: nat)
    ensures (d * p + r) * 10 + last == d * (10 * p) + (r * 10 + last)
  {
  }

  lemma LeadingDigitDominates(dx: nat, dy: nat, rx: nat, ry: nat, p: nat)
    requires dx < dy && rx < p
    ensures dx * p + rx < dy * p + ry
  {
    assert (dx + 1) * p <= dy * p;
  }

  /** For digit strings of one length, lexicographic order is numeric order:
      this is why `ORDER BY code DESC` finds the largest suffix. */
  lemma {:induction false} LexLeIsNumericLe(a: string, b: string)
    requires |a| == |b| && AllDigits(a) && AllDigits(b)
    ensures LexLe(a, b) <==> ParseDecimal(a) <= ParseDecimal(b)
    decreases |a|
  {
    if |a| > 0 {
      ParseDecimalFront(a);
      ParseDecimalFront(b);
      var p := Pow10(|a| - 1);
      var da, db := DigitValue(a[0]), DigitValue(b[0]);
      var ra, rb := ParseDecimal(a[1..]), ParseDecimal(b[1..]);
      assert ra < p && rb < p;
      if da < db {
        LeadingDigitDominates(da, db, ra, rb, p);
      } else if da > db {
        LeadingDigitDominates(db, da, rb, ra, p);
      } else {
        LexLeIsNumericLe(a[1..], b[1..]);
      }
    }
  }
}
