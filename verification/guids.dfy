/** Globally unique identifiers as the controllers see them: a 128-bit value,
    its canonical "D" text form (8-4-4-4-12 lower-case hex digits) and the
    parser the controllers run over that text before touching storage. */
module Guids {
  import opened Wrappers

  /** 16^32 = 2^128. */
  const GuidBound: nat := 0x1_0000_0000_0000_0000_0000_0000_0000_0000

  type Guid = g: nat | g < GuidBound

  /** `Guid.Empty`, the all-zero identifier. */
  const EmptyGuid: Guid := 0

  function Pow16(n: nat): nat {
    if n == 0 then 1 else 16 * Pow16(n - 1)
  }

  lemma {:induction false} Pow16ThirtyTwo()
    ensures Pow16(32) == GuidBound
  {
    assert Pow16(8) == 0x1_0000_0000;
    assert Pow16(16) == 0x1_0000_0000 * Pow16(8) by { Pow16Add(8, 8); }
    assert Pow16(32) == Pow16(16) * Pow16(16) by { Pow16Add(16, 16); }
  }

  lemma {:induction false} Pow16Add(a: nat, b: nat)
    ensures Pow16(a + b) == Pow16(a) * Pow16(b)
  {
    if a > 0 {
      Pow16Add(a - 1, b);
    }
  }

  predicate IsHexChar(c: char) {
    '0' <= c <= '9' || 'a' <= c <= 'f' || 'A' <= c <= 'F'
  }

  predicate AllHex(s: string) {
    forall i :: 0 <= i < |s| ==> IsHexChar(s[i])
  }

  /** The lower-case hex digit for `d`. */
  function HexChar(d: nat): (c: char)
    requires d < 16
    ensures IsHexChar(c) && HexCharValue(c) == d
  {
    if d < 10 then ('0' as int + d) as char else ('a' as int + d - 10) as char
  }

  /** The value of a hex digit of either case. */
  function HexCharValue(c: char): (d: nat)
    requires IsHexChar(c)
    ensures d < 16
  {
    if '0' <= c <= '9' then c as int - '0' as int
    else if 'a' <= c <= 'f' then c as int - 'a' as int + 10
    else c as int - 'A' as int + 10
  }

  /** `n` written in exactly `width` hex digits, most significant first
      (digits beyond `width` are dropped). */
  function Hex(n: nat, width: nat): (s: string)
    ensures |s| == width && AllHex(s)
  {
    if width == 0 then [] else Hex(n / 16, width - 1) + [HexChar(n % 16)]
  }

  /** The value of a string of hex digits, most significant first. */
  function ParseHex(s: string): (n: nat)
    requires AllHex(s)
    ensures n < Pow16(|s|)
  {
    if s == [] then 0
    else ParseHex(s[..|s| - 1]) * 16 + HexCharValue(s[|s| - 1])
  }

  lemma {:induction false} HexRoundTrip(n: nat, width: nat)
    requires n < Pow16(width)
    ensures ParseHex(Hex(n, width)) == n
  {
    if width > 0 {
      var s := Hex(n, width);
      assert s[..|s| - 1] == Hex(n / 16, width - 1);
      HexRoundTrip(n / 16, width - 1);
    }
  }

  /** `Guid.ToString()`: the "D" format, 32 lower-case hex digits in groups of
      8-4-4-4-12 separated by hyphens. */
  function ToString(g: Guid): (s: string)
    ensures |s| == 36
    ensures s[8] == '-' && s[13] == '-' && s[18] == '-' && s[23] == '-'
  {
    Hyphenate(Hex(g, 32))
  }

  /** 32 digits in groups of 8-4-4-4-12 separated by hyphens. */
  function Hyphenate(h: string): (s: string)
    requires |h| == 32
    ensures |s| == 36
    ensures s[8] == '-' && s[13] == '-' && s[18] == '-' && s[23] == '-'
    ensures Digits(s) == h
  {
    var s := h[..8] + "-" + h[8..12] + "-" + h[12..16] + "-" + h[16..20] + "-" + h[20..];
    assert s[..8] == h[..8] && s[9..13] == h[8..12] && s[14..18] == h[12..16];
    assert s[19..23] == h[16..20] && s[24..] == h[20..];
    assert h == h[..8] + h[8..12] + h[12..16] + h[16..20] + h[20..];
    s
  }

  /** The 32 digits of a hyphenated "D"-format string. */
  function Digits(s: string): (h: string)
    requires |s| == 36
    ensures |h| == 32
  {
    s[..8] + s[9..13] + s[14..18] + s[19..23] + s[24..]
  }

  /** `Guid.TryParse` on the "D" format: hyphens at 8, 13, 18 and 23, hex
      digits of either case everywhere else. */
  function TryParse(s: string): (r: Option<Guid>)
    ensures r.Some? ==> |s| == 36 && s[8] == '-' && s[13] == '-' && s[18] == '-' && s[23] == '-'
    ensures r.Some? ==> AllHex(Digits(s)) && r.value == ParseHex(Digits(s))
  {
    if |s| == 36 && s[8] == '-' && s[13] == '-' && s[18] == '-' && s[23] == '-' then
      var h := Digits(s);
      if AllHex(h) then
        Pow16ThirtyTwo();
        Some(ParseHex(h))
      else None
    else None
  }

  /** Every identifier's text form parses back to the identifier, so a
      `TryParse(id.ToString())` guard never fails. */
  lemma ToStringRoundTrip(g: Guid)
    ensures TryParse(ToString(g)) == Some(g)
  {
    Pow16ThirtyTwo();
    HexRoundTrip(g, 32);
  }
}
