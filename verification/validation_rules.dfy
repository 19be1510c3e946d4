/** The three kinds of per-field check the validators chain: `NotEmpty()`,
    `Matches(@"^XX\d{5}$")` and `LessThan(now)`. */
module ValidationRules {
  import opened Wrappers
  import opened Decimal

  /** `char.IsWhiteSpace`: the Unicode separators and the C0/C1 spacing
      controls. */
  predicate IsWhiteSpace(c: char) {
    || ('\U{0009}' <= c <= '\U{000D}')
    || c == '\U{0020}' || c == '\U{0085}' || c == '\U{00A0}' || c == '\U{1680}'
    || ('\U{2000}' <= c <= '\U{200A}')
    || c == '\U{2028}' || c == '\U{2029}' || c == '\U{202F}' || c == '\U{205F}' || c == '\U{3000}'
  }

  /** What `NotEmpty()` rejects for a string: `string.IsNullOrWhiteSpace`,
      so the empty string and strings of white space only. */
  predicate IsBlank(s: string) {
    forall i :: 0 <= i < |s| ==> IsWhiteSpace(s[i])
  }

  /** The anchored pattern `^<prefix>\d{5}$` over ASCII digits. */
  predicate MatchesCodePattern(prefix: string, s: string) {
    |s| == |prefix| + 5 && s[..|prefix|] == prefix && AllDigits(s[|prefix|..])
  }

  /** The pattern accepts exactly the prefix followed by five digits. */
  lemma CodePatternShape(prefix: string, s: string)
    ensures MatchesCodePattern(prefix, s) <==> exists ds :: |ds| == 5 && AllDigits(ds) && s == prefix + ds
  {
    if MatchesCodePattern(prefix, s) {
      assert s == prefix + s[|prefix|..];
    }
  }

  /** A blank code also fails the pattern, so `NotEmpty` never fails alone:
      the format message follows the empty message. */
  lemma BlankFailsCodePattern(prefix: string, s: string)
    requires |prefix| > 0 && !IsWhiteSpace(prefix[0])
    ensures IsBlank(s) ==> !MatchesCodePattern(prefix, s)
  {
  }

  /** What `LessThan(now)` accepts for a `DateTime?`: a missing value, or
      one strictly before `now`. */
  predicate AbsentOrBefore(d: Option<int>, now: int) {
    d.None? || d.value < now
  }
}
