/** The business-code column every table carries, and the two queries the
    repositories run on it: `SELECT COUNT(1) ... WHERE <code> = @Code` and
    `SELECT <code> ... ORDER BY <code> DESC LIMIT 1`, whose answer seeds
    `AutoGenerateCode`. `codeOf` reads the column from a row. */
module CodeColumn {
  import opened Wrappers
  import opened Ordering
  import opened Decimal
  import opened ValidationRules
  import opened CommonUtils
  import opened Guids
  import opened Tables

  /** The rows whose code is `code`: what `COUNT(1)` counts. */
  function RowsWithCode<E>(t: Table<E>, codeOf: E -> string, code: string): set<Guid> {
    set id | id in t && codeOf(t[id]) == code
  }

  /** `COUNT(1) > 0`: some row carries the code. */
  function CodeExists<E>(t: Table<E>, codeOf: E -> string, code: string): (b: bool)
    ensures b <==> exists id :: id in t && codeOf(t[id]) == code
  {
    var rows := RowsWithCode(t, codeOf, code);
    assert (exists id :: id in t && codeOf(t[id]) == code) ==> rows != {} by {
      if exists id :: id in t && codeOf(t[id]) == code {
        var id :| id in t && codeOf(t[id]) == code;
        assert id in rows;
      }
    }
    |rows| > 0
  }

  /** No two rows share a code: the invariant the uniqueness rule is there
      to keep. */
  predicate UniqueCodes<E>(t: Table<E>, codeOf: E -> string) {
    forall a, b :: a in t && b in t && a != b ==> codeOf(t[a]) != codeOf(t[b])
  }

  /** The codes stored in the table. */
  function Codes<E>(t: Table<E>, codeOf: E -> string): set<string> {
    set id | id in t :: codeOf(t[id])
  }

  /** `ORDER BY <code> DESC LIMIT 1` read with `QueryFirstOrDefault`: the
      greatest stored code, or null on an empty table. */
  ghost function LatestCode<E>(t: Table<E>, codeOf: E -> string): (r: Option<string>)
    ensures r.None? <==> t == map[]
    ensures r.Some? ==> exists id :: id in t && codeOf(t[id]) == r.value
    ensures r.Some? ==> forall id :: id in t ==> LexLe(codeOf(t[id]), r.value)
  {
    if t == map[] then None
    else
      var codes := Codes(t, codeOf);
      var id :| id in t;
      assert codeOf(t[id]) in codes;
      var top := Greatest(codes);
      assert forall k :: k in t ==> codeOf(t[k]) in codes;
      Some(top)
  }

  /** The row `id` carries a greatest code. */
  predicate IsLatest<E>(t: Table<E>, codeOf: E -> string, id: Guid) {
    id in t && forall k :: k in t ==> LexLe(codeOf(t[k]), codeOf(t[id]))
  }

  /** The code the new-code endpoint offers: the seed is the greatest stored
      code, or `defaultCode` when nothing is stored; `None` stands for the
      exception `AutoGenerateCode` throws when the seed is not parsable. */
  ghost function NextCode<E>(t: Table<E>, codeOf: E -> string, defaultCode: string): (r: Option<string>)
    ensures t == map[] ==>
      r == if ParsableCode(defaultCode) then Some(AutoGenerateCode(defaultCode)) else None
    ensures t != map[] ==>
      exists id :: (IsLatest(t, codeOf, id)
        && (r.Some? <==> ParsableCode(codeOf(t[id])))
        && (r.Some? ==> r.value == AutoGenerateCode(codeOf(t[id]))))
  {
    var seed := LatestCode(t, codeOf).GetOr(defaultCode);
    if ParsableCode(seed) then Some(AutoGenerateCode(seed)) else None
  }

  /** The shape the validators demand of a stored code, with room for one
      more five-digit code after it. */
  predicate BelowLastCode(prefix: string, code: string) {
    MatchesCodePattern(prefix, code) && CodeValue(prefix, code) < 99999
  }

  /** The number a well-formed code carries after its prefix. */
  function CodeValue(prefix: string, code: string): nat
    requires MatchesCodePattern(prefix, code)
  {
    ParseDecimal(code[|prefix|..])
  }

  /** When every stored code is prefix + five digits below 99999, the next
      code has the same shape, exceeds every stored code and so is not yet
      stored. */
  lemma NextCodeFresh<E>(t: Table<E>, codeOf: E -> string, defaultCode: string, prefix: string)
    requires t != map[] && |prefix| == 2
    requires forall id :: id in t ==> MatchesCodePattern(prefix, codeOf(t[id])) && CodeValue(prefix, codeOf(t[id])) < 99999
    ensures var r := NextCode(t, codeOf, defaultCode);
      && r.Some? && MatchesCodePattern(prefix, r.value)
      && (forall id :: id in t ==> CodeValue(prefix, codeOf(t[id])) < CodeValue(prefix, r.value))
      && !CodeExists(t, codeOf, r.value)
  {
    var r := NextCode(t, codeOf, defaultCode);
    var top :| IsLatest(t, codeOf, top)
      && (r.Some? <==> ParsableCode(codeOf(t[top])))
      && (r.Some? ==> r.value == AutoGenerateCode(codeOf(t[top])));
    var g := codeOf(t[top]);
    NextAfter(prefix, g);
    var next := AutoGenerateCode(g);
    assert r == Some(next);
    forall id | id in t
      ensures CodeValue(prefix, codeOf(t[id])) < CodeValue(prefix, next)
    {
      StoredAtMostLatest(prefix, codeOf(t[id]), g);
    }
    assert !CodeExists(t, codeOf, next);
  }

  /** The code after a five-digit code below 99999 is again five digits,
      with value one more. */
  lemma NextAfter(prefix: string, g: string)
    requires |prefix| == 2 && BelowLastCode(prefix, g)
    ensures ParsableCode(g)
    ensures MatchesCodePattern(prefix, AutoGenerateCode(g))
    ensures CodeValue(prefix, AutoGenerateCode(g)) == CodeValue(prefix, g) + 1
  {
    var digits := g[2..];
    assert g == prefix + digits;
    NextFiveDigitCode(prefix, digits);
  }

  /** A stored code that sorts no later than the greatest one has no larger
      value. */
  lemma StoredAtMostLatest(prefix: string, c: string, g: string)
    requires |prefix| == 2 && BelowLastCode(prefix, c) && BelowLastCode(prefix, g)
    requires LexLe(c, g)
    ensures CodeValue(prefix, c) <= CodeValue(prefix, g)
  {
    assert c == prefix + c[2..] && g == prefix + g[2..];
    LexLeCommonPrefix(prefix, c[2..], g[2..]);
    LexLeIsNumericLe(c[2..], g[2..]);
  }
}
