/** Offset/limit paging over an ordered result: `LIMIT size OFFSET
    (number - 1) * size`, and the page count `Math.Ceiling(total / size)`
    taken as exact integer ceiling division. */
module Paging {
  import opened Ordering

  /** The number of pages of `size` rows needed for `total` rows. */
  function CeilDiv(total: nat, size: int): (pages: nat)
    requires size > 0
    ensures IsPageCount(pages, total, size)
    ensures pages == 0 <==> total == 0
  {
    var q := (total + size - 1) / size;
    DivBounds(total + size - 1, size);
    q
  }

  /** `pages` pages of `size` rows hold `total` rows, and one page fewer
      would not: `pages` is the ceiling of `total / size`. */
  predicate IsPageCount(pages: int, total: int, size: int) {
    pages * size >= total && (pages == 0 || (pages - 1) * size < total)
  }

  /** The bounds of Euclidean division by a positive divisor. */
  lemma DivBounds(a: nat, b: int)
    requires b > 0
    ensures (a / b) * b <= a < (a / b) * b + b
  {
  }

  /** Rows skipped before page `number`. */
  function Offset(size: int, number: int): (skipped: nat)
    requires size > 0 && number > 0
  {
    MulNonNegative(number - 1, size);
    (number - 1) * size
  }

  /** Page `number` of `s`: the rows after the first `(number - 1) * size`,
      at most `size` of them; past the end the page is empty. */
  function Page<T>(s: seq<T>, size: int, number: int): (p: seq<T>)
    requires size > 0 && number > 0
    ensures |p| <= size
    ensures |p| == if Offset(size, number) >= |s| then 0 else Min(size, |s| - Offset(size, number))
    ensures forall i :: 0 <= i < |p| ==> p[i] == s[Offset(size, number) + i]
  {
    var from := Offset(size, number);
    if from >= |s| then [] else s[from..from + Min(size, |s| - from)]
  }

  function Min(a: int, b: int): int {
    if a <= b then a else b
  }

  lemma MulNonNegative(a: int, b: int)
    requires a >= 0 && b >= 0
    ensures a * b >= 0
  {
  }

  /** The page row `k` falls on. */
  function PageOf(k: nat, size: int): (number: int)
    requires size > 0
    ensures number >= 1
  {
    k / size + 1
  }

  /** Every row sits on a page within the page count: row `k` is row
      `k % size` of page `PageOf(k, size)`. */
  lemma RowOnItsPage<T>(s: seq<T>, size: int, k: nat)
    requires size > 0 && k < |s|
    ensures var number := PageOf(k, size);
      && number <= CeilDiv(|s|, size)
      && k % size < |Page(s, size, number)|
      && Page(s, size, number)[k % size] == s[k]
  {
    var q, r := k / size, k % size;
    var number := q + 1;
    assert k == q * size + r && 0 <= r < size;
    assert Offset(size, number) == q * size;
    var pages := CeilDiv(|s|, size);
    if pages <= q {
      MulMonotone(pages, q, size);
      assert false;
    }
  }

  /** Every row of `s` is on some page within the page count. */
  lemma EveryRowPaged<T>(s: seq<T>, size: int, x: T)
    requires size > 0 && x in s
    ensures exists number :: 1 <= number <= CeilDiv(|s|, size) && x in Page(s, size, number)
  {
    var k :| 0 <= k < |s| && s[k] == x;
    RowOnItsPage(s, size, k);
    var number := PageOf(k, size);
    assert Page(s, size, number)[k % size] == x;
  }

  lemma MulMonotone(a: int, b: int, c: int)
    requires 0 <= a <= b && c > 0
    ensures a * c <= b * c
  {
  }

  /** Pages past the last one are empty; pages before it are full. */
  lemma PageBeyondLast<T>(s: seq<T>, size: int, number: int)
    requires size > 0 && number > 0
    ensures number > CeilDiv(|s|, size) ==> Page(s, size, number) == []
    ensures number < CeilDiv(|s|, size) ==> |Page(s, size, number)| == size
  {
    var pages := CeilDiv(|s|, size);
    if number > pages {
      MulMonotone(pages, number - 1, size);
    }
    if number < pages {
      MulMonotone(number, pages - 1, size);
      assert Offset(size, number) + size == number * size;
    }
  }

  /** A page of a sorted sequence is sorted. */
  lemma PageSorted<T>(s: seq<T>, size: int, number: int, key: T -> string)
    requires size > 0 && number > 0
    requires SortedBy(s, key)
    ensures SortedBy(Page(s, size, number), key)
  {
    var p, from := Page(s, size, number), Offset(size, number);
    forall i, j | 0 <= i < j < |p|
      ensures LexLe(key(p[i]), key(p[j]))
    {
      assert p[i] == s[from + i] && p[j] == s[from + j];
    }
  }
}
