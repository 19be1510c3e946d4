/** Lexicographic order on strings, the order `ORDER BY <code>` sorts by, and
    the existence of least and greatest elements that the repositories pick. */
module Ordering {

  /** No element occurs twice. */
  predicate Distinct<T(==)>(s: seq<T>) {
    forall i, j :: 0 <= i < j < |s| ==> s[i] != s[j]
  }

  /** `a` sorts no later than `b`: character by character, a proper prefix
      first. */
  predicate LexLe(a: string, b: string)
    decreases |a|
  {
    |a| == 0 || (|b| > 0 && (a[0] < b[0] || (a[0] == b[0] && LexLe(a[1..], b[1..]))))
  }

  lemma {:induction false} LexLeReflexive(a: string)
    ensures LexLe(a, a)
    decreases |a|
  {
    if |a| > 0 {
      LexLeReflexive(a[1..]);
    }
  }

  lemma {:induction false} LexLeAntisymmetric(a: string, b: string)
    requires LexLe(a, b) && LexLe(b, a)
    ensures a == b
    decreases |a|
  {
    if |a| > 0 {
      LexLeAntisymmetric(a[1..], b[1..]);
      assert a == [a[0]] + a[1..] && b == [b[0]] + b[1..];
    }
  }

  lemma {:induction false} LexLeTransitive(a: string, b: string, c: string)
    requires LexLe(a, b) && LexLe(b, c)
    ensures LexLe(a, c)
    decreases |a|
  {
    if |a| > 0 && a[0] == b[0] && b[0] == c[0] {
      LexLeTransitive(a[1..], b[1..], c[1..]);
    }
  }

  lemma {:induction false} LexLeTotal(a: string, b: string)
    ensures LexLe(a, b) || LexLe(b, a)
    decreases |a|
  {
    if |a| > 0 && |b| > 0 && a[0] == b[0] {
      LexLeTotal(a[1..], b[1..]);
    }
  }

  /** A shared prefix does not change the order. */
  lemma {:induction false} LexLeCommonPrefix(p: string, a: string, b: string)
    ensures LexLe(p + a, p + b) <==> LexLe(a, b)
    decreases |p|
  {
    if |p| > 0 {
      assert (p + a)[1..] == p[1..] + a && (p + b)[1..] == p[1..] + b;
      LexLeCommonPrefix(p[1..], a, b);
    } else {
      assert p + a == a && p + b == b;
    }
  }

  /** A finite non-empty set of keyed elements has one whose key sorts first. */
  lemma {:induction false} ExistsLeast<T>(s: set<T>, key: T -> string)
    requires s != {}
    ensures exists x :: x in s && forall y :: y in s ==> LexLe(key(x), key(y))
    decreases |s|
  {
    var z :| z in s;
    if s == {z} {
      LexLeReflexive(key(z));
      assert forall y :: y in s ==> y == z;
    } else {
      ExistsLeast(s - {z}, key);
      var x :| x in s - {z} && forall y :: y in s - {z} ==> LexLe(key(x), key(y));
      LexLeTotal(key(x), key(z));
      if LexLe(key(x), key(z)) {
        assert forall y :: y in s ==> LexLe(key(x), key(y));
      } else {
        forall y | y in s
          ensures LexLe(key(z), key(y))
        {
          if y == z {
            LexLeReflexive(key(z));
          } else {
            LexLeTransitive(key(z), key(x), key(y));
          }
        }
      }
    }
  }

  /** A finite non-empty set of strings has a greatest element. */
  lemma {:induction false} ExistsGreatest(s: set<string>)
    requires s != {}
    ensures exists x :: x in s && forall y :: y in s ==> LexLe(y, x)
    decreases |s|
  {
    var z :| z in s;
    if s == {z} {
      LexLeReflexive(z);
      assert forall y :: y in s ==> y == z;
    } else {
      ExistsGreatest(s - {z});
      var x :| x in s - {z} && forall y :: y in s - {z} ==> LexLe(y, x);
      LexLeTotal(x, z);
      if LexLe(z, x) {
        assert forall y :: y in s ==> LexLe(y, x);
      } else {
        forall y | y in s
          ensures LexLe(y, z)
        {
          if y == z {
            LexLeReflexive(z);
          } else {
            LexLeTransitive(y, x, z);
          }
        }
      }
    }
  }

  /** The greatest string of a finite non-empty set, the row
      `ORDER BY ... DESC LIMIT 1` returns. */
  ghost function Greatest(s: set<string>): (m: string)
    requires s != {}
    ensures m in s && forall y :: y in s ==> LexLe(y, m)
  {
    ExistsGreatest(s);
    var m :| m in s && forall y :: y in s ==> LexLe(y, m);
    m
  }

  /** Keys never decrease along `r`. */
  predicate SortedBy<T>(r: seq<T>, key: T -> string) {
    forall i, j :: 0 <= i < j < |r| ==> LexLe(key(r[i]), key(r[j]))
  }

  /** The elements of `s`, each once, ordered by key; elements with equal
      keys come in some order. */
  ghost function SortBy<T(!new)>(s: set<T>, key: T -> string): (r: seq<T>)
    ensures |r| == |s| && Distinct(r)
    ensures forall x :: x in r <==> x in s
    ensures SortedBy(r, key)
    decreases |s|
  {
    if s == {} then []
    else
      ExistsLeast(s, key);
      var first :| first in s && forall y :: y in s ==> LexLe(key(first), key(y));
      var rest := SortBy(s - {first}, key);
      forall j | 0 <= j < |rest|
        ensures LexLe(key(first), key(rest[j]))
      {
        assert rest[j] in rest;
        assert rest[j] in s;
      }
      ConsSorted(first, rest, key);
      ConsDistinct(first, rest);
      [first] + rest
  }

  lemma ConsSorted<T>(x: T, rest: seq<T>, key: T -> string)
    requires SortedBy(rest, key)
    requires forall j :: 0 <= j < |rest| ==> LexLe(key(x), key(rest[j]))
    ensures SortedBy([x] + rest, key)
  {
    var r := [x] + rest;
    forall i, j | 0 <= i < j < |r|
      ensures LexLe(key(r[i]), key(r[j]))
    {
      assert r[j] == rest[j - 1];
      if i > 0 {
        assert r[i] == rest[i - 1];
      }
    }
  }

  lemma ConsDistinct<T>(x: T, rest: seq<T>)
    requires Distinct(rest) && x !in rest
    ensures Distinct([x] + rest)
  {
    var r := [x] + rest;
    forall i, j | 0 <= i < j < |r|
      ensures r[i] != r[j]
    {
      assert r[j] == rest[j - 1];
      if i > 0 {
        assert r[i] == rest[i - 1];
      }
    }
  }

  /** `key` tells apart the elements of `s`. */
  predicate KeyInjective<T(==)>(s: seq<T>, key: T -> string) {
    forall i, j :: 0 <= i < |s| && 0 <= j < |s| && key(s[i]) == key(s[j]) ==> s[i] == s[j]
  }

  /** When no two elements share a key, the order by key is forced: two
      sorted sequences of the same elements, each element once, are equal. */
  lemma {:induction false} SortedUnique<T>(a: seq<T>, b: seq<T>, key: T -> string)
    requires SortedBy(a, key) && SortedBy(b, key) && Distinct(a) && Distinct(b)
    requires forall x :: x in a <==> x in b
    requires KeyInjective(a, key)
    ensures a == b
    decreases |a|
  {
    if a == [] {
      assert forall k :: 0 <= k < |b| ==> b[k] in a;
    } else {
      assert b != [] by { assert a[0] in b; }
      assert a[0] in b && b[0] in a;
      var i :| 0 <= i < |a| && a[i] == b[0];
      var j :| 0 <= j < |b| && b[j] == a[0];
      if i > 0 && j > 0 {
        assert LexLe(key(a[0]), key(a[i]));
        assert LexLe(key(b[0]), key(b[j]));
        LexLeAntisymmetric(key(a[0]), key(b[0]));
      }
      assert a[0] == b[0];
      var a', b' := a[1..], b[1..];
      forall x
        ensures x in a' <==> x in b'
      {
        TailMembers(a, x);
        TailMembers(b, x);
      }
      SortedUnique(a', b', key);
      assert a == [a[0]] + a' && b == [b[0]] + b';
    }
  }

  /** In a sequence without repeats, the tail holds everything but the head. */
  lemma TailMembers<T>(s: seq<T>, x: T)
    requires s != [] && Distinct(s)
    ensures x in s[1..] <==> x in s && x != s[0]
  {
    if x in s[1..] {
      var k :| 0 <= k < |s| - 1 && s[1..][k] == x;
      assert s[k + 1] == x;
    }
    if x in s && x != s[0] {
      var k :| 0 <= k < |s| && s[k] == x;
      assert s[1..][k - 1] == x;
    }
  }
}
