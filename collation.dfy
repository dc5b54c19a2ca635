/**
  Text ordering and sorting by a text key.

  SQLite compares TEXT values under its default BINARY collation, byte by
  byte on the UTF-8 encoding, a proper prefix sorting first. UTF-8 preserves
  code-point order, so this is the lexicographic order on the characters
  (Unicode scalar values) of the string.
 */
module Collation {

  /** `a` sorts at or before `b` under the BINARY collation. */
  predicate LexLe(a: string, b: string) {
    a == [] || (b != [] && (a[0] < b[0] || (a[0] == b[0] && LexLe(a[1..], b[1..]))))
  }

  /** `a` sorts strictly before `b`. */
  predicate LexLt(a: string, b: string) {
    LexLe(a, b) && a != b
  }

  lemma {:induction false} LexLeTotal(a: string, b: string)
    ensures LexLe(a, b) || LexLe(b, a)
  {
    if a != [] && b != [] && a[0] == b[0] {
      LexLeTotal(a[1..], b[1..]);
    }
  }

  lemma {:induction false} LexLeTransitive(a: string, b: string, c: string)
    requires LexLe(a, b) && LexLe(b, c)
    ensures LexLe(a, c)
  {
    if a != [] && a[0] == b[0] && b[0] == c[0] {
      LexLeTransitive(a[1..], b[1..], c[1..]);
    }
  }

  lemma {:induction false} LexLeAntisymmetric(a: string, b: string)
    requires LexLe(a, b) && LexLe(b, a)
    ensures a == b
  {
    if a != [] {
      LexLeAntisymmetric(a[1..], b[1..]);
      assert a == [a[0]] + a[1..] && b == [b[0]] + b[1..];
    }
  }

  /** The elements of `s` are in non-increasing order of `key`. */
  ghost predicate SortedDescBy<T>(s: seq<T>, key: T -> string) {
    forall i, j :: 0 <= i < j < |s| ==> LexLe(key(s[j]), key(s[i]))
  }

  /** Every element of `s` has a key at or below `bound`. */
  ghost predicate AllAtMost<T>(s: seq<T>, key: T -> string, bound: string) {
    forall i :: 0 <= i < |s| ==> LexLe(key(s[i]), bound)
  }

  /** Places `x` in front of the first element whose key is at or below its own. */
  function InsertDescBy<T(==)>(x: T, s: seq<T>, key: T -> string): (r: seq<T>)
    requires SortedDescBy(s, key)
    ensures multiset(r) == multiset(s) + multiset{x}
    ensures SortedDescBy(r, key)
  {
    if s == [] || LexLe(key(s[0]), key(x)) then
      PrependSorted(x, s, key);
      [x] + s
    else
      var rest := InsertDescBy(x, s[1..], key);
      assert s == [s[0]] + s[1..];
      LexLeTotal(key(x), key(s[0]));
      assert AllAtMost(s[1..], key, key(s[0])) by {
        forall i | 0 <= i < |s| - 1
          ensures LexLe(key(s[1..][i]), key(s[0]))
        {
          assert s[1..][i] == s[i + 1];
        }
      }
      AllAtMostPermutation(rest, s[1..], x, key, key(s[0]));
      PrependSorted(s[0], rest, key);
      [s[0]] + rest
  }

  /** An element whose key is at or above every key of a sorted sequence may go in front. */
  lemma PrependSorted<T>(x: T, s: seq<T>, key: T -> string)
    requires SortedDescBy(s, key)
    requires AllAtMost(s, key, key(x)) || s == [] || LexLe(key(s[0]), key(x))
    ensures SortedDescBy([x] + s, key)
  {
    var r := [x] + s;
    forall i, j | 0 <= i < j < |r|
      ensures LexLe(key(r[j]), key(r[i]))
    {
      if i == 0 && !AllAtMost(s, key, key(x)) && j > 1 {
        LexLeTransitive(key(s[j - 1]), key(s[0]), key(x));
      }
    }
  }

  /** A bound on every key of `s` and on `key(x)` bounds every key of a rearrangement of `s` and `x`. */
  lemma AllAtMostPermutation<T>(r: seq<T>, s: seq<T>, x: T, key: T -> string, bound: string)
    requires multiset(r) == multiset(s) + multiset{x}
    requires AllAtMost(s, key, bound) && LexLe(key(x), bound)
    ensures AllAtMost(r, key, bound)
  {
    forall i | 0 <= i < |r|
      ensures LexLe(key(r[i]), bound)
    {
      assert r[i] in multiset(r);
      if r[i] != x {
        assert r[i] in multiset(s);
        var j :| 0 <= j < |s| && s[j] == r[i];
      }
    }
  }

  /**
    Insertion sort on `key`, largest first. Elements with equal keys may come
    out in any order relative to each other: only the two ensures are promised.
   */
  function SortDescBy<T(==)>(s: seq<T>, key: T -> string): (r: seq<T>)
    ensures multiset(r) == multiset(s)
    ensures SortedDescBy(r, key)
  {
    if s == [] then []
    else
      assert s == [s[0]] + s[1..];
      InsertDescBy(s[0], SortDescBy(s[1..], key), key)
  }

  /** No element occurs twice. */
  ghost predicate Distinct<T>(s: seq<T>) {
    forall i, j :: 0 <= i < j < |s| ==> s[i] != s[j]
  }

  lemma {:induction false} DistinctCount<T>(s: seq<T>, x: T)
    requires Distinct(s)
    ensures multiset(s)[x] <= 1
  {
    if s != [] {
      assert s == [s[0]] + s[1..];
      assert Distinct(s[1..]);
      DistinctCount(s[1..], x);
      if s[0] == x {
        assert x !in s[1..];
      }
    }
  }

  /** A permutation of a duplicate-free sequence is duplicate-free. */
  lemma PermutationKeepsDistinct<T>(s: seq<T>, r: seq<T>)
    requires Distinct(s) && multiset(r) == multiset(s)
    ensures Distinct(r)
  {
    forall i, j | 0 <= i < j < |r|
      ensures r[i] != r[j]
    {
      if r[i] == r[j] {
        assert r == r[..i] + [r[i]] + r[i + 1..j] + [r[j]] + r[j + 1..];
        assert multiset(r)[r[i]] >= 2;
        DistinctCount(s, r[i]);
        assert false;
      }
    }
  }

  /** A duplicate-free sequence has as many distinct elements as positions. */
  lemma {:induction false} DistinctCardinality<T>(s: seq<T>)
    requires Distinct(s)
    ensures |set x | x in s| == |s|
  {
    if s != [] {
      assert Distinct(s[1..]);
      DistinctCardinality(s[1..]);
      assert (set x | x in s) == (set x | x in s[1..]) + {s[0]};
      assert s[0] !in s[1..];
    }
  }

  /** Sorted by a key and duplicate-free, with the key the identity: strictly descending. */
  lemma SortedDistinctIsStrict(s: seq<string>)
    requires SortedDescBy(s, Identity) && Distinct(s)
    ensures forall i, j :: 0 <= i < j < |s| ==> LexLt(s[j], s[i])
  {
    forall i, j | 0 <= i < j < |s|
      ensures LexLt(s[j], s[i])
    {
      assert LexLe(Identity(s[j]), Identity(s[i]));
    }
  }

  function Identity(s: string): string {
    s
  }
}
