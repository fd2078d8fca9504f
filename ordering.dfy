/**
 * `ORDER BY key DESC`.  A row's sort key is given as a rank, a sequence of integers
 * compared lexicographically: a number is the one-element rank `[n]`, a string the
 * rank of its character codes.  Rows with equal ranks may come out in any order,
 * as in SQL.
 */
module Ordering {

  /** `a >= b` lexicographically; a proper prefix ranks below its extensions. */
  predicate AtLeast(a: seq<int>, b: seq<int>)
    decreases |b|
  {
    b == [] || (a != [] && (a[0] > b[0] || (a[0] == b[0] && AtLeast(a[1..], b[1..]))))
  }

  lemma {:induction false} AtLeastTotal(a: seq<int>, b: seq<int>)
    ensures AtLeast(a, b) || AtLeast(b, a)
    decreases |b|
  {
    if a != [] && b != [] && a[0] == b[0] {
      AtLeastTotal(a[1..], b[1..]);
    }
  }

  lemma {:induction false} AtLeastTransitive(a: seq<int>, b: seq<int>, c: seq<int>)
    requires AtLeast(a, b) && AtLeast(b, c)
    ensures AtLeast(a, c)
    decreases |c|
  {
    if c != [] && a[0] == b[0] == c[0] {
      AtLeastTransitive(a[1..], b[1..], c[1..]);
    }
  }

  /** Non-increasing by rank. */
  ghost predicate SortedDesc<T>(s: seq<T>, rank: T -> seq<int>) {
    forall i, j :: 0 <= i < j < |s| ==> AtLeast(rank(s[i]), rank(s[j]))
  }

  /** Put `x` before the first element it ranks at least as high as. */
  function Insert<T>(x: T, s: seq<T>, rank: T -> seq<int>): (r: seq<T>)
    ensures multiset(r) == multiset(s) + multiset{x}
    ensures SortedDesc(s, rank) ==> SortedDesc(r, rank)
  {
    if s == [] || AtLeast(rank(x), rank(s[0])) then
      InsertFrontSorted(x, s, rank);
      [x] + s
    else
      var tail := Insert(x, s[1..], rank);
      InsertBehindSorted(x, s, tail, rank);
      assert s == [s[0]] + s[1..];
      [s[0]] + tail
  }

  lemma InsertFrontSorted<T>(x: T, s: seq<T>, rank: T -> seq<int>)
    requires s == [] || AtLeast(rank(x), rank(s[0]))
    ensures SortedDesc(s, rank) ==> SortedDesc([x] + s, rank)
  {
    if SortedDesc(s, rank) {
      var r := [x] + s;
      forall i, j | 0 <= i < j < |r| ensures AtLeast(rank(r[i]), rank(r[j])) {
        if i == 0 && j > 1 {
          AtLeastTransitive(rank(x), rank(s[0]), rank(s[j - 1]));
        } else if i > 0 {
          assert r[i] == s[i - 1] && r[j] == s[j - 1];
        }
      }
    }
  }

  lemma InsertBehindSorted<T>(x: T, s: seq<T>, tail: seq<T>, rank: T -> seq<int>)
    requires s != [] && !AtLeast(rank(x), rank(s[0]))
    requires multiset(tail) == multiset(s[1..]) + multiset{x}
    requires SortedDesc(s[1..], rank) ==> SortedDesc(tail, rank)
    ensures SortedDesc(s, rank) ==> SortedDesc([s[0]] + tail, rank)
  {
    if SortedDesc(s, rank) {
      assert SortedDesc(s[1..], rank) by {
        forall i, j | 0 <= i < j < |s[1..]| ensures AtLeast(rank(s[1..][i]), rank(s[1..][j])) {
          assert s[1..][i] == s[i + 1] && s[1..][j] == s[j + 1];
        }
      }
      AtLeastTotal(rank(x), rank(s[0]));
      var r := [s[0]] + tail;
      forall j | 0 <= j < |tail| ensures AtLeast(rank(s[0]), rank(tail[j])) {
        assert tail[j] in multiset(tail);
        if tail[j] != x {
          assert tail[j] in multiset(s[1..]);
          var k :| 0 <= k < |s[1..]| && s[1..][k] == tail[j];
          assert s[k + 1] == tail[j];
        }
      }
      forall i, j | 0 <= i < j < |r| ensures AtLeast(rank(r[i]), rank(r[j])) {
        if i > 0 {
          assert r[i] == tail[i - 1] && r[j] == tail[j - 1];
        } else {
          assert r[j] == tail[j - 1];
        }
      }
    }
  }

  /** Insertion sort, descending by rank. */
  function SortDesc<T>(s: seq<T>, rank: T -> seq<int>): (r: seq<T>)
    ensures multiset(r) == multiset(s)
    ensures SortedDesc(r, rank)
  {
    if s == [] then []
    else
      assert s == [s[0]] + s[1..];
      Insert(s[0], SortDesc(s[1..], rank), rank)
  }

  /** A permutation has the same elements. */
  lemma SameElements<T>(r: seq<T>, s: seq<T>)
    requires multiset(r) == multiset(s)
    ensures forall x :: x in r <==> x in s
  {
    forall x ensures x in r <==> x in s {
      assert x in r <==> x in multiset(r);
      assert x in s <==> x in multiset(s);
    }
  }
}
