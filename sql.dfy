/**
 * The meaning of the SQL statements the data layer issues, over a table held as the
 * sequence of its rows in primary-key order.  A `SELECT ... WHERE p` keeps the rows
 * satisfying `p` in table order, an `UPDATE ... WHERE p` rewrites exactly those rows,
 * and a `DELETE ... WHERE p` keeps the others.
 */
module Sql {
  import opened Wrappers

  /** `SELECT * FROM t WHERE p`. */
  function Select<T(!new)>(rows: seq<T>, p: T -> bool): (r: seq<T>)
    ensures |r| <= |rows|
    ensures forall x :: x in r <==> x in rows && p(x)
  {
    if rows == [] then []
    else (if p(rows[0]) then [rows[0]] else []) + Select(rows[1..], p)
  }

  /** A SELECT that no row satisfies is empty. */
  lemma {:induction false} SelectNone<T(!new)>(rows: seq<T>, p: T -> bool)
    requires forall x :: x in rows ==> !p(x)
    ensures Select(rows, p) == []
  {
    if rows != [] {
      assert rows[0] in rows;
      SelectNone(rows[1..], p);
    }
  }

  /** A SELECT that every row satisfies is the whole table. */
  lemma {:induction false} SelectAll<T(!new)>(rows: seq<T>, p: T -> bool)
    requires forall x :: x in rows ==> p(x)
    ensures Select(rows, p) == rows
  {
    if rows != [] {
      assert rows[0] in rows;
      SelectAll(rows[1..], p);
    }
  }

  /** `DELETE FROM t WHERE p`: what is left of the table. */
  function DeleteWhere<T(!new)>(rows: seq<T>, p: T -> bool): (r: seq<T>)
    ensures |r| <= |rows|
    ensures forall x :: x in r <==> x in rows && !p(x)
  {
    Select(rows, x => !p(x))
  }

  /** A DELETE that no row satisfies leaves the table as it is. */
  lemma DeleteNone<T(!new)>(rows: seq<T>, p: T -> bool)
    requires forall x :: x in rows ==> !p(x)
    ensures DeleteWhere(rows, p) == rows
  {
    SelectAll(rows, x => !p(x));
  }

  /** `UPDATE t SET ... WHERE p`, where `f` is the row with the SET list applied. */
  function UpdateWhere<T>(rows: seq<T>, p: T -> bool, f: T -> T): (r: seq<T>)
    ensures |r| == |rows|
    ensures forall i :: 0 <= i < |rows| ==> r[i] == if p(rows[i]) then f(rows[i]) else rows[i]
  {
    seq(|rows|, i requires 0 <= i < |rows| => if p(rows[i]) then f(rows[i]) else rows[i])
  }

  /** `rows[0]` of a result set, which is `undefined` when the set is empty. */
  function FirstRow<T>(rows: seq<T>): (r: Option<T>)
    ensures r.None? <==> rows == []
    ensures r.Some? ==> r.value == rows[0]
  {
    if rows == [] then None else Some(rows[0])
  }

  /** The first row satisfying `p`: `rows[0]` of `SELECT * FROM t WHERE p`. */
  function FirstWhere<T(!new)>(rows: seq<T>, p: T -> bool): (r: Option<T>)
    ensures r.None? <==> forall x :: x in rows ==> !p(x)
    ensures r.Some? ==> r.value in rows && p(r.value)
  {
    var selected := Select(rows, p);
    assert forall x :: x in rows && p(x) ==> x in selected;
    assert selected != [] ==> selected[0] in selected;
    FirstRow(selected)
  }

  /** No two rows share a key: a PRIMARY KEY or UNIQUE KEY constraint. */
  ghost predicate DistinctKeys<T, K>(rows: seq<T>, key: T -> K) {
    forall i, j :: 0 <= i < j < |rows| ==> key(rows[i]) != key(rows[j])
  }

  /** Every key is below `bound`: the auto-increment counter has not yet handed out `bound`. */
  ghost predicate KeysBelow<T>(rows: seq<T>, key: T -> int, bound: int) {
    forall x :: x in rows ==> key(x) < bound
  }

  lemma {:induction false} SelectKeepsDistinctKeys<T(!new), K>(rows: seq<T>, p: T -> bool, key: T -> K)
    requires DistinctKeys(rows, key)
    ensures DistinctKeys(Select(rows, p), key)
  {
    if rows != [] {
      var tail := Select(rows[1..], p);
      SelectKeepsDistinctKeys(rows[1..], p, key);
      forall y | y in tail ensures key(y) != key(rows[0]) {
        var j :| 0 <= j < |rows[1..]| && rows[1..][j] == y;
        assert rows[j + 1] == y;
      }
      if p(rows[0]) {
        var r := [rows[0]] + tail;
        forall i, j | 0 <= i < j < |r| ensures key(r[i]) != key(r[j]) {
          if i == 0 {
            assert r[j] == tail[j - 1];
            assert r[j] in tail;
          } else {
            assert r[i] == tail[i - 1] && r[j] == tail[j - 1];
          }
        }
      }
    }
  }

  lemma DeleteKeepsDistinctKeys<T(!new), K>(rows: seq<T>, p: T -> bool, key: T -> K)
    requires DistinctKeys(rows, key)
    ensures DistinctKeys(DeleteWhere(rows, p), key)
  {
    SelectKeepsDistinctKeys(rows, x => !p(x), key);
  }

  /** Appending a row whose key is new keeps the keys distinct. */
  lemma AppendKeepsDistinctKeys<T, K>(rows: seq<T>, x: T, key: T -> K)
    requires DistinctKeys(rows, key)
    requires forall y :: y in rows ==> key(y) != key(x)
    ensures DistinctKeys(rows + [x], key)
  {
    var r := rows + [x];
    forall i, j | 0 <= i < j < |r| ensures key(r[i]) != key(r[j]) {
      if j == |rows| {
        assert r[i] in rows;
      } else {
        assert r[i] == rows[i] && r[j] == rows[j];
      }
    }
  }

  /** A rewrite that keeps every row's key keeps the keys distinct and below the counter. */
  lemma SameKeys<T, K>(before: seq<T>, after: seq<T>, key: T -> K)
    requires |after| == |before|
    requires forall i :: 0 <= i < |after| ==> key(after[i]) == key(before[i])
    requires DistinctKeys(before, key)
    ensures DistinctKeys(after, key)
  {
  }

  lemma SameKeysBelow<T>(before: seq<T>, after: seq<T>, key: T -> int, bound: int)
    requires |after| == |before|
    requires forall i :: 0 <= i < |after| ==> key(after[i]) == key(before[i])
    requires KeysBelow(before, key, bound)
    ensures KeysBelow(after, key, bound)
  {
    forall x | x in after ensures key(x) < bound {
      var i :| 0 <= i < |after| && after[i] == x;
      assert before[i] in before;
    }
  }

  /** Deleting by `p` and then by `q` is deleting once by their disjunction `pq`. */
  lemma DeleteThenDelete<T(!new)>(rows: seq<T>, p: T -> bool, q: T -> bool, pq: T -> bool)
    requires forall x :: x in rows ==> pq(x) == (p(x) || q(x))
    ensures DeleteWhere(DeleteWhere(rows, p), q) == DeleteWhere(rows, pq)
  {
    SelectThenSelect(rows, x => !p(x), x => !q(x), x => !pq(x));
  }

  /** A DELETE whose condition holds of at most one row removes exactly one row if there is one: its `affectedRows`. */
  lemma {:induction false} DeleteAtMostOne<T(!new)>(rows: seq<T>, p: T -> bool)
    requires forall i, j :: 0 <= i < j < |rows| && p(rows[i]) ==> !p(rows[j])
    ensures |rows| - |DeleteWhere(rows, p)| == if exists x :: x in rows && p(x) then 1 else 0
    decreases rows
  {
    if rows != [] {
      var tail := rows[1..];
      assert forall i, j :: 0 <= i < j < |tail| && p(tail[i]) ==> !p(tail[j]) by {
        forall i, j | 0 <= i < j < |tail| && p(tail[i]) ensures !p(tail[j]) {
          assert tail[i] == rows[i + 1] && tail[j] == rows[j + 1];
        }
      }
      DeleteAtMostOne(tail, p);
      assert DeleteWhere(rows, p) == (if !p(rows[0]) then [rows[0]] else []) + DeleteWhere(tail, p);
      if p(rows[0]) {
        forall x | x in tail ensures !p(x) {
          var j :| 0 <= j < |tail| && tail[j] == x;
          assert rows[j + 1] == x;
        }
        SelectAll(tail, x => !p(x));
      } else {
        assert (exists x :: x in rows && p(x)) <==> (exists x :: x in tail && p(x));
      }
    }
  }

  /** Filtering by `p` and then by `q` is filtering once by their conjunction `pq`. */
  lemma {:induction false} SelectThenSelect<T(!new)>(rows: seq<T>, p: T -> bool, q: T -> bool, pq: T -> bool)
    requires forall x :: x in rows ==> pq(x) == (p(x) && q(x))
    ensures Select(Select(rows, p), q) == Select(rows, pq)
    decreases rows
  {
    if rows != [] {
      SelectThenSelect(rows[1..], p, q, pq);
      var rest := Select(rows[1..], p);
      if p(rows[0]) {
        assert Select(rows, p) == [rows[0]] + rest;
        assert ([rows[0]] + rest)[1..] == rest;
      } else {
        assert Select(rows, p) == rest;
      }
    }
  }
}
