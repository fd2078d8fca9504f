/**
 * The JSON arrays of account ids kept in single columns: a comment's `likes`, an
 * account's `report_ids` and `received_service_ids`.  The code adds to them with
 * "push unless already included" and removes with "splice out the first index".
 */
module IdLists {
  import Js

  /** No id occurs twice. */
  ghost predicate NoDuplicates(l: seq<int>) {
    forall i, j :: 0 <= i < j < |l| ==> l[i] != l[j]
  }

  /** `if (!list.includes(id)) list.push(id)`: append the id unless it is already there. */
  function Add(l: seq<int>, id: int): (r: seq<int>)
    ensures id in r
    ensures forall x :: x in r <==> x in l || x == id
    ensures l <= r && |r| <= |l| + 1
    ensures id in l ==> r == l
    ensures NoDuplicates(l) ==> NoDuplicates(r)
  {
    if id in l then l else l + [id]
  }

  /** `const i = list.indexOf(id); if (i > -1) list.splice(i, 1)`: drop the first occurrence. */
  function Remove(l: seq<int>, id: int): (r: seq<int>)
    ensures id !in l ==> r == l
    ensures id in l ==> |r| == |l| - 1 && multiset(r) == multiset(l) - multiset{id}
    ensures id in l ==> exists i :: 0 <= i < |l| && l[i] == id && id !in l[..i] && r == l[..i] + l[i + 1..]
    ensures forall x :: x in r ==> x in l
    ensures NoDuplicates(l) ==> id !in r && NoDuplicates(r)
  {
    var i := Js.IndexOf(l, id);
    if i > -1 then SpliceOut(l, i); l[..i] + l[i + 1..] else l
  }

  /** `Remove` is the splice at the index `indexOf` finds. */
  lemma RemoveAtIndexOf(l: seq<int>, id: int)
    requires id in l
    ensures var i := Js.IndexOf(l, id); 0 <= i < |l| && Remove(l, id) == l[..i] + l[i + 1..]
  {
  }

  /** `list.splice(i, 1)` takes out one element and keeps the rest. */
  lemma SpliceOut(l: seq<int>, i: int)
    requires 0 <= i < |l|
    ensures |l[..i] + l[i + 1..]| == |l| - 1
    ensures multiset(l[..i] + l[i + 1..]) == multiset(l) - multiset{l[i]}
    ensures forall x :: x in l[..i] + l[i + 1..] ==> x in l
    ensures NoDuplicates(l) ==> l[i] !in l[..i] + l[i + 1..] && NoDuplicates(l[..i] + l[i + 1..])
  {
    assert l == l[..i] + [l[i]] + l[i + 1..];
    if NoDuplicates(l) {
      SpliceOutDistinct(l, i);
    }
  }

  lemma SpliceOutDistinct(l: seq<int>, i: int)
    requires 0 <= i < |l| && NoDuplicates(l)
    ensures l[i] !in l[..i] + l[i + 1..] && NoDuplicates(l[..i] + l[i + 1..])
  {
    var r := l[..i] + l[i + 1..];
    assert forall k :: 0 <= k < |r| ==> r[k] == if k < i then l[k] else l[k + 1];
    forall a, b | 0 <= a < b < |r| ensures r[a] != r[b] {
      var a' := if a < i then a else a + 1;
      var b' := if b < i then b else b + 1;
      assert r[a] == l[a'] && r[b] == l[b'] && a' < b';
    }
    forall k | 0 <= k < |r| ensures r[k] != l[i] {
      var k' := if k < i then k else k + 1;
      assert r[k] == l[k'] && k' != i;
    }
  }

  /** Adding twice is adding once. */
  lemma AddIdempotent(l: seq<int>, id: int)
    ensures Add(Add(l, id), id) == Add(l, id)
  {
  }

  /** Removing an id that was just added by someone not yet in the list restores the list. */
  lemma RemoveUndoesAdd(l: seq<int>, id: int)
    requires id !in l
    ensures Remove(Add(l, id), id) == l
  {
    Js.IndexOfAfterPrefix(l, id, []);
    assert l + [id] + [] == l + [id];
    assert (l + [id])[..|l|] == l;
  }

  /** Add, remove, add: the id ends up in the list exactly once. */
  lemma AddRemoveAdd(l: seq<int>, id: int)
    requires multiset(l)[id] <= 1
    ensures multiset(Add(Remove(Add(l, id), id), id))[id] == 1
  {
    if id in l {
      assert Remove(Add(l, id), id) == Remove(l, id);
      assert id !in Remove(l, id) by {
        assert multiset(Remove(l, id))[id] == 0;
      }
    } else {
      RemoveUndoesAdd(l, id);
    }
  }
}
