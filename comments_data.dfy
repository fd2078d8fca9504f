/**
 * The comments table: the negotiation thread under each listing, and its like sets
 * (server/DL/comments.js).
 */
module CommentsData {
  import opened Wrappers
  import opened Schema
  import Sql
  import Js
  import IdLists

  /** `getCommentsByServiceId`: the thread of one listing. */
  function GetCommentsByServiceId(comments: seq<CommentRow>, serviceId: int): (r: seq<CommentRow>)
    ensures forall c :: c in r <==> c in comments && c.serviceId == serviceId
  {
    Sql.Select(comments, (c: CommentRow) => c.serviceId == serviceId)
  }

  /** `getCommentById`: the row with that id, or nothing. */
  function GetCommentById(comments: seq<CommentRow>, id: int): (r: Option<CommentRow>)
    ensures r.None? <==> forall c :: c in comments ==> c.id != id
    ensures r.Some? ==> r.value in comments && r.value.id == id
  {
    Sql.FirstWhere(comments, (c: CommentRow) => c.id == id)
  }

  /** In a table with distinct ids the row found by id is the only one with that id. */
  lemma CommentByIdUnique(comments: seq<CommentRow>, id: int, i: int)
    requires Sql.DistinctKeys(comments, CommentKey)
    requires 0 <= i < |comments| && comments[i].id == id
    ensures GetCommentById(comments, id) == Some(comments[i])
  {
    var c := GetCommentById(comments, id).value;
    var j :| 0 <= j < |comments| && comments[j] == c;
    assert CommentKey(comments[i]) == CommentKey(comments[j]);
  }

  /** `UPDATE comments SET text = ? WHERE id = ?`: only the text of that comment changes. */
  function EditText(comments: seq<CommentRow>, id: int, text: string): (r: seq<CommentRow>)
    ensures |r| == |comments|
    ensures forall i :: 0 <= i < |r| ==>
      && r[i].id == comments[i].id && r[i].serviceId == comments[i].serviceId
      && r[i].userId == comments[i].userId && r[i].likes == comments[i].likes
      && r[i].text == if comments[i].id == id then text else comments[i].text
  {
    Sql.UpdateWhere(comments, (c: CommentRow) => c.id == id, (c: CommentRow) => c.(text := text))
  }

  /** `UPDATE comments SET likes = ? WHERE id = ?`: only the likes of that comment change. */
  function SetLikes(comments: seq<CommentRow>, id: int, likes: seq<int>): (r: seq<CommentRow>)
    ensures |r| == |comments|
    ensures forall i :: 0 <= i < |r| ==>
      && r[i].id == comments[i].id && r[i].serviceId == comments[i].serviceId
      && r[i].userId == comments[i].userId && r[i].text == comments[i].text
      && r[i].likes == if comments[i].id == id then likes else comments[i].likes
  {
    Sql.UpdateWhere(comments, (c: CommentRow) => c.id == id, (c: CommentRow) => c.(likes := likes))
  }

  /** Writing back the likes a comment already has changes nothing. */
  lemma SetSameLikes(comments: seq<CommentRow>, c: CommentRow)
    requires Sql.DistinctKeys(comments, CommentKey) && c in comments
    ensures SetLikes(comments, c.id, c.likes) == comments
  {
    var r := SetLikes(comments, c.id, c.likes);
    var k :| 0 <= k < |comments| && comments[k] == c;
    forall i | 0 <= i < |r| ensures r[i] == comments[i] {
      if comments[i].id == c.id {
        assert CommentKey(comments[i]) == CommentKey(comments[k]);
      }
    }
  }

  /** `DELETE FROM comments WHERE id = ?`. */
  function RemoveComment(comments: seq<CommentRow>, id: int): (r: seq<CommentRow>)
    ensures forall c :: c in r <==> c in comments && c.id != id
  {
    Sql.DeleteWhere(comments, (c: CommentRow) => c.id == id)
  }

  /** `DELETE FROM comments WHERE serviceId = ?`: the thread of that listing goes, every other comment stays. */
  function RemoveServiceComments(comments: seq<CommentRow>, serviceId: int): (r: seq<CommentRow>)
    ensures forall c :: c in r <==> c in comments && c.serviceId != serviceId
    ensures GetCommentsByServiceId(r, serviceId) == []
  {
    var r := Sql.DeleteWhere(comments, (c: CommentRow) => c.serviceId == serviceId);
    Sql.SelectNone(r, (c: CommentRow) => c.serviceId == serviceId);
    r
  }

  /** Dropping rows keeps every invariant a row carries on its own, and the keys distinct. */
  lemma SubTableValid(comments: seq<CommentRow>, p: CommentRow -> bool, bound: int)
    requires Sql.DistinctKeys(comments, CommentKey) && Sql.KeysBelow(comments, CommentKey, bound)
    requires LikesWellFormed(comments)
    ensures Sql.DistinctKeys(Sql.DeleteWhere(comments, p), CommentKey)
    ensures Sql.KeysBelow(Sql.DeleteWhere(comments, p), CommentKey, bound)
    ensures LikesWellFormed(Sql.DeleteWhere(comments, p))
  {
    Sql.DeleteKeepsDistinctKeys(comments, p, CommentKey);
  }

  /** Rewriting columns other than `id` and `likes` keeps the invariants. */
  lemma SameKeysValid(old_: seq<CommentRow>, new_: seq<CommentRow>, bound: int)
    requires Sql.DistinctKeys(old_, CommentKey) && Sql.KeysBelow(old_, CommentKey, bound)
    requires LikesWellFormed(old_)
    requires |new_| == |old_|
    requires forall i :: 0 <= i < |new_| ==> new_[i].id == old_[i].id && new_[i].likes == old_[i].likes
    ensures Sql.DistinctKeys(new_, CommentKey) && Sql.KeysBelow(new_, CommentKey, bound)
    ensures LikesWellFormed(new_)
  {
    assert forall i :: 0 <= i < |new_| ==> CommentKey(new_[i]) == CommentKey(old_[i]);
    forall c | c in new_ ensures CommentKey(c) < bound && IdLists.NoDuplicates(c.likes) {
      var i :| 0 <= i < |new_| && new_[i] == c;
      assert old_[i] in old_;
    }
  }

  /** `addComment`: a new row with the next id, the given listing, author and text, and no likes. */
  method AddComment(db: Database, serviceId: int, userId: int, text: string) returns (id: int)
    requires db.Valid()
    modifies db`comments, db`nextCommentId
    ensures db.Valid()
    ensures id == old(db.nextCommentId)
    ensures forall c :: c in old(db.comments) ==> c.id != id
    ensures db.comments == old(db.comments) + [CommentRow(id, serviceId, userId, text, [])]
  {
    id := db.nextCommentId;
    var row := CommentRow(id, serviceId, userId, text, []);
    Sql.AppendKeepsDistinctKeys(db.comments, row, CommentKey);
    db.comments := db.comments + [row];
    db.nextCommentId := db.nextCommentId + 1;
  }

  /** `updateComment`. */
  method UpdateComment(db: Database, commentId: int, text: string)
    requires db.Valid()
    modifies db`comments
    ensures db.Valid()
    ensures db.comments == EditText(old(db.comments), commentId, text)
  {
    var updated := EditText(db.comments, commentId, text);
    SameKeysValid(db.comments, updated, db.nextCommentId);
    db.comments := updated;
  }

  /** `deleteComment`. */
  method DeleteComment(db: Database, commentId: int)
    requires db.Valid()
    modifies db`comments
    ensures db.Valid()
    ensures db.comments == RemoveComment(old(db.comments), commentId)
  {
    SubTableValid(db.comments, (c: CommentRow) => c.id == commentId, db.nextCommentId);
    db.comments := RemoveComment(db.comments, commentId);
  }

  /** `deleteAllComment`. */
  method DeleteAllComment(db: Database, serviceId: int)
    requires db.Valid()
    modifies db`comments
    ensures db.Valid()
    ensures db.comments == RemoveServiceComments(old(db.comments), serviceId)
  {
    SubTableValid(db.comments, (c: CommentRow) => c.serviceId == serviceId, db.nextCommentId);
    db.comments := RemoveServiceComments(db.comments, serviceId);
  }

  /**
   * `likeComment`: read the likes, push the account unless it is already there, write
   * them back.  A comment that does not exist makes the code dereference `undefined`.
   */
  method LikeComment(db: Database, commentId: int, userId: int) returns (r: Outcome<Error>)
    requires db.Valid()
    modifies db`comments
    ensures db.Valid()
    ensures GetCommentById(old(db.comments), commentId).None? ==>
      r == Fail(MissingRow) && db.comments == old(db.comments)
    ensures GetCommentById(old(db.comments), commentId).Some? ==>
      var c := GetCommentById(old(db.comments), commentId).value;
      r == Pass && db.comments == SetLikes(old(db.comments), commentId, IdLists.Add(c.likes, userId))
  {
    var row := GetCommentById(db.comments, commentId);
    if row.None? {
      return Fail(MissingRow);
    }
    var likes := row.value.likes;
    if |likes| == 0 || userId !in likes {
      likes := likes + [userId];
      assert likes == IdLists.Add(row.value.likes, userId);
      var updated := SetLikes(db.comments, commentId, likes);
      LikesStayWellFormed(db.comments, commentId, likes, db.nextCommentId);
      db.comments := updated;
    } else {
      SetSameLikes(db.comments, row.value);
    }
    r := Pass;
  }

  /**
   * `unlikeComment`: read the likes, splice out the account's first occurrence if there
   * is one, write them back.
   */
  method UnlikeComment(db: Database, commentId: int, userId: int) returns (r: Outcome<Error>)
    requires db.Valid()
    modifies db`comments
    ensures db.Valid()
    ensures GetCommentById(old(db.comments), commentId).None? ==>
      r == Fail(MissingRow) && db.comments == old(db.comments)
    ensures GetCommentById(old(db.comments), commentId).Some? ==>
      var c := GetCommentById(old(db.comments), commentId).value;
      r == Pass && db.comments == SetLikes(old(db.comments), commentId, IdLists.Remove(c.likes, userId))
  {
    var row := GetCommentById(db.comments, commentId);
    if row.None? {
      return Fail(MissingRow);
    }
    var likes := row.value.likes;
    var index := Js.IndexOf(likes, userId);
    if index > -1 {
      likes := likes[..index] + likes[index + 1..];
      IdLists.RemoveAtIndexOf(row.value.likes, userId);
      var updated := SetLikes(db.comments, commentId, likes);
      LikesStayWellFormed(db.comments, commentId, likes, db.nextCommentId);
      db.comments := updated;
    } else {
      SetSameLikes(db.comments, row.value);
    }
    r := Pass;
  }

  /** Replacing a comment's likes by a list without duplicates keeps the invariants. */
  lemma LikesStayWellFormed(comments: seq<CommentRow>, id: int, likes: seq<int>, bound: int)
    requires Sql.DistinctKeys(comments, CommentKey) && Sql.KeysBelow(comments, CommentKey, bound)
    requires LikesWellFormed(comments)
    requires IdLists.NoDuplicates(likes)
    ensures var r := SetLikes(comments, id, likes);
      Sql.DistinctKeys(r, CommentKey) && Sql.KeysBelow(r, CommentKey, bound) && LikesWellFormed(r)
  {
    var r := SetLikes(comments, id, likes);
    assert forall i :: 0 <= i < |r| ==> CommentKey(r[i]) == CommentKey(comments[i]);
    forall c | c in r ensures CommentKey(c) < bound && IdLists.NoDuplicates(c.likes) {
      var i :| 0 <= i < |r| && r[i] == c;
      assert comments[i] in comments;
    }
  }
}
