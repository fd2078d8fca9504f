/**
 * The comments business logic (server/BL/comments.js), the router's rule that a new
 * comment is not blank (server/API/comments.js), and the browser's choice of which
 * account is recorded as having received a service when a comment is accepted
 * (client/src/components/Comments.js).
 */
module CommentsLogic {
  import opened Wrappers
  import opened Schema
  import Sql
  import Js
  import IdLists
  import CommentsData
  import UserData
  import RatingData

  /**
   * `checkValidation`: whether the comment's author is the caller.  A comment that does
   * not exist makes the code read `userId` of `undefined`.
   */
  function CheckValidation(comments: seq<CommentRow>, userId: int, commentId: int): (r: Result<bool, Error>)
    ensures r.Failure? <==> forall c :: c in comments ==> c.id != commentId
    ensures r.Failure? ==> r.error == MissingRow
    ensures Sql.DistinctKeys(comments, CommentKey) ==>
      (r == Success(true) <==> exists c :: c in comments && c.id == commentId && c.userId == userId)
  {
    match CommentsData.GetCommentById(comments, commentId)
    case None => Failure(MissingRow)
    case Some(c) =>
      assert Sql.DistinctKeys(comments, CommentKey) ==> forall d :: d in comments && d.id == commentId ==> d == c by {
        if Sql.DistinctKeys(comments, CommentKey) {
          forall d | d in comments && d.id == commentId ensures d == c {
            var i :| 0 <= i < |comments| && comments[i] == d;
            CommentsData.CommentByIdUnique(comments, commentId, i);
          }
        }
      }
      Success(c.userId == userId)
  }

  /**
   * `addComment`: a comment whose text is not blank (the router throws "empty comment"
   * otherwise) is stored with an empty like list; its new id is returned.
   */
  method AddComment(db: Database, serviceId: int, userId: int, text: string) returns (id: int)
    requires db.Valid()
    requires Js.Trim(text) != ""
    modifies db`comments, db`nextCommentId
    ensures db.Valid()
    ensures forall c :: c in old(db.comments) ==> c.id != id
    ensures db.comments == old(db.comments) + [CommentRow(id, serviceId, userId, text, [])]
  {
    id := CommentsData.AddComment(db, serviceId, userId, text);
  }

  /** A freshly added comment is found under its id, authored by the caller, with no likes. */
  lemma AddedCommentIsFound(comments: seq<CommentRow>, id: int, serviceId: int, userId: int, text: string)
    requires forall c :: c in comments ==> c.id != id
    ensures var after := comments + [CommentRow(id, serviceId, userId, text, [])];
      && CommentsData.GetCommentById(after, id) == Some(CommentRow(id, serviceId, userId, text, []))
      && CommentsData.GetCommentsByServiceId(after, serviceId) != []
  {
    var after := comments + [CommentRow(id, serviceId, userId, text, [])];
    assert CommentRow(id, serviceId, userId, text, []) in after;
    assert CommentsData.GetCommentById(after, id).value in comments || CommentsData.GetCommentById(after, id).value == after[|comments|];
    assert CommentRow(id, serviceId, userId, text, []) in CommentsData.GetCommentsByServiceId(after, serviceId);
  }

  /** `updateComment`: no check on the text, so a blank edit is stored. */
  method UpdateComment(db: Database, commentId: int, text: string)
    requires db.Valid()
    modifies db`comments
    ensures db.Valid()
    ensures db.comments == CommentsData.EditText(old(db.comments), commentId, text)
  {
    CommentsData.UpdateComment(db, commentId, text);
  }

  /** `deleteComment`. */
  method DeleteComment(db: Database, commentId: int)
    requires db.Valid()
    modifies db`comments
    ensures db.Valid()
    ensures db.comments == CommentsData.RemoveComment(old(db.comments), commentId)
  {
    CommentsData.DeleteComment(db, commentId);
  }

  /** `deleteAllComment`: the listing's thread is gone and every other comment stays. */
  method DeleteAllComment(db: Database, serviceId: int)
    requires db.Valid()
    modifies db`comments
    ensures db.Valid()
    ensures db.comments == CommentsData.RemoveServiceComments(old(db.comments), serviceId)
  {
    CommentsData.DeleteAllComment(db, serviceId);
  }

  /** `likeComment`. */
  method LikeComment(db: Database, commentId: int, userId: int) returns (r: Outcome<Error>)
    requires db.Valid()
    modifies db`comments
    ensures db.Valid()
    ensures db.comments == Liked(old(db.comments), commentId, userId)
    ensures r.Fail? <==> CommentsData.GetCommentById(old(db.comments), commentId).None?
  {
    r := CommentsData.LikeComment(db, commentId, userId);
  }

  /** `unlikeComment`. */
  method UnlikeComment(db: Database, commentId: int, userId: int) returns (r: Outcome<Error>)
    requires db.Valid()
    modifies db`comments
    ensures db.Valid()
    ensures db.comments == Unliked(old(db.comments), commentId, userId)
    ensures r.Fail? <==> CommentsData.GetCommentById(old(db.comments), commentId).None?
  {
    r := CommentsData.UnlikeComment(db, commentId, userId);
  }

  /**
   * The comments table after a like: the account added to the comment's likes unless
   * already there; every other comment, and a table without the comment, unchanged.
   */
  function Liked(comments: seq<CommentRow>, commentId: int, userId: int): (r: seq<CommentRow>)
    ensures |r| == |comments|
    ensures forall i :: 0 <= i < |r| && comments[i].id != commentId ==> r[i] == comments[i]
    ensures Sql.DistinctKeys(comments, CommentKey) ==> forall i :: 0 <= i < |r| && comments[i].id == commentId ==>
      r[i] == comments[i].(likes := IdLists.Add(comments[i].likes, userId))
  {
    match CommentsData.GetCommentById(comments, commentId)
    case None => comments
    case Some(c) =>
      assert Sql.DistinctKeys(comments, CommentKey) ==> forall i :: 0 <= i < |comments| && comments[i].id == commentId ==>
        comments[i] == c by {
        if Sql.DistinctKeys(comments, CommentKey) {
          forall i | 0 <= i < |comments| && comments[i].id == commentId ensures comments[i] == c {
            CommentsData.CommentByIdUnique(comments, commentId, i);
          }
        }
      }
      CommentsData.SetLikes(comments, commentId, IdLists.Add(c.likes, userId))
  }

  /**
   * The comments table after an unlike: the account's first entry spliced out of the
   * comment's likes; every other comment, and a table without the comment, unchanged.
   */
  function Unliked(comments: seq<CommentRow>, commentId: int, userId: int): (r: seq<CommentRow>)
    ensures |r| == |comments|
    ensures forall i :: 0 <= i < |r| && comments[i].id != commentId ==> r[i] == comments[i]
    ensures Sql.DistinctKeys(comments, CommentKey) ==> forall i :: 0 <= i < |r| && comments[i].id == commentId ==>
      r[i] == comments[i].(likes := IdLists.Remove(comments[i].likes, userId))
  {
    match CommentsData.GetCommentById(comments, commentId)
    case None => comments
    case Some(c) =>
      assert Sql.DistinctKeys(comments, CommentKey) ==> forall i :: 0 <= i < |comments| && comments[i].id == commentId ==>
        comments[i] == c by {
        if Sql.DistinctKeys(comments, CommentKey) {
          forall i | 0 <= i < |comments| && comments[i].id == commentId ensures comments[i] == c {
            CommentsData.CommentByIdUnique(comments, commentId, i);
          }
        }
      }
      CommentsData.SetLikes(comments, commentId, IdLists.Remove(c.likes, userId))
  }

  /** After the likes of one comment are rewritten, that comment is found with the new likes. */
  lemma SetLikesThenGet(comments: seq<CommentRow>, c: CommentRow, likes: seq<int>)
    requires Sql.DistinctKeys(comments, CommentKey) && c in comments
    ensures CommentsData.GetCommentById(CommentsData.SetLikes(comments, c.id, likes), c.id) == Some(c.(likes := likes))
  {
    var after := CommentsData.SetLikes(comments, c.id, likes);
    var i :| 0 <= i < |comments| && comments[i] == c;
    assert forall k :: 0 <= k < |after| ==> CommentKey(after[k]) == CommentKey(comments[k]);
    Sql.SameKeys(comments, after, CommentKey);
    assert after[i] == c.(likes := likes);
    CommentsData.CommentByIdUnique(after, c.id, i);
  }

  /** After a like the account is among the comment's likes, and no account is there twice. */
  lemma LikeRecordsLiker(comments: seq<CommentRow>, c: CommentRow, userId: int)
    requires Sql.DistinctKeys(comments, CommentKey) && LikesWellFormed(comments) && c in comments
    ensures var found := CommentsData.GetCommentById(Liked(comments, c.id, userId), c.id);
      found.Some? && userId in found.value.likes && IdLists.NoDuplicates(found.value.likes)
  {
    var i :| 0 <= i < |comments| && comments[i] == c;
    CommentsData.CommentByIdUnique(comments, c.id, i);
    SetLikesThenGet(comments, c, IdLists.Add(c.likes, userId));
  }

  /** Liking twice is liking once. */
  lemma LikeIdempotent(comments: seq<CommentRow>, commentId: int, userId: int)
    requires Sql.DistinctKeys(comments, CommentKey)
    ensures Liked(Liked(comments, commentId, userId), commentId, userId) == Liked(comments, commentId, userId)
  {
    match CommentsData.GetCommentById(comments, commentId)
    case None =>
    case Some(c) =>
      var once := Liked(comments, commentId, userId);
      var likes := IdLists.Add(c.likes, userId);
      SetLikesThenGet(comments, c, likes);
      assert forall k :: 0 <= k < |once| ==> CommentKey(once[k]) == CommentKey(comments[k]);
      Sql.SameKeys(comments, once, CommentKey);
      var c' := c.(likes := likes);
      assert IdLists.Add(likes, userId) == likes;
      assert c' in once;
      CommentsData.SetSameLikes(once, c');
  }

  /** A like by an account that had not liked the comment, followed by an unlike, restores the table. */
  lemma LikeThenUnlikeRestores(comments: seq<CommentRow>, commentId: int, userId: int)
    requires Sql.DistinctKeys(comments, CommentKey)
    requires forall c :: c in comments && c.id == commentId ==> userId !in c.likes
    ensures Unliked(Liked(comments, commentId, userId), commentId, userId) == comments
  {
    match CommentsData.GetCommentById(comments, commentId)
    case None =>
    case Some(c) =>
      var likes := IdLists.Add(c.likes, userId);
      var once := CommentsData.SetLikes(comments, commentId, likes);
      assert once == Liked(comments, commentId, userId);
      SetLikesThenGet(comments, c, likes);
      IdLists.RemoveUndoesAdd(c.likes, userId);
      assert Unliked(once, commentId, userId) == CommentsData.SetLikes(once, commentId, c.likes);
      SetLikesTwice(comments, commentId, likes, c.likes);
      CommentsData.SetSameLikes(comments, c);
  }

  /** The second rewrite of a comment's likes overrides the first. */
  lemma SetLikesTwice(comments: seq<CommentRow>, id: int, first: seq<int>, second: seq<int>)
    ensures CommentsData.SetLikes(CommentsData.SetLikes(comments, id, first), id, second) ==
      CommentsData.SetLikes(comments, id, second)
  {
  }

  /** Who is recorded as having received a service from whom when the listing's owner accepts a comment. */
  datatype Acceptance = Acceptance(user: int, received: int)

  /**
   * The owner accepting a comment on an offer records the commenter on the owner's list;
   * on a request, the owner on the commenter's list.
   */
  function AcceptDirection(ownerId: int, commenterId: int, kind: ServiceType): (a: Acceptance)
    ensures {a.user, a.received} == {ownerId, commenterId}
    ensures kind == Offer ==> a.user == ownerId && a.received == commenterId
    ensures kind == Request ==> a.user == commenterId && a.received == ownerId
  {
    if kind == Offer then Acceptance(ownerId, commenterId) else Acceptance(commenterId, ownerId)
  }

  /**
   * Accepting a comment and recording it makes the account whose list was written
   * ratable by the other party: on an offer the commenter may rate the owner, on a request
   * the owner may rate the commenter.
   */
  lemma AcceptEnablesRating(users: seq<UserRow>, ownerId: int, commenterId: int, kind: ServiceType)
    requires Sql.DistinctKeys(users, UserKey)
    requires ownerId != 0 && commenterId != 0
    requires var a := AcceptDirection(ownerId, commenterId, kind); UserExists(users, a.user)
    ensures var a := AcceptDirection(ownerId, commenterId, kind);
      var after := UserData.AddReceived(users, a.user, a.received);
      RatingData.HasReceivedServiceFrom(after, Some(a.user), Some(a.received))
    ensures var a := AcceptDirection(ownerId, commenterId, kind);
      var after := UserData.AddReceived(users, a.user, a.received);
      && (kind == Offer ==> RatingData.HasReceivedServiceFrom(after, Some(ownerId), Some(commenterId)))
      && (kind == Request ==> RatingData.HasReceivedServiceFrom(after, Some(commenterId), Some(ownerId)))
  {
    var a := AcceptDirection(ownerId, commenterId, kind);
    var after := UserData.AddReceived(users, a.user, a.received);
    var u :| u in users && u.id == a.user;
    var i :| 0 <= i < |users| && users[i] == u;
    assert forall k :: 0 <= k < |after| ==> UserKey(after[k]) == UserKey(users[k]);
    Sql.SameKeys(users, after, UserKey);
    UserData.UserByIdUnique(after, i);
  }
}
