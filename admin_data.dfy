/**
 * The administrator's queries (server/DL/admin.js): the account list ordered by how
 * often each account was reported, the reporters of one account, and the cascade that
 * deletes an account together with what hangs off it.
 */
module AdminData {
  import opened Wrappers
  import opened Schema
  import Sql
  import IdLists
  import Ordering
  import UserData
  import CommentsData

  /** The columns `getReporters` selects. */
  datatype Reporter = Reporter(id: int, username: string, email: string)

  /** The accounts the administrator sees: role 'user', and not the sentinel. */
  predicate IsListedUser(u: UserRow) {
    u.role == UserRole && u.id != DeletedUserId
  }

  /** `JSON_LENGTH(report_ids)`, with NULL below every length: NULL sorts last under DESC. */
  function ReportCount(u: UserRow): (n: int)
    ensures n >= -1
    ensures u.reportIds.None? <==> n == -1
  {
    match u.reportIds
    case None => -1
    case Some(l) => |l|
  }

  function ReportRank(u: UserRow): seq<int> {
    [ReportCount(u)]
  }

  /** `getAllUsers`: the listed accounts, most reported first. */
  function GetAllUsers(users: seq<UserRow>): (r: seq<UserRow>)
    ensures multiset(r) == multiset(Sql.Select(users, IsListedUser))
    ensures forall u :: u in r <==> u in users && u.role == UserRole && u.id != DeletedUserId
    ensures Ordering.SortedDesc(r, ReportRank)
  {
    var listed := Sql.Select(users, IsListedUser);
    var r := Ordering.SortDesc(listed, ReportRank);
    Ordering.SameElements(r, listed);
    r
  }

  /** More reports never come after fewer in the administrator's list. */
  lemma MostReportedFirst(users: seq<UserRow>, i: int, j: int)
    requires 0 <= i < j < |GetAllUsers(users)|
    ensures ReportCount(GetAllUsers(users)[i]) >= ReportCount(GetAllUsers(users)[j])
  {
    var r := GetAllUsers(users);
    assert Ordering.AtLeast(ReportRank(r[i]), ReportRank(r[j]));
  }

  /** The ids on an account's report list; none when the account or its list is missing. */
  function ReportList(users: seq<UserRow>, userId: int): (l: seq<int>)
    ensures UserData.GetUserById(users, userId).None? ==> l == []
  {
    match UserData.GetUserById(users, userId)
    case None => []
    case Some(u) => u.reportIds.GetOr([])
  }

  function ReporterOf(u: UserRow): Reporter {
    Reporter(u.id, u.username, u.email)
  }

  /** `getReporters`: id, name and email of every account whose id is on the user's report list, in table order. */
  function GetReporters(users: seq<UserRow>, userId: int): (r: seq<Reporter>)
    ensures forall p :: p in r <==> exists u :: u in users && u.id in ReportList(users, userId) && p == ReporterOf(u)
  {
    var ids := ReportList(users, userId);
    var sel := Sql.Select(users, (u: UserRow) => u.id in ids);
    var r := seq(|sel|, i requires 0 <= i < |sel| => ReporterOf(sel[i]));
    forall u | u in sel ensures ReporterOf(u) in r {
      var i :| 0 <= i < |sel| && sel[i] == u;
      assert r[i] == ReporterOf(u);
    }
    forall p | p in r ensures exists u :: u in users && u.id in ids && p == ReporterOf(u) {
      var i :| 0 <= i < |r| && r[i] == p;
      assert sel[i] in sel;
    }
    r
  }

  /** Which statement of the cascade a storage failure hits. */
  datatype CascadeStep =
    | ReadUser
    | ReassignComments
    | ReadListings
    | DeleteListingComments(index: nat)  // the DELETE for the index-th listing of the account
    | DeleteListings
    | DeleteRatings
    | DeleteUserRow

  /** The position of a step in the cascade. */
  function Stage(step: CascadeStep): nat {
    match step
    case ReadUser => 0
    case ReassignComments => 1
    case ReadListings => 2
    case DeleteListingComments(_) => 3
    case DeleteListings => 4
    case DeleteRatings => 5
    case DeleteUserRow => 6
  }

  /**
   * The statement at which the cascade stops when the account owns `owned` listings: the
   * stage of the failing statement, or 7 when none fails.  A failure planted at a listing
   * index the loop never reaches does not happen.
   */
  function StopStage(fault: Option<CascadeStep>, owned: nat): (s: nat)
    ensures s <= 7
    ensures s == 3 <==> fault.Some? && fault.value.DeleteListingComments? && fault.value.index < owned
  {
    if fault.None? || (fault.value.DeleteListingComments? && fault.value.index >= owned) then 7
    else Stage(fault.value)
  }

  /** How many of the per-listing DELETEs took effect. */
  function CommentDeletes(fault: Option<CascadeStep>, owned: nat): (n: nat)
    ensures n <= owned
  {
    var stop := StopStage(fault, owned);
    if stop < 3 then 0 else if stop == 3 then fault.value.index else owned
  }

  /** `UPDATE comments SET userId = -1 WHERE userId = ?`. */
  function ReassignAuthor(comments: seq<CommentRow>, userId: int): (r: seq<CommentRow>)
    ensures |r| == |comments|
    ensures forall i :: 0 <= i < |r| ==>
      r[i] == if comments[i].userId == userId then comments[i].(userId := DeletedUserId) else comments[i]
  {
    Sql.UpdateWhere(comments, (c: CommentRow) => c.userId == userId,
      (c: CommentRow) => c.(userId := DeletedUserId))
  }

  /** `SELECT id FROM services WHERE userId = ?`, in table order. */
  function ListingIdsOf(services: seq<ServiceRow>, userId: int): (r: seq<int>)
    ensures forall id :: id in r <==> exists s :: s in services && s.userId == userId && s.id == id
  {
    if services == [] then []
    else
      var rest := ListingIdsOf(services[1..], userId);
      assert forall s :: s in services <==> s == services[0] || s in services[1..];
      (if services[0].userId == userId then [services[0].id] else []) + rest
  }

  /** The comments left once those under each of the listings `ids` are deleted. */
  function DropCommentsOn(comments: seq<CommentRow>, ids: seq<int>): (r: seq<CommentRow>)
    ensures forall c :: c in r <==> c in comments && c.serviceId !in ids
  {
    Sql.DeleteWhere(comments, (c: CommentRow) => c.serviceId in ids)
  }

  /** The per-listing `DELETE FROM comments WHERE serviceId = ?` adds its listing to those already cleared. */
  lemma DropCommentsOnStep(comments: seq<CommentRow>, ids: seq<int>, id: int)
    ensures CommentsData.RemoveServiceComments(DropCommentsOn(comments, ids), id) == DropCommentsOn(comments, ids + [id])
  {
    Sql.DeleteThenDelete(comments, (c: CommentRow) => c.serviceId in ids, (c: CommentRow) => c.serviceId == id,
      (c: CommentRow) => c.serviceId in ids + [id]);
  }

  /** `DELETE FROM services WHERE userId = ?`. */
  function RemoveListingsOf(services: seq<ServiceRow>, userId: int): (r: seq<ServiceRow>)
    ensures forall s :: s in r <==> s in services && s.userId != userId
  {
    Sql.DeleteWhere(services, (s: ServiceRow) => s.userId == userId)
  }

  /** `DELETE FROM ratings WHERE user_id = ? OR rater_id = ?`. */
  function RemoveRatingsOf(ratings: seq<RatingRow>, userId: int): (r: seq<RatingRow>)
    ensures forall x :: x in r <==> x in ratings && x.userId != userId && x.raterId != userId
  {
    Sql.DeleteWhere(ratings, (x: RatingRow) => x.userId == userId || x.raterId == userId)
  }

  /** `DELETE FROM users WHERE id = ?`. */
  function RemoveUser(users: seq<UserRow>, userId: int): (r: seq<UserRow>)
    ensures forall u :: u in r <==> u in users && u.id != userId
  {
    Sql.DeleteWhere(users, (u: UserRow) => u.id == userId)
  }

  /** The comments table after a complete cascade. */
  function CommentsAfterDelete(comments: seq<CommentRow>, services: seq<ServiceRow>, userId: int): seq<CommentRow> {
    DropCommentsOn(ReassignAuthor(comments, userId), ListingIdsOf(services, userId))
  }

  /** With distinct ids, deleting one account's row removes one row when the account exists and none otherwise. */
  lemma RemoveUserCount(users: seq<UserRow>, userId: int)
    requires Sql.DistinctKeys(users, UserKey)
    ensures |users| - |RemoveUser(users, userId)| == if UserExists(users, userId) then 1 else 0
  {
    Sql.DeleteAtMostOne(users, (u: UserRow) => u.id == userId);
  }

  /**
   * What a complete cascade leaves behind.  No comment, listing or rating mentions the
   * account any more; the comments it wrote under other accounts' listings survive with
   * the sentinel as author and otherwise unchanged; comments by others under listings
   * the account did not own are untouched.
   */
  lemma DeleteUserEffects(comments: seq<CommentRow>, services: seq<ServiceRow>, userId: int)
    requires userId != DeletedUserId
    ensures forall c :: c in CommentsAfterDelete(comments, services, userId) ==> c.userId != userId
    ensures forall c, s :: c in CommentsAfterDelete(comments, services, userId) && s in services && s.userId == userId ==>
      c.serviceId != s.id
    ensures forall c :: c in comments && c.serviceId !in ListingIdsOf(services, userId) ==>
      (if c.userId == userId then c.(userId := DeletedUserId) else c) in CommentsAfterDelete(comments, services, userId)
  {
    var owned := ListingIdsOf(services, userId);
    var reassigned := ReassignAuthor(comments, userId);
    forall c | c in CommentsAfterDelete(comments, services, userId) ensures c.userId != userId {
      var i :| 0 <= i < |reassigned| && reassigned[i] == c;
    }
    forall c | c in comments && c.serviceId !in owned
      ensures (if c.userId == userId then c.(userId := DeletedUserId) else c) in CommentsAfterDelete(comments, services, userId)
    {
      var i :| 0 <= i < |comments| && comments[i] == c;
      assert reassigned[i] in reassigned;
    }
  }

  /**
   * A complete cascade keeps every foreign key satisfied, provided the account is not
   * the sentinel and the sentinel exists to receive the reassigned comments.
   */
  lemma DeleteUserKeepsIntegrity(
    users: seq<UserRow>, services: seq<ServiceRow>, comments: seq<CommentRow>, ratings: seq<RatingRow>, userId: int)
    requires ReferentialIntegrity(users, services, comments, ratings)
    requires userId != DeletedUserId && UserExists(users, DeletedUserId)
    ensures ReferentialIntegrity(
      RemoveUser(users, userId), RemoveListingsOf(services, userId),
      CommentsAfterDelete(comments, services, userId), RemoveRatingsOf(ratings, userId))
  {
    var users' := RemoveUser(users, userId);
    var services' := RemoveListingsOf(services, userId);
    var owned := ListingIdsOf(services, userId);
    var reassigned := ReassignAuthor(comments, userId);
    var sentinel :| sentinel in users && sentinel.id == DeletedUserId;
    assert sentinel in users';
    forall s | s in services' ensures UserExists(users', s.userId) {
      var u :| u in users && u.id == s.userId;
      assert u in users';
    }
    forall c | c in CommentsAfterDelete(comments, services, userId)
      ensures ServiceExists(services', c.serviceId) && UserExists(users', c.userId)
    {
      var i :| 0 <= i < |reassigned| && reassigned[i] == c;
      assert comments[i] in comments;
      var s :| s in services && s.id == comments[i].serviceId;
      assert s in services';
      if comments[i].userId != userId {
        var u :| u in users && u.id == c.userId;
        assert u in users';
      }
    }
    forall x | x in RemoveRatingsOf(ratings, userId) ensures UserExists(users', x.userId) && UserExists(users', x.raterId) {
      var u :| u in users && u.id == x.userId;
      var v :| v in users && v.id == x.raterId;
      assert u in users' && v in users';
    }
  }

  /**
   * The `for` loop of `deleteUser`: one `DELETE FROM comments WHERE serviceId = ?` per
   * listing of the account, stopping at the first one storage fails on.
   */
  method DeleteListingThreads(db: Database, owned: seq<int>, fault: Option<CascadeStep>) returns (done: bool)
    requires db.Valid()
    modifies db`comments
    ensures db.Valid()
    ensures done <==> !(fault.Some? && fault.value.DeleteListingComments? && fault.value.index < |owned|)
    ensures db.comments == DropCommentsOn(old(db.comments), owned[..if done then |owned| else fault.value.index])
  {
    ghost var start := db.comments;
    Sql.DeleteNone(start, (c: CommentRow) => c.serviceId in []);
    var i := 0;
    while i < |owned|
      invariant 0 <= i <= |owned|
      invariant db.comments == DropCommentsOn(start, owned[..i])
      invariant CommentsValid(db.comments, db.nextCommentId)
      invariant fault.Some? && fault.value.DeleteListingComments? ==> fault.value.index >= i
      modifies db`comments
    {
      if fault.Some? && fault.value.DeleteListingComments? && fault.value.index == i {
        return false;
      }
      assert owned[..i + 1] == owned[..i] + [owned[i]];
      DeleteThread(db, start, owned[..i], owned[i]);
      i := i + 1;
    }
    assert owned[..i] == owned;
    done := true;
  }

  /** One iteration: `DELETE FROM comments WHERE serviceId = ?` for the next listing. */
  method DeleteThread(db: Database, ghost start: seq<CommentRow>, ghost dropped: seq<int>, serviceId: int)
    requires CommentsValid(db.comments, db.nextCommentId)
    requires db.comments == DropCommentsOn(start, dropped)
    modifies db`comments
    ensures CommentsValid(db.comments, db.nextCommentId)
    ensures db.comments == DropCommentsOn(start, dropped + [serviceId])
  {
    DropCommentsOnStep(start, dropped, serviceId);
    CommentsData.SubTableValid(db.comments, (c: CommentRow) => c.serviceId == serviceId, db.nextCommentId);
    db.comments := CommentsData.RemoveServiceComments(db.comments, serviceId);
  }

  /**
   * `deleteUser`: reassign the account's comments to the sentinel, delete the comments
   * under each of its listings, then its listings, the ratings it gave or received, and
   * its row; return the number of account rows deleted.  `fault` names the statement at
   * which storage fails, if any: the statements before it have taken effect, nothing
   * after it runs, and the caller sees the single message "Failed to delete user".
   */
  method DeleteUser(db: Database, userId: int, fault: Option<CascadeStep>) returns (r: Result<int, Error>)
    requires db.Valid()
    modifies db`users, db`services, db`comments, db`ratings
    ensures db.Valid()
    ensures var stop := StopStage(fault, |ListingIdsOf(old(db.services), userId)|);
      r == if stop == 7 then Success(if UserExists(old(db.users), userId) then 1 else 0)
           else Failure(Thrown("Failed to delete user"))
    ensures var owned := ListingIdsOf(old(db.services), userId);
      db.comments == if StopStage(fault, |owned|) <= 1 then old(db.comments)
        else DropCommentsOn(ReassignAuthor(old(db.comments), userId), owned[..CommentDeletes(fault, |owned|)])
    ensures db.services == if StopStage(fault, |ListingIdsOf(old(db.services), userId)|) > 4
      then RemoveListingsOf(old(db.services), userId) else old(db.services)
    ensures db.ratings == if StopStage(fault, |ListingIdsOf(old(db.services), userId)|) > 5
      then RemoveRatingsOf(old(db.ratings), userId) else old(db.ratings)
    ensures db.users == if StopStage(fault, |ListingIdsOf(old(db.services), userId)|) > 6
      then RemoveUser(old(db.users), userId) else old(db.users)
  {
    var failed := Failure(Thrown("Failed to delete user"));
    var owned := ListingIdsOf(db.services, userId);
    var stop := StopStage(fault, |owned|);
    // The account row is read for its file paths; the files are not part of this model.
    if stop == 0 {
      return failed;
    }
    if stop == 1 {
      return failed;
    }
    ReassignComments(db, userId);
    if stop == 2 {
      Sql.DeleteNone(db.comments, (c: CommentRow) => c.serviceId in []);
      return failed;
    }
    var done := DeleteListingThreads(db, owned, fault);
    if !done {
      return failed;
    }
    if stop == 4 {
      return failed;
    }
    DeleteListingsOf(db, userId);
    if stop == 5 {
      return failed;
    }
    DeleteRatingsOf(db, userId);
    if stop == 6 {
      return failed;
    }
    var affected := DeleteUserRow(db, userId);
    r := Success(affected);
  }

  /** `UPDATE comments SET userId = -1 WHERE userId = ?`. */
  method ReassignComments(db: Database, userId: int)
    requires db.Valid()
    modifies db`comments
    ensures db.Valid()
    ensures db.comments == ReassignAuthor(old(db.comments), userId)
  {
    var reassigned := ReassignAuthor(db.comments, userId);
    Sql.SameKeys(db.comments, reassigned, CommentKey);
    Sql.SameKeysBelow(db.comments, reassigned, CommentKey, db.nextCommentId);
    assert LikesWellFormed(reassigned) by {
      forall c | c in reassigned ensures IdLists.NoDuplicates(c.likes) {
        var i :| 0 <= i < |reassigned| && reassigned[i] == c;
        assert db.comments[i] in db.comments;
      }
    }
    db.comments := reassigned;
  }

  /** `DELETE FROM services WHERE userId = ?`. */
  method DeleteListingsOf(db: Database, userId: int)
    requires db.Valid()
    modifies db`services
    ensures db.Valid()
    ensures db.services == RemoveListingsOf(old(db.services), userId)
  {
    Sql.DeleteKeepsDistinctKeys(db.services, (s: ServiceRow) => s.userId == userId, ServiceKey);
    db.services := RemoveListingsOf(db.services, userId);
  }

  /** `DELETE FROM ratings WHERE user_id = ? OR rater_id = ?`. */
  method DeleteRatingsOf(db: Database, userId: int)
    requires db.Valid()
    modifies db`ratings
    ensures db.Valid()
    ensures db.ratings == RemoveRatingsOf(old(db.ratings), userId)
  {
    Sql.DeleteKeepsDistinctKeys(db.ratings, (x: RatingRow) => x.userId == userId || x.raterId == userId, RatingKey);
    db.ratings := RemoveRatingsOf(db.ratings, userId);
  }

  /** `DELETE FROM users WHERE id = ?`, returning `affectedRows`. */
  method DeleteUserRow(db: Database, userId: int) returns (affected: int)
    requires db.Valid()
    modifies db`users
    ensures db.Valid()
    ensures db.users == RemoveUser(old(db.users), userId)
    ensures affected == if UserExists(old(db.users), userId) then 1 else 0
  {
    Sql.DeleteKeepsDistinctKeys(db.users, (u: UserRow) => u.id == userId, UserKey);
    RemoveUserCount(db.users, userId);
    var remaining := RemoveUser(db.users, userId);
    affected := |db.users| - |remaining|;
    db.users := remaining;
  }
}
