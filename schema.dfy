/**
 * The four tables of the marketplace store (users, services, comments, ratings),
 * their keys and foreign keys, and the sentinel account `deleted_user` (id -1) that
 * comments of deleted accounts are handed to.
 */
module Schema {
  import opened Wrappers
  import Sql
  import IdLists

  /** `role ENUM('user', 'admin')`. */
  datatype Role = UserRole | AdminRole

  /** `type ENUM('request', 'offer')` of a listing. */
  datatype ServiceType = Request | Offer

  /** A row of `users`.  `rating` is the stored average; the two id lists are JSON columns that may be NULL. */
  datatype UserRow = UserRow(
    id: int,
    username: string,
    password: string,
    salt: string,
    email: string,
    about: Option<string>,
    resume: Option<string>,
    profilePicture: Option<string>,
    phone: Option<string>,
    rating: real,
    role: Role,
    reportIds: Option<seq<int>>,
    receivedServiceIds: Option<seq<int>>)

  /** A row of `services`: a listing. */
  datatype ServiceRow = ServiceRow(
    id: int,
    userId: int,
    kind: ServiceType,
    title: string,
    description: string,
    category: string,
    subcategories: seq<string>,
    compensation: string,
    createdAt: int,
    isOpen: bool)

  /** A row of `comments`. */
  datatype CommentRow = CommentRow(id: int, serviceId: int, userId: int, text: string, likes: seq<int>)

  /** A row of `ratings`. */
  datatype RatingRow = RatingRow(userId: int, raterId: int, rating: int)

  /** What an operation can throw. */
  datatype Error =
    | MissingRow               // a row the code dereferences was absent: a TypeError on `undefined`
    | BadQuery                 // MySQL rejected the statement
    | Thrown(message: string)  // `throw new Error(message)`

  /** The account that authored comments are reassigned to when their author is deleted. */
  const DeletedUserId := -1
  const DeletedUser := UserRow(DeletedUserId, "deleted_user", "", "", "", None, None, None, None, 0.0, UserRole, None, None)

  function UserKey(u: UserRow): int { u.id }
  function ServiceKey(s: ServiceRow): int { s.id }
  function CommentKey(c: CommentRow): int { c.id }
  /** `UNIQUE KEY unique_rating (user_id, rater_id)`. */
  function RatingKey(r: RatingRow): (int, int) { (r.userId, r.raterId) }

  /** The JSON id arrays of an account row never repeat an id. */
  ghost predicate ListsWellFormed(u: UserRow) {
    && (u.reportIds.Some? ==> IdLists.NoDuplicates(u.reportIds.value))
    && (u.receivedServiceIds.Some? ==> IdLists.NoDuplicates(u.receivedServiceIds.value))
  }

  ghost predicate UserListsWellFormed(users: seq<UserRow>) {
    forall u :: u in users ==> ListsWellFormed(u)
  }

  /** No comment is liked twice by the same account. */
  ghost predicate LikesWellFormed(comments: seq<CommentRow>) {
    forall c :: c in comments ==> IdLists.NoDuplicates(c.likes)
  }

  ghost predicate UserExists(users: seq<UserRow>, id: int) {
    exists u :: u in users && u.id == id
  }

  ghost predicate ServiceExists(services: seq<ServiceRow>, id: int) {
    exists s :: s in services && s.id == id
  }

  /** The FOREIGN KEY clauses of the schema: every reference names an existing row. */
  ghost predicate ReferentialIntegrity(
    users: seq<UserRow>, services: seq<ServiceRow>, comments: seq<CommentRow>, ratings: seq<RatingRow>)
  {
    && (forall s :: s in services ==> UserExists(users, s.userId))
    && (forall c :: c in comments ==> ServiceExists(services, c.serviceId) && UserExists(users, c.userId))
    && (forall r :: r in ratings ==> UserExists(users, r.userId) && UserExists(users, r.raterId))
  }

  /** The comments table's share of the store invariant. */
  ghost predicate CommentsValid(comments: seq<CommentRow>, nextCommentId: int) {
    && Sql.DistinctKeys(comments, CommentKey) && Sql.KeysBelow(comments, CommentKey, nextCommentId)
    && LikesWellFormed(comments)
  }

  /** The store.  Each table is the sequence of its rows in primary-key order. */
  class Database {
    var users: seq<UserRow>
    var services: seq<ServiceRow>
    var comments: seq<CommentRow>
    var ratings: seq<RatingRow>
    /** The AUTO_INCREMENT counters: the id the next INSERT receives. */
    var nextUserId: int
    var nextServiceId: int
    var nextCommentId: int

    /** Primary and unique keys hold, counters are ahead of every id, and no id array has duplicates. */
    ghost predicate Valid()
      reads this
    {
      && Sql.DistinctKeys(users, UserKey) && Sql.KeysBelow(users, UserKey, nextUserId)
      && Sql.DistinctKeys(services, ServiceKey) && Sql.KeysBelow(services, ServiceKey, nextServiceId)
      && CommentsValid(comments, nextCommentId)
      && Sql.DistinctKeys(ratings, RatingKey)
      && UserListsWellFormed(users)
    }

    /** The store right after the tables are created: empty, except for the sentinel account. */
    constructor ()
      ensures Valid()
      ensures users == [DeletedUser] && services == [] && comments == [] && ratings == []
    {
      users := [DeletedUser];
      services := [];
      comments := [];
      ratings := [];
      nextUserId := 1;
      nextServiceId := 1;
      nextCommentId := 1;
    }
  }
}
