/**
 * The users table (server/DL/user.js): registration, lookups, profile updates, and
 * the two JSON id arrays an account carries: the accounts that reported it, and the
 * accounts it has received a service from.
 */
module UserData {
  import opened Wrappers
  import opened Schema
  import Sql
  import IdLists

  /** The fields `createUser` inserts; every other column takes its default. */
  datatype NewUser = NewUser(name: string, email: string, password: string, salt: string, role: Role)

  /** What `createUser` returns: the AUTO_INCREMENT id spread with the given fields. */
  datatype CreatedUser = CreatedUser(id: int, user: NewUser)

  /**
   * The object handed to `UPDATE users SET ?`: one entry per column it names.  A
   * `None` is a column the object does not mention.
   */
  datatype UserPatch = UserPatch(
    username: Option<string>,
    email: Option<string>,
    password: Option<string>,
    salt: Option<string>,
    about: Option<string>,
    resume: Option<string>,
    profilePicture: Option<string>,
    phone: Option<string>,
    rating: Option<real>,
    role: Option<Role>)

  /** `SET ?` with an object that names no column, which MySQL rejects. */
  predicate EmptyPatch(p: UserPatch) {
    && p.username.None? && p.email.None? && p.password.None? && p.salt.None?
    && p.about.None? && p.resume.None? && p.profilePicture.None? && p.phone.None?
    && p.rating.None? && p.role.None?
  }

  /** The row INSERT produces: the given fields, NULL or 0 for the rest. */
  function NewUserRow(id: int, user: NewUser): (r: UserRow)
    ensures r.id == id && r.username == user.name && r.email == user.email
    ensures r.password == user.password && r.salt == user.salt && r.role == user.role
    ensures r.reportIds.None? && r.receivedServiceIds.None? && r.rating == 0.0
  {
    UserRow(id, user.name, user.password, user.salt, user.email, None, None, None, None, 0.0, user.role, None, None)
  }

  /** `getUserByEmail`: the first account with that email, or nothing. */
  function GetUserByEmail(users: seq<UserRow>, email: string): (r: Option<UserRow>)
    ensures r.None? <==> forall u :: u in users ==> u.email != email
    ensures r.Some? ==> r.value in users && r.value.email == email
  {
    Sql.FirstWhere(users, (u: UserRow) => u.email == email)
  }

  /** `getUserById`: the account with that id, or nothing. */
  function GetUserById(users: seq<UserRow>, id: int): (r: Option<UserRow>)
    ensures r.None? <==> forall u :: u in users ==> u.id != id
    ensures r.Some? ==> r.value in users && r.value.id == id
  {
    Sql.FirstWhere(users, (u: UserRow) => u.id == id)
  }

  /** With distinct ids, the account found by id is the row holding that id. */
  lemma UserByIdUnique(users: seq<UserRow>, i: int)
    requires Sql.DistinctKeys(users, UserKey) && 0 <= i < |users|
    ensures GetUserById(users, users[i].id) == Some(users[i])
  {
    var u := GetUserById(users, users[i].id).value;
    var j :| 0 <= j < |users| && users[j] == u;
    assert UserKey(users[i]) == UserKey(users[j]);
  }

  /** A freshly inserted account is what lookups by its id, and by a so far unused email, find. */
  lemma CreatedUserIsFound(users: seq<UserRow>, id: int, user: NewUser)
    requires forall u :: u in users ==> u.id != id
    ensures GetUserById(users + [NewUserRow(id, user)], id) == Some(NewUserRow(id, user))
    ensures (forall u :: u in users ==> u.email != user.email) ==>
      GetUserByEmail(users + [NewUserRow(id, user)], user.email) == Some(NewUserRow(id, user))
  {
    var all := users + [NewUserRow(id, user)];
    var r := GetUserById(all, id);
    assert NewUserRow(id, user) in all;
    assert r.value in users || r.value == NewUserRow(id, user);
    if forall u :: u in users ==> u.email != user.email {
      var e := GetUserByEmail(all, user.email);
      assert e.value in users || e.value == NewUserRow(id, user);
    }
  }

  /** The row after `SET ?`: each column the patch names takes its value; the rest, the id and the id arrays keep theirs. */
  function ApplyPatch(u: UserRow, p: UserPatch): (r: UserRow)
    ensures r.id == u.id && r.reportIds == u.reportIds && r.receivedServiceIds == u.receivedServiceIds
    ensures r.username == p.username.GetOr(u.username) && r.email == p.email.GetOr(u.email)
    ensures r.password == p.password.GetOr(u.password) && r.salt == p.salt.GetOr(u.salt)
    ensures r.about == (if p.about.Some? then p.about else u.about)
    ensures r.resume == (if p.resume.Some? then p.resume else u.resume)
    ensures r.profilePicture == (if p.profilePicture.Some? then p.profilePicture else u.profilePicture)
    ensures r.phone == (if p.phone.Some? then p.phone else u.phone)
    ensures r.rating == p.rating.GetOr(u.rating) && r.role == p.role.GetOr(u.role)
    ensures EmptyPatch(p) ==> r == u
  {
    u.(username := p.username.GetOr(u.username),
       email := p.email.GetOr(u.email),
       password := p.password.GetOr(u.password),
       salt := p.salt.GetOr(u.salt),
       about := if p.about.Some? then p.about else u.about,
       resume := if p.resume.Some? then p.resume else u.resume,
       profilePicture := if p.profilePicture.Some? then p.profilePicture else u.profilePicture,
       phone := if p.phone.Some? then p.phone else u.phone,
       rating := p.rating.GetOr(u.rating),
       role := p.role.GetOr(u.role))
  }

  /** `UPDATE users SET ? WHERE id = ?`. */
  function PatchUser(users: seq<UserRow>, id: int, p: UserPatch): (r: seq<UserRow>)
    ensures |r| == |users|
    ensures forall i :: 0 <= i < |r| ==> r[i] == if users[i].id == id then ApplyPatch(users[i], p) else users[i]
  {
    Sql.UpdateWhere(users, (u: UserRow) => u.id == id, (u: UserRow) => ApplyPatch(u, p))
  }

  /** After the update, the account is found under its id with the patch applied, or is still absent. */
  lemma PatchedUserIsFound(users: seq<UserRow>, id: int, p: UserPatch)
    requires Sql.DistinctKeys(users, UserKey)
    ensures GetUserById(PatchUser(users, id, p), id) ==
      match GetUserById(users, id)
      case None => None
      case Some(u) => Some(ApplyPatch(u, p))
  {
    var after := PatchUser(users, id, p);
    Sql.SameKeys(users, after, UserKey);
    match GetUserById(users, id)
    case None =>
      forall v | v in after ensures v.id != id {
        var i :| 0 <= i < |after| && after[i] == v;
        assert users[i] in users;
      }
    case Some(u) =>
      var i :| 0 <= i < |users| && users[i] == u;
      UserByIdUnique(after, i);
  }

  /** A rewrite of the users table that keeps each row's id and the well-formedness of its arrays. */
  lemma UsersStayValid(before: seq<UserRow>, after: seq<UserRow>, bound: int)
    requires Sql.DistinctKeys(before, UserKey) && Sql.KeysBelow(before, UserKey, bound)
    requires UserListsWellFormed(before)
    requires |after| == |before|
    requires forall i :: 0 <= i < |after| ==>
      after[i].id == before[i].id && (ListsWellFormed(before[i]) ==> ListsWellFormed(after[i]))
    ensures Sql.DistinctKeys(after, UserKey) && Sql.KeysBelow(after, UserKey, bound)
    ensures UserListsWellFormed(after)
  {
    Sql.SameKeys(before, after, UserKey);
    Sql.SameKeysBelow(before, after, UserKey, bound);
    forall v | v in after ensures ListsWellFormed(v) {
      var i :| 0 <= i < |after| && after[i] == v;
      assert before[i] in before;
    }
  }

  /** `UPDATE users SET report_ids = ? WHERE id = ?`. */
  function SetReportIds(users: seq<UserRow>, id: int, reports: seq<int>): (r: seq<UserRow>)
    ensures |r| == |users|
    ensures forall i :: 0 <= i < |r| ==>
      r[i] == if users[i].id == id then users[i].(reportIds := Some(reports)) else users[i]
  {
    Sql.UpdateWhere(users, (u: UserRow) => u.id == id, (u: UserRow) => u.(reportIds := Some(reports)))
  }

  /**
   * The table after `reportUser`: a NULL list counts as empty, the reporter is appended
   * unless already there, and an account that does not exist is left alone.
   */
  function Report(users: seq<UserRow>, reported: int, reporter: int): (r: seq<UserRow>)
    ensures |r| == |users|
    ensures forall i :: 0 <= i < |r| && users[i].id != reported ==> r[i] == users[i]
    ensures Sql.DistinctKeys(users, UserKey) ==> forall i :: 0 <= i < |r| && users[i].id == reported ==>
      r[i] == users[i].(reportIds := Some(IdLists.Add(users[i].reportIds.GetOr([]), reporter)))
  {
    match GetUserById(users, reported)
    case None => users
    case Some(u) =>
      assert Sql.DistinctKeys(users, UserKey) ==> forall i :: 0 <= i < |users| && users[i].id == reported ==> users[i] == u by {
        if Sql.DistinctKeys(users, UserKey) {
          forall i | 0 <= i < |users| && users[i].id == reported ensures users[i] == u {
            UserByIdUnique(users, i);
          }
        }
      }
      SetReportIds(users, reported, IdLists.Add(u.reportIds.GetOr([]), reporter))
  }

  /** After a report the reporter is on the account's list, and every other row is unchanged. */
  lemma ReportRecordsReporter(users: seq<UserRow>, reported: int, reporter: int)
    requires Sql.DistinctKeys(users, UserKey)
    requires GetUserById(users, reported).Some?
    ensures var u := GetUserById(Report(users, reported, reporter), reported);
      u.Some? && u.value.reportIds.Some? && reporter in u.value.reportIds.value
    ensures forall i :: 0 <= i < |users| && users[i].id != reported ==> Report(users, reported, reporter)[i] == users[i]
  {
    var u := GetUserById(users, reported).value;
    var i :| 0 <= i < |users| && users[i] == u;
    var after := Report(users, reported, reporter);
    Sql.SameKeys(users, after, UserKey);
    UserByIdUnique(after, i);
  }

  /** Writing back the report list an account already has changes nothing. */
  lemma SetSameReports(users: seq<UserRow>, u: UserRow)
    requires Sql.DistinctKeys(users, UserKey) && u in users && u.reportIds.Some?
    ensures SetReportIds(users, u.id, u.reportIds.value) == users
  {
    var r := SetReportIds(users, u.id, u.reportIds.value);
    var k :| 0 <= k < |users| && users[k] == u;
    forall i | 0 <= i < |r| ensures r[i] == users[i] {
      if users[i].id == u.id {
        assert UserKey(users[i]) == UserKey(users[k]);
      }
    }
  }

  /** Reporting twice is reporting once. */
  lemma ReportIdempotent(users: seq<UserRow>, reported: int, reporter: int)
    requires Sql.DistinctKeys(users, UserKey)
    ensures Report(Report(users, reported, reporter), reported, reporter) == Report(users, reported, reporter)
  {
    if GetUserById(users, reported).Some? {
      var u := GetUserById(users, reported).value;
      var i :| 0 <= i < |users| && users[i] == u;
      var l := IdLists.Add(u.reportIds.GetOr([]), reporter);
      var once := SetReportIds(users, reported, l);
      Sql.SameKeys(users, once, UserKey);
      UserByIdUnique(once, i);
      assert IdLists.Add(l, reporter) == l;
      SetSameReports(once, once[i]);
    }
  }

  /** `received_service_ids` with NULL replaced by the empty array: the first UPDATE of `addUserToReceivedServiceList`. */
  function InitReceived(users: seq<UserRow>, id: int): (r: seq<UserRow>)
    ensures |r| == |users|
    ensures forall i :: 0 <= i < |r| ==> r[i].id == users[i].id
  {
    Sql.UpdateWhere(users, (u: UserRow) => u.id == id,
      (u: UserRow) => u.(receivedServiceIds := Some(u.receivedServiceIds.GetOr([]))))
  }

  /**
   * The second UPDATE: `JSON_ARRAY_APPEND` on the rows with that id whose array does not
   * contain the new id.  A NULL array makes `NOT JSON_CONTAINS` NULL, so such a row is not matched.
   */
  function AppendReceived(users: seq<UserRow>, id: int, received: int): (r: seq<UserRow>)
    ensures |r| == |users|
    ensures forall i :: 0 <= i < |r| ==> r[i].id == users[i].id
  {
    Sql.UpdateWhere(users,
      (u: UserRow) => u.id == id && u.receivedServiceIds.Some? && received !in u.receivedServiceIds.value,
      (u: UserRow) => u.(receivedServiceIds := Some(u.receivedServiceIds.GetOr([]) + [received])))
  }

  /** What `addUserToReceivedServiceList` is meant to do: add the id to the account's array, treating NULL as empty. */
  function AddReceived(users: seq<UserRow>, id: int, received: int): (r: seq<UserRow>)
    ensures |r| == |users|
    ensures forall i :: 0 <= i < |r| ==> r[i].id == users[i].id
    ensures forall i :: 0 <= i < |r| && users[i].id != id ==> r[i] == users[i]
    ensures forall i :: 0 <= i < |r| && users[i].id == id ==>
      r[i] == users[i].(receivedServiceIds := Some(IdLists.Add(users[i].receivedServiceIds.GetOr([]), received)))
  {
    Sql.UpdateWhere(users, (u: UserRow) => u.id == id,
      (u: UserRow) => u.(receivedServiceIds := Some(IdLists.Add(u.receivedServiceIds.GetOr([]), received))))
  }

  /** The two UPDATE statements together add the id to the array, treating NULL as empty. */
  lemma TwoUpdatesAddReceived(users: seq<UserRow>, id: int, received: int)
    ensures AppendReceived(InitReceived(users, id), id, received) == AddReceived(users, id, received)
  {
    var mid := InitReceived(users, id);
    var two := AppendReceived(mid, id, received);
    var spec := AddReceived(users, id, received);
    forall i | 0 <= i < |users| ensures two[i] == spec[i] {
      if users[i].id == id {
        assert mid[i].receivedServiceIds == Some(users[i].receivedServiceIds.GetOr([]));
      }
    }
  }

  /** Accepting the same account twice is accepting it once. */
  lemma AddReceivedIdempotent(users: seq<UserRow>, id: int, received: int)
    ensures AddReceived(AddReceived(users, id, received), id, received) == AddReceived(users, id, received)
  {
    var once := AddReceived(users, id, received);
    var twice := AddReceived(once, id, received);
    forall i | 0 <= i < |users| ensures twice[i] == once[i] {
      if users[i].id == id {
        var l := once[i].receivedServiceIds.value;
        assert IdLists.Add(l, received) == l;
      }
    }
  }

  /** `createUser`: inserts the account under the next id and returns that id with the given fields. */
  method CreateUser(db: Database, user: NewUser) returns (created: CreatedUser)
    requires db.Valid()
    modifies db`users, db`nextUserId
    ensures db.Valid()
    ensures created == CreatedUser(old(db.nextUserId), user)
    ensures forall u :: u in old(db.users) ==> u.id != created.id
    ensures db.users == old(db.users) + [NewUserRow(created.id, user)]
  {
    var id := db.nextUserId;
    var row := NewUserRow(id, user);
    Sql.AppendKeepsDistinctKeys(db.users, row, UserKey);
    db.users := db.users + [row];
    db.nextUserId := id + 1;
    created := CreatedUser(id, user);
  }

  /**
   * `updateUser`: nothing when no row has the id (`affectedRows` is 0), otherwise the row
   * read back after the update.  A patch naming no column is a syntax error.
   */
  method UpdateUser(db: Database, userId: int, patch: UserPatch) returns (r: Result<Option<UserRow>, Error>)
    requires db.Valid()
    modifies db`users
    ensures db.Valid()
    ensures EmptyPatch(patch) ==> r == Failure(BadQuery) && db.users == old(db.users)
    ensures !EmptyPatch(patch) ==> db.users == PatchUser(old(db.users), userId, patch)
    ensures !EmptyPatch(patch) ==> r == Success(
      match GetUserById(old(db.users), userId)
      case None => None
      case Some(u) => Some(ApplyPatch(u, patch)))
  {
    if EmptyPatch(patch) {
      return Failure(BadQuery);
    }
    var found := GetUserById(db.users, userId);
    var updated := PatchUser(db.users, userId, patch);
    UsersStayValid(db.users, updated, db.nextUserId);
    PatchedUserIsFound(db.users, userId, patch);
    db.users := updated;
    if found.None? {
      return Success(None);
    }
    r := Success(GetUserById(db.users, userId));
  }

  /**
   * `reportUser`: read the account's `report_ids`, treat NULL as empty, push the reporter
   * unless it is already there, write the array back.  An account that does not exist
   * makes the code dereference `undefined`.
   */
  method ReportUser(db: Database, reportedUserId: int, reporterUserId: int) returns (r: Outcome<Error>)
    requires db.Valid()
    modifies db`users
    ensures db.Valid()
    ensures r == (if GetUserById(old(db.users), reportedUserId).None? then Fail(MissingRow) else Pass)
    ensures db.users == Report(old(db.users), reportedUserId, reporterUserId)
  {
    var row := GetUserById(db.users, reportedUserId);
    if row.None? {
      return Fail(MissingRow);
    }
    var reports := row.value.reportIds.GetOr([]);
    if |reports| == 0 || reporterUserId !in reports {
      reports := reports + [reporterUserId];
      var updated := SetReportIds(db.users, reportedUserId, reports);
      assert row.value in db.users;
      UsersStayValid(db.users, updated, db.nextUserId);
      db.users := updated;
    } else {
      SetSameReports(db.users, row.value);
    }
    r := Pass;
  }

  /**
   * `addUserToReceivedServiceList`: the two UPDATE statements.  An account that does not
   * exist matches neither, and nothing is thrown.
   */
  method AddUserToReceivedServiceList(db: Database, userId: int, receivedUserId: int)
    requires db.Valid()
    modifies db`users
    ensures db.Valid()
    ensures db.users == AddReceived(old(db.users), userId, receivedUserId)
  {
    TwoUpdatesAddReceived(db.users, userId, receivedUserId);
    var spec := AddReceived(db.users, userId, receivedUserId);
    forall i | 0 <= i < |spec| ensures ListsWellFormed(db.users[i]) ==> ListsWellFormed(spec[i]) {
    }
    UsersStayValid(db.users, spec, db.nextUserId);
    db.users := InitReceived(db.users, userId);
    db.users := AppendReceived(db.users, userId, receivedUserId);
  }
}
