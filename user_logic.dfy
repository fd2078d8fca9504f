/**
 * The account business logic (server/BL/user.js): the registration validator with its
 * email pattern, registration, login, lookup, profile update and password change.
 * bcrypt is an uninterpreted `hash(password, salt)` together with `saltOf`, which reads
 * the salt back out of a stored hash string; `bcrypt.compare` hashes the candidate with
 * the salt the stored hash carries, never with the `salt` column.  The salt `genSalt`
 * draws is a parameter.
 */
module UserLogic {
  import opened Wrappers
  import opened Schema
  import Sql
  import Js
  import UserData

  /** `[a-zA-Z]`. */
  predicate IsLetter(c: char) {
    'a' <= c <= 'z' || 'A' <= c <= 'Z'
  }

  /** `[a-zA-Z0-9.-]`: a character of the domain. */
  predicate IsDomainChar(c: char) {
    IsLetter(c) || '0' <= c <= '9' || c == '.' || c == '-'
  }

  /** `[a-zA-Z0-9._-]`: a character of the local part. */
  predicate IsLocalChar(c: char) {
    IsDomainChar(c) || c == '_'
  }

  predicate AllLocal(s: string) { forall k :: 0 <= k < |s| ==> IsLocalChar(s[k]) }
  predicate AllDomain(s: string) { forall k :: 0 <= k < |s| ==> IsDomainChar(s[k]) }
  predicate AllLetters(s: string) { forall k :: 0 <= k < |s| ==> IsLetter(s[k]) }

  /**
   * The language of `^[a-zA-Z0-9._-]+@[a-zA-Z0-9.-]+\.[a-zA-Z]{2,4}$`: a split of the
   * string into local part, `@`, domain, `.` and a top-level part of 2 to 4 letters.
   */
  ghost predicate MatchesEmailPattern(s: string) {
    exists i, j :: 0 < i && i + 1 < j < |s| && s[i] == '@' && s[j] == '.'
      && AllLocal(s[..i]) && AllDomain(s[i + 1..j]) && 2 <= |s| - (j + 1) <= 4 && AllLetters(s[j + 1..])
  }

  /**
   * The same pattern decided without search: no class of the pattern contains `@`, so the
   * `@` is the first one; the top-level part holds no `.`, so its `.` is the last one.
   */
  predicate EmailMatches(s: string) {
    var i := Js.IndexOf(s, '@');
    var j := Js.LastIndexOf(s, '.');
    && 0 < i && i + 1 < j && 2 <= |s| - (j + 1) <= 4
    && AllLocal(s[..i]) && AllDomain(s[i + 1..j]) && AllLetters(s[j + 1..])
  }

  /** What the decision procedure accepts, the pattern matches. */
  lemma EmailMatchesSound(s: string)
    requires EmailMatches(s)
    ensures MatchesEmailPattern(s)
  {
    var i := Js.IndexOf(s, '@');
    var j := Js.LastIndexOf(s, '.');
    assert s[i] == '@' && s[j] == '.';
  }

  /** What the pattern matches, the decision procedure accepts: the split is the one it computes. */
  lemma EmailMatchesComplete(s: string, i: int, j: int)
    requires 0 < i && i + 1 < j < |s| && s[i] == '@' && s[j] == '.'
    requires AllLocal(s[..i]) && AllDomain(s[i + 1..j]) && 2 <= |s| - (j + 1) <= 4 && AllLetters(s[j + 1..])
    ensures Js.IndexOf(s, '@') == i && Js.LastIndexOf(s, '.') == j
  {
    assert s[..i + 1][i] == '@';
  }

  /** The decision procedure accepts exactly the strings the pattern matches. */
  lemma EmailMatchesIff(s: string)
    ensures EmailMatches(s) <==> MatchesEmailPattern(s)
  {
    if EmailMatches(s) {
      EmailMatchesSound(s);
    }
    if MatchesEmailPattern(s) {
      var i, j :| 0 < i && i + 1 < j < |s| && s[i] == '@' && s[j] == '.'
        && AllLocal(s[..i]) && AllDomain(s[i + 1..j]) && 2 <= |s| - (j + 1) <= 4 && AllLetters(s[j + 1..]);
      EmailMatchesComplete(s, i, j);
    }
  }

  /**
   * `detailsValidation`: name, password and email are not blank after `trim()`, the email
   * matches the pattern, and the untrimmed password is at least 4 UTF-16 units long.
   */
  function DetailsValidation(name: string, email: string, password: string): (ok: bool)
    ensures ok ==> !Js.Blank(name) && !Js.Blank(email) && !Js.Blank(password)
    ensures ok ==> EmailMatches(email) && Js.Utf16Length(password) >= 4
  {
    Js.Trim(name) != "" && Js.Trim(password) != "" && Js.Trim(email) != ""
    && EmailMatches(email) && Js.Utf16Length(password) >= 4
  }

  /** The validator in declarative terms. */
  lemma DetailsValidationIff(name: string, email: string, password: string)
    ensures DetailsValidation(name, email, password) <==>
      !Js.Blank(name) && !Js.Blank(password) && MatchesEmailPattern(email) && Js.Utf16Length(password) >= 4
  {
    EmailMatchesIff(email);
    if MatchesEmailPattern(email) {
      var i, j :| 0 < i && i + 1 < j < |email| && email[i] == '@' && email[j] == '.'
        && AllLocal(email[..i]) && AllDomain(email[i + 1..j]) && 2 <= |email| - (j + 1) <= 4 && AllLetters(email[j + 1..]);
      assert !Js.IsWhitespace(email[i]);
    }
  }

  /** The patch `{ salt }`: it rewrites only the salt column. */
  function SaltPatch(salt: string): (p: UserData.UserPatch)
    ensures forall u :: UserData.ApplyPatch(u, p) == u.(salt := salt)
  {
    UserData.UserPatch(None, None, None, Some(salt), None, None, None, None, None, None)
  }

  /** The email column of an account. */
  function EmailKey(u: UserRow): string { u.email }

  /**
   * `bcrypt.compare(password, stored)`: the candidate hashed with the salt written inside
   * the stored hash gives the stored hash.
   */
  predicate Compare(password: string, stored: string, hash: (string, string) -> string, saltOf: string -> string) {
    hash(password, saltOf(stored)) == stored
  }

  /** bcrypt writes the salt into every hash it returns, where `saltOf` finds it again. */
  ghost predicate SaltEmbedded(hash: (string, string) -> string, saltOf: string -> string) {
    forall p, s :: saltOf(hash(p, s)) == s
  }

  /**
   * `loginUser`: the account with that email whose stored hash is the hash of the
   * candidate password.  An unknown email and a wrong password throw the same message.
   */
  function LoginUser(users: seq<UserRow>, email: string, password: string, hash: (string, string) -> string,
                     saltOf: string -> string): (r: Result<UserRow, Error>)
    ensures r.Success? ==> r.value in users && r.value.email == email && Compare(password, r.value.password, hash, saltOf)
    ensures r.Failure? ==> r.error == Thrown("Invalid email or password")
    ensures Sql.DistinctKeys(users, EmailKey) ==>
      (r.Success? <==> exists u :: u in users && u.email == email && Compare(password, u.password, hash, saltOf))
  {
    match UserData.GetUserByEmail(users, email)
    case None => Failure(Thrown("Invalid email or password"))
    case Some(u) =>
      if !Compare(password, u.password, hash, saltOf) then Failure(Thrown("Invalid email or password"))
      else
        assert Sql.DistinctKeys(users, EmailKey) ==> forall v :: v in users && v.email == email ==> v == u by {
          if Sql.DistinctKeys(users, EmailKey) {
            forall v | v in users && v.email == email ensures v == u {
              EmailUnique(users, u, v);
            }
          }
        }
        Success(u)
  }

  /**
   * A bcrypt hash is never the empty string, so no account whose stored hash is empty
   * logs in: in particular not the sentinel account, whose password column is "".
   */
  lemma SentinelNeverLogsIn(users: seq<UserRow>, email: string, password: string, hash: (string, string) -> string,
                            saltOf: string -> string)
    requires forall p, s :: hash(p, s) != ""
    ensures var r := LoginUser(users, email, password, hash, saltOf);
      r.Success? ==> r.value.password != "" && r.value != DeletedUser
  {
  }

  /** A rewrite of the table that keeps every email keeps them distinct. */
  lemma EmailsStayDistinct(before: seq<UserRow>, after: seq<UserRow>)
    requires Sql.DistinctKeys(before, EmailKey) && |after| == |before|
    requires forall k :: 0 <= k < |after| ==> after[k].email == before[k].email
    ensures Sql.DistinctKeys(after, EmailKey)
  {
    assert forall k :: 0 <= k < |after| ==> EmailKey(after[k]) == EmailKey(before[k]);
    Sql.SameKeys(before, after, EmailKey);
  }

  /**
   * A profile update is not checked against the other accounts: patching one account's
   * e-mail to another's breaks e-mail uniqueness.
   */
  lemma PatchCanDuplicateEmail(u: UserRow, v: UserRow, p: UserData.UserPatch)
    requires u.id != v.id && u.email != v.email && p.email == Some(v.email)
    ensures Sql.DistinctKeys([u, v], EmailKey)
    ensures !Sql.DistinctKeys(UserData.PatchUser([u, v], u.id, p), EmailKey)
  {
    var r := UserData.PatchUser([u, v], u.id, p);
    assert r[0].email == v.email && r[1] == v;
    assert EmailKey(r[0]) == EmailKey(r[1]);
  }

  /**
   * Login reads the salt from the stored hash, so rewriting an account's `salt` column
   * changes no login outcome.
   */
  lemma LoginIgnoresSaltColumn(users: seq<UserRow>, id: int, salt: string, email: string, password: string,
                               hash: (string, string) -> string, saltOf: string -> string)
    requires Sql.DistinctKeys(users, EmailKey)
    ensures var after := UserData.PatchUser(users, id, SaltPatch(salt));
      LoginUser(after, email, password, hash, saltOf).Success? == LoginUser(users, email, password, hash, saltOf).Success?
  {
    var after := UserData.PatchUser(users, id, SaltPatch(salt));
    assert forall k :: 0 <= k < |after| ==> after[k].email == users[k].email && after[k].password == users[k].password;
    EmailsStayDistinct(users, after);
    if exists u :: u in users && u.email == email && Compare(password, u.password, hash, saltOf) {
      var u :| u in users && u.email == email && Compare(password, u.password, hash, saltOf);
      var k :| 0 <= k < |users| && users[k] == u;
      assert after[k] in after;
    }
    if exists v :: v in after && v.email == email && Compare(password, v.password, hash, saltOf) {
      var v :| v in after && v.email == email && Compare(password, v.password, hash, saltOf);
      var k :| 0 <= k < |after| && after[k] == v;
      assert users[k] in users;
    }
  }

  /** With distinct emails, two accounts with the same email are the same account. */
  lemma EmailUnique(users: seq<UserRow>, u: UserRow, v: UserRow)
    requires Sql.DistinctKeys(users, EmailKey) && u in users && v in users && u.email == v.email
    ensures u == v
  {
    var i :| 0 <= i < |users| && users[i] == u;
    var j :| 0 <= j < |users| && users[j] == v;
    assert EmailKey(users[i]) == EmailKey(users[j]);
  }

  /** `getUserById`, throwing when there is no such account. */
  function GetUserById(users: seq<UserRow>, userId: int): (r: Result<UserRow, Error>)
    ensures r.Failure? <==> !UserExists(users, userId)
    ensures r.Failure? ==> r.error == Thrown("User not found")
    ensures r.Success? ==> r.value in users && r.value.id == userId
  {
    match UserData.GetUserById(users, userId)
    case None => Failure(Thrown("User not found"))
    case Some(u) => Success(u)
  }

  /** The account row `registerUser` inserts: role 'user', the hash of the password and the salt. */
  function RegisteredUser(name: string, email: string, password: string, salt: string, hash: (string, string) -> string): UserData.NewUser {
    UserData.NewUser(name, email, hash(password, salt), salt, UserRole)
  }

  /**
   * `registerUser`: reject invalid details before reading the store, reject an email that
   * is already registered, otherwise insert the account with role 'user' and the hashed
   * password.
   */
  method RegisterUser(db: Database, name: string, email: string, password: string, salt: string,
                      hash: (string, string) -> string) returns (r: Result<UserData.CreatedUser, Error>)
    requires db.Valid()
    modifies db`users, db`nextUserId
    ensures db.Valid()
    ensures !DetailsValidation(name, email, password) ==>
      r == Failure(Thrown("Incorrect details")) && db.users == old(db.users) && db.nextUserId == old(db.nextUserId)
    ensures DetailsValidation(name, email, password) && UserData.GetUserByEmail(old(db.users), email).Some? ==>
      r == Failure(Thrown("User already exists")) && db.users == old(db.users) && db.nextUserId == old(db.nextUserId)
    ensures DetailsValidation(name, email, password) && UserData.GetUserByEmail(old(db.users), email).None? ==>
      && r == Success(UserData.CreatedUser(old(db.nextUserId), RegisteredUser(name, email, password, salt, hash)))
      && db.users == old(db.users) + [UserData.NewUserRow(r.value.id, r.value.user)]
    ensures Sql.DistinctKeys(old(db.users), EmailKey) ==> Sql.DistinctKeys(db.users, EmailKey)
  {
    if !DetailsValidation(name, email, password) {
      return Failure(Thrown("Incorrect details"));
    }
    if UserData.GetUserByEmail(db.users, email).Some? {
      return Failure(Thrown("User already exists"));
    }
    var user := RegisteredUser(name, email, password, salt, hash);
    if Sql.DistinctKeys(db.users, EmailKey) {
      Sql.AppendKeepsDistinctKeys(db.users, UserData.NewUserRow(db.nextUserId, user), EmailKey);
    }
    var created := UserData.CreateUser(db, user);
    r := Success(created);
  }

  /** A freshly registered account can log in with the password it registered with. */
  lemma RegisterThenLogin(users: seq<UserRow>, id: int, name: string, email: string, password: string, salt: string,
                          hash: (string, string) -> string, saltOf: string -> string)
    requires SaltEmbedded(hash, saltOf)
    requires forall u :: u in users ==> u.id != id && u.email != email
    ensures var row := UserData.NewUserRow(id, RegisteredUser(name, email, password, salt, hash));
      LoginUser(users + [row], email, password, hash, saltOf) == Success(row)
  {
    UserData.CreatedUserIsFound(users, id, RegisteredUser(name, email, password, salt, hash));
  }

  /** `updateUserProfile`: the row read back after the update, or an error when no account has the id. */
  method UpdateUserProfile(db: Database, userId: int, patch: UserData.UserPatch) returns (r: Result<UserRow, Error>)
    requires db.Valid()
    modifies db`users
    ensures db.Valid()
    ensures UserData.EmptyPatch(patch) ==> r == Failure(BadQuery) && db.users == old(db.users)
    ensures !UserData.EmptyPatch(patch) ==> db.users == UserData.PatchUser(old(db.users), userId, patch)
    ensures !UserData.EmptyPatch(patch) && !UserExists(old(db.users), userId) ==>
      r == Failure(Thrown("User not found or update failed"))
    ensures !UserData.EmptyPatch(patch) && UserExists(old(db.users), userId) ==>
      r == Success(UserData.ApplyPatch(UserData.GetUserById(old(db.users), userId).value, patch))
  {
    var updated := UserData.UpdateUser(db, userId, patch);
    match updated
    case Failure(e) => r := Failure(e);
    case Success(None) => r := Failure(Thrown("User not found or update failed"));
    case Success(Some(u)) => r := Success(u);
  }

  /** The patch `{ password: hashedPassword, salt }`. */
  function PasswordPatch(hashed: string, salt: string): (p: UserData.UserPatch)
    ensures !UserData.EmptyPatch(p)
    ensures forall u :: UserData.ApplyPatch(u, p) == u.(password := hashed, salt := salt)
  {
    UserData.UserPatch(None, None, Some(hashed), Some(salt), None, None, None, None, None, None)
  }

  const PasswordTooShort := "Password must be at least 4 characters"
  const UserNotFound := "User not found"
  const WrongPassword := "Current password is incorrect"
  const PasswordChanged := "Password changed successfully"

  /**
   * `changePassword`: checks the new password's length, that the account exists and that
   * the current password is right, in that order; only then stores the new hash and salt.
   */
  method ChangePassword(db: Database, userId: int, currentPassword: string, newPassword: string, salt: string,
                        hash: (string, string) -> string, saltOf: string -> string) returns (message: string)
    requires db.Valid()
    modifies db`users
    ensures db.Valid()
    ensures message == ChangePasswordMessage(old(db.users), userId, currentPassword, newPassword, hash, saltOf)
    ensures message != PasswordChanged ==> db.users == old(db.users)
    ensures message == PasswordChanged ==>
      db.users == UserData.PatchUser(old(db.users), userId, PasswordPatch(hash(newPassword, salt), salt))
  {
    if Js.Utf16Length(newPassword) < 4 {
      return PasswordTooShort;
    }
    var user := UserData.GetUserById(db.users, userId);
    if user.None? {
      return UserNotFound;
    }
    if !Compare(currentPassword, user.value.password, hash, saltOf) {
      return WrongPassword;
    }
    var _ := UserData.UpdateUser(db, userId, PasswordPatch(hash(newPassword, salt), salt));
    message := PasswordChanged;
  }

  /** The message `changePassword` resolves to, which decides whether anything is written. */
  function ChangePasswordMessage(users: seq<UserRow>, userId: int, currentPassword: string, newPassword: string,
                                 hash: (string, string) -> string, saltOf: string -> string): (m: string)
    ensures m in {PasswordTooShort, UserNotFound, WrongPassword, PasswordChanged}
    ensures m == PasswordTooShort <==> Js.Utf16Length(newPassword) < 4
    ensures m == UserNotFound <==> Js.Utf16Length(newPassword) >= 4 && !UserExists(users, userId)
    ensures Sql.DistinctKeys(users, UserKey) ==> (m == PasswordChanged <==>
      Js.Utf16Length(newPassword) >= 4 && exists u :: u in users && u.id == userId && Compare(currentPassword, u.password, hash, saltOf))
  {
    if Js.Utf16Length(newPassword) < 4 then PasswordTooShort
    else match UserData.GetUserById(users, userId)
      case None => UserNotFound
      case Some(u) =>
        assert Sql.DistinctKeys(users, UserKey) ==> forall v :: v in users && v.id == userId ==> v == u by {
          if Sql.DistinctKeys(users, UserKey) {
            forall v | v in users && v.id == userId ensures v == u {
              var i :| 0 <= i < |users| && users[i] == v;
              UserData.UserByIdUnique(users, i);
            }
          }
        }
        if !Compare(currentPassword, u.password, hash, saltOf) then WrongPassword else PasswordChanged
  }

  /**
   * After a successful change the account logs in with the new password, and its other
   * columns are as before.
   */
  lemma ChangedPasswordLogsIn(users: seq<UserRow>, u: UserRow, newPassword: string, salt: string,
                              hash: (string, string) -> string, saltOf: string -> string)
    requires SaltEmbedded(hash, saltOf)
    requires Sql.DistinctKeys(users, UserKey) && Sql.DistinctKeys(users, EmailKey) && u in users
    ensures var after := UserData.PatchUser(users, u.id, PasswordPatch(hash(newPassword, salt), salt));
      LoginUser(after, u.email, newPassword, hash, saltOf) == Success(u.(password := hash(newPassword, salt), salt := salt))
  {
    var p := PasswordPatch(hash(newPassword, salt), salt);
    var after := UserData.PatchUser(users, u.id, p);
    var i :| 0 <= i < |users| && users[i] == u;
    var v := u.(password := hash(newPassword, salt), salt := salt);
    assert after[i] == v;
    assert v in after;
    EmailsStayDistinct(users, after);
    var found := UserData.GetUserByEmail(after, u.email);
    EmailUnique(after, found.value, v);
  }
}
