# TalentTrade marketplace core, in Dafny

TalentTrade is a marketplace where accounts post listings (offers or requests for a
service), discuss them in comment threads, like comments, report accounts, and rate the
accounts they received a service from. The server keeps everything in four MySQL tables:
`users`, `services`, `comments` and `ratings`. This project models the server's data
layer (`server/DL`) and business layer (`server/BL`) over those tables, and proves what
they promise.

- **Store.** `Schema.Database` is a class with one `seq` field per table (rows in
  primary-key order) and one auto-increment counter per table. Its `Valid()` invariant
  says:
  - keys are distinct and below their counters;
  - JSON id lists hold no duplicates.

  The constructor creates the sentinel account -1 (`server/createTables.js:221-224`),
  but `Valid()` does not require it to stay: nothing in `deleteUser` stops an
  administrator from deleting it. `Schema.ReferentialIntegrity` states the foreign keys
  of the DDL. The cascade lemmas that need the sentinel take its existence as a
  hypothesis.
- **Data layer.** Each query is a method on the store. It changes only the table it
  writes, which the `modifies db`table` frame states. Its ensures gives the new table as
  a named table function (`CommentsData.SetLikes`, `AdminData.ReassignAuthor`, …). Those
  functions carry their own contracts and lemmas.
- **Generic SQL.** `Sql` holds what `SELECT … WHERE`, `DELETE … WHERE`,
  `UPDATE … WHERE` and `LIMIT 1` do to a table. `Ordering` holds `ORDER BY … DESC`: an
  insertion sort proved sorted and a permutation. `Js` holds the JavaScript string
  operations the code relies on: `trim`, `indexOf`, `lastIndexOf`, `split(",")` and
  `join`. `IdLists` holds the JSON id arrays (likes, report ids, received-service ids).
- **Business layer.** `UserLogic`, `ServicesLogic`, `CommentsLogic` and `RatingLogic`
  model the business layer.
  - `UserLogic` covers the detail check, including the e-mail regular expression, which
    is proved equal to its pattern. It also covers login, registration, profile update
    and password change.
  - `ServicesLogic` covers the ownership check, deleting a listing with its thread, and
    the browse dispatch.
  - `CommentsLogic` covers comments and likes, and the browser's choice of accept
    direction.
  - `RatingLogic` covers the rating upsert followed by the recomputed average.
- **Account deletion.** `AdminData.DeleteUser` is the non-atomic seven-statement
  cascade of `server/DL/admin.js:28-88`. A storage failure can be planted at any
  statement (`fault`). The ensures gives every table's state for each stopping point.
  Lemmas prove that a complete cascade removes every trace of the account and keeps the
  foreign keys satisfied.

Parameters stand in for the things the server gets from outside:
- bcrypt is an uninterpreted function `hash(password, salt)` together with `saltOf`,
  which reads the salt back out of a stored hash string. `bcrypt.compare` is
  `UserLogic.Compare`: the candidate hashed with the salt inside the stored hash gives
  the stored hash. The `salt` column plays no part in it (`UserLogic.LoginIgnoresSaltColumn`).
  Two facts about bcrypt are hypotheses of the lemmas that need them:
  - a hash carries its salt (`UserLogic.SaltEmbedded`), used by the lemmas that log in
    after registration or a password change;
  - a hash is never the empty string, used by `UserLogic.SentinelNeverLogsIn`, so the
    sentinel account, whose password column is empty, cannot log in;
- the fresh salt of `bcrypt.genSalt` is a parameter;
- the clock behind `created_at` is a parameter (`now`).

Where the code and its documentation disagree, the model follows the code:
- **"All" mode browsing.** With category "All", the code tests whether the listing's
  subcategories contain the whole `subCategory` string as one element
  (`JSON_OVERLAPS` with a one-element array, `server/DL/services.js:103-106`). It does
  not split a comma list there. `ServicesData.SingleSubcategoryOverlap` states this for
  one requested subcategory.
- **Missing columns.** The DDL has no `is_open` column and no `received_service_ids`
  column, but the code reads and writes both. The model has both. A new listing is open.
- **The `report_ids` column.** The `users` DDL ends with `report_ids JSON;` just before
  its closing parenthesis (`server/createTables.js:213-214`). No column follows it, and
  the stray `;` makes MySQL reject the statement. The model takes the table the statement
  evidently intends: the columns listed, `report_ids` last, plus `received_service_ids`.
- **E-mail uniqueness.** E-mails are not unique in the DDL. Registration refuses a
  duplicate e-mail, and `UserLogic.RegisterUser` proves that it keeps e-mails distinct.
  Login is proved correct under that property (`Sql.DistinctKeys(users, EmailKey)`).
  The property is not a store invariant: a profile update writes any e-mail it is given
  and checks no other account, so `UserLogic.PatchCanDuplicateEmail` shows an update that
  gives two accounts one e-mail. After such an update only the one-directional clauses
  of `UserLogic.LoginUser` still apply.

## Model

| member | source | states |
|---|---|---|
| Schema.Database.constructor | server/createTables.js:200-282 | a fresh store has empty listings, comments and ratings, and only the sentinel account -1 (221-224); it satisfies the store invariant |
| Sql.Select | server/DL/rating.js:13-16 | a `SELECT … WHERE` keeps exactly the rows satisfying the condition, and no more rows than the table |
| Sql.DeleteWhere | server/DL/services.js:64-67 | a `DELETE … WHERE` keeps exactly the rows not satisfying the condition |
| Sql.UpdateWhere | server/DL/admin.js:56-58 | an `UPDATE … WHERE` rewrites exactly the matching rows in place and keeps the table's length |
| Sql.FirstWhere | server/DL/user.js:13-16 | `rows[0]` of a filtered select is none exactly when no row matches, else a matching row |
| Sql.DeleteAtMostOne | server/DL/admin.js:81 | when at most one row can match, a delete removes one row if some row matches and none otherwise |
| Sql.SelectThenSelect | server/DL/services.js:76-95 | filtering twice is filtering once by the conjunction |
| Sql.DeleteThenDelete | server/DL/admin.js:67-69 | deleting twice is deleting once by the disjunction |
| Sql.SelectKeepsDistinctKeys | server/createTables.js:200-282 | a filtered table keeps its primary keys distinct |
| Ordering.SortDesc | server/DL/services.js:91 | `ORDER BY … DESC`: the result is a permutation of the rows and is sorted descending by the rank |
| Ordering.AtLeastTotal | server/DL/services.js:91 | any two sort keys are comparable |
| Ordering.AtLeastTransitive | server/DL/services.js:91 | the descending key order is transitive |
| Js.IndexOf | server/DL/comments.js:52 | `indexOf` is -1 exactly when the value is absent, else the first position holding it |
| Js.LastIndexOf | server/BL/user.js:7 | `lastIndexOf` is -1 exactly when absent, else the last position holding it |
| Js.Utf16Length | server/BL/user.js:69 | `length` counts UTF-16 units: between one and two per character, one each when all characters are in the Basic Multilingual Plane |
| Js.Utf16LengthAppend | server/BL/user.js:69 | the length of a concatenation is the sum of the lengths |
| Js.Utf16LengthChar | server/BL/user.js:69 | a character below U+10000 is one unit, any other (a surrogate pair) two; with `Utf16LengthAppend` this fixes the length of every string |
| Js.Trim | server/BL/user.js:6 | `trim()` is a slice of the string that drops only whitespace at each end: empty exactly when the string is all whitespace, otherwise starting and ending with non-whitespace |
| Js.Split | server/DL/services.js:81 | `split(",")` yields at least one piece and no piece holds a comma |
| Js.JoinSplit | server/DL/services.js:81 | joining the pieces of a split with commas gives back the string |
| Js.SplitJoin | server/DL/services.js:81 | splitting a comma join of comma-free pieces gives back the pieces |
| IdLists.Add | server/DL/comments.js:38-45 | append-if-absent: the id is present afterwards, nothing else is added, the old list is a prefix, a present id changes nothing, no duplicates are introduced |
| IdLists.Remove | server/DL/comments.js:48-57 | splice of the first occurrence: an absent id changes nothing; otherwise the result is the list with its first occurrence of the id cut out, the other ids in order |
| IdLists.AddIdempotent | server/DL/comments.js:40-43 | a second like by the same account changes nothing |
| IdLists.RemoveUndoesAdd | server/DL/comments.js:48-57 | removing an id just added restores the list |
| IdLists.AddRemoveAdd | server/DL/comments.js:38-57 | like, unlike, like leaves the account in the list exactly once |
| CommentsData.GetCommentsByServiceId | server/DL/comments.js:4-7 | the thread holds exactly the comments on the listing |
| CommentsData.GetCommentById | server/DL/comments.js:10-13 | none exactly when no comment has the id; otherwise a stored comment with that id |
| CommentsData.CommentByIdUnique | server/DL/comments.js:10-13 | with distinct ids, the lookup finds the one comment with that id |
| CommentsData.EditText | server/DL/comments.js:23-25 | only the text of the comment with the id changes; ids, listing, author and likes stay |
| CommentsData.SetLikes | server/DL/comments.js:42 | only the likes of the comment with the id change |
| CommentsData.SetSameLikes | server/DL/comments.js:40-43 | writing back a comment's own likes leaves the table unchanged |
| CommentsData.RemoveComment | server/DL/comments.js:28-30 | exactly the comments with other ids remain |
| CommentsData.RemoveServiceComments | server/DL/comments.js:33-35 | exactly the comments on other listings remain; the listing's thread is empty |
| CommentsData.AddComment | server/DL/comments.js:16-20 | appends a comment with the next id, which no stored comment has, and empty likes |
| CommentsData.UpdateComment | server/DL/comments.js:23-25 | the comments table becomes `EditText` of the old one |
| CommentsData.DeleteComment | server/DL/comments.js:28-30 | the comments table becomes `RemoveComment` of the old one |
| CommentsData.DeleteAllComment | server/DL/comments.js:33-35 | the comments table becomes `RemoveServiceComments` of the old one |
| CommentsData.LikeComment | server/DL/comments.js:38-45 | a missing comment fails and changes nothing; otherwise the liker is added to that comment's likes |
| CommentsData.UnlikeComment | server/DL/comments.js:48-57 | a missing comment fails and changes nothing; otherwise the unliker's first entry is spliced out |
| CommentsData.LikesStayWellFormed | server/DL/comments.js:38-57 | rewriting one comment's likes with a duplicate-free list keeps the comments table valid |
| UserData.NewUserRow | server/DL/user.js:4-10 | the inserted row carries the given name, e-mail, hash, salt and role, with no report or received lists and rating 0 |
| UserData.GetUserByEmail | server/DL/user.js:13-16 | none exactly when no account has the e-mail; otherwise a stored account with it |
| UserData.GetUserById | server/DL/user.js:19-22 | none exactly when no account has the id; otherwise a stored account with it |
| UserData.UserByIdUnique | server/DL/user.js:19-22 | with distinct ids, the lookup finds the one account with that id |
| UserData.CreatedUserIsFound | server/DL/user.js:4-22 | a created account is found by its new id, and by its e-mail when that was unused |
| UserData.ApplyPatch | server/DL/user.js:25-34 | `SET ?`: each of the ten columns the patch names takes the patch's value, every other column keeps its value; id and id arrays are untouched; an empty patch changes nothing |
| UserData.PatchUser | server/DL/user.js:25-29 | only the row with the id is patched |
| UserData.PatchedUserIsFound | server/DL/user.js:25-34 | the account read back after the update is the patched account, or none when the id is unknown |
| UserData.UsersStayValid | server/createTables.js:200-214 | a rewrite keeping ids and well-formed lists keeps the users table valid |
| UserData.SetReportIds | server/DL/user.js:49-52 | only the report list of the account with the id is replaced |
| UserData.Report | server/DL/user.js:37-55 | only the reported account's row changes, and only its report list: the old list (NULL read as empty) with the reporter appended unless already present; an unknown account leaves the table as it was, and `ReportUser` then fails |
| UserData.ReportRecordsReporter | server/DL/user.js:37-55 | after a report the reporter is on the reported account's list; other accounts are untouched |
| UserData.SetSameReports | server/DL/user.js:46-53 | writing back an account's own report list changes nothing |
| UserData.ReportIdempotent | server/DL/user.js:46-53 | reporting twice is reporting once |
| UserData.InitReceived | server/DL/user.js:61-70 | the initialising UPDATE keeps every account's id |
| UserData.AppendReceived | server/DL/user.js:73-78 | the appending UPDATE keeps every account's id |
| UserData.AddReceived | server/DL/user.js:58-79 | only the account with the id changes, and only its list: the old list (NULL read as empty) with the id appended unless already present |
| UserData.TwoUpdatesAddReceived | server/DL/user.js:58-79 | the two UPDATE statements together are one append-if-absent on the list |
| UserData.AddReceivedIdempotent | server/DL/user.js:73-78 | recording the same received service twice is recording it once |
| UserData.CreateUser | server/DL/user.js:4-10 | appends the new account under the next id, which no stored account has, and returns that id |
| UserData.UpdateUser | server/DL/user.js:25-34 | an empty patch is a malformed query and changes nothing; otherwise the account is patched and read back, none when unknown |
| UserData.ReportUser | server/DL/user.js:37-55 | a missing account fails; the users table becomes `Report` of the old one |
| UserData.AddUserToReceivedServiceList | server/DL/user.js:58-79 | the users table becomes `AddReceived` of the old one |
| ServicesData.NewServiceRow | server/DL/services.js:4-18 | the inserted listing carries the given fields, the clock's time, and is open |
| ServicesData.GetDetailsServiceById | server/DL/services.js:21-24 | none exactly when no listing has the id; otherwise the stored listing |
| ServicesData.GetServiceById | server/DL/services.js:27-45 | a result is a stored listing with the id, joined to its owner's name, e-mail and phone |
| ServicesData.JoinFindsEveryListing | server/DL/services.js:27-45 | under the foreign keys, the inner join finds a listing exactly when it exists |
| ServicesData.EditListing | server/DL/services.js:48-61 | only the listing with the id changes, and of the modelled columns only its title, description, category, subcategories and compensation |
| ServicesData.SetOpen | server/DL/services.js:127-130 | only the listing with the id changes, and of the modelled columns only its open flag |
| ServicesData.RemoveListing | server/DL/services.js:64-67 | exactly the listings with other ids remain |
| ServicesData.TypeFilterCases | server/DL/services.js:86-89 | no filter or "all" admits every listing, "requests" admits requests, anything else admits offers |
| ServicesData.TitleRank | server/DL/services.js:91 | the title sort key has one entry per character |
| ServicesData.SortRank | server/DL/services.js:91 | "" and "created_at" sort by creation time, "title" by title; any other column is a malformed query |
| ServicesData.GetServices | server/DL/services.js:76-95 | fails exactly on an unknown sort column; otherwise exactly the matching listings of the category, each once, sorted descending |
| ServicesData.GetAllServices | server/DL/services.js:98-124 | fails exactly on an unknown sort column; otherwise exactly the listings passing the subcategory, owner and type filters, each once, sorted descending |
| ServicesData.ChosenSubcategoriesAllRequired | server/DL/services.js:80-84 | for a comma list of subcategories, a listing matches exactly when it is in the category, has every chosen subcategory and passes the type filter |
| ServicesData.SingleSubcategoryOverlap | server/DL/services.js:103-106 | in "All" mode a subcategory match means the listing has that subcategory, and conversely |
| ServicesData.CreateService | server/DL/services.js:4-18 | appends the new listing under the next id, which no stored listing has |
| ServicesData.UpdateService | server/DL/services.js:48-61 | the listings table becomes `EditListing` of the old one |
| ServicesData.DeleteService | server/DL/services.js:64-67 | removes the listing; `affectedRows` is 1 when it existed, else 0 |
| ServicesData.ToggleServiceStatus | server/DL/services.js:127-130 | the listings table becomes `SetOpen` of the old one |
| RatingData.Upsert | server/DL/rating.js:4-10 | the pair now holds the new rating; every other pair's rows are unchanged; the table grows by one exactly when the pair was unrated; the unique key stays unique |
| RatingData.GetRatingsForUser | server/DL/rating.js:13-16 | exactly the ratings given to the account, each value as often as rows with that value exist |
| RatingData.GetRating | server/DL/rating.js:18-21 | none exactly when the pair is unrated; otherwise a stored rating of the pair |
| RatingData.GetRatingUnique | server/DL/rating.js:18-21 | under the unique key, the read returns the pair's stored rating |
| RatingData.UpsertThenGet | server/DL/rating.js:4-21 | after an upsert, reading the pair gives the new rating and every other pair reads as before |
| RatingData.UpsertCount | server/DL/rating.js:4-16 | the account's rating count grows by one exactly when the rater had not rated it |
| RatingData.HasReceivedServiceFrom | server/DL/rating.js:24-35 | true only when both ids are truthy and the account exists |
| RatingData.AddOrUpdateRating | server/DL/rating.js:4-10 | the ratings table becomes `Upsert` of the old one |
| AdminData.ReportCount | server/DL/admin.js:7 | `JSON_LENGTH(report_ids)`, with NULL ranked below every length |
| AdminData.GetAllUsers | server/DL/admin.js:5-10 | exactly the role-'user' accounts other than the sentinel, each once, most reported first |
| AdminData.MostReportedFirst | server/DL/admin.js:7 | an earlier account in the list has at least as many reports as a later one |
| AdminData.ReportList | server/DL/admin.js:13-25 | an unknown account has no reporters |
| AdminData.GetReporters | server/DL/admin.js:13-25 | exactly the id, name and e-mail of the accounts whose ids are on the report list |
| AdminData.StopStage | server/DL/admin.js:28-88 | the cascade stops inside the per-listing loop exactly when the failure is planted at a listing it reaches |
| AdminData.CommentDeletes | server/DL/admin.js:67-69 | no more per-listing deletes take effect than the account owns listings |
| AdminData.ReassignAuthor | server/DL/admin.js:56-58 | the account's comments get the sentinel as author; every other comment is untouched |
| AdminData.ListingIdsOf | server/DL/admin.js:61-64 | exactly the ids of the account's listings |
| AdminData.DropCommentsOn | server/DL/admin.js:67-69 | exactly the comments on listings outside the given ids remain |
| AdminData.DropCommentsOnStep | server/DL/admin.js:67-69 | one more loop round clears one more listing's thread |
| AdminData.RemoveListingsOf | server/DL/admin.js:72 | exactly the listings of other accounts remain |
| AdminData.RemoveRatingsOf | server/DL/admin.js:75-78 | exactly the ratings neither given nor received by the account remain |
| AdminData.RemoveUser | server/DL/admin.js:81 | exactly the other accounts remain |
| AdminData.RemoveUserCount | server/DL/admin.js:81 | deleting the account removes one row when it exists and none otherwise |
| AdminData.DeleteUserEffects | server/DL/admin.js:28-88 | after a complete cascade no comment is by the account or on its listings; the account's comments elsewhere survive with the sentinel as author, and others' comments elsewhere are untouched |
| AdminData.DeleteUserKeepsIntegrity | server/DL/admin.js:28-88 | a complete cascade keeps every foreign key satisfied |
| AdminData.DeleteListingThreads | server/DL/admin.js:67-69 | the loop clears the threads of every owned listing, or of those before the failing one, and reports which |
| AdminData.DeleteThread | server/DL/admin.js:68 | one loop round clears one more listing's thread |
| AdminData.DeleteUser | server/DL/admin.js:28-88 | for each stopping point of the cascade, the result and the new state of all four tables |
| AdminData.ReassignComments | server/DL/admin.js:56-58 | the comments table becomes `ReassignAuthor` of the old one |
| AdminData.DeleteListingsOf | server/DL/admin.js:72 | the listings table becomes `RemoveListingsOf` of the old one |
| AdminData.DeleteRatingsOf | server/DL/admin.js:75-78 | the ratings table becomes `RemoveRatingsOf` of the old one |
| AdminData.DeleteUserRow | server/DL/admin.js:81 | the account's row is removed; 1 affected row when it existed, else 0 |
| UserLogic.EmailMatchesSound | server/BL/user.js:7 | a string accepted by the `@`/last-`.` test matches the e-mail pattern |
| UserLogic.EmailMatchesComplete | server/BL/user.js:7 | in a string matching the pattern, the `@` is the first one and the `.` is the last one |
| UserLogic.EmailMatchesIff | server/BL/user.js:7 | the computable e-mail test accepts exactly the strings the regular expression matches |
| UserLogic.DetailsValidation | server/BL/user.js:5-10 | details pass only with non-blank name, e-mail and password, an e-mail the test accepts and a password of at least 4 UTF-16 units; `DetailsValidationIff` gives the converse |
| UserLogic.DetailsValidationIff | server/BL/user.js:5-10 | details pass exactly when name, password and e-mail are not blank, the e-mail matches the pattern and the password is at least 4 UTF-16 units long |
| UserLogic.LoginUser | server/BL/user.js:36-47 | a success is a stored account with the e-mail whose stored hash `bcrypt.compare` accepts, salt read from the hash; any failure is "Invalid email or password"; with distinct e-mails, success exactly when such an account exists |
| UserLogic.SentinelNeverLogsIn | server/BL/user.js:36-47 | with a hash that is never empty, no account with an empty stored hash logs in, the sentinel account among them |
| UserLogic.EmailsStayDistinct | server/BL/user.js:59-87 | a rewrite of the users table that keeps every e-mail keeps e-mails distinct |
| UserLogic.PatchCanDuplicateEmail | server/DL/user.js:25-34 | a profile patch that sets one account's e-mail to another's leaves two accounts with one e-mail: the update does not keep e-mails distinct |
| UserLogic.EmailUnique | server/BL/user.js:36-47 | with distinct e-mails, two accounts with one e-mail are the same account |
| UserLogic.GetUserById | server/BL/user.js:50-56 | fails with "User not found" exactly when no account has the id; otherwise a stored account with it |
| UserLogic.RegisterUser | server/BL/user.js:13-33 | bad details give "Incorrect details", a used e-mail gives "User already exists", and both change nothing; otherwise the hashed account is appended; e-mails stay distinct |
| UserLogic.RegisterThenLogin | server/BL/user.js:13-47 | when a hash carries its salt, a freshly registered account logs in with its password |
| UserLogic.UpdateUserProfile | server/BL/user.js:59-65 | an empty patch is a malformed query; an unknown account gives "User not found or update failed"; otherwise the patched account is returned |
| UserLogic.PasswordPatch | server/BL/user.js:82-85 | the patch replaces exactly the hash and the salt |
| UserLogic.ChangePasswordMessage | server/BL/user.js:68-87 | one of the four messages; "too short" exactly when under 4 UTF-16 units, "not found" exactly when the account is missing, and "changed" exactly when `bcrypt.compare` accepts the current password against the stored hash |
| UserLogic.ChangePassword | server/BL/user.js:68-87 | only a successful change writes, and it stores the new password's hash with the new salt |
| UserLogic.ChangedPasswordLogsIn | server/BL/user.js:68-87 | when a hash carries its salt, after a change the account logs in with the new password |
| UserLogic.SaltPatch | server/DL/user.js:25-34 | the patch `{ salt }` rewrites only the salt column |
| UserLogic.LoginIgnoresSaltColumn | server/BL/user.js:42 | `bcrypt.compare` takes the salt from the stored hash, so rewriting an account's salt column changes no login outcome |
| ServicesLogic.CheckValidation | server/BL/services.js:7-10 | fails exactly when the listing is missing; otherwise true exactly when the caller owns it |
| ServicesLogic.FetchServices | server/BL/services.js:29-49 | fails with a malformed query exactly on an unknown sort column; otherwise only stored listings passing the type filter, sorted descending; a named category returns exactly the stored listings passing the single-category filter, "All" exactly those passing the all-categories filter |
| ServicesLogic.DeleteService | server/BL/services.js:23-26 | the listing's thread and the listing are removed, and nothing else |
| ServicesLogic.DeleteServiceKeepsIntegrity | server/BL/services.js:23-26 | deleting the thread and then the listing keeps the foreign keys, and no comment is left on the listing |
| ServicesLogic.ThreadFirstIsNeeded | server/BL/services.js:23-26 | deleting the listing without its thread can break the foreign keys |
| ServicesLogic.FetchOneCategory | server/BL/services.js:29-49 | outside "All", only the category's listings come back and the owner parameter plays no part |
| ServicesLogic.FetchAllCategories | server/BL/services.js:29-49 | in "All" mode, exactly the listings passing the owner, subcategory and type filters, whatever their category |
| ServicesLogic.ToggleServiceStatus | server/BL/services.js:57-59 | the listings table becomes `SetOpen` of the old one |
| ServicesLogic.ToggleBackRestores | server/DL/services.js:127-130 | toggling the flag and toggling it back restores the table |
| CommentsLogic.CheckValidation | server/BL/comments.js:4-7 | fails exactly when the comment is missing; otherwise true exactly when the caller wrote it |
| CommentsLogic.AddComment | server/API/comments.js:23 | only a non-blank comment is stored, appended with a fresh id and no likes |
| CommentsLogic.AddedCommentIsFound | server/BL/comments.js:15-18 | the new comment is found by its id, and the listing's thread is not empty |
| CommentsLogic.UpdateComment | server/BL/comments.js:21-23 | only the comment's text changes; a blank edit is stored |
| CommentsLogic.DeleteComment | server/BL/comments.js:26-28 | the comments table becomes `RemoveComment` of the old one |
| CommentsLogic.DeleteAllComment | server/BL/comments.js:31-33 | the comments table becomes `RemoveServiceComments` of the old one |
| CommentsLogic.LikeComment | server/BL/comments.js:36-38 | the table becomes `Liked` of the old one; fails exactly when the comment is missing |
| CommentsLogic.UnlikeComment | server/BL/comments.js:41-43 | the table becomes `Unliked` of the old one; fails exactly when the comment is missing |
| CommentsLogic.Liked | server/DL/comments.js:38-45 | every other comment is unchanged; with distinct ids, the comment's likes get the account appended unless already present |
| CommentsLogic.Unliked | server/DL/comments.js:48-57 | every other comment is unchanged; with distinct ids, the comment's likes lose the account's first entry |
| CommentsLogic.SetLikesThenGet | server/DL/comments.js:38-57 | after a likes rewrite the comment is found with the new likes |
| CommentsLogic.LikeRecordsLiker | server/DL/comments.js:38-45 | after a like the liker is among the comment's likes, with no duplicates |
| CommentsLogic.LikeIdempotent | server/DL/comments.js:38-45 | liking twice is liking once |
| CommentsLogic.LikeThenUnlikeRestores | server/DL/comments.js:38-57 | a first like followed by an unlike restores the table |
| CommentsLogic.SetLikesTwice | server/DL/comments.js:42 | the second likes rewrite overrides the first |
| CommentsLogic.AcceptDirection | client/src/components/Comments.js:147-156 | on an offer the owner's list receives the commenter; on a request the commenter's list receives the owner |
| CommentsLogic.AcceptEnablesRating | client/src/components/Comments.js:147-156 | recording an accepted comment makes the other party eligible to rate: on an offer the commenter may rate the owner, on a request the owner may rate the commenter |
| RatingLogic.SumWithin | server/BL/rating.js:8 | the sum of n ratings in lo..hi lies between n·lo and n·hi |
| RatingLogic.Sum | server/BL/rating.js:8 | the left fold of the ratings from 0; `SumPermutation` and `SumWithin` state its properties |
| RatingLogic.SumPermutation | server/BL/rating.js:8 | the fold depends only on how often each rating occurs, not on the rows' order |
| RatingLogic.Mean | server/BL/rating.js:9 | the average times the number of ratings is their total |
| RatingLogic.MeanWithin | server/BL/rating.js:9 | the mean of ratings in lo..hi lies in lo..hi |
| RatingLogic.RatedAccountHasRatings | server/BL/rating.js:5-9 | after the upsert the account has ratings, the new one among them, so the division is defined |
| RatingLogic.AverageWithin | server/BL/rating.js:5-12 | if every rating is 1..5 stars, the new average is too |
| RatingLogic.RatingPatch | server/BL/rating.js:10 | the patch sets the rating and nothing else |
| RatingLogic.AddOrUpdateRating | server/BL/rating.js:5-12 | upserts the pair, returns the mean of the account's ratings and stores it on the account |
| RatingLogic.StoredAverageIsReturned | server/BL/rating.js:10-11 | the account read back shows the returned average |
| RatingLogic.GetRating | server/BL/rating.js:15-17 | none exactly when the pair is unrated; otherwise a stored rating of the pair |
| RatingLogic.GetRatingIsStoredValue | server/BL/rating.js:15-17 | under the unique key, the read yields a value exactly when that value is stored for the pair |
| RatingLogic.CanRateUser | server/BL/rating.js:19-21 | true only when both ids are truthy and the account has the rater on its received-service list; `CanRateUserIff` gives the converse |
| RatingLogic.CanRateUserIff | server/BL/rating.js:19-21 | a rater may rate exactly when both ids are truthy and the account has the rater on its received-service list |

## Left out

- Foreign-key enforcement by MySQL is not modelled as behaviour. `Schema.ReferentialIntegrity` states the keys, and the cascades are proved to keep them.
- Ids are integers throughout. The string/number coercions of the HTTP layer are not modelled, nor are `JSON_SEARCH`/`JSON_CONTAINS` matches between a string and a number.
- Strings compare by code point. MySQL collations (case and accent folding) are not modelled, so `ORDER BY title` sorts by code point.
- `ServicesData.SortRank`: `sortBy` is interpolated into SQL as a column name. Only "", `created_at` and `title` are modelled; any other value is a malformed query.
- `Ordering.SortDesc`: the order of rows with equal sort keys (and NULL ordering) is unspecified in MySQL. The model fixes one order, and the contracts state only sortedness and permutation.
- The server's `bcrypt` hashing is the parameter `hash`, the fresh salt of `genSalt` is a parameter, and the clock behind `created_at` is the parameter `now`.
- File-system deletes of uploaded images, JWT handling, the Express routers and the React UI are not modelled. The one exception is the accept direction in `client/src/components/Comments.js`.
- `getAllComments` and `getAllServicesAdmin` are administrator listings outside this model.
- Concurrency and transactions are not modelled. Each statement is atomic; `AdminData.DeleteUser` is modelled as the non-atomic sequence it is, with a failure planted by a parameter.
- `UserLogic.LoginUser`: the iff between success and a stored matching account holds only while e-mails are distinct, which registration keeps and a profile update can break.
- `UserData.ApplyPatch` and `UserData.UpdateUser`: `SET ?` writes whatever object it is given, and the profile route forwards the request body unfiltered. The patch names only ten columns, each with a non-NULL value. Writes to `id`, `report_ids` and `received_service_ids`, writes of NULL, and the error MySQL raises for a key that names no column are not modelled.
- `ServicesData.EditListing` and `ServicesData.SetOpen`: the DDL's `services.updated_at` (`ON UPDATE CURRENT_TIMESTAMP`) is not a column of the model, so the refresh MySQL gives it on every update that changes a row is not modelled.
- `CommentsData.AddComment`: the DDL's `comments.createdAt` (default `CURRENT_TIMESTAMP`) is not a column of the model, and the comment reads do not return it.
- `RatingData.Upsert`: ratings are integers, while the DDL column is FLOAT. The `ratings.id` surrogate key is not stored.
- `RatingLogic.AddOrUpdateRating`: the average is an exact rational. IEEE-754 rounding of the JavaScript division is not modelled.
- `reportUser`, `addUserToReceivedServiceList`, `createService`, `updateService`, `fetchServiceById` and `getCommentsByServiceId` in `server/BL` only forward to the data layer. They are covered by the data-layer members.
