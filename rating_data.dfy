/**
 * The ratings table (server/DL/rating.js): one rating per (rated account, rater) pair,
 * written by an upsert, and the eligibility test that reads the rated account's
 * received-service list.
 */
module RatingData {
  import opened Wrappers
  import opened Schema
  import Sql
  import UserData

  /**
   * `INSERT ... ON DUPLICATE KEY UPDATE rating = ?`: the row with the pair takes the new
   * value; when there is none a row is appended.
   */
  function Upsert(ratings: seq<RatingRow>, userId: int, raterId: int, rating: int): (r: seq<RatingRow>)
    ensures RatingRow(userId, raterId, rating) in r
    ensures forall x :: x in r ==> x in ratings || x == RatingRow(userId, raterId, rating)
    ensures forall x :: x in r && RatingKey(x) != (userId, raterId) <==> x in ratings && RatingKey(x) != (userId, raterId)
    ensures |r| == |ratings| + (if PairRated(ratings, userId, raterId) then 0 else 1)
    ensures Sql.DistinctKeys(ratings, RatingKey) ==> Sql.DistinctKeys(r, RatingKey)
  {
    if ratings == [] then [RatingRow(userId, raterId, rating)]
    else if RatingKey(ratings[0]) == (userId, raterId) then
      var r := [ratings[0].(rating := rating)] + ratings[1..];
      assert forall x :: x in ratings <==> x == ratings[0] || x in ratings[1..];
      assert forall x :: x in r <==> x == r[0] || x in ratings[1..];
      assert Sql.DistinctKeys(ratings, RatingKey) ==> Sql.DistinctKeys(r, RatingKey) by {
        if Sql.DistinctKeys(ratings, RatingKey) {
          forall i, j | 0 <= i < j < |r| ensures RatingKey(r[i]) != RatingKey(r[j]) {
            assert RatingKey(r[i]) == RatingKey(ratings[i]) && RatingKey(r[j]) == RatingKey(ratings[j]);
          }
        }
      }
      r
    else
      var rest := Upsert(ratings[1..], userId, raterId, rating);
      var r := [ratings[0]] + rest;
      assert forall x :: x in ratings <==> x == ratings[0] || x in ratings[1..];
      assert PairRated(ratings, userId, raterId) == PairRated(ratings[1..], userId, raterId);
      assert Sql.DistinctKeys(ratings, RatingKey) ==> Sql.DistinctKeys(r, RatingKey) by {
        if Sql.DistinctKeys(ratings, RatingKey) {
          assert Sql.DistinctKeys(ratings[1..], RatingKey) by {
            forall i, j | 0 <= i < j < |ratings[1..]| ensures RatingKey(ratings[1..][i]) != RatingKey(ratings[1..][j]) {
              assert ratings[1..][i] == ratings[i + 1] && ratings[1..][j] == ratings[j + 1];
            }
          }
          forall y | y in rest ensures RatingKey(y) != RatingKey(ratings[0]) {
            if RatingKey(y) != (userId, raterId) {
              var k :| 0 <= k < |ratings[1..]| && ratings[1..][k] == y;
              assert ratings[k + 1] == y;
            }
          }
          forall i, j | 0 <= i < j < |r| ensures RatingKey(r[i]) != RatingKey(r[j]) {
            if i == 0 {
              assert r[j] in rest;
            } else {
              assert r[i] == rest[i - 1] && r[j] == rest[j - 1];
            }
          }
        }
      }
      r
  }

  /** Whether the pair already has a rating. */
  predicate PairRated(ratings: seq<RatingRow>, userId: int, raterId: int) {
    exists x :: x in ratings && RatingKey(x) == (userId, raterId)
  }

  /** `getRatingsForUser`: the values of the user's ratings, in table order, each as often as it was given. */
  function GetRatingsForUser(ratings: seq<RatingRow>, userId: int): (r: seq<int>)
    ensures |r| <= |ratings|
    ensures forall v :: v in r <==> exists x :: x in ratings && x.userId == userId && x.rating == v
    ensures forall v :: multiset(r)[v] == |Sql.Select(ratings, (x: RatingRow) => x.userId == userId && x.rating == v)|
  {
    if ratings == [] then []
    else
      var rest := GetRatingsForUser(ratings[1..], userId);
      assert forall x :: x in ratings <==> x == ratings[0] || x in ratings[1..];
      (if ratings[0].userId == userId then [ratings[0].rating] else []) + rest
  }

  /** `getRating`: the value the rater gave the user, or nothing. */
  function GetRating(ratings: seq<RatingRow>, userId: int, raterId: int): (r: Option<int>)
    ensures r.None? <==> !PairRated(ratings, userId, raterId)
    ensures r.Some? ==> RatingRow(userId, raterId, r.value) in ratings
  {
    match Sql.FirstWhere(ratings, (x: RatingRow) => x.userId == userId && x.raterId == raterId)
    case None => None
    case Some(x) => Some(x.rating)
  }

  /** With one row per pair, the value read back is the one in the pair's row. */
  lemma GetRatingUnique(ratings: seq<RatingRow>, u: int, v: int, w: int)
    requires Sql.DistinctKeys(ratings, RatingKey) && RatingRow(u, v, w) in ratings
    ensures GetRating(ratings, u, v) == Some(w)
  {
    var got := GetRating(ratings, u, v).value;
    var i :| 0 <= i < |ratings| && ratings[i] == RatingRow(u, v, w);
    var j :| 0 <= j < |ratings| && ratings[j] == RatingRow(u, v, got);
    assert RatingKey(ratings[i]) == RatingKey(ratings[j]);
  }

  /** After the upsert the pair reads back the new value, and every other pair reads back what it did before. */
  lemma UpsertThenGet(ratings: seq<RatingRow>, userId: int, raterId: int, rating: int, u: int, v: int)
    requires Sql.DistinctKeys(ratings, RatingKey)
    ensures GetRating(Upsert(ratings, userId, raterId, rating), u, v) ==
      if (u, v) == (userId, raterId) then Some(rating) else GetRating(ratings, u, v)
  {
    var after := Upsert(ratings, userId, raterId, rating);
    if (u, v) == (userId, raterId) {
      GetRatingUnique(after, u, v, rating);
    } else {
      match GetRating(ratings, u, v)
      case Some(w) =>
        assert RatingRow(u, v, w) in after;
        GetRatingUnique(after, u, v, w);
      case None =>
        assert !PairRated(after, u, v);
    }
  }

  /** How many ratings the user has. */
  lemma {:induction false} UpsertCount(ratings: seq<RatingRow>, userId: int, raterId: int, rating: int)
    requires Sql.DistinctKeys(ratings, RatingKey)
    ensures |GetRatingsForUser(Upsert(ratings, userId, raterId, rating), userId)| ==
      |GetRatingsForUser(ratings, userId)| + (if PairRated(ratings, userId, raterId) then 0 else 1)
    decreases ratings
  {
    if ratings != [] {
      var tail := ratings[1..];
      assert Sql.DistinctKeys(tail, RatingKey) by {
        forall i, j | 0 <= i < j < |tail| ensures RatingKey(tail[i]) != RatingKey(tail[j]) {
          assert tail[i] == ratings[i + 1] && tail[j] == ratings[j + 1];
        }
      }
      if RatingKey(ratings[0]) == (userId, raterId) {
        var after := [ratings[0].(rating := rating)] + tail;
        assert after[1..] == tail;
        assert PairRated(ratings, userId, raterId);
      } else {
        UpsertCount(tail, userId, raterId, rating);
        var after := [ratings[0]] + Upsert(tail, userId, raterId, rating);
        assert after[1..] == Upsert(tail, userId, raterId, rating);
        assert forall x :: x in ratings <==> x == ratings[0] || x in tail;
        assert PairRated(ratings, userId, raterId) == PairRated(tail, userId, raterId);
      }
    }
  }

  /** An account or rater id JavaScript treats as false: missing, or 0. */
  predicate Falsy(id: Option<int>) {
    id.None? || id.value == 0
  }

  /**
   * `hasReceivedServiceFrom`: false for a falsy id; otherwise whether the rater is on the
   * user's received-service list.  A missing row, or a NULL list, reads as false.
   */
  function HasReceivedServiceFrom(users: seq<UserRow>, userId: Option<int>, raterId: Option<int>): (r: bool)
    ensures r ==> !Falsy(userId) && !Falsy(raterId) && UserExists(users, userId.value)
  {
    if Falsy(userId) || Falsy(raterId) then false
    else
      match UserData.GetUserById(users, userId.value)
      case None => false
      case Some(u) => u.receivedServiceIds.Some? && raterId.value in u.receivedServiceIds.value
  }

  /** `addOrUpdateRating`. */
  method AddOrUpdateRating(db: Database, userId: int, raterId: int, rating: int)
    requires db.Valid()
    modifies db`ratings
    ensures db.Valid()
    ensures db.ratings == Upsert(old(db.ratings), userId, raterId, rating)
  {
    db.ratings := Upsert(db.ratings, userId, raterId, rating);
  }
}
