/**
 * The rating business logic (server/BL/rating.js): write the rating, recompute the
 * account's average over every rating it has, store that average on the account.
 */
module RatingLogic {
  import opened Wrappers
  import opened Schema
  import Sql
  import RatingData
  import UserData

  /** `ratings.reduce((acc, { rating }) => acc + rating, 0)`: a left fold from 0. */
  function Sum(xs: seq<int>): int {
    if xs == [] then 0 else Sum(xs[..|xs| - 1]) + xs[|xs| - 1]
  }

  /** `total / ratings.length`, exactly. */
  function Mean(xs: seq<int>): (m: real)
    requires |xs| > 0
    ensures m * |xs| as real == Sum(xs) as real
  {
    Sum(xs) as real / |xs| as real
  }

  /** Taking one value out of the middle of a sum. */
  lemma {:induction false} SumRemove(a: seq<int>, x: int, b: seq<int>)
    ensures Sum(a + [x] + b) == Sum(a + b) + x
    decreases |b|
  {
    if b == [] {
      assert a + [x] + b == a + [x];
      assert (a + [x])[..|a|] == a;
      assert a + b == a;
    } else {
      var init := b[..|b| - 1];
      SumRemove(a, x, init);
      assert (a + [x] + b)[..|a + [x] + b| - 1] == a + [x] + init;
      assert (a + b)[..|a + b| - 1] == a + init;
    }
  }

  /** The fold does not depend on the order of the ratings, only on how often each value occurs. */
  lemma {:induction false} SumPermutation(xs: seq<int>, ys: seq<int>)
    requires multiset(xs) == multiset(ys)
    ensures Sum(xs) == Sum(ys)
    decreases |xs|
  {
    if xs == [] {
      assert |ys| == |multiset(ys)| == 0;
    } else {
      var x := xs[|xs| - 1];
      var init := xs[..|xs| - 1];
      assert xs == init + [x];
      assert x in multiset(ys);
      var k :| 0 <= k < |ys| && ys[k] == x;
      var rest := ys[..k] + ys[k + 1..];
      assert ys == ys[..k] + [x] + ys[k + 1..];
      SumRemove(ys[..k], x, ys[k + 1..]);
      assert multiset(ys) == multiset(ys[..k]) + multiset{x} + multiset(ys[k + 1..]);
      assert multiset(xs) == multiset(init) + multiset{x};
      assert multiset(rest) == multiset(ys[..k]) + multiset(ys[k + 1..]);
      assert multiset(rest) == multiset(ys) - multiset{x};
      assert multiset(init) == multiset(xs) - multiset{x};
      SumPermutation(init, rest);
    }
  }

  /** Every value lies in `lo..hi`. */
  predicate AllWithin(xs: seq<int>, lo: int, hi: int) {
    forall x :: x in xs ==> lo <= x <= hi
  }

  /** The sum of n values in `lo..hi` lies between n * lo and n * hi. */
  lemma {:induction false} SumWithin(xs: seq<int>, lo: int, hi: int)
    requires AllWithin(xs, lo, hi)
    ensures lo * |xs| <= Sum(xs) <= hi * |xs|
  {
    if xs != [] {
      var init := xs[..|xs| - 1];
      assert forall x :: x in init ==> x in xs;
      SumWithin(init, lo, hi);
      assert xs[|xs| - 1] in xs;
      var n := |init|;
      assert lo * (n + 1) == lo * n + lo;
      assert hi * (n + 1) == hi * n + hi;
    }
  }

  /** The average of values in `lo..hi` is in `lo..hi`; in particular it lies between the least and the greatest rating. */
  lemma MeanWithin(xs: seq<int>, lo: int, hi: int)
    requires |xs| > 0 && AllWithin(xs, lo, hi)
    ensures lo as real <= Mean(xs) <= hi as real
  {
    SumWithin(xs, lo, hi);
    var n := |xs| as real;
    var total := Sum(xs) as real;
    assert (lo * |xs|) as real == lo as real * n;
    assert (hi * |xs|) as real == hi as real * n;
    QuotientWithin(total, n, lo as real, hi as real);
  }

  /** Dividing `lo * n <= total <= hi * n` by a positive `n`. */
  lemma QuotientWithin(total: real, n: real, lo: real, hi: real)
    requires n > 0.0 && lo * n <= total <= hi * n
    ensures lo <= total / n <= hi
  {
    assert total / n - lo == (total - lo * n) / n;
    assert hi - total / n == (hi * n - total) / n;
  }

  /** Every stored rating of the account lies in `lo..hi`. */
  ghost predicate RatingsWithin(ratings: seq<RatingRow>, lo: int, hi: int) {
    forall x :: x in ratings ==> lo <= x.rating <= hi
  }

  /** After the upsert the account has at least one rating, so the division is defined, and the new rating is among them. */
  lemma RatedAccountHasRatings(ratings: seq<RatingRow>, userId: int, raterId: int, rating: int)
    ensures rating in RatingData.GetRatingsForUser(RatingData.Upsert(ratings, userId, raterId, rating), userId)
    ensures |RatingData.GetRatingsForUser(RatingData.Upsert(ratings, userId, raterId, rating), userId)| > 0
  {
    var after := RatingData.Upsert(ratings, userId, raterId, rating);
    assert RatingRow(userId, raterId, rating) in after;
  }

  /**
   * With every rating (the new one included) in `lo..hi`, so is the recomputed average:
   * ratings of 1 to 5 stars give an average of 1 to 5.
   */
  lemma AverageWithin(ratings: seq<RatingRow>, userId: int, raterId: int, rating: int, lo: int, hi: int)
    requires RatingsWithin(ratings, lo, hi) && lo <= rating <= hi
    ensures var xs := RatingData.GetRatingsForUser(RatingData.Upsert(ratings, userId, raterId, rating), userId);
      |xs| > 0 && lo as real <= Mean(xs) <= hi as real
  {
    var after := RatingData.Upsert(ratings, userId, raterId, rating);
    var xs := RatingData.GetRatingsForUser(after, userId);
    RatedAccountHasRatings(ratings, userId, raterId, rating);
    assert AllWithin(xs, lo, hi);
    MeanWithin(xs, lo, hi);
  }

  /** The patch `{ rating: averageRating }`. */
  function RatingPatch(average: real): (p: UserData.UserPatch)
    ensures !UserData.EmptyPatch(p)
    ensures forall u :: UserData.ApplyPatch(u, p) == u.(rating := average)
  {
    UserData.UserPatch(None, None, None, None, None, None, None, None, Some(average), None)
  }

  /**
   * `addOrUpdateRating`: upsert the pair, read the account's ratings back, store their
   * mean on the account and return it.  Eligibility is not consulted.
   */
  method AddOrUpdateRating(db: Database, userId: int, raterId: int, rating: int) returns (average: real)
    requires db.Valid()
    modifies db`ratings, db`users
    ensures db.Valid()
    ensures db.ratings == RatingData.Upsert(old(db.ratings), userId, raterId, rating)
    ensures var xs := RatingData.GetRatingsForUser(db.ratings, userId); |xs| > 0 && average == Mean(xs)
    ensures db.users == UserData.PatchUser(old(db.users), userId, RatingPatch(average))
  {
    RatedAccountHasRatings(db.ratings, userId, raterId, rating);
    RatingData.AddOrUpdateRating(db, userId, raterId, rating);
    var ratings := RatingData.GetRatingsForUser(db.ratings, userId);
    average := Mean(ratings);
    var _ := UserData.UpdateUser(db, userId, RatingPatch(average));
  }

  /** The average the account shows afterwards is the one returned. */
  lemma StoredAverageIsReturned(users: seq<UserRow>, userId: int, average: real)
    requires Sql.DistinctKeys(users, UserKey) && UserExists(users, userId)
    ensures var found := UserData.GetUserById(UserData.PatchUser(users, userId, RatingPatch(average)), userId);
      found.Some? && found.value.rating == average
  {
    UserData.PatchedUserIsFound(users, userId, RatingPatch(average));
  }

  /** `getRating`: the data layer's read, unchanged. */
  function GetRating(ratings: seq<RatingRow>, userId: int, raterId: int): (r: Option<int>)
    ensures r.None? <==> !RatingData.PairRated(ratings, userId, raterId)
    ensures r.Some? ==> RatingRow(userId, raterId, r.value) in ratings
  {
    RatingData.GetRating(ratings, userId, raterId)
  }

  /** With one row per pair, `getRating` yields exactly the value stored for the pair. */
  lemma GetRatingIsStoredValue(ratings: seq<RatingRow>, userId: int, raterId: int, w: int)
    requires Sql.DistinctKeys(ratings, RatingKey)
    ensures GetRating(ratings, userId, raterId) == Some(w) <==> RatingRow(userId, raterId, w) in ratings
  {
    if RatingRow(userId, raterId, w) in ratings {
      RatingData.GetRatingUnique(ratings, userId, raterId, w);
    }
  }

  /** `canRateUser`: the data layer's eligibility read, unchanged. */
  function CanRateUser(users: seq<UserRow>, userId: Option<int>, raterId: Option<int>): (r: bool)
    ensures r ==> !RatingData.Falsy(userId) && !RatingData.Falsy(raterId) && ReceivedFrom(users, userId.value, raterId.value)
  {
    RatingData.HasReceivedServiceFrom(users, userId, raterId)
  }

  /** The account `userId` has `raterId` on its received-service list. */
  ghost predicate ReceivedFrom(users: seq<UserRow>, userId: int, raterId: int) {
    exists u :: u in users && u.id == userId && u.receivedServiceIds.Some? && raterId in u.receivedServiceIds.value
  }

  /** A rater may rate an account exactly when both ids are truthy and the account received a service from the rater. */
  lemma CanRateUserIff(users: seq<UserRow>, userId: Option<int>, raterId: Option<int>)
    requires Sql.DistinctKeys(users, UserKey)
    ensures CanRateUser(users, userId, raterId) <==>
      !RatingData.Falsy(userId) && !RatingData.Falsy(raterId) && ReceivedFrom(users, userId.value, raterId.value)
  {
    if !RatingData.Falsy(userId) && !RatingData.Falsy(raterId) && ReceivedFrom(users, userId.value, raterId.value) {
      var u :| u in users && u.id == userId.value && u.receivedServiceIds.Some? && raterId.value in u.receivedServiceIds.value;
      var i :| 0 <= i < |users| && users[i] == u;
      UserData.UserByIdUnique(users, i);
    }
  }
}
