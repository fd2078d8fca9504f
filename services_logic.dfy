/**
 * The listings business logic (server/BL/services.js): the ownership check, deleting a
 * listing together with its thread, and the dispatch between the two browse queries.
 */
module ServicesLogic {
  import opened Wrappers
  import opened Schema
  import Sql
  import CommentsData
  import ServicesData
  import Ordering

  /**
   * `checkValidation`: whether the listing's stored owner is the caller.  A listing that
   * does not exist makes the code read `userId` of `undefined`.
   */
  function CheckValidation(services: seq<ServiceRow>, userId: int, serviceId: int): (r: Result<bool, Error>)
    ensures r.Failure? <==> !ServiceExists(services, serviceId)
    ensures r.Failure? ==> r.error == MissingRow
    ensures Sql.DistinctKeys(services, ServiceKey) ==>
      (r == Success(true) <==> exists s :: s in services && s.id == serviceId && s.userId == userId)
  {
    match ServicesData.GetDetailsServiceById(services, serviceId)
    case None => Failure(MissingRow)
    case Some(s) =>
      assert Sql.DistinctKeys(services, ServiceKey) ==> forall t :: t in services && t.id == serviceId ==> t == s by {
        if Sql.DistinctKeys(services, ServiceKey) {
          forall t | t in services && t.id == serviceId ensures t == s {
            var i :| 0 <= i < |services| && services[i] == t;
            var j :| 0 <= j < |services| && services[j] == s;
            assert ServiceKey(services[i]) == ServiceKey(services[j]);
          }
        }
      }
      Success(s.userId == userId)
  }

  /** `deleteService`: the listing's thread first, then the listing; returns `affectedRows`. */
  method DeleteService(db: Database, id: int) returns (affected: int)
    requires db.Valid()
    modifies db`comments, db`services
    ensures db.Valid()
    ensures db.comments == CommentsData.RemoveServiceComments(old(db.comments), id)
    ensures db.services == ServicesData.RemoveListing(old(db.services), id)
    ensures affected == if ServiceExists(old(db.services), id) then 1 else 0
  {
    CommentsData.DeleteAllComment(db, id);
    affected := ServicesData.DeleteService(db, id);
  }

  /**
   * Deleting a listing with its thread keeps every foreign key satisfied: no comment is
   * left pointing at the listing, and every other listing stays.
   */
  lemma DeleteServiceKeepsIntegrity(users: seq<UserRow>, services: seq<ServiceRow>, comments: seq<CommentRow>,
                                    ratings: seq<RatingRow>, id: int)
    requires ReferentialIntegrity(users, services, comments, ratings)
    ensures var comments' := CommentsData.RemoveServiceComments(comments, id);
      var services' := ServicesData.RemoveListing(services, id);
      && ReferentialIntegrity(users, services', comments', ratings)
      && (forall c :: c in comments' ==> c.serviceId != id)
      && (forall s :: s in services && s.id != id ==> s in services')
  {
    var comments' := CommentsData.RemoveServiceComments(comments, id);
    var services' := ServicesData.RemoveListing(services, id);
    forall c | c in comments' ensures ServiceExists(services', c.serviceId) {
      var s :| s in services && s.id == c.serviceId;
      assert s in services';
    }
  }

  /** Deleting only the listing row, without its thread, can leave comments pointing at nothing. */
  lemma ThreadFirstIsNeeded(u: UserRow, s: ServiceRow, c: CommentRow)
    requires c.serviceId == s.id && s.userId == u.id && c.userId == u.id
    ensures ReferentialIntegrity([u], [s], [c], [])
    ensures !ReferentialIntegrity([u], ServicesData.RemoveListing([s], s.id), [c], [])
  {
    assert ServicesData.RemoveListing([s], s.id) == [];
  }

  /**
   * `fetchServices`: any category other than "All" goes to the single-category query,
   * which takes no owner; "All" goes to the query over every category.
   */
  function FetchServices(services: seq<ServiceRow>, category: string, sortBy: string, subCategory: string,
                         owner: ServicesData.OwnerParam, filterType: string): (r: Result<seq<ServiceRow>, Error>)
    ensures r.Failure? <==> ServicesData.SortRank(sortBy).None?
    ensures r.Failure? ==> r.error == BadQuery
    ensures r.Success? ==> (forall s :: s in r.value ==> s in services && ServicesData.TypeMatches(s, filterType))
    ensures r.Success? ==> Ordering.SortedDesc(r.value, ServicesData.SortRank(sortBy).value)
    ensures category != "All" && r.Success? ==>
      forall s :: s in r.value <==> s in services && ServicesData.InCategory(s, category, subCategory, filterType)
    ensures category == "All" && r.Success? ==>
      forall s :: s in r.value <==> s in services && ServicesData.InAll(s, subCategory, owner, filterType)
  {
    if category != "All" then ServicesData.GetServices(services, category, sortBy, subCategory, filterType)
    else ServicesData.GetAllServices(services, sortBy, subCategory, owner, filterType)
  }

  /** Outside "All", the result is the named category's listings and does not depend on the owner parameter. */
  lemma FetchOneCategory(services: seq<ServiceRow>, category: string, sortBy: string, subCategory: string,
                         owner: ServicesData.OwnerParam, other: ServicesData.OwnerParam, filterType: string)
    requires category != "All"
    ensures FetchServices(services, category, sortBy, subCategory, owner, filterType) ==
      FetchServices(services, category, sortBy, subCategory, other, filterType)
    ensures var r := FetchServices(services, category, sortBy, subCategory, owner, filterType);
      r.Success? ==> forall s :: s in r.value ==> s.category == category
  {
  }

  /** In "All" mode the owner and subcategory conditions apply and no category condition does. */
  lemma FetchAllCategories(services: seq<ServiceRow>, sortBy: string, subCategory: string,
                           owner: ServicesData.OwnerParam, filterType: string)
    ensures var r := FetchServices(services, "All", sortBy, subCategory, owner, filterType);
      r.Success? ==> forall s :: s in r.value <==>
        && s in services
        && ServicesData.TypeMatches(s, filterType)
        && (subCategory != "" ==> subCategory in s.subcategories)
        && (owner.Owner? ==> s.userId == owner.id)
        && !owner.Missing?
  {
  }

  /** `toggleServiceStatus`. */
  method ToggleServiceStatus(db: Database, serviceId: int, isOpen: bool)
    requires db.Valid()
    modifies db`services
    ensures db.Valid()
    ensures db.services == ServicesData.SetOpen(old(db.services), serviceId, isOpen)
  {
    ServicesData.ToggleServiceStatus(db, serviceId, isOpen);
  }

  /** Toggling a listing's flag and toggling it back restores the table: the flag is all that changes. */
  lemma ToggleBackRestores(services: seq<ServiceRow>, s: ServiceRow, isOpen: bool)
    requires Sql.DistinctKeys(services, ServiceKey) && s in services
    ensures ServicesData.SetOpen(ServicesData.SetOpen(services, s.id, isOpen), s.id, s.isOpen) == services
  {
    var back := ServicesData.SetOpen(ServicesData.SetOpen(services, s.id, isOpen), s.id, s.isOpen);
    var k :| 0 <= k < |services| && services[k] == s;
    forall i | 0 <= i < |services| ensures back[i] == services[i] {
      if services[i].id == s.id {
        assert ServiceKey(services[i]) == ServiceKey(services[k]);
      }
    }
  }
}
