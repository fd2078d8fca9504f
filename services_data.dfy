/**
 * The listings table (server/DL/services.js): creating, editing, deleting and opening
 * or closing a listing, and the two filtered, sorted queries behind the browse page.
 */
module ServicesData {
  import opened Wrappers
  import opened Schema
  import Sql
  import Js
  import Ordering
  import UserData

  /** The fields `createService` inserts. */
  datatype NewService = NewService(
    userId: int, kind: ServiceType, title: string, description: string,
    category: string, subcategories: seq<string>, compensation: string)

  /** What `createService` returns: the AUTO_INCREMENT id spread with the given fields. */
  datatype CreatedService = CreatedService(id: int, service: NewService)

  /** The five columns `updateService` rewrites. */
  datatype ServiceEdit = ServiceEdit(
    title: string, description: string, category: string, subcategories: seq<string>, compensation: string)

  /** What `updateService` returns: the id spread with the given fields, whether or not a row matched. */
  datatype UpdatedService = UpdatedService(id: int, edit: ServiceEdit)

  /** A row of the `services JOIN users` query: the listing with its owner's name, email and phone. */
  datatype ServiceWithOwner = ServiceWithOwner(service: ServiceRow, userName: string, userEmail: string, userPhone: Option<string>)

  /** The `userID` query parameter of the "All" browse mode. */
  datatype OwnerParam =
    | NullText      // the string "null": no owner condition
    | Missing       // absent: `userId = NULL`, which no row satisfies
    | Owner(id: int)

  /** The row INSERT produces; `created_at` is the clock reading `now`, and a new listing is open. */
  function NewServiceRow(id: int, service: NewService, now: int): (r: ServiceRow)
    ensures r.id == id && r.userId == service.userId && r.kind == service.kind
    ensures r.title == service.title && r.description == service.description && r.category == service.category
    ensures r.subcategories == service.subcategories && r.compensation == service.compensation
    ensures r.createdAt == now && r.isOpen
  {
    ServiceRow(id, service.userId, service.kind, service.title, service.description,
      service.category, service.subcategories, service.compensation, now, true)
  }

  /** `getDetailsServiceById`: the listing with that id, or nothing. */
  function GetDetailsServiceById(services: seq<ServiceRow>, id: int): (r: Option<ServiceRow>)
    ensures r.None? <==> forall s :: s in services ==> s.id != id
    ensures r.Some? ==> r.value in services && r.value.id == id
  {
    Sql.FirstWhere(services, (s: ServiceRow) => s.id == id)
  }

  /** `getServiceById`: the inner join of the listing with its owner; nothing when either row is missing. */
  function GetServiceById(services: seq<ServiceRow>, users: seq<UserRow>, id: int): (r: Option<ServiceWithOwner>)
    ensures r.Some? ==> r.value.service in services && r.value.service.id == id
    ensures r.Some? ==> exists u ::
      && u in users && u.id == r.value.service.userId && u.username == r.value.userName
      && u.email == r.value.userEmail && u.phone == r.value.userPhone
  {
    match GetDetailsServiceById(services, id)
    case None => None
    case Some(s) =>
      match UserData.GetUserById(users, s.userId)
      case None => None
      case Some(u) => Some(ServiceWithOwner(s, u.username, u.email, u.phone))
  }

  /** Under the foreign key on `services.userId`, the join finds every listing that exists. */
  lemma JoinFindsEveryListing(users: seq<UserRow>, services: seq<ServiceRow>, comments: seq<CommentRow>,
                              ratings: seq<RatingRow>, id: int)
    requires ReferentialIntegrity(users, services, comments, ratings)
    ensures GetServiceById(services, users, id).Some? <==> ServiceExists(services, id)
  {
    var d := GetDetailsServiceById(services, id);
    if d.Some? {
      assert UserExists(users, d.value.userId);
    }
  }

  /** `UPDATE services SET title, description, category, subcategories, compensation WHERE id = ?`. */
  function EditListing(services: seq<ServiceRow>, id: int, e: ServiceEdit): (r: seq<ServiceRow>)
    ensures |r| == |services|
    ensures forall i :: 0 <= i < |r| ==>
      && r[i].id == services[i].id && r[i].userId == services[i].userId && r[i].kind == services[i].kind
      && r[i].createdAt == services[i].createdAt && r[i].isOpen == services[i].isOpen
    ensures forall i :: 0 <= i < |r| && services[i].id != id ==> r[i] == services[i]
    ensures forall i :: 0 <= i < |r| && services[i].id == id ==>
      && r[i].title == e.title && r[i].description == e.description && r[i].category == e.category
      && r[i].subcategories == e.subcategories && r[i].compensation == e.compensation
  {
    Sql.UpdateWhere(services, (s: ServiceRow) => s.id == id,
      (s: ServiceRow) => s.(title := e.title, description := e.description, category := e.category,
                            subcategories := e.subcategories, compensation := e.compensation))
  }

  /** `UPDATE services SET is_open = ? WHERE id = ?`. */
  function SetOpen(services: seq<ServiceRow>, id: int, isOpen: bool): (r: seq<ServiceRow>)
    ensures |r| == |services|
    ensures forall i :: 0 <= i < |r| ==> r[i] == if services[i].id == id then services[i].(isOpen := isOpen) else services[i]
  {
    Sql.UpdateWhere(services, (s: ServiceRow) => s.id == id, (s: ServiceRow) => s.(isOpen := isOpen))
  }

  /** `DELETE FROM services WHERE id = ?`. */
  function RemoveListing(services: seq<ServiceRow>, id: int): (r: seq<ServiceRow>)
    ensures forall s :: s in r <==> s in services && s.id != id
  {
    Sql.DeleteWhere(services, (s: ServiceRow) => s.id == id)
  }

  /** The type condition: none for an empty filter or "all", `request` for "requests", `offer` for anything else. */
  predicate TypeMatches(s: ServiceRow, filterType: string) {
    filterType == "" || filterType == "all" || s.kind == (if filterType == "requests" then Request else Offer)
  }

  /** The three cases of the type condition. */
  lemma TypeFilterCases(s: ServiceRow, filterType: string)
    ensures filterType == "" || filterType == "all" ==> TypeMatches(s, filterType)
    ensures filterType == "requests" ==> (TypeMatches(s, filterType) <==> s.kind == Request)
    ensures filterType !in {"", "all", "requests"} ==> (TypeMatches(s, filterType) <==> s.kind == Offer)
  {
  }

  /** The columns the browse page sorts by. */
  function CreatedAtRank(s: ServiceRow): seq<int> {
    [s.createdAt]
  }

  /** Titles compare character by character. */
  function TitleRank(s: ServiceRow): (r: seq<int>)
    ensures |r| == |s.title|
  {
    seq(|s.title|, i requires 0 <= i < |s.title| => s.title[i] as int)
  }

  /** `ORDER BY ${sortBy || "created_at"}`: the two sort keys the page offers; any other text is not modelled and fails. */
  function SortRank(sortBy: string): (r: Option<ServiceRow -> seq<int>>)
    ensures sortBy == "" || sortBy == "created_at" ==> r == Some(CreatedAtRank)
    ensures sortBy == "title" ==> r == Some(TitleRank)
    ensures r.None? <==> sortBy !in {"", "created_at", "title"}
  {
    if sortBy == "" || sortBy == "created_at" then Some(CreatedAtRank)
    else if sortBy == "title" then Some(TitleRank)
    else None
  }

  /** The conditions of `getServices`: exact category, every requested subcategory, and the type. */
  predicate InCategory(s: ServiceRow, category: string, subCategories: string, filterType: string) {
    && s.category == category
    && (subCategories != "" ==> forall p :: p in Js.Split(subCategories) ==> p in s.subcategories)
    && TypeMatches(s, filterType)
  }

  /** `getServices`: the listings of one category holding all requested subcategories, sorted descending. */
  function GetServices(services: seq<ServiceRow>, category: string, sortBy: string, subCategories: string,
                       filterType: string): (r: Result<seq<ServiceRow>, Error>)
    ensures r.Failure? <==> SortRank(sortBy).None?
    ensures r.Failure? ==> r.error == BadQuery
    ensures r.Success? ==> forall s :: s in r.value <==> s in services && InCategory(s, category, subCategories, filterType)
    ensures r.Success? ==>
      multiset(r.value) == multiset(Sql.Select(services, (s: ServiceRow) => InCategory(s, category, subCategories, filterType)))
    ensures r.Success? ==> Ordering.SortedDesc(r.value, SortRank(sortBy).value)
  {
    match SortRank(sortBy)
    case None => Failure(BadQuery)
    case Some(rank) =>
      var selected := Sql.Select(services, (s: ServiceRow) => InCategory(s, category, subCategories, filterType));
      var sorted := Ordering.SortDesc(selected, rank);
      Ordering.SameElements(sorted, selected);
      Success(sorted)
  }

  /** The conditions of `getAllServices`: the whole subcategory string as one element, the owner, and the type. */
  predicate InAll(s: ServiceRow, subCategory: string, owner: OwnerParam, filterType: string) {
    && (subCategory != "" ==> subCategory in s.subcategories)
    && (match owner
        case NullText => true
        case Missing => false
        case Owner(id) => s.userId == id)
    && TypeMatches(s, filterType)
  }

  /** `getAllServices`: the listings of every category passing the optional conditions, sorted descending. */
  function GetAllServices(services: seq<ServiceRow>, sortBy: string, subCategory: string, owner: OwnerParam,
                          filterType: string): (r: Result<seq<ServiceRow>, Error>)
    ensures r.Failure? <==> SortRank(sortBy).None?
    ensures r.Failure? ==> r.error == BadQuery
    ensures r.Success? ==> forall s :: s in r.value <==> s in services && InAll(s, subCategory, owner, filterType)
    ensures r.Success? ==>
      multiset(r.value) == multiset(Sql.Select(services, (s: ServiceRow) => InAll(s, subCategory, owner, filterType)))
    ensures r.Success? ==> Ordering.SortedDesc(r.value, SortRank(sortBy).value)
  {
    match SortRank(sortBy)
    case None => Failure(BadQuery)
    case Some(rank) =>
      var selected := Sql.Select(services, (s: ServiceRow) => InAll(s, subCategory, owner, filterType));
      var sorted := Ordering.SortDesc(selected, rank);
      Ordering.SameElements(sorted, selected);
      Success(sorted)
  }

  /**
   * The browse page sends its chosen subcategories joined with commas.  In single-category
   * mode they are split again, so a listing is kept exactly when it holds every one of them.
   */
  lemma ChosenSubcategoriesAllRequired(s: ServiceRow, category: string, chosen: seq<string>, filterType: string)
    requires |chosen| >= 1 && forall p :: p in chosen ==> ',' !in p
    requires Js.Join(chosen) != ""
    ensures InCategory(s, category, Js.Join(chosen), filterType) <==>
      s.category == category && (forall p :: p in chosen ==> p in s.subcategories) && TypeMatches(s, filterType)
  {
    Js.SplitJoin(chosen);
  }

  /** In "All" mode a single chosen subcategory keeps the listings that have it. */
  lemma SingleSubcategoryOverlap(s: ServiceRow, sub: string, owner: OwnerParam, filterType: string)
    requires sub != ""
    ensures InAll(s, sub, owner, filterType) ==> exists p :: p in [sub] && p in s.subcategories
    ensures (exists p :: p in [sub] && p in s.subcategories) && InAll(s, "", owner, filterType) ==>
      InAll(s, sub, owner, filterType)
  {
    if InAll(s, sub, owner, filterType) {
      assert sub in [sub];
    }
  }

  /** `createService`: inserts the listing under the next id, stamped `now`, and returns that id with the given fields. */
  method CreateService(db: Database, service: NewService, now: int) returns (created: CreatedService)
    requires db.Valid()
    modifies db`services, db`nextServiceId
    ensures db.Valid()
    ensures created == CreatedService(old(db.nextServiceId), service)
    ensures forall s :: s in old(db.services) ==> s.id != created.id
    ensures db.services == old(db.services) + [NewServiceRow(created.id, service, now)]
  {
    var id := db.nextServiceId;
    var row := NewServiceRow(id, service, now);
    Sql.AppendKeepsDistinctKeys(db.services, row, ServiceKey);
    db.services := db.services + [row];
    db.nextServiceId := id + 1;
    created := CreatedService(id, service);
  }

  /** `updateService`. */
  method UpdateService(db: Database, id: int, edit: ServiceEdit) returns (updated: UpdatedService)
    requires db.Valid()
    modifies db`services
    ensures db.Valid()
    ensures db.services == EditListing(old(db.services), id, edit)
    ensures updated == UpdatedService(id, edit)
  {
    var after := EditListing(db.services, id, edit);
    Sql.SameKeys(db.services, after, ServiceKey);
    Sql.SameKeysBelow(db.services, after, ServiceKey, db.nextServiceId);
    db.services := after;
    updated := UpdatedService(id, edit);
  }

  /** `deleteService`: removes the listing and returns `affectedRows`. */
  method DeleteService(db: Database, id: int) returns (affected: int)
    requires db.Valid()
    modifies db`services
    ensures db.Valid()
    ensures db.services == RemoveListing(old(db.services), id)
    ensures affected == if ServiceExists(old(db.services), id) then 1 else 0
  {
    Sql.DeleteKeepsDistinctKeys(db.services, (s: ServiceRow) => s.id == id, ServiceKey);
    Sql.DeleteAtMostOne(db.services, (s: ServiceRow) => s.id == id);
    var after := RemoveListing(db.services, id);
    affected := |db.services| - |after|;
    db.services := after;
  }

  /** `toggleServiceStatus`: sets the listing's open flag. */
  method ToggleServiceStatus(db: Database, serviceId: int, isOpen: bool)
    requires db.Valid()
    modifies db`services
    ensures db.Valid()
    ensures db.services == SetOpen(old(db.services), serviceId, isOpen)
  {
    var after := SetOpen(db.services, serviceId, isOpen);
    Sql.SameKeys(db.services, after, ServiceKey);
    Sql.SameKeysBelow(db.services, after, ServiceKey, db.nextServiceId);
    db.services := after;
  }
}
