/** The request handlers of the OKR service: pagination, the permission
    check that guards every route, the three list endpoints and the five
    endpoints that change the store. HTTP plumbing is replaced by values: a
    handler takes the caller's credential, the path ids, the `page` argument
    and the decoded JSON body, and gives back a status code and a payload.
    Flask's `<int:...>` converter matches only digits, so a path id is a
    `nat`; any other path is a routing 404 before the handler runs. */
module Okr {
  import opened Python
  import opened Models

  const ITEMS_PER_PAGE: int := 5

  // The permission each route's decorator asks for.
  const GET_PERSONS: string := "get:persons"
  const GET_OBJECTIVES: string := "get:objectives"
  const GET_REQUIREMENTS: string := "get:requirements"
  const DELETE_OBJECTIVES: string := "delete:objectives"
  const DELETE_REQUIREMENTS: string := "delete:requirements"
  const PATCH_REQUIREMENTS: string := "patch:requirements"
  const POST_REQUIREMENTS: string := "post:requirements"
  const POST_OBJECTIVES: string := "post:objectives"

  // ---------------------------------------------------------------------------
  // Responses
  // ---------------------------------------------------------------------------

  /** What the caller presented: no Authorization header, a token that fails
      verification, or a verified token with the permissions it grants. */
  datatype Credential = NoHeader | InvalidToken | Token(permissions: set<string>)

  /** Why the permission check turned a request away. */
  datatype Denial = HeadersMissing | TokenRejected | PermissionMissing

  datatype Payload =
    | PersonList(persons: seq<PersonView>)
    | ObjectiveList(objectives: seq<ObjectiveView>)
    | RequirementList(requirements: seq<RequirementView>)
    | Deleted(deletedId: int)
    | Patched(previousStatus: bool, isMet: bool, changed: bool)
    | RequirementCreated(objectiveId: int, newRequirementId: int)
    | ObjectiveCreated(objectiveId: int, nRequirements: nat)
    | Failure(message: string)
    | Unauthorized(denial: Denial)

  datatype Response = Response(status: int, payload: Payload)

  /** The body of the 404 error handler. */
  const NotFound: Response := Response(404, Failure("resource not found"))

  /** The body of the 422 error handler. */
  const Malformed: Response := Response(422, Failure("request body malformed"))

  // ---------------------------------------------------------------------------
  // The permission check run by `requires_auth(permission)` before a handler
  // ---------------------------------------------------------------------------

  /** None lets the request through; otherwise the reason it is refused. */
  function Authorize(cred: Credential, permission: string): (r: Option<Denial>)
    ensures r.None? <==> cred.Token? && permission in cred.permissions
    ensures r == Some(HeadersMissing) <==> cred.NoHeader?
    ensures r == Some(TokenRejected) <==> cred.InvalidToken?
    ensures r == Some(PermissionMissing) <==> cred.Token? && permission !in cred.permissions
  {
    match cred
    case NoHeader => Some(HeadersMissing)
    case InvalidToken => Some(TokenRejected)
    case Token(permissions) => if permission in permissions then None else Some(PermissionMissing)
  }

  function Refused(d: Denial): Response
  {
    Response(401, Unauthorized(d))
  }

  // ---------------------------------------------------------------------------
  // Pagination
  // ---------------------------------------------------------------------------

  /** `request.args.get('page', 1, type=int)`: None stands for an argument
      that is absent or not an integer, which gives page 1. */
  function PageNumber(arg: Option<int>): int
  {
    if arg.Some? then arg.value else 1
  }

  function Min(a: int, b: int): int { if a < b then a else b }
  function Max(a: int, b: int): int { if a < b then b else a }

  /** `paginate_items`: the slice `items[(page-1)*5 : (page-1)*5 + 5]` of the
      formatted selection, with Python's slicing of negative bounds. */
  function PaginateItems<T>(page: int, items: seq<T>): (r: seq<T>)
    // always a run of consecutive items
    ensures var lo := SliceBound((page - 1) * ITEMS_PER_PAGE, |items|);
      lo + |r| <= |items| && r == items[lo..lo + |r|]
    // page 1, 2, ...: the window [(page-1)*5, page*5)
    ensures page >= 1 ==> |r| == Min(ITEMS_PER_PAGE, Max(0, |items| - (page - 1) * ITEMS_PER_PAGE))
    ensures page >= 1 ==>
      forall k | 0 <= k < |r| :: r[k] == items[(page - 1) * ITEMS_PER_PAGE + k]
    // page 0 is always empty; a negative page counts windows from the end
    ensures page == 0 ==> r == []
    ensures page < 0 ==>
      r == items[Max(0, |items| + (page - 1) * ITEMS_PER_PAGE)..Max(0, |items| + page * ITEMS_PER_PAGE)]
  {
    var start := (page - 1) * ITEMS_PER_PAGE;
    var end := start + ITEMS_PER_PAGE;
    SliceWindow(items, start, end);
    Slice(items, start, end)
  }

  /** The k-th item of a page is the item at the page's start bound plus k. */
  lemma PageAt<T>(page: int, items: seq<T>, k: int)
    requires 0 <= k < |PaginateItems(page, items)|
    ensures var lo := SliceBound((page - 1) * ITEMS_PER_PAGE, |items|);
      lo + k < |items| && PaginateItems(page, items)[k] == items[lo + k]
    ensures page >= 1 ==>
      (page - 1) * ITEMS_PER_PAGE + k < |items|
      && PaginateItems(page, items)[k] == items[(page - 1) * ITEMS_PER_PAGE + k]
  {
  }

  /** For page >= 1 the page is empty exactly when the earlier pages already
      cover every item. */
  lemma EmptyPage<T>(page: int, items: seq<T>)
    requires page >= 1
    ensures PaginateItems(page, items) == [] <==> |items| <= (page - 1) * ITEMS_PER_PAGE
  {
  }

  // ---------------------------------------------------------------------------
  // The list endpoints (read only)
  // ---------------------------------------------------------------------------

  /** Every person, formatted, in ascending id order. */
  function PersonViews(t: Tables): (r: seq<PersonView>)
    ensures |r| == |t.persons|
    ensures forall k | 0 <= k < |r| :: r[k].id in t.persons && r[k] == FormatPerson(t, r[k].id)
    ensures forall i, j | 0 <= i < j < |r| :: r[i].id < r[j].id
  {
    var ids := OrderedIds(t.persons.Keys);
    var r := seq(|ids|, k requires 0 <= k < |ids| => FormatPerson(t, ids[k]));
    assert forall k | 0 <= k < |r| :: r[k].id == ids[k];
    r
  }

  /** Every objective, formatted, in ascending id order. */
  function ObjectiveViews(t: Tables): (r: seq<ObjectiveView>)
    requires Linked(t)
    ensures |r| == |t.objectives|
    ensures forall k | 0 <= k < |r| :: r[k].id in t.objectives && r[k] == FormatObjective(t, r[k].id)
    ensures forall i, j | 0 <= i < j < |r| :: r[i].id < r[j].id
  {
    var ids := OrderedIds(t.objectives.Keys);
    var r := seq(|ids|, k requires 0 <= k < |ids| => FormatObjective(t, ids[k]));
    assert forall k | 0 <= k < |r| :: r[k].id == ids[k];
    r
  }

  /** Every person is listed. */
  lemma PersonViewsComplete(t: Tables)
    ensures forall p | p in t.persons :: exists k | 0 <= k < |PersonViews(t)| :: PersonViews(t)[k].id == p
  {
    var views, ids := PersonViews(t), OrderedIds(t.persons.Keys);
    forall p | p in t.persons.Keys ensures exists k | 0 <= k < |views| :: views[k].id == p {
      OrderedIdsComplete(t.persons.Keys, p);
      var k :| 0 <= k < |ids| && ids[k] == p;
      assert views[k].id == p;
    }
  }

  /** Every objective is listed. */
  lemma ObjectiveViewsComplete(t: Tables)
    requires Linked(t)
    ensures forall o | o in t.objectives ::
      exists k | 0 <= k < |ObjectiveViews(t)| :: ObjectiveViews(t)[k].id == o
  {
    var views, ids := ObjectiveViews(t), OrderedIds(t.objectives.Keys);
    forall o | o in t.objectives.Keys ensures exists k | 0 <= k < |views| :: views[k].id == o {
      OrderedIdsComplete(t.objectives.Keys, o);
      var k :| 0 <= k < |ids| && ids[k] == o;
      assert views[k].id == o;
    }
  }

  /** A page of persons is a run of them in ascending id order; from page 1
      on it starts at the ((page-1)*5)-th smallest id. */
  lemma PersonPage(t: Tables, page: int)
    ensures var items := PaginateItems(page, PersonViews(t));
      && (forall k | 0 <= k < |items| :: items[k].id in t.persons && items[k] == FormatPerson(t, items[k].id))
      && (forall i, j | 0 <= i < j < |items| :: items[i].id < items[j].id)
      && (page >= 1 ==> forall k | 0 <= k < |items| ::
            items[k].id == OrderedIds(t.persons.Keys)[(page - 1) * ITEMS_PER_PAGE + k])
  {
    var views, ids := PersonViews(t), OrderedIds(t.persons.Keys);
    var items := PaginateItems(page, views);
    var lo := SliceBound((page - 1) * ITEMS_PER_PAGE, |views|);
    forall k | 0 <= k < |items|
      ensures lo + k < |ids| && items[k].id == ids[lo + k] && items[k] == FormatPerson(t, ids[lo + k])
    {
      PageAt(page, views, k);
    }
  }

  /** A page of objectives is a run of them in ascending id order; from page 1
      on it starts at the ((page-1)*5)-th smallest id. */
  lemma ObjectivePage(t: Tables, page: int)
    requires Linked(t)
    ensures var items := PaginateItems(page, ObjectiveViews(t));
      && (forall k | 0 <= k < |items| ::
            items[k].id in t.objectives && items[k] == FormatObjective(t, items[k].id))
      && (forall i, j | 0 <= i < j < |items| :: items[i].id < items[j].id)
      && (page >= 1 ==> forall k | 0 <= k < |items| ::
            items[k].id == OrderedIds(t.objectives.Keys)[(page - 1) * ITEMS_PER_PAGE + k])
  {
    var views, ids := ObjectiveViews(t), OrderedIds(t.objectives.Keys);
    var items := PaginateItems(page, views);
    var lo := SliceBound((page - 1) * ITEMS_PER_PAGE, |views|);
    forall k | 0 <= k < |items|
      ensures lo + k < |ids| && items[k].id == ids[lo + k] && items[k] == FormatObjective(t, ids[lo + k])
    {
      PageAt(page, views, k);
    }
  }

  /** `GET /persons?page=N`. */
  function RetrievePersons(t: Tables, cred: Credential, pageArg: Option<int>): (r: Response)
    ensures Authorize(cred, GET_PERSONS).Some? ==> r == Refused(Authorize(cred, GET_PERSONS).value)
    ensures Authorize(cred, GET_PERSONS).None? ==> r.status == 200 || r == NotFound
    ensures Authorize(cred, GET_PERSONS).None? && PageNumber(pageArg) == 0 ==> r == NotFound
    ensures Authorize(cred, GET_PERSONS).None? && PageNumber(pageArg) >= 1 ==>
      (r == NotFound <==> |t.persons| <= (PageNumber(pageArg) - 1) * ITEMS_PER_PAGE)
    ensures r.status == 200 ==> r.payload.PersonList? && |r.payload.persons| > 0
    ensures r.status == 200 ==> var items := r.payload.persons;
      && (forall k | 0 <= k < |items| :: items[k].id in t.persons && items[k] == FormatPerson(t, items[k].id))
      && (forall i, j | 0 <= i < j < |items| :: items[i].id < items[j].id)
    ensures r.status == 200 && PageNumber(pageArg) >= 1 ==>
      var items, skip := r.payload.persons, (PageNumber(pageArg) - 1) * ITEMS_PER_PAGE;
      && |items| == Min(ITEMS_PER_PAGE, |t.persons| - skip)
      && forall k | 0 <= k < |items| :: items[k].id == OrderedIds(t.persons.Keys)[skip + k]
  {
    match Authorize(cred, GET_PERSONS)
    case Some(d) => Refused(d)
    case None =>
      PersonPage(t, PageNumber(pageArg));
      var current := PaginateItems(PageNumber(pageArg), PersonViews(t));
      if |current| == 0 then NotFound else Response(200, PersonList(current))
  }

  /** `GET /objectives?page=N`. */
  function RetrieveObjectives(t: Tables, cred: Credential, pageArg: Option<int>): (r: Response)
    requires Linked(t)
    ensures Authorize(cred, GET_OBJECTIVES).Some? ==> r == Refused(Authorize(cred, GET_OBJECTIVES).value)
    ensures Authorize(cred, GET_OBJECTIVES).None? ==> r.status == 200 || r == NotFound
    ensures Authorize(cred, GET_OBJECTIVES).None? && PageNumber(pageArg) == 0 ==> r == NotFound
    ensures Authorize(cred, GET_OBJECTIVES).None? && PageNumber(pageArg) >= 1 ==>
      (r == NotFound <==> |t.objectives| <= (PageNumber(pageArg) - 1) * ITEMS_PER_PAGE)
    ensures r.status == 200 ==> r.payload.ObjectiveList? && |r.payload.objectives| > 0
    ensures r.status == 200 ==> var items := r.payload.objectives;
      && (forall k | 0 <= k < |items| ::
            items[k].id in t.objectives && items[k] == FormatObjective(t, items[k].id))
      && (forall i, j | 0 <= i < j < |items| :: items[i].id < items[j].id)
    ensures r.status == 200 && PageNumber(pageArg) >= 1 ==>
      var items, skip := r.payload.objectives, (PageNumber(pageArg) - 1) * ITEMS_PER_PAGE;
      && |items| == Min(ITEMS_PER_PAGE, |t.objectives| - skip)
      && forall k | 0 <= k < |items| :: items[k].id == OrderedIds(t.objectives.Keys)[skip + k]
  {
    match Authorize(cred, GET_OBJECTIVES)
    case Some(d) => Refused(d)
    case None =>
      ObjectivePage(t, PageNumber(pageArg));
      var current := PaginateItems(PageNumber(pageArg), ObjectiveViews(t));
      if |current| == 0 then NotFound else Response(200, ObjectiveList(current))
  }

  /** The requirements of an objective, formatted: every requirement it owns
      and nothing else, once each, in ascending id order. */
  function RequirementViews(t: Tables, objectiveId: int): (r: seq<RequirementView>)
    requires Linked(t)
    ensures |r| == |RequirementsOf(t, objectiveId)|
    ensures forall k | 0 <= k < |r| ::
      r[k].id in RequirementsOf(t, objectiveId) && r[k] == FormatRequirement(t, r[k].id)
    ensures forall i, j | 0 <= i < j < |r| :: r[i].id < r[j].id
    ensures forall q | q in RequirementsOf(t, objectiveId) :: exists k | 0 <= k < |r| :: r[k].id == q
  {
    var ids := OrderedIds(RequirementsOf(t, objectiveId));
    OrderedIdsCover(RequirementsOf(t, objectiveId));
    var r := seq(|ids|, k requires 0 <= k < |ids| => FormatRequirement(t, ids[k]));
    assert forall k | 0 <= k < |r| :: r[k].id == ids[k];
    r
  }

  /** `GET /objectives/<objective_id>/requirements`: not paginated. */
  function RetrieveRequirements(t: Tables, cred: Credential, objectiveId: nat): (r: Response)
    requires Linked(t)
    ensures Authorize(cred, GET_REQUIREMENTS).Some? ==>
      r == Refused(Authorize(cred, GET_REQUIREMENTS).value)
    ensures Authorize(cred, GET_REQUIREMENTS).None? ==>
      (r == NotFound <==> RequirementsOf(t, objectiveId) == {})
    ensures Authorize(cred, GET_REQUIREMENTS).None? ==> r.status == 200 || r == NotFound
    ensures r.status == 200 ==> r.payload.RequirementList? && var items := r.payload.requirements;
      && |items| == |RequirementsOf(t, objectiveId)|
      && (forall k | 0 <= k < |items| ::
            && items[k].id in RequirementsOf(t, objectiveId)
            && items[k] == FormatRequirement(t, items[k].id)
            && items[k].objectiveId == objectiveId
            && items[k].objectiveDescription == t.objectives[objectiveId].description)
      && (forall q | q in RequirementsOf(t, objectiveId) :: exists k | 0 <= k < |items| :: items[k].id == q)
      && (forall i, j | 0 <= i < j < |items| :: items[i].id < items[j].id)
  {
    match Authorize(cred, GET_REQUIREMENTS)
    case Some(d) => Refused(d)
    case None =>
      var all := RequirementViews(t, objectiveId);
      if |all| == 0 then NotFound else Response(200, RequirementList(all))
  }

  // ---------------------------------------------------------------------------
  // The endpoints that change the store
  // ---------------------------------------------------------------------------

  /** `DELETE /objectives/<objective_id>`. */
  method DeleteObjective(db: Store, cred: Credential, objectiveId: nat) returns (r: Response)
    requires db.Valid()
    modifies db
    ensures db.Valid() && db.Sequences() == old(db.Sequences())
    ensures Authorize(cred, DELETE_OBJECTIVES).Some? ==>
      r == Refused(Authorize(cred, DELETE_OBJECTIVES).value) && db.Rows() == old(db.Rows())
    ensures Authorize(cred, DELETE_OBJECTIVES).None? && objectiveId !in old(db.objectives) ==>
      r == NotFound && db.Rows() == old(db.Rows())
    ensures Authorize(cred, DELETE_OBJECTIVES).None? && objectiveId in old(db.objectives) ==>
      r == Response(200, Deleted(objectiveId)) && db.Rows() == DropObjective(old(db.Rows()), objectiveId)
  {
    var denial := Authorize(cred, DELETE_OBJECTIVES);
    if denial.Some? {
      return Refused(denial.value);
    }
    if objectiveId !in db.objectives {
      return NotFound;
    }
    db.DeleteObjective(objectiveId);
    r := Response(200, Deleted(objectiveId));
  }

  /** `DELETE /requirements/<requirement_id>`. */
  method DeleteRequirement(db: Store, cred: Credential, requirementId: nat) returns (r: Response)
    requires db.Valid()
    modifies db
    ensures db.Valid() && db.Sequences() == old(db.Sequences())
    ensures Authorize(cred, DELETE_REQUIREMENTS).Some? ==>
      r == Refused(Authorize(cred, DELETE_REQUIREMENTS).value) && db.Rows() == old(db.Rows())
    ensures Authorize(cred, DELETE_REQUIREMENTS).None? && requirementId !in old(db.requirements) ==>
      r == NotFound && db.Rows() == old(db.Rows())
    ensures Authorize(cred, DELETE_REQUIREMENTS).None? && requirementId in old(db.requirements) ==>
      r == Response(200, Deleted(requirementId))
      && db.Rows() == DropRequirement(old(db.Rows()), requirementId)
  {
    var denial := Authorize(cred, DELETE_REQUIREMENTS);
    if denial.Some? {
      return Refused(denial.value);
    }
    if requirementId !in db.requirements {
      return NotFound;
    }
    db.DeleteRequirement(requirementId);
    r := Response(200, Deleted(requirementId));
  }

  /** The checks a PATCH body must pass: it is a dict, its `requirement_id`
      equals the path id, the requirement exists, its `objective_id` equals the
      requirement's objective, and `is_met` is a boolean the column accepts. */
  ghost predicate PatchAccepted(t: Tables, requirementId: int, body: Value)
  {
    && body.Object?
    && IntEquals(requirementId, Get(body, "requirement_id").value)
    && requirementId in t.requirements
    && IntEquals(t.requirements[requirementId].objective, Get(body, "objective_id").value)
    && Get(body, "is_met").value.Bool?
  }

  /** `PATCH /requirements/<requirement_id>`. Every failure inside the handler,
      the missing requirement's `abort(404)` included, ends in 422. */
  method UpdateRequirement(db: Store, cred: Credential, requirementId: nat, body: Value)
    returns (r: Response)
    requires db.Valid()
    modifies db
    ensures db.Valid() && db.Sequences() == old(db.Sequences())
    ensures r.status != 404
    ensures Authorize(cred, PATCH_REQUIREMENTS).Some? ==>
      r == Refused(Authorize(cred, PATCH_REQUIREMENTS).value) && db.Rows() == old(db.Rows())
    ensures Authorize(cred, PATCH_REQUIREMENTS).None? && !PatchAccepted(old(db.Rows()), requirementId, body) ==>
      r == Malformed && db.Rows() == old(db.Rows())
    ensures Authorize(cred, PATCH_REQUIREMENTS).None? && PatchAccepted(old(db.Rows()), requirementId, body) ==>
      var before, now := old(db.requirements[requirementId]), Get(body, "is_met").value.b;
      && r == Response(200, Patched(before.isMet, now, before.isMet != now))
      && db.Rows() == old(db.Rows()).(requirements := old(db.requirements)[requirementId := before.(isMet := now)])
    ensures r.status == 200 ==> (r.payload.changed <==> db.Rows() != old(db.Rows()))
  {
    var denial := Authorize(cred, PATCH_REQUIREMENTS);
    if denial.Some? {
      return Refused(denial.value);
    }
    var claimedId := Get(body, "requirement_id");
    if claimedId.None? || !IntEquals(requirementId, claimedId.value) {
      return Malformed;
    }
    if requirementId !in db.requirements {
      return Malformed;
    }
    var requirement := db.requirements[requirementId];
    var claimedObjective := Get(body, "objective_id").value;
    if !IntEquals(requirement.objective, claimedObjective) {
      return Malformed;
    }
    var previousStatus := requirement.isMet;
    var draft := RequirementDraft(Str(requirement.description), Get(body, "is_met").value,
                                     Int(requirement.objective));
    var ok := db.UpdateRequirement(requirementId, draft);
    if !ok {
      return Malformed;
    }
    var isMet := db.requirements[requirementId].isMet;
    r := Response(200, Patched(previousStatus, isMet, previousStatus != isMet));
    if previousStatus != isMet {
      assert db.requirements[requirementId] != old(db.requirements[requirementId]);
    }
  }

  /** `POST /objectives/<objective_id>/requirements`. A missing objective
      ends in 422, like every other failure inside the handler; `objective_id`
      in the body is ignored. */
  method NewRequirement(db: Store, cred: Credential, objectiveId: nat, body: Value)
    returns (r: Response)
    requires db.Valid()
    modifies db
    ensures db.Valid()
    ensures r.status != 404
    ensures Authorize(cred, POST_REQUIREMENTS).Some? ==>
      r == Refused(Authorize(cred, POST_REQUIREMENTS).value) && unchanged(db)
    ensures Authorize(cred, POST_REQUIREMENTS).None?
            && !(objectiveId in old(db.objectives) && body.Object? && Get(body, "description").value.Str?) ==>
      r == Malformed && unchanged(db)
    ensures Authorize(cred, POST_REQUIREMENTS).None?
            && objectiveId in old(db.objectives) && body.Object? && Get(body, "description").value.Str? ==>
      && r.status == 200 && r.payload.RequirementCreated? && r.payload.objectiveId == objectiveId
      && r.payload.newRequirementId !in old(db.requirements)
      && db.Rows() == old(db.Rows()).(requirements := old(db.requirements)[r.payload.newRequirementId :=
           Requirement(Get(body, "description").value.s, false, objectiveId)])
  {
    var denial := Authorize(cred, POST_REQUIREMENTS);
    if denial.Some? {
      return Refused(denial.value);
    }
    if objectiveId !in db.objectives {
      return Malformed;
    }
    var description := Get(body, "description");
    if description.None? {
      return Malformed;
    }
    var ok, id := db.InsertRequirement(InitRequirement(description.value, Int(objectiveId)));
    if !ok {
      return Malformed;
    }
    r := Response(200, RequirementCreated(objectiveId, id));
  }

  /** The checks the objective part of a POST /objectives body must pass. */
  ghost predicate ObjectiveAccepted(t: Tables, body: Value)
  {
    && body.Object?
    && Get(body, "objective").value.Str?
    && Get(body, "person").value.Int?
    && Get(body, "person").value.i in t.persons
  }

  /** `POST /objectives`: inserts the objective, then one requirement whose
      description is the body's `requirements`. The objective is committed
      first, so it stays when the requirement is refused. */
  method NewObjective(db: Store, cred: Credential, body: Value)
    returns (r: Response, ghost objectiveId: int, ghost requirementId: int)
    requires db.Valid()
    modifies db
    ensures db.Valid()
    ensures r.status != 404
    ensures Authorize(cred, POST_OBJECTIVES).Some? ==>
      r == Refused(Authorize(cred, POST_OBJECTIVES).value) && unchanged(db)
    ensures Authorize(cred, POST_OBJECTIVES).None? && !ObjectiveAccepted(old(db.Rows()), body) ==>
      r == Malformed && unchanged(db)
    ensures Authorize(cred, POST_OBJECTIVES).None? && ObjectiveAccepted(old(db.Rows()), body) ==>
      && objectiveId !in old(db.objectives)
      && db.persons == old(db.persons)
      && db.objectives == old(db.objectives)[objectiveId :=
           Objective(Get(body, "objective").value.s, Get(body, "person").value.i)]
    ensures Authorize(cred, POST_OBJECTIVES).None? && ObjectiveAccepted(old(db.Rows()), body)
            && !Get(body, "requirements").value.Str? ==>
      r == Malformed && db.requirements == old(db.requirements)
    ensures Authorize(cred, POST_OBJECTIVES).None? && ObjectiveAccepted(old(db.Rows()), body)
            && Get(body, "requirements").value.Str? ==>
      var description := Get(body, "requirements").value.s;
      && r == Response(200, ObjectiveCreated(objectiveId, |description|))
      && requirementId !in old(db.requirements)
      && db.requirements == old(db.requirements)[requirementId := Requirement(description, false, objectiveId)]
  {
    objectiveId, requirementId := 0, 0;
    var denial := Authorize(cred, POST_OBJECTIVES);
    if denial.Some? {
      return Refused(denial.value), objectiveId, requirementId;
    }
    if !body.Object? {
      return Malformed, objectiveId, requirementId;
    }
    var ok, oid := db.InsertObjective(InitObjective(Get(body, "objective").value, Get(body, "person").value));
    if !ok {
      return Malformed, objectiveId, requirementId;
    }
    objectiveId := oid;
    var requirements := Get(body, "requirements").value;
    var okRequirement, qid := db.InsertRequirement(InitRequirement(requirements, Int(oid)));
    if !okRequirement {
      return Malformed, objectiveId, requirementId;
    }
    requirementId := qid;
    r := Response(200, ObjectiveCreated(oid, Len(requirements).value));
  }
}
