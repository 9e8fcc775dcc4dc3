/** The POST handler of the vote route: an ordered chain of short-circuiting
    gates ending in one insert into the vote store. */
module VoteRoute {
  import opened VoteTypes
  import opened VoteStore

  /** Everything one request sees from outside: the identity provider's
      answer, the decoded body (None when decoding failed), the catalog as
      queries by id, and the fault (if any) that the insert would meet. */
  datatype Request = Request(
    auth: AuthResult,
    body: Option<Body>,
    nominees: string -> QueryResult<NomineeRow>,
    categories: string -> QueryResult<CategoryRow>,
    fault: Option<StoreFault>)

  /** Gates 1 to 6: either the one row the handler would insert, or the
      rejection it answers with. */
  function Validate(
    auth: AuthResult,
    body: Option<Body>,
    nominees: string -> QueryResult<NomineeRow>,
    categories: string -> QueryResult<CategoryRow>): (r: Result<Vote, Outcome>)
    ensures r.Err? ==> r.error.Rejection()
    ensures r.Ok? ==>
      && auth.Authenticated() && r.value.voterId == auth.user.value.id
      && body.Some?
      && body.value.categoryId == Some(r.value.categoryId) && r.value.categoryId != ""
      && body.value.nomineeId == Some(r.value.nomineeId) && r.value.nomineeId != ""
      && !nominees(r.value.nomineeId).failed
      && nominees(r.value.nomineeId).data.Some?
      && nominees(r.value.nomineeId).data.value.categoryId == r.value.categoryId
      && !categories(r.value.categoryId).failed
      && categories(r.value.categoryId).data.Some?
      && categories(r.value.categoryId).data.value.editionId == Some(r.value.editionId)
      && r.value.editionId != ""
  {
    if auth.failed || auth.user.None? then Err(Unauthenticated)
    else if body.None? then Err(MalformedRequest)
    else if Falsy(body.value.categoryId) || Falsy(body.value.nomineeId) then Err(MissingFields)
    else
      var categoryId, nomineeId := body.value.categoryId.value, body.value.nomineeId.value;
      var nominee := nominees(nomineeId);
      if nominee.failed || nominee.data.None? || nominee.data.value.categoryId != categoryId then
        Err(InvalidNomineeOrCategory)
      else
        var category := categories(categoryId);
        if category.failed || category.data.None? then Err(CategoryNotFound)
        else if Falsy(category.data.value.editionId) then Err(MissingEdition)
        else Ok(Vote(auth.user.value.id, category.data.value.editionId.value, categoryId, nomineeId))
  }

  /** Gate 7: how the handler reads the store's answer. Only a code equal to
      the unique-violation SQLSTATE is a conflict; the fallback message is
      used only when the error has no message at all. */
  function MapInsert(ins: InsertResult): (o: Outcome)
    ensures !o.Rejection()
    ensures o.Accepted? <==> ins.InsertOk?
    ensures o.AlreadyVoted? <==> ins.InsertError? && ins.code == Some(UNIQUE_VIOLATION)
    ensures o.StorageError? ==> o.message == ins.message.GetOr(MSG_SAVE_FAILED)
  {
    match ins
    case InsertOk => Accepted
    case InsertError(code, message) =>
      if code == Some(UNIQUE_VIOLATION) then AlreadyVoted
      else StorageError(message.GetOr(MSG_SAVE_FAILED))
  }

  /** The outcome of one request given the store's answer to the insert;
      the answer matters only when every earlier gate has passed. */
  function Decide(
    auth: AuthResult,
    body: Option<Body>,
    nominees: string -> QueryResult<NomineeRow>,
    categories: string -> QueryResult<CategoryRow>,
    ins: InsertResult): (o: Outcome)
    ensures o.Rejection() <==> Validate(auth, body, nominees, categories).Err?
    ensures o.Accepted? <==> Validate(auth, body, nominees, categories).Ok? && ins.InsertOk?
    ensures Validate(auth, body, nominees, categories).Ok? ==> o == MapInsert(ins)
  {
    match Validate(auth, body, nominees, categories)
    case Err(rejection) => rejection
    case Ok(_) => MapInsert(ins)
  }

  /** The HTTP status and JSON body the handler sends for an outcome. */
  function Respond(o: Outcome): (r: Response)
    ensures r.status in {200, 400, 401, 409}
    ensures r.status == 200 <==> o.Accepted?
    ensures r.status == 401 <==> o.Unauthenticated?
    ensures r.status == 409 <==> o.AlreadyVoted?
    ensures r.body.OkBody? <==> o.Accepted?
    ensures r.body.OkBody? ==> r.body.ok
    ensures r.body.StatusBody? <==> o.AlreadyVoted?
    ensures o.StorageError? ==> r.body == ErrorBody(o.message)
  {
    match o
    case Unauthenticated => Response(401, ErrorBody(MSG_UNAUTHENTICATED))
    case MalformedRequest => Response(400, ErrorBody(MSG_BAD_BODY))
    case MissingFields => Response(400, ErrorBody(MSG_MISSING_FIELDS))
    case InvalidNomineeOrCategory => Response(400, ErrorBody(MSG_BAD_NOMINEE))
    case CategoryNotFound => Response(400, ErrorBody(MSG_NO_CATEGORY))
    case MissingEdition => Response(400, ErrorBody(MSG_NO_EDITION))
    case AlreadyVoted => Response(409, StatusBody(STATUS_ALREADY_VOTED, MSG_ALREADY_VOTED))
    case StorageError(message) => Response(400, ErrorBody(message))
    case Accepted => Response(200, OkBody(true))
  }

  /** One request against a table holding `rows`: its outcome and the rows afterwards. */
  function Step(rows: set<Vote>, req: Request): (r: (Outcome, set<Vote>))
    ensures !r.0.Accepted? ==> r.1 == rows
    ensures r.0.Accepted? ==>
      && Validate(req.auth, req.body, req.nominees, req.categories).Ok?
      && var v := Validate(req.auth, req.body, req.nominees, req.categories).value;
         v.Key() !in KeysOf(rows) && r.1 == rows + {v}
    ensures OnePerKey(rows) ==> OnePerKey(r.1)
  {
    match Validate(req.auth, req.body, req.nominees, req.categories)
    case Err(rejection) => (rejection, rows)
    case Ok(v) =>
      var (ins, rows') := InsertSpec(rows, v, req.fault);
      (Decide(req.auth, req.body, req.nominees, req.categories, ins), rows')
  }

  /** The handler itself, gate by gate with early returns, writing through
      the store only after every gate has passed. */
  method Post(store: Store, req: Request) returns (resp: Response)
    requires store.Valid()
    modifies store
    ensures store.Valid()
    ensures resp == Respond(Step(old(store.rows), req).0)
    ensures store.rows == Step(old(store.rows), req).1
  {
    // gate 1: an authenticated user
    var auth := req.auth;
    if auth.failed || auth.user.None? {
      return Respond(Unauthenticated);
    }
    var user := auth.user.value;

    // gate 2: a decodable body
    if req.body.None? {
      return Respond(MalformedRequest);
    }
    var json := req.body.value;
    // gate 3: both ids present
    if Falsy(json.categoryId) || Falsy(json.nomineeId) {
      return Respond(MissingFields);
    }
    var categoryId, nomineeId := json.categoryId.value, json.nomineeId.value;

    // gate 4: the nominee belongs to that category
    var nominee := req.nominees(nomineeId);
    if nominee.failed || nominee.data.None? || nominee.data.value.categoryId != categoryId {
      return Respond(InvalidNomineeOrCategory);
    }

    // gate 5: the category exists
    var category := req.categories(categoryId);
    if category.failed || category.data.None? {
      return Respond(CategoryNotFound);
    }
    // gate 6: it has an edition
    var editionId := category.data.value.editionId;
    if Falsy(editionId) {
      return Respond(MissingEdition);
    }

    // gate 7: one insert, unique on (edition, category, voter)
    var insertErr := store.Insert(Vote(user.id, editionId.value, categoryId, nomineeId), req.fault);
    if insertErr.InsertOk? {
      return Respond(Accepted);
    }
    if insertErr.code == Some(UNIQUE_VIOLATION) {
      return Respond(AlreadyVoted);
    }
    resp := Respond(StorageError(insertErr.message.GetOr(MSG_SAVE_FAILED)));
  }
}
