/** What the handler promises: the order of its gates, what each answers,
    that only an accepted request writes, and that one (edition, category,
    voter) is accepted at most once over any sequence of requests. */
module VoteProperties {
  import opened VoteTypes
  import opened VoteStore
  import opened VoteRoute

  // ---- The gates, in order -------------------------------------------------

  /** An unauthenticated caller gets 401 whatever the body, the catalog and
      the store say, and nothing is written. */
  lemma AuthFirst(rows: set<Vote>, req: Request, ins: InsertResult)
    requires !req.auth.Authenticated()
    ensures Decide(req.auth, req.body, req.nominees, req.categories, ins) == Unauthenticated
    ensures Step(rows, req) == (Unauthenticated, rows)
    ensures Respond(Unauthenticated) == Response(401, ErrorBody(MSG_UNAUTHENTICATED))
  {
  }

  /** A body that cannot be decoded gets 400 "Body inválido.". */
  lemma BodyDecoding(rows: set<Vote>, req: Request, ins: InsertResult)
    requires req.auth.Authenticated() && req.body.None?
    ensures Decide(req.auth, req.body, req.nominees, req.categories, ins) == MalformedRequest
    ensures Step(rows, req) == (MalformedRequest, rows)
    ensures Respond(MalformedRequest) == Response(400, ErrorBody(MSG_BAD_BODY))
  {
  }

  /** A missing or empty categoryId or nomineeId gets 400, even when the other
      one is valid, and no catalog lookup influences the answer. */
  lemma RequiredFields(rows: set<Vote>, req: Request, ins: InsertResult)
    requires req.auth.Authenticated() && req.body.Some?
    requires Falsy(req.body.value.categoryId) || Falsy(req.body.value.nomineeId)
    ensures Decide(req.auth, req.body, req.nominees, req.categories, ins) == MissingFields
    ensures Step(rows, req) == (MissingFields, rows)
    ensures Respond(MissingFields) == Response(400, ErrorBody(MSG_MISSING_FIELDS))
  {
  }

  /** A failed nominee lookup, a missing nominee or one whose category is not
      exactly the supplied one gets 400; the category lookup plays no part. */
  lemma NomineeConsistency(rows: set<Vote>, req: Request, ins: InsertResult, c: string, n: string)
    requires req.auth.Authenticated() && req.body == Some(Body(Some(c), Some(n)))
    requires c != "" && n != ""
    requires req.nominees(n).failed || req.nominees(n).data.None? || req.nominees(n).data.value.categoryId != c
    ensures Decide(req.auth, req.body, req.nominees, req.categories, ins) == InvalidNomineeOrCategory
    ensures Step(rows, req) == (InvalidNomineeOrCategory, rows)
    ensures Respond(InvalidNomineeOrCategory) == Response(400, ErrorBody(MSG_BAD_NOMINEE))
  {
  }

  /** Past the nominee check, a failed or empty category lookup gets 400
      "Categoría no encontrada.". */
  lemma CategoryLookup(rows: set<Vote>, req: Request, ins: InsertResult, c: string, n: string)
    requires req.auth.Authenticated() && req.body == Some(Body(Some(c), Some(n)))
    requires c != "" && n != ""
    requires !req.nominees(n).failed && req.nominees(n).data.Some? && req.nominees(n).data.value.categoryId == c
    requires req.categories(c).failed || req.categories(c).data.None?
    ensures Decide(req.auth, req.body, req.nominees, req.categories, ins) == CategoryNotFound
    ensures Step(rows, req) == (CategoryNotFound, rows)
    ensures Respond(CategoryNotFound) == Response(400, ErrorBody(MSG_NO_CATEGORY))
  {
  }

  /** A found category with an absent or empty edition_id gets 400. */
  lemma EditionPresence(rows: set<Vote>, req: Request, ins: InsertResult, c: string, n: string)
    requires req.auth.Authenticated() && req.body == Some(Body(Some(c), Some(n)))
    requires c != "" && n != ""
    requires !req.nominees(n).failed && req.nominees(n).data.Some? && req.nominees(n).data.value.categoryId == c
    requires !req.categories(c).failed && req.categories(c).data.Some?
    requires Falsy(req.categories(c).data.value.editionId)
    ensures Decide(req.auth, req.body, req.nominees, req.categories, ins) == MissingEdition
    ensures Step(rows, req) == (MissingEdition, rows)
    ensures Respond(MissingEdition) == Response(400, ErrorBody(MSG_NO_EDITION))
  {
  }

  /** When every gate passes, the one row offered to the store is
      {voter_id: user.id, edition_id: category.edition_id, category_id, nominee_id}.
      With the ensures of Validate this is an if-and-only-if. */
  lemma RowContents(req: Request, c: string, n: string, e: string)
    requires req.auth.Authenticated() && req.body == Some(Body(Some(c), Some(n)))
    requires c != "" && n != "" && e != ""
    requires !req.nominees(n).failed && req.nominees(n).data.Some? && req.nominees(n).data.value.categoryId == c
    requires !req.categories(c).failed && req.categories(c).data.Some?
    requires req.categories(c).data.value.editionId == Some(e)
    ensures Validate(req.auth, req.body, req.nominees, req.categories) == Ok(Vote(req.auth.user.value.id, e, c, n))
  {
  }

  // ---- The insert and what it answers ---------------------------------------

  /** Success is 200 {ok: true}; SQLSTATE 23505 is 409 already_voted; any other
      error is 400 carrying its own message (even an empty one), and the
      generic message only when the error has none. */
  lemma InsertOutcomes(ins: InsertResult)
    ensures ins.InsertOk? ==> Respond(MapInsert(ins)) == Response(200, OkBody(true))
    ensures ins.InsertError? && ins.code == Some(UNIQUE_VIOLATION) ==>
              Respond(MapInsert(ins)) == Response(409, StatusBody(STATUS_ALREADY_VOTED, MSG_ALREADY_VOTED))
    ensures ins.InsertError? && ins.code != Some(UNIQUE_VIOLATION) && ins.message.Some? ==>
              Respond(MapInsert(ins)) == Response(400, ErrorBody(ins.message.value))
    ensures ins.InsertError? && ins.code != Some(UNIQUE_VIOLATION) && ins.message.None? ==>
              Respond(MapInsert(ins)) == Response(400, ErrorBody(MSG_SAVE_FAILED))
  {
  }

  /** Only an accepted request changes the table, and then by exactly one new row. */
  lemma NoWriteUnlessAccepted(rows: set<Vote>, req: Request)
    ensures !Step(rows, req).0.Accepted? ==> Step(rows, req).1 == rows
    ensures Step(rows, req).0.Accepted? ==> |Step(rows, req).1| == |rows| + 1
  {
  }

  /** The key of the row a request would insert, when it passes every gate. */
  function AttemptKey(req: Request): Option<VoteKey> {
    match Validate(req.auth, req.body, req.nominees, req.categories)
    case Ok(v) => Some(v.Key())
    case Err(_) => None
  }

  /** Once a key is in the table, a request that reaches the insert with
      that key leaves the table as it was, whatever its nominee: it gets 409
      unless the insert fails before the unique index, and then it gets that
      failure's answer. */
  lemma StoredKeyConflicts(rows: set<Vote>, req: Request, k: VoteKey)
    requires k in KeysOf(rows) && AttemptKey(req) == Some(k)
    ensures Step(rows, req).1 == rows
    ensures req.fault.None? ==> Step(rows, req).0 == AlreadyVoted
    ensures req.fault.Some? ==>
              Step(rows, req).0 == MapInsert(InsertError(req.fault.value.code, req.fault.value.message))
  {
  }

  /** Repeating an accepted request gives 409 and changes nothing. */
  lemma RepeatIsAlreadyVoted(rows: set<Vote>, req: Request)
    requires Step(rows, req).0.Accepted?
    ensures Step(Step(rows, req).1, req) == (AlreadyVoted, Step(rows, req).1)
    ensures Respond(Step(Step(rows, req).1, req).0) ==
              Response(409, StatusBody(STATUS_ALREADY_VOTED, MSG_ALREADY_VOTED))
  {
  }

  // ---- Sequences of requests ------------------------------------------------

  /** Requests handled one after another against one table: their outcomes
      and the final rows. */
  function Run(rows: set<Vote>, reqs: seq<Request>): (r: (seq<Outcome>, set<Vote>))
    ensures |r.0| == |reqs|
    ensures rows <= r.1
    ensures OnePerKey(rows) ==> OnePerKey(r.1)
    decreases |reqs|
  {
    if reqs == [] then ([], rows)
    else
      var (o, rows1) := Step(rows, reqs[0]);
      var (os, final) := Run(rows1, reqs[1..]);
      ([o] + os, final)
  }

  /** A key already in the table is never accepted again in a run; an
      attempt on it whose insert meets no earlier failure gets 409. */
  lemma {:induction false} StoredKeyAlwaysConflicts(rows: set<Vote>, reqs: seq<Request>, k: VoteKey, i: nat)
    requires k in KeysOf(rows)
    requires i < |reqs| && AttemptKey(reqs[i]) == Some(k)
    ensures !Run(rows, reqs).0[i].Accepted?
    ensures reqs[i].fault.None? ==> Run(rows, reqs).0[i] == AlreadyVoted
    decreases |reqs|
  {
    var rows1 := Step(rows, reqs[0]).1;
    if i == 0 {
      StoredKeyConflicts(rows, reqs[0], k);
    } else {
      assert k in KeysOf(rows1) by {
        var v :| v in rows && v.Key() == k;
        assert v in rows1;
      }
      StoredKeyAlwaysConflicts(rows1, reqs[1..], k, i - 1);
      assert Run(rows, reqs).0[i] == Run(rows1, reqs[1..]).0[i - 1];
    }
  }

  /** After a request is accepted, no later request for the same
      (edition, category, voter) is accepted, and each one whose insert
      meets no earlier failure gets 409. */
  lemma {:induction false} LaterAttemptsAlreadyVoted(rows: set<Vote>, reqs: seq<Request>, k: VoteKey, i: nat, j: nat)
    requires i < j < |reqs|
    requires Run(rows, reqs).0[i] == Accepted
    requires AttemptKey(reqs[i]) == Some(k) && AttemptKey(reqs[j]) == Some(k)
    ensures !Run(rows, reqs).0[j].Accepted?
    ensures reqs[j].fault.None? ==> Run(rows, reqs).0[j] == AlreadyVoted
    decreases |reqs|
  {
    var rows1 := Step(rows, reqs[0]).1;
    assert Run(rows, reqs).0[j] == Run(rows1, reqs[1..]).0[j - 1];
    if i == 0 {
      assert Step(rows, reqs[0]).0 == Accepted;
      var v := Validate(reqs[0].auth, reqs[0].body, reqs[0].nominees, reqs[0].categories).value;
      assert v in rows1 && v.Key() == k;
      StoredKeyAlwaysConflicts(rows1, reqs[1..], k, j - 1);
    } else {
      assert Run(rows, reqs).0[i] == Run(rows1, reqs[1..]).0[i - 1];
      LaterAttemptsAlreadyVoted(rows1, reqs[1..], k, i - 1, j - 1);
    }
  }

  /** At most one request of a run is accepted per (edition, category, voter). */
  lemma AtMostOneAcceptedPerKey(rows: set<Vote>, reqs: seq<Request>, k: VoteKey, i: nat, j: nat)
    requires i < |reqs| && j < |reqs|
    requires Run(rows, reqs).0[i] == Accepted && Run(rows, reqs).0[j] == Accepted
    requires AttemptKey(reqs[i]) == Some(k) && AttemptKey(reqs[j]) == Some(k)
    ensures i == j
  {
    if i < j {
      LaterAttemptsAlreadyVoted(rows, reqs, k, i, j);
    } else if j < i {
      LaterAttemptsAlreadyVoted(rows, reqs, k, j, i);
    }
  }

  // ---- Worked scenarios -----------------------------------------------------

  /** A catalog with nominee "nom1" in "cat1", nominee "nomX" in "cat2", and
      category "cat1" in edition "ed1"; any other id is not found. */
  function SampleNominees(id: string): QueryResult<NomineeRow> {
    if id == "nom1" then QueryResult(false, Some(NomineeRow("nom1", "cat1")))
    else if id == "nomX" then QueryResult(false, Some(NomineeRow("nomX", "cat2")))
    else QueryResult(true, None)
  }

  function SampleCategories(id: string): QueryResult<CategoryRow> {
    if id == "cat1" then QueryResult(false, Some(CategoryRow("cat1", Some("ed1"))))
    else QueryResult(true, None)
  }

  function SampleRequest(auth: AuthResult, body: Option<Body>): Request {
    Request(auth, body, SampleNominees, SampleCategories, None)
  }

  /** Unauthenticated with a valid body; an empty body; a mismatched pair;
      a valid first vote, then the same vote again. */
  lemma Scenarios(u: User)
    ensures Respond(Step({}, SampleRequest(AuthResult(false, None), Some(Body(Some("cat1"), Some("nom1"))))).0)
              == Response(401, ErrorBody("No autenticado."))
    ensures Respond(Step({}, SampleRequest(AuthResult(false, Some(u)), Some(Body(None, None)))).0)
              == Response(400, ErrorBody("Faltan categoryId y nomineeId."))
    ensures Respond(Step({}, SampleRequest(AuthResult(false, Some(u)), Some(Body(Some("cat1"), Some("nomX"))))).0)
              == Response(400, ErrorBody("Nominado/Categoría no válidos."))
    ensures Step({}, SampleRequest(AuthResult(false, Some(u)), Some(Body(Some("cat1"), Some("nom1")))))
              == (Accepted, {Vote(u.id, "ed1", "cat1", "nom1")})
    ensures Respond(Step({Vote(u.id, "ed1", "cat1", "nom1")},
                         SampleRequest(AuthResult(false, Some(u)), Some(Body(Some("cat1"), Some("nom1"))))).0)
              == Response(409, StatusBody("already_voted", "Ya votaste en esta categoría."))
  {
    var good := SampleRequest(AuthResult(false, Some(u)), Some(Body(Some("cat1"), Some("nom1"))));
    RowContents(good, "cat1", "nom1", "ed1");
    var v := Vote(u.id, "ed1", "cat1", "nom1");
    assert KeysOf({}) == {};
    assert InsertSpec({}, v, None).0 == InsertOk;
    assert InsertSpec({}, v, None).1 == {v};
    assert Decide(good.auth, good.body, good.nominees, good.categories, InsertOk) == Accepted;
    assert Step({}, good) == (Accepted, {v});
    StoredKeyConflicts({v}, good, v.Key());
  }

  // ---- A client of the handler ----------------------------------------------

  /** Submitting the same request twice: if the first is accepted, the
      second gets 409 and the table keeps the one row of the first. */
  method SubmitTwice(store: Store, req: Request) returns (first: Response, second: Response)
    requires store.Valid()
    modifies store
    ensures store.Valid()
    ensures first.status == 200 ==>
              && second == Response(409, StatusBody(STATUS_ALREADY_VOTED, MSG_ALREADY_VOTED))
              && |store.rows| == |old(store.rows)| + 1
  {
    ghost var rows0 := store.rows;
    first := Post(store, req);
    second := Post(store, req);
    if first.status == 200 {
      RepeatIsAlreadyVoted(rows0, req);
      NoWriteUnlessAccepted(rows0, req);
    }
  }
}
