/** Value types of the vote-submission handler: what it receives from its
    collaborators (identity provider, catalog, vote store) and what it
    answers. */
module VoteTypes {

  datatype Option<+T> = None | Some(value: T) {
    function GetOr(default: T): T {
      match this
      case Some(v) => v
      case None => default
    }
  }

  datatype Result<+R, +E> = Ok(value: R) | Err(error: E)

  /** The request payload: both fields are optional in the decoded JSON. */
  datatype Body = Body(categoryId: Option<string>, nomineeId: Option<string>)

  /** JavaScript falsiness of an optional string: absent or empty. */
  predicate Falsy(s: Option<string>) {
    s.None? || s.value == ""
  }

  datatype User = User(id: string)

  /** What the identity provider reports: an error flag and maybe a user. */
  datatype AuthResult = AuthResult(failed: bool, user: Option<User>) {
    predicate Authenticated() {
      !failed && user.Some?
    }
  }

  /** The result of a single-row catalog query: an error flag and maybe a row. */
  datatype QueryResult<T> = QueryResult(failed: bool, data: Option<T>)

  datatype NomineeRow = NomineeRow(id: string, categoryId: string)

  datatype CategoryRow = CategoryRow(id: string, editionId: Option<string>)

  /** The key the votes table keeps unique. */
  datatype VoteKey = VoteKey(editionId: string, categoryId: string, voterId: string)

  /** A row of the votes table. */
  datatype Vote = Vote(voterId: string, editionId: string, categoryId: string, nomineeId: string) {
    function Key(): VoteKey {
      VoteKey(editionId, categoryId, voterId)
    }
  }

  /** PostgreSQL SQLSTATE for unique_violation (class 23, integrity constraint violation). */
  const UNIQUE_VIOLATION: string := "23505"

  /** Failure of the insert for a reason other than the uniqueness constraint
      (network, foreign key, permissions...), as the store reports it. */
  datatype StoreFault = StoreFault(code: Option<string>, message: Option<string>)

  /** What the vote store answers to an insert. */
  datatype InsertResult = InsertOk | InsertError(code: Option<string>, message: Option<string>)

  /** The outcomes of one request, in the order of the gates that produce them. */
  datatype Outcome =
    | Unauthenticated
    | MalformedRequest
    | MissingFields
    | InvalidNomineeOrCategory
    | CategoryNotFound
    | MissingEdition
    | AlreadyVoted
    | StorageError(message: string)
    | Accepted
  {
    /** Outcomes decided before the insert is attempted. */
    predicate Rejection() {
      !AlreadyVoted? && !StorageError? && !Accepted?
    }
  }

  datatype ResponseBody =
    | ErrorBody(error: string)
    | StatusBody(status: string, message: string)
    | OkBody(ok: bool)

  /** An HTTP response: status code and JSON body. */
  datatype Response = Response(status: int, body: ResponseBody)

  const MSG_UNAUTHENTICATED: string := "No autenticado."
  const MSG_BAD_BODY: string := "Body inválido."
  const MSG_MISSING_FIELDS: string := "Faltan categoryId y nomineeId."
  const MSG_BAD_NOMINEE: string := "Nominado/Categoría no válidos."
  const MSG_NO_CATEGORY: string := "Categoría no encontrada."
  const MSG_NO_EDITION: string := "La categoría no tiene edition_id."
  const MSG_ALREADY_VOTED: string := "Ya votaste en esta categoría."
  const STATUS_ALREADY_VOTED: string := "already_voted"
  const MSG_SAVE_FAILED: string := "Error guardando voto."
}
