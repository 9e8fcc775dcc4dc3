# Vote submission handler, modelled in Dafny

This project models the `POST` handler of the vote route of GorritosDOr, an awards-voting web app. The handler takes an authenticated user's request `{categoryId, nomineeId}` and runs an ordered chain of short-circuiting gates:

1. authentication;
2. body decoding;
3. required fields;
4. nominee/category consistency;
5. category lookup;
6. edition presence;
7. one insert into the `votes` table.

The table is unique on `(edition_id, category_id, voter_id)`. Each gate answers with exactly one HTTP status and JSON body.

The model has four modules:

- `VoteTypes` (`vote_types.dfy`): the values the handler sees and answers. These are the request `Body` with optional fields, JavaScript falsiness of an optional string (`Falsy`), the identity provider's answer, the single-row catalog query results, the vote row and its uniqueness key, and the store's insert result. The outcome datatype and the response (status plus body) are here too, along with the response messages and the SQLSTATE `23505` (PostgreSQL's unique_violation).
- `VoteStore` (`vote_store.dfy`): the votes table as a class `Store` holding the rows and the unique index (the set of keys). `Valid()` says the index is exactly the rows' keys and that no two rows share a key. `Store.Insert` is one atomic step, proved against the pure `InsertSpec`. It reports the given fault, if there is one. Otherwise it reports a conflict when the key is indexed. Otherwise it stores the row.
- `VoteRoute` (`vote_route.dfy`): the handler itself.
  - `Validate` covers gates 1–6: it yields the row to insert or the rejection.
  - `MapInsert` covers gate 7: how the store's answer is read.
  - `Decide` is the pure outcome function, with the insert result as an input.
  - `Respond` maps an outcome to a status and body.
  - `Step` is one request against a table.
  - `Post` is the imperative handler, with early returns, that calls `Store.Insert`.
- `VoteProperties` (`vote_properties.dfy`): the order of the gates and what each answers, "no write unless accepted", and "a repeated request is already_voted". `Run` handles requests one after another; over such runs the module proves, by induction, that each `(edition, category, voter)` is accepted at most once. Every later attempt is refused, with 409 unless its insert fails before the unique index.

Three things are parameters of a request (`VoteRoute.Request`): the identity provider's answer, the outcome of decoding the body, and the catalog. The catalog is given as functions from an id to a query result, so "a later lookup plays no part" is a statement about every such function. A failure that stops the insert before the unique index is consulted is also a parameter, `fault`. Examples are a request that never reaches the database and a row-level-security refusal.

The store's message is replaced by `'Error guardando voto.'` only when it is null or undefined (`??`); an empty message is sent as an empty `error`.

## Model

| member | source | states |
|---|---|---|
| `VoteRoute.Validate` | src/app/vote/api/vote/route.ts:10-82 | a row is produced only if the user is authenticated, the body decoded, both fields are non-empty, the nominee exists and belongs to exactly that category, and the category exists with a non-empty edition; the row is `{user.id, edition_id, categoryId, nomineeId}`; every other result is a pre-insert rejection |
| `VoteRoute.MapInsert` | src/app/vote/api/vote/route.ts:84-100 | accepted exactly on insert success; already_voted exactly when the error code equals `'23505'`; otherwise the storage error carries the error's message, or the fallback only when there is no message |
| `VoteRoute.Decide` | src/app/vote/api/vote/route.ts:10-102 | the outcome is a rejection exactly when validation fails, and is Accepted exactly when validation passes and the insert succeeds; once validation passes, the outcome is the insert answer's reading by `MapInsert` |
| `VoteRoute.Respond` | src/app/vote/api/vote/route.ts:19-100 | 200 exactly for accepted with `{ok:true}`; 401 exactly for unauthenticated; 409 exactly for already_voted with the `{status, message}` body; every other outcome 400; a storage error's body is its message |
| `VoteRoute.Step` | src/app/vote/api/vote/route.ts:75-102 | only an accepted request changes the table, and then it adds the validated row, whose key was absent; the one-row-per-key property is preserved |
| `VoteRoute.Post` | src/app/vote/api/vote/route.ts:10-102 | the handler's response and the table's new rows are those of `Step` on the old rows, and the table stays valid |
| `VoteStore.KeysOf` | src/app/vote/api/vote/route.ts:75 | the unique index of a set of rows: every row's key is in it, and every key in it is some row's key |
| `VoteStore.InsertSpec` | src/app/vote/api/vote/route.ts:77-89 | a fault gives that fault's code and message and no change; without one, a key already present gives the 23505 conflict and no change; success exactly when the key is absent and no fault occurs, adding the row and its key; one row per key is preserved |
| `VoteStore.Store.Insert` | src/app/vote/api/vote/route.ts:77-84 | the reported result and new rows are those of `InsertSpec`, and the index still equals the rows' keys with one row per key |
| `VoteProperties.AuthFirst` | src/app/vote/api/vote/route.ts:14-21 | an auth error or no user gives 401 `No autenticado.` whatever the body, catalog and insert say, and the table is unchanged |
| `VoteProperties.BodyDecoding` | src/app/vote/api/vote/route.ts:23-29 | an undecodable body gives 400 `Body inválido.` and no write |
| `VoteProperties.RequiredFields` | src/app/vote/api/vote/route.ts:31-37 | an absent or empty categoryId or nomineeId gives 400 `Faltan categoryId y nomineeId.` even if the other is valid, whatever the catalog says, and no write |
| `VoteProperties.NomineeConsistency` | src/app/vote/api/vote/route.ts:40-51 | a failed lookup, a missing nominee or a nominee whose category is not exactly categoryId gives 400 `Nominado/Categoría no válidos.` whatever the category lookup says, and no write |
| `VoteProperties.CategoryLookup` | src/app/vote/api/vote/route.ts:54-65 | past the nominee check, a failed or missing category gives 400 `Categoría no encontrada.` and no write |
| `VoteProperties.EditionPresence` | src/app/vote/api/vote/route.ts:67-73 | a found category with an absent or empty edition_id gives 400 `La categoría no tiene edition_id.` and no write |
| `VoteProperties.RowContents` | src/app/vote/api/vote/route.ts:77-82 | when every gate passes, the row offered to the store is exactly `{voter_id: user.id, edition_id, category_id: categoryId, nominee_id: nomineeId}` |
| `VoteProperties.InsertOutcomes` | src/app/vote/api/vote/route.ts:84-100 | success gives 200 `{ok:true}`; code 23505 gives 409 already_voted; any other error gives 400 with its own message, even an empty one, and `Error guardando voto.` only when it has none |
| `VoteProperties.NoWriteUnlessAccepted` | src/app/vote/api/vote/route.ts:75-86 | every non-accepted outcome leaves the table unchanged; an accepted one adds exactly one row |
| `VoteProperties.StoredKeyConflicts` | src/app/vote/api/vote/route.ts:88-99 | a request that reaches the insert with a key already in the table changes nothing, whatever its nominee; it gets already_voted when the insert meets no earlier failure, and otherwise that failure's answer |
| `VoteProperties.RepeatIsAlreadyVoted` | src/app/vote/api/vote/route.ts:88-94 | repeating an accepted request gives 409 `{status:'already_voted', message:'Ya votaste en esta categoría.'}` and leaves the table unchanged |
| `VoteProperties.Run` | src/app/vote/api/vote/route.ts:75-82 | running requests one after another yields one outcome per request, only adds rows, and keeps one row per key |
| `VoteProperties.StoredKeyAlwaysConflicts` | src/app/vote/api/vote/route.ts:88-94 | in any run, no attempt on a key already in the table is accepted, and each one whose insert meets no earlier failure gets already_voted |
| `VoteProperties.LaterAttemptsAlreadyVoted` | src/app/vote/api/vote/route.ts:75-94 | in any run, after an accepted request no later request for the same (edition, category, voter) is accepted, and each one whose insert meets no earlier failure gets already_voted |
| `VoteProperties.AtMostOneAcceptedPerKey` | src/app/vote/api/vote/route.ts:75-94 | in any run, at most one request per (edition, category, voter) is accepted |
| `VoteProperties.Scenarios` | src/app/vote/api/vote/route.ts:10-102 | the worked cases: unauthenticated gives 401; empty body `{}` gives 400 missing fields; a mismatched pair gives 400; a valid first vote is accepted and writes one row; the same vote again gives 409 |
| `VoteProperties.SubmitTwice` | src/app/vote/api/vote/route.ts:75-94 | a caller that posts the same request twice sees 409 the second time if the first was 200, and the table has gained exactly one row |

## Left out

- Next.js request and response objects and JSON serialisation: a response is a status and a body datatype.
- The Supabase client (`createClientServer`, `auth.getUser`, the `.from/.select/.eq/.single` query builder). These are foreign library calls. Their results are the inputs of a request: the auth result, and the catalog as functions from id to a single-row query result whose error flag covers every `.single()` failure.
- `req.json()` itself: only its outcome is modelled, as an optional `Body`. A payload that decodes to JSON `null` makes the destructuring at line 31 throw outside the `try`. The framework then answers with its own error. The model does not represent that case. It also does not represent field values that are not strings, since `Body` types both fields as strings.
- A nominee's `category_id` is modelled as a string, not as a nullable value. A null one can never equal a non-empty `categoryId`, so the outcome is the same.
- VoteStore.InsertSpec: every failure other than the unique index comes before the index check. A constraint the database checks after the index (a foreign key, for one) would in reality lose to the 23505 conflict. The model does not order failures more finely than that.
- The PostgreSQL uniqueness error's message is kept as an opaque constant, because the handler ignores it.
- Concurrency and async/await: the uniqueness constraint's atomicity belongs to the database. `Store.Insert` is one atomic step, and `Run` handles requests one after another, with no interleaving.
- The `console.error` logging at line 96.
