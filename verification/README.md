# User records: a Dafny model of the CRUD core

This project models the user-record lifecycle of a small FastAPI service
backed by a relational `users` table, as a sequential state machine:

- the table is a `map<int, User>` keyed by primary key, together with the
  id sequence that hands out new keys (`UserModel`);
- the request schemas lowercase the email, strip and sanitise the name,
  bound its length, and make both fields optional on update
  (`UserSchemas`, over Python's `str.strip` and `str.lower` in `Text`);
- the four handlers (create, get, update, delete) are pure functions from
  the table and a validated request to the new table and a result or a
  raised HTTP exception; a raised exception leaves the table as it was
  (`UserRouters`);
- the three registered exception handlers are one total function from a
  failure to the status and body of the error response (`Exceptions`);
- `Api` strings these together: a body is validated before any handler
  runs, a result is a 200 response, a failure goes through the translator,
  and requests are served one after another.

The markup stripper applied to names and the email grammar are foreign
libraries; they are parameters (`UserSchemas.Foreign`) and the model says
nothing about what they do. The clock is a parameter (`now`).

The central invariant is the unique constraint on `email`: no two rows share
an email. Every handler preserves it, and so does any sequence of requests
(`Api.RunPreservesWellFormed`). Ids come from a sequence and are never handed out
again (`Api.RunNeverReusesIds`), as with the serial key of PostgreSQL, the
database the service connects to.

The name validators are modelled twice, and the pipeline takes the choice
as a parameter (`UserSchemas.NameRule`):

- `AsWritten` is the code. Pydantic runs the "before" validators of one
  field in reverse order of declaration, so `name_must_not_be_empty` sees
  the raw string, `sanitize_name` then strips it and removes markup, and
  only the length bounds apply to the result. A name that is blank after
  markup removal is stored.
- `Corrected` also refuses a name that is blank after sanitising, which is
  what the validator's docstring ("Ensure name is not empty after stripping
  spaces") states as its purpose. See "Findings".

Every property of the pipeline is proved for both; non-blank stored names
only for `Corrected`.

Other behaviours of the code that the model keeps as they are:

- A unique-constraint violation raised at commit is a database error; it
  reaches `database_exception_handler` and is answered 500 "Database error
  occurred", not as a duplicate email. With requests served one at a time
  the handlers' own checks come first, so the only such path in the model
  is a clash of the id sequence with an existing key.
- The error handler sends the message under the key `error`, while the tests
  read `detail`. The model keeps the message and the status code and does
  not fix the key name (`Api.Body.ErrorBody`).

## Model

| member | source | states |
|---|---|---|
| `Text.Strip` | app/schemas/user_schemas.py:44 | `s.strip()` is a slice of `s` with only whitespace around it, neither starting nor ending with whitespace; it is empty exactly when `s` is all whitespace |
| `Text.StripCharacterized` | app/schemas/user_schemas.py:35 | that description of a stripped string has exactly one solution, and `Strip` returns it |
| `Text.StripIdempotent` | app/utils/sanitization.py:6 | stripping a second time (as `sanitize_input` does after `sanitize_name`) changes nothing |
| `Text.Lower` | app/schemas/user_schemas.py:26 | the lowered string has no capital letter and differs from the input only in letter case |
| `Text.LowerCollision` | app/schemas/user_schemas.py:20-26 | two emails lower to the same string if and only if they differ only in letter case |
| `Text.LowerFixesLowercase` | app/schemas/user_schemas.py:20-26 | lowering returns its input exactly when the input has no capital letter |
| `UserModel.Insert` | app/routers/user_routers.py:23-26 | an insert adds exactly one row, under the sequence's next id, with the given name and email and the current instant; other rows are untouched, the sequence advances, and the table invariant survives when the email was free |
| `UserSchemas.ToLowercase` | app/schemas/user_schemas.py:20-26 | a string comes out lowercase and equal to the input up to case; `null` and the empty string pass through unchanged |
| `UserSchemas.CheckNameAsWritten` | app/schemas/user_schemas.py:12-46 | as the code runs: a blank raw name is refused; otherwise the stripped, sanitised name is accepted exactly when its length is within 1..50 |
| `UserSchemas.AsWrittenAcceptsBlankName` | app/schemas/user_schemas.py:37-46 | with a stripper that turns `<b> </b>` into a space, that name is accepted as a blank name |
| `UserSchemas.CheckName` | app/schemas/user_schemas.py:12-46 | a blank name is refused with the emptiness error; an accepted name is the stripped, sanitised input, not blank, of length 1..50; it accepts exactly when the raw name is not blank and the sanitised name is neither blank nor out of bounds |
| `UserSchemas.NameCheck` | app/schemas/user_schemas.py:12-46 | under either rule a blank raw name is refused with the emptiness error; a name is accepted exactly when the rule's reference condition holds, and the accepted name is the stripped, sanitised input, one the table may hold under that rule |
| `UserSchemas.CheckNameCorrectsOnlyBlank` | app/schemas/user_schemas.py:44-45 | the corrected check gives the same result as the code wherever it accepts, and refuses only names the code would store blank |
| `UserSchemas.CheckEmail` | app/schemas/user_schemas.py:18-26 | the email is lowered before the grammar judges it; an accepted email is the lowered input, lowercase and grammatical |
| `UserSchemas.RequiredName` | app/schemas/user_schemas.py:12-17 | on create a missing name and a null name are errors; a string is accepted exactly when the rule's name check accepts it, as the stripped, sanitised string |
| `UserSchemas.RequiredEmail` | app/schemas/user_schemas.py:18-26 | on create a missing email and a null email are errors; a string is accepted exactly when its lowered form is grammatical, as that lowered form; any other string is refused as a bad email |
| `UserSchemas.OptionalName` | app/schemas/user_schemas.py:56-61 | on update a missing or null name passes untouched as absent; a string must pass the rule's name check |
| `UserSchemas.OptionalEmail` | app/schemas/user_schemas.py:62 | on update a missing or null email passes as absent; a string is lowered and must be grammatical |
| `UserSchemas.ValidateCreate` | app/schemas/user_schemas.py:50-51 | a create body is valid exactly when both fields are strings that pass their checks; the result holds the sanitised name and lowered email, both fit to store; a bad email, a blank raw name or a missing field is among the reported errors |
| `UserSchemas.ValidateUpdate` | app/schemas/user_schemas.py:55-62 | an update body is valid exactly when each string field present passes its check; a field is present in the result exactly when it was a string; a body without strings validates to "change nothing" |
| `UserSchemas.FromRecord` | app/schemas/user_schemas.py:66-69 | the response's id, name, email and creation instant are the row's, unchanged |
| `Exceptions.Translate` | app/exceptions.py:11-36 | an HTTP exception passes its status and detail through verbatim; a database error becomes 500 "Database error occurred"; any other error 500 "Internal Server Error"; the body's status code always equals the response status |
| `Exceptions.HttpExceptionPassesThrough` | app/exceptions.py:11-16 | two HTTP exceptions give the same response exactly when their statuses and details agree |
| `Exceptions.InternalTextNotExposed` | app/exceptions.py:20-36 | the text of a database or unexpected error does not influence the response |
| `UserRouters.CreateUser` | app/routers/user_routers.py:13-28 | an email already held gives 400 "Email already registered" with the table unchanged; a free email adds exactly one row under an id not in use, with the given fields, all other rows unchanged, and the response copies the new row; the invariant is preserved |
| `UserRouters.GetUser` | app/routers/user_routers.py:32-43 | the table is never changed; a missing id gives 404 "User not found" and only then; otherwise the response is the stored row |
| `UserRouters.Assign` | app/routers/user_routers.py:63-66 | a supplied name or email replaces the old one, one that is absent keeps it; id and creation instant never change |
| `UserRouters.UpdateUser` | app/routers/user_routers.py:47-70 | a missing id gives 404; a supplied email that differs from the row's and is held by some row gives 400 "Email already in use" with nothing changed; otherwise only the target row changes, by the supplied fields, keeping its id and creation instant; the invariant is preserved |
| `UserRouters.DeleteUser` | app/routers/user_routers.py:74-85 | an existing id is removed, and only that key, with "User deleted successfully"; a missing id gives 404 and changes nothing |
| `UserRouters.DeleteIsFinal` | tests/test_users.py:79-91 | after a delete, reading or deleting the same id gives 404 |
| `UserRouters.CreateThenGet` | tests/test_users.py:33-43 | reading a created row by its new id returns the response the create returned |
| `UserRouters.CaseVariantIsDuplicate` | app/routers/user_routers.py:18-21 | after a create with one email, a create with an email differing only in case is refused as already registered |
| `Api.Serve` | app/main.py:13-17 | any response other than 200 leaves the table unchanged; an error body's status code equals the response status; 422 is exactly the validation-error response; no id below the sequence's position is handed out anew |
| `Api.RejectedBodyNeverReachesStore` | tests/test_users.py:14-19 | a body the schema rejects, under either name check, gives 422 whatever the table holds, and the table stays as it was |
| `Api.InvalidEmailRefused` | tests/test_users.py:14-19 | end to end, a create whose email the grammar refuses answers 422 naming the email, whatever the name and the table, with the table unchanged |
| `Api.ServePreservesWellFormed` | app/models/user_model.py:10-12 | every request keeps rows keyed by id, emails unique, lowercase and grammatical, names within 1..50, and under the corrected check not blank |
| `Api.EmailsUniqueIgnoringCase` | tests/test_users.py:22-29 | in a well-formed table two rows whose emails differ only in letter case are the same row |
| `Api.RunPreservesWellFormed` | app/models/user_model.py:12 | after any sequence of requests no two rows share an email and every row is well formed; under the corrected check no stored name is blank |
| `Api.RunNeverReusesIds` | app/models/user_model.py:10 | an id that was handed out and whose row is gone is held by no row after any further requests |
| `Api.CreateEchoesNormalisedInput` | tests/test_users.py:2-11 | end to end, a valid create with a free email answers 200 with the next id, the stripped and sanitised name, the lowered email and the current instant |
| `Api.CaseVariantRefused` | tests/test_users.py:22-29 | end to end, a second create whose email differs from the first only in case answers 400 "Email already registered" |
| `Api.DeleteThenRead` | tests/test_users.py:78-91 | end to end, a delete answers 200 with the confirmation, and a later read or delete of the id answers 404 "User not found" |
| `Api.CorrectedDiffersOnlyByRefusing` | app/schemas/user_schemas.py:37-46 | wherever the corrected name check does not answer 422, it serves the request exactly as the code does: same table, same response |
| `Api.AsWrittenStoresBlankName` | app/schemas/user_schemas.py:28-46 | with a stripper that turns `<b> </b>` into a space, a create with that name is answered 200 and stored blank by the code, and refused 422 with the emptiness error under the corrected check |

## Left out

- Session lifecycle, engine setup, table creation and `get_db` (app/database/database.py): resource plumbing around the SQL engine.
- Logging in every handler and in app/utils/logger.py: side effects only.
- The markup stripper and the email grammar: foreign libraries, passed in as `UserSchemas.Foreign` and left uninterpreted. The grammar's own normalisation of an accepted address is taken to be the identity.
- The display time-zone conversion of `created_at` (app/schemas/user_schemas.py:72-76): it changes presentation, not the instant, which `createdAt` holds as an integer from the `now` parameter.
- Concurrent requests, and with them the race of two creates on one email; requests are served one at a time.
- Database failures other than a primary-key clash on insert: the store is not modelled as able to fail otherwise, though `Exceptions.Translate` covers the category.
- FastAPI routing, exception-handler selection by class hierarchy, the JSON key names of error bodies, the exact wording and shape of pydantic's 422 details, parsing of the path id, JSON values that are neither strings nor null, and the `GET /` greeting.
- Text.Lower: maps only the ASCII capitals A–Z; Python's `str.lower` also lowers other Unicode letters, some into two characters.
- UserModel.Insert: ids follow a PostgreSQL-style sequence; the SQLite database used by the tests would hand out the largest id plus one and can reuse the id of a deleted last row.
- UserRouters.CreateUser: on a clash of the id sequence with an existing key the sequence is left where it was, while PostgreSQL would have consumed the value; the branch cannot be reached from a consistent table.

## Findings

| source | as written | input that shows it | evidently intended | confidence | as-written member | corrected member |
|---|---|---|---|---|---|---|
| app/schemas/user_schemas.py:28-46 | pydantic runs `name_must_not_be_empty` before `sanitize_name`, so emptiness is checked on the raw string and the sanitised name is only length-checked | name `<b> </b>`: not blank, sanitises to a single space, length 1, stored blank | a name that is blank after sanitising is refused ("Name cannot be empty or just spaces") | medium (depends on the foreign stripper keeping the space); not executed | `UserSchemas.CheckNameAsWritten` with `UserSchemas.AsWrittenAcceptsBlankName` and `Api.AsWrittenStoresBlankName` | `UserSchemas.CheckName` with `Api.RunPreservesWellFormed` |
