# manage_user_go_pg_echo: keyset-paginated user store and event decorator, in Dafny

This project models the logic core of a Go user-management service. The service keeps users in the PostgreSQL table `U1.USERS` and serves them page by page through an opaque page token. A repository decorator publishes a domain event after every successful mutation. The model covers:

- **Page-token codec** (`Convert`). A page token is the standard, padded base64 of a UUID's lowercase 8-4-4-4-12 text. The model includes what that needs from the libraries:
  - `Uuids`: the 16-byte UUID, its text form, google/uuid's `Parse` with all four accepted layouts, and bytewise ordering.
  - `Base64`: Go's `StdEncoding`. The decoder skips CR and LF, requires padding, and does not check unused trailing bits.
- **Paginator** (`Pagination.Paginate`). It trims an over-fetched slice and turns the first excluded row's ID into the next token.
- **Table** (`Store`). The table is a sequence of rows in strictly ascending ID order, with a map view `Contents` that the mutation contracts use. The driver's outcome is a `Fault` parameter. The store supplies the new ID and the `now()` timestamp as parameters.
- **Lookup query** (`UserQuery`). This covers:
  - the limit clamp;
  - the WHERE clause the FindUsers template renders;
  - `ORDER BY ID` and the 101-row `LIMIT`;
  - the keyset-continuity theorem: the token of one page leads to the next stretch of the listing, with no row repeated and none skipped.
- **Repositories**. There are two versions of the same Go type:
  - `UserRepository` models `user_repository.go`, whose statements do not read PASSWORD back.
  - `LegacyUserRepo` models `userRepo.go`, which reads every column back and returns the caller's own struct.
- **Event decorators**, each over an abstract inner repository:
  - `UserEvents` models `user_events.go`. It marshals an event and publishes it, appending it to an event log.
  - `LegacyUserEvents` models `userEvents.go`. It validates the event and "sends" it by printing a line.
- **Health check** (`Healthz`). `ChainedTester.TestConnection` runs abstract testers in list order and stops at the first failure.

A Go `(value, error)` pair is `Models.Ret`, where `err == None` stands for a nil error. A method that touches the table returns a `Store.Step`: the table after the statement, plus the method's result or error.

Two behaviours of the code are worth stating because they are easy to misread:

- `user_events.go:75-86` logs a marshalling failure and also returns it to the caller, although the mutation is already committed (`UserEvents.CreateUser` and the other two mutations).
- In the FindUsers template, the clause `{{if .ID}} AND ID >= '{{.ID}}' {{end}}` is always rendered. Go's templates treat the 16-byte array of a `uuid.UUID` as non-empty. So the filter's own ID is a second lower bound, and it bounds nothing when it is the nil UUID (`UserQuery.Matches`).

## Model

| member | source | states |
|---|---|---|
| Uuids.LessIrreflexive | internal/repositories/user_repository.go:174 | no ID sorts before itself under the bytewise order that `ORDER BY ID` uses |
| Uuids.LessTransitive | internal/repositories/user_repository.go:174 | the bytewise order of IDs is transitive |
| Uuids.LessTotal | internal/repositories/user_repository.go:174 | any two distinct IDs are ordered one way or the other |
| Uuids.NilIsLeast | internal/repositories/common/convert.go:20-22 | the nil UUID that an empty token decodes to is at or below every ID, so `ID >= $1` admits every row on a first page |
| Uuids.Text | internal/repositories/common/convert.go:33 | a UUID's text form has 36 characters, with dashes at positions 8, 13, 18 and 23 |
| Uuids.Parse | internal/repositories/common/convert.go:29 | text whose length is not 32, 36, 38 or 45 is rejected with an invalid-length error carrying that length |
| Uuids.ParseText | internal/repositories/common/convert.go:29-33 | parsing the text form of a UUID gives back that UUID |
| Uuids.TextInjective | internal/repositories/common/convert.go:33 | distinct UUIDs have distinct text forms |
| Base64.DigitValue | internal/repositories/common/convert.go:24 | a character decodes to a 6-bit value only if it is the alphabet's digit for that value |
| Base64.Encode | internal/repositories/common/convert.go:33 | the padded encoding of n bytes has 4 times ceil(n/3) characters |
| Base64.DecodeEncode | internal/repositories/common/convert.go:24-33 | decoding the standard encoding of any byte string gives back those bytes |
| Base64.Decode | internal/repositories/common/convert.go:24 | `DecodeString` decodes the text with CR and LF removed; whatever it accepts is exactly as long as the encoding of the bytes it yields, so no partial group and no surplus characters are accepted |
| Base64.ForeignCharacterRejected | internal/repositories/common/convert.go:24-27 | a character other than an alphabet digit, the padding, CR or LF makes decoding fail wherever it appears, also in text that contains line breaks |
| Base64.MisplacedPadInTokenRejected | internal/repositories/common/convert.go:24-27 | padding may only close the text: a '=' before the last two positions ("A===", "AB==AAAA") or a '=' followed by a digit ("AB=A") makes decoding fail; positions count after CR and LF are removed |
| Base64.RaggedLengthRejected | internal/repositories/common/convert.go:24-27 | once CR and LF are removed, a length that is not a multiple of 4 makes decoding fail |
| Convert.EncodeUuidToBase64 | internal/repositories/common/convert.go:32-35 | a token is 48 characters long, so it is never the empty "first page" token |
| Convert.DecodeBase64ToUuid | internal/repositories/common/convert.go:19-30 | "" decodes to the nil UUID; a base64 failure is an InvalidBase64 error; a payload uuid.Parse refuses is an InvalidUuid error; a non-empty token decodes successfully exactly when it is valid base64 and uuid.Parse accepts its payload, in any of the four layouts, and then gives the parsed UUID |
| Convert.DecodeEncode | internal/repositories/common/convert.go:19-35 | every UUID survives a token round trip |
| Convert.EncodeInjective | internal/repositories/common/convert.go:32-35 | distinct UUIDs give distinct tokens |
| Convert.RaggedTokenRejected | internal/repositories/common/convert.go:24-27 | a non-empty token whose length is not a multiple of 4, ignoring CR and LF, is refused |
| Convert.ShortTokenRejected | internal/repositories/common/convert.go:24-27 | an instance of `Convert.RaggedTokenRejected`: the unpadded token "ABC" is refused as corrupt base64 |
| Convert.NonUuidPayloadRejected | internal/repositories/common/convert.go:29 | the valid base64 "AAAA" decodes to 3 bytes, and uuid.Parse refuses them as an invalid length of 3 |
| Pagination.Paginate | internal/repositories/common/paginate.go:8-14 | the page is the first min(len, limit) results; the token is non-empty exactly when results were left out; the token is the encoding of results[limit].ID and decodes back to it |
| Store.ReadBackLosesOnlyPassword | internal/repositories/user_repository.go:74-84 | two rows scan to the same struct exactly when they are equal, or, for a column list without PASSWORD, equal except for the password; so a scan loses the password and nothing else |
| Store.Lookup | internal/repositories/user_repository.go:105 | `WHERE ID = $1` finds a row exactly when the ID is a key of the table, and finds that key's row |
| Store.InsertSpec | internal/repositories/user_repository.go:39-57 | inserting a row keeps the table in ID order and adds exactly that row under its ID |
| Store.ReplaceSpec | internal/repositories/user_repository.go:97-106 | updating the row of an existing ID keeps the ID order and changes only that key's row |
| Store.DeleteSpec | internal/repositories/user_repository.go:220 | the DELETE keeps the ID order, removes exactly the given key, and affects 1 row if the key was present and 0 otherwise |
| UserQuery.ClampLimit | internal/repositories/user_repository.go:148-150 | the effective limit is always in [1, 100]; a requested limit is kept exactly when it is in range, and is otherwise 100 |
| UserQuery.Select | internal/repositories/user_repository.go:167-174 | the rendered `WHERE ... ORDER BY ID` (`UserQuery.Matches`: at or above the cursor, equal to every non-empty filter field, and at or above the filter's own ID) returns only table rows that match, and no more rows than the table has |
| UserQuery.SelectComplete | internal/repositories/user_repository.go:167-173 | a row is selected exactly when it is in the table, is at or above the cursor, equals every non-empty filter field, and is at or above the filter's own ID (the always-rendered `{{if .ID}}` clause) |
| UserQuery.SelectAscending | internal/repositories/user_repository.go:174 | the selection comes back in ascending ID order |
| UserQuery.EmptyFilterSelectsAll | internal/repositories/user_repository.go:167-173 | with the nil cursor and an all-empty filter, every row of the table is selected, in table order |
| UserQuery.SelectFrom | internal/repositories/user_repository.go:167-174 | selecting again from the ID of the k-th selected row gives exactly the selection from position k onwards |
| UserQuery.Find | internal/repositories/user_repository.go:146-217 | a bad token fails with the decoding error before any statement; a prepare or query failure is reported as such; otherwise the page is the first min(n, |matching|) matching rows for the clamped limit n, and its token decodes to the (n+1)-th match exactly when there is one |
| UserQuery.PageRowsStored | internal/repositories/user_repository.go:196-212 | each row of a page is the scan, with the statement's column list, of the table's row for its ID |
| UserQuery.PageFacts | internal/repositories/user_repository.go:167-175 | every row of a page matches the query, is read back with the statement's columns, and is in the table; the page is in strictly ascending ID order |
| UserQuery.FindContinuity | internal/repositories/user_repository.go:167-214 | over a fixed table, following a page's token gives the next n matches, so two consecutive pages are the first 2n matches without repeat or gap |
| UserRepository.CreateUser | internal/repositories/user_repository.go:38-93 | success exactly when the driver succeeds and the new ID is unused; the table gains exactly one row, under the new ID, with the caller's six columns and both timestamps set to now; the returned user is that row with an empty password; a failure leaves the table unchanged |
| UserRepository.UpdateUser | internal/repositories/user_repository.go:96-143 | an absent ID fails with no rows; otherwise only that ID's row changes, taking the caller's six columns and UPDATED_AT = now while keeping ID and CREATED_AT; it is returned without its password |
| UserRepository.FindUsers | internal/repositories/user_repository.go:146-217 | a bad token is a page-token error; a page has at most the clamped limit of rows, each a matching row that equals the table's row for its ID apart from the password, which is returned empty; the page is in strictly ascending ID order |
| UserRepository.KeysetContinuity | internal/repositories/user_repository.go:152-214 | following a page's token continues the listing exactly where the page stopped |
| UserRepository.RemoveUser | internal/repositories/user_repository.go:219-233 | with no driver failure, returns 1 if the ID was present and 0 if not, without error, and removes only that key |
| LegacyUserRepo.CreateUser | internal/repositories/userRepo.go:47-101 | success exactly when the driver succeeds and the new ID is unused; the returned struct is the stored row, holding the new ID, the caller's six columns including PASSWORD, and both timestamps set to now; it is the only row added |
| LegacyUserRepo.UpdateUser | internal/repositories/userRepo.go:104-150 | an absent ID fails with no rows; otherwise the returned struct is the new row, with the caller's six columns, the stored CREATED_AT and UPDATED_AT = now, and no other row changes |
| LegacyUserRepo.FindUsers | internal/repositories/userRepo.go:153-226 | a bad token is a page-token error; a page has at most the clamped limit of rows, each matching and equal to the table's row for its ID with the password included, in ascending ID order |
| LegacyUserRepo.StoredRows | internal/repositories/userRepo.go:164-221 | reading every column back, each row of a page is the table's row for its ID |
| LegacyUserRepo.KeysetContinuity | internal/repositories/userRepo.go:159-223 | following a page's token continues the listing exactly where the page stopped |
| LegacyUserRepo.RemoveUser | internal/repositories/userRepo.go:228-242 | with no driver failure, returns 1 if the ID was present and 0 if not, without error, and removes only that key |
| UserEvents.Emit | internal/messages/user_events.go:75-84 | a marshalled event is published and err becomes nil; a marshalling failure publishes nothing, and err becomes that `json.Marshal` error (`MarshalFailed`) |
| UserEvents.CreateUser | internal/messages/user_events.go:68-87 | the value is always the inner result; an inner error comes back unchanged with no event; on success one "create_user" event carrying the created user and its ID text is published, unless marshalling fails, in which case that error is returned and nothing is published |
| UserEvents.UpdateUser | internal/messages/user_events.go:90-110 | as CreateUser, with an "update_user" event that carries the caller's user and ID, not the returned row |
| UserEvents.FindUsers | internal/messages/user_events.go:113-116 | the inner result comes back unchanged and nothing is published |
| UserEvents.RemoveUser | internal/messages/user_events.go:119-138 | the count is always the inner one; on inner success a "delete_user" event with the ID text and no user is published, even when the count is 0 |
| UserEvents.EventIffNilError | internal/messages/user_events.go:67-138 | for every mutation, an event is published exactly when the caller sees a nil error; the log only ever grows by that one event |
| UserEvents.MarshalErrorMeansCommitted | internal/messages/user_events.go:68-138 | as long as the inner repository reports only repository errors, a mutation returns a marshalling error exactly when the inner call succeeded, so the change is committed, and marshalling its event failed; a caller can tell a lost event from a failed mutation |
| UserEvents.TransparentWhenMarshalSucceeds | internal/messages/user_events.go:80-86 | when marshalling never fails, every mutation returns the inner (value, error) pair unchanged |
| LegacyUserEvents.SendObjectEvent | internal/messages/userEvents.go:23-29 | fails exactly when the name is empty or the user is nil, printing nothing; otherwise prints one "sending <name> event." line |
| LegacyUserEvents.SendMessageEvent | internal/messages/userEvents.go:31-37 | fails exactly when the name is empty; otherwise prints one line naming the event |
| LegacyUserEvents.TestConnection | internal/messages/userEvents.go:39-41 | returns the inner repository's connection result |
| LegacyUserEvents.CreateUser | internal/messages/userEvents.go:44-53 | always returns the inner (result, error) pair, whatever the send does; prints a "create_user" line exactly when the inner call succeeded with a non-nil user |
| LegacyUserEvents.UpdateUser | internal/messages/userEvents.go:56-65 | always returns the inner pair; prints an "update_user" line exactly when the inner call succeeded with a non-nil user |
| LegacyUserEvents.FindUsers | internal/messages/userEvents.go:67-69 | returns the inner result unchanged and prints nothing |
| LegacyUserEvents.RemoveUser | internal/messages/userEvents.go:71-80 | always returns the inner count and error; prints a "delete_user" line exactly when the inner call succeeded |
| Healthz.FirstFailure | internal/healthz/connection_tester.go:52-60 | no error exactly when every tester passes (so none for an empty list); otherwise the error of a tester that all earlier testers passed |
| Healthz.FirstFailureAt | internal/healthz/connection_tester.go:53-57 | a failure that follows only passes is the chain's result |
| Healthz.TestConnection | internal/healthz/connection_tester.go:52-60 | runs a prefix of the testers in list order and returns the first failure; it stops right after a failure, so later testers are never run, and it runs all of them when none fails |

## Left out

- The SQL driver mechanics are abstracted: `PrepareContext`, `QueryRow`/`Query`, `Scan`, statement closing and context cancellation. Each statement's outcome is the `Fault` parameter.
- A scan error in the FindUsers row loop calls `log.Fatal`, which ends the process. This is not modelled.
- Neither FindUsers checks `rows.Err()` after its row loop (`user_repository.go:196-214`, `userRepo.go:204-223`). An error while iterating ends the loop early, and the method then returns a short page with a nil error, possibly with an empty token as if the listing had ended. The model assumes the iteration delivers every fetched row. So `UserQuery.Find`'s "the token is non-empty exactly when more rows match" holds only for a complete iteration.
- The "returned no rows" branch of `CreateUser` is not modelled: an `INSERT ... RETURNING` that succeeds always returns its row.
- A primary-key clash is not reachable in the service, because the database generates IDs. It is modelled as "CreateUser failed".
- `now() AT TIME ZONE 'utc'` is an opaque `Timestamp` parameter. The database-generated ID is a parameter too.
- `ProcessTemplate` (internal/repositories/common/template.go) is not part of this model.
  - The rendered query is the predicate `UserQuery.Matches`.
  - html/template's escaping of filter values is not modelled. For example, an apostrophe renders as an HTML entity, so such a filter matches only rows holding the escaped text.
  - Template execution failure ("FindUsers Templating failed") is not modelled.
- `json.Marshal` of an event is an abstract function that may fail. `ConvertObjectToJson` is not modelled.
- The broker is not modelled. The queue is declared once in `NewUserEvents` (`user_events.go:17-27`), and `logger.Fatal` ends the process if that fails. Each event is published in its own goroutine with a 2-second timeout (`user_events.go:46-65`). A failed `PublishWithContext` calls `logger.Fatal` (`user_events.go:59-61`), which ends the whole process, in-flight requests included. The model treats a successfully marshalled event as appended to the event log at once, and leaves out the publish failure and the process exit.
- Go's `fmt.Println` in the older decorator is the returned list of printed lines.
- `TestConnection` of `userRepo.go` is not modelled; it is a database ping. So are `DBTester` and `AmqpTester`, which are pings of external services; they are abstract testers here.
- The older repository's `CreateUser` and `UpdateUser` scan into the caller's own struct, aliasing the input. The model returns the resulting record as a new value.
- nil `*models.User` inputs to the repositories and the newer decorator are not modelled: Go would dereference them and panic. `UserEvents.CreateUser` requires that a successful inner call returns a user. The older decorator does handle a nil user, and its model takes `Option<User>`.
- The newer repository's `FindUsers` returns `(users, token, error)`, while the decorator's interface returns a `UsersResponse`. Both are modelled as a `UsersResponse`.
- Error messages are modelled as `Models.Error` constructors that name the operation, not as wrapped text.
- Uuids.Parse: its own contract states only the invalid-length case. The full behaviour of the other layouts is in its body, and `Uuids.ParseText` proves the round trip for the canonical layout.
- The concurrent-modification case of keyset continuity is not modelled: `UserQuery.FindContinuity` holds over a fixed table.
