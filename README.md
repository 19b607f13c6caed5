# Toy-swap backend: a Dafny model

This project models the core of a small HTTP service where users offer toys and propose
one-for-one swaps. The service keeps four tables: toys, exchanges, exchange details (one row per
participant of an exchange) and users. Its handlers create, update and list toys. They also
propose exchanges, read them, change one participant's status and list the exchanges a user
takes part in. Lists are paged by primary key. The page cursor is the base64 text
(section 4 of RFC 4648, padded alphabet) of the first key of the next page.

The model follows the program's layers:

- `Wrappers`, `ByteStrings`: `Option`/`Result`, and byte strings with the database's key order.
- `Base64`, `Cursor`: the standard base64 codec as the cursor uses it, with the round trip proved.
- `Models`: the status names, `FullName`, and the validation rules the request structs
  declare in their tags.
- `Paging`: keyset pagination (filter, sort by key, resume at the cursor, fetch one row more than
  the limit, trim). It proves that following the cursors visits every matching row exactly once,
  in key order.
- `Storage`: the class `Postgres`. Its fields are the four tables, which its methods read and
  write. A `Conn` parameter says which driver calls fail: whether the transaction begins, how many
  statements succeed, whether it commits. The dynamically built list queries are modelled as
  clauses plus bound parameters, and a query engine refuses placeholders that are not bound one
  to one.
- `Http`: the response shapes. A reply has a status and a body. A refusal has a status and an
  error code. A Go panic becomes `Crash`, which the recover middleware turns into a 500.
- `ExchangeHandlers`, `ToyHandlers`: the HTTP handlers as methods over a `Postgres` instance. The
  client's request is already parsed, and the outside effects are parameters: the new toy id, the
  clock, the saved upload, and each storage call's `Conn`.

## Model

| member | source | states |
|---|---|---|
| Cursor.Encode | internal/utils/cursor.go:7-15 | nil stays nil; a key becomes well-formed padded base64 of length 4·⌈n/3⌉ |
| Cursor.Decode | internal/utils/cursor.go:17-30 | nil is no cursor and no error; text decodes iff it is well-formed base64 once CR/LF are skipped; success always yields a cursor |
| Cursor.DecodeEncode | internal/utils/cursor.go:7-30 | every cursor handed out decodes back to the key it encodes |
| Base64.EncodeLength | internal/utils/cursor.go:12 | the standard encoding of n bytes has 4·⌈n/3⌉ characters |
| Base64.EncodeWellFormed | internal/utils/cursor.go:12 | the encoder's output is well-formed and has no line breaks |
| Base64.DecodeEncode | internal/utils/cursor.go:12-22 | decoding the standard encoding gives the bytes back |
| Base64.DecodeSucceedsIff | internal/utils/cursor.go:22-25 | the decoder fails exactly on text that is not well-formed once CR/LF are skipped |
| Base64.StripNewlines | internal/utils/cursor.go:22 | the lenient decoder skips CR and LF: none remain, and every other byte keeps its number of occurrences |
| Base64.StripAppend | internal/utils/cursor.go:22 | skipping line breaks works piecewise over a concatenation, so the other bytes keep their order |
| Models.ExchangeStatusNamed | internal/models/exchange.go:10-14 | the wire name of an exchange status parses back to that status, and only the four names parse |
| Models.DetailsStatusNamed | internal/models/exchange.go:16-20 | the same for the five participant statuses |
| Models.ToyStatusNamed | internal/models/base.go:31 | the wire name of a toy status parses back to that status, and only created, exchanging and removed parse; the toy query and the status PATCH both read statuses with it |
| Models.User.FullName | internal/models/users.go:17-25 | last name, space, first name, then a space and the middle name when there is one; its length follows |
| Models.JoinList | internal/models/users.go:24 | joining one part gives that part; joining more puts the separator between consecutive parts; the length of the result |
| Models.PatchStatusDomain | internal/models/exchange.go:98-106 | a valid status change names exactly confirm_1, confirm_2 or failed, for a non-empty user and exchange |
| Models.LimitOrDefault | internal/parsers/parser_exchange.go:76-79 | a missing page limit becomes 40; a given one is kept |
| Models.ListLimitRange | internal/models/exchange.go:108-112 | after validation and the default, the page limit lies in 1..100 |
| Models.ToyQueryNamesStatuses | internal/models/base.go:31 | a valid toy query lists at least one status when it lists any, and each is the name of a toy status |
| Models.ExchangeQueryNamesStatuses | internal/models/base.go:37 | a valid exchange query lists at least one status when it lists any, and each is the name of an exchange status |
| Models.EmptyFiltersRefused | internal/models/base.go:31-37 | a present but empty status or user id list fails validation |
| ByteStrings.BelowTrichotomy | internal/storage/postgres/postgres.go:407 | key order is total: two different keys are ordered one way |
| ByteStrings.BelowTransitive | internal/storage/postgres/postgres.go:407 | key order is transitive |
| Paging.Filter | internal/storage/postgres/postgres.go:385-403 | the rows kept are exactly the table's rows that satisfy the condition |
| Paging.SortPermutes | internal/storage/postgres/postgres.go:407 | ordering by key permutes the rows |
| Paging.SortAscending | internal/storage/postgres/postgres.go:407 | with distinct keys, ordering by key gives strictly ascending keys |
| Paging.SortFilter | internal/storage/postgres/postgres.go:385-407 | filtering then ordering equals ordering then filtering |
| Paging.Take | internal/storage/postgres/postgres.go:408-409 | LIMIT keeps a prefix of at most the limit |
| Paging.ListPage | internal/storage/postgres/postgres.go:458-464 | a page is a prefix of the ordered matches, at most the limit long; a next cursor exists iff more rows match, and it is the key of the first row left out |
| Paging.CrawlStep | internal/storage/postgres/postgres.go:403-464 | resuming at the next cursor gives the ordered matches minus the page just returned |
| Paging.CrawlComplete | internal/storage/postgres/postgres.go:374-465 | following cursors from the start returns every matching row exactly once, in ascending key order |
| Paging.FilterDistinct | internal/storage/postgres/postgres.go:385-403 | filtering keeps keys distinct |
| Storage.RunInTx | internal/storage/postgres/postgres.go:15-34 | the result is the body's only if begin, body and commit all succeed |
| Storage.Postgres.SelectToyByIdAsWritten | internal/storage/postgres/postgres.go:226-273 | as written: one argument for the two placeholders of its statement, so the read always fails |
| Storage.Postgres.SelectToyById | internal/storage/postgres/queries.go:4-20 | corrected: with id and user bound, a read that runs gives the toy with that id owned by that user, or says there is none |
| Storage.Postgres.SelectToyByUserId | internal/storage/postgres/postgres.go:275-323 | a read that runs gives the toy with that id owned by that user, or says there is none |
| Storage.Postgres.SelectToyByToken | internal/storage/postgres/postgres.go:325-372 | a read that runs gives the first toy carrying that idempotency token, or says none does |
| Storage.Postgres.InsertToyAsWritten | internal/storage/postgres/postgres.go:129-177 | as written: six arguments for the nine placeholders of its statement, so no toy is ever stored and the call fails |
| Storage.Postgres.InsertToy | internal/storage/postgres/queries.go:39-64 | corrected: with all nine columns bound, the toy is appended iff the statement runs and neither its id nor its token is taken; other tables are kept |
| Storage.Postgres.UpdateToy | internal/storage/postgres/postgres.go:76-127 | the owner's toy gets the new name, description and (if given) photo; nothing else changes; none owned means no change |
| Storage.Postgres.UpdateToyStatusAsWritten | internal/storage/postgres/postgres.go:179-224 | as written: no owned toy is a driver error, otherwise the status is set |
| Storage.ToyStatusOutcomeAsWritten | internal/storage/postgres/postgres.go:211-213 | an error exactly when the user owns no toy with that id |
| Storage.Postgres.UpdateToyStatus | internal/storage/postgres/postgres.go:179-224 | corrected: no owned toy is "not found", not an error; the toy's status is set otherwise |
| Storage.ToyStatusOutcome | internal/storage/postgres/postgres.go:179-224 | never an error once the statement runs; "not found" exactly when the user owns no such toy |
| Storage.ToysListQuery | internal/storage/postgres/postgres.go:374-410 | placeholders $1..$n are bound one to one; the WHERE part means exactly the query's filters plus the cursor; LIMIT is bound to limit+1 |
| Storage.ToyConditions | internal/storage/postgres/postgres.go:383-401 | status, excluded-user and user filters contribute one clause and one parameter each, conjoined |
| Storage.ToyConditionsFrom | internal/storage/postgres/postgres.go:383-405 | the filters and the cursor bind placeholders $1..$n one to one, and their WHERE part holds of a toy iff it matches the query and lies at or past the cursor |
| Storage.ToysQueryAnswers | internal/storage/postgres/postgres.go:403-464 | the assembled toys query returns exactly the page of matching toys plus one look-ahead row |
| Storage.CutToys | internal/storage/postgres/postgres.go:427-464 | every row read is kept in order; with exactly limit+1 rows the last is dropped and its id becomes the next cursor, otherwise there is no next cursor |
| Storage.ScanRows | internal/storage/postgres/postgres.go:429-456 | reading the result set row by row yields every row, in order |
| Storage.Postgres.SelectToysList | internal/storage/postgres/postgres.go:374-465 | when the read runs, the result is the keyset page of toys that match the filters from the cursor on |
| Storage.Postgres.InsertExchange | internal/storage/postgres/postgres.go:467-557 | the exchange gets a fresh id and its details rows are appended in order, each stamped created; the rows written before a failing statement stay |
| Storage.NewExchange | internal/storage/postgres/postgres.go:467-501 | the stored exchange keeps the proposal's toys and token, takes the new id, and starts as created |
| Storage.FreshKeyKeepsKeys | internal/storage/postgres/postgres.go:467-501 | a generated id keeps exchange ids distinct |
| Storage.Postgres.SelectExchangeWithParticipants | internal/storage/postgres/postgres.go:599-629 | a read that runs gives one joined row per participant of that exchange, possibly empty |
| Storage.JoinRows | internal/storage/postgres/postgres.go:599-629 | every joined row belongs to that exchange and traces back to one of its details rows |
| Storage.NoParticipantsNoRows | internal/storage/postgres/postgres.go:618-628 | an exchange with no details rows yields an empty, not a missing, result |
| Storage.Postgres.UpdateExchangeWithParticipants | internal/storage/postgres/postgres.go:631-653 | the user's details row of that exchange gets the new status once the statement runs; the result is the exchange's rows with that user's status replaced, only if the transaction commits |
| Storage.SetStatus | internal/storage/postgres/postgres.go:631-653 | only the rows of that user in that exchange change, and only their status |
| Storage.ViewAfterUpdate | internal/storage/postgres/postgres.go:631-653 | reading after the update equals the read before it with that user's status replaced |
| Storage.ExchangeListQuery | internal/storage/postgres/postgres.go:655-700 | $1 is the user; the other placeholders are bound one to one; the WHERE part means participation, the status filter and the cursor; LIMIT is limit+1 |
| Storage.ExchangeConditionsFrom | internal/storage/postgres/postgres.go:661-676 | $1 is the user and the filters and cursor bind $2..$n one to one; the WHERE part holds of an exchange iff the user takes part, it matches the status filter and lies at or past the cursor |
| Storage.ExchangeQueryAnswers | internal/storage/postgres/postgres.go:689-713 | the assembled id query returns exactly the page of the user's matching exchange ids plus one look-ahead |
| Storage.CutIds | internal/storage/postgres/postgres.go:698-715 | with exactly limit+1 ids read, the last one becomes the next cursor and is dropped; otherwise all ids are kept and there is no next cursor |
| Storage.PagedIds | internal/storage/postgres/postgres.go:689-715 | cutting the look-ahead id off the ids the query returns gives exactly the ids and the next key of the keyset page |
| Storage.Postgres.SelectExchangeList | internal/storage/postgres/postgres.go:655-747 | when both reads run, the result is the participants of the page's exchanges and the page's next cursor |
| Storage.Postgres.ParticipantsOf | internal/storage/postgres/postgres.go:725-745 | the rows gathered are the joined participants of exactly the given exchange ids |
| ExchangeHandlers.IsValidToyUser | internal/service/handlers/exchanges.go:15-25 | true iff the read runs and that user owns that toy |
| ExchangeHandlers.ProposalRules | internal/service/handlers/exchanges.go:27-33 | a swap with oneself or one the requester is not part of is refused; an accepted one has two existing pairs, distinct users and the requester among them |
| ExchangeHandlers.CreateExchange | internal/service/handlers/exchanges.go:73-127 | bad requests and refused proposals get 400 with nothing written; an accepted one gets 201 with the new exchange and exactly its two details rows; a 500 leaves the exchange row and the details rows inserted before the failing statement |
| ExchangeHandlers.DetailsOfParticipant | internal/service/handlers/exchanges.go:35-55 | a participant's entry carries its toy, its owner's name and its status |
| ExchangeHandlers.ExchangeView | internal/service/handlers/exchanges.go:57-71 | one entry per row, in order; the header comes from the first row |
| ExchangeHandlers.GetExchangeView | internal/service/handlers/exchanges.go:57-71 | the loop builds exactly that view |
| ExchangeHandlers.ViewOfStoredExchange | internal/service/handlers/exchanges.go:57-71 | the view of a stored exchange has its id, and each entry matches one of its details rows |
| ExchangeHandlers.PatchedView | internal/service/handlers/exchanges.go:187-200 | after a status change only that user's entries change, and only their status |
| ExchangeHandlers.ViewReplyAsWritten | internal/service/handlers/exchanges.go:142-160 | as written: an empty read crashes, and "not found" is never the answer |
| ExchangeHandlers.UnknownExchange | internal/service/handlers/exchanges.go:150-160 | for an id with no participants the code as written crashes, while the corrected reply is 404 |
| ExchangeHandlers.ViewReply | internal/service/handlers/exchanges.go:142-160 | corrected: a failed read gives 500, an empty one 404, otherwise 200 with the view; never a crash |
| ExchangeHandlers.GetExchange | internal/service/handlers/exchanges.go:129-161 | a bad request gets 400; otherwise the corrected reply to the stored participants of that exchange |
| ExchangeHandlers.Notices | internal/service/handlers/exchanges.go:203-206 | a confirmed exchange sends two mirrored notices to its first two participants; no other status sends any |
| ExchangeHandlers.ConfirmedReply | internal/service/handlers/exchanges.go:192-215 | a non-empty re-read gets 200 with its view and, when confirmed, the two notices; a confirmed exchange with one row crashes |
| ExchangeHandlers.PatchReplyAsWritten | internal/service/handlers/exchanges.go:177-215 | as written: a failed update gives 500, an empty re-read crashes, and "not found" is never the answer |
| ExchangeHandlers.PatchReply | internal/service/handlers/exchanges.go:177-215 | corrected: a failed update gives 500, an empty re-read 404, otherwise the reply to the re-read rows |
| ExchangeHandlers.UnknownExchangePatched | internal/service/handlers/exchanges.go:185-198 | a status change for an id with no participants crashes as written, while the corrected reply is 404 |
| ExchangeHandlers.PatchExchange | internal/service/handlers/exchanges.go:164-216 | a bad request gets 400 with nothing written; the details table changes as the storage update says; the reply is the corrected PATCH reply to the re-read rows, or 500 without a commit |
| ExchangeHandlers.RowsOf | internal/service/handlers/exchanges.go:250-256 | the rows of one exchange, in order; there are some iff the id occurs |
| ExchangeHandlers.RowsPartition | internal/service/handlers/exchanges.go:250-256 | a row is in its exchange's group and in no other |
| ExchangeHandlers.GroupByExchange | internal/service/handlers/exchanges.go:250-256 | the keys are exactly the ids present, and each maps to that exchange's rows in order |
| ExchangeHandlers.CollectExchanges | internal/service/handlers/exchanges.go:258-262 | one view per group: the i-th view is the view of the i-th group in an iteration order that lists every group exactly once |
| ExchangeHandlers.IterationOrder | internal/service/handlers/exchanges.go:260 | the order lists every key of the map and nothing else, each once |
| ExchangeHandlers.ViewsCover | internal/service/handlers/exchanges.go:250-262 | every exchange on the page has its view among the collected ones |
| ExchangeHandlers.ViewsOnly | internal/service/handlers/exchanges.go:250-262 | every collected view is the view of some exchange on the page |
| ExchangeHandlers.ListViews | internal/service/handlers/exchanges.go:250-262 | the views are as many as the exchange ids in the rows, each such exchange has its view among them, and each view is the view of one of them |
| ExchangeHandlers.GetExchangeList | internal/service/handlers/exchanges.go:218-269 | 400 for an invalid request (including an empty or unknown status filter) or cursor; 500 if a read fails; else one view per exchange on the page and a cursor that decodes to the page's next key |
| ToyHandlers.CreateToy | internal/service/handlers/toys.go:55-113 | 400/500/400/400 on the error paths with nothing written; a known token replays that toy; otherwise the new toy is appended and returned with 201 |
| ToyHandlers.CreateToyTwice | internal/service/handlers/toys.go:68-79 | repeating a successful creation with the same token returns the same toy and leaves one toy with that token |
| ToyHandlers.ToyChanges | internal/service/handlers/toys.go:115-164 | the update carries the request's name and description, and a photo iff one was saved |
| ToyHandlers.ToyReply | internal/service/handlers/toys.go:146-162 | a failed write gives 500, no toy 404, a toy 200 with it |
| ToyHandlers.UpdateToy | internal/service/handlers/toys.go:115-164 | 400 for a bad request or upload, 500 if the write fails, 404 iff the user owns no such toy, otherwise 200 with the revised toy stored in place |
| ToyHandlers.UpdateToyStatus | internal/service/handlers/toys.go:207-243 | 400 for a bad request; otherwise the corrected storage outcome as 500/404/200, with the status set in place |
| ToyHandlers.MissingToyStatus | internal/service/handlers/toys.go:222-238 | for a toy the user does not own, the code as written answers 500 where 404 is intended |
| ToyHandlers.GetToysList | internal/service/handlers/toys.go:167-205 | 400 for an invalid request (including an empty or unknown status filter and an empty or blank user id list) or cursor, 500 if the read fails, else 200 with the keyset page, at most the limit long, and its re-encoded cursor |
| ToyHandlers.DeleteToy | internal/service/handlers/toys.go:246-266 | a valid request gets 200 and nothing changes; an invalid one 400 |

## Left out

- Scanning, the SQL driver and context timeouts are not modelled. Their failures are the `Conn`
  parameter; a driver call cannot fail in any other way here.
- The SQL text of most statements is not part of this model. Each statement is read by its name,
  its bound arguments and the columns it scans; no extra guards are invented (for example, no
  "status is not removed" condition).
- Request parsing and validation are not modelled as a library. The validation tags of the
  request structs and of the nested query structs become the `Valid*` predicates, and every parse
  or validation failure is the 400 branch. A `required` tag on a struct-valued field (`Query`,
  `Body`) is taken to pass always, as it does by default in the validator; filter lists are
  nil-able, so an absent list passes and a present empty one fails.
- Uuid generation, `time.Now` and writing the uploaded photo (`saveFile`) become the parameters
  `newId`, `now` and `upload`.
- Mail delivery and its goroutines are left out. `ExchangeHandlers.Notices` states whom the
  handler asks to be notified, not that any mail arrives.
- Go's map iteration order is arbitrary, so `ExchangeHandlers.IterationOrder` picks the next
  key nondeterministically and promises no order.
- Logging and debug printing are left out.
- Authentication, registration, login and `GetToy` are outside the modelled core.
- `Storage.Postgres.InsertExchange` and `Storage.Postgres.UpdateExchangeWithParticipants` issue
  their statements through the connection, not the transaction. The model therefore keeps the rows
  written before a failure and claims no atomicity.
- The exchange-level status is read from the first participant row. No modelled code moves it on
  from created, so nothing is proved about when it becomes confirm.
- Exchange idempotency tokens are stored but are not unique, and no replay is modelled, because
  the code does neither.
- `Storage.Postgres.SelectToyById` and `Storage.Postgres.InsertToy` bind their statements as the
  statements mean, not as written; the as-written halves are under "Findings". `GetToy`, the only
  caller of the read by id, is outside the modelled core.
- `Storage.Postgres.SelectToysList` and `Storage.Postgres.SelectExchangeList` require a
  non-negative limit, which every caller guarantees after validation.
- Storage.Postgres.UpdateToy keeps the stored timestamps; the update statement is not part of this
  model, and the model does not guess what it stamps.
- `ToyHandlers.ToyChanges` fills the fields the update ignores (token, status, timestamps) with
  placeholders.
- Only the three toy status names that the toy query validation accepts are modelled. The file
  defining the toy status constants is not part of this model.
- Storage.Revised assumes that the update statement keeps the stored photo when the request
  carries none. The update statement's text is not part of this model.
- Storage.NewExchange and the inserted details rows start as created. The model assumes that the
  insert statements, whose text is not part of this model, set or default that status.
- Storage.FreshKey stands in for the id the database generates. It is one fixed id not yet used,
  so the model says only that the new id is unused, not which id the database picks.
- Storage.JoinRows returns the rows in details-table order. The read's text is not part of this
  model, and nothing here depends on that order beyond the first row.
- ByteStrings.Below assumes PostgreSQL compares the keys under the C collation, byte by byte.
- ExchangeHandlers.PatchExchange commits before it may crash on a confirmed exchange with one row;
  the model keeps that order and claims nothing about rollback.

## Findings

| source | as written | input that shows it | evidently intended | confidence | as-written member | corrected member |
|---|---|---|---|---|---|---|
| internal/storage/postgres/postgres.go:618-628 | the participant read returns an empty, non-nil slice for an unknown exchange, so the `nil` check in the get handler never fires and the following `[0]` panics (500 through the recover middleware) | GET of an exchange id that has no details rows | answer 404 "exchange not found" | not executed | ExchangeHandlers.ViewReplyAsWritten | ExchangeHandlers.ViewReply |
| internal/storage/postgres/postgres.go:211-213 | the toy status update treats "no row" like any driver error, so the handler's 404 branch is unreachable and a toy the user does not own gets 500 | PATCH of a toy status for a toy id the user does not own | answer 404 "toy not found" | not executed | Storage.Postgres.UpdateToyStatusAsWritten | Storage.Postgres.UpdateToyStatus |
| internal/service/handlers/exchanges.go:185-198 | the update's re-read is an empty, non-nil slice for an exchange without rows, so the `nil` check never fires and `dbExchange[0]` panics | PATCH of an exchange id that has no details rows | answer 404 "exchange not found" | not executed | ExchangeHandlers.PatchReplyAsWritten | ExchangeHandlers.PatchReply |
| internal/storage/postgres/postgres.go:241-243 | the read by id binds only the toy id, but its statement has the placeholders `$1` and `$2`, so every call fails | any read of a toy by id | bind the toy id and the user id, as the statement and the storage interface's `SelectToyById(toyId, userId)` say | not executed | Storage.Postgres.SelectToyByIdAsWritten | Storage.Postgres.SelectToyById |
| internal/storage/postgres/postgres.go:144-151 | the toy insert binds six arguments (no toy id, no timestamps) to a statement with nine placeholders, so every insert fails and a first `CreateToy` answers 400 | any creation of a new toy | bind the nine columns in order, so the toy is stored | not executed | Storage.Postgres.InsertToyAsWritten | Storage.Postgres.InsertToy |
