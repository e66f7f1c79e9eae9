# Play history service — a Dafny model

The play history service records "play" events (a user watched a piece of
content on a device for some seconds at some instant). It answers two read
queries: a user's history, newest first and paged, and the most-watched
contents in a time window. It also erases a user's data on request and
leaves a GDPR tombstone, which blocks any later ingestion for that user.

This project models the core of that service over an abstract store, made
of two maps:
- `plays`: from event id to the stored row;
- `tombstones`: from user id to the instant of erasure.

Each request is one atomic step. A write request (ingestion, erasure)
goes from a store to a store and an HTTP response (`Http.Step`); a read
request (history, most watched) takes a store and gives only a response,
so it leaves the store unchanged. The modules follow the program's own layers:

| module | file | what it is |
|---|---|---|
| `Types`, `Timestamp`, `Text` | types.dfy, timestamp.dfy, text.dfy | the request schemas: uuid shape, the play-event schema, pagination, date range, the `playedAt` timestamp shape |
| `Store` | store.dfy | the two tables and an unordered scan of a set of rows |
| `PlayService`, `GdprService`, `HistoryService`, `AggregationService` | *_service.dfy | the SQL statements each service runs, as functions on the store |
| `Http` | http.dfy | status codes, the JSON body shapes, the application-wide error handler |
| `PlayRoute`, `GdprRoute`, `HistoryRoute`, `MostWatchedRoute` | *_route.dfy | the four handlers: validate, call the service, map the outcome to a response |
| `Cors` | cors.dfy | the allow-list read from `CORS_ORIGINS` and the origin decision |
| `Scenarios` | scenarios.dfy | properties that span several requests |
| `Base`, `Seqs` | base.dfy, seqs.dfy | `Option`/`Result`, duplicate-freedom, a generic insertion sort |

Modelling choices:
- **Store failures.** Whether a statement succeeds is a parameter of each
  handler (`QueryOutcome`): either `Completes`, or `Fails(message)`.
- **Timestamps.** Instants are integers. Reading a date string as an
  instant is one abstract parameter, `DateParser`. It stands for every
  reading the service relies on: JavaScript `Date` in the schemas, and
  PostgreSQL's reading of the `playedAt` text on insert and of `from` and
  `to` in the most-watched `WHERE` clause (src/services/aggregationService.ts:13).
  These readings are assumed to agree. They can differ on a string without
  a zone: JavaScript reads it in local time, PostgreSQL in the session's
  time zone. The current time of the erasure is also a parameter.
- **Ties.** SQL leaves rows with equal sort keys in no particular order.
  So the history and the ranking are methods over an unordered scan
  (`Store.Scan`). Their contracts say that *some* listing in the promised
  order produces the result.
- **Identifiers.** Identifiers are stored in canonical lower-case spelling
  (`Types.Canonical`). That is how a PostgreSQL `uuid` column stores and
  compares them.

## Model

| member | source | states |
|---|---|---|
| Types.UuidHasGroups | src/models/types.ts:6 | every accepted identifier is five hex groups of 8, 4, 4, 4 and 12 characters joined by hyphens, with version digit 1–5 and variant digit 8, 9, a or b |
| Types.GroupsMakeUuid | src/models/types.ts:6 | conversely, hyphenating any such five groups gives an accepted identifier |
| Types.UuidIgnoresCase | src/models/types.ts:6 | the pattern is case-insensitive: lower-casing a string does not change whether it is accepted |
| Types.UuidIffGroups | src/models/types.ts:6 | a string is accepted exactly when it is five hyphenated groups of the pattern's shape |
| Types.ParseUserId | src/models/types.ts:6-19 | the erasure parameter is accepted exactly when it spells five hyphenated hex groups of 8, 4, 4, 4 and 12 characters with version digit 1–5 and variant digit 8, 9, a or b (any letter case), and is echoed unchanged; otherwise there is one issue, at path `userId`, with the schema's message |
| Types.ParsePlayEvent | src/models/types.ts:22-33 | an event is accepted exactly when the body is an object and every field passes its rule: three uuids, a non-empty device, a positive duration, the timestamp shape. The accepted event carries the fields as given. A rejection has at least one issue, and its paths are exactly the failing fields. A body that is not an object gives one issue |
| Types.EventIssuesExact | src/models/types.ts:22-33 | the validator reports every failing field and only failing fields: there are no issues exactly when every field passes |
| Types.ParsePagination | src/models/types.ts:42-45 | pagination is accepted exactly when neither value is non-numeric, the limit (default 20) is in 1..100 and the offset (default 0) is at least 0. Defaults apply to absent values, and given values are kept. A rejection names `limit` exactly when the limit is non-numeric or out of 1..100, and `offset` exactly when the offset is non-numeric or negative, and names nothing else |
| Types.PaginationIssuesExact | src/models/types.ts:42-45 | the pagination issues name `limit` exactly when the limit fails its rule and `offset` exactly when the offset fails its rule |
| Types.ParseHistoryParams | src/models/types.ts:48-51 | the history parameters are accepted exactly when the id is a uuid and the pagination is accepted. A rejection names `userId` exactly when the id is not a uuid, and `limit` and `offset` exactly when each fails its rule, so every failing field is reported |
| Types.DateIssuesExact | src/models/types.ts:55-63 | a date's issues name that date exactly when it is missing or does not read as an instant |
| Types.ParseDateRange | src/models/types.ts:54-65 | a range is accepted exactly when both dates are present, both read as instants, and `from` is strictly earlier than `to`; the strings and their instants are kept. A rejection names `from` exactly when it is missing or unreadable, and likewise `to`. When both dates are present, a rejection always includes the range rule's issue, which is what happens for an unreadable date too; when a date is missing, it never does |
| Timestamp.Parse | src/models/types.ts:30 | a string reads as timestamp fields exactly when it has the shape `YYYY-MM-DDTHH:MM:SS(.digits)?Z`; the fields read are in range and render back to exactly the same string, fraction digits included |
| Timestamp.ParseFormat | src/models/types.ts:30 | every rendering of in-range fields has the shape and reads back as the same fields |
| Timestamp.Examples | src/models/types.ts:30-31 | the example in the schema's message is accepted, with or without a fraction; an empty fraction and a space in place of `T` are refused |
| Timestamp.RejectsInvalidDate | src/tests/play.integration.test.ts:108-127 | `invalid-date` does not have the timestamp shape |
| PlayService.AddPlay | src/services/playService.ts:9-24 | the insert happens exactly when the event id is absent, and then stores that row. A present id changes nothing. Only the event's key can be added, no stored row is altered, and the table stays keyed by event id |
| PlayService.StoredRowsNeverOverwritten | src/services/playService.ts:10-12 | after any sequence of inserts, every row stored before is still stored unchanged, and every new key belongs to one of the inserted events |
| PlayService.RepeatedSubmission | src/services/playService.ts:10-12 | submitting one new event any number of times stores it exactly once: the table equals the table after the first insert, and only the first insert reports `inserted` |
| PlayService.DuplicatesChangeNothing | src/services/playService.ts:12 | any number of submissions of an already-stored event id leave the table unchanged |
| GdprService.PurgeUser | src/services/gdprService.ts:8 | the delete removes every row of the user and no other row, leaves the rest unchanged, and counts exactly the user's rows |
| GdprService.UpsertTombstone | src/services/gdprService.ts:11-16 | the upsert leaves a tombstone for the user stamped with the current instant, whether or not one existed, and changes no other tombstone |
| GdprService.Erase | src/services/gdprService.ts:6-18 | an erasure leaves the user with no rows and a tombstone stamped now, keeps every other user's rows and tombstones unchanged, and returns the number of rows the user had (0 for an unknown user) |
| GdprService.DeletedOnlyByErasure | src/services/gdprService.ts:6-26 | the tombstone lookup reports a user deleted after an erasure exactly when that user was the one erased or was already deleted; the purge statement alone, without the upsert, never makes anyone deleted |
| GdprService.ErasedUserIsDeleted | src/services/gdprService.ts:6-26 | after an erasure the lookup reports the user deleted, and they have no rows |
| GdprService.EraseTwice | src/services/gdprService.ts:8-18 | a second erasure returns 0, leaves the rows as the first left them, keeps one tombstone for the user, and restamps it |
| Store.Scan | src/services/historyService.ts:12-14 | a scan lists each row whose key was selected exactly once, and nothing else |
| HistoryService.Page | src/services/historyService.ts:16 | `LIMIT n OFFSET k` returns `min(n, max(0, size - k))` entries, and entry `i` is the source entry at `k + i` |
| HistoryService.PagesTile | src/services/historyService.ts:16 | two consecutive pages placed together are the page that spans both |
| HistoryService.GetHistory | src/services/historyService.ts:6-29 | the total counts every play of the user. The items are the requested page of some newest-first listing of exactly the user's plays, projected to four fields. There are `min(limit, max(0, total - offset))` of them, in non-increasing `playedAt` order |
| HistoryService.NoPlaysNoHistory | src/services/historyService.ts:7-18 | a user without plays has an empty listing and an empty page at every offset |
| AggregationService.Tally | src/services/aggregationService.ts:9-14 | grouping rows by content gives one entry per distinct content, carrying the number of its rows and their summed duration |
| AggregationService.GroupsAreExpected | src/services/aggregationService.ts:9-14 | grouping the rows of the half-open window `[from, to)` gives one entry for each content played in it, each equal to its count and summed duration over the window |
| AggregationService.TopOfRanking | src/services/aggregationService.ts:15-16 | cutting a ranked list after `n` entries leaves out only contents that rank no higher than the last entry kept |
| AggregationService.GetMostWatched | src/services/aggregationService.ts:6-26 | the query fails with `integer out of range` exactly when some content played in `[from, to)` has a count or summed duration outside PostgreSQL's `integer` range, even one that would not be shown. Otherwise the report has `min(50, contents played in [from, to))` entries. Each is a content played in the window, with its exact count (at least 1) and summed duration. Contents are distinct, ranked by count and then duration, descending. Any content left out ranks no higher than the 50th entry |
| Seqs.Sort | src/services/aggregationService.ts:15 | sorting returns a permutation of its input in which each entry ranks at least as high as the next |
| PlayRoute.PostPlay | src/routes/play.ts:9-48 | invalid → 400 listing every failing field, store unchanged. Failed tombstone lookup → global 500. Erased user → 403, unchanged. Failed insert → 500. New event → 200 with the row stored. Known event → 200 with the duplicate message, unchanged. Tombstones are never touched, stored rows are never overwritten, and the table changes only with a plain 200 |
| GdprRoute.DeleteUser | src/routes/gdpr.ts:8-33 | invalid id → 400 at path `userId`, nothing changed. Failed purge → 500, nothing changed. Failed upsert → 500 with rows deleted but no tombstone. Otherwise 200 echoing the id as given, with the count of deleted rows. A 200 always means no rows left and a tombstone present. No other user is affected |
| HistoryRoute.GetUserHistory | src/routes/history.ts:8-36 | invalid parameters → 400 with the issues. A failed count query → global 500. An offset beyond PostgreSQL's `bigint` range always fails the page query → global 500 with the out-of-range message; otherwise a failed page query → global 500. Otherwise 200 echoing the id, the effective limit and offset (defaults applied), the user's total, and the requested page of their plays newest first |
| MostWatchedRoute.GetMostWatchedReport | src/routes/mostWatched.ts:8-26 | an invalid, missing, empty or inverted range → 400 with the issues. A failed query, or a group too large for the `integer` casts, → global 500. Otherwise 200 echoing both strings, with the top-50 ranking of the window `[from, to)`. A 200 implies `from` is strictly earlier than `to` and that every group of the window fits the casts |
| Text.Split | src/plugins/cors.ts:8 | JavaScript `split` on one character: at least one piece, and no piece holds the separator |
| Text.JoinSplit | src/plugins/cors.ts:8 | joining the pieces of a split with the separator restores the string |
| Text.Trim | src/plugins/cors.ts:9 | JavaScript `trim`: the result is one contiguous stretch of the input with only spaces before and after it, and it has no space at either end; a string with none is returned unchanged |
| Text.TrimIdempotent | src/plugins/cors.ts:9 | trimming twice removes nothing more than trimming once |
| Cors.Entries | src/plugins/cors.ts:7-10 | the allow-list holds exactly the non-empty trimmed pieces, each without spaces at its ends |
| Cors.AllowListRoundTrip | src/plugins/cors.ts:6-10 | a list of trimmed, non-empty, comma-free origins written into the setting reads back as the same list |
| Cors.UnsetIsEmpty | src/plugins/cors.ts:6-10 | an unset setting, or one holding only spaces and commas, allows nothing |
| Cors.PaddingIgnored | src/plugins/cors.ts:9-10 | spaces around entries and empty entries do not change the list |
| Cors.Decide | src/plugins/cors.ts:13-32 | no origin (absent or empty) is allowed. A listed origin is allowed. With a non-empty list, an origin is allowed exactly when listed verbatim. With an empty list, exactly when it starts with `http://localhost` or `http://127.0.0.1`. A denial carries `Origin <origin> not allowed by CORS` |
| Cors.PrefixAdmitsRemoteHost | src/plugins/cors.ts:20-23 | with nothing configured, `http://localhost.evil.example` is allowed, although its host is not `localhost` |
| Cors.DecideStrict | src/plugins/cors.ts:19-32 | the corrected policy: as written, except that with an empty list a non-empty origin is allowed exactly when it is a loopback origin |
| Cors.LoopbackOrigins | src/plugins/cors.ts:19-22 | `http://localhost` and `http://127.0.0.1`, with or without a numeric port, are loopback origins |
| Cors.LoopbackShape | src/plugins/cors.ts:19-22 | a loopback origin is exactly `http://`, a loopback host and at most a port: nothing else follows the host |
| Cors.StrictRefusesRemoteHost | src/plugins/cors.ts:20-23 | every host whose name merely begins with `localhost` passes the prefix test but is refused by the corrected policy |
| Cors.StrictWithinWritten | src/plugins/cors.ts:20-26 | the corrected policy allows nothing the policy as written refuses |
| Scenarios.ResubmissionIsIdempotent | src/routes/play.ts:34-43 | submitting the same valid event twice gives 200 and then the duplicate acknowledgement, and the second submission changes nothing |
| Scenarios.CaseVariantIsDuplicate | src/services/playService.ts:12 | two spellings of one event id that differ only in letter case name the same event; the second is a duplicate |
| Scenarios.ErasureBlocksIngestion | src/routes/play.ts:24-31 | after a successful erasure of a user, any valid event of that user gets 403 and changes nothing, however the insert would have fared |
| Scenarios.StoredPlayIsErased | src/services/gdprService.ts:8-18 | erasing a user right after one of their events was stored succeeds and counts exactly the user's earlier plays plus that one |
| Scenarios.ErasingAgainFindsNothing | src/services/gdprService.ts:8-18 | after an erasure the user has no rows, and a second erasure succeeds with 0 deleted records |
| Scenarios.InsertAddsUserKey | src/services/playService.ts:10-12 | storing a new event adds exactly its key to its user's rows, so the user's row count grows by one |
| Scenarios.Lifecycle | src/routes/play.ts:24-43 | submit E1 → 200; submit E1 again → 200 duplicate; erase the user → 200 counting the user's earlier plays plus E1, so exactly 1 for a user with no earlier plays; submit E2 for the same user → 403. No rows are left for the user, and a second erasure deletes 0 |

## Left out

- The database layer (`src/db/pg.ts`): the connection pool, retries, reconnection and migrations. The migration files are not part of this model. The identifier columns are assumed to be PostgreSQL `uuid`. That assumption is why the model stores identifiers lower-cased (`Types.Canonical`) and treats spellings that differ only in case as the same id. The column types are not known either, so a duration too large for its column on insert is not modelled; the `::int` casts of the most-watched query are.
- Concurrency. Each request is one atomic step. Two gaps are therefore outside the model:
  - a deletion can land between the ingestion route's tombstone check and its insert;
  - another request can observe the state between the purge and the tombstone upsert of an erasure.
  
  Each erasure statement can still fail on its own (`GdprRoute.DeleteUser`): a failed purge changes nothing, and a failed upsert leaves the rows deleted with no tombstone.
- JavaScript dates and numbers:
  - `Date.parse`, `new Date(...)` and PostgreSQL's timestamp reading are the abstract `DateParser`, so calendar validity (e.g. a 30th of February) is whatever that parameter says. A `playedAt` that has the right shape but names no instant is modelled as a failed insert, which gives 500.
  - JSON numbers and `z.coerce.number` values are integers. A fractional duration or limit is not modelled.
  - The `count` column read through `parseInt` is the exact row count.
- Zod's exact issue texts for library rules (`Required`, `Expected string, received number`, minimum and maximum) are named constants. Only the order of issues *within* one field is not pinned down.
- How `@fastify/cors` turns a denial into a response, its preflight handling, and the startup log line of allowed origins. Only the decision (`Cors.Decide`) is modelled.
- Process and framework plumbing: server start (`src/index.ts`), route registration (`src/app.ts` beyond its error handler), Swagger, the health route, environment and logger utilities, the `stack` field the error handler adds in development, and request logging.
- HistoryService.GetHistory: the item's `playedAt` is the stored instant, not the `Date` object node-pg returns.
- HistoryRoute.GetUserHistory: the out-of-range message quotes the offset's exact decimal digits. JavaScript renders a number above 2^53 rounded, and one from 10^21 up in exponent form, which PostgreSQL rejects with a different message. The status (500) is the same either way.
- The code echoes the database error's message: in `details` of a failed erasure (src/routes/gdpr.ts:31), and in `message` of the application-wide handler (src/app.ts:18). The model follows the code.

## Findings

| source | as written | input that shows it | evidently intended | confidence | as-written member | corrected member |
|---|---|---|---|---|---|---|
| src/plugins/cors.ts:20-23 | with no origins configured, any origin that *starts with* `http://localhost` or `http://127.0.0.1` is allowed, and credentials are allowed too | origin `http://localhost.evil.example` (or `http://127.0.0.1.example.net`) with `CORS_ORIGINS` unset | allow only local development origins: the loopback host, optionally with a port | medium — not executed | Cors.Decide, Cors.PrefixAdmitsRemoteHost | Cors.DecideStrict, Cors.StrictRefusesRemoteHost, Cors.LoopbackShape |
