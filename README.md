# Airports service of the bookings demo: a verified model

This project models the airports service of the `bookings` demo. The service has two HTTP routes over a PostgreSQL `airports` table:

- `GET {lang}/airports/lookup/v1` looks up airports by code, name or city, and answers with conditional-request support.
- `POST private/airports/v1` validates an airport record and inserts it.

The model covers the repository that talks to the database, the two request handlers, the validator, and the `AirportData` record. It proves what each of them does with every input, including the error paths.

Modules, one per file:

- `Wrappers` (wrappers.dfy): `Option` and `Result`.
- `Records` (records.dfy): the `AirportData`, `Airport` and `Point` records, and `isMalformed`.
- `Ilike` (ilike.dfy): PostgreSQL's `LIKE`/`ILIKE` pattern match.
  - `%` matches any run and `_` matches one character; `\` escapes.
  - The test ignores case for the Latin and basic Cyrillic letters.
  - Also here: the "contains, ignoring case" reading of a pattern `%text%`.
- `Decimal` (decimal.dfy): `Integer.parseInt` for ASCII decimal text, with 32-bit range checking. Also the decimal printing of an `int`.
- `Storage` (storage.dfy): the database and `Repository.java`.
  - The database is a class. Its fields are the committed table, the rows of the open transaction, the session settings, and a journal of the statements sent. It is changed by one `Execute` per JDBC statement. Auto-commit is off, so the two `SET`s belong to the open transaction: a commit keeps them for the connection, and a rollback, including the one the pool makes on release, undoes them together with any uncommitted rows.
  - `Repository.GetAirportsLike` and `Repository.SaveAirport` are methods proved against specification functions. `LookupJournal`/`LookupResult` give the statements sent and the outcome of a search; `SaveJournal`/`SaveResult` do the same for an insert.
  - `logWarnings` walks the linked `SQLWarning` chains, both as written and corrected.
- `Web` (web.dfy): `WebConfig.java`.
  - The route predicate `supportLanguage`.
  - The lookup handler: a class with a fixed tag and instant. Its `Handle` method is proved equal to the pure `LookupResponse`. That function is built from `Decide`, the chain of checks before the repository call.
  - The `Errors` collection and the `AirportValidator` that appends to it.
  - The create handler, proved equal to `CreateResponse`.

An exception that escapes a handler becomes the `ServerError` (500) response of the router's `onError` handler (WebConfig.java:45, 62-67).

Inputs the model takes as parameters:

- Backend failures are a `Fault` parameter: the step at which an `SQLException` is raised.
- The affected-row count of the insert is a parameter.
- The library parsers `NumberUtils.isCreatable` and `Instant.parse` are the fields of a `Library` value.
- The request is a datatype holding what the handler reads of it.

## Model

| member | source | states |
|---|---|---|
| Records.IsMalformed | src/main/java/com/github/maxpesh/airports/AirportData.java:13-20 | the definition of `isMalformed`: a null name map, city map, point or zone, or a map with fewer entries than there are languages; its meaning is proved by the lemmas below |
| Records.NotMalformedIffComplete | src/main/java/com/github/maxpesh/airports/AirportData.java:13-20 | a record is not malformed exactly when both maps, the point and the zone are present and both maps are keyed by every language |
| Records.NullFieldIsMalformed | src/main/java/com/github/maxpesh/airports/AirportData.java:14-17 | a null name map, city map, point or zone makes the record malformed |
| Records.ShortMapIsMalformed | src/main/java/com/github/maxpesh/airports/AirportData.java:18-19 | a map with fewer entries than there are languages makes the record malformed |
| Records.MalformedIgnoresCode | src/main/java/com/github/maxpesh/airports/AirportData.java:13-20 | changing the code, even to null or "", never changes `isMalformed` |
| Records.NotMalformedCoversEveryLanguage | src/main/java/com/github/maxpesh/airports/AirportData.java:18-19 | in a record that is not malformed, both maps hold every language |
| Records.FullMapHasEveryLanguage | src/main/java/com/github/maxpesh/airports/AirportData.java:18-19 | a map keyed by languages with at least as many entries as languages is keyed by all of them |
| Records.EveryLanguageMapIsFull | src/main/java/com/github/maxpesh/airports/AirportData.java:18-19 | a map keyed by every language has exactly as many entries as there are languages |
| Records.LanguageCountIsAllLanguages | src/main/java/com/github/maxpesh/airports/AirportData.java:18 | `Language.values().length` is the number of languages, and every language is among them |
| Records.NullTranslationsAreNotMalformed | src/main/java/com/github/maxpesh/airports/AirportData.java:9-20 | the entries of the maps may be null in a record that is not malformed, and the code may be null too |
| Ilike.Like | src/main/java/com/github/maxpesh/airports/Repository.java:72 | the definition of PostgreSQL `LIKE` with `%`, `_` and the `\` escape; its meaning for the search patterns is proved by the lemmas below |
| Ilike.ILike | src/main/java/com/github/maxpesh/airports/Repository.java:72 | the definition of `ilike`: `LIKE` after folding the case of the text and the pattern; proved to be case-insensitive containment by SearchPatternIsContainment |
| Ilike.PercentMatchesAll | src/main/java/com/github/maxpesh/airports/Repository.java:72 | the pattern `%` matches every text |
| Ilike.LiteralPrefix | src/main/java/com/github/maxpesh/airports/Repository.java:72 | a wildcard-free pattern prefix matches exactly the texts that start with it |
| Ilike.LeadingPercent | src/main/java/com/github/maxpesh/airports/Repository.java:72 | a pattern starting with `%` matches a text exactly when the rest matches some suffix of it |
| Ilike.SurroundedLiteralIsContainment | src/main/java/com/github/maxpesh/airports/Repository.java:77-79 | `%q%` with a wildcard-free `q` matches exactly the texts in which `q` occurs |
| Ilike.SearchPatternIsContainment | src/main/java/com/github/maxpesh/airports/Repository.java:72-79 | for a search text free of `%`, `_` and `\`, `ilike '%q%'` holds exactly when the text contains `q`, ignoring case |
| Ilike.EmptySearchMatchesAll | src/main/java/com/github/maxpesh/airports/Repository.java:77-79 | the pattern `%%` bound for an empty search text matches every value |
| Decimal.ParseInt | src/main/java/com/github/maxpesh/airports/WebConfig.java:105 | `parseInt` succeeds exactly on an optional sign followed by one or more digits whose signed value lies within the 32-bit `int` range, and then returns that value |
| Decimal.LeadingZeroKeepsValue | src/main/java/com/github/maxpesh/airports/WebConfig.java:105 | a leading zero does not change the value of a run of digits |
| Decimal.ParseIntLenientForms | src/main/java/com/github/maxpesh/airports/WebConfig.java:105 | `parseInt` reads a non-negative `int` written with a leading `+` or a leading zero as that `int` |
| Decimal.ParseIntRoundTrip | src/main/java/com/github/maxpesh/airports/WebConfig.java:105 | `parseInt` gives back every 32-bit `int` from its decimal text |
| Storage.Apply | src/main/java/com/github/maxpesh/airports/Repository.java:59-119 | the definition of what each JDBC statement does: the two `SET`s, the search, the insert, commit, rollback and the pool's rollback on release, with a rollback also undoing the `SET`s of the transaction; proved about by the Run lemmas below |
| Storage.UncommittedWorkIsLost | src/main/java/com/github/maxpesh/airports/Repository.java:119 | a run of statements with no commit leaves the committed table and the committed session settings as they were |
| Storage.CommittedInsertIsStored | src/main/java/com/github/maxpesh/airports/Repository.java:103-127 | an insert followed by a commit would append the row to the table; `saveAirport` sends no commit |
| Storage.ToAirport | src/main/java/com/github/maxpesh/airports/Repository.java:84-90 | the definition of reading one result row into an `Airport`: code, the name and city in the session language, point and zone; proved about by Repository.Fetch and SearchOnlyReturnsMatches |
| Storage.SearchPattern | src/main/java/com/github/maxpesh/airports/Repository.java:77-79 | the definition of the text bound to the three `ilike ?` parameters: `%`, the search text, `%` |
| Storage.RowMatches | src/main/java/com/github/maxpesh/airports/Repository.java:72 | the definition of the `where` clause: the code, or the name or city in the session language, is `ilike` the pattern; a missing translation matches nothing |
| Storage.Search | src/main/java/com/github/maxpesh/airports/Repository.java:69-92 | the definition of a successful search: the matching rows in table order, cut at `limit`, each read into an `Airport`; proved about by the Search lemmas below |
| Storage.MatchingMembers | src/main/java/com/github/maxpesh/airports/Repository.java:72 | a row is in the filtered result exactly when it is in the table and satisfies the `where` clause |
| Storage.MatchingKeepsOrder | src/main/java/com/github/maxpesh/airports/Repository.java:83-92 | filtering a table split in two gives the filtered first part, then the filtered second part, so table order is kept |
| Storage.EverythingMatchesEmptyText | src/main/java/com/github/maxpesh/airports/Repository.java:77-79 | with an empty search text every row matches |
| Storage.SearchIsBounded | src/main/java/com/github/maxpesh/airports/Repository.java:73-80 | the search returns `limit` airports, or every match when fewer rows than that match |
| Storage.SearchOnlyReturnsMatches | src/main/java/com/github/maxpesh/airports/Repository.java:72-79 | for a search text free of `%`, `_` and `\`, each returned airport is built from a table row whose code, name or city contains the search text, ignoring case |
| Storage.SearchFindsEveryMatch | src/main/java/com/github/maxpesh/airports/Repository.java:72-80 | for a search text free of `%`, `_` and `\`, below the limit, every row whose code, name or city contains the search text is returned |
| Storage.SearchEmptyIffNoMatch | src/main/java/com/github/maxpesh/airports/Repository.java:83-100 | with a positive limit the result is empty exactly when no row matches; no match is an empty list, not an error |
| Storage.EmptyTextReturnsLeadingRows | src/main/java/com/github/maxpesh/airports/Repository.java:73-80 | an empty search text returns the first `limit` rows of the table, in order |
| Storage.Database.constructor | src/main/java/com/github/maxpesh/airports/Repository.java:35-55 | a fresh database holds the given rows, with no open work, no session settings and an empty journal |
| Storage.Database.Execute | src/main/java/com/github/maxpesh/airports/Repository.java:59-119 | one statement changes the state as its semantics say, is appended to the journal, and keeps the state equal to the replay of the journal |
| Storage.LookupJournal | src/main/java/com/github/maxpesh/airports/Repository.java:57-101 | the definition of the statements one search sends, stopping at the step that fails: setup, query, commit, release |
| Storage.LookupResult | src/main/java/com/github/maxpesh/airports/Repository.java:57-101 | the definition of what one search returns: the search result, or the `SQLException` of a fault, a negative limit or a failed fetch |
| Storage.LookupKeepsTable | src/main/java/com/github/maxpesh/airports/Repository.java:57-101 | a search commits exactly when it succeeds; whatever happens, the table is unchanged and no transaction is left open; the session settings it made stay only when it commits, and a failed search rolls them back |
| Storage.JournalledLookupKeepsTable | src/main/java/com/github/maxpesh/airports/Repository.java:57-101 | after any earlier history, replaying a search's statements leaves the table as it was and the connection idle |
| Storage.LookupFailures | src/main/java/com/github/maxpesh/airports/Repository.java:95-98 | with no fault the search fails only for a negative limit; a fault at connect, setup, query or commit fails it; a fault at row fetch `n` fails it exactly when the result set reaches call `n` |
| Storage.SaveJournal | src/main/java/com/github/maxpesh/airports/Repository.java:103-127 | the definition of the statements one insert sends, stopping at the step that fails: insert, rollback, release |
| Storage.SaveResult | src/main/java/com/github/maxpesh/airports/Repository.java:103-127 | the definition of what one insert returns, in the order the code meets its failures: connection, null dereference, the insert, the row count, the rollback |
| Storage.SaveNeverStores | src/main/java/com/github/maxpesh/airports/Repository.java:119 | `saveAirport` never commits: the table and the session settings are unchanged and no transaction is left open |
| Storage.JournalledSaveKeepsTable | src/main/java/com/github/maxpesh/airports/Repository.java:103-127 | after any earlier history, replaying an insert's statements leaves the table as it was and the connection idle |
| Storage.SaveOutcomes | src/main/java/com/github/maxpesh/airports/Repository.java:103-127 | it succeeds exactly when no fault interrupts it, no bound field is null and one row is affected; on success it returns its argument unchanged; another row count is "Insert failed"; a null point or zone is a `NullPointerException` |
| Storage.Repository.Fetch | src/main/java/com/github/maxpesh/airports/Repository.java:83-92 | the fetch loop fails exactly when a fault hits one of its `rs.next()` calls, and otherwise returns one airport per row, in order |
| Storage.Repository.GetAirportsLike | src/main/java/com/github/maxpesh/airports/Repository.java:57-101 | sends the session setup, the search, the commit and the release in that order, stopping at the failing step; returns the search result or the failure |
| Storage.Repository.SaveAirport | src/main/java/com/github/maxpesh/airports/Repository.java:103-127 | sends the insert, the rollback and the release, stopping at the failing step; returns the record or the failure |
| Storage.TemplateDescribesNoWarning | src/main/java/com/github/maxpesh/airports/Repository.java:156 | the logged format string differs from every filled-in description of a warning |
| Storage.LogChain | src/main/java/com/github/maxpesh/airports/Repository.java:155-158 | the inner loop logs one line per warning of the chain, each the unfilled template |
| Storage.LogWarnings | src/main/java/com/github/maxpesh/airports/Repository.java:152-161 | one line per warning across all chains, null array and null heads included, each the unfilled template |
| Storage.ChainStep | src/main/java/com/github/maxpesh/airports/Repository.java:157 | `getNextWarning` moves to a well-formed rest of the chain, one warning shorter |
| Storage.DescribesEach | src/main/java/com/github/maxpesh/airports/Repository.java:156 | line `k` describes warning `k` by its message, SQL state and vendor code |
| Storage.DescribesAppend | src/main/java/com/github/maxpesh/airports/Repository.java:154-158 | the lines for two runs of warnings are the lines of the first run, then those of the second |
| Storage.LogChainFormatted | src/main/java/com/github/maxpesh/airports/Repository.java:155-158 | the corrected inner loop logs the description of each warning of the chain, in order |
| Storage.LogWarningsFormatted | src/main/java/com/github/maxpesh/airports/Repository.java:152-161 | the corrected walk logs the description of every warning of every chain, in order |
| Web.SupportLanguage | src/main/java/com/github/maxpesh/airports/WebConfig.java:57-60 | the definition of the route predicate: the segment is exactly "en" or "ru" |
| Web.LanguageOf | src/main/java/com/github/maxpesh/airports/WebConfig.java:101 | the definition of `Language.valueOf(lang.toUpperCase())`, with `None` for the exception; characterised by LanguageOfCharacterised |
| Web.LanguageOfCharacterised | src/main/java/com/github/maxpesh/airports/WebConfig.java:101 | `Language.valueOf(lang.toUpperCase())` gives EN exactly for "en" in any letter case, and RU exactly for "ru" in any letter case |
| Web.RoutedSegmentHasLanguage | src/main/java/com/github/maxpesh/airports/WebConfig.java:57-60 | every segment the route admits names a language |
| Web.RouteIsStricterThanValueOf | src/main/java/com/github/maxpesh/airports/WebConfig.java:57-60 | "En" would name a language but the route refuses it |
| Web.LimitOf | src/main/java/com/github/maxpesh/airports/WebConfig.java:103-107 | a limit that is kept lies in [1, 20]; it fails exactly when a creatable text does not parse as an `int`; a creatable text that parses to a value in [1, 20] is kept as that value |
| Web.Decide | src/main/java/com/github/maxpesh/airports/WebConfig.java:79-107 | the definition of the chain of checks before the repository call, in the code's order: tag, date parse, date, `airport`, language, limit; proved about by NotModifiedIff and the lemmas below |
| Web.CacheControl | src/main/java/com/github/maxpesh/airports/WebConfig.java:118-123 | the definition of the cache headers: the last modification, the tag and a max-age of one hour; proved about by TagMatchIgnoresQuery and SearchAnswer |
| Web.Answer | src/main/java/com/github/maxpesh/airports/WebConfig.java:109-115 | the definition of the final answer of a search: 204 for no airports, otherwise 200 with them and the cache headers; proved about by SearchAnswer |
| Web.LookupResponse | src/main/java/com/github/maxpesh/airports/WebConfig.java:78-116 | the definition of the whole lookup answer: the decision, then 500 for a failed search, 204 for an empty one and 200 with the cache headers otherwise; proved about by SearchAnswer and TagMatchIgnoresQuery |
| Web.LookupAirportHandler.constructor | src/main/java/com/github/maxpesh/airports/WebConfig.java:69-76 | the tag starts as "deadbeef" and the instant as the construction time; both are never reassigned |
| Web.LookupAirportHandler.Handle | src/main/java/com/github/maxpesh/airports/WebConfig.java:78-116 | the answer is the pure lookup response; the table is unchanged and the connection idle; the database is touched only when the checks let the search through, and then it gets exactly the search's statements |
| Web.NotModifiedIff | src/main/java/com/github/maxpesh/airports/WebConfig.java:79-94 | 304 exactly when the first If-None-Match value is the tag, or the first If-Modified-Since value parses to the modification instant |
| Web.TagMatchIgnoresQuery | src/main/java/com/github/maxpesh/airports/WebConfig.java:79-86 | a matching tag gets 304 with the cache headers, even without an `airport` parameter |
| Web.OtherInstantFallsThrough | src/main/java/com/github/maxpesh/airports/WebConfig.java:87-94 | an If-Modified-Since instant earlier or later than the modification instant does not give 304 |
| Web.DateCheckedDespiteTag | src/main/java/com/github/maxpesh/airports/WebConfig.java:79-94 | when the tag does not match but If-Modified-Since names the last modification, the answer is 304 with the cache headers: a non-matching If-None-Match does not stop the date check |
| Web.MissingAirportIsBadRequest | src/main/java/com/github/maxpesh/airports/WebConfig.java:79-100 | when neither the tag nor the date gives 304 and the date parses if present, a missing `airport` gets 400 with the JSON `Errors` message, and the repository is not called |
| Web.EmptyAirportIsNotRejected | src/main/java/com/github/maxpesh/airports/WebConfig.java:95-100 | an empty `airport` is never answered 400: `isEmpty` tests only for absence, although the message says "null or empty" |
| Web.EmptyAirportSearchesAll | src/main/java/com/github/maxpesh/airports/WebConfig.java:95-115 | for a request with an empty `airport` that reaches the query (EmptyAirportIsNotRejected shows it is never turned away with 400), the query text is empty and the limit is in [1, 20]; when the search succeeds, the answer is made from the first `limit` rows of the table |
| Web.LimitInRangeKept | src/main/java/com/github/maxpesh/airports/WebConfig.java:103-107 | a creatable limit in [1, 20] is used as given, whether written plainly, with a leading `+` or with a leading zero |
| Web.LimitDefaults | src/main/java/com/github/maxpesh/airports/WebConfig.java:103-107 | an absent, non-creatable or out-of-range limit becomes 20 |
| Web.CreatableFractionIsServerError | src/main/java/com/github/maxpesh/airports/WebConfig.java:103-107 | a creatable non-`int` such as "2.5" makes `parseInt` throw, which ends in 500 |
| Web.QueriedLimitIsClamped | src/main/java/com/github/maxpesh/airports/WebConfig.java:103-108 | the limit passed to the repository always lies in [1, 20] |
| Web.SearchAnswer | src/main/java/com/github/maxpesh/airports/WebConfig.java:108-115 | with no backend fault, 204 exactly when no row matches, otherwise 200 with 1 to 20 airports and the cache headers |
| Web.Rejection | src/main/java/com/github/maxpesh/airports/WebConfig.java:156-160 | each rejection names the field that was checked |
| Web.Errors.constructor | src/main/java/com/github/maxpesh/airports/WebConfig.java:137 | a binding result starts with no errors for its target |
| Web.Errors.RejectIfEmpty | src/main/java/com/github/maxpesh/airports/WebConfig.java:156-160 | `rejectIfEmpty` appends one error with the given code and message exactly when the field is null or prints as "" |
| Web.AirportValidator.Validate | src/main/java/com/github/maxpesh/airports/WebConfig.java:155-161 | `validate` appends the rejections of the five fields, in the order they are checked |
| Web.IsEmptyField | src/main/java/com/github/maxpesh/airports/WebConfig.java:156-160 | the definition of `rejectIfEmpty`'s test: null, or a value that prints as ""; a map or a point only when null |
| Web.Violations | src/main/java/com/github/maxpesh/airports/WebConfig.java:155-161 | the definition of the rejections `validate` records, in the order of its five checks; characterised by the lemmas below |
| Web.ViolationsAreFew | src/main/java/com/github/maxpesh/airports/WebConfig.java:155-161 | at most five errors are recorded, one per field |
| Web.EmptyFieldIsRejected | src/main/java/com/github/maxpesh/airports/WebConfig.java:155-161 | every empty field gets its rejection |
| Web.RejectionIsOfEmptyField | src/main/java/com/github/maxpesh/airports/WebConfig.java:155-161 | every recorded rejection belongs to an empty field |
| Web.NoViolationsIff | src/main/java/com/github/maxpesh/airports/WebConfig.java:155-161 | a record passes exactly when all five fields are present and neither the code nor the zone is "" |
| Web.ValidatedIsBindable | src/main/java/com/github/maxpesh/airports/WebConfig.java:138-142 | a record that passes the validator has no null field for the insert to bind |
| Web.ValidatorAdmitsMalformed | src/main/java/com/github/maxpesh/airports/WebConfig.java:155-161 | the validator does not call `isMalformed`: a record with one translation per map passes and is malformed |
| Web.CreateResponse | src/main/java/com/github/maxpesh/airports/WebConfig.java:135-145 | the definition of the create answer: 500 for a null body, 400 with the rejections, 500 for a failed insert, 201 otherwise; characterised by CreateOutcomes |
| Web.CreateAirportHandler.Handle | src/main/java/com/github/maxpesh/airports/WebConfig.java:135-145 | the answer is the pure create response; the table is unchanged and the connection idle; a rejected body sends nothing, and an accepted one sends exactly the insert's statements |
| Web.CreateAirportHandler.Store | src/main/java/com/github/maxpesh/airports/WebConfig.java:142-144 | once the record has passed the validator: the answer is the create response, the table is unchanged, no transaction is left open, and exactly the insert's statements are sent |
| Web.CreateOutcomes | src/main/java/com/github/maxpesh/airports/WebConfig.java:135-145 | 201 exactly when the body passes and the insert succeeds, with the record as sent and a Location of `uri/code` with a non-empty code; a rejected body gets 400 with its rejections |

## Left out

- Pool and data-source configuration, `readProperties` and `close` (Repository.java:35-55, 129-150) are file and library I/O. The pool is modelled as one connection that rolls back uncommitted work when released.
- Prepare thresholds, the `plan_cache_mode` setting beyond a flag, `PGpoint`, `Types.OTHER` and Jackson serialisation of the maps are not modelled. The JSON columns become maps that keep their non-null entries.
- `Point` coordinates are opaque values. `ZoneId` is its id text, and the model does not capture `ZoneId.of` rejecting an id while rows are read.
- The order in which PostgreSQL returns rows without `order by` is modelled as table order.
- The search text is bound without escaping (Repository.java:77-79), so a `%`, `_` or `\` in it acts as a `LIKE` wildcard or escape. `Like` models this. The containment lemmas hold for texts free of those three characters.
- Case folding outside the Latin and basic Cyrillic alphabets is left out: `ilike` folds only those letters.
- `toUpperCase` before `Language.valueOf` raises ASCII letters only in the model. Java also raises other letters, but no other text upper-cases to exactly "EN" or "RU".
- `parseInt` accepts ASCII digits only; the other Unicode digits Java accepts are left out.
- `NumberUtils.isCreatable` and `Instant.parse` are parameters. The model does not capture that `Instant.parse` reads ISO-8601 and not the HTTP-date of section 5.6.7 of RFC 9110.
- `Language` is not part of this model. Its constants are taken to be exactly `EN` and `RU`, as `supportLanguage` admits (WebConfig.java:57-60). So `Language.values().length` is 2, and `isMalformed` rests on that count.
- The insert's failure for a null code rests on the primary key of `airports_data`, which is not part of this model. A duplicate code is not modelled as a table constraint. It is covered only by the `Fault` step at the insert.
- Spring sends Last-Modified as an HTTP-date, cut to whole seconds (WebConfig.java:71, 119). The model's cache headers carry the instant as taken, so the cut is not modelled.
- Spring's quoting of the ETag header is not modelled. The tag compared and sent is the bare text.
- The warnings collected by `getAirportsLike` and `saveAirport` (Repository.java:67, 82, 118) are not passed to the warning model: logging changes no state and no result.
- Percent-encoding of the Location header built by `uriBuilder` is not modelled.
- Concurrent requests sharing a handler are not modelled. The handler's fields are constants, so there is no shared state to race on.
- WebSecurityConfig.java, Controller.java and Airport.java are not part of this model (security wiring, a stale controller, a duplicate record).

## Findings

| source | as written | input that shows it | evidently intended | confidence | as-written member | corrected member |
|---|---|---|---|---|---|---|
| src/main/java/com/github/maxpesh/airports/Repository.java:156 | `logger.warning` gets the format string itself, so every warning is logged as "Message: %s, SQLState: %s, Vendor error code: %d" | any warning chain, e.g. one warning with message "x", state "01000", code 0 | log the warning's message, SQL state and vendor code in the template's places | high; not executed | Storage.LogWarnings, Storage.TemplateDescribesNoWarning | Storage.LogWarningsFormatted |
