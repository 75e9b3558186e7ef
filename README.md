# greenlight request gates, rate limiting and mail retry, in Dafny

This project models the sequential decision logic of the greenlight JSON API server (a Go program) and proves what that logic promises. It covers five parts:

- **Per-client rate limiting** (`rateLimit`). A registry maps a client IP to its token-bucket limiter and the time it was last seen. Each request is admitted or denied. A sweep evicts clients idle for more than three minutes. The registry is a class whose `clients` map the admission and sweep methods update in place. The limiter from golang.org/x/time/rate is abstracted as an integer token bucket: capacity `burst`, refill at `rps` tokens per second, and a denied call changes nothing. Time is in milliseconds, and the bucket counts thousandths of a token.
- **Request gates** (`authenticate`, `enableCORS`, `requirePermission`):
  - **Bearer header split.** This follows section 2.1 of RFC 6750, but more strictly: the scheme is matched case-sensitively and the header is split on single spaces.
  - **CORS decision.** It decides the origin and the preflight answer, following section 3.2 of the WHATWG Fetch Standard.
  - **Authorisation chain.** The checks run in a fixed order: anonymous, then activated, then permission.
- **Mail delivery retry** (`Mailer.Send`). It makes at most three attempts, pauses 500 ms after each failed attempt except the last, and returns the last error. The SMTP client is an abstract function from attempt number to outcome, and the pauses are recorded in a trace.
- **Listing filters** (`ValidateFilters`, `sortColumn`, `sortDirection`, `limit`, `offfset`, `CalculateMetaData`). The page bound in the source is the literal `10_000_00`, which is one million, although its message says "10 million". The model keeps one million. The last page is computed by integer ceiling division.
- **Helpers**: `Permissions.Include`, the list building of `GetAllForUser`, `readIDParam`, and the header merge of `writeJSON`.

Modules: `TokenBucket`, `RateLimit`, `Authentication`, `Cors`, `AccessControl` (all from cmd/api/middleware.go), `Mailer`, `Filters`, `Permissions`, `Helpers`, and two support modules: `Wrappers` (Option/Result) and `HttpHeader` (net/http's header map).

## Model

| member | source | states |
|---|---|---|
| TokenBucket.New | cmd/api/middleware.go:82 | a new limiter carries the configured rate and burst and starts with a full bucket |
| TokenBucket.Available | cmd/api/middleware.go:88 | the refilled token count never exceeds the capacity and never falls below what the bucket held |
| TokenBucket.Allow | cmd/api/middleware.go:88 | allowed iff a whole token is available after refill; an allowed call takes exactly one token and records the time; a denied call leaves the limiter unchanged; rate and burst never change |
| TokenBucket.BurstAdmitsHeldTokens | cmd/api/middleware.go:88 | a bucket holding k tokens at the current instant admits exactly the first k calls made at that instant |
| TokenBucket.FreshLimiterAdmitsBurst | cmd/api/middleware.go:79-88 | a fresh limiter admits exactly `burst` calls at one instant and denies every later call at that instant |
| TokenBucket.RefillAfterIdle | cmd/api/middleware.go:88 | after an idle time long enough for one token to accrue, the next call is allowed |
| TokenBucket.IdleRefillIsCapped | cmd/api/middleware.go:82-88 | however long the idle time, the bucket holds at most `burst` tokens, and one fewer after an allowed call |
| RateLimit.Registry.constructor | cmd/api/middleware.go:51-54 | the registry starts empty with the configured rate and burst |
| RateLimit.Registry.Check | cmd/api/middleware.go:71-98 | disabled: Allow, map unchanged; enabled: an unseen IP gets exactly one fresh limiter, an existing entry keeps its limiter, the IP's lastSeen is stamped to now whether it is then allowed or denied, the verdict is the limiter's answer, other entries are untouched, and every limiter stays within capacity |
| RateLimit.Registry.Sweep | cmd/api/middleware.go:56-69 | removes exactly the entries with now - lastSeen strictly greater than 3 minutes (an entry exactly 3 minutes old survives); all other entries are kept unchanged |
| RateLimit.ReadmitAfterEviction | cmd/api/middleware.go:62-88 | after eviction, the client's next request starts from a full bucket: it is allowed iff burst >= 1, and leaves burst - 1 tokens |
| Authentication.Split | cmd/api/middleware.go:127 | `strings.Split` on " " yields at least one part, and no part contains a space |
| Authentication.JoinSplit | cmd/api/middleware.go:127 | joining the parts of a split with single spaces gives back the header |
| Authentication.SplitSpaceFree | cmd/api/middleware.go:127 | a space-free string splits into itself alone |
| Authentication.SplitAfterPiece | cmd/api/middleware.go:127 | a space-free piece and a space at the front are split off as the first part |
| Authentication.SplitTwo | cmd/api/middleware.go:127-128 | the split has exactly two parts a, b iff the header is a + " " + b with a and b space-free |
| Authentication.ParseAuthorization | cmd/api/middleware.go:116-134 | no credentials iff the header is empty; a token is extracted only from "Bearer" + one space + a space-free token |
| Authentication.BearerIff | cmd/api/middleware.go:127-134 | the header yields token t iff it is exactly "Bearer " + t with t space-free; anything else non-empty is malformed |
| Authentication.LowercaseSchemeRejected | cmd/api/middleware.go:128 | "bearer <t>" is malformed: the scheme name is case-sensitive |
| Authentication.DoubleSpaceRejected | cmd/api/middleware.go:127-128 | "Bearer  <t>" (two spaces) is malformed |
| Authentication.Authenticate | cmd/api/middleware.go:101-169 | an empty header proceeds as the anonymous user; a malformed header is an invalid token; a server error arises only from a well-formed Bearer header |
| Authentication.AuthenticateBearer | cmd/api/middleware.go:134-160 | for "Bearer <t>", the token checked and looked up is t: bad format or no record is an invalid token, a lookup error is a server error, a found user proceeds |
| Cors.CorsResponse | cmd/api/middleware.go:237-266 | Vary: Origin is always added; Access-Control-Allow-Origin is set to the origin only for a non-empty trusted origin, and otherwise the response is only varied with next called; a preflight answer (200, allowed methods and headers, next not called) happens iff the origin is trusted and the request is OPTIONS with a non-empty Access-Control-Request-Method; an answer that calls next leaves Allow-Methods and Allow-Headers as they were, and every header other than those four keeps its values |
| Cors.EnableCors | cmd/api/middleware.go:237-266 | the search loop with its early return and break gives exactly the decision of CorsResponse |
| AccessControl.RequireAuthenticatedUser | cmd/api/middleware.go:173-185 | the anonymous user is rejected with authentication required before next runs; any other user gets exactly what next does |
| AccessControl.RequireActivatedUser | cmd/api/middleware.go:187-203 | the anonymous user gets the authentication rejection, not the activation one; a non-activated account is rejected as inactive; an activated account gets exactly what next does |
| AccessControl.RequirePermission | cmd/api/middleware.go:171-230 | next runs iff the user is not anonymous, is activated, the permission lookup succeeded and includes the code; otherwise the first failing check decides: authentication required, inactive account, server error, not permitted |
| Mailer.Retry | internal/mailer/mailer.go:114-126 | the attempts from i on end without error iff some attempt from i to 3 succeeds; a failure returns the third attempt's error; the trace starts with attempt i and ends with an attempt, never a pause |
| Mailer.Schedule | internal/mailer/mailer.go:114-124 | k attempts interleaved with pauses have 2k - 1 events and end with attempt k |
| Mailer.Send | internal/mailer/mailer.go:49-127 | a preparation error is returned before any attempt; otherwise the loop's result and trace are those of the retry definition |
| Mailer.RetrySucceedsIff | internal/mailer/mailer.go:114-118 | delivery succeeds iff one of the attempts 1 to 3 succeeds |
| Mailer.RetryStopsAtFirstSuccess | internal/mailer/mailer.go:114-124 | if attempt k is the first success, success is returned after exactly k attempts and k - 1 pauses, and nothing follows attempt k |
| Mailer.RetryAllFail | internal/mailer/mailer.go:114-126 | if all three attempts fail, the third error is returned after exactly three attempts and two pauses, with no pause after the last attempt |
| Mailer.RetryUnfold | internal/mailer/mailer.go:120-124 | a failed attempt before the third is followed by a 500 ms pause and the next attempt |
| Mailer.PausesOfSchedule | internal/mailer/mailer.go:121-123 | the pauses sit exactly between attempts, k - 1 of them |
| Filters.ValidateFilters | internal/data/filters.go:17-26 | a "page" error iff page <= 0 or page > 1,000,000; a "page_size" error iff page_size <= 0 or > 100; a "sort" error iff the sort key is not safelisted; earlier errors are kept and no other key is added |
| Filters.ValidIff | internal/data/filters.go:19-25 | filters pass validation iff the page and page size are in range and the sort key is safelisted |
| Filters.ValidateFiltersMessages | internal/data/filters.go:19-25 | each failing check records the message written in the source, including "must be a maximum of 10 million" for the one-million bound |
| Filters.SortDirection | internal/data/filters.go:38-43 | "DESC" iff the sort key starts with "-", otherwise "ASC" |
| Filters.SortColumn | internal/data/filters.go:28-36 | defined for safelisted keys only (the source panics otherwise); the key equals "-" + column when descending and the column itself otherwise |
| Filters.Limit | internal/data/filters.go:45-47 | for valid filters the limit is between 1 and 100 rows |
| Filters.Offset | internal/data/filters.go:49-51 | for valid filters the offset is non-negative and below 100,000,000 |
| Filters.PageWindow | internal/data/filters.go:45-51 | for valid filters offset >= 0, limit = page_size, offset + limit = page * page_size, and the window stays within 100,000,000 |
| Filters.CalculateMetaData | internal/data/filters.go:67-80 | no records give all-zero metadata; otherwise page, page size and total are echoed, the first page is 1, and the last page is the least n with n * page_size >= total |
| Filters.CeilingDivision | internal/data/filters.go:76 | (n + d - 1) / d is the least q with q * d >= n |
| Permissions.Index | internal/data/permissions.go:14-16 | the first position holding the code, or -1 exactly when no entry holds it |
| Permissions.Include | internal/data/permissions.go:14-16 | true iff some index holds the code; an empty or nil list includes nothing |
| Permissions.AppendIncludes | internal/data/permissions.go:49 | after an append, the earlier codes stay in place and in order, the new code is included, and every code included before still is |
| Permissions.GetAllForUser | internal/data/permissions.go:22-57 | a query error, the first scan error, or the rows' error is returned, in that order; on success the list holds every scanned code in row order, and each is included |
| Helpers.ParseInt | cmd/api/helpers.go:15 | succeeds iff the string is an optional sign followed by one or more decimal digits whose signed value lies in the int64 range, and then returns that value; the empty string is a syntax error |
| Helpers.RangeErrorBeforeSyntaxError | cmd/api/helpers.go:15 | digits worth more than 2^64 - 1 are a range error whatever follows them, since the overflow is met before any later non-digit |
| Helpers.ReadIdParam | cmd/api/helpers.go:12-21 | an id is returned iff the parameter parses to a value in [1, 2^63 - 1], and it is that value (so "+5" and "007" give 5 and 7); every failure returns 0 with the "invalid id parameter" error |
| Helpers.NonPositiveIdRejected | cmd/api/helpers.go:16-18 | "0" and "-5" parse but are rejected with id 0 |
| Helpers.NonDecimalIdRejected | cmd/api/helpers.go:15-18 | a character that is neither a digit nor a leading sign makes the parameter invalid |
| Helpers.OutOfRangeIdRejected | cmd/api/helpers.go:15-18 | digits worth more than 2^63 - 1 are a range error and an invalid id |
| Helpers.DecimalValueOfFormat | cmd/api/helpers.go:15 | reading the decimal rendering of n gives n |
| Helpers.ReadIdRoundTrip | cmd/api/helpers.go:15-20 | for every n in [1, 2^63 - 1], reading the decimal rendering of n returns n without error |
| Helpers.ResponseWriter.WriteJson | cmd/api/helpers.go:25-52 | a marshalling error is returned with the response untouched; otherwise every supplied header is copied over the response's, Content-Type is application/json (overriding a supplied one), other headers are kept, the status is written, and the body is the JSON plus a newline |

## Left out

- Concurrency: the mutex around the client map and the goroutine that sweeps once a minute. Sweeping is a method called with the current time, and admission is a sequential method.
- `realip.FromRequest`: the client IP is an input string.
- golang.org/x/time/rate internals: float tokens, the infinite rate, fractional rates, and the zero-rate special case (modelled here as a bucket that never refills). The limiter is the abstract integer bucket described above.
- `RateLimit.Registry.Check`: uses one `now` both for the lastSeen stamp and for the limiter. The source reads the clock twice.
- `recoverPanic` and `metrics`: panic recovery, expvar globals and wall-clock durations.
- Mail plumbing: template parsing and rendering, building the mail client, the message itself, and SMTP I/O. The preparation steps are summarised as the error of the first one that fails. Real sleeping is replaced by pause events.
- SQL: the `GetAllForUser` query and `AddForUser`, and connecting to the database. The query result and the row scans are inputs.
- `authenticate`: two collaborators are parameters, because their code is not part of this model: the token-format check (`ValidateTokenPlaintext`) and the token lookup (`GetForToken`). Also not modelled: the request context that stores the user, and the `Vary: Authorization` header it adds.
- `AccessControl.RequirePermission`: the permission lookup is given as its result. The source performs it only after the first two checks pass. This is pure here, so the order cannot be observed.
- User records: only anonymity and the activation flag are modelled. The anonymous user is a constructor, whereas the source compares pointers.
- HTTP header keys are not canonicalised. Superfluous `WriteHeader` calls and writes after the header is sent are not modelled. JSON marshalling is an input to `ResponseWriter.WriteJson`.
- `Filters.Offset`, `Filters.Limit`: 64-bit wrap-around for filters that failed validation is not modelled. For valid filters the product stays below 100,000,000.
- `Filters.CalculateMetaData`: the source's `math.Ceil` over float64 is replaced by integer ceiling division. The total is a natural number. A zero or negative page size with records present is excluded, because integer division by it is undefined.
- The validator package is not part of this model. Its `Check` is taken to record a message only for a key that has none yet.
- No conditional-update code exists in these sources; there is only the `ErrEditConflict` sentinel and the `Vesion` field. So no versioned-update coordinator is modelled. `app.Background`, the server start-up, flag parsing and the JSON handlers are not part of this model.
