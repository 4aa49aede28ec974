# API gateway request pipeline, modelled in Dafny

This project models the request-handling core of a small Go API gateway. The gateway matches each inbound request to a configured route, throttles it per client and route, and rewrites it for a backend. It also logs each request and response. The model covers four parts of that core:

- **Throttler** (`throttler.dfy`, module `Throttler`). This is the fixed-window `LocalThrottler`:
  - the limit table, filled once from the route list;
  - the per-(route key, client IP) request counters;
  - the allow / deny / count step each request goes through, whose denial is HTTP 429 with `{"error":"Rate limit exceeded"}`;
  - the reset that deletes every counter;
  - `getClientIP`.

  The object is a Dafny class whose methods are proved against pure reference functions (`LimitsOf`, `Throttle`, `Run`). The properties are the contracts of those functions and lemmas about them: the counter invariant, "the first N pass", and unlimited routes.
- **Target resolution** (`routes.dfy`, module `Routes`). This covers:
  - the allow-set and `allowAll` flag built from a route's `query_params`;
  - `{name}` substitution in the target path;
  - filtering the inbound query against the allow-set;
  - additive header copying.
- **Configuration validation** (`config.dfy`, module `Config`). This covers `validateRoute`, `validateTarget` and `validateAll`, with `isValidHTTPMethod`, `isValidPathFormat` and `isDuplicateQueryParams`. Each validator is an ordered first-failure check, with the errors as a datatype. The module also holds `strings.ToUpper` as `Config.ToUpper`.
- **Response recorder** (`logger.dfy`, module `Logger`). The `responseRecorder` tees every written slice into a buffer and records the status, which defaults to 200. The module also models the request-body capture of `Logger`.

`gostd.dfy` (module `GoStd`) holds the few Go library routines the core relies on. They are written out so that the core's behaviour can be stated exactly:

- `strings.ReplaceAll`, `TrimSpace` and `Split(s, ",")[0]`;
- `net.SplitHostPort`;
- `http.Header` with `Get` and `Add`;
- int64 wrap-around.

Integers are modelled as `int64` where the source uses it. Strings are sequences of characters, and header maps are keyed by canonical header names. Go maps iterated in unspecified order become a `seq` of pairs, a loop over an arbitrarily chosen key, or a `set`. Only properties that hold for every order are claimed.

## Model

| member | source | states |
|---|---|---|
| Throttler.LocalThrottler.constructor | internal/middlewares/throttler.go:27-35 | the limit table built by the loop is `LimitsOf(routes)`, and there are no counters |
| Throttler.LimitsOf | internal/middlewares/throttler.go:32-35 | the table's keys are exactly the (method, path pattern) of the routes; a key maps to the limit of the last route that has it |
| Throttler.ForwardedIP | internal/middlewares/throttler.go:108-115 | nothing is found exactly when every listed header is empty; when header i is the first non-empty one, the result is its first comma-separated entry, trimmed |
| Throttler.ClientIP | internal/middlewares/throttler.go:107-118 | the client IP is the first comma-separated entry, trimmed, of X-Forwarded-For if it is set, else of X-Real-IP, else the host part of RemoteAddr |
| Throttler.RemoteHost | internal/middlewares/throttler.go:116-117 | "" when the remote address has no colon (SplitHostPort's error); the host never holds a bracket and is shorter than the address |
| Throttler.ClientIPFromRemoteAddr | internal/middlewares/throttler.go:116-117 | with neither header set, a "host:port" remote address yields its host |
| Throttler.Increment | internal/middlewares/throttler.go:75-80 | the counter is created if absent, goes up by exactly 1 below the int64 maximum and wraps to the minimum at it; no other counter changes |
| Throttler.LocalThrottler.GetUserRequestCount | internal/middlewares/throttler.go:82-89 | the stored count, or 0 for a (route key, IP) pair never seen |
| Throttler.LocalThrottler.IncrementUserRequestCount | internal/middlewares/throttler.go:75-80 | the counters become `Increment` of the old ones: LoadOrStore a zero, then add one with int64 wrap-around |
| Throttler.Throttle | internal/middlewares/throttler.go:44-67 | a key without a limit, or with limit 0, passes and changes no counter; a count at or above the limit gives 429 and changes no counter; otherwise the request passes, its own counter goes up by exactly 1, and no other counter changes |
| Throttler.LocalThrottler.Middleware | internal/middlewares/throttler.go:44-67 | the decision and the new counters are those of `Throttle`, looked up under the literal request path |
| Throttler.ThrottleKeepsLimits | internal/middlewares/throttler.go:48-66 | one request preserves the invariant that only limited keys have counters, each between 1 and its limit |
| Throttler.Run | internal/middlewares/throttler.go:44-67 | requests handled one after another get one decision each, each either passing on or the 429 answer |
| Throttler.RunKeepsLimits | internal/middlewares/throttler.go:48-66 | over any sequence of requests, no counter exceeds its limit, and there is one decision per request |
| Throttler.RunFromCount | internal/middlewares/throttler.go:54-66 | a client that has already used `c` of limit `n` has its `i`-th next request pass exactly when `c + i < n`; all later ones get 429 |
| Throttler.FirstNPass | internal/middlewares/throttler.go:48-66 | from an empty window with limit N > 0, exactly the first N requests of one client on one key pass and all later ones get 429 |
| Throttler.UnlimitedAlwaysPasses | internal/middlewares/throttler.go:48-52 | requests on keys without a limit, or with limit 0, all pass, and the counters stay as they were |
| Throttler.PlaceholderRoutesNotLimited | internal/middlewares/throttler.go:33-34 | limits are stored under the pattern and looked up under the literal path, so with placeholder patterns and brace-free request paths every request passes and no counter changes |
| Throttler.LowercaseMethodNotLimited | internal/middlewares/throttler.go:33-49 | a route declared with method "get" and limit 1 passes validation, yet its limit is stored under "get" while requests arrive as "GET", so none of them is ever limited |
| Throttler.LocalThrottler.ResetCounts | internal/middlewares/throttler.go:100-105 | no counter remains, so every later read is 0 |
| Throttler.Serve | internal/middlewares/throttler.go:44-67 | handling requests one after another on the object gives the decisions and counters of `Run` |
| Throttler.QuotaRestartsAfterReset | internal/middlewares/throttler.go:27-35 | with a new throttler, in both the window before a reset and the window after it, exactly the first `limit` requests of one client on one key pass |
| Routes.AllowedParams | internal/routes/routes.go:21-29 | `allowAll` holds iff "*" occurs; the allow-set is exactly the entries before the first "*" (all entries when there is none) |
| Routes.BeforeWildcard | internal/routes/routes.go:23-29 | the entries the loop collects form a prefix of the list without "*", ending at the first "*" or at the end |
| Routes.BeforeWildcardAt | internal/routes/routes.go:23-29 | the prefix the loop stops at, the first "*" or the end, is the allow-set's source |
| Routes.ReplacePathVariables | internal/routes/routes.go:93-98 | the result is the bindings applied one after another, in the order given, by replace-all of "{key}" |
| Routes.SubstituteAll | internal/routes/routes.go:93-98 | a path with no "{key}" for any bound key, and any path when there are no bindings, comes back unchanged, in every binding order |
| Routes.SingleBinding | internal/routes/routes.go:95-96 | for one binding k -> v, with no "{" in k, every occurrence of "{k}" is replaced by v and the text between occurrences is kept |
| Routes.TrailingPlaceholder | internal/routes/routes.go:95-96 | a brace-free prefix followed by "{k}" becomes the prefix followed by v |
| Routes.SubstitutionExample | internal/routes/routes.go:93-98 | "/users/{id}" with id=42 gives "/users/42" |
| Routes.NestedSubstitutionExample | internal/routes/routes.go:93-98 | "/v1/items/{id}" with id=7 gives "/v1/items/7" |
| Routes.SubstitutionIgnoresOrder | internal/routes/routes.go:93-98 | for a path of literal text and placeholders, with keys free of braces and values and text free of "{", the result replaces every bound placeholder by its value and keeps the others, whatever order the bindings come in |
| Routes.ReplaceRendered | internal/routes/routes.go:95-96 | one binding rewrites every placeholder of its key and no other text |
| Routes.SubstituteResolves | internal/routes/routes.go:94-97 | applying the bindings in turn equals resolving every placeholder through the bindings' map, an earlier binding of a key winning |
| Routes.BracedValueOrderMatters | internal/routes/routes.go:94-96 | when a value is itself a placeholder the order matters: "{a}" with a -> "{b}" then b -> "x" gives "x", the other order gives "{b}" |
| Routes.PlaceholderBorderFree | internal/routes/routes.go:95 | a placeholder whose name has no "{" cannot overlap itself, so replace-all sees each occurrence separately |
| Routes.FilterQuery | internal/routes/routes.go:80-86 | the filtered keys are exactly the inbound keys in the allow-set, each with its full original value list |
| Routes.ParseTargetURL | internal/routes/routes.go:66-91 | a host the URL parser rejects is an error; otherwise the base is the host, the path is the substituted target path, and the query is the raw inbound query verbatim under `allowAll` or else the filtered query |
| Routes.RouteQuery | internal/routes/routes.go:21-29 | with "*" the raw query passes verbatim; without it, exactly the listed keys survive with all their values; an empty list keeps nothing |
| Routes.Appended | internal/routes/routes.go:101-107 | for each key, the prior values are kept and the source's values are appended in order; keys absent from the source are untouched; a source key with no values adds no entry |
| Routes.SelfCopyDuplicates | internal/routes/routes.go:51 | copying a header into itself doubles every key's values |
| Routes.AddValues | internal/routes/routes.go:103-105 | the values of one key are added one by one, in order |
| Routes.CopyHeaders | internal/routes/routes.go:101-107 | the header ends as `Appended(old, src)` |
| GoStd.Header.Add | internal/routes/routes.go:104 | appends the value to the key's list, creating the key if it is absent |
| GoStd.ReplaceAllJoin | internal/routes/routes.go:96 | replace-all of a self-non-overlapping pattern replaces every separating occurrence and nothing else |
| GoStd.ReplaceAll | internal/routes/routes.go:96 | replace-all with no occurrence leaves the string unchanged; a replacement as long as the pattern keeps the length |
| GoStd.SplitHostPort | internal/middlewares/throttler.go:116 | no colon is an error; on success the port holds no colon, neither part holds a bracket, and the address is the host and port joined by ":" (bracketed when the address starts with "[") |
| GoStd.HeaderGet | internal/middlewares/throttler.go:110 | the first value of the key, or "" when it has none |
| GoStd.TrimSpace | internal/middlewares/throttler.go:113 | the result is the infix left after cutting leading and trailing white space |
| GoStd.FirstField | internal/middlewares/throttler.go:112 | the text before the first ",", or the whole string |
| GoStd.SplitJoinHostPort | internal/middlewares/throttler.go:116 | splitting a joined bracket-free host and colon-free port gives them back |
| GoStd.Wrap64 | internal/middlewares/throttler.go:79 | int64 two's-complement wrap-around: the identity in range, otherwise congruent modulo 2^64 |
| Config.ToUpper | internal/config/route.go:63 | same length, each character upper-cased as Go does for those that can become ASCII letters |
| Config.IsValidHTTPMethod | internal/config/route.go:62-72 | a method is valid iff it spells one of the nine verbs letter by letter up to case |
| Config.IsValidPathFormat | internal/config/route.go:74-76 | valid iff the path starts with "/" and holds neither "?" nor "#" |
| Config.IsDuplicateQueryParams | internal/config/route.go:78-87 | true iff all entries are pairwise distinct, despite the name; the empty list gives true |
| Config.ValidateRoute | internal/config/route.go:29-58 | a route passes iff every guard holds (a limit of 0 passes); an empty path reports path-not-defined, not the format error; a route that passes has a target |
| Config.ValidateRouteIsFirstFailure | internal/config/route.go:29-58 | the result is the error of the first failing guard in order: empty path, path format, nil target, empty method, invalid method, repeated query params, negative limit |
| Config.GetAnyCaseValid | internal/config/route.go:62-72 | "get", "Get" and "GET" are valid methods |
| Config.DeleteLowerValid | internal/config/route.go:62-72 | "delete" is a valid method |
| Config.UnknownMethodsInvalid | internal/config/route.go:62-72 | "FETCH" and "" are not valid methods |
| Config.EmptyHostBeforeParsing | internal/config/target.go:21-24 | an empty host reports host-not-defined whatever the URI parser would say |
| Config.ValidateTarget | internal/config/target.go:21-35 | a target passes iff the host is non-empty, parses, and the method is empty or valid; an empty host is reported before parsing, an unparsable one as a parse error |
| Config.CheckRoute | internal/config/config.go:45-53 | one route passes iff it passes validateRoute and its target passes validateTarget; a route error is reported before its target is looked at |
| Config.ValidateEach | internal/config/config.go:44-54 | the loop passes iff every route passes both checks; when route i is the first to fail, its error is the one reported |
| Config.ValidateAll | internal/config/config.go:39-56 | an empty list gives no-route-defined; otherwise the configuration passes iff every route and target passes |
| Logger.ResponseRecorder.constructor | middlewares/logger.go:23 | the recorder starts with an empty body and status 200 |
| Logger.ResponseRecorder.Write | middlewares/logger.go:40-43 | appends exactly `b` to the body, forwards the same `b`, and returns what the wrapped writer returned |
| Logger.ResponseRecorder.WriteHeader | middlewares/logger.go:45-48 | records the status and forwards it |
| Logger.WrittenAppend | middlewares/logger.go:40-43 | the bytes written by two handler scripts in turn are the first's followed by the second's |
| Logger.StatusesSetAppend | middlewares/logger.go:45-48 | the statuses set by two scripts in turn are the first's followed by the second's |
| Logger.FinalStatusIsLatest | middlewares/logger.go:45-47 | the recorded status is that of the most recent WriteHeader, or the starting one if there was none |
| Logger.RunHandler | middlewares/logger.go:40-48 | after any sequence of writes and status calls, the captured body is their concatenation and equals what the wrapped writer received |
| Logger.CaptureRequestBody | middlewares/logger.go:13-20 | a nil body stays nil and logs nothing; otherwise the next handler gets the bytes that were read, and they are logged unless the read failed |
| Logger.Logger | middlewares/logger.go:11-30 | the next handler sees the captured body; the logged status is the handler's last one, or 200; the logged response body is exactly what the client's writer received |

## Left out

- Concurrency: the `sync.Map`, the atomics and the `periodicReset` goroutine with its one-minute ticker (internal/middlewares/throttler.go:91-98) are left out. The throttler is modelled sequentially, and the reset is the explicit `ResetCounts`. The read-then-increment at throttler.go:54-64 is not atomic. Under concurrency, more than `limit` requests can pass; a sequential model cannot show this.
- Reverse-proxy forwarding is left out: `httputil.ReverseProxy`, the Director and the ErrorHandler (internal/routes/routes.go:39-58). This is network I/O through library code. Only `copyHeaders`, which the Director calls, is modelled.
- `url.Parse`, `url.ParseRequestURI`, `ResolveReference`, `URL.Query` and `Values.Encode` are foreign URL routines.
  - The two parsers are function parameters, `string -> bool`, saying whether the string is accepted.
  - The parsed inbound query is an input map, and the raw query is an opaque string.
  - `Routes.ParseTargetURL` records the base host and the reference path, not the resolved URL.
- Routes.ParseTargetURL: does not state the dot-segment removal and relative-path merge that `ResolveReference` performs, nor the key sorting and escaping of `Values.Encode`, because those are library code.
- `mux.Vars` is left out. Its map of bindings is an input sequence of pairs, and the properties hold for every order.
- Logging output (`slog`) and the duration measurement with `time` are left out. `Logger.Logger` returns what it would log instead.
- The response writer is a sink that accepts every byte. Logger.ResponseRecorder.Write: does not model a wrapped writer that reports a short write or an error, because that behaviour belongs to the HTTP server.
- Request and trace ID injection (internal/middlewares/request_id.go, internal/middlewares/trace_id.go) are left out. They only wrap `uuid.New`.
- Server wiring, startup, `LoadConfig` file reading and JSON decoding are left out, as are the legacy top-level `main.go`, `config/config.go` and `routes/routes.go`. These are I/O.
- A `nil` entry in the route list is not representable. The Go code would dereference it and panic.
- Header-name canonicalisation is left out: header maps are keyed by already-canonical names.
- `strings.ToUpper` is modelled only for the characters whose upper case is an ASCII letter. Every other character is kept. This makes no difference to membership in the nine method names.
- GoStd.ReplaceAll: requires a non-empty pattern. Go's behaviour for an empty pattern (inserting the replacement between characters) cannot arise, because a placeholder is never empty.

## Notes on the code's behaviour

- **Middleware order.** `internal/server/server.go:22-24` registers the throttler first, so it is the outermost middleware. A 429 answer therefore never reaches `Logger`. `InjectTraceID` is never registered.
- **Limit lookup.** Limits are stored under the route's path pattern (throttler.go:33) but looked up under the request's literal path (throttler.go:46). A route such as `GET /api/{id}` with limit 5 is never throttled for `/api/7`: the sixth request passes (`Throttler.PlaceholderRoutesNotLimited`).
- **Method case.** `isValidHTTPMethod` upper-cases the method (route.go:63), so a route declared with "get" is accepted. The limit is stored under the method as written (throttler.go:33), and requests arrive with "GET", so such a route is never throttled (`Throttler.LowercaseMethodNotLimited`).
- **Read-then-increment.** The count is read at throttler.go:54 and incremented at throttler.go:64, as two separate steps (see Left out).
- **Limit 0.** The invalid-limit error message (route.go:17) asks for a positive integer, but only a negative limit is rejected (route.go:54). A limit of 0 is accepted and means unlimited (`Config.ValidateRoute`, `Throttler.UnlimitedAlwaysPasses`).
- **Query key order.** The filtered query is serialised with `Values.Encode` (routes.go:87), which sorts the keys.
- **Substitution order.** `replacePathVariables` walks a Go map (routes.go:94), in no fixed order. The result does not depend on that order when keys hold no brace and values hold no "{" (`Routes.SubstitutionIgnoresOrder`). Otherwise it can (`Routes.BracedValueOrderMatters`).
- **Duplicated headers.** This depends on library behaviour outside the model. `httputil.ReverseProxy` hands the Director a clone of the inbound request, whose header map is a copy of `r.Header`. `copyHeaders(req.Header, r.Header)` at routes.go:51 then appends every inbound value a second time (`Routes.SelfCopyDuplicates`).
