# Session credentials of MERN-Authentication, in Dafny

This project models how MERN-Authentication keeps a browser session alive, and proves properties of that model. Three credentials are involved.

- **Access token.** A short-lived JWT in an `httpOnly` cookie, checked by `authMiddleware`.
- **Refresh token.** A long-lived JWT, also kept as a cookie. It is whitelisted in redis under `refreshToken:<id>` by `generateToken`.
- **CSRF token.** 32 random bytes in hex, stored under `csrf:<userId>` for an hour and sent as the `csrfToken` cookie. `verifyCSRFToken` compares it with the `X-CSRF-Token` request header.

On the client, an axios instance does two jobs:

- It attaches the CSRF cookie's value to every mutating request.
- It renews an expired session (a 401) or CSRF token (a 403 whose code starts with `CSRF_`) exactly once, however many requests fail together. The other failing requests queue behind that single renewal and are resolved or rejected when it settles.

## Modules

- `Wrappers`: `Option` and `Result`.
- `JsString`: the JavaScript string operations the code relies on: `indexOf`, `split`, `includes`, `startsWith` and ASCII `toLowerCase`. It proves `split` against `join`.
- `Hex`: `toString("hex")` of random bytes, with a decoder as its inverse.
- `KeyValue`: the redis client. It is a class over a map of entries (value and TTL) and a schedule: for each command still to come, whether it reaches the server. A command that does not reach it fails, which models a command that throws. Each command takes its own outcome, so a store that fails between two commands of one operation is covered.
- `Http`: replies, cookie options, and the request and response objects.
- `Jwt`: claims and expiry spans. Signing and verification are parameters (a `Signer` and a `Verifier`). `Agree` states what it means for the two to fit together.
- `CsrfGuard`: `generateCsrfToken`, `verifyCSRFToken`, `revokeCSRFToken` and `refreshCSRFToken`.
- `Auth`: `authMiddleware` with its read-through profile cache, and `adminMiddleware`.
- `TokenIssuance`: `generateToken`.
- `Browser`: the browser's cookie jar and the text of `document.cookie`. This is the reference definition against which `getCookie` is proved.
- `ApiInterceptor`:
  - `getCookie` and the request interceptor.
  - The response interceptor, as two `SingleFlight` guards (one per credential) inside an `Interceptor`.
  - `processQueue`, as a loop.
- `Session`: properties that span the client and the server.

Both middlewares that consult redis have a decision function; only `authMiddleware` also has a method:

- A function gives the decision on the request, the store and the database: `VerifyCsrfToken` for `verifyCSRFToken`, `Authenticate` for `authMiddleware`.
- `AuthMiddleware` runs `authMiddleware` on the request and redis objects. Its contract ties the reply, the new store and the new `req.user` to `Authenticate`. `verifyCSRFToken` only reads the store, so it has no method of its own.

`adminMiddleware` reads nothing but `req.user` and is a function only (`AdminMiddleware`). The operations that only change state are methods whose contracts state the new store and the cookies set: `GenerateCsrfToken`, `RevokeCsrfToken`, `RefreshCsrfToken` and `GenerateToken`.

A redis command or database lookup that cannot reach its server stands for a call that throws. Where the source promises that a path does not touch the store or the database, the model proves it this way: the outcome is the same when they are down.

## Model

| member | source | states |
|---|---|---|
| JsString.IndexOf | client/src/components/apiIntercepter.ts:34 | the result is the leftmost occurrence of the separator, and `None` means there is no occurrence at all |
| JsString.Split | client/src/components/apiIntercepter.ts:34-35 | the pieces joined with the separator give back the string; no piece holds the separator; each piece but the last ends at the leftmost occurrence of the separator in the text from that piece on; without an occurrence the only piece is the string itself |
| JsString.SplitOverlapping | client/src/components/apiIntercepter.ts:34-35 | with a separator that overlaps itself the leftmost occurrence wins: `"aaa".split("aa")` is `["", "a"]` |
| JsString.SplitAtSingleOccurrence | client/src/components/apiIntercepter.ts:34-35 | a string holding the separator exactly once splits into the text before it and the text after it |
| JsString.ToLower | client/src/components/apiIntercepter.ts:41 | same length; every character lower-cased one by one |
| Hex.Encode | server/src/config/csrf.Middleware.ts:9 | the hex text is twice as long as the bytes and uses only `0-9a-f` |
| Hex.RoundTrip | server/src/config/csrf.Middleware.ts:9 | decoding the hex text gives back the bytes |
| Hex.EncodeInjective | server/src/config/csrf.Middleware.ts:9 | distinct random bytes give distinct tokens |
| Hex.TokenShape | server/src/config/csrf.Middleware.ts:9 | a CSRF token is 64 lower-case hex characters |
| KeyValue.RedisClient.Get | server/src/config/csrf.Middleware.ts:56 | the stored value of the key, or an error when this command does not reach the store; the schedule advances by one command |
| KeyValue.RedisClient.SetEx | server/src/config/csrf.Middleware.ts:13 | succeeds exactly when this command reaches the store; on success the key holds the value with that TTL and nothing else changes; on failure nothing changes; the schedule advances by one command |
| KeyValue.RedisClient.Del | server/src/config/csrf.Middleware.ts:91 | succeeds exactly when this command reaches the store; on success the key is gone and nothing else changes; the schedule advances by one command |
| CsrfGuard.CsrfCookie | server/src/config/csrf.Middleware.ts:15-20 | the cookie carries the token and lives as long as the stored token (3600 s) |
| CsrfGuard.GenerateCsrfToken | server/src/config/csrf.Middleware.ts:5-23 | succeeds exactly when its one write reaches the store; the token is the hex of the random bytes; it is stored under `csrf:<userId>` for 3600 s; then exactly one cookie carrying it is set; a failed write sets no cookie |
| CsrfGuard.RevokeCsrfToken | server/src/config/csrf.Middleware.ts:88-92 | removes `csrf:<userId>` and changes no other key |
| CsrfGuard.RefreshCsrfToken | server/src/config/csrf.Middleware.ts:94-98 | succeeds exactly when both the DEL and the SETEX reach the store: then only the user's token is replaced and the new cookie is set. When the DEL fails nothing changes; when the DEL goes through and the SETEX fails, the user's token is left deleted and no cookie is set |
| CsrfGuard.HalfRefreshExpiresEveryToken | server/src/config/csrf.Middleware.ts:94-98 | after a refresh that deleted the token and failed to store the new one, every state-changing request carrying a token is refused as `CSRF_TOKEN_EXPIRED` |
| CsrfGuard.Reissued | server/src/config/csrf.Middleware.ts:94-98 | after delete-then-set, the user's key holds the new token for 3600 s and every other key reads as before |
| CsrfGuard.FirstTruthy | server/src/config/csrf.Middleware.ts:41-44 | `None` exactly when no alias header is truthy; otherwise the value of the first truthy alias |
| CsrfGuard.VerifyCsrfToken | server/src/config/csrf.Middleware.ts:25-86 | every refusal is a 401 without a code, a 403 with a `CSRF_` code, or a 500 with `CSRF_INTERNAL_ERROR` |
| CsrfGuard.PassesExactlyOnMatch | server/src/config/csrf.Middleware.ts:31-76 | a request passes if and only if it is a GET, or the user is set, a header token is present, the store is reachable and it holds exactly that token |
| CsrfGuard.DecisionOrder | server/src/config/csrf.Middleware.ts:31-85 | the checks run in source order (GET, user, header, store errors, expiry, mismatch), and each answers with its own status and code; a GET passes even when the store is down |
| CsrfGuard.RefreshSupersedesOldToken | server/src/config/csrf.Middleware.ts:94-98 | after a refresh, only the newly issued token passes, and any other token is refused as invalid |
| Auth.Projection | server/src/middlewares/auth.ts:37 | the profile omits the password, carries `_id`, `id` and `roll`, and has no `role` |
| Auth.Authenticate | server/src/middlewares/auth.ts:10-54 | the request passes exactly when a user is attached; a refusal is a 401 or a 500 without a code; the cache changes only on a pass, by caching the profile of a database record |
| Auth.AuthMiddleware | server/src/middlewares/auth.ts:10-54 | the reply, the new cache, the remaining redis schedule and `req.user` are those `Authenticate` gives for the request, the store and the schedule, with the profile cached by plain `JSON.stringify` |
| Auth.MissingCookieIs401 | server/src/middlewares/auth.ts:16-22 | without a truthy `accessToken` cookie the answer is 401, with no redis command sent and nothing written |
| Auth.FailedVerificationIs500 | server/src/middlewares/auth.ts:24-53 | a token whose verification throws is answered 500, not 401, before any redis command |
| Auth.ThrownErrorsAre500 | server/src/middlewares/auth.ts:30-53 | after a successful verification, each thrown error is answered 500 with no user attached and the cache untouched: a failing GET, a cached value that is not JSON, and an unreachable database on a miss |
| Auth.UnauthorizedExactly | server/src/middlewares/auth.ts:16-41 | the answer is 401 exactly when the cookie is missing, the token decodes to nothing, or the GET succeeds and finds no cached profile while the reachable database has no such user |
| Auth.CacheHitSkipsDatabase | server/src/middlewares/auth.ts:30-35 | on a cache hit the parsed profile becomes `req.user`, and the outcome does not depend on the database |
| Auth.CacheMissFillsCache | server/src/middlewares/auth.ts:37-45 | on a miss for a known user, the serialised profile is cached under `user:<id>` for 3600 s and the projected profile is attached; no other key changes |
| Auth.CacheWriteFailureIs500 | server/src/middlewares/auth.ts:43-53 | on a miss for a known user whose cache write throws, the answer is 500, nothing is cached and no user is attached |
| Auth.CacheMissUnknownUser | server/src/middlewares/auth.ts:37-41 | on a miss for an unknown user the answer is 401 and the cache is unchanged |
| Auth.Serialized | server/src/middlewares/auth.ts:43 | as written, the cached JSON holds every member of the profile except the `id` virtual; with virtuals kept it is the profile itself |
| Auth.ReadThrough | server/src/middlewares/auth.ts:30-45 | once a pass fills the cache, the same token is answered from the cache even when the database is down; the profile it gets is the serialised form of the database profile, so as written it lacks `id` |
| Auth.AdminMiddleware | server/src/middlewares/auth.ts:56-76 | passes exactly when `user.role` is "admin"; no user gives 500 (the property read throws); any other role gives 403 |
| Auth.AdminDeniesEveryStoredUser | server/src/middlewares/auth.ts:64 | every user that `authMiddleware` loads from the database is refused by the admin gate as written |
| Auth.AdminMiddlewareByRoll | server/src/models/User.ts:25-29 | the gate reading the schema's `roll` field passes exactly when `roll` is "admin" |
| Auth.AdminByRollAdmitsAdmins | server/src/models/User.ts:25-29 | for a database profile, the corrected gate admits exactly the admins, while the gate as written admits none |
| TokenIssuance.AccessCookie | server/src/utils/generateToken.ts:38-42 | the access cookie is `httpOnly` and lives exactly as long as the one-day token (86 400 000 ms) |
| TokenIssuance.RefreshCookie | server/src/utils/generateToken.ts:44-48 | the refresh cookie lives as long as the whitelist entry and the seven-day token |
| TokenIssuance.GenerateToken | server/src/utils/generateToken.ts:14-51 | succeeds exactly when its one write reaches the store; returns the two minted tokens; whitelists the refresh token under `refreshToken:<id>` for seven days; then sets both cookies; a failed write sets no cookie |
| TokenIssuance.RefreshKeyInjective | server/src/utils/generateToken.ts:30 | distinct users have distinct whitelist keys |
| TokenIssuance.WhitelistSupersedes | server/src/utils/generateToken.ts:30-36 | after a login, the new token is the user's only live refresh token; every other user's live token and every other key are kept |
| TokenIssuance.SequentialLogins | server/src/utils/generateToken.ts:30-36 | after any series of logins, exactly one refresh token is live: the last one issued |
| TokenIssuance.RefreshTokenIsNoAccessToken | server/src/utils/generateToken.ts:18-28 | with distinct secrets, the refresh token fails verification under the access secret, and each token verifies to the user under its own secret |
| Browser.Visible | client/src/components/apiIntercepter.ts:33 | `document.cookie` never lists an `httpOnly` cookie |
| Browser.VisibleKeeps | client/src/components/apiIntercepter.ts:33 | the cookies a script sees keep the jar's well-formedness, unique names and absent names |
| Browser.VisibleAppend | client/src/components/apiIntercepter.ts:33 | the visible part of two jars put together is the visible part of each, in order |
| Browser.Without | server/src/config/csrf.Middleware.ts:15-20 | a `Set-Cookie` first drops every cookie of that name |
| Browser.WithoutKeeps | server/src/config/csrf.Middleware.ts:15-20 | dropping cookies keeps well-formedness, unique names and absent names |
| Browser.WithoutKeepsOthers | server/src/config/csrf.Middleware.ts:15-20 | dropping the cookies of one name leaves the value of every other name as it was |
| Browser.AppendKeepsOthers | server/src/config/csrf.Middleware.ts:15-20 | a cookie stored at the end of the jar does not change the value of another name |
| Browser.ReceiveKeepsOthers | server/src/config/csrf.Middleware.ts:15-20 | a `Set-Cookie` leaves the value of every cookie of another name as it was |
| Browser.CookieValue | client/src/components/apiIntercepter.ts:32-36 | reference reading of a cookie: `None` exactly when no cookie has the name, otherwise the value of the first that has it |
| Browser.ReceiveThenLookup | server/src/config/csrf.Middleware.ts:15-20 | after a `Set-Cookie`, names stay unique; a script reads the new value, or nothing when the cookie is `httpOnly` |
| ApiInterceptor.GetCookie | client/src/components/apiIntercepter.ts:32-36 | a value read never contains `;`; a name whose `; name=` does not occur gives `null` |
| ApiInterceptor.GetCookieFinds | client/src/components/apiIntercepter.ts:32-36 | on a rendered cookie string, a name held by exactly one pair gives that pair's value |
| ApiInterceptor.GetCookieAbsent | client/src/components/apiIntercepter.ts:32-36 | on a rendered cookie string, a name held by no pair gives `null` |
| ApiInterceptor.GetCookieReadsJar | client/src/components/apiIntercepter.ts:32-36 | `getCookie` over `document.cookie` equals looking the name up among the cookies a script may see |
| ApiInterceptor.CsrfHeader | client/src/components/apiIntercepter.ts:41-47 | a header value is attached exactly for post, put and delete (in any letter case) when the cookie value is truthy, and it is that value |
| ApiInterceptor.OnRequest | client/src/components/apiIntercepter.ts:39-51 | the only change to the request is `X-CSRF-Token` set to that value, when there is one |
| ApiInterceptor.CsrfHeaderFromJar | client/src/components/apiIntercepter.ts:39-51 | the header carries the script-visible `csrfToken` from the jar, on mutating requests only |
| ApiInterceptor.Route | client/src/components/apiIntercepter.ts:77-119 | a failure without a config is rethrown; a 403 with a `CSRF_` code always goes to the CSRF renewal (replayed or not); the session renewal is taken exactly for a 401 that is no CSRF rejection, on a request not yet replayed whose URL does not contain `/auth/v1/refresh`; everything else is rethrown |
| ApiInterceptor.UnauthorizedRenews | client/src/components/apiIntercepter.ts:113-119 | a 401 on a request that was not replayed and is not a renewal call goes to the session renewal |
| ApiInterceptor.RenewalCallsAreNotRenewed | client/src/components/apiIntercepter.ts:101-132 | a failure of either renewal call never starts a session renewal, since both paths contain `/auth/v1/refresh` |
| ApiInterceptor.SettleCoversQueue | client/src/components/apiIntercepter.ts:64-70 | processing a queue settles each queued request exactly once, in queue order, all in the same way |
| ApiInterceptor.SingleFlight.ProcessQueue | client/src/components/apiIntercepter.ts:64-70 | the callbacks invoked are extended by the queue's settlements in order, and the queue is emptied; the guard's invariant is kept |
| ApiInterceptor.SingleFlight.Begin | client/src/components/apiIntercepter.ts:128-132 | raises the flag and issues exactly one renewal call |
| ApiInterceptor.SingleFlight.Enqueue | client/src/components/apiIntercepter.ts:122-124 | appends the request to the queue, and only while a renewal is in flight |
| ApiInterceptor.SingleFlight.End | client/src/components/apiIntercepter.ts:138-140 | lowers the flag once the queue is empty; the count of settled renewals goes up by one |
| ApiInterceptor.Interceptor.OnFailure | client/src/components/apiIntercepter.ts:76-132 | rethrows when `Route` says so, changing nothing. Otherwise it either queues the request behind the renewal in flight (no new call) or marks the request as replayed and issues exactly one renewal call. The other credential's guard is untouched, and the request's headers are kept: only `_retry` may change |
| ApiInterceptor.Interceptor.OnRenewalSettled | client/src/components/apiIntercepter.ts:131-140 | every queued request is settled with the renewal's outcome, the flag is lowered, and the request that started the renewal is replayed or throws the renewal's error |
| ApiInterceptor.Burst | client/src/components/apiIntercepter.ts:76-141 | when N requests fail for one credential, exactly one renewal call is made; the other N-1 are settled once each, in arrival order, with its outcome. Its frame lets only the `_retry` of the requests change, so their headers are kept |
| Session.KeySpacesDisjoint | server/src/config/csrf.Middleware.ts:11 | the CSRF key, the refresh-token key and the profile cache key never coincide |
| Session.LoginKeepsCsrfVerdicts | server/src/utils/generateToken.ts:30-36 | whitelisting a refresh token at login changes no CSRF verdict |
| Session.CachingKeepsCsrfVerdicts | server/src/middlewares/auth.ts:43 | filling the profile cache changes no CSRF verdict |
| Session.CsrfRefusalsReachTheirRenewal | server/src/config/csrf.Middleware.ts:37-85 | every CSRF 403 sends the client into the CSRF renewal; the 401 sends it into the session renewal unless the request was already replayed; the 500 is rethrown |
| Session.AuthRefusalsReachTheirRenewal | server/src/middlewares/auth.ts:18-53 | the authentication 401 sends the client into the session renewal unless the request was already replayed; the 500 is rethrown |
| Session.CachedProfileRefusedByCsrfGuard | server/src/middlewares/auth.ts:43 | as written, the request that fills the cache gives the CSRF guard a user id, and the next request, answered from the cache, is refused with 401 on every state-changing method |
| Session.CachedProfileWithIdKeepsCsrfVerdicts | server/src/middlewares/auth.ts:30-45 | with virtuals kept in the cached JSON, a request answered from the cache gets the CSRF verdict of the request that filled it |
| Session.HeaderNameMatchesFirstAlias | client/src/components/apiIntercepter.ts:46 | the client's `X-CSRF-Token`, once lower-cased, is `x-csrf-token`, the first alias the server reads |
| Session.TokenFitsCookie | server/src/config/csrf.Middleware.ts:9-15 | a generated token is non-empty and holds no `;`, so it survives a cookie round trip |
| Session.HttpOnlyCsrfCookieNeverSent | server/src/config/csrf.Middleware.ts:15-20 | with the cookie `httpOnly` as written, no CSRF header is ever attached, and a mutating request is refused as `CSRF_TOKEN_MISSING` even right after the token was stored |
| Session.ReadableCsrfCookieAccepted | client/src/components/apiIntercepter.ts:32-47 | with a readable cookie, once a token is issued and stored, the user's next mutating request carries it and passes the check |

## Left out

- Response messages and JSON bodies other than the `code` field are not modelled. The 500 body's `error` object is also left out.
- A thrown value that is falsy is not modelled. `processQueue` tests `if (error)`, and every renewal failure is modelled as an axios error, which is an object.
- `toLowerCase` is modelled on ASCII letters only.
- `JSON.stringify` and `JSON.parse` of the cached profile are a codec parameter that is assumed to round-trip only where a lemma says so. What is stringified is the document's default JSON form, which leaves out the `id` virtual.
- The mongoose document is otherwise left out: its `timestamps` fields and `__v`, and the cast error `findById` raises on a malformed id (modelled as the database lookup throwing).
- Clocks, TTL expiry and JWT expiry are not modelled. TTLs and spans are recorded as numbers. An expired key reads like an absent one.
- `crypto.randomBytes` is an input (`random`), and JWT signing and verification are function parameters. `process.env` secrets are plain parameters; a missing secret is not modelled.
- Asynchrony is modelled only through the events of the response interceptor. It is reduced to these atomic steps:
  - failure, up to its first `await`;
  - renewal settled, covering `processQueue`, `finally` and the replay.
- The replay `api(originalRequest)` is recorded as an action. It is not run again through the interceptors.
- A renewal call's own failure is routed like any other failure. The model does not follow one renewal call nested inside another.
- Cookie attributes the browser enforces (`secure`, `sameSite`, expiry) are not modelled. The jar keys cookies by name alone, so it has no path or domain.
- ApiInterceptor.GetCookie: only strings rendered from a jar with well-formed names and values, and unique names, are related to `Browser.CookieValue`. For arbitrary `document.cookie` text only the two `ensures` of the function are stated.
- ApiInterceptor.Interceptor.OnRenewalSettled: the ghost owner identifies the suspended handler that resumes. Which handler resumes is an input, not derived from a promise.
- The controllers (`loginUser`, `refreshToken`, `refreshCSRF`, `logoutUser`), `sendMail`, the React pages and the application context are not part of this model. Only their use of the core is reflected in `Session`.

## Findings

| source | as written | input that shows it | evidently intended | confidence | as-written member | corrected member |
|---|---|---|---|---|---|---|
| server/src/middlewares/auth.ts:64 | the admin gate compares `user.role` with "admin", but the schema field is `roll` (server/src/models/User.ts:25) | a user document with `roll: "admin"`, loaded by `authMiddleware` from the database, is refused with 403 | compare the schema field `roll` | high (not executed) | Auth.AdminDeniesEveryStoredUser | Auth.AdminByRollAdmitsAdmins |
| server/src/config/csrf.Middleware.ts:16 | the `csrfToken` cookie is set `httpOnly: true`, but the client reads it from `document.cookie` (client/src/components/apiIntercepter.ts:33-44) | after `generateCsrfToken` stores and sends a token, a POST by the signed-in user carries no `X-CSRF-Token` and gets 403 `CSRF_TOKEN_MISSING` | a cookie scripts can read (`httpOnly: false`), as the double-submit pattern needs | medium (not executed) | Session.HttpOnlyCsrfCookieNeverSent | Session.ReadableCsrfCookieAccepted |
| server/src/middlewares/auth.ts:43 | the profile is cached as `JSON.stringify(user)`; a mongoose document's default JSON leaves out virtuals, so the cached profile has `_id` but no `id`, while `verifyCSRFToken` reads `req.user?.id` (server/src/config/csrf.Middleware.ts:35-38) | once any request of a signed-in user has cached the profile, a POST of that user within the hour is answered from the cache and gets 401 "User not authenticated", whatever CSRF token it carries | cache a profile that keeps `id` (`toJSON({ virtuals: true })`), so a cache hit attaches the same user id as a database read | medium (not executed) | Session.CachedProfileRefusedByCsrfGuard | Session.CachedProfileWithIdKeepsCsrfVerdicts |

## Notes on the source

- The client posts renewals to `/auth/v1/refresh` and `/auth/v1/refresh-csrf`. The server routes are `/refresh-token` and `/refresh-csrf` (server/src/routes/user.ts:23-25). The model keeps the client's paths as written.
- server/src/app.ts:10-13 mounts only `express.json()`: it installs no cookie parser and never calls `connectRedis` (server/src/config/redis.ts:17). As given, `req.cookies` is undefined in both middlewares and every redis command fails. The model takes `req.cookies` as already parsed and lets the redis schedule say which commands succeed.
- The CSRF branch of the response interceptor does not test `_retry`. A replayed request that is refused again by the CSRF check starts another CSRF renewal (`ApiInterceptor.Route`).
