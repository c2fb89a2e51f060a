/**
 * The CSRF guard of the server: a per-user token kept in redis under
 * `csrf:<userId>` for one hour and mirrored to the browser as the
 * `csrfToken` cookie; a middleware that lets a state-changing request through
 * only when the token it carries in a header equals the stored one.
 */
module CsrfGuard {
  import opened Wrappers
  import opened JsString
  import opened KeyValue
  import opened Http
  import Hex

  const TtlSeconds: nat := 3600
  const CookieName: string := "csrfToken"

  const TokenMissing: string := "CSRF_TOKEN_MISSING"
  const TokenExpired: string := "CSRF_TOKEN_EXPIRED"
  const TokenInvalid: string := "CSRF_TOKEN_INVALID"
  const InternalError: string := "CSRF_INTERNAL_ERROR"

  /** The request headers a client may carry the token in, in the order they are consulted. */
  const Aliases: seq<string> := ["x-csrf-token", "x-xsrf-token", "csrf-token"]

  function CsrfKey(userId: string): string
  {
    "csrf:" + userId
  }

  /** The cookie `generateCsrfToken` sets: its lifetime in milliseconds is the store TTL in seconds. */
  function CsrfCookie(token: string): (c: SetCookie)
    ensures c.name == CookieName && c.value == token
    ensures c.options.maxAgeMs == TtlSeconds * 1000
  {
    SetCookie(CookieName, token, CookieOptions(httpOnly := true, secure := true, sameSite := Strict, maxAgeMs := 3600 * 1000))
  }

  /** The store after the token of `userId` is replaced by `token`. */
  function Reissued(store: Store, userId: string, token: string): (s: Store)
    ensures Lookup(s, CsrfKey(userId)) == Some(token) && s[CsrfKey(userId)].ttlSeconds == TtlSeconds
    ensures forall k | k != CsrfKey(userId) :: Lookup(s, k) == Lookup(store, k)
  {
    (store - {CsrfKey(userId)})[CsrfKey(userId) := Entry(token, TtlSeconds)]
  }

  /**
   * `generateCsrfToken`: 32 random bytes in hexadecimal, stored under
   * `csrf:<userId>` for 3600 s and set as the `csrfToken` cookie for
   * 3600 * 1000 ms.  A store failure rejects before the cookie is set.
   */
  method GenerateCsrfToken(redis: RedisClient, res: Response, userId: string, random: Hex.Bytes32)
    returns (r: Result<string, StoreError>)
    modifies redis`entries, redis`schedule, res
    ensures r.Ok? <==> Reaches(old(redis.schedule))
    ensures redis.schedule == After(old(redis.schedule))
    ensures r.Ok? ==> r.value == Hex.Encode(random) && |r.value| == 64 && Hex.IsLowerHex(r.value)
    ensures redis.entries == if r.Ok? then old(redis.entries)[CsrfKey(userId) := Entry(r.value, TtlSeconds)] else old(redis.entries)
    ensures res.cookies == if r.Ok? then old(res.cookies) + [CsrfCookie(r.value)] else old(res.cookies)
    ensures r.Ok? ==> Lookup(redis.entries, CsrfKey(userId)) == Some(r.value)
    ensures r.Ok? ==> res.cookies[|res.cookies| - 1].options.maxAgeMs == redis.entries[CsrfKey(userId)].ttlSeconds * 1000
  {
    var token := Hex.Encode(random);
    var key := CsrfKey(userId);
    var ok := redis.SetEx(key, 3600, token);
    if !ok {
      return Err(Unreachable);
    }
    res.Cookie("csrfToken", token, CookieOptions(httpOnly := true, secure := true, sameSite := Strict, maxAgeMs := 3600 * 1000));
    r := Ok(token);
  }

  /** `revokeCSRFToken`: deletes `csrf:<userId>` and no other key. */
  method RevokeCsrfToken(redis: RedisClient, userId: string) returns (ok: bool)
    modifies redis`entries, redis`schedule
    ensures ok == Reaches(old(redis.schedule))
    ensures redis.schedule == After(old(redis.schedule))
    ensures redis.entries == if ok then old(redis.entries) - {CsrfKey(userId)} else old(redis.entries)
    ensures ok ==> Lookup(redis.entries, CsrfKey(userId)) == None
    ensures forall k | k != CsrfKey(userId) :: Lookup(redis.entries, k) == Lookup(old(redis.entries), k)
  {
    ok := redis.Del(CsrfKey(userId));
  }

  /**
   * `refreshCSRFToken`: revoke, then issue a fresh token; the stored value is
   * the returned token.  The two commands can fail separately: when the DEL
   * goes through and the SETEX throws, the call rejects with the old token
   * already deleted and no new one stored.
   */
  method RefreshCsrfToken(redis: RedisClient, res: Response, userId: string, random: Hex.Bytes32)
    returns (r: Result<string, StoreError>)
    modifies redis`entries, redis`schedule, res
    ensures var revoked := Reaches(old(redis.schedule));
            && (r.Ok? <==> revoked && Reaches(After(old(redis.schedule))))
            && redis.schedule == (if revoked then After(After(old(redis.schedule))) else After(old(redis.schedule)))
            && redis.entries == (if r.Ok? then Reissued(old(redis.entries), userId, r.value)
                                 else if revoked then old(redis.entries) - {CsrfKey(userId)}
                                 else old(redis.entries))
    ensures r.Ok? ==> r.value == Hex.Encode(random)
    ensures res.cookies == if r.Ok? then old(res.cookies) + [CsrfCookie(r.value)] else old(res.cookies)
  {
    var revoked := RevokeCsrfToken(redis, userId);
    if !revoked {
      return Err(Unreachable);
    }
    r := GenerateCsrfToken(redis, res, userId, random);
  }

  /** `req.user?.id`. */
  function UserId(user: Option<JsonObject>): Option<string>
  {
    if user.Some? then Member(user.value, "id") else None
  }

  /** `headers[n0] || headers[n1] || ...`: the first truthy header among `names`. */
  function FirstTruthy(headers: map<string, string>, names: seq<string>): (r: Option<string>)
    ensures r.None? <==> forall k | 0 <= k < |names| :: !Truthy(Member(headers, names[k]))
    ensures r.Some? ==> r.value != ""
    ensures r.Some? ==> exists k | 0 <= k < |names| ::
                          Member(headers, names[k]) == r
                          && forall j | 0 <= j < k :: !Truthy(Member(headers, names[j]))
  {
    if names == [] then None
    else if Truthy(Member(headers, names[0])) then Member(headers, names[0])
    else
      var r := FirstTruthy(headers, names[1..]);
      assert forall k | 1 <= k < |names| :: names[k] == names[1..][k - 1];
      r
  }

  /** The token the client sent: `x-csrf-token`, else `x-xsrf-token`, else `csrf-token`. */
  function ClientToken(headers: map<string, string>): Option<string>
  {
    FirstTruthy(headers, Aliases)
  }

  /**
   * `verifyCSRFToken` as the decision it makes.  The store is read only on
   * the path that needs it; `reachable == false` stands for a read that
   * throws.
   */
  function VerifyCsrfToken(verb: string, user: Option<JsonObject>, headers: map<string, string>, store: Store, reachable: bool): (r: Reply)
    ensures r.Respond? ==>
      || (r.status == 401 && r.code == None)
      || (r.status == 403 && r.code.Some? && StartsWith(r.code.value, "CSRF_"))
      || (r.status == 500 && r.code == Some(InternalError))
  {
    if verb == "GET" then Next
    else if !Truthy(UserId(user)) then Respond(401, None)
    else
      var clientToken := ClientToken(headers);
      if clientToken.None? then Respond(403, Some(TokenMissing))
      else if !reachable then Respond(500, Some(InternalError))
      else
        var storedToken := Lookup(store, CsrfKey(UserId(user).value));
        if !Truthy(storedToken) then Respond(403, Some(TokenExpired))
        else if storedToken != clientToken then Respond(403, Some(TokenInvalid))
        else Next
  }

  /** A request passes exactly when it is a GET, or when an authenticated user's header token equals the stored one. */
  lemma PassesExactlyOnMatch(verb: string, user: Option<JsonObject>, headers: map<string, string>, store: Store, reachable: bool)
    ensures VerifyCsrfToken(verb, user, headers, store, reachable).Next? <==>
      || verb == "GET"
      || (&& Truthy(UserId(user)) && ClientToken(headers).Some? && reachable
          && Lookup(store, CsrfKey(UserId(user).value)) == ClientToken(headers))
  {
  }

  /**
   * The checks run in a fixed order, and each stops the chain: a GET passes
   * without the user, the headers or the store being consulted (it passes even
   * when the store is down); then the user; then the header; then the store.
   */
  lemma DecisionOrder(verb: string, user: Option<JsonObject>, headers: map<string, string>, store: Store, reachable: bool)
    ensures verb == "GET" ==> VerifyCsrfToken(verb, user, headers, store, reachable) == Next
    ensures verb != "GET" && !Truthy(UserId(user)) ==>
              VerifyCsrfToken(verb, user, headers, store, reachable) == Respond(401, None)
    ensures verb != "GET" && Truthy(UserId(user)) && ClientToken(headers).None? ==>
              VerifyCsrfToken(verb, user, headers, store, reachable) == Respond(403, Some(TokenMissing))
    ensures verb != "GET" && Truthy(UserId(user)) && ClientToken(headers).Some? && !reachable ==>
              VerifyCsrfToken(verb, user, headers, store, reachable) == Respond(500, Some(InternalError))
    ensures verb != "GET" && Truthy(UserId(user)) && ClientToken(headers).Some? && reachable
            && !Truthy(Lookup(store, CsrfKey(UserId(user).value))) ==>
              VerifyCsrfToken(verb, user, headers, store, reachable) == Respond(403, Some(TokenExpired))
    ensures verb != "GET" && Truthy(UserId(user)) && ClientToken(headers).Some? && reachable
            && Truthy(Lookup(store, CsrfKey(UserId(user).value)))
            && Lookup(store, CsrfKey(UserId(user).value)) != ClientToken(headers) ==>
              VerifyCsrfToken(verb, user, headers, store, reachable) == Respond(403, Some(TokenInvalid))
  {
  }

  /**
   * A refresh whose DEL went through and whose SETEX threw leaves the user
   * without a stored token: every state-changing request that carries a
   * token is refused as expired, whatever token it carries.
   */
  lemma HalfRefreshExpiresEveryToken(verb: string, user: Option<JsonObject>, headers: map<string, string>, store: Store)
    requires verb != "GET" && Truthy(UserId(user)) && ClientToken(headers).Some?
    ensures VerifyCsrfToken(verb, user, headers, store - {CsrfKey(UserId(user).value)}, true) == Respond(403, Some(TokenExpired))
  {
  }

  /**
   * After a refresh, the stored token is the one just issued: a request that
   * presents it passes, and one that presents any other token is refused as
   * invalid.
   */
  lemma RefreshSupersedesOldToken(verb: string, user: Option<JsonObject>, headers: map<string, string>, store: Store, issued: string)
    requires verb != "GET" && Truthy(UserId(user)) && ClientToken(headers).Some? && issued != ""
    ensures var s := Reissued(store, UserId(user).value, issued);
            VerifyCsrfToken(verb, user, headers, s, true)
              == if ClientToken(headers) == Some(issued) then Next else Respond(403, Some(TokenInvalid))
  {
  }
}
