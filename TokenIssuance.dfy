/**
 * `generateToken`: an access token (one day) and a refresh token (seven
 * days) for the same subject, signed with different secrets.  The refresh
 * token is whitelisted in redis under `refreshToken:<id>`, overwriting the
 * previous one, so a user has at most one live refresh token; both tokens are
 * set as cookies whose lifetimes match.
 */
module TokenIssuance {
  import opened Wrappers
  import opened KeyValue
  import opened Http
  import opened Jwt

  const AccessExpiresIn: Span := Days(1)
  const RefreshExpiresIn: Span := Days(7)
  const RefreshTtlSeconds: nat := 7 * 24 * 60 * 60

  /** `process.env.JWT_SECRET` and `process.env.JWT_REFRESH_SECRET`. */
  datatype Secrets = Secrets(jwtSecret: string, jwtRefreshSecret: string)

  datatype Tokens = Tokens(accessToken: string, refreshToken: string)

  function RefreshKey(id: string): string
  {
    "refreshToken:" + id
  }

  /** The `accessToken` cookie: it lives as long as the token it carries. */
  function AccessCookie(token: string): (c: SetCookie)
    ensures c.name == "accessToken" && c.value == token && c.options.httpOnly
    ensures c.options.maxAgeMs == Seconds(AccessExpiresIn) * 1000 == 86_400_000
  {
    SetCookie("accessToken", token, CookieOptions(httpOnly := true, secure := false, sameSite := Strict, maxAgeMs := 24 * 60 * 60 * 1000))
  }

  /** The `refreshToken` cookie: it lives as long as the whitelist entry and the token. */
  function RefreshCookie(token: string): (c: SetCookie)
    ensures c.name == "refreshToken" && c.value == token && c.options.httpOnly
    ensures c.options.maxAgeMs == RefreshTtlSeconds * 1000 == Seconds(RefreshExpiresIn) * 1000
  {
    SetCookie("refreshToken", token, CookieOptions(httpOnly := true, secure := false, sameSite := Strict, maxAgeMs := 7 * 24 * 60 * 60 * 1000))
  }

  /** The two tokens minted for `id`. */
  function Mint(id: string, sign: Signer, secrets: Secrets): Tokens
  {
    Tokens(sign(Claims(id), secrets.jwtSecret, AccessExpiresIn), sign(Claims(id), secrets.jwtRefreshSecret, RefreshExpiresIn))
  }

  /** The store after `token` is whitelisted for `id`. */
  function Whitelist(store: Store, id: string, token: string): Store
  {
    store[RefreshKey(id) := Entry(token, RefreshTtlSeconds)]
  }

  /** `token` is the live refresh token of `id`. */
  predicate Live(store: Store, id: string, token: string)
  {
    Lookup(store, RefreshKey(id)) == Some(token)
  }

  /**
   * `generateToken(id, res)`.  A failing store write rejects before any
   * cookie is set.
   */
  method GenerateToken(redis: RedisClient, res: Response, id: string, sign: Signer, secrets: Secrets)
    returns (r: Result<Tokens, StoreError>)
    modifies redis`entries, redis`schedule, res
    ensures r.Ok? <==> Reaches(old(redis.schedule))
    ensures redis.schedule == After(old(redis.schedule))
    ensures r.Ok? ==> r.value == Mint(id, sign, secrets)
    ensures redis.entries == if r.Ok? then Whitelist(old(redis.entries), id, r.value.refreshToken) else old(redis.entries)
    ensures res.cookies == if r.Ok? then old(res.cookies) + [AccessCookie(r.value.accessToken), RefreshCookie(r.value.refreshToken)]
                           else old(res.cookies)
    ensures r.Ok? ==> Live(redis.entries, id, r.value.refreshToken)
    ensures r.Ok? ==> res.cookies[|res.cookies| - 1].options.maxAgeMs == redis.entries[RefreshKey(id)].ttlSeconds * 1000
  {
    var accessToken := sign(Claims(id), secrets.jwtSecret, Days(1));
    var refreshToken := sign(Claims(id), secrets.jwtRefreshSecret, Days(7));
    var refreshTokenKey := RefreshKey(id);
    var ok := redis.SetEx(refreshTokenKey, 7 * 24 * 60 * 60, refreshToken);
    if !ok {
      return Err(Unreachable);
    }
    res.Cookie("accessToken", accessToken, CookieOptions(httpOnly := true, secure := false, sameSite := Strict, maxAgeMs := 24 * 60 * 60 * 1000));
    res.Cookie("refreshToken", refreshToken, CookieOptions(httpOnly := true, secure := false, sameSite := Strict, maxAgeMs := 7 * 24 * 60 * 60 * 1000));
    r := Ok(Tokens(accessToken, refreshToken));
  }

  /** Distinct users have distinct whitelist keys. */
  lemma RefreshKeyInjective(a: string, b: string)
    requires RefreshKey(a) == RefreshKey(b)
    ensures a == b
  {
    assert a == RefreshKey(a)[13..];
    assert b == RefreshKey(b)[13..];
  }

  /**
   * Whitelisting a token makes it the only live refresh token of `id`, keeps
   * the live token of every other user, and changes no other key.
   */
  lemma WhitelistSupersedes(store: Store, id: string, token: string)
    ensures forall t :: Live(Whitelist(store, id, token), id, t) <==> t == token
    ensures forall other, t | other != id :: Live(Whitelist(store, id, token), other, t) <==> Live(store, other, t)
    ensures forall k | k != RefreshKey(id) :: Lookup(Whitelist(store, id, token), k) == Lookup(store, k)
  {
    forall other, t | other != id
      ensures Live(Whitelist(store, id, token), other, t) <==> Live(store, other, t)
    {
      if RefreshKey(other) == RefreshKey(id) {
        RefreshKeyInjective(other, id);
      }
    }
  }

  /** The store after a series of logins of `id` that were issued `tokens`, in order. */
  function WhitelistAll(store: Store, id: string, tokens: seq<string>): Store
    decreases |tokens|
  {
    if tokens == [] then store else WhitelistAll(Whitelist(store, id, tokens[0]), id, tokens[1..])
  }

  /** After N >= 1 logins, exactly one refresh token of the user is live: the last one issued. */
  lemma {:induction false} SequentialLogins(store: Store, id: string, tokens: seq<string>)
    requires |tokens| >= 1
    ensures forall t :: Live(WhitelistAll(store, id, tokens), id, t) <==> t == tokens[|tokens| - 1]
    decreases |tokens|
  {
    var next := Whitelist(store, id, tokens[0]);
    if |tokens| == 1 {
      WhitelistSupersedes(store, id, tokens[0]);
      assert WhitelistAll(store, id, tokens) == WhitelistAll(next, id, []);
    } else {
      SequentialLogins(next, id, tokens[1..]);
    }
  }

  /**
   * The refresh token cannot stand in for the access token: with a signer
   * and verifier that agree and distinct secrets, verifying it under the
   * access secret throws, and the access token verifies to the same subject.
   */
  lemma RefreshTokenIsNoAccessToken(id: string, sign: Signer, verify: Verifier, secrets: Secrets)
    requires Agree(sign, verify) && secrets.jwtSecret != secrets.jwtRefreshSecret
    ensures verify(Mint(id, sign, secrets).refreshToken, secrets.jwtSecret) == Throws
    ensures verify(Mint(id, sign, secrets).accessToken, secrets.jwtSecret) == Decoded(Some(Claims(id)))
    ensures verify(Mint(id, sign, secrets).refreshToken, secrets.jwtRefreshSecret) == Decoded(Some(Claims(id)))
  {
  }
}
