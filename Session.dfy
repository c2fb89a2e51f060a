/**
 * How the pieces fit together across the client and the server: the redis
 * key spaces of the three middlewares are disjoint, every refusal the server
 * sends reaches the renewal it is meant for in the client, and the CSRF
 * cookie round trip from `generateCSRFToken` through `document.cookie` and
 * the request interceptor back to `verifyCSRFToken`.
 */
module Session {
  import opened Wrappers
  import opened JsString
  import opened KeyValue
  import opened Http
  import opened Jwt
  import opened Browser
  import Hex
  import CsrfGuard
  import Auth
  import TokenIssuance
  import ApiInterceptor

  /** The CSRF token key, the refresh token key and the profile cache key never coincide. */
  lemma KeySpacesDisjoint(a: string, b: string, c: string)
    ensures CsrfGuard.CsrfKey(a) != TokenIssuance.RefreshKey(b)
    ensures CsrfGuard.CsrfKey(a) != Auth.CacheKey(c)
    ensures TokenIssuance.RefreshKey(b) != Auth.CacheKey(c)
  {
    assert CsrfGuard.CsrfKey(a)[0] == 'c';
    assert TokenIssuance.RefreshKey(b)[0] == 'r';
    assert Auth.CacheKey(c)[0] == 'u';
  }

  /** Whitelisting a refresh token at login leaves every CSRF verdict as it was. */
  lemma LoginKeepsCsrfVerdicts(verb: string, user: Option<JsonObject>, headers: map<string, string>,
                               store: Store, reachable: bool, id: string, refreshToken: string)
    ensures CsrfGuard.VerifyCsrfToken(verb, user, headers, TokenIssuance.Whitelist(store, id, refreshToken), reachable)
            == CsrfGuard.VerifyCsrfToken(verb, user, headers, store, reachable)
  {
    if Truthy(CsrfGuard.UserId(user)) {
      KeySpacesDisjoint(CsrfGuard.UserId(user).value, id, "");
    }
  }

  /** Filling the profile cache leaves every CSRF verdict as it was. */
  lemma CachingKeepsCsrfVerdicts(verb: string, user: Option<JsonObject>, headers: map<string, string>,
                                 store: Store, reachable: bool, id: string, profile: Entry)
    ensures CsrfGuard.VerifyCsrfToken(verb, user, headers, store[Auth.CacheKey(id) := profile], reachable)
            == CsrfGuard.VerifyCsrfToken(verb, user, headers, store, reachable)
  {
    if Truthy(CsrfGuard.UserId(user)) {
      KeySpacesDisjoint(CsrfGuard.UserId(user).value, "", id);
    }
  }

  /** The failure the client sees for a refusal of `request`. */
  function Refusal(request: ApiInterceptor.RequestConfig, reply: Reply): ApiInterceptor.Failure
    requires reply.Respond?
  {
    ApiInterceptor.Failure(Some(request), Some(ApiInterceptor.ErrorResponse(reply.status, reply.code)))
  }

  /**
   * Every CSRF refusal (403) sends the client into the CSRF renewal; the 401
   * for a request without a user sends it into the session renewal unless
   * the request was already replayed; the 500 is rethrown.
   */
  lemma CsrfRefusalsReachTheirRenewal(verb: string, user: Option<JsonObject>, headers: map<string, string>,
                                      store: Store, reachable: bool, request: ApiInterceptor.RequestConfig)
    requires request.url.None? || !Includes(request.url.value, ApiInterceptor.RefreshPath)
    ensures var r := CsrfGuard.VerifyCsrfToken(verb, user, headers, store, reachable);
            r.Respond? ==>
              ApiInterceptor.Route(Refusal(request, r)) ==
                if r.status == 403 then ApiInterceptor.Renewal(ApiInterceptor.Csrf)
                else if r.status == 401 && !request.retry then ApiInterceptor.Renewal(ApiInterceptor.Auth)
                else ApiInterceptor.Rethrow
  {
  }

  /**
   * The authentication middleware's 401 sends the client into the session
   * renewal once; its 500 (a token that fails verification) is rethrown
   * without a renewal.
   */
  lemma AuthRefusalsReachTheirRenewal(cookies: map<string, string>, verify: Verifier, jwtSecret: string,
                                      store: Store, schedule: seq<bool>, db: Auth.UserDb, codec: Auth.ProfileCodec,
                                      form: Auth.JsonForm, request: ApiInterceptor.RequestConfig)
    requires request.url.None? || !Includes(request.url.value, ApiInterceptor.RefreshPath)
    ensures var r := Auth.Authenticate(cookies, verify, jwtSecret, store, schedule, db, codec, form).reply;
            r.Respond? ==>
              ApiInterceptor.Route(Refusal(request, r)) ==
                if r.status == 401 && !request.retry then ApiInterceptor.Renewal(ApiInterceptor.Auth)
                else ApiInterceptor.Rethrow
  {
  }

  /**
   * As written, the profile the cache serves has no `id`: the request that
   * filled the cache gave the CSRF guard the user's id, and every later
   * request answered from the cache is refused with 401 on a state-changing
   * method, whatever token it carries and whatever the store holds.
   */
  lemma CachedProfileRefusedByCsrfGuard(cookies: map<string, string>, verify: Verifier, jwtSecret: string,
                                        store: Store, db: Auth.UserDb, codec: Auth.ProfileCodec,
                                        verb: string, headers: map<string, string>, csrfStore: Store, reachable: bool)
    requires Auth.RoundTrips(codec) && Auth.WellKeyed(db) && verb != "GET"
    ensures var first := Auth.Authenticate(cookies, verify, jwtSecret, store, [], db, codec, Auth.FieldsOnly);
            var second := Auth.Authenticate(cookies, verify, jwtSecret, first.store, [], db.(reachable := false), codec, Auth.FieldsOnly);
            first.store != store ==>
              && first.reply == Next && second.reply == Next
              && CsrfGuard.UserId(first.user).Some?
              && CsrfGuard.VerifyCsrfToken(verb, second.user, headers, csrfStore, reachable) == Respond(401, None)
  {
    Auth.ReadThrough(cookies, verify, jwtSecret, store, db, codec, Auth.FieldsOnly);
  }

  /**
   * Corrected: with the virtuals kept in the cached JSON, a request answered
   * from the cache gets from the CSRF guard exactly the verdict the request
   * that filled it would have got.
   */
  lemma CachedProfileWithIdKeepsCsrfVerdicts(cookies: map<string, string>, verify: Verifier, jwtSecret: string,
                                             store: Store, db: Auth.UserDb, codec: Auth.ProfileCodec,
                                             verb: string, headers: map<string, string>, csrfStore: Store, reachable: bool)
    requires Auth.RoundTrips(codec) && Auth.WellKeyed(db)
    ensures var first := Auth.Authenticate(cookies, verify, jwtSecret, store, [], db, codec, Auth.WithVirtuals);
            var second := Auth.Authenticate(cookies, verify, jwtSecret, first.store, [], db.(reachable := false), codec, Auth.WithVirtuals);
            first.reply.Next? ==>
              && second.reply == Next
              && CsrfGuard.VerifyCsrfToken(verb, second.user, headers, csrfStore, reachable)
                 == CsrfGuard.VerifyCsrfToken(verb, first.user, headers, csrfStore, reachable)
  {
    Auth.ReadThrough(cookies, verify, jwtSecret, store, db, codec, Auth.WithVirtuals);
  }

  /** The header map the server sees: Node lower-cases header names. */
  function Delivered(headers: map<string, string>, attached: Option<string>): map<string, string>
  {
    if attached.Some? then headers[ToLower(ApiInterceptor.CsrfHeaderName) := attached.value] else headers
  }

  /** Lower-casing gives `t` when it gives each of its characters. */
  lemma ToLowerGives(s: string, t: string)
    requires |s| == |t|
    requires forall k | 0 <= k < |s| :: ToLowerChar(s[k]) == t[k]
    ensures ToLower(s) == t
  {
  }

  /** The header the client writes is the first alias the server reads. */
  lemma HeaderNameMatchesFirstAlias()
    ensures ToLower(ApiInterceptor.CsrfHeaderName) == CsrfGuard.Aliases[0]
  {
    var name, alias := ApiInterceptor.CsrfHeaderName, CsrfGuard.Aliases[0];
    assert |name| == |alias| == 12;
    assert ToLowerChar(name[0]) == alias[0];
    assert ToLowerChar(name[1]) == alias[1];
    assert ToLowerChar(name[2]) == alias[2];
    assert ToLowerChar(name[3]) == alias[3];
    assert ToLowerChar(name[4]) == alias[4];
    assert ToLowerChar(name[5]) == alias[5];
    assert ToLowerChar(name[6]) == alias[6];
    assert ToLowerChar(name[7]) == alias[7];
    assert ToLowerChar(name[8]) == alias[8];
    assert ToLowerChar(name[9]) == alias[9];
    assert ToLowerChar(name[10]) == alias[10];
    assert ToLowerChar(name[11]) == alias[11];
    ToLowerGives(name, alias);
  }

  /** A freshly generated token holds no ';' and is not empty. */
  lemma TokenFitsCookie(random: Hex.Bytes32)
    ensures var token := Hex.Encode(random); ';' !in token && token != ""
  {
    var token := Hex.Encode(random);
    Hex.TokenShape(random);
    assert ';' !in Hex.Digits;
    assert forall k | 0 <= k < |token| :: token[k] != ';';
  }

  /**
   * As written: the CSRF cookie is `httpOnly`, so a script never reads it, the
   * request interceptor attaches nothing, and every mutating request of a
   * signed-in user that carries no token header of its own is refused as
   * CSRF_TOKEN_MISSING, even right after the token was issued and stored.
   */
  lemma HttpOnlyCsrfCookieNeverSent(jar: seq<StoredCookie>, random: Hex.Bytes32, clientVerb: Option<string>,
                                    verb: string, user: Option<JsonObject>, headers: map<string, string>, store: Store)
    requires AllWellFormed(jar) && UniqueNames(jar)
    requires verb != "GET" && Truthy(CsrfGuard.UserId(user)) && CsrfGuard.ClientToken(headers).None?
    ensures var token := Hex.Encode(random);
            var jar' := Receive(jar, CsrfGuard.CsrfCookie(token));
            var issued := CsrfGuard.Reissued(store, CsrfGuard.UserId(user).value, token);
            && ApiInterceptor.CsrfHeader(clientVerb, DocumentCookie(jar')) == None
            && CsrfGuard.VerifyCsrfToken(verb, user, Delivered(headers, ApiInterceptor.CsrfHeader(clientVerb, DocumentCookie(jar'))), issued, true)
               == Respond(403, Some(CsrfGuard.TokenMissing))
  {
    var token := Hex.Encode(random);
    var c := CsrfGuard.CsrfCookie(token);
    TokenFitsCookie(random);
    ReceiveThenLookup(jar, c);
    var jar' := Receive(jar, c);
    assert WellFormed(StoredCookie(c.name, c.value, c.options.httpOnly));
    ApiInterceptor.CsrfHeaderFromJar(jar', clientVerb);
  }

  /** The CSRF cookie as the client evidently needs it: readable by scripts. */
  function ReadableCsrfCookie(token: string): SetCookie
  {
    var c := CsrfGuard.CsrfCookie(token);
    c.(options := c.options.(httpOnly := false))
  }

  /**
   * Corrected: with a readable CSRF cookie, once a token is issued and stored
   * the next mutating request of the user carries it and passes the check,
   * whatever other headers it has.
   */
  lemma ReadableCsrfCookieAccepted(jar: seq<StoredCookie>, random: Hex.Bytes32, clientVerb: Option<string>,
                                   verb: string, user: Option<JsonObject>, headers: map<string, string>, store: Store)
    requires AllWellFormed(jar) && UniqueNames(jar)
    requires ApiInterceptor.Mutating(clientVerb) && verb != "GET" && Truthy(CsrfGuard.UserId(user))
    ensures var token := Hex.Encode(random);
            var jar' := Receive(jar, ReadableCsrfCookie(token));
            var issued := CsrfGuard.Reissued(store, CsrfGuard.UserId(user).value, token);
            && ApiInterceptor.CsrfHeader(clientVerb, DocumentCookie(jar')) == Some(token)
            && CsrfGuard.VerifyCsrfToken(verb, user, Delivered(headers, ApiInterceptor.CsrfHeader(clientVerb, DocumentCookie(jar'))), issued, true)
               == Next
  {
    var token := Hex.Encode(random);
    var c := ReadableCsrfCookie(token);
    TokenFitsCookie(random);
    ReceiveThenLookup(jar, c);
    var jar' := Receive(jar, c);
    assert WellFormed(StoredCookie(c.name, c.value, c.options.httpOnly));
    ApiInterceptor.CsrfHeaderFromJar(jar', clientVerb);
    HeaderNameMatchesFirstAlias();
    var h := Delivered(headers, Some(token));
    assert Member(h, CsrfGuard.Aliases[0]) == Some(token);
    assert CsrfGuard.ClientToken(h) == Some(token);
    CsrfGuard.PassesExactlyOnMatch(verb, user, h, CsrfGuard.Reissued(store, CsrfGuard.UserId(user).value, token), true);
  }
}
