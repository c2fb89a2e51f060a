/**
 * The authentication middleware: the `accessToken` cookie is verified, the
 * user profile is read through a redis cache (`user:<id>`, one hour) backed
 * by the user database, and the profile is attached to the request.  A
 * thrown error of any kind, a failed token verification included, answers
 * 500.  Then the administrator gate.
 */
module Auth {
  import opened Wrappers
  import opened KeyValue
  import opened Http
  import opened Jwt

  const CacheTtlSeconds: nat := 3600

  function CacheKey(id: string): string
  {
    "user:" + id
  }

  /** A document of the user collection; the role field is spelled `roll` in the schema. */
  datatype UserRecord = UserRecord(id: string, name: string, email: string, password: string, roll: string)

  /** The user collection, read by id.  A lookup while it cannot be reached throws. */
  datatype UserDb = UserDb(records: map<string, UserRecord>, reachable: bool)

  /** Every record is stored under its own id. */
  ghost predicate WellKeyed(db: UserDb)
  {
    forall k | k in db.records :: db.records[k].id == k
  }

  /** `User.findById(id).select("-password")`, seen as an object: every field but the password, and the `id` alias of `_id`. */
  function Projection(u: UserRecord): (o: JsonObject)
    ensures "password" !in o
    ensures Member(o, "_id") == Some(u.id) && Member(o, "id") == Some(u.id) && Member(o, "roll") == Some(u.roll)
    ensures Member(o, "role") == None
  {
    map["_id" := u.id, "id" := u.id, "name" := u.name, "email" := u.email, "roll" := u.roll]
  }

  /**
   * How `JSON.stringify` renders a user document.  As written, it calls the
   * document's default `toJSON()`, which writes the stored fields and leaves
   * out virtuals, `id` among them; `toJSON({ virtuals: true })` would keep them.
   */
  datatype JsonForm = FieldsOnly | WithVirtuals

  /** The object `JSON.stringify(user)` serialises. */
  function Serialized(u: UserRecord, form: JsonForm): (o: JsonObject)
    ensures form == WithVirtuals ==> o == Projection(u)
    ensures form == FieldsOnly ==> "id" !in o && forall k | k != "id" :: Member(o, k) == Member(Projection(u), k)
  {
    match form
    case FieldsOnly => Projection(u) - {"id"}
    case WithVirtuals => Projection(u)
  }

  /** `JSON.stringify` and `JSON.parse` of the cached profile (`None`: the parse throws). */
  datatype ProfileCodec = ProfileCodec(stringify: JsonObject -> string, parse: string -> Option<JsonObject>)

  /** A codec that reads back what it writes, and never writes the empty string. */
  ghost predicate RoundTrips(codec: ProfileCodec)
  {
    forall o :: codec.stringify(o) != "" && codec.parse(codec.stringify(o)) == Some(o)
  }

  /**
   * What one pass of the middleware does: its answer, the value it assigns to
   * `req.user` (if any), the new store and the schedule of the redis commands
   * still to come.
   */
  datatype AuthOutcome = AuthOutcome(reply: Reply, user: Option<JsonObject>, store: Store, schedule: seq<bool>)

  /**
   * `authMiddleware` as the decision it makes, with the cached profile
   * serialised in the given form.  The GET and the SETEX take their outcomes
   * from the redis schedule in turn; `db.reachable == false` stands for a
   * database lookup that throws.
   */
  function Authenticate(cookies: map<string, string>, verify: Verifier, jwtSecret: string,
                        store: Store, schedule: seq<bool>, db: UserDb, codec: ProfileCodec, form: JsonForm): (r: AuthOutcome)
    ensures r.reply.Next? <==> r.user.Some?
    ensures r.reply.Respond? ==> r.reply.code == None && (r.reply.status == 401 || r.reply.status == 500)
    ensures r.store != store ==>
              && r.reply.Next?
              && exists u | u in db.records.Values ::
                   && r.user == Some(Projection(u))
                   && r.store == store[CacheKey(u.id) := Entry(codec.stringify(Serialized(u, form)), CacheTtlSeconds)]
  {
    var token := Member(cookies, "accessToken");
    if !Truthy(token) then AuthOutcome(Respond(401, None), None, store, schedule)
    else
      match verify(token.value, jwtSecret)
      case Throws => AuthOutcome(Respond(500, None), None, store, schedule)
      case Decoded(None) => AuthOutcome(Respond(401, None), None, store, schedule)
      case Decoded(Some(claims)) =>
        var afterGet := After(schedule);
        if !Reaches(schedule) then AuthOutcome(Respond(500, None), None, store, afterGet)
        else
          var cached := Lookup(store, CacheKey(claims.id));
          if Truthy(cached) then
            match codec.parse(cached.value)
            case None => AuthOutcome(Respond(500, None), None, store, afterGet)
            case Some(o) => AuthOutcome(Next, Some(o), store, afterGet)
          else if !db.reachable then AuthOutcome(Respond(500, None), None, store, afterGet)
          else if claims.id !in db.records then AuthOutcome(Respond(401, None), None, store, afterGet)
          else
            var u := db.records[claims.id];
            if !Reaches(afterGet) then AuthOutcome(Respond(500, None), None, store, After(afterGet))
            else AuthOutcome(Next, Some(Projection(u)),
                             store[CacheKey(u.id) := Entry(codec.stringify(Serialized(u, form)), CacheTtlSeconds)], After(afterGet))
  }

  /** `authMiddleware` on a request object and the shared redis client. */
  method AuthMiddleware(req: Request, redis: RedisClient, verify: Verifier, jwtSecret: string, db: UserDb, codec: ProfileCodec)
    returns (reply: Reply)
    modifies req`user, redis`entries, redis`schedule
    ensures var spec := Authenticate(req.cookies, verify, jwtSecret, old(redis.entries), old(redis.schedule), db, codec, FieldsOnly);
            && reply == spec.reply
            && redis.entries == spec.store
            && redis.schedule == spec.schedule
            && req.user == (if spec.user.Some? then spec.user else old(req.user))
  {
    var token := Member(req.cookies, "accessToken");
    if !Truthy(token) {
      return Respond(401, None);
    }
    var decoded := verify(token.value, jwtSecret);
    if decoded.Throws? {
      return Respond(500, None);
    }
    if decoded.payload.None? {
      return Respond(401, None);
    }
    var id := decoded.payload.value.id;
    var cached := redis.Get(CacheKey(id));
    if cached.Err? {
      return Respond(500, None);
    }
    if Truthy(cached.value) {
      var parsed := codec.parse(cached.value.value);
      if parsed.None? {
        return Respond(500, None);
      }
      req.user := parsed;
      return Next;
    }
    if !db.reachable {
      return Respond(500, None);
    }
    if id !in db.records {
      return Respond(401, None);
    }
    var u := db.records[id];
    var ok := redis.SetEx(CacheKey(u.id), 3600, codec.stringify(Serialized(u, FieldsOnly)));
    if !ok {
      return Respond(500, None);
    }
    req.user := Some(Projection(u));
    reply := Next;
  }

  /** Without an `accessToken` cookie the answer is 401, and neither the cache nor the database is consulted: no redis command is sent, and the outcome is the same when the database is down. */
  lemma MissingCookieIs401(cookies: map<string, string>, verify: Verifier, jwtSecret: string,
                           store: Store, schedule: seq<bool>, db: UserDb, codec: ProfileCodec, form: JsonForm)
    requires !Truthy(Member(cookies, "accessToken"))
    ensures Authenticate(cookies, verify, jwtSecret, store, schedule, db, codec, form)
              == AuthOutcome(Respond(401, None), None, store, schedule)
  {
  }

  /** A token that fails verification answers 500, not 401, before any redis command. */
  lemma FailedVerificationIs500(cookies: map<string, string>, verify: Verifier, jwtSecret: string,
                                store: Store, schedule: seq<bool>, db: UserDb, codec: ProfileCodec, form: JsonForm)
    requires Truthy(Member(cookies, "accessToken"))
    requires verify(cookies["accessToken"], jwtSecret) == Throws
    ensures Authenticate(cookies, verify, jwtSecret, store, schedule, db, codec, form)
              == AuthOutcome(Respond(500, None), None, store, schedule)
  {
  }

  /**
   * Every exception after a successful verification is answered 500, with no user attached and the cache untouched:
   * a failing GET, a cached value that is not JSON, and a database that cannot be reached on a miss.
   */
  lemma ThrownErrorsAre500(cookies: map<string, string>, verify: Verifier, jwtSecret: string,
                           store: Store, schedule: seq<bool>, db: UserDb, codec: ProfileCodec, form: JsonForm, id: string)
    requires Truthy(Member(cookies, "accessToken"))
    requires verify(cookies["accessToken"], jwtSecret) == Decoded(Some(Claims(id)))
    ensures !Reaches(schedule) ==>
              Authenticate(cookies, verify, jwtSecret, store, schedule, db, codec, form)
                == AuthOutcome(Respond(500, None), None, store, After(schedule))
    ensures Reaches(schedule) && Truthy(Lookup(store, CacheKey(id))) && codec.parse(store[CacheKey(id)].value).None? ==>
              Authenticate(cookies, verify, jwtSecret, store, schedule, db, codec, form)
                == AuthOutcome(Respond(500, None), None, store, After(schedule))
    ensures Reaches(schedule) && !Truthy(Lookup(store, CacheKey(id))) && !db.reachable ==>
              Authenticate(cookies, verify, jwtSecret, store, schedule, db, codec, form)
                == AuthOutcome(Respond(500, None), None, store, After(schedule))
  {
  }

  /**
   * The answer is 401 exactly when the cookie is missing, the token decodes to nothing, or the
   * cache and the database both come back without the user.
   */
  lemma UnauthorizedExactly(cookies: map<string, string>, verify: Verifier, jwtSecret: string,
                            store: Store, schedule: seq<bool>, db: UserDb, codec: ProfileCodec, form: JsonForm)
    ensures Authenticate(cookies, verify, jwtSecret, store, schedule, db, codec, form).reply == Respond(401, None)
            <==> || !Truthy(Member(cookies, "accessToken"))
                 || verify(cookies["accessToken"], jwtSecret) == Decoded(None)
                 || (exists id | verify(cookies["accessToken"], jwtSecret) == Decoded(Some(Claims(id))) ::
                       && Reaches(schedule)
                       && !Truthy(Lookup(store, CacheKey(id)))
                       && db.reachable
                       && id !in db.records)
  {
  }

  /** On a cache hit the cached profile becomes `req.user` and the database is not consulted: any database, even one that is down, gives the same outcome. */
  lemma CacheHitSkipsDatabase(cookies: map<string, string>, verify: Verifier, jwtSecret: string,
                              store: Store, schedule: seq<bool>, db: UserDb, otherDb: UserDb, codec: ProfileCodec, form: JsonForm,
                              id: string, profile: JsonObject)
    requires Truthy(Member(cookies, "accessToken"))
    requires verify(cookies["accessToken"], jwtSecret) == Decoded(Some(Claims(id)))
    requires Reaches(schedule)
    requires Truthy(Lookup(store, CacheKey(id)))
    requires codec.parse(store[CacheKey(id)].value) == Some(profile)
    ensures Authenticate(cookies, verify, jwtSecret, store, schedule, db, codec, form)
              == AuthOutcome(Next, Some(profile), store, After(schedule))
    ensures Authenticate(cookies, verify, jwtSecret, store, schedule, db, codec, form)
              == Authenticate(cookies, verify, jwtSecret, store, schedule, otherDb, codec, form)
  {
  }

  /** On a miss for a known user the profile is cached under `user:<id>` for 3600 s and attached to the request. */
  lemma CacheMissFillsCache(cookies: map<string, string>, verify: Verifier, jwtSecret: string,
                            store: Store, schedule: seq<bool>, db: UserDb, codec: ProfileCodec, form: JsonForm, id: string)
    requires Truthy(Member(cookies, "accessToken"))
    requires verify(cookies["accessToken"], jwtSecret) == Decoded(Some(Claims(id)))
    requires Reaches(schedule) && Reaches(After(schedule))
    requires !Truthy(Lookup(store, CacheKey(id)))
    requires db.reachable && id in db.records && db.records[id].id == id
    ensures var r := Authenticate(cookies, verify, jwtSecret, store, schedule, db, codec, form);
            && r.reply == Next
            && r.user == Some(Projection(db.records[id]))
            && Lookup(r.store, CacheKey(id)) == Some(codec.stringify(Serialized(db.records[id], form)))
            && r.store[CacheKey(id)].ttlSeconds == CacheTtlSeconds
            && (forall k | k != CacheKey(id) :: Lookup(r.store, k) == Lookup(store, k))
            && r.schedule == After(After(schedule))
  {
  }

  /**
   * On a miss for a known user whose cache write throws, the answer is 500:
   * the profile was read, but the request is refused and nothing is cached.
   */
  lemma CacheWriteFailureIs500(cookies: map<string, string>, verify: Verifier, jwtSecret: string,
                               store: Store, schedule: seq<bool>, db: UserDb, codec: ProfileCodec, form: JsonForm, id: string)
    requires Truthy(Member(cookies, "accessToken"))
    requires verify(cookies["accessToken"], jwtSecret) == Decoded(Some(Claims(id)))
    requires Reaches(schedule) && !Reaches(After(schedule))
    requires !Truthy(Lookup(store, CacheKey(id)))
    requires db.reachable && id in db.records
    ensures Authenticate(cookies, verify, jwtSecret, store, schedule, db, codec, form)
              == AuthOutcome(Respond(500, None), None, store, After(After(schedule)))
  {
  }

  /** On a miss for an unknown user the answer is 401 and the cache is left as it was. */
  lemma CacheMissUnknownUser(cookies: map<string, string>, verify: Verifier, jwtSecret: string,
                             store: Store, schedule: seq<bool>, db: UserDb, codec: ProfileCodec, form: JsonForm, id: string)
    requires Truthy(Member(cookies, "accessToken"))
    requires verify(cookies["accessToken"], jwtSecret) == Decoded(Some(Claims(id)))
    requires Reaches(schedule)
    requires !Truthy(Lookup(store, CacheKey(id)))
    requires db.reachable && id !in db.records
    ensures Authenticate(cookies, verify, jwtSecret, store, schedule, db, codec, form)
              == AuthOutcome(Respond(401, None), None, store, After(schedule))
  {
  }

  /**
   * Read-through: once a request has filled the cache, the next request with
   * the same token is answered from the cache, even if the database has since
   * become unreachable.  The profile it gets is the serialised one: as
   * written, the one the database gave with its `id` member dropped; with
   * virtuals kept, the very same profile.
   */
  lemma ReadThrough(cookies: map<string, string>, verify: Verifier, jwtSecret: string,
                    store: Store, db: UserDb, codec: ProfileCodec, form: JsonForm)
    requires RoundTrips(codec) && WellKeyed(db)
    ensures var first := Authenticate(cookies, verify, jwtSecret, store, [], db, codec, form);
            var second := Authenticate(cookies, verify, jwtSecret, first.store, [], db.(reachable := false), codec, form);
            first.reply.Next? ==>
              && second.reply == Next && second.store == first.store
              && (first.store == store || form == WithVirtuals ==> second.user == first.user)
              && (first.store != store ==>
                    exists u | u in db.records.Values :: first.user == Some(Projection(u)) && second.user == Some(Serialized(u, form)))
  {
    var first := Authenticate(cookies, verify, jwtSecret, store, [], db, codec, form);
    if first.reply.Next? && first.store != store {
      var id := verify(cookies["accessToken"], jwtSecret).payload.value.id;
      var u := db.records[id];
      assert u.id == id;
      assert codec.parse(codec.stringify(Serialized(u, form))) == Some(Serialized(u, form));
    }
  }

  /**
   * `adminMiddleware`: reads `user.role`.  With no user the property read
   * throws (500); a role other than "admin", an absent one included, is 403.
   */
  function AdminMiddleware(user: Option<JsonObject>): (r: Reply)
    ensures r.Next? <==> user.Some? && Member(user.value, "role") == Some("admin")
    ensures r.Respond? ==> r.code == None && r.status == (if user.None? then 500 else 403)
  {
    if user.None? then Respond(500, None)
    else if Member(user.value, "role") != Some("admin") then Respond(403, None)
    else Next
  }

  /**
   * As written, the gate admits no user that the authentication middleware
   * loaded from the database: those profiles carry `roll`, never `role`.
   */
  lemma AdminDeniesEveryStoredUser(cookies: map<string, string>, verify: Verifier, jwtSecret: string,
                                   store: Store, schedule: seq<bool>, db: UserDb, codec: ProfileCodec, form: JsonForm)
    ensures var r := Authenticate(cookies, verify, jwtSecret, store, schedule, db, codec, form);
            r.store != store ==> AdminMiddleware(r.user) == Respond(403, None)
  {
  }

  /** The gate as the schema calls for it: it reads `roll`. */
  function AdminMiddlewareByRoll(user: Option<JsonObject>): (r: Reply)
    ensures r.Next? <==> user.Some? && Member(user.value, "roll") == Some("admin")
    ensures r.Respond? ==> r.code == None && r.status == (if user.None? then 500 else 403)
  {
    if user.None? then Respond(500, None)
    else if Member(user.value, "roll") != Some("admin") then Respond(403, None)
    else Next
  }

  /** Corrected gate: a user loaded from the database passes exactly when its `roll` is "admin". */
  lemma AdminByRollAdmitsAdmins(u: UserRecord)
    ensures AdminMiddlewareByRoll(Some(Projection(u))).Next? <==> u.roll == "admin"
    ensures AdminMiddleware(Some(Projection(u))) == Respond(403, None)
  {
  }
}
