/**
 * The parts of an Express request and response the middlewares use.  A
 * middleware either calls `next()` or answers with a status and a JSON body;
 * only the machine-readable `code` of the body is kept.
 */
module Http {
  import opened Wrappers

  /** A plain JSON object with string members, such as `req.user`. */
  type JsonObject = map<string, string>

  /** What a middleware does with the request. */
  datatype Reply =
    | Next                                      // next() was called
    | Respond(status: int, code: Option<string>)  // res.status(status).json({ ..., code })

  datatype SameSite = Strict | Lax | NoneAllowed

  datatype CookieOptions = CookieOptions(httpOnly: bool, secure: bool, sameSite: SameSite, maxAgeMs: nat)

  /** One `Set-Cookie` header written by `res.cookie(name, value, options)`. */
  datatype SetCookie = SetCookie(name: string, value: string, options: CookieOptions)

  /** A JavaScript string value tested for truthiness; absent counts as `undefined`. */
  predicate Truthy(s: Option<string>)
  {
    s.Some? && s.value != ""
  }

  /** The value of a member of a JSON object, `None` when it is `undefined`. */
  function Member(o: JsonObject, name: string): (r: Option<string>)
    ensures r.Some? <==> name in o
  {
    if name in o then Some(o[name]) else None
  }

  class Response {
    var cookies: seq<SetCookie>

    constructor ()
      ensures cookies == []
    {
      cookies := [];
    }

    /** `res.cookie(name, value, options)`: one more Set-Cookie header. */
    method Cookie(name: string, value: string, options: CookieOptions)
      modifies this
      ensures cookies == old(cookies) + [SetCookie(name, value, options)]
    {
      cookies := cookies + [SetCookie(name, value, options)];
    }
  }

  class Request {
    /** `req.method`, upper-case as Express presents it. */
    const verb: string
    /** `req.cookies`, as parsed from the Cookie header. */
    const cookies: map<string, string>
    /** `req.headers`: Node presents header names lower-cased. */
    const headers: map<string, string>
    /** `req.user`, set by the authentication middleware. */
    var user: Option<JsonObject>

    constructor (verb: string, cookies: map<string, string>, headers: map<string, string>)
      ensures this.verb == verb && this.cookies == cookies && this.headers == headers
      ensures user == None
    {
      this.verb := verb;
      this.cookies := cookies;
      this.headers := headers;
      user := None;
    }
  }
}
