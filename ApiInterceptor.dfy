/**
 * The client's axios instance: `getCookie`, the request interceptor that
 * attaches the CSRF header to mutating requests, and the response
 * interceptor that renews an expired session (401) or CSRF token (403 with
 * a `CSRF_` code) once however many requests fail at the same time,
 * queueing the others and settling them when the renewal settles.
 */
module ApiInterceptor {
  import opened Wrappers
  import opened JsString
  import opened Http
  import opened Browser

  const CsrfCookieName: string := "csrfToken"
  const CsrfHeaderName: string := "X-CSRF-Token"
  const CsrfCodePrefix: string := "CSRF_"
  /** The path the client posts to renew the session. */
  const RefreshPath: string := "/auth/v1/refresh"
  /** The path the client posts to renew the CSRF token. */
  const RefreshCsrfPath: string := "/auth/v1/refresh-csrf"

  // ---------------------------------------------------------------- getCookie

  /**
   * `getCookie(name)` on the text of `document.cookie`: split "; " + the
   * text at "; name=", and when that gives exactly two pieces, the second
   * one up to its first ';'.
   */
  function GetCookie(documentCookie: string, name: string): (r: Option<string>)
    ensures r.Some? ==> ';' !in r.value
    ensures !Includes("; " + documentCookie, Separator(name)) ==> r == None
  {
    var parts := Split("; " + documentCookie, Separator(name));
    if |parts| == 2 then
      var pieces := Split(parts[1], ";");
      AbsentChar(pieces[0], ';');
      Some(pieces[0])
    else None
  }

  /** The first piece of `v + rest` split at ';' is `v`, when `v` holds no ';' and `rest` is empty or starts a new pair. */
  lemma FirstPiece(v: string, rest: string)
    requires ';' !in v
    requires rest == [] || rest[0] == ';'
    ensures Split(v + rest, ";")[0] == v
  {
    var s := v + rest;
    if rest == [] {
      assert s == v;
      NoOccurrenceWithoutHead(v, ";");
    } else {
      assert OccursAt(s, ";", |v|) by {
        assert s[|v|..|v| + 1] == [rest[0]];
      }
      forall j: nat | j < |v| ensures !OccursAt(s, ";", j) {
        assert s[j] == v[j];
      }
      assert IndexOf(s, ";") == Some(|v|);
      assert s[..|v|] == v;
    }
  }

  /** The chunks around the `k`-th pair. */
  lemma {:induction false} ChunksAt(cs: seq<StoredCookie>, k: nat)
    requires k < |cs|
    ensures Chunks(cs) == Chunks(cs[..k]) + (Separator(cs[k].name) + (cs[k].value + Chunks(cs[k + 1..])))
  {
    var head, tail := Chunk(cs[0]), Chunks(cs[1..]);
    assert Chunks(cs) == head + tail;
    if k == 0 {
      ChunkSplits(cs[0]);
      assert Chunks(cs[..0]) == "";
    } else {
      var rest := cs[1..];
      ChunksAt(rest, k - 1);
      assert rest[..k - 1] == cs[..k][1..];
      assert rest[k - 1] == cs[k];
      assert rest[k..] == cs[k + 1..];
      assert Chunks(cs[..k]) == head + Chunks(cs[..k][1..]);
    }
  }

  /** The document text around the `k`-th pair. */
  lemma AroundPair(cs: seq<StoredCookie>, k: nat)
    requires k < |cs|
    ensures "; " + Render(cs) == Chunks(cs[..k]) + (Separator(cs[k].name) + (cs[k].value + Chunks(cs[k + 1..])))
  {
    ChunksAt(cs, k);
    RenderAsChunks(cs);
  }

  /** A separator, which starts with ';', cannot start inside a value that holds no ';'. */
  lemma NoSeparatorInValue(v: string, rest: string, name: string)
    requires ';' !in v
    ensures forall j: nat | j < |v| :: !OccursAt(v + rest, Separator(name), j)
  {
    var sep, s := Separator(name), v + rest;
    forall j: nat | j < |v| ensures !OccursAt(s, sep, j) {
      assert s[j] == v[j] != ';';
      if j + |sep| <= |s| {
        assert s[j..j + |sep|][0] == s[j] != sep[0];
      }
    }
  }

  /** A value followed by pairs none of which is called `name` holds no separator of `name`. */
  lemma NoSeparatorAfter(v: string, post: seq<StoredCookie>, name: string)
    requires ';' !in v && AllWellFormed(post) && '=' !in name
    requires forall j | 0 <= j < |post| :: post[j].name != name
    ensures !Includes(v + Chunks(post), Separator(name))
  {
    NoSeparator(post, name);
    NoSeparatorInValue(v, Chunks(post), name);
    NotIncludedAfter(v, Chunks(post), Separator(name));
  }

  /** Split at the only occurrence of `sep`, found right after `a`. */
  lemma SplitAround(a: string, sep: string, after: string)
    requires |sep| > 0
    requires forall j: nat | j < |a| :: !OccursAt(a + (sep + after), sep, j)
    requires !Includes(after, sep)
    ensures Split(a + (sep + after), sep) == [a, after]
  {
    var s := a + (sep + after);
    assert s[..|a|] == a && s[|a|..|a| + |sep|] == sep && s[|a| + |sep|..] == after;
    SplitAtSingleOccurrence(s, sep, |a|);
  }

  /** `getCookie` finds the value of a pair whose name no other pair shares. */
  lemma GetCookieFinds(cs: seq<StoredCookie>, k: nat, name: string)
    requires AllWellFormed(cs) && '=' !in name
    requires k < |cs| && cs[k].name == name
    requires forall j | 0 <= j < |cs| && j != k :: cs[j].name != name
    ensures GetCookie(Render(cs), name) == Some(cs[k].value)
  {
    var pre, c, post := cs[..k], cs[k], cs[k + 1..];
    var sep := Separator(name);
    var a, after := Chunks(pre), c.value + Chunks(post);
    AroundPair(cs, k);
    NoSeparatorWithin(pre, name, sep + after);
    NoSeparatorAfter(c.value, post, name);
    SplitAround(a, sep, after);
    FirstPiece(c.value, Chunks(post));
  }

  /** `getCookie` finds nothing when no pair has the name. */
  lemma GetCookieAbsent(cs: seq<StoredCookie>, name: string)
    requires AllWellFormed(cs) && '=' !in name
    requires forall k | 0 <= k < |cs| :: cs[k].name != name
    ensures GetCookie(Render(cs), name) == None
  {
    var sep := Separator(name);
    if cs == [] {
      assert forall j: nat | j <= 2 :: !OccursAt("; ", sep, j);
    } else {
      RenderAsChunks(cs);
      NoSeparator(cs, name);
    }
  }

  /**
   * Reading `document.cookie` with `getCookie` is looking the name up among
   * the cookies a script may see.
   */
  lemma GetCookieReadsJar(jar: seq<StoredCookie>, name: string)
    requires AllWellFormed(jar) && UniqueNames(jar) && '=' !in name
    ensures GetCookie(DocumentCookie(jar), name) == CookieValue(Visible(jar), name)
  {
    var cs := Visible(jar);
    VisibleKeeps(jar, name);
    if k :| 0 <= k < |cs| && cs[k].name == name {
      GetCookieFinds(cs, k, name);
    } else {
      GetCookieAbsent(cs, name);
    }
  }

  // ------------------------------------------------------ request interceptor

  /** A request as axios hands it to the interceptors. */
  class RequestConfig {
    const url: Option<string>
    /** `config.method`. */
    const verb: Option<string>
    var headers: map<string, string>
    /** `_retry`: this request has already been replayed after a renewal. */
    var retry: bool

    constructor (url: Option<string>, verb: Option<string>, headers: map<string, string>)
      ensures this.url == url && this.verb == verb && this.headers == headers && !retry
    {
      this.url := url;
      this.verb := verb;
      this.headers := headers;
      this.retry := false;
    }
  }

  /** `config.method?.toLowerCase()` is post, put or delete. */
  predicate Mutating(verb: Option<string>)
  {
    verb.Some? && ToLower(verb.value) in {"post", "put", "delete"}
  }

  /** The `X-CSRF-Token` value the request interceptor attaches, if any. */
  function CsrfHeader(verb: Option<string>, documentCookie: string): (r: Option<string>)
    ensures r.Some? <==> Mutating(verb) && Truthy(GetCookie(documentCookie, CsrfCookieName))
    ensures r.Some? ==> r == GetCookie(documentCookie, CsrfCookieName)
  {
    if Mutating(verb) then
      var token := GetCookie(documentCookie, CsrfCookieName);
      if Truthy(token) then token else None
    else None
  }

  /** The request interceptor: attach the CSRF cookie's value to a mutating request. */
  method OnRequest(config: RequestConfig, documentCookie: string) returns (r: RequestConfig)
    modifies config
    ensures r == config && config.retry == old(config.retry)
    ensures config.headers == match CsrfHeader(config.verb, documentCookie)
                              case Some(token) => old(config.headers)[CsrfHeaderName := token]
                              case None => old(config.headers)
  {
    var verb := if config.verb.Some? then Some(ToLower(config.verb.value)) else None;
    if verb == Some("post") || verb == Some("put") || verb == Some("delete") {
      var csrfToken := GetCookie(documentCookie, CsrfCookieName);
      if Truthy(csrfToken) {
        config.headers := config.headers[CsrfHeaderName := csrfToken.value];
      }
    }
    return config;
  }

  /** The header carries the token a script can read from the jar, on mutating requests only. */
  lemma CsrfHeaderFromJar(jar: seq<StoredCookie>, verb: Option<string>)
    requires AllWellFormed(jar) && UniqueNames(jar)
    ensures CsrfHeader(verb, DocumentCookie(jar)) ==
            var token := CookieValue(Visible(jar), CsrfCookieName);
            if Mutating(verb) && Truthy(token) then token else None
  {
    GetCookieReadsJar(jar, CsrfCookieName);
  }

  // ----------------------------------------------------- response interceptor

  datatype ErrorResponse = ErrorResponse(status: int, code: Option<string>)

  /** An `AxiosError`: the failed request's config, and the response when there was one. */
  datatype Failure = Failure(config: Option<RequestConfig>, response: Option<ErrorResponse>)

  /** The two credentials the interceptor renews. */
  datatype Kind = Auth | Csrf

  function Other(k: Kind): Kind
  {
    if k == Auth then Csrf else Auth
  }

  /** Where a failure goes: rethrown as is, or into the renewal of one credential. */
  datatype Path = Rethrow | Renewal(kind: Kind)

  /** A 403 whose code starts with `CSRF_`. */
  predicate CsrfRejection(r: Option<ErrorResponse>)
  {
    r.Some? && r.value.status == 403 && r.value.code.Some? && StartsWith(r.value.code.value, CsrfCodePrefix)
  }

  function ConfigOf(f: Failure): set<RequestConfig>
  {
    if f.config.Some? then {f.config.value} else {}
  }

  /** The branch the response interceptor takes for a failure. */
  function Route(f: Failure): (p: Path)
    reads ConfigOf(f)
    ensures p.Renewal? ==> f.config.Some?
    ensures p == Renewal(Csrf) <==> f.config.Some? && CsrfRejection(f.response)
    ensures p == Renewal(Auth) <==>
              && f.config.Some? && !CsrfRejection(f.response)
              && f.response.Some? && f.response.value.status == 401 && !f.config.value.retry
              && (f.config.value.url.None? || !Includes(f.config.value.url.value, RefreshPath))
  {
    match f.config
    case None => Rethrow
    case Some(request) =>
      if CsrfRejection(f.response) then Renewal(Csrf)
      else if f.response.None? || f.response.value.status != 401 || request.retry
              || (request.url.Some? && Includes(request.url.value, RefreshPath)) then Rethrow
      else Renewal(Auth)
  }

  /** A 401 on a request that was not replayed yet and is not a renewal call starts or joins the session renewal. */
  lemma UnauthorizedRenews(f: Failure)
    requires f.config.Some? && !f.config.value.retry && f.response.Some? && f.response.value.status == 401
    requires f.config.value.url.None? || !Includes(f.config.value.url.value, RefreshPath)
    ensures Route(f) == Renewal(Auth)
  {
  }

  /**
   * A failed renewal call never starts a session renewal: both renewal paths
   * contain the session renewal path, so their 401s are rethrown.
   */
  lemma RenewalCallsAreNotRenewed(f: Failure)
    requires f.config.Some? && f.config.value.url in {Some(RefreshPath), Some(RefreshCsrfPath)}
    ensures Route(f) != Renewal(Auth)
  {
    assert OccursAt(RefreshCsrfPath, RefreshPath, 0) by {
      assert RefreshCsrfPath[..|RefreshPath|] == RefreshPath;
    }
    assert OccursAt(RefreshPath, RefreshPath, 0) by {
      assert RefreshPath[..|RefreshPath|] == RefreshPath;
    }
  }

  /** What one run of the response interceptor's error handler does. */
  datatype Action =
    | Throw(error: Failure)
      /** suspended in the queue of that credential */
    | Wait(kind: Kind)
      /** issued the renewal call of that credential and awaits it */
    | Renew(kind: Kind)
      /** `return api(request)` */
    | Replay(request: RequestConfig)

  /** What a queued request's callback does when the queue is processed. */
  datatype Settlement = Resolved(request: RequestConfig) | Rejected(request: RequestConfig, error: Failure)

  /** `if (error) reject(error) else resolve()` for one queued request. */
  function SettleOne(request: RequestConfig, error: Option<Failure>): (s: Settlement)
    ensures s.request == request
  {
    if error.Some? then Rejected(request, error.value) else Resolved(request)
  }

  /** The callbacks `processQueue(queue, error)` invokes, in queue order. */
  function Settle(queue: seq<RequestConfig>, error: Option<Failure>): (r: seq<Settlement>)
    ensures |r| == |queue|
  {
    if queue == [] then []
    else Settle(queue[..|queue| - 1], error) + [SettleOne(queue[|queue| - 1], error)]
  }

  /** The requests a log of settlements settled, in order. */
  function Requests(log: seq<Settlement>): (r: seq<RequestConfig>)
    ensures |r| == |log|
  {
    if log == [] then [] else Requests(log[..|log| - 1]) + [log[|log| - 1].request]
  }

  lemma {:induction false} RequestsAppend(a: seq<Settlement>, b: seq<Settlement>)
    ensures Requests(a + b) == Requests(a) + Requests(b)
    decreases |b|
  {
    if b == [] {
      assert a + b == a;
    } else {
      var b' := b[..|b| - 1];
      assert (a + b)[..|a + b| - 1] == a + b';
      RequestsAppend(a, b');
    }
  }

  /** Processing a queue settles every request in it exactly once, in queue order. */
  lemma {:induction false} SettleCoversQueue(queue: seq<RequestConfig>, error: Option<Failure>)
    ensures Requests(Settle(queue, error)) == queue
    ensures forall k | 0 <= k < |queue| :: Settle(queue, error)[k] == SettleOne(queue[k], error)
  {
    if queue != [] {
      var q' := queue[..|queue| - 1];
      SettleCoversQueue(q', error);
      var r := Settle(queue, error);
      assert r[..|r| - 1] == Settle(q', error);
      assert queue == q' + [queue[|queue| - 1]];
    }
  }

  /** Appending the settlements of a queue to a log appends that queue to the log's requests. */
  lemma SettledInOrder(log: seq<Settlement>, queue: seq<RequestConfig>, error: Option<Failure>)
    ensures Requests(log + Settle(queue, error)) == Requests(log) + queue
  {
    RequestsAppend(log, Settle(queue, error));
    SettleCoversQueue(queue, error);
  }

  /**
   * One credential's single-flight guard: the `isRefreshing` flag and queue
   * of the source, the callbacks invoked so far, and, as ghost state, who
   * waited, who awaits the renewal call, and how many calls were issued and
   * have settled.
   */
  class SingleFlight {
    var inFlight: bool
    var queue: seq<RequestConfig>
    var settled: seq<Settlement>
    ghost var waiters: seq<RequestConfig>
    ghost var owner: Option<RequestConfig>
    ghost var calls: nat
    ghost var done: nat

    /**
     * The queue only fills while a renewal is in flight; at most one renewal
     * call is outstanding; every request that ever waited was settled once,
     * in arrival order, or is still queued.
     */
    ghost predicate Valid()
      reads this
    {
      && (inFlight <==> owner.Some?)
      && (!inFlight ==> queue == [])
      && calls == done + (if inFlight then 1 else 0)
      && waiters == Requests(settled) + queue
    }

    constructor ()
      ensures Valid() && !inFlight && settled == [] && waiters == [] && calls == 0
    {
      inFlight := false;
      queue := [];
      settled := [];
      waiters := [];
      owner := None;
      calls := 0;
      done := 0;
    }

    /** `flag = true` and the renewal call, on behalf of `request`. */
    method Begin(request: RequestConfig)
      requires Valid() && !inFlight
      modifies this
      ensures Valid() && inFlight && owner == Some(request)
      ensures calls == old(calls) + 1 && done == old(done)
      ensures queue == [] && settled == old(settled) && waiters == old(waiters)
    {
      inFlight := true;
      owner := Some(request);
      calls := calls + 1;
    }

    /** `queue.push({ resolve, reject })`. */
    method Enqueue(request: RequestConfig)
      requires Valid() && inFlight
      modifies this
      ensures Valid() && inFlight && owner == old(owner)
      ensures queue == old(queue) + [request] && waiters == old(waiters) + [request]
      ensures settled == old(settled) && calls == old(calls) && done == old(done)
    {
      queue := queue + [request];
      waiters := waiters + [request];
    }

    /** `processQueue(queue, error)`: settle every queued request, then empty the queue. */
    method ProcessQueue(error: Option<Failure>)
      requires Valid()
      modifies this
      ensures Valid() && queue == []
      ensures settled == old(settled) + Settle(old(queue), error)
      ensures inFlight == old(inFlight) && owner == old(owner) && waiters == old(waiters)
      ensures calls == old(calls) && done == old(done)
    {
      var q := queue;
      var log := settled;
      for i := 0 to |q|
        invariant log == settled + Settle(q[..i], error)
      {
        assert q[..i + 1][..i] == q[..i];
        log := log + [SettleOne(q[i], error)];
      }
      assert q[..|q|] == q;
      SettledInOrder(settled, q, error);
      settled := log;
      queue := [];
    }

    /** The renewal call settled: `finally { flag = false }`. */
    method End()
      requires Valid() && inFlight && queue == []
      modifies this
      ensures Valid() && !inFlight && owner == None
      ensures calls == old(calls) && done == old(done) + 1
      ensures queue == [] && settled == old(settled) && waiters == old(waiters)
    {
      inFlight := false;
      owner := None;
      done := done + 1;
    }
  }

  /** The response interceptor's state: one guard per credential. */
  class Interceptor {
    const refresh: SingleFlight
    const csrf: SingleFlight

    ghost predicate Valid()
      reads this, refresh, csrf
    {
      refresh != csrf && refresh.Valid() && csrf.Valid()
    }

    function Flight(k: Kind): SingleFlight
      reads this
    {
      if k == Auth then refresh else csrf
    }

    constructor ()
      ensures Valid() && fresh(refresh) && fresh(csrf)
      ensures !refresh.inFlight && refresh.settled == [] && refresh.calls == 0
      ensures !csrf.inFlight && csrf.settled == [] && csrf.calls == 0
    {
      refresh := new SingleFlight();
      csrf := new SingleFlight();
    }

    /**
     * The error handler up to its first `await`: rethrow, wait behind the
     * renewal in flight, or mark the request as replayed and start the renewal.
     */
    method OnFailure(f: Failure) returns (act: Action)
      requires Valid()
      modifies refresh, csrf, ConfigOf(f)`retry
      ensures Valid()
      ensures f.config.Some? ==> f.config.value.headers == old(f.config.value.headers)
      ensures old(Route(f)) == Rethrow ==> act == Throw(f) && unchanged(refresh, csrf) && unchanged(ConfigOf(f))
      ensures old(Route(f)).Renewal? ==>
                var k := old(Route(f)).kind;
                var fl := Flight(k);
                var request := f.config.value;
                && unchanged(Flight(Other(k)))
                && fl.inFlight
                && fl.settled == old(fl.settled)
                && fl.done == old(fl.done)
                && (old(fl.inFlight) ==>
                      && act == Wait(k)
                      && fl.queue == old(fl.queue) + [request]
                      && fl.waiters == old(fl.waiters) + [request]
                      && fl.owner == old(fl.owner)
                      && fl.calls == old(fl.calls)
                      && request.retry == old(request.retry))
                && (!old(fl.inFlight) ==>
                      && act == Renew(k)
                      && fl.queue == []
                      && fl.waiters == old(fl.waiters)
                      && fl.owner == Some(request)
                      && fl.calls == old(fl.calls) + 1
                      && request.retry)
    {
      var p := Route(f);
      match p
      case Rethrow =>
        act := Throw(f);
      case Renewal(k) =>
        var fl := Flight(k);
        var request := f.config.value;
        if fl.inFlight {
          fl.Enqueue(request);
          act := Wait(k);
        } else {
          request.retry := true;
          fl.Begin(request);
          act := Renew(k);
        }
    }

    /**
     * The renewal call of `k`, awaited by the handler of `original`, settled
     * with `outcome` (`None` on success): settle the queue the same way, lower
     * the flag, and replay `original` or throw the renewal's error.
     */
    method OnRenewalSettled(k: Kind, original: RequestConfig, outcome: Option<Failure>) returns (act: Action)
      requires Valid() && Flight(k).owner == Some(original)
      modifies Flight(k)
      ensures Valid()
      ensures unchanged(Flight(Other(k)))
      ensures !Flight(k).inFlight && Flight(k).queue == []
      ensures Flight(k).settled == old(Flight(k).settled) + Settle(old(Flight(k).queue), outcome)
      ensures Flight(k).waiters == old(Flight(k).waiters)
      ensures Flight(k).calls == old(Flight(k).calls) && Flight(k).done == old(Flight(k).done) + 1
      ensures act == if outcome.None? then Replay(original) else Throw(outcome.value)
    {
      var fl := Flight(k);
      fl.ProcessQueue(outcome);
      fl.End();
      act := if outcome.None? then Replay(original) else Throw(outcome.value);
    }
  }

  /** The configs of failures that all have one. */
  function Configs(fs: seq<Failure>): (r: seq<RequestConfig>)
    requires forall i | 0 <= i < |fs| :: fs[i].config.Some?
    ensures |r| == |fs| && forall i | 0 <= i < |fs| :: r[i] == fs[i].config.value
  {
    seq(|fs|, i requires 0 <= i < |fs| => fs[i].config.value)
  }

  function AllConfigs(fs: seq<Failure>): set<RequestConfig>
  {
    set i | 0 <= i < |fs| && fs[i].config.Some? :: fs[i].config.value
  }

  /**
   * Requests that fail for the same credential while none of its renewals is
   * in flight: the first starts the one renewal call, the others queue behind
   * it; when it settles, every queued request is resolved (and replays) or
   * rejected with the renewal's error, once each, in arrival order, and the
   * first replays or throws that error. Of the requests, only `_retry` may
   * change: their headers and every other field are framed out.
   */
  method Burst(ic: Interceptor, k: Kind, fs: seq<Failure>, outcome: Option<Failure>)
      returns (acts: seq<Action>, resumed: Action)
    requires ic.Valid() && !ic.Flight(k).inFlight && |fs| >= 1
    requires forall i | 0 <= i < |fs| :: fs[i].config.Some? && Route(fs[i]) == Renewal(k)
    requires forall i, j | 0 <= i < j < |fs| :: fs[i].config.value != fs[j].config.value
    modifies ic.refresh, ic.csrf, AllConfigs(fs)`retry
    ensures ic.Valid() && !ic.Flight(k).inFlight && unchanged(ic.Flight(Other(k)))
    ensures |acts| == |fs| && acts[0] == Renew(k) && forall i | 1 <= i < |fs| :: acts[i] == Wait(k)
    ensures ic.Flight(k).calls == old(ic.Flight(k).calls) + 1
    ensures ic.Flight(k).settled == old(ic.Flight(k).settled) + Settle(Configs(fs[1..]), outcome)
    ensures resumed == if outcome.None? then Replay(fs[0].config.value) else Throw(outcome.value)
  {
    var fl := ic.Flight(k);
    var first := ic.OnFailure(fs[0]);
    acts := [first];
    for i := 1 to |fs|
      invariant ic.Valid() && unchanged(ic.Flight(Other(k)))
      invariant fl.inFlight && fl.owner == Some(fs[0].config.value)
      invariant fl.calls == old(fl.calls) + 1 && fl.settled == old(fl.settled)
      invariant fl.queue == Configs(fs[1..i])
      invariant |acts| == i && acts[0] == Renew(k) && forall j | 1 <= j < i :: acts[j] == Wait(k)
      invariant forall j | i <= j < |fs| :: unchanged(fs[j].config.value)
    {
      assert Route(fs[i]) == old(Route(fs[i])) == Renewal(k);
      var act := ic.OnFailure(fs[i]);
      assert Configs(fs[1..i + 1]) == Configs(fs[1..i]) + [fs[i].config.value];
      acts := acts + [act];
    }
    assert fs[1..|fs|] == fs[1..];
    resumed := ic.OnRenewalSettled(k, fs[0].config.value, outcome);
  }
}
