/**
 Redirect chains of a session, with `trust_env` off and no hooks: how many requests are sent, and
 what becomes of method, body, credentials and fragment on the way, whatever the servers answer.
 */
module Redirects {
  import opened Outcomes

  /** A parsed URL; `rest` is everything that is not named. */
  datatype Url = Url(scheme: string, hostname: string, port: Option<nat>, fragment: string, rest: string)

  /** `_body_position`: not a file, a recorded offset that can be sought to or not, or a failed `tell()`. */
  datatype BodyPosition = Unset | Offset(seekable: bool) | Untold

  /** A prepared request; header names are in lower case. */
  datatype Request<B> = Request(verb: string, url: Url, headers: map<string, string>, body: Option<B>,
                                position: BodyPosition)
  datatype Response = Response(status: nat, location: Option<string>)

  datatype RedirectError = TooManyRedirects | UnrewindableBody | InvalidUrl | SendFailed

  /**
   The world outside: what is answered to the i-th request (None: the send raises), the fragment in a
   location, the quoted URL a location means when it came from a URL and a fragment is attached to it,
   and the cookie and proxy headers of a request.
   */
  datatype World<!B> = World(
    serve: (nat, Request<B>) -> Option<Response>,
    fragmentOf: string -> string,
    locate: (Url, string, string) -> Option<Url>,
    cookie: (nat, Url) -> Option<string>,
    proxyAuthorization: (nat, Url) -> Option<string>)

  // ---------- credentials ----------

  function DefaultPort(scheme: string): Option<nat> {
    if scheme == "http" then Some(80) else if scheme == "https" then Some(443) else None
  }

  /** `should_strip_auth`. */
  predicate ShouldStripAuth(old_: Url, new_: Url) {
    if old_.hostname != new_.hostname then true
    else if && old_.scheme == "http" && old_.port in {Some(80), None}
            && new_.scheme == "https" && new_.port in {Some(443), None} then false
    else
      var changedPort, changedScheme := old_.port != new_.port, old_.scheme != new_.scheme;
      var defaultPort := {DefaultPort(old_.scheme), None};
      if !changedScheme && old_.port in defaultPort && new_.port in defaultPort then false
      else changedPort || changedScheme
  }

  function EffectivePort(u: Url): Option<nat> {
    if u.port.Some? then u.port
    else if u.scheme == "http" then Some(80)
    else if u.scheme == "https" then Some(443)
    else None
  }

  predicate SameOrigin(a: Url, b: Url) {
    a.hostname == b.hostname && a.scheme == b.scheme && EffectivePort(a) == EffectivePort(b)
  }

  /** From plain HTTP to HTTPS on the same host, both on their standard ports. */
  predicate Upgrades(a: Url, b: Url) {
    && a.hostname == b.hostname
    && a.scheme == "http" && EffectivePort(a) == Some(80)
    && b.scheme == "https" && EffectivePort(b) == Some(443)
  }

  /** Credentials are kept exactly when the origin is the same or is upgraded to standard HTTPS. */
  lemma KeepsAuthExactly(a: Url, b: Url)
    ensures !ShouldStripAuth(a, b) <==> SameOrigin(a, b) || Upgrades(a, b)
  {
    assert "http" != "https" by {
      assert |"http"| != |"https"|;
    }
  }

  // ---------- one hop ----------

  /** `rebuild_method`. */
  function RebuildMethod(verb: string, status: nat): string {
    var m1 := if status == 303 && verb != "HEAD" then "GET" else verb;
    var m2 := if status == 302 && m1 != "HEAD" then "GET" else m1;
    if status == 301 && m2 == "POST" then "GET" else m2
  }

  predicate KeepsBody(status: nat) {
    status == 307 || status == 308
  }

  const PURGED: set<string> := {"content-length", "content-type", "transfer-encoding"}
  /** The headers a hop may change. */
  const REBUILT: set<string> := PURGED + {"cookie", "proxy-authorization", "authorization"}

  function With(headers: map<string, string>, name: string, value: Option<string>): map<string, string> {
    if value.Some? then headers[name := value.value] else headers - {name}
  }

  /** The fragment attached to a location, as it was received: quoting it in a URL does not change it here. */
  function Fragment<B>(w: World<B>, previous: string, location: string): string {
    if w.fragmentOf(location) == "" then previous else w.fragmentOf(location)
  }

  /** `get_redirect_target`; the loop also ends on an empty location. */
  function Target(r: Response): Option<string> {
    if r.location.Some? && r.location.value != "" && r.status in {301, 302, 303, 307, 308} then r.location else None
  }

  /** `get_cookie_header` and `rebuild_proxies`: both headers are dropped and may be set anew. */
  function RebuildHeaders<B>(w: World<B>, i: nat, from: Url, to: Url, status: nat, headers: map<string, string>):
    map<string, string>
  {
    var purged := if KeepsBody(status) then headers else headers - PURGED;
    var cookies := With(purged, "cookie", w.cookie(i, to));
    var proxied := With(cookies, "proxy-authorization", w.proxyAuthorization(i, to));
    if "authorization" in proxied && ShouldStripAuth(from, to) then proxied - {"authorization"} else proxied
  }

  predicate CanRewind(r: Request) {
    || r.position.Unset?
    || ("content-length" !in r.headers && "transfer-encoding" !in r.headers)
    || (r.body.Some? && r.position == Offset(true))
  }

  /** The i-th request of the chain, from the one before it, its response's status and target, and a fragment. */
  function NextRequest<B>(w: World<B>, i: nat, req: Request<B>, status: nat, target: string, fragment: string):
    Result<Request<B>, RedirectError>
  {
    var located := w.locate(req.url, target, fragment);
    if located.None? then Err(InvalidUrl)
    else
      var url := located.value;
      var next := Request(RebuildMethod(req.verb, status), url, RebuildHeaders(w, i, req.url, url, status, req.headers),
                          if KeepsBody(status) then req.body else None, req.position);
      if CanRewind(next) then Ok(next) else Err(UnrewindableBody)
  }

  // ---------- chains ----------

  /** A request with its response, and the fragment that is carried on. */
  datatype Exchange<B> = Exchange(request: Request<B>, response: Option<Response>, fragment: string)

  /** The exchanges of a chain that has come this far, and how it ends. */
  function Chain<B>(max: nat, w: World<B>, trace: seq<Exchange<B>>):
    (r: (seq<Exchange<B>>, Option<RedirectError>))
    requires trace != [] && |trace| - 1 <= max
    decreases max - (|trace| - 1)
  {
    var last := trace[|trace| - 1];
    if last.response.None? then (trace, Some(SendFailed))
    else if Target(last.response.value).None? then (trace, None)
    else if |trace| - 1 >= max then (trace, Some(TooManyRedirects))
    else
      var target := Target(last.response.value).value;
      var fragment := Fragment(w, last.fragment, target);
      match NextRequest(w, |trace|, last.request, last.response.value.status, target, fragment)
      case Err(e) => (trace, Some(e))
      case Ok(request) =>
        Chain(max, w, trace + [Exchange(request, w.serve(|trace|, request), fragment)])
  }

  /**
   `resolve_redirects`: from the response to the first request, follow redirects. The exchanges
   include the first one.
   */
  method ResolveRedirects<B>(max: nat, w: World<B>, first: Request<B>, response: Response)
    returns (trace: seq<Exchange<B>>, error: Option<RedirectError>)
    ensures (trace, error) == Chain(max, w, [Exchange(first, Some(response), first.url.fragment)])
  {
    var req, resp := first, response;
    var hist: seq<Response> := [];
    trace := [Exchange(first, Some(response), first.url.fragment)];
    var url, previousFragment := Target(resp), first.url.fragment;
    while url.Some?
      invariant |trace| == |hist| + 1 && |hist| <= max
      invariant trace[|trace| - 1] == Exchange(req, Some(resp), previousFragment) && url == Target(resp)
      invariant Chain(max, w, trace) == Chain(max, w, [Exchange(first, Some(response), first.url.fragment)])
      decreases max - |hist|
    {
      var verb, headers, body := req.verb, req.headers, req.body;
      hist := hist + [resp];
      if |hist[1..]| >= max {
        return trace, Some(TooManyRedirects);
      }
      var fragment := w.fragmentOf(url.value);
      if fragment == "" && previousFragment != "" {
        fragment := previousFragment;
      } else if fragment != "" {
        previousFragment := fragment;
      }
      var located := w.locate(req.url, url.value, fragment);
      if located.None? {
        return trace, Some(InvalidUrl);
      }
      var parsed := located.value;

      // rebuild_method
      if resp.status == 303 && verb != "HEAD" {
        verb := "GET";
      }
      if resp.status == 302 && verb != "HEAD" {
        verb := "GET";
      }
      if resp.status == 301 && verb == "POST" {
        verb := "GET";
      }
      if resp.status !in {307, 308} {
        headers := headers - PURGED;
        body := None;
      }
      headers := With(headers, "cookie", w.cookie(|trace|, parsed));
      headers := With(headers, "proxy-authorization", w.proxyAuthorization(|trace|, parsed));
      // rebuild_auth
      if "authorization" in headers && ShouldStripAuth(req.url, parsed) {
        headers := headers - {"authorization"};
      }
      var prepared := Request(verb, parsed, headers, body, req.position);
      var rewindable := req.position != Unset && ("content-length" in headers || "transfer-encoding" in headers);
      if rewindable && !(body.Some? && req.position == Offset(true)) {
        return trace, Some(UnrewindableBody);
      }
      req := prepared;
      var answer := w.serve(|trace|, req);
      trace := trace + [Exchange(req, answer, previousFragment)];
      if answer.None? {
        return trace, Some(SendFailed);
      }
      resp := answer.value;
      url := Target(resp);
    }
    error := None;
  }

  // ---------- what every chain keeps ----------

  ghost predicate LinkedAt<B>(w: World<B>, trace: seq<Exchange<B>>, i: nat)
    requires 0 < i < |trace|
  {
    var before := trace[i - 1];
    && before.response.Some? && Target(before.response.value).Some?
    && trace[i].fragment == Fragment(w, before.fragment, Target(before.response.value).value)
    && NextRequest(w, i, before.request, before.response.value.status, Target(before.response.value).value,
                   trace[i].fragment)
       == Ok(trace[i].request)
    && trace[i].response == w.serve(i, trace[i].request)
  }

  /** Each exchange follows from the one before it. */
  ghost predicate Linked<B>(w: World<B>, trace: seq<Exchange<B>>) {
    trace != [] && forall i {:trigger LinkedAt(w, trace, i)} :: 0 < i < |trace| ==> LinkedAt(w, trace, i)
  }

  /**
   At most `max` follow-up requests are sent. The chain ends without an error exactly when its last
   response asks for no redirect, and with TooManyRedirects exactly when the last response of `max`
   follow-ups still asks for one.
   */
  lemma {:induction false} ChainIsBounded<B>(max: nat, w: World<B>, trace: seq<Exchange<B>>)
    requires Linked(w, trace) && |trace| - 1 <= max
    ensures var (all, error) := Chain(max, w, trace);
            && Linked(w, all) && trace <= all && |all| - 1 <= max
            && (error == None <==> all[|all| - 1].response.Some? && Target(all[|all| - 1].response.value).None?)
            && (error == Some(TooManyRedirects) <==>
                  |all| - 1 == max && all[|all| - 1].response.Some? && Target(all[|all| - 1].response.value).Some?)
    decreases max - |trace|
  {
    var last := trace[|trace| - 1];
    if last.response.Some? && Target(last.response.value).Some? && |trace| - 1 < max {
      var target := Target(last.response.value).value;
      var fragment := Fragment(w, last.fragment, target);
      var next := NextRequest(w, |trace|, last.request, last.response.value.status, target, fragment);
      if next.Ok? {
        var longer := trace + [Exchange(next.value, w.serve(|trace|, next.value), fragment)];
        forall i | 0 < i < |longer|
          ensures LinkedAt(w, longer, i)
        {
          if i < |trace| {
            assert LinkedAt(w, trace, i);
          }
        }
        ChainIsBounded(max, w, longer);
      }
    }
  }

  function Status<B>(e: Exchange<B>): nat {
    if e.response.Some? then e.response.value.status else 0
  }

  /** The responses that turn a method into GET; HEAD is never turned. */
  predicate TurnsToGet(verb: string, status: nat) {
    verb != "HEAD" && (status == 302 || status == 303 || (status == 301 && verb == "POST"))
  }

  ghost predicate TurnedBefore<B>(trace: seq<Exchange<B>>, i: nat)
    requires 0 < |trace| && i <= |trace|
  {
    exists j :: 0 <= j < i && TurnsToGet(trace[0].request.verb, Status(trace[j]))
  }

  ghost predicate BodyKeptUntil<B>(trace: seq<Exchange<B>>, i: nat)
    requires i <= |trace|
  {
    forall j :: 0 <= j < i ==> Status(trace[j]) == 307 || Status(trace[j]) == 308
  }

  ghost predicate OriginKeptUntil<B>(trace: seq<Exchange<B>>, i: nat)
    requires i < |trace|
  {
    forall j :: 0 < j <= i ==> !ShouldStripAuth(trace[j - 1].request.url, trace[j].request.url)
  }

  /**
   The method changes at most once, and then to GET: HEAD stays HEAD, GET stays GET, and another
   method is GET exactly after the first response that turns it.
   */
  lemma {:induction false} VerbOnChain<B>(w: World<B>, trace: seq<Exchange<B>>, i: nat)
    requires Linked(w, trace) && i < |trace|
    ensures trace[i].request.verb == if TurnedBefore(trace, i) then "GET" else trace[0].request.verb
    ensures trace[0].request.verb in {"GET", "HEAD"} ==> trace[i].request.verb == trace[0].request.verb
  {
    assert !TurnsToGet("HEAD", 0);
    if i > 0 {
      VerbOnChain(w, trace, i - 1);
      assert LinkedAt(w, trace, i);
      assert TurnedBefore(trace, i) <==>
             TurnedBefore(trace, i - 1) || TurnsToGet(trace[0].request.verb, Status(trace[i - 1]));
      assert "GET" != "HEAD" && "POST" != "HEAD" by {
        assert "GET"[0] != "HEAD"[0] && "POST"[0] != "HEAD"[0];
      }
      assert "GET" != "POST" by {
        assert |"GET"| != |"POST"|;
      }
    }
  }

  /**
   The body, and the headers that describe it, are sent exactly until the first response that is
   neither 307 nor 308; once dropped they do not come back.
   */
  lemma {:induction false} BodyOnChain<B>(w: World<B>, trace: seq<Exchange<B>>, i: nat, name: string)
    requires Linked(w, trace) && i < |trace| && name in {"content-length", "content-type", "transfer-encoding"}
    ensures trace[i].request.body == if BodyKeptUntil(trace, i) then trace[0].request.body else None
    ensures name in trace[i].request.headers <==> name in trace[0].request.headers && BodyKeptUntil(trace, i)
  {
    if i > 0 {
      BodyOnChain(w, trace, i - 1, name);
      assert LinkedAt(w, trace, i);
      assert BodyKeptUntil(trace, i) <==> BodyKeptUntil(trace, i - 1) && KeepsBody(Status(trace[i - 1]));
      var from, to := trace[i - 1].request, trace[i].request;
      PurgedOnHop(w, i, from.url, to.url, Status(trace[i - 1]), from.headers, name);
    }
  }

  lemma PurgedOnHop<B>(w: World<B>, i: nat, from: Url, to: Url, status: nat, headers: map<string, string>, name: string)
    requires name in PURGED
    ensures name in RebuildHeaders(w, i, from, to, status, headers) <==> name in headers && KeepsBody(status)
  {
    NamesDiffer(name);
  }

  lemma NamesDiffer(name: string)
    requires name in PURGED
    ensures name != "cookie" && name != "proxy-authorization" && name != "authorization"
  {
    assert |"content-length"| == 14 && |"content-type"| == 12 && |"transfer-encoding"| == 17;
    assert |"cookie"| == 6 && |"proxy-authorization"| == 19 && |"authorization"| == 13;
  }

  /** Authorization is still sent exactly when it was sent first and every hop kept or upgraded the origin. */
  lemma {:induction false} AuthorizationOnChain<B>(w: World<B>, trace: seq<Exchange<B>>, i: nat)
    requires Linked(w, trace) && i < |trace|
    ensures var (first, now) := (trace[0].request, trace[i].request);
            && ("authorization" in now.headers <==> "authorization" in first.headers && OriginKeptUntil(trace, i))
            && ("authorization" in now.headers ==> now.headers["authorization"] == first.headers["authorization"])
  {
    if i > 0 {
      AuthorizationOnChain(w, trace, i - 1);
      assert LinkedAt(w, trace, i);
      assert OriginKeptUntil(trace, i) <==>
             OriginKeptUntil(trace, i - 1) && !ShouldStripAuth(trace[i - 1].request.url, trace[i].request.url);
      AuthorizationDiffers();
    }
  }

  lemma AuthorizationDiffers()
    ensures "authorization" !in PURGED && "authorization" != "cookie" && "authorization" != "proxy-authorization"
  {
    if "authorization" in PURGED {
      NamesDiffer("authorization");
    }
    assert |"authorization"| == 13 && |"cookie"| == 6 && |"proxy-authorization"| == 19;
  }

  /**
   However long the chain, credentials only reach the first host, on the first origin or on its
   standard HTTPS upgrade.
   */
  lemma {:induction false} AuthorizationStaysHome<B>(w: World<B>, trace: seq<Exchange<B>>, i: nat)
    requires Linked(w, trace) && i < |trace| && "authorization" in trace[i].request.headers
    ensures var (first, now) := (trace[0].request.url, trace[i].request.url);
            && (SameOrigin(first, now) || Upgrades(first, now))
            && forall j :: 0 <= j <= i ==> trace[j].request.url.hostname == first.hostname
  {
    AuthorizationOnChain(w, trace, i);
    if i > 0 {
      AuthorizationOnChain(w, trace, i - 1);
      AuthorizationStaysHome(w, trace, i - 1);
      KeepsAuthExactly(trace[i - 1].request.url, trace[i].request.url);
      assert "http" != "https" by {
        assert |"http"| != |"https"|;
      }
    }
  }

  lemma OthersOnHop<B>(w: World<B>, i: nat, from: Url, to: Url, status: nat, headers: map<string, string>, name: string)
    requires name !in REBUILT
    ensures var after := RebuildHeaders(w, i, from, to, status, headers);
            && (name in after <==> name in headers)
            && (name in headers ==> after[name] == headers[name])
  {
  }

  /** All other headers are sent unchanged along the chain. */
  lemma {:induction false} OtherHeadersOnChain<B>(w: World<B>, trace: seq<Exchange<B>>, i: nat, name: string)
    requires Linked(w, trace) && i < |trace|
    requires name !in {"content-length", "content-type", "transfer-encoding", "cookie", "proxy-authorization",
                       "authorization"}
    ensures name in trace[i].request.headers <==> name in trace[0].request.headers
    ensures name in trace[0].request.headers ==> trace[i].request.headers[name] == trace[0].request.headers[name]
  {
    if i > 0 {
      OtherHeadersOnChain(w, trace, i - 1, name);
      assert LinkedAt(w, trace, i);
      var from, to := trace[i - 1].request, trace[i].request;
      OthersOnHop(w, i, from.url, to.url, Status(trace[i - 1]), from.headers, name);
    }
  }

  /** Quoting a URL to which a fragment is attached leaves one there. */
  ghost predicate KeepsFragments<B>(w: World<B>) {
    forall from, location, fragment ::
      fragment != "" && w.locate(from, location, fragment).Some? ==>
        w.locate(from, location, fragment).value.fragment != ""
  }

  /** No location received after exchange `i`, up to exchange `j`, had a fragment of its own. */
  ghost predicate NoFragments<B>(w: World<B>, trace: seq<Exchange<B>>, i: nat, j: nat)
    requires i <= j < |trace|
  {
    forall k :: i <= k < j ==>
      var r := trace[k].response;
      r.Some? && Target(r.value).Some? ==> w.fragmentOf(Target(r.value).value) == ""
  }

  /**
   A fragment, once there, is replaced by others but never lost; it is carried unchanged, however it was
   quoted on the way, as long as no location has its own.
   */
  lemma {:induction false} FragmentOnChain<B>(w: World<B>, trace: seq<Exchange<B>>, i: nat, j: nat)
    requires Linked(w, trace) && i <= j < |trace|
    ensures trace[i].fragment != "" ==> trace[j].fragment != ""
    ensures trace[i].fragment != "" && i < j && KeepsFragments(w) ==> trace[j].request.url.fragment != ""
    ensures NoFragments(w, trace, i, j) ==> trace[j].fragment == trace[i].fragment
    decreases j
  {
    if i < j {
      FragmentOnChain(w, trace, i, j - 1);
      assert LinkedAt(w, trace, j);
    }
  }
}
