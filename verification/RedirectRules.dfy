/**
 The rules of a redirect chain, written out: which responses are followed, to which request, and how a chain
 ends, for every server.
 */
module RedirectRules {
  import opened Outcomes
  import opened Redirects

  /** A response that asks for a redirect. */
  predicate Followed(r: Response) {
    && (r.status == 301 || r.status == 302 || r.status == 303 || r.status == 307 || r.status == 308)
    && r.location.Some? && r.location.value != ""
  }

  lemma TargetIs(r: Response)
    ensures Target(r) == if Followed(r) then r.location else None
  {
  }

  /** The body would have to be sent again, and cannot be read again. */
  predicate CannotResend(req: Request, status: nat) {
    && (status == 307 || status == 308)
    && ("content-length" in req.headers || "transfer-encoding" in req.headers)
    && !req.position.Unset? && !(req.body.Some? && req.position == Offset(true))
  }

  ghost predicate HasHeader(headers: map<string, string>, name: string, value: Option<string>) {
    if value.Some? then name in headers && headers[name] == value.value else name !in headers
  }

  /** The URL to which the response of the last exchange leads. */
  function Leads<B>(w: World<B>, e: Exchange<B>): Option<Url>
    requires e.response.Some? && Followed(e.response.value)
  {
    var location := e.response.value.location.value;
    var own := w.fragmentOf(location);
    w.locate(e.request.url, location, if own == "" then e.fragment else own)
  }

  lemma HeaderNames()
    ensures |"cookie"| == 6 && |"proxy-authorization"| == 19 && |"authorization"| == 13
    ensures |"content-length"| == 14 && |"content-type"| == 12 && |"transfer-encoding"| == 17
  {
  }

  lemma RebuiltHeaders<B>(w: World<B>, i: nat, from: Url, to: Url, status: nat, headers: map<string, string>)
    ensures var after := RebuildHeaders(w, i, from, to, status, headers);
            && HasHeader(after, "cookie", w.cookie(i, to))
            && HasHeader(after, "proxy-authorization", w.proxyAuthorization(i, to))
  {
    HeaderNames();
  }

  lemma Resending<B>(w: World<B>, i: nat, req: Request<B>, to: Url, status: nat)
    ensures var body := if KeepsBody(status) then req.body else None;
            var next := Request(RebuildMethod(req.verb, status), to,
                                RebuildHeaders(w, i, req.url, to, status, req.headers), body, req.position);
            CanRewind(next) <==> !CannotResend(req, status)
  {
    PurgedOnHop(w, i, req.url, to, status, req.headers, "content-length");
    PurgedOnHop(w, i, req.url, to, status, req.headers, "transfer-encoding");
  }

  /** Every request after the first: why it is sent, where to, and with which of the headers that are made anew. */
  lemma NextIs<B>(w: World<B>, trace: seq<Exchange<B>>, i: nat)
    requires Linked(w, trace) && 0 < i < |trace|
    ensures var before, now := trace[i - 1], trace[i].request;
            && before.response.Some? && Followed(before.response.value)
            && Leads(w, before) == Some(now.url)
            && HasHeader(now.headers, "cookie", w.cookie(i, now.url))
            && HasHeader(now.headers, "proxy-authorization", w.proxyAuthorization(i, now.url))
            && now.position == before.request.position
            && trace[i].response == w.serve(i, now)
  {
    assert LinkedAt(w, trace, i);
    var before := trace[i - 1];
    TargetIs(before.response.value);
    var from := before.request;
    RebuiltHeaders(w, i, from.url, trace[i].request.url, before.response.value.status, from.headers);
  }

  /** How a chain ends, from its last exchange. */
  ghost predicate EndsAs<B>(max: nat, w: World<B>, all: seq<Exchange<B>>, error: Option<RedirectError>)
    requires all != []
  {
    var last := all[|all| - 1];
    if last.response.None? then error == Some(SendFailed)
    else if !Followed(last.response.value) then error == None
    else if |all| - 1 >= max then error == Some(TooManyRedirects)
    else if Leads(w, last).None? then error == Some(InvalidUrl)
    else CannotResend(last.request, last.response.value.status) && error == Some(UnrewindableBody)
  }

  /**
   A chain ends without an error exactly when its last response has no location, an empty one, or another status
   than 301, 302, 303, 307 and 308; and with each of its errors exactly when that is what stops it.
   */
  lemma {:induction false} ChainEnds<B>(max: nat, w: World<B>, trace: seq<Exchange<B>>)
    requires trace != [] && |trace| - 1 <= max
    ensures var (all, error) := Chain(max, w, trace);
            trace <= all && EndsAs(max, w, all, error)
    decreases max - |trace|
  {
    var last := trace[|trace| - 1];
    if last.response.Some? {
      TargetIs(last.response.value);
      if Followed(last.response.value) && |trace| - 1 < max {
        var status, target := last.response.value.status, last.response.value.location.value;
        var fragment := Fragment(w, last.fragment, target);
        if Leads(w, last).Some? {
          Resending(w, |trace|, last.request, Leads(w, last).value, status);
          var next := NextRequest(w, |trace|, last.request, status, target, fragment);
          if next.Ok? {
            ChainEnds(max, w, trace + [Exchange(next.value, w.serve(|trace|, next.value), fragment)]);
          }
        }
      }
    }
  }
}
