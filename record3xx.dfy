/** A client that follows HTTP redirects by hand and records every hop.

    The underlying client is told not to follow redirects, so each 3xx
    response comes back as it is. Get issues one GET per iteration, records
    the hop, and stops on a transport error, on a response without a
    Location header (section 7.1.2 of RFC 7231), on a Location that does not
    parse, or when MaxRedirects iterations are used up. A relative Location
    is resolved against the request URL (section 5.2 of RFC 3986); that
    resolution, URL parsing and the network are an oracle (Network). The
    status code is never consulted. */
module Record3xx {
  import opened Common
  import opened Http
  import Text
  import PercentEncoding

  /** New's defaults. */
  const DefaultMaxRedirects := 100
  const DefaultTimeoutSeconds := 30

  /** The errors Get returns. */
  datatype Error =
    | MaxRedirectsExceeded            // ErrMaxRedirectsExceeded
    | RequestError(msg: string)       // http.NewRequest refused the URL
    | TransportError(msg: string)     // the underlying client failed
    | LocationParseError(msg: string) // the Location header did not parse

  /** What %v prints for an error. */
  function Message(e: Error): string {
    match e
    case MaxRedirectsExceeded => "max redirects exceeded"
    case RequestError(m) => m
    case TransportError(m) => m
    case LocationParseError(m) => m
  }

  /** One attempted request: the URL asked for and what came back. */
  datatype Hop = Hop(link: string, response: Option<Response>, error: Option<Error>)

  /** url.Parse's (*URL, error) pair; a URL is kept as its String() form. */
  datatype UrlParse = UrlParse(url: Option<string>, err: Option<string>)

  /** Everything Get cannot see into. */
  datatype Network = Network(
    // url.Parse of a request URL, as http.NewRequest runs it
    parse: string -> UrlParse,
    // the underlying client's Do with redirects not followed; the number
    // says which request of the traversal this is, so the same URL may be
    // answered differently later on
    roundTrip: (nat, Request) -> Exchange,
    // the request URL's Parse of a Location value (reference resolution)
    resolve: (string, string) -> UrlParse)

  /** The configuration of the underlying http.Client. */
  datatype HttpClient = HttpClient(timeoutSeconds: nat, followRedirects: bool)

  datatype LocationError = ErrNoLocation | UrlError(msg: string)

  /** Response.Location's (*URL, error) pair. */
  datatype Location = Location(url: Option<string>, err: Option<LocationError>)

  /** Response.Location: no (or an empty) Location header gives
      ErrNoLocation; otherwise the value is resolved against the URL of the
      request that produced the response. */
  function ResponseLocation(net: Network, base: string, r: Response): (l: Location)
    ensures l.err == Some(ErrNoLocation) <==> HeaderGet(r.header, "Location") == ""
  {
    var lv := HeaderGet(r.header, "Location");
    if lv == "" then Location(None, Some(ErrNoLocation))
    else
      var p := net.resolve(base, lv);
      Location(p.url, if p.err.Some? then Some(UrlError(p.err.value)) else None)
  }

  function GetRequest(u: string, header: Header): Request {
    Request("GET", u, header)
  }

  /** The hop appended for one exchange. */
  function HopOf(u: string, x: Exchange): (hop: Hop)
    ensures hop.link == u
    ensures hop.response.Some? || hop.error.Some?
  {
    match x
    case Failed(partial, e) => Hop(u, partial, Some(TransportError(e)))
    case Received(r) => Hop(u, Some(r), None)
  }

  /** The URL Get moves on to after this hop: only a response without error
      whose Location resolves to a URL continues the traversal. */
  function Next(net: Network, hop: Hop): Option<string> {
    if hop.error.None? && hop.response.Some? then
      var l := ResponseLocation(net, hop.link, hop.response.value);
      if l.err.None? && l.url.Some? then l.url else None
    else None
  }

  /** The error Get returns when it stops right after this hop. */
  function StopError(net: Network, hop: Hop): Option<Error>
    requires hop.response.Some? || hop.error.Some?
  {
    if hop.error.Some? then hop.error
    else
      var l := ResponseLocation(net, hop.link, hop.response.value);
      match l.err
      case Some(UrlError(m)) => Some(LocationParseError(m))
      case _ => None
  }

  datatype Outcome = Outcome(hops: seq<Hop>, response: Option<Response>, error: Option<Error>)

  /** The traversal from iteration i on, at URL u, with hops recorded so far. */
  function Run(net: Network, header: Header, maxRedirects: int, u: string, i: nat, hops: seq<Hop>): (o: Outcome)
    ensures |hops| <= |o.hops| && o.hops[..|hops|] == hops
    ensures o.response.Some? ==> |hops| < |o.hops| && o.response == o.hops[|o.hops| - 1].response
    ensures o.error.None? ==> o.response.Some?
    decreases maxRedirects - i
  {
    if i >= maxRedirects then Outcome(hops, None, Some(MaxRedirectsExceeded))
    else if net.parse(u).err.Some? then Outcome(hops, None, Some(RequestError(net.parse(u).err.value)))
    else
      var hop := HopOf(u, net.roundTrip(i, GetRequest(u, header)));
      match Next(net, hop)
      case Some(v) => Run(net, header, maxRedirects, v, i + 1, hops + [hop])
      case None => Outcome(hops + [hop], hop.response, StopError(net, hop))
  }

  /** What Get(u) leaves in Hops and returns. */
  function Traverse(net: Network, header: Header, maxRedirects: int, u: string): (o: Outcome)
    ensures o.response.Some? ==> o.hops != [] && o.response == o.hops[|o.hops| - 1].response
    ensures o.error.None? ==> o.response.Some?
  {
    Run(net, header, maxRedirects, u, 0, [])
  }

  function Max(a: int, b: int): int {
    if a < b then b else a
  }

  /** prependSchema: add "http://" unless the string already starts with
      "http://" or "https://". */
  function PrependSchema(s: string): (r: string)
    ensures Text.HasPrefix(r, "http://") || Text.HasPrefix(r, "https://")
    ensures r == s <==> Text.HasPrefix(s, "http://") || Text.HasPrefix(s, "https://")
  {
    if Text.HasPrefix(s, "http://") || Text.HasPrefix(s, "https://") then s else "http://" + s
  }

  /** A string without a scheme is put behind "http://", and a second
      application changes nothing. */
  lemma PrependSchemaHasScheme(s: string)
    ensures !(Text.HasPrefix(s, "http://") || Text.HasPrefix(s, "https://")) ==> PrependSchema(s) == "http://" + s
    ensures PrependSchema(PrependSchema(s)) == PrependSchema(s)
  {
  }

  // ---------------------------------------------------------------------
  // Rendering the hops

  /** What DumpHops yields: the text, or the 1-based index of the hop whose
      missing response it dereferences (a run-time panic in Go). */
  datatype Dump = Dumped(text: string) | NilResponse(hop: nat)

  /** %v of a possibly nil error. */
  function ErrorText(e: Option<Error>): string {
    match e
    case None => "<nil>"
    case Some(x) => Message(x)
  }

  /** The link as shown: percent-decoded, or as it is when it does not
      decode. */
  function DisplayLink(link: string): string {
    match PercentEncoding.PathUnescape(link)
    case Ok(t) => t
    case Err(_) => link
  }

  /** "[n] status link err\n" */
  function Line(n: nat, status: string, link: string, err: Option<Error>): string {
    "[" + Text.Format(n, 10) + "] " + status + " " + link + " " + ErrorText(err) + "\n"
  }

  function HopLine(n: nat, hop: Hop): string
    requires hop.response.Some?
  {
    Line(n, hop.response.value.status, DisplayLink(hop.link), hop.error)
  }

  /** DumpHops as written: a hop without a response gets its "NA" line and
      then the status line, which dereferences the missing response. */
  function Render(hops: seq<Hop>): (d: Dump)
    ensures d.NilResponse? ==> 1 <= d.hop <= |hops| && hops[d.hop - 1].response.None?
    decreases |hops|
  {
    if hops == [] then Dumped("")
    else
      match Render(hops[..|hops| - 1])
      case NilResponse(k) => NilResponse(k)
      case Dumped(t) =>
        var hop := hops[|hops| - 1];
        if hop.response.None? then NilResponse(|hops|) else Dumped(t + HopLine(|hops|, hop))
  }

  /** The line intended for a hop: "NA" in place of a missing status. */
  function FixedLine(n: nat, hop: Hop): string {
    if hop.response.None? then Line(n, "NA", DisplayLink(hop.link), hop.error) else HopLine(n, hop)
  }

  /** DumpHops as intended: exactly one line per hop. */
  function RenderFixed(hops: seq<Hop>): (r: string)
    ensures r == "" <==> hops == []
    ensures hops != [] ==> r[|r| - 1] == '\n'
    decreases |hops|
  {
    if hops == [] then "" else RenderFixed(hops[..|hops| - 1]) + FixedLine(|hops|, hops[|hops| - 1])
  }

  /** Once a prefix of the hops panics, so do all the hops. */
  lemma {:induction false} RenderPanicSticks(hops: seq<Hop>, j: nat)
    requires j <= |hops| && Render(hops[..j]).NilResponse?
    ensures Render(hops) == Render(hops[..j])
    decreases |hops|
  {
    if j < |hops| {
      var init := hops[..|hops| - 1];
      assert init[..j] == hops[..j];
      RenderPanicSticks(init, j);
    } else {
      assert hops[..j] == hops;
    }
  }


  // ---------------------------------------------------------------------
  // What a traversal records

  /** Hops are only ever appended, at most one per iteration. */
  lemma {:induction false} RunExtends(net: Network, header: Header, maxRedirects: int, u: string, i: nat, hops: seq<Hop>)
    requires |hops| == i
    ensures var o := Run(net, header, maxRedirects, u, i, hops);
      |hops| <= |o.hops| <= Max(maxRedirects, i) && o.hops[..|hops|] == hops
    decreases maxRedirects - i
  {
    if i < maxRedirects && net.parse(u).err.None? {
      var hop := HopOf(u, net.roundTrip(i, GetRequest(u, header)));
      if Next(net, hop).Some? {
        var hops' := hops + [hop];
        RunExtends(net, header, maxRedirects, Next(net, hop).value, i + 1, hops');
        var o := Run(net, header, maxRedirects, u, i, hops);
        assert o.hops[..|hops|] == o.hops[..|hops'|][..|hops|];
      }
    }
  }

  /** Hop k records the URL of the k-th request, which could be built, and
      exactly what the underlying client answered to it. */
  lemma {:induction false} RunRecordsExchanges(net: Network, header: Header, maxRedirects: int, u: string, i: nat, hops: seq<Hop>)
    requires |hops| == i
    ensures var o := Run(net, header, maxRedirects, u, i, hops);
      forall k :: i <= k < |o.hops| ==>
        net.parse(o.hops[k].link).err.None? &&
        o.hops[k] == HopOf(o.hops[k].link, net.roundTrip(k, GetRequest(o.hops[k].link, header)))
    decreases maxRedirects - i
  {
    if i < maxRedirects && net.parse(u).err.None? {
      var hop := HopOf(u, net.roundTrip(i, GetRequest(u, header)));
      if Next(net, hop).Some? {
        RunExtends(net, header, maxRedirects, Next(net, hop).value, i + 1, hops + [hop]);
        RunRecordsExchanges(net, header, maxRedirects, Next(net, hop).value, i + 1, hops + [hop]);
      }
    }
  }

  /** The first new hop asks for u, and every new hop but the last redirected
      to the URL the next one asks for. */
  lemma {:induction false} RunLinks(net: Network, header: Header, maxRedirects: int, u: string, i: nat, hops: seq<Hop>)
    requires |hops| == i
    ensures var o := Run(net, header, maxRedirects, u, i, hops);
      (|o.hops| > i ==> o.hops[i].link == u) &&
      forall k :: i <= k < |o.hops| - 1 ==> Next(net, o.hops[k]) == Some(o.hops[k + 1].link)
    decreases maxRedirects - i
  {
    if i < maxRedirects && net.parse(u).err.None? {
      var hop := HopOf(u, net.roundTrip(i, GetRequest(u, header)));
      if Next(net, hop).Some? {
        var hops' := hops + [hop];
        RunExtends(net, header, maxRedirects, Next(net, hop).value, i + 1, hops');
        RunLinks(net, header, maxRedirects, Next(net, hop).value, i + 1, hops');
        var o := Run(net, header, maxRedirects, u, i, hops);
        assert o.hops[i] == o.hops[..|hops'|][i];
        if |o.hops| > i + 1 {
          assert Next(net, o.hops[i]) == Some(o.hops[i + 1].link);
        }
      }
    }
  }

  /** The bound is exhausted exactly when every new hop redirected and
      there are as many hops as the bound allows; nothing is returned then. */
  lemma {:induction false} RunExhausted(net: Network, header: Header, maxRedirects: int, u: string, i: nat, hops: seq<Hop>)
    requires |hops| == i
    ensures var o := Run(net, header, maxRedirects, u, i, hops);
      && (o.error == Some(MaxRedirectsExceeded) <==>
            |o.hops| == Max(maxRedirects, i) && forall k :: i <= k < |o.hops| ==> Next(net, o.hops[k]).Some?)
      && (o.error == Some(MaxRedirectsExceeded) ==> o.response == None)
    decreases maxRedirects - i
  {
    var o := Run(net, header, maxRedirects, u, i, hops);
    RunExtends(net, header, maxRedirects, u, i, hops);
    if i < maxRedirects && net.parse(u).err.None? {
      var hop := HopOf(u, net.roundTrip(i, GetRequest(u, header)));
      if Next(net, hop).Some? {
        var hops' := hops + [hop];
        RunExtends(net, header, maxRedirects, Next(net, hop).value, i + 1, hops');
        RunExhausted(net, header, maxRedirects, Next(net, hop).value, i + 1, hops');
        assert o.hops[i] == o.hops[..|hops'|][i] == hop;
      } else {
        assert o.hops[i] == hop;
      }
    }
  }

  /** A URL that cannot be made into a request ends the traversal before any
      hop for it, with nothing returned but the parse error; every hop before
      it redirected. */
  lemma {:induction false} RunRequestError(net: Network, header: Header, maxRedirects: int, u: string, i: nat, hops: seq<Hop>)
    requires |hops| == i
    ensures var o := Run(net, header, maxRedirects, u, i, hops);
      o.error.Some? && o.error.value.RequestError? ==>
        && o.response == None && i <= |o.hops| < maxRedirects
        && (forall k :: i <= k < |o.hops| ==> Next(net, o.hops[k]).Some?)
        && (|o.hops| == i ==> net.parse(u).err == Some(o.error.value.msg))
        && (|o.hops| > i ==>
              && Next(net, o.hops[|o.hops| - 1]).Some?
              && net.parse(Next(net, o.hops[|o.hops| - 1]).value).err == Some(o.error.value.msg))
    decreases maxRedirects - i
  {
    var o := Run(net, header, maxRedirects, u, i, hops);
    RunExtends(net, header, maxRedirects, u, i, hops);
    if i < maxRedirects && net.parse(u).err.None? {
      var hop := HopOf(u, net.roundTrip(i, GetRequest(u, header)));
      if Next(net, hop).Some? {
        var hops' := hops + [hop];
        RunExtends(net, header, maxRedirects, Next(net, hop).value, i + 1, hops');
        RunRequestError(net, header, maxRedirects, Next(net, hop).value, i + 1, hops');
        assert o.hops[i] == o.hops[..|hops'|][i] == hop;
      }
    }
  }

  /** Any other end comes right after a hop that did not redirect: that last
      hop gives the response, and the error is its transport error, its
      Location's parse error, or none. */
  lemma {:induction false} RunStops(net: Network, header: Header, maxRedirects: int, u: string, i: nat, hops: seq<Hop>)
    requires |hops| == i
    ensures var o := Run(net, header, maxRedirects, u, i, hops);
      o.error.None? || o.error.value.TransportError? || o.error.value.LocationParseError? ==>
        && |o.hops| > i
        && var last := o.hops[|o.hops| - 1];
        && Next(net, last).None?
        && (last.response.Some? || last.error.Some?)
        && o.response == last.response
        && o.error == StopError(net, last)
    decreases maxRedirects - i
  {
    if i < maxRedirects && net.parse(u).err.None? {
      var hop := HopOf(u, net.roundTrip(i, GetRequest(u, header)));
      if Next(net, hop).Some? {
        var hops' := hops + [hop];
        RunStops(net, header, maxRedirects, Next(net, hop).value, i + 1, hops');
      }
    }
  }

  // ---------------------------------------------------------------------
  // Properties of Get, from an empty hop list at iteration 0

  /** Get records at most max(MaxRedirects, 0) hops. */
  lemma TraceHopBound(net: Network, header: Header, maxRedirects: int, u: string)
    ensures |Traverse(net, header, maxRedirects, u).hops| <= Max(maxRedirects, 0)
  {
    RunExtends(net, header, maxRedirects, u, 0, []);
  }

  /** Hop k records the URL of the k-th request, which could be built, and
      exactly the underlying client's answer to it (one hop per request);
      so every hop has a response or an error. */
  lemma TraceRecordsExchanges(net: Network, header: Header, maxRedirects: int, u: string)
    ensures var o := Traverse(net, header, maxRedirects, u);
      forall k :: 0 <= k < |o.hops| ==>
        && net.parse(o.hops[k].link).err.None?
        && o.hops[k] == HopOf(o.hops[k].link, net.roundTrip(k, GetRequest(o.hops[k].link, header)))
        && (o.hops[k].response.Some? || o.hops[k].error.Some?)
  {
    RunRecordsExchanges(net, header, maxRedirects, u, 0, []);
    var o := Traverse(net, header, maxRedirects, u);
    assert o == Run(net, header, maxRedirects, u, 0, []);
    forall k | 0 <= k < |o.hops|
      ensures o.hops[k].response.Some? || o.hops[k].error.Some?
    {
      assert o.hops[k] == HopOf(o.hops[k].link, net.roundTrip(k, GetRequest(o.hops[k].link, header)));
    }
  }

  /** The first hop asks for u; each later hop asks for the resolved
      Location of the hop before, which had a response and no error. */
  lemma TraceChain(net: Network, header: Header, maxRedirects: int, u: string)
    ensures var o := Traverse(net, header, maxRedirects, u);
      && (o.hops != [] ==> o.hops[0].link == u)
      && forall k :: 0 <= k < |o.hops| - 1 ==>
           && o.hops[k].error.None? && o.hops[k].response.Some?
           && Next(net, o.hops[k]) == Some(o.hops[k + 1].link)
  {
    RunLinks(net, header, maxRedirects, u, 0, []);
    var o := Traverse(net, header, maxRedirects, u);
    assert o == Run(net, header, maxRedirects, u, 0, []);
    forall k | 0 <= k < |o.hops| - 1
      ensures o.hops[k].error.None? && o.hops[k].response.Some?
    {
      assert Next(net, o.hops[k]) == Some(o.hops[k + 1].link);
    }
  }

  /** ErrMaxRedirectsExceeded, with no response, exactly when every one of
      max(MaxRedirects, 0) hops redirected. */
  lemma TraceExhausted(net: Network, header: Header, maxRedirects: int, u: string)
    ensures var o := Traverse(net, header, maxRedirects, u);
      && (o.error == Some(MaxRedirectsExceeded) <==>
            |o.hops| == Max(maxRedirects, 0) && forall k :: 0 <= k < |o.hops| ==> Next(net, o.hops[k]).Some?)
      && (o.error == Some(MaxRedirectsExceeded) ==> o.response == None)
  {
    RunExhausted(net, header, maxRedirects, u, 0, []);
  }

  /** A URL that cannot be made into a request (u itself, or the last
      hop's resolved Location) is returned as the error, with no response and
      no hop for it. */
  lemma TraceRequestError(net: Network, header: Header, maxRedirects: int, u: string, e: string)
    requires Traverse(net, header, maxRedirects, u).error == Some(RequestError(e))
    ensures var o := Traverse(net, header, maxRedirects, u);
      && o.response == None && |o.hops| < maxRedirects
      && (o.hops == [] ==> net.parse(u).err == Some(e))
      && (o.hops != [] ==>
            && Next(net, o.hops[|o.hops| - 1]).Some?
            && net.parse(Next(net, o.hops[|o.hops| - 1]).value).err == Some(e))
  {
    RunRequestError(net, header, maxRedirects, u, 0, []);
  }

  /** The converse of TraceRequestError, at the start: a start URL that
      cannot be made into a request ends Get at once with its error and no
      hop. */
  lemma TraceStartUnbuildable(net: Network, header: Header, maxRedirects: int, u: string)
    requires 0 < maxRedirects && net.parse(u).err.Some?
    ensures Traverse(net, header, maxRedirects, u) == Outcome([], None, Some(RequestError(net.parse(u).err.value)))
  {
  }

  /** The converse of TraceRequestError, after a hop: a resolved Location
      that cannot be made into a request, with the bound leaving room for it,
      ends Get right after that hop with its error and no response. */
  lemma TraceRequestErrorStops(net: Network, header: Header, maxRedirects: int, u: string, k: nat, v: string)
    requires k < |Traverse(net, header, maxRedirects, u).hops| && k + 1 < maxRedirects
    requires Next(net, Traverse(net, header, maxRedirects, u).hops[k]) == Some(v)
    requires net.parse(v).err.Some?
    ensures var o := Traverse(net, header, maxRedirects, u);
      && k == |o.hops| - 1
      && o.response == None
      && o.error == Some(RequestError(net.parse(v).err.value))
  {
    var o := Traverse(net, header, maxRedirects, u);
    assert o == Run(net, header, maxRedirects, u, 0, []);
    assert k == |o.hops| - 1 by {
      TraceChain(net, header, maxRedirects, u);
      TraceRecordsExchanges(net, header, maxRedirects, u);
      forall j | 0 <= j < |o.hops| - 1
        ensures Next(net, o.hops[j]).Some? && net.parse(Next(net, o.hops[j]).value).err.None?
      {
        assert Next(net, o.hops[j]) == Some(o.hops[j + 1].link);
      }
    }
    assert o.error != Some(MaxRedirectsExceeded) by {
      TraceExhausted(net, header, maxRedirects, u);
    }
    assert o.error.Some? && o.error.value.RequestError? by {
      RunStops(net, header, maxRedirects, u, 0, []);
    }
    RunRequestError(net, header, maxRedirects, u, 0, []);
  }

  /** A transport error is terminal: it is the last hop's error and Get's. */
  lemma TraceTransportError(net: Network, header: Header, maxRedirects: int, u: string, e: string)
    requires Traverse(net, header, maxRedirects, u).error == Some(TransportError(e))
    ensures var o := Traverse(net, header, maxRedirects, u);
      o.hops != [] && o.hops[|o.hops| - 1].error == Some(TransportError(e)) &&
      o.response == o.hops[|o.hops| - 1].response
  {
    RunStops(net, header, maxRedirects, u, 0, []);
  }

  /** Success (no error) means the last hop had a response, returned as
      Get's, with no Location header (or an empty one) or one that resolved
      to no URL, whatever its status. */
  lemma TraceSucceeds(net: Network, header: Header, maxRedirects: int, u: string)
    requires Traverse(net, header, maxRedirects, u).error.None?
    ensures var o := Traverse(net, header, maxRedirects, u);
      && o.hops != [] && o.response.Some?
      && var last := o.hops[|o.hops| - 1];
      && last.error.None? && o.response == last.response
      && (HeaderGet(o.response.value.header, "Location") == "" ||
          ResponseLocation(net, last.link, o.response.value) == Location(None, None))
  {
    RunStops(net, header, maxRedirects, u, 0, []);
  }

  /** A present Location that does not parse: its error is returned along
      with the response, which is recorded as the last hop. */
  lemma TraceLocationError(net: Network, header: Header, maxRedirects: int, u: string, e: string)
    requires Traverse(net, header, maxRedirects, u).error == Some(LocationParseError(e))
    ensures var o := Traverse(net, header, maxRedirects, u);
      && o.hops != [] && o.response.Some?
      && var last := o.hops[|o.hops| - 1];
      && last.error.None? && o.response == last.response
      && HeaderGet(o.response.value.header, "Location") != ""
      && ResponseLocation(net, last.link, o.response.value).err == Some(UrlError(e))
  {
    RunStops(net, header, maxRedirects, u, 0, []);
    RunRecordsExchanges(net, header, maxRedirects, u, 0, []);
    var o := Traverse(net, header, maxRedirects, u);
    assert o == Run(net, header, maxRedirects, u, 0, []);
    var last := o.hops[|o.hops| - 1];
    assert last == HopOf(last.link, net.roundTrip(|o.hops| - 1, GetRequest(last.link, header)));
  }

  /** The converse of the three lemmas above: a hop that does not redirect
      is the last hop, and Get returns its response together with a failed
      exchange's transport error, no error when there is no Location, or
      the parse error of a Location that does not resolve. */
  lemma TraceStops(net: Network, header: Header, maxRedirects: int, u: string, k: nat)
    requires k < |Traverse(net, header, maxRedirects, u).hops|
    requires Next(net, Traverse(net, header, maxRedirects, u).hops[k]).None?
    ensures var o := Traverse(net, header, maxRedirects, u);
      && k == |o.hops| - 1
      && var last := o.hops[k];
      && (last.response.Some? || last.error.Some?)
      && o.response == last.response
      && (last.error.Some? ==> o.error == last.error)
      && (last.error.None? && HeaderGet(last.response.value.header, "Location") == "" ==>
            o.error.None?)
      && (last.error.None? && HeaderGet(last.response.value.header, "Location") != "" ==>
            var p := net.resolve(last.link, HeaderGet(last.response.value.header, "Location"));
            o.error == if p.err.Some? then Some(LocationParseError(p.err.value)) else None)
  {
    var o := Traverse(net, header, maxRedirects, u);
    assert o == Run(net, header, maxRedirects, u, 0, []);
    TraceChain(net, header, maxRedirects, u);
    TraceRecordsExchanges(net, header, maxRedirects, u);
    TraceExhausted(net, header, maxRedirects, u);
    RunRequestError(net, header, maxRedirects, u, 0, []);
    RunStops(net, header, maxRedirects, u, 0, []);
    forall j | 0 <= j < |o.hops| - 1
      ensures Next(net, o.hops[j]).Some?
    {
      assert Next(net, o.hops[j]) == Some(o.hops[j + 1].link);
    }
    assert o.error.None? || o.error.value.TransportError? || o.error.value.LocationParseError?;
  }

  /** A server that always redirects somewhere valid runs Get into the
      bound: ErrMaxRedirectsExceeded after exactly max(MaxRedirects, 0) hops. */
  lemma RedirectLoopExhausts(net: Network, header: Header, maxRedirects: int, u: string)
    requires forall v :: net.parse(v).err.None?
    requires forall n: nat, v :: Next(net, HopOf(v, net.roundTrip(n, GetRequest(v, header)))).Some?
    ensures var o := Traverse(net, header, maxRedirects, u);
      o.error == Some(MaxRedirectsExceeded) && |o.hops| == Max(maxRedirects, 0)
  {
    var o := Traverse(net, header, maxRedirects, u);
    assert o == Run(net, header, maxRedirects, u, 0, []);
    TraceRecordsExchanges(net, header, maxRedirects, u);
    forall k | 0 <= k < |o.hops|
      ensures Next(net, o.hops[k]).Some?
    {
      assert o.hops[k] == HopOf(o.hops[k].link, net.roundTrip(k, GetRequest(o.hops[k].link, header)));
    }
    RunStops(net, header, maxRedirects, u, 0, []);
    RunRequestError(net, header, maxRedirects, u, 0, []);
    RunExhausted(net, header, maxRedirects, u, 0, []);
  }

  /** Two answers that differ at most in status and body. */
  predicate SameHeaders(x: Exchange, y: Exchange) {
    match x
    case Failed(p, e) =>
      y.Failed? && y.err == e && (p.Some? <==> y.partial.Some?) &&
      (p.Some? ==> p.value.header == y.partial.value.header)
    case Received(r) => y.Received? && y.resp.header == r.header
  }

  function Links(hops: seq<Hop>): (links: seq<string>)
    ensures |links| == |hops|
    ensures forall k :: 0 <= k < |hops| ==> links[k] == hops[k].link
  {
    seq(|hops|, k requires 0 <= k < |hops| => hops[k].link)
  }

  lemma {:induction false} RunIgnoresStatus(net1: Network, net2: Network, header: Header, maxRedirects: int, u: string, i: nat, hops1: seq<Hop>, hops2: seq<Hop>)
    requires forall v :: net1.parse(v) == net2.parse(v)
    requires forall a, b :: net1.resolve(a, b) == net2.resolve(a, b)
    requires forall n: nat, req :: SameHeaders(net1.roundTrip(n, req), net2.roundTrip(n, req))
    requires Links(hops1) == Links(hops2)
    ensures var o1 := Run(net1, header, maxRedirects, u, i, hops1);
      var o2 := Run(net2, header, maxRedirects, u, i, hops2);
      Links(o1.hops) == Links(o2.hops) && o1.error == o2.error
    decreases maxRedirects - i
  {
    if i < maxRedirects && net1.parse(u).err.None? {
      var x1 := net1.roundTrip(i, GetRequest(u, header));
      var x2 := net2.roundTrip(i, GetRequest(u, header));
      assert SameHeaders(x1, x2);
      var hop1, hop2 := HopOf(u, x1), HopOf(u, x2);
      assert Next(net1, hop1) == Next(net2, hop2);
      assert Links(hops1 + [hop1]) == Links(hops2 + [hop2]);
      if Next(net1, hop1).Some? {
        RunIgnoresStatus(net1, net2, header, maxRedirects, Next(net1, hop1).value, i + 1, hops1 + [hop1], hops2 + [hop2]);
      } else {
        assert StopError(net1, hop1) == StopError(net2, hop2);
      }
    }
  }

  /** The status code is never consulted: networks that answer with the same
      headers (statuses and bodies may differ) give the same links and the
      same error. */
  lemma TraceIgnoresStatus(net1: Network, net2: Network, header: Header, maxRedirects: int, u: string)
    requires forall v :: net1.parse(v) == net2.parse(v)
    requires forall a, b :: net1.resolve(a, b) == net2.resolve(a, b)
    requires forall n: nat, req :: SameHeaders(net1.roundTrip(n, req), net2.roundTrip(n, req))
    ensures var o1 := Traverse(net1, header, maxRedirects, u);
      var o2 := Traverse(net2, header, maxRedirects, u);
      Links(o1.hops) == Links(o2.hops) && o1.error == o2.error
  {
    RunIgnoresStatus(net1, net2, header, maxRedirects, u, 0, [], []);
  }

  // ---------------------------------------------------------------------
  // Properties of the rendering

  /** The as-written rendering succeeds exactly when every hop has a
      response, and otherwise fails at the first hop without one. */
  lemma {:induction false} RenderFails(hops: seq<Hop>)
    ensures Render(hops).Dumped? <==> forall k :: 0 <= k < |hops| ==> hops[k].response.Some?
    ensures Render(hops).NilResponse? ==>
      var n := Render(hops).hop;
      1 <= n <= |hops| && hops[n - 1].response.None? &&
      forall k :: 0 <= k < n - 1 ==> hops[k].response.Some?
    decreases |hops|
  {
    if hops != [] {
      var init := hops[..|hops| - 1];
      RenderFails(init);
      assert forall k :: 0 <= k < |init| ==> init[k] == hops[k];
    }
  }

  /** Where it succeeds, it agrees with the intended rendering. */
  lemma {:induction false} RenderMatchesFixed(hops: seq<Hop>)
    requires forall k :: 0 <= k < |hops| ==> hops[k].response.Some?
    ensures Render(hops) == Dumped(RenderFixed(hops))
    decreases |hops|
  {
    if hops != [] {
      RenderMatchesFixed(hops[..|hops| - 1]);
    }
  }

  /** A hop whose printed fields hold no line break. */
  predicate SingleLine(hop: Hop) {
    && (hop.response.Some? ==> '\n' !in hop.response.value.status)
    && '\n' !in DisplayLink(hop.link)
    && '\n' !in ErrorText(hop.error)
  }

  /** A line whose fields hold no line break ends in its only one. */
  lemma LineHasOneBreak(n: nat, status: string, link: string, err: Option<Error>)
    requires '\n' !in status && '\n' !in link && '\n' !in ErrorText(err)
    ensures Text.Occurrences(Line(n, status, link, err), '\n') == 1
  {
    var digits := Text.Format(n, 10);
    assert '\n' !in digits;
    var e := ErrorText(err);
    Text.OccurrencesAbsent(digits, '\n');
    Text.OccurrencesAbsent(status, '\n');
    Text.OccurrencesAbsent(link, '\n');
    Text.OccurrencesAbsent(e, '\n');
    var p1 := "[" + digits;
    Text.OccurrencesConcat("[", digits, '\n');
    var p2 := p1 + "] " + status;
    Text.OccurrencesConcat(p1, "] ", '\n');
    Text.OccurrencesConcat(p1 + "] ", status, '\n');
    var p3 := p2 + " " + link;
    Text.OccurrencesConcat(p2, " ", '\n');
    Text.OccurrencesConcat(p2 + " ", link, '\n');
    var p4 := p3 + " " + e;
    Text.OccurrencesConcat(p3, " ", '\n');
    Text.OccurrencesConcat(p3 + " ", e, '\n');
    Text.OccurrencesConcat(p4, "\n", '\n');
    assert Line(n, status, link, err) == p4 + "\n";
  }

  lemma FixedLineHasOneBreak(n: nat, hop: Hop)
    requires SingleLine(hop)
    ensures Text.Occurrences(FixedLine(n, hop), '\n') == 1
  {
    if hop.response.Some? {
      LineHasOneBreak(n, hop.response.value.status, DisplayLink(hop.link), hop.error);
    } else {
      LineHasOneBreak(n, "NA", DisplayLink(hop.link), hop.error);
    }
  }

  /** The intended rendering has one line per hop. */
  lemma {:induction false} RenderFixedLineCount(hops: seq<Hop>)
    requires forall k :: 0 <= k < |hops| ==> SingleLine(hops[k])
    ensures Text.Occurrences(RenderFixed(hops), '\n') == |hops|
    decreases |hops|
  {
    if hops != [] {
      RenderFixedLineCount(hops[..|hops| - 1]);
      FixedLineHasOneBreak(|hops|, hops[|hops| - 1]);
      Text.OccurrencesConcat(RenderFixed(hops[..|hops| - 1]), FixedLine(|hops|, hops[|hops| - 1]), '\n');
    }
  }

  /** After Get, the as-written DumpHops fails exactly when the traversal
      ended in a transport error that came without a response. */
  lemma TraceDumpFails(net: Network, header: Header, maxRedirects: int, u: string)
    ensures var o := Traverse(net, header, maxRedirects, u);
      Render(o.hops).NilResponse? <==>
      o.error.Some? && o.error.value.TransportError? && o.response == None
  {
    var o := Traverse(net, header, maxRedirects, u);
    RenderFails(o.hops);
    TraceChain(net, header, maxRedirects, u);
    TraceRecordsExchanges(net, header, maxRedirects, u);
    RunStops(net, header, maxRedirects, u, 0, []);
    RunRequestError(net, header, maxRedirects, u, 0, []);
    RunExhausted(net, header, maxRedirects, u, 0, []);
    if Render(o.hops).NilResponse? {
      var n := Render(o.hops).hop;
      assert Next(net, o.hops[n - 1]).None?;
      assert n == |o.hops|;
    }
  }

  /** A start URL whose host refuses the connection: Get records one hop
      without a response and returns the transport error, and the
      as-written DumpHops then fails at that hop. */
  lemma UnreachableHostDumpFails(u: string)
    ensures var net := Network(
        v => UrlParse(Some(v), None),
        (n, req) => Failed(None, "connection refused"),
        (a, b) => UrlParse(None, Some("unused")));
      var o := Traverse(net, map[], DefaultMaxRedirects, u);
      && o.hops == [Hop(u, None, Some(TransportError("connection refused")))]
      && o.error == Some(TransportError("connection refused"))
      && Render(o.hops) == NilResponse(1)
      && RenderFixed(o.hops) == Line(1, "NA", DisplayLink(u), Some(TransportError("connection refused")))
  {
    var hops := [Hop(u, None, Some(TransportError("connection refused")))];
    assert hops[..0] == [];
  }

  // ---------------------------------------------------------------------
  // The client

  class Client {
    var header: Header
    var client: HttpClient
    var maxRedirects: int
    var hops: seq<Hop>

    /** New: no extra headers, a client that does not follow redirects and
        times out after 30 seconds, at most 100 hops. */
    constructor ()
      ensures header == map[] && hops == []
      ensures client == HttpClient(DefaultTimeoutSeconds, false)
      ensures maxRedirects == DefaultMaxRedirects
    {
      header := map[];
      client := HttpClient(DefaultTimeoutSeconds, false);
      maxRedirects := DefaultMaxRedirects;
      hops := [];
    }

    /** Get: follow the redirects from u, recording every hop. Hops is
        cleared first, so afterwards it holds this call's hops only. */
    method Get(u: string, net: Network) returns (resp: Option<Response>, err: Option<Error>)
      modifies this`hops
      ensures Outcome(hops, resp, err) == Traverse(net, header, maxRedirects, u)
    {
      hops := [];
      var url := u;
      var i: nat := 0;
      while i < maxRedirects
        invariant |hops| == i
        invariant Run(net, header, maxRedirects, url, i, hops) == Traverse(net, header, maxRedirects, u)
        decreases maxRedirects - i
      {
        var parsed := net.parse(url);
        if parsed.err.Some? {
          return None, Some(RequestError(parsed.err.value));
        }
        var x := net.roundTrip(i, GetRequest(url, header));
        var hop := HopOf(url, x);
        hops := hops + [hop];
        if x.Failed? {
          return x.partial, Some(TransportError(x.err));
        }
        var loc := ResponseLocation(net, url, x.resp);
        if loc.err == Some(ErrNoLocation) {
          return Some(x.resp), None;
        }
        if loc.err.Some? {
          return Some(x.resp), Some(LocationParseError(loc.err.value.msg));
        }
        if loc.url.None? {
          return Some(x.resp), None;
        }
        url := loc.url.value;
        i := i + 1;
      }
      return None, Some(MaxRedirectsExceeded);
    }

    /** DumpHops: one line per hop, in order; reads Hops and changes
        nothing. */
    method DumpHops() returns (d: Dump)
      ensures d == Render(hops)
    {
      var buf := "";
      var i := 0;
      while i < |hops|
        invariant 0 <= i <= |hops|
        invariant Render(hops[..i]) == Dumped(buf)
      {
        var hop := hops[i];
        var link := DisplayLink(hop.link);
        assert hops[..i + 1][..i] == hops[..i];
        if hop.response.None? {
          // The "NA" line goes into the buffer, then the status line below
          // dereferences the missing response; the buffer is lost.
          RenderPanicSticks(hops, i + 1);
          return NilResponse(i + 1);
        }
        buf := buf + Line(i + 1, hop.response.value.status, link, hop.error);
        i := i + 1;
      }
      assert hops[..i] == hops;
      d := Dumped(buf);
    }
  }
}
