# httpgetaway redirect tracer, modelled in Dafny

This project models the small HTTP programs under `x/` that make decisions.

The main model is the manual redirect tracer of `x/record3xx.go`. Its `New` turns off the
underlying client's redirect following (x/record3xx.go:91-93). `Client.Get` issues one GET per iteration and appends
one `Hop{Link, Response, Error}` per request. It stops in one of these ways:

- on a transport error;
- on a response without a `Location` header (section 7.1.2 of RFC 7231), which counts as success whatever the status;
- on a `Location` that does not parse;
- when `MaxRedirects` iterations are used up, with `ErrMaxRedirectsExceeded`.

A relative `Location` is resolved against the request URL (section 5.2 of RFC 3986).
`DumpHops` renders one `[i] status link err` line per hop. It percent-decodes the link as
`url.PathUnescape` does (section 2.1 of RFC 3986) and falls back to the raw link when
decoding fails.

Next to the tracer the project models:

- the in-memory body cache of `x/cachingrt.go`;
- the TLS version naming and the `prependHTTP` helper of `x/trace2.go`;
- the request-tracking transport of `x/trace3.go`.

Files and modules:

- `common.dfy`, module `Common`: `Option` and `Result`.
- `text.dfy`, module `Text`: `strings.HasPrefix` and the digits behind `%d` and `%x`, with a parse-back round trip.
- `http.dfy`, module `Http`:
  - header, request, response, body and exchange values;
  - `RoundTripper`, an inner transport that is not modelled inside. It logs every request it carries and answers the n-th one with an oracle `answer(n, request)`.
- `percent.dfy`, module `PercentEncoding`: `url.PathUnescape`, with a reference encoder and the round trip.
- `record3xx.dfy`, module `Record3xx`:
  - the `Client` class, whose `Get` and `DumpHops` are loops;
  - the specification functions `Run`/`Traverse` and `Render`, with the lemmas about them.
- `cachingrt.dfy`, module `CachingRt`: the `CachingRoundTripper` class.
- `trace2.dfy`, module `Trace2`: `TlsName` and `PrependHttp`.
- `trace3.dfy`, module `Trace3`: the `Transport` class. `x/trace3.go`'s `prependHTTP` has the same text as `x/trace2.go`'s, so it is modelled once, as `Trace2.PrependHttp`.

The network, URL parsing and reference resolution are an oracle, `Record3xx.Network`:

- `parse(u)` is `url.Parse`'s result as `http.NewRequest` sees it.
- `roundTrip(n, req)` is the underlying client's answer to the n-th request of the traversal. A redirect loop on the open web may answer the same URL differently later on, and this oracle allows that.
- `resolve(base, location)` is the request URL's `Parse` of the Location value.

The oracle is more permissive than net/http. Its `roundTrip` may answer with a 301, 302, 303, 307 or 308 redirect whose `Location` does not parse. The real `Client.Do` parses a redirect's `Location` itself, before it consults `CheckRedirect`, and fails with no response in that case. So with the real library the `LocationParseError` branch (x/record3xx.go:147-149) is reached only for other statuses. Such a redirect instead leaves a hop with no response, which the as-written `DumpHops` dereferences.

`Get` is proved against the recursive specification `Traverse`: its loop invariant says that
running `Run` from the current URL, iteration and hop list yields what `Traverse` yields from
the start. Every property of `Get` is a lemma about `Traverse`.

On these points the code behaves differently from what one might expect:

- The `Location` header is read with `Header.Get`, so an empty `Location` value counts as absent (`ErrNoLocation`). The two cases are not told apart.
- The status code is never consulted. A 3xx without `Location` ends the traversal successfully, and so does a 200 without `Location`.
- `MaxRedirects` is any `int`. Zero or a negative value returns `ErrMaxRedirectsExceeded` at once, with no hops.
- The hop count can equal `MaxRedirects` without `ErrMaxRedirectsExceeded`: the last permitted hop may simply stop. The exact condition is proved in `Record3xx.TraceExhausted`: every hop redirected, and there are `max(MaxRedirects, 0)` of them.
- A URL that cannot be made into a request ends the traversal with no hop for that URL. The hops recorded before it stay.
- `rurl == nil` after a successful `Location()` is handled as success, as in the code. The standard library never produces that case, but the oracle may.

## Model

| member | source | states |
|---|---|---|
| `Record3xx.PrependSchema` | x/record3xx.go:59-64 | the result always starts with `http://` or `https://`, and it is the input unchanged exactly when the input already had one of these schemes |
| `Record3xx.PrependSchemaHasScheme` | x/record3xx.go:59-64 | an input with neither scheme is returned behind `http://`, and applying the function twice equals applying it once |
| `Record3xx.Client.constructor` | x/record3xx.go:86-97 | `New`: empty headers, no hops, a client that does not follow redirects and times out after 30 s, `MaxRedirects` = 100 |
| `Record3xx.Run` | x/record3xx.go:124-156 | the loop from one iteration on: it only appends hops, a response it returns is the last hop's, and it never returns neither a response nor an error |
| `Record3xx.Traverse` | x/record3xx.go:120-157 | what `Get` returns: a response only together with its hop, the last one, and always a response or an error |
| `Record3xx.Client.Get` | x/record3xx.go:120-157 | the loop leaves in `Hops`, and returns, exactly what `Traverse` gives for this call; the old `Hops` play no part, because they are cleared on entry |
| `Record3xx.ResponseLocation` | x/record3xx.go:141-142 | `ErrNoLocation` is reported exactly when the `Location` header is absent or empty |
| `Record3xx.HopOf` | x/record3xx.go:131-136 | the hop appended for an exchange records the requested URL and has a response or an error |
| `Record3xx.TraceHopBound` | x/record3xx.go:125-136 | a traversal records at most `max(MaxRedirects, 0)` hops |
| `Record3xx.TraceRecordsExchanges` | x/record3xx.go:126-136 | hop k is made for the k-th request, whose URL could be built into a request, and records exactly the executor's answer: response, error, or both |
| `Record3xx.TraceChain` | x/record3xx.go:141-154 | the first hop asks for the start URL; each later hop asks for the resolved Location of the hop before it, and that hop had a response and no error |
| `Record3xx.TraceExhausted` | x/record3xx.go:125-156 | `ErrMaxRedirectsExceeded` comes back, with no response, exactly when all `max(MaxRedirects, 0)` hops redirected |
| `Record3xx.TraceRequestError` | x/record3xx.go:126-128 | a URL that cannot be built into a request (the start URL or the last resolved Location) ends the traversal with its error, no response and no hop for it; the converse is `Record3xx.TraceStartUnbuildable` and `Record3xx.TraceRequestErrorStops` |
| `Record3xx.TraceStartUnbuildable` | x/record3xx.go:124-128 | with `MaxRedirects` above 0, a start URL that cannot be built into a request ends `Get` at once with its error, no response and no hops |
| `Record3xx.TraceRequestErrorStops` | x/record3xx.go:124-156 | when a hop redirects to a Location that cannot be built into a request, and the bound leaves room for that request, that hop is the last one and `Get` returns the error with no response |
| `Record3xx.TraceTransportError` | x/record3xx.go:131-139 | a transport error is terminal: it is the last hop's error, and the last hop's response is returned with it; the converse, that a failed exchange ends `Get` with its error, is `Record3xx.TraceStops` |
| `Record3xx.TraceSucceeds` | x/record3xx.go:141-152 | with no error, the last hop's response is returned; it has no error, and its Location is absent or empty or resolves to no URL; the converse, that a response without a Location ends `Get` with that response and no error, is `Record3xx.TraceStops` |
| `Record3xx.TraceLocationError` | x/record3xx.go:141-149 | a Location that is present but does not parse returns that parse error with the response, and the hop is still recorded; the converse, that such a Location ends `Get` with its parse error, is `Record3xx.TraceStops` |
| `Record3xx.TraceStops` | x/record3xx.go:137-152 | a hop that does not redirect is the last hop, and `Get` returns its response with: the exchange's error when `Do` failed; no error when the Location is absent or empty; the parse error when the Location is present and does not resolve; no error when it resolves to no URL |
| `Record3xx.RedirectLoopExhausts` | x/record3xx.go:124-156 | when every answer is a valid redirect, `Get` ends with `ErrMaxRedirectsExceeded` after exactly `max(MaxRedirects, 0)` hops |
| `Record3xx.TraceIgnoresStatus` | x/record3xx.go:137-154 | two networks whose answers differ only in status and body give the same links and the same error: the status code is never consulted |
| `Record3xx.Client.DumpHops` | x/record3xx.go:100-115 | the loop returns the as-written rendering `Render` of `Hops` and changes nothing, so two calls give the same output |
| `Record3xx.Render` | x/record3xx.go:100-115 | `DumpHops` as written: when it fails, it fails on a hop that has no response |
| `Record3xx.RenderFixed` | x/record3xx.go:100-115 | `DumpHops` as intended: the output is empty exactly when there are no hops, and otherwise ends in a line break |
| `Record3xx.RenderFails` | x/record3xx.go:102-113 | the as-written dump succeeds exactly when every hop has a response; otherwise it fails at the first hop without one |
| `Record3xx.RenderMatchesFixed` | x/record3xx.go:100-115 | when every hop has a response, the as-written dump equals the one-line-per-hop rendering |
| `Record3xx.RenderFixedLineCount` | x/record3xx.go:100-115 | the corrected rendering has exactly one line per hop, provided the printed fields hold no line break |
| `Record3xx.TraceDumpFails` | x/record3xx.go:107-112 | after `Get`, the as-written dump fails exactly when the traversal ended in a transport error that came without a response |
| `Record3xx.UnreachableHostDumpFails` | x/record3xx.go:107-112 | a refused connection on the first request gives one hop with no response and the transport error; the as-written dump fails on that hop, while the corrected rendering gives one `NA` line |
| `PercentEncoding.PathUnescapeFailsIff` | x/record3xx.go:103-106 | decoding fails exactly when some `%` is not followed by two hex digits; only then does `DumpHops` fall back to the raw link |
| `PercentEncoding.PathUnescape` | x/record3xx.go:103 | `url.PathUnescape`: the decoded text is no longer than the input, and an error is one to three characters starting with `%`; that it is the input's first bad escape is `PercentEncoding.PathUnescapeFirstBadEscape` |
| `PercentEncoding.PathUnescapeFirstBadEscape` | x/record3xx.go:103 | an error is the input's first `%` not followed by two hex digits, cut to at most three characters, as Go's `EscapeError` holds it |
| `PercentEncoding.PathUnescapeNoPercent` | x/record3xx.go:103-106 | a link without `%` is shown as it is |
| `PercentEncoding.PathUnescapeEscape` | x/record3xx.go:103-106 | decoding undoes percent-encoding |
| `Text.Format` | x/trace2.go:30 | `%x` digits: at least one, lower-case, with no leading zero unless the value is 0 |
| `Text.ParseFormat` | x/trace2.go:30 | the digits printed by `%x` (and `%d`) read back as the number printed |
| `Trace2.TlsName` | x/trace2.go:17-31 | a name starts with "UNKNOWN: " exactly when the version is not one of the five the switch names |
| `Trace2.TlsNameKnown` | x/trace2.go:17-28 | 0x0301 to 0x0304 are named "1.0" to "1.3", and 0x0300 is named "SSL3.0 (broken)" |
| `Trace2.TlsNameUnknown` | x/trace2.go:29-30 | a name starts with "UNKNOWN: " exactly when the version is not 0x0300 to 0x0304; the hex digits after that prefix read back as the version |
| `Trace2.TlsNameInjective` | x/trace2.go:17-31 | distinct versions get distinct names |
| `Trace2.PrependHttp` | x/trace2.go:34-39 | the result starts with "http", and it is the input unchanged exactly when the input already started with "http" |
| `Trace2.PrependHttpSpec` | x/trace2.go:34-39 | the result starts with "http"; it equals the input exactly when the input started with "http"; otherwise it is the input behind "http://"; applying it twice equals applying it once |
| `Trace2.PrependHttpKeepsSchemelessHost` | x/trace2.go:34-39 | "httpbin.org" comes back unchanged, with neither an `http://` nor an `https://` scheme |
| `Trace3.PrependHttpLength` | x/trace3.go:32-37 | the output is exactly as long as the input, or 7 characters longer, and it is as long exactly when the input starts with "http" |
| `Trace3.Transport.constructor` | x/trace3.go:15-17 | a new transport has no current request |
| `Trace3.Transport.RoundTrip` | x/trace3.go:21-24 | afterwards `current` is the request just given; that request was passed on to the inner transport once, and its answer is returned |
| `CachingRt.CachingRoundTripper.constructor` | x/cachingrt.go:19-24 | `New`: an empty cache in front of the inner transport |
| `CachingRt.CachingRoundTripper.Get` | x/cachingrt.go:30-35 | a stored key gives its value with no error; a key never stored gives `ErrCacheMiss` |
| `CachingRt.CachingRoundTripper.Set` | x/cachingrt.go:26-28 | afterwards `Get(key)` gives the value, and every other key gives what it gave before |
| `CachingRt.CachingRoundTripper.RoundTrip` | x/cachingrt.go:37-57 | a hit answers from the cache and changes neither the cache nor the inner transport; a miss sends the request on exactly once; a transport or body-read failure returns that error and leaves the cache unchanged; success stores the body under the URL and returns it, so the next call for the URL is a hit |

## Left out

- The `main` functions are not modelled: flag parsing, `log.Fatal` exits, log lines and printing to standard output.
- `CachingRt.CachingRoundTripper.RoundTrip` does not model its log lines, the "cache miss" and "cache hit for …" messages (x/cachingrt.go:41,52). Logging has no effect on the cache or the response.
- The network, DNS, TLS and the 30-second timeout are not modelled. They are the oracle `Network` (for the tracer) and `Http.RoundTripper` (for the other two programs). The inner transports' own state is not modelled beyond the log of requests they were given.
- `Record3xx.Client.Get` reads the underlying client's behaviour from the oracle. It does not consult `HttpClient.followRedirects`: the configuration set by `New` is recorded, not enforced.
- `url.Parse` and `URL.Parse` (reference resolution) are not modelled; they are the oracle's `parse` and `resolve`. A parsed URL is kept as its `String()` form.
- Response bodies are never closed in the model: closing them is the caller's job, and the model has no I/O.
- In `x/trace2.go`, the `httptrace.ClientTrace` callbacks, the `time.Since` durations and the `tabwriter` output are timing and formatting I/O, and are not modelled.
- `Trace3.Transport`: `GotConn` only prints `current`, so it is not modelled. The wrapped transport is a global variable in the program and a constant field in the model.
- `CachingRt.CachingRoundTripper.RoundTrip`: the inner transport is a constructor parameter, not `http.DefaultTransport`. The body is already read bytes or a read failure, not a stream. The cache is not safe for concurrent use, and the model is sequential.
- Go strings are byte sequences. Here each `char` stands for one byte: percent-decoding yields a char with the octet's value, and multi-byte UTF-8 text is not modelled.
- Responses are values. Two hops that share one `*http.Response` are not modelled, and neither is anything that aliases a response.
- `x/webshare.go`, `x/hijack.go`, `x/proxyerr.go`, `x/trace1.go`, `x/clientproxy.go`, `x/revproxy.go` and `x/hello.go` are not part of this model. They are file-system, raw-connection or single library-call code with no decision logic.

## Findings

| source | as written | input that shows it | evidently intended | confidence | as-written member | corrected member |
|---|---|---|---|---|---|---|
| x/record3xx.go:107-112 | a hop without a response gets its `NA` line, and then the generic line dereferences the nil response, which panics | a start URL whose connection is refused: `Get` records one hop with no response, and a caller that dumps the hops after that failed `Get` fails on hop 1 (the program's own `main` exits on the error before dumping) | one `NA` line for such a hop, and one line per hop in all, as `Record3xx.RenderFixedLineCount` proves of the corrected rendering | high; not executed | `Record3xx.UnreachableHostDumpFails` | `Record3xx.RenderFixed` |
| x/trace2.go:34-39 (and x/trace3.go:32-37) | adds `http://` only when the argument does not start with `http` | `httpbin.org` is returned unchanged, with no scheme, so the request built from it has no scheme | add a scheme whenever the argument has neither `http://` nor `https://`, as `prependSchema` in x/record3xx.go does; `Record3xx.PrependSchema`'s contract states the scheme is then always present | medium; not executed | `Trace2.PrependHttpKeepsSchemelessHost` | `Record3xx.PrependSchema` |
