/** A transport that remembers the request in flight, so that connection
    events can be reported against it. Its prependHTTP is the same text as
    Trace2's and is modelled once, as Trace2.PrependHttp. */
module Trace3 {
  import opened Common
  import opened Http
  import Trace2
  import Text

  class Transport {
    var current: Option<Request>
    // the transport it wraps (http.DefaultTransport)
    const inner: RoundTripper

    constructor (inner: RoundTripper)
      ensures current == None && this.inner == inner
    {
      current := None;
      this.inner := inner;
    }

    /** RoundTrip: note req as the current request, then delegate. */
    method RoundTrip(req: Request) returns (x: Exchange)
      modifies this, inner
      ensures current == Some(req)
      ensures inner.sent == old(inner.sent) + [req]
      ensures x == inner.answer(|old(inner.sent)|, req)
    {
      current := Some(req);
      x := inner.RoundTrip(req);
    }
  }

  /** prependHTTP lengthens its input by exactly "http://" or not at all. */
  lemma PrependHttpLength(s: string)
    ensures |Trace2.PrependHttp(s)| == |s| || |Trace2.PrependHttp(s)| == |s| + 7
    ensures |Trace2.PrependHttp(s)| == |s| <==> Text.HasPrefix(s, "http")
  {
    Trace2.PrependHttpSpec(s);
  }
}
