/** The parts of Go's net/http that the models touch: requests, responses
    whose body has already been read (or failed to read), the outcome of one
    exchange, and an abstract inner transport. The network itself is an
    oracle: whatever the wire does is a function of the request and of how
    many requests the transport has already carried. */
module Http {
  import opened Common

  newtype byte = x: int | 0 <= x < 256

  /** http.Header: canonical header name to its list of values. */
  type Header = map<string, seq<string>>

  /** Header.Get: the first value of the header, or "" when it is absent
      (so an absent header and an empty one read the same). */
  function HeaderGet(h: Header, name: string): (v: string)
    ensures v != "" ==> name in h && |h[name]| > 0 && v == h[name][0]
  {
    if name in h && |h[name]| > 0 then h[name][0] else ""
  }

  datatype Request = Request(verb: string, url: string, header: Header)

  /** A response body, as ioutil.ReadAll would see it. */
  datatype Body = Bytes(data: seq<byte>) | ReadFails(err: string)

  datatype Response = Response(status: string, header: Header, body: Body)

  /** What one round trip yields: Go's (*Response, error) pair. An error may
      come with or without a response; no error always comes with one. */
  datatype Exchange =
    | Failed(partial: Option<Response>, err: string)
    | Received(resp: Response)

  /** An http.RoundTripper whose internals are not modelled: it answers the
      n-th request it carries with answer(n, request) and logs every request
      it is given, so that callers can be specified by what they sent. */
  class RoundTripper {
    var sent: seq<Request>
    const answer: (nat, Request) -> Exchange

    constructor (answer: (nat, Request) -> Exchange)
      ensures sent == [] && this.answer == answer
    {
      sent := [];
      this.answer := answer;
    }

    method RoundTrip(req: Request) returns (x: Exchange)
      modifies this
      ensures sent == old(sent) + [req]
      ensures x == answer(|old(sent)|, req)
    {
      x := answer(|sent|, req);
      sent := sent + [req];
    }
  }
}
