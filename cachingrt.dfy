/** A round tripper that keeps response bodies in memory, keyed by request
    URL. A miss goes to the inner transport and stores the body it read; a
    hit answers from the cache without touching the inner transport. The
    cache is never evicted. */
module CachingRt {
  import opened Common
  import opened Http

  /** ErrCacheMiss's message. */
  const ErrCacheMiss := "cache miss"

  /** The response RoundTrip builds around a cached body: only Body is set. */
  function CachedResponse(body: seq<byte>): Response {
    Response("", map[], Bytes(body))
  }

  class CachingRoundTripper {
    var cache: map<string, seq<byte>>
    const rt: RoundTripper

    /** New: an empty cache in front of the given transport. */
    constructor (rt: RoundTripper)
      ensures cache == map[] && this.rt == rt
    {
      cache := map[];
      this.rt := rt;
    }

    /** Get: the stored body, or ErrCacheMiss for a key never stored. */
    function Get(key: string): (r: Result<seq<byte>, string>)
      reads this
      ensures r.Ok? <==> key in cache
      ensures r.Ok? ==> r.value == cache[key]
      ensures r.Err? ==> r.error == ErrCacheMiss
    {
      if key in cache then Ok(cache[key]) else Err(ErrCacheMiss)
    }

    /** Set: store value under key; every other key keeps its entry. */
    method Set(key: string, value: seq<byte>)
      modifies this
      ensures cache == old(cache)[key := value]
      ensures Get(key) == Ok(value)
      ensures forall k :: k != key ==> Get(k) == old(Get(k))
    {
      cache := cache[key := value];
    }

    /** RoundTrip: answer from the cache, filling it on a miss. */
    method RoundTrip(req: Request) returns (resp: Option<Response>, err: Option<string>)
      modifies this, rt
      // a hit leaves the cache and the inner transport alone
      ensures req.url in old(cache) ==>
        && cache == old(cache) && rt.sent == old(rt.sent)
        && resp == Some(CachedResponse(cache[req.url])) && err == None
      // a miss sends the request on, once
      ensures req.url !in old(cache) ==> rt.sent == old(rt.sent) + [req]
      ensures req.url !in old(cache) ==>
        match rt.answer(|old(rt.sent)|, req)
        case Failed(partial, e) => cache == old(cache) && resp == partial && err == Some(e)
        case Received(r) =>
          match r.body
          case ReadFails(e) => cache == old(cache) && resp == Some(r) && err == Some(e)
          case Bytes(b) => cache == old(cache)[req.url := b] && resp == Some(CachedResponse(b)) && err == None
      // success leaves the body cached, so the next call for the URL is a hit
      ensures err == None ==> req.url in cache && resp == Some(CachedResponse(cache[req.url]))
    {
      var key := req.url;
      var found := Get(key);
      if found.Err? {
        var x := rt.RoundTrip(req);
        if x.Failed? {
          return x.partial, Some(x.err);
        }
        if x.resp.body.ReadFails? {
          return Some(x.resp), Some(x.resp.body.err);
        }
        cache := cache[key := x.resp.body.data];
      }
      return Some(CachedResponse(cache[key])), None;
    }
  }
}
