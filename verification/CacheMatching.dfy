/** The request cache (core/matching/cache_matcher.go, core/cache/memory_cache.go). */
module CacheMatching {
  import opened Bytes
  import opened Wrappers
  import opened Models
  import opened CacheKeys

  type CacheMap = map<Text, CachedResponse>

  datatype CacheError = NoCacheSet | NotFound

  /** What is stored for a request: the pair that answered it, or the fact that none did. */
  function Entry(r: Request, p: Option<Pair>): CachedResponse {
    CachedResponse(r, p, p.Some? && HeaderBearing(p.value))
  }

  function Memoised(cache: Option<CacheMap>, r: Request, p: Option<Pair>, withHost: bool): Option<CacheMap> {
    if cache.None? then None else Some(cache.value[CacheKey(r.fields, withHost) := Entry(r, p)])
  }

  function Lookup(cache: Option<CacheMap>, f: Fields, withHost: bool): Option<CachedResponse> {
    if cache.Some? && CacheKey(f, withHost) in cache.value
    then Some(cache.value[CacheKey(f, withHost)])
    else None
  }

  function Flushed(cache: Option<CacheMap>): Option<CacheMap> {
    if cache.None? then None else Some(map[])
  }

  /** Storing every fully exact pair under its own exact request, in order. */
  function Preloaded(cache: CacheMap, pairs: seq<Pair>, withHost: bool): CacheMap {
    if pairs == [] then cache
    else
      var last := pairs[|pairs| - 1];
      var front := Preloaded(cache, pairs[..|pairs| - 1], withHost);
      var exact := ExactRequest(last.matcher);
      if exact.None? then front
      else front[CacheKey(exact.value.fields, withHost) := Entry(exact.value, Some(last))]
  }

  /** The pair is fully exact and preloaded under the key `k`. */
  predicate ExactUnder(p: Pair, k: Text, withHost: bool) {
    ExactRequest(p.matcher).Some? && CacheKey(ExactRequest(p.matcher).value.fields, withHost) == k
  }

  /** The last pair preloaded under `k`, or -1. */
  function LastExact(pairs: seq<Pair>, k: Text, withHost: bool): (i: int)
    ensures -1 <= i < |pairs|
    ensures i >= 0 ==> ExactUnder(pairs[i], k, withHost)
    ensures forall j :: i < j < |pairs| ==> !ExactUnder(pairs[j], k, withHost)
  {
    if pairs == [] then -1
    else if ExactUnder(pairs[|pairs| - 1], k, withHost) then |pairs| - 1
    else LastExact(pairs[..|pairs| - 1], k, withHost)
  }

  /** Preloading is last-wins: a key holds the last fully exact pair stored under it, else what it held before. */
  lemma {:induction false} PreloadIsLastWins(cache: CacheMap, pairs: seq<Pair>, withHost: bool, k: Text)
    ensures var i, after := LastExact(pairs, k, withHost), Preloaded(cache, pairs, withHost);
            if i >= 0
            then k in after && after[k] == Entry(ExactRequest(pairs[i].matcher).value, Some(pairs[i]))
            else (k in after <==> k in cache) && (k in after ==> after[k] == cache[k])
  {
    if pairs != [] {
      PreloadIsLastWins(cache, pairs[..|pairs| - 1], withHost, k);
    }
  }

  /** Preloading fills exactly the keys of pairs with exact values for all six fields. */
  lemma PreloadedKeys(pairs: seq<Pair>, withHost: bool)
    ensures forall k :: k in Preloaded(map[], pairs, withHost) <==>
      exists p :: p in pairs
        && p.matcher.body.Some? && p.matcher.body.value.exactMatch.Some?
        && p.matcher.destination.Some? && p.matcher.destination.value.exactMatch.Some?
        && p.matcher.httpMethod.Some? && p.matcher.httpMethod.value.exactMatch.Some?
        && p.matcher.path.Some? && p.matcher.path.value.exactMatch.Some?
        && p.matcher.query.Some? && p.matcher.query.value.exactMatch.Some?
        && p.matcher.scheme.Some? && p.matcher.scheme.value.exactMatch.Some?
        && k == (if withHost then p.matcher.destination.value.exactMatch.value else [])
             + p.matcher.path.value.exactMatch.value + p.matcher.httpMethod.value.exactMatch.value
             + p.matcher.query.value.exactMatch.value + p.matcher.body.value.exactMatch.value
  {
    forall k
      ensures k in Preloaded(map[], pairs, withHost) <==> exists p :: p in pairs && ExactUnder(p, k, withHost)
    {
      PreloadedKey(pairs, withHost, k);
    }
    forall p | p in pairs && ExactRequest(p.matcher).Some?
      ensures CacheKey(ExactRequest(p.matcher).value.fields, withHost)
           == (if withHost then p.matcher.destination.value.exactMatch.value else [])
            + p.matcher.path.value.exactMatch.value + p.matcher.httpMethod.value.exactMatch.value
            + p.matcher.query.value.exactMatch.value + p.matcher.body.value.exactMatch.value
    {
    }
  }

  lemma PreloadedKey(pairs: seq<Pair>, withHost: bool, k: Text)
    ensures k in Preloaded(map[], pairs, withHost) <==> exists p :: p in pairs && ExactUnder(p, k, withHost)
  {
    PreloadIsLastWins(map[], pairs, withHost, k);
    if p :| p in pairs && ExactUnder(p, k, withHost) {
      var i :| 0 <= i < |pairs| && pairs[i] == p;
    }
  }

  /** Pairs that each lack one of the six are not preloaded. */
  lemma {:induction false} NothingPreloaded(cache: CacheMap, pairs: seq<Pair>, withHost: bool)
    ensures (forall p :: p in pairs ==>
      || p.matcher.body.None? || p.matcher.body.value.exactMatch.None?
      || p.matcher.destination.None? || p.matcher.destination.value.exactMatch.None?
      || p.matcher.httpMethod.None? || p.matcher.httpMethod.value.exactMatch.None?
      || p.matcher.path.None? || p.matcher.path.value.exactMatch.None?
      || p.matcher.query.None? || p.matcher.query.value.exactMatch.None?
      || p.matcher.scheme.None? || p.matcher.scheme.value.exactMatch.None?)
      ==> Preloaded(cache, pairs, withHost) == cache
  {
    if pairs != [] {
      NothingPreloaded(cache, pairs[..|pairs| - 1], withHost);
      assert pairs[|pairs| - 1] in pairs;
    }
  }

  /** core/cache/memory_cache.go, holding decoded entries. */
  class InMemoryCache {
    var elements: CacheMap

    constructor ()
      ensures elements == map[]
    {
      elements := map[];
    }

    method Set(key: Text, value: CachedResponse)
      modifies this
      ensures elements == old(elements)[key := value]
    {
      elements := elements[key := value];
    }

    method Get(key: Text) returns (value: Option<CachedResponse>)
      ensures value == if key in elements then Some(elements[key]) else None
    {
      if key !in elements {
        return None;
      }
      return Some(elements[key]);
    }

    method DeleteData()
      modifies this
      ensures elements == map[]
    {
      elements := map[];
    }
  }

  /** The cache's contents; `None` when caching is disabled. */
  function CacheContents(c: InMemoryCache?): Option<CacheMap>
    reads c
  {
    if c == null then None else Some(c.elements)
  }

  class CacheMatcher {
    const requestCache: InMemoryCache?
    const webserver: bool

    constructor (requestCache: InMemoryCache?, webserver: bool)
      ensures this.requestCache == requestCache && this.webserver == webserver
    {
      this.requestCache := requestCache;
      this.webserver := webserver;
    }

    method GetCachedResponse(f: Fields) returns (r: Result<CachedResponse, CacheError>)
      ensures r.Success? <==> Lookup(CacheContents(requestCache), f, !webserver).Some?
      ensures r.Success? ==> Some(r.value) == Lookup(CacheContents(requestCache), f, !webserver)
      ensures r == Failure(NoCacheSet) <==> requestCache == null
      ensures requestCache != null ==>
        var key := (if webserver then [] else f.destination) + f.path + f.httpMethod + f.query + f.body;
        && (r.Success? <==> key in requestCache.elements)
        && (r.Success? ==> r.value == requestCache.elements[key])
    {
      if requestCache == null {
        return Failure(NoCacheSet);
      }
      var key;
      if webserver {
        key := Concatenate(f, false);
      } else {
        key := Concatenate(f, true);
      }
      var value := requestCache.Get(key);
      if value.None? {
        return Failure(NotFound);
      }
      return Success(value.value);
    }

    method SaveRequestMatcherResponsePair(request: Request, pair: Option<Pair>) returns (error: Option<CacheError>)
      modifies requestCache
      ensures CacheContents(requestCache) == Memoised(old(CacheContents(requestCache)), request, pair, !webserver)
      ensures requestCache != null ==>
        var f := request.fields;
        var key := (if webserver then [] else f.destination) + f.path + f.httpMethod + f.query + f.body;
        var wantsHeaders := pair.Some? && pair.value.matcher.headers.Some? && pair.value.matcher.headers.value != map[];
        requestCache.elements == old(requestCache.elements)[key := CachedResponse(request, pair, wantsHeaders)]
      ensures error == if requestCache == null then Some(NoCacheSet) else None
    {
      if requestCache == null {
        return Some(NoCacheSet);
      }
      var key;
      if webserver {
        key := Concatenate(request.fields, false);
      } else {
        key := Concatenate(request.fields, true);
      }
      var headerMatch := pair.Some? && |Entries(pair.value.matcher.headers)| > 0;
      requestCache.Set(key, CachedResponse(request, pair, headerMatch));
      return None;
    }

    method FlushCache() returns (error: Option<CacheError>)
      modifies requestCache
      ensures CacheContents(requestCache) == Flushed(old(CacheContents(requestCache)))
      ensures requestCache != null ==> requestCache.elements == map[]
      ensures error == if requestCache == null then Some(NoCacheSet) else None
    {
      if requestCache == null {
        return Some(NoCacheSet);
      }
      requestCache.DeleteData();
      return None;
    }

    method PreloadCache(pairs: seq<Pair>) returns (error: Option<CacheError>)
      modifies requestCache
      ensures requestCache != null ==> requestCache.elements == Preloaded(old(requestCache.elements), pairs, !webserver)
      ensures requestCache != null && old(requestCache.elements) == map[] ==>
        forall k :: k in requestCache.elements <==>
          exists p :: p in pairs
            && p.matcher.body.Some? && p.matcher.body.value.exactMatch.Some?
            && p.matcher.destination.Some? && p.matcher.destination.value.exactMatch.Some?
            && p.matcher.httpMethod.Some? && p.matcher.httpMethod.value.exactMatch.Some?
            && p.matcher.path.Some? && p.matcher.path.value.exactMatch.Some?
            && p.matcher.query.Some? && p.matcher.query.value.exactMatch.Some?
            && p.matcher.scheme.Some? && p.matcher.scheme.value.exactMatch.Some?
            && k == (if !webserver then p.matcher.destination.value.exactMatch.value else [])
                 + p.matcher.path.value.exactMatch.value + p.matcher.httpMethod.value.exactMatch.value
                 + p.matcher.query.value.exactMatch.value + p.matcher.body.value.exactMatch.value
      ensures requestCache != null && (forall p :: p in pairs ==>
        || p.matcher.body.None? || p.matcher.body.value.exactMatch.None?
        || p.matcher.destination.None? || p.matcher.destination.value.exactMatch.None?
        || p.matcher.httpMethod.None? || p.matcher.httpMethod.value.exactMatch.None?
        || p.matcher.path.None? || p.matcher.path.value.exactMatch.None?
        || p.matcher.query.None? || p.matcher.query.value.exactMatch.None?
        || p.matcher.scheme.None? || p.matcher.scheme.value.exactMatch.None?)
        ==> requestCache.elements == old(requestCache.elements)
      ensures error == if requestCache == null then Some(NoCacheSet) else None
    {
      if requestCache == null {
        return Some(NoCacheSet);
      }
      ghost var before := requestCache.elements;
      for i := 0 to |pairs|
        invariant requestCache.elements == Preloaded(before, pairs[..i], !webserver)
      {
        var requestDetails := ExactRequest(pairs[i].matcher);
        if requestDetails.Some? {
          var _ := SaveRequestMatcherResponsePair(requestDetails.value, Some(pairs[i]));
        }
        assert pairs[..i + 1][..i] == pairs[..i];
      }
      assert pairs[..|pairs|] == pairs;
      PreloadedKeys(pairs, !webserver);
      NothingPreloaded(before, pairs, !webserver);
      return None;
    }
  }
}
