/**
 * The key a request is cached under (core/models/payload.go): the fields written one after
 * the other without separators, then hashed. The hash is read as injective, so the key here
 * is the text that is hashed.
 */
module CacheKeys {
  import opened Bytes
  import opened Models

  const SLASH: byte := 47

  function CacheKey(f: Fields, withHost: bool): Text {
    (if withHost then f.destination else []) + f.path + f.httpMethod + f.query + f.body
  }

  /** core/models/payload.go, concatenate: the writes into the buffer. */
  method Concatenate(f: Fields, withHost: bool) returns (buffer: Text)
    ensures buffer == CacheKey(f, withHost)
  {
    buffer := [];
    if withHost {
      buffer := buffer + f.destination;
    }
    buffer := buffer + f.path;
    buffer := buffer + f.httpMethod;
    buffer := buffer + f.query;
    if |f.body| > 0 {
      buffer := buffer + f.body;
    }
  }

  /** Agreement on everything a key is built from. */
  predicate SameKeyFields(a: Fields, b: Fields, withHost: bool) {
    && (withHost ==> a.destination == b.destination)
    && a.path == b.path && a.httpMethod == b.httpMethod && a.query == b.query && a.body == b.body
  }

  /** No two requests of the set share a key by accident. */
  ghost predicate CollisionFree(u: iset<Fields>, withHost: bool) {
    forall a, b :: a in u && b in u && CacheKey(a, withHost) == CacheKey(b, withHost) ==> SameKeyFields(a, b, withHost)
  }

  lemma SameFieldsSameKey(a: Fields, b: Fields, withHost: bool)
    requires SameKeyFields(a, b, withHost)
    ensures CacheKey(a, withHost) == CacheKey(b, withHost)
  {
  }

  lemma Cancel(front: Text, x: Text, y: Text, back: Text)
    ensures front + x + back == front + y + back <==> x == y
  {
    if front + x + back == front + y + back {
      assert x == (front + x + back)[|front|..|front| + |x|];
      assert y == (front + y + back)[|front|..|front| + |y|];
    }
  }

  /** The five parts of a key, grouped around each. */
  lemma KeyParts(host: Text, path: Text, httpMethod: Text, query: Text, body: Text)
    ensures host + path + httpMethod + query + body == [] + host + (path + httpMethod + query + body)
    ensures host + path + httpMethod + query + body == host + path + (httpMethod + query + body)
    ensures host + path + httpMethod + query + body == (host + path) + httpMethod + (query + body)
    ensures host + path + httpMethod + query + body == (host + path + httpMethod + query) + body + []
  {
  }

  /** Changing one field changes the key, except for the scheme and, when keys leave it out, the destination. */
  lemma OneFieldChangesKey(f: Fields, value: Text, withHost: bool)
    ensures CacheKey(f.(path := value), withHost) == CacheKey(f, withHost) <==> value == f.path
    ensures CacheKey(f.(httpMethod := value), withHost) == CacheKey(f, withHost) <==> value == f.httpMethod
    ensures CacheKey(f.(query := value), withHost) == CacheKey(f, withHost) <==> value == f.query
    ensures CacheKey(f.(body := value), withHost) == CacheKey(f, withHost) <==> value == f.body
    ensures CacheKey(f.(destination := value), withHost) == CacheKey(f, withHost)
       <==> value == f.destination || !withHost
    ensures CacheKey(f.(scheme := value), withHost) == CacheKey(f, withHost)
  {
    var host := if withHost then f.destination else [];
    Cancel(host, value, f.path, f.httpMethod + f.query + f.body);
    Cancel(host + f.path, value, f.httpMethod, f.query + f.body);
    Cancel(host + f.path + f.httpMethod, value, f.query, f.body);
    Cancel(host + f.path + f.httpMethod + f.query, value, f.body, []);
    Cancel([], value, f.destination, f.path + f.httpMethod + f.query + f.body);
    KeyParts(host, f.path, f.httpMethod, f.query, f.body);
    KeyParts(host, value, f.httpMethod, f.query, f.body);
    KeyParts(host, f.path, value, f.query, f.body);
    KeyParts(host, f.path, f.httpMethod, value, f.body);
    KeyParts(host, f.path, f.httpMethod, f.query, value);
    KeyParts(value, f.path, f.httpMethod, f.query, f.body);
  }

  // ---- a class of requests whose keys can be read back

  /** In path + method, the method occurs nowhere before the end of the path. */
  predicate MethodEndsPath(f: Fields) {
    forall i :: 0 <= i < |f.path| ==> !OccursAt(f.httpMethod, f.path + f.httpMethod, i)
  }

  predicate Readable(f: Fields, withHost: bool) {
    && (withHost ==> SLASH !in f.destination && f.path != [] && f.path[0] == SLASH)
    && MethodEndsPath(f)
  }

  lemma OccursEarlier(f: Fields, tail: Text, i: nat)
    requires i + |f.httpMethod| <= |f.path + f.httpMethod|
    ensures OccursAt(f.httpMethod, f.path + f.httpMethod + tail, i)
       <==> OccursAt(f.httpMethod, f.path + f.httpMethod, i)
  {
    assert (f.path + f.httpMethod + tail)[i..i + |f.httpMethod|] == (f.path + f.httpMethod)[i..i + |f.httpMethod|];
  }

  /** The first occurrence of the method marks the end of the path. */
  lemma PathsAgree(a: Fields, b: Fields, s: Text, t: Text)
    requires MethodEndsPath(a) && MethodEndsPath(b) && a.httpMethod == b.httpMethod
    requires a.path + a.httpMethod + s == b.path + b.httpMethod + t
    ensures |a.path| <= |b.path|
  {
    var whole := a.path + a.httpMethod + s;
    assert OccursAt(b.httpMethod, whole, |b.path|) by {
      assert whole[|b.path|..|b.path| + |b.httpMethod|] == b.httpMethod;
    }
    if |b.path| < |a.path| {
      OccursEarlier(a, s, |b.path|);
    }
  }

  lemma SplitEqual(a: Text, s: Text, b: Text, t: Text)
    requires a + s == b + t && |a| == |b|
    ensures a == b && s == t
  {
    assert a == (a + s)[..|a|] && b == (b + t)[..|b|];
    assert s == (a + s)[|a|..] && t == (b + t)[|b|..];
  }

  /** The first slash marks the end of the destination. */
  lemma DestinationsAgree(a: Text, s: Text, b: Text, t: Text)
    requires SLASH !in a && SLASH !in b
    requires s != [] && s[0] == SLASH && t != [] && t[0] == SLASH
    requires a + s == b + t
    ensures a == b && s == t
  {
    assert (a + s)[|a|] == SLASH && (b + t)[|b|] == SLASH;
    assert forall i :: 0 <= i < |a| ==> (a + s)[i] == a[i] != SLASH;
    assert forall i :: 0 <= i < |b| ==> (b + t)[i] == b[i] != SLASH;
    SplitEqual(a, s, b, t);
  }

  /** What follows the destination is read back from the end of the path on. */
  lemma TailsReadBack(a: Fields, b: Fields)
    requires MethodEndsPath(a) && MethodEndsPath(b)
    requires a.httpMethod == b.httpMethod && |a.body| == |b.body|
    requires a.path + a.httpMethod + (a.query + a.body) == b.path + b.httpMethod + (b.query + b.body)
    ensures a.path == b.path && a.query == b.query && a.body == b.body
  {
    var s, t := a.query + a.body, b.query + b.body;
    PathsAgree(a, b, s, t);
    PathsAgree(b, a, t, s);
    SplitEqual(a.path + a.httpMethod, s, b.path + b.httpMethod, t);
    SplitEqual(a.path, a.httpMethod, b.path, b.httpMethod);
    SplitEqual(a.query, a.body, b.query, b.body);
  }

  lemma KeyShape(f: Fields, withHost: bool)
    ensures CacheKey(f, withHost)
         == (if withHost then f.destination else []) + (f.path + f.httpMethod + (f.query + f.body))
  {
  }

  /** Of requests that agree on the rest, equal keys have equal destinations. */
  lemma KeysDifferByDestination(a: Fields, b: Fields)
    requires SameKeyFields(a, b, false) && CacheKey(a, true) == CacheKey(b, true)
    ensures a.destination == b.destination
  {
    KeyShape(a, true);
    KeyShape(b, true);
    var tail := a.path + a.httpMethod + (a.query + a.body);
    SplitEqual(a.destination, tail, b.destination, tail);
  }

  /** Within the class, equal keys mean equal destination, path, query and body. */
  lemma KeysReadBack(a: Fields, b: Fields, withHost: bool)
    requires Readable(a, withHost) && Readable(b, withHost)
    requires a.httpMethod == b.httpMethod && |a.body| == |b.body|
    requires CacheKey(a, withHost) == CacheKey(b, withHost)
    ensures SameKeyFields(a, b, withHost)
  {
    KeyShape(a, withHost);
    KeyShape(b, withHost);
    var tailA, tailB := a.path + a.httpMethod + (a.query + a.body), b.path + b.httpMethod + (b.query + b.body);
    if withHost {
      DestinationsAgree(a.destination, tailA, b.destination, tailB);
    } else {
      assert [] + tailA == tailA && [] + tailB == tailB;
    }
    TailsReadBack(a, b);
  }

  /** Sets of readable requests with one method and one body length are free of collisions. */
  lemma ReadableCollisionFree(u: iset<Fields>, withHost: bool, httpMethod: Text, bodyLength: nat)
    requires forall f :: f in u ==> Readable(f, withHost) && f.httpMethod == httpMethod && |f.body| == bodyLength
    ensures CollisionFree(u, withHost)
  {
    forall a, b | a in u && b in u && CacheKey(a, withHost) == CacheKey(b, withHost)
      ensures SameKeyFields(a, b, withHost)
    {
      KeysReadBack(a, b, withHost);
    }
  }

  /** Outside it they need not: what one request has in its query another has in its body. */
  lemma KeysCollide(f: Fields, withHost: bool)
    requires f.query == [] && f.body != []
    ensures var g := f.(query := f.body, body := []);
            CacheKey(f, withHost) == CacheKey(g, withHost) && !SameKeyFields(f, g, withHost)
  {
    assert CacheKey(f, withHost) == CacheKey(f.(query := f.body, body := []), withHost);
  }
}
