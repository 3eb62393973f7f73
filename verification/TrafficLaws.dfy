/**
 * What proxied traffic does, in terms of the HTTP request as it arrives: the case of the host is
 * irrelevant, exact matchers see the request's own path, method and body, and captures record them.
 */
module TrafficLaws {
  import opened Bytes
  import opened Wrappers
  import opened Models
  import opened Pieces
  import opened RequestMatching
  import opened Recording
  import opened Delays
  import opened VersionOne
  import opened Engine
  import QueryString

  // ---- the host

  /** The two hosts differ in nothing but the case of letters. */
  predicate SameHost(a: Text, b: Text) {
    && |a| == |b|
    && forall i :: 0 <= i < |a| ==>
         || a[i] == b[i]
         || (65 <= a[i] as int <= 90 && b[i] as int == a[i] as int + 32)
         || (65 <= b[i] as int <= 90 && a[i] as int == b[i] as int + 32)
  }

  /** The host without capital letters. */
  ghost predicate IsLowerHost(destination: Text, host: Text) {
    SameHost(destination, host) && forall i :: 0 <= i < |destination| ==> !(65 <= destination[i] as int <= 90)
  }

  lemma LowerHostUnique(destination: Text, host: Text)
    ensures IsLowerHost(destination, host) <==> destination == ToLower(host)
  {
    LowerCaseBytes(host);
    LowerCaseBytes(destination);
    EqualFoldIff(destination, host);
    EqualFoldIff(ToLower(host), host);
    ToLowerIdempotent(host);
    if IsLowerHost(destination, host) {
      assert ToLower(destination) == destination;
    }
  }

  /** The same request under a host that differs only in case. */
  function UnderHost(x: Exchange, host: Text): Exchange {
    x.(request := x.request.(host := host))
  }

  /** Requests that differ only in the case of the host get the same answer and delay and leave the same state. */
  lemma HostCaseIrrelevant(lib: Library, s: State, x: Exchange, host: Text, searched: Option<Headers>, answered: bool)
    requires SameHost(x.request.host, host)
    ensures Served(lib, s, UnderHost(x, host), searched) == Served(lib, s, x, searched)
    ensures DelayOf(lib, s, UnderHost(x, host), answered) == DelayOf(lib, s, x, answered)
    ensures AfterTraffic(lib, s, UnderHost(x, host), searched) == AfterTraffic(lib, s, x, searched)
  {
    EqualFoldIff(x.request.host, host);
    assert DetailsOf(UnderHost(x, host).request) == DetailsOf(x.request);
    assert AfterMiddleware(UnderHost(x, host)) == AfterMiddleware(x);
  }

  // ---- matching

  /** The response of a pair whose exact matchers, if any, agree with the request as it arrived. */
  ghost predicate AnswersRaw(p: Pair, h: HttpRequest, webserver: bool) {
    && (p.matcher.path.Some? && p.matcher.path.value.exactMatch.Some? ==>
          p.matcher.path.value.exactMatch.value == h.path)
    && (p.matcher.httpMethod.Some? && p.matcher.httpMethod.value.exactMatch.Some? ==>
          p.matcher.httpMethod.value.exactMatch.value == h.httpMethod)
    && (p.matcher.body.Some? && p.matcher.body.value.exactMatch.Some? ==>
          p.matcher.body.value.exactMatch.value == h.body)
    && (!webserver && p.matcher.destination.Some? && p.matcher.destination.value.exactMatch.Some? ==>
          IsLowerHost(p.matcher.destination.value.exactMatch.value, h.host))
    && (p.matcher.query.Some? && p.matcher.query.value.exactMatch.Some? ==>
          && (forall i :: 0 <= i < |p.matcher.query.value.exactMatch.value| ==>
                p.matcher.query.value.exactMatch.value[i] as int != 59)
          && (forall s :: |Places(p.matcher.query.value.exactMatch.value, s)| == |Places(h.rawQuery, s)|))
  }

  /** Without a cache, what is served comes from a pair that agrees with the raw request. */
  lemma ServedAgreesWithRaw(lib: Library, s: State, x: Exchange, searched: Option<Headers>)
    requires s.cache.None? && Served(lib, s, x, searched).Some?
    ensures exists p :: p in s.pairs && Some(p.response) == Served(lib, s, x, searched)
              && AnswersRaw(p, x.request, s.webserver)
  {
    var r := Request(DetailsOf(x.request).fields, searched);
    var i := FirstIndex(lib, s.pairs, r, s.webserver);
    var p := s.pairs[i];
    assert p in s.pairs && Accepts(lib, p.matcher, r, s.webserver);
    LowerHostUnique(r.fields.destination, x.request.host);
    QueryString.CanonicalBytes(x.request.rawQuery);
  }

  /** Conversely a pair of exact matchers on the raw request's own values makes it served. */
  lemma RawValuesAreServed(lib: Library, s: State, x: Exchange, searched: Option<Headers>, p: Pair, destination: Text)
    requires s.cache.None? && p in s.pairs && IsLowerHost(destination, x.request.host)
    requires p.matcher == RequestMatcher(
                            Some(Exactly(x.request.path)), Some(Exactly(x.request.httpMethod)),
                            Some(Exactly(destination)), p.matcher.scheme, None, Some(Exactly(x.request.body)), None)
    ensures Served(lib, s, x, searched).Some?
  {
    var r := Request(DetailsOf(x.request).fields, searched);
    LowerHostUnique(destination, x.request.host);
    assert Accepts(lib, p.matcher, r, s.webserver);
    FirstMatchNone(lib, s.pairs, r, s.webserver);
  }

  /** The key under which an answer is remembered is made of the raw request's parts. */
  lemma RememberedUnderRawKey(lib: Library, s: State, x: Exchange, searched: Option<Headers>)
    returns (destination: Text, query: Text)
    requires s.mode == Simulate && s.cache == Some(map[])
    ensures IsLowerHost(destination, x.request.host)
    ensures forall i :: 0 <= i < |query| ==> query[i] as int != 59
    ensures forall t :: |Places(query, t)| == |Places(x.request.rawQuery, t)|
    ensures var key := (if s.cacheWebserver then [] else destination)
                       + x.request.path + x.request.httpMethod + query + x.request.body;
            var after := AfterTraffic(lib, s, x, searched);
            after.cache.Some? && after.cache.value.Keys == {key}
  {
    destination, query := ToLower(x.request.host), QueryString.Canonical(x.request.rawQuery);
    LowerHostUnique(destination, x.request.host);
    QueryString.CanonicalBytes(x.request.rawQuery);
  }

  // ---- capture

  /**
   * What is captured without middleware: some stored pair has exactly the request's path, method
   * and scheme, its host in small letters, its body according to its content type, and the headers
   * that the white list names. It is the response of the first capture with that matcher.
   */
  lemma CaptureRecordsRequest(lib: Library, s: State, x: Exchange, searched: Option<Headers>)
    returns (m: RequestMatcher)
    requires s.mode == Capture && x.middleware.Unchanged? && x.request.host != [] && x.upstream.Some?
    ensures var after := AfterTraffic(lib, s, x, searched);
            after == s.(pairs := if exists p :: p in s.pairs && p.matcher == m
                                 then s.pairs else s.pairs + [Pair(m, x.upstream.value)])
    ensures m.path == Some(FieldMatchers(Some(x.request.path), None, None, None, None, None, None))
    ensures m.httpMethod == Some(FieldMatchers(Some(x.request.httpMethod), None, None, None, None, None, None))
    ensures m.scheme == Some(FieldMatchers(Some(x.request.scheme), None, None, None, None, None, None))
    ensures m.destination.Some? && m.destination.value.exactMatch.Some?
    ensures m.destination == Some(FieldMatchers(m.destination.value.exactMatch, None, None, None, None, None, None))
    ensures IsLowerHost(m.destination.value.exactMatch.value, x.request.host)
    ensures m.query.Some? && m.query.value.exactMatch.Some?
    ensures forall t :: |Places(m.query.value.exactMatch.value, t)| == |Places(x.request.rawQuery, t)|
    ensures m.body == Some(match BodyKindOf(x.request.headers)
                           case Json => FieldMatchers(None, None, None, Some(x.request.body), None, None, None)
                           case Xml => FieldMatchers(None, Some(x.request.body), None, None, None, None, None)
                           case Other => FieldMatchers(Some(x.request.body), None, None, None, None, None, None))
    ensures m.headers == CapturedHeaders(x.request.headers, s.whitelist)
  {
    var r := DetailsOf(x.request);
    m := CapturedMatcher(r, s.whitelist);
    LowerHostUnique(r.fields.destination, x.request.host);
    LowerCaseBytes(x.request.host);
    QueryString.CanonicalBytes(x.request.rawQuery);
    CapturedMatcherWrittenOut(r, s.whitelist);
    MatcherStored(s.pairs, m);
  }

  lemma MatcherStored(pairs: seq<Pair>, m: RequestMatcher)
    ensures HasMatcher(pairs, m) <==> exists p :: p in pairs && p.matcher == m
  {
    if p :| p in pairs && p.matcher == m {
      var i :| 0 <= i < |pairs| && pairs[i] == p;
    }
  }

  /** What middleware made of the request is recorded in its place, its query sorted. */
  lemma CaptureRecordsRewritten(lib: Library, s: State, x: Exchange, searched: Option<Headers>)
    requires s.mode == Capture && x.middleware.Rewritten?
    ensures var after, v := AfterTraffic(lib, s, x, searched), x.middleware.view;
            if v.destination == None || v.destination == Some([]) || x.upstream.None? then after == s
            else
              var m := CapturedMatcher(RequestFromV1(v), s.whitelist);
              after == s.(pairs := Added(s.pairs, Pair(m, x.upstream.value)))
  {
    RequestFromV1WrittenOut(x.middleware.view);
  }

  /** Nothing is recorded when middleware, rebuilding or forwarding fails, or outside capture mode. */
  lemma NothingRecorded(lib: Library, s: State, x: Exchange, searched: Option<Headers>)
    requires || s.mode != Capture || x.middleware.Failed? || x.upstream.None?
             || (x.middleware.Unchanged? && x.request.host == [])
    ensures var after := AfterTraffic(lib, s, x, searched);
            && after.pairs == s.pairs && after.delays == s.delays
            && after.mode == s.mode && after.whitelist == s.whitelist
            && (s.mode != Simulate ==> after == s)
  {
    LowerCaseBytes(x.request.host);
  }

  // ---- delays

  /** The delay's pattern matches host and path as they arrived, the host in small letters. */
  ghost predicate AppliesToRaw(lib: Library, d: Delay, h: HttpRequest) {
    && (exists destination :: IsLowerHost(destination, h.host) && lib.regexMatches(d.urlPattern, destination + h.path))
    && (d.httpMethod == [] || SameHost(d.httpMethod, h.httpMethod))
  }

  /** A response is delayed by the first entry that applies, and not at all in capture mode or after an error. */
  lemma DelayOfRaw(lib: Library, s: State, x: Exchange, answered: bool)
    requires forall d :: d in s.delays ==> lib.regexCompiles(d.urlPattern)
    ensures var r := DelayOf(lib, s, x, answered);
            && r != Panics
            && (r == NoDelay <==>
                  || x.troubled || s.mode == Capture || (s.mode == Simulate && !answered)
                  || forall d :: d in s.delays ==> !AppliesToRaw(lib, d, x.request))
            && (r != NoDelay ==>
                  exists i :: 0 <= i < |s.delays| && r == Found(s.delays[i])
                    && AppliesToRaw(lib, s.delays[i], x.request)
                    && forall j :: 0 <= j < i ==> !AppliesToRaw(lib, s.delays[j], x.request))
  {
    var f := DetailsOf(x.request).fields;
    forall d: Delay
      ensures AppliesToRaw(lib, d, x.request) <==> DelayApplies(lib, d, f)
    {
      LowerHostUnique(f.destination, x.request.host);
      EqualFoldIff(d.httpMethod, x.request.httpMethod);
      forall destination | IsLowerHost(destination, x.request.host)
        ensures destination == f.destination
      {
        LowerHostUnique(destination, x.request.host);
      }
    }
    FirstApplying(lib, s.delays, f);
    if i :| FirstToApply(lib, s.delays, f, i) && SearchDelays(lib, s.delays, f) == Found(s.delays[i]) {
      assert AppliesToRaw(lib, s.delays[i], x.request);
    }
  }

  /** The entry at `i` is the first that applies. */
  ghost predicate FirstToApply(lib: Library, delays: seq<Delay>, f: Fields, i: int) {
    && 0 <= i < |delays| && DelayApplies(lib, delays[i], f)
    && forall j :: 0 <= j < i ==> !DelayApplies(lib, delays[j], f)
  }

  /** The search as a statement about positions. */
  lemma {:induction false} FirstApplying(lib: Library, delays: seq<Delay>, f: Fields)
    requires forall d :: d in delays ==> lib.regexCompiles(d.urlPattern)
    ensures var r := SearchDelays(lib, delays, f);
            && r != Panics
            && (r == NoDelay <==> forall d :: d in delays ==> !DelayApplies(lib, d, f))
            && (r != NoDelay ==> exists i :: FirstToApply(lib, delays, f, i) && r == Found(delays[i]))
  {
    if delays != [] {
      var rest := delays[1..];
      assert delays == [delays[0]] + rest && delays[0] in delays;
      FirstApplying(lib, rest, f);
      if DelayApplies(lib, delays[0], f) {
        assert FirstToApply(lib, delays, f, 0);
      } else if i :| FirstToApply(lib, rest, f, i) && SearchDelays(lib, rest, f) == Found(rest[i]) {
        assert forall j :: 0 < j < i + 1 ==> delays[j] == rest[j - 1];
        assert FirstToApply(lib, delays, f, i + 1);
      }
    }
  }
}
