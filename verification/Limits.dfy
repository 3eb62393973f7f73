/**
 * Exactly when the cache is invisible to a set of requests, and three runs in which it is not.
 */
module Limits {
  import opened Bytes
  import opened Wrappers
  import opened Models
  import opened Globs
  import opened HeaderMatching
  import opened HeaderWalks
  import opened RequestMatching
  import opened CacheKeys
  import opened CacheMatching
  import opened Views
  import opened Engine

  /** A request put to simulate mode, and what the map iteration order makes of its headers. */
  datatype Asked = Asked(request: Request, searched: Option<Headers>)
  {
    /** The request as a search leaves it. */
    function AsSearched(): Request { Request(request.fields, searched) }
  }

  ghost predicate From(u: iset<Request>, a: Asked) {
    a.request in u && Searched(a.request.headers, a.searched)
  }

  ghost predicate AskedFrom(u: iset<Request>, asked: seq<Asked>) {
    forall i :: 0 <= i < |asked| ==> From(u, asked[i])
  }

  function AskAll(lib: Library, s: State, asked: seq<Asked>): State {
    if asked == [] then s
    else
      var last := asked[|asked| - 1];
      AfterAnswer(lib, AskAll(lib, s, asked[..|asked| - 1]), last.request.fields, last.searched)
  }

  /** Whatever requests of `u` came before, and whatever the walks over headers, each is answered as without a cache. */
  ghost predicate Invisible(lib: Library, s: State, u: iset<Request>) {
    forall before, a :: AskedFrom(u, before + [a]) ==> AnsweredAsUncached(lib, s, before, a)
  }

  /** Without a cache the search would run, leaving the headers as searched. */
  ghost predicate AnsweredAsUncached(lib: Library, s: State, before: seq<Asked>, a: Asked) {
    Answer(lib, AskAll(lib, s, before), a.request.fields, a.searched) == Uncached(lib, s, a.AsSearched())
  }

  /** What the cache already decides, it decides rightly. */
  ghost predicate PresentAgrees(lib: Library, s: State, r: Request) {
    var e := Lookup(s.cache, r.fields, s.WithHost());
    ShortCircuits(e) ==> ResponseOf(e.value.matchingPair) == Uncached(lib, s, r)
  }

  /** A search for `r1` is remembered as decisive: it misses or finds a pair without headers. */
  ghost predicate Decides(lib: Library, s: State, r1: Request) {
    var m := FirstMatch(lib, s.pairs, r1, s.webserver);
    m.None? || !HeaderBearing(m.value)
  }

  ghost predicate SameKey(s: State, r1: Request, r2: Request) {
    CacheKey(r1.fields, s.WithHost()) == CacheKey(r2.fields, s.WithHost())
  }

  /** What a search for `r1` would put in the cache is right for `r2`, if they share a key that is still open. */
  ghost predicate MemoAgrees(lib: Library, s: State, r1: Request, r2: Request) {
    SameKey(s, r1, r2) && !ShortCircuits(Lookup(s.cache, r1.fields, s.WithHost())) && Decides(lib, s, r1)
    ==> Uncached(lib, s, r1) == Uncached(lib, s, r2)
  }

  ghost predicate AllAgree(lib: Library, s: State, u: iset<Request>) {
    && (forall a :: From(u, a) ==> PresentAgrees(lib, s, a.AsSearched()))
    && (s.cache.Some? ==>
          forall a, b :: From(u, a) && From(u, b) ==> MemoAgrees(lib, s, a.AsSearched(), b.AsSearched()))
  }

  /** After questions from `u`: the same pairs, open keys were open before, and decided keys are decided rightly. */
  ghost predicate AskedRightly(lib: Library, s: State, t: State, u: iset<Request>) {
    && t == s.(cache := t.cache) && t.cache.Some? == s.cache.Some?
    && (forall a :: From(u, a) ==> PresentAgrees(lib, t, a.AsSearched()))
    && (forall a :: From(u, a) ==> StillOpen(s, t, a.request.fields))
  }

  ghost predicate StillOpen(s: State, t: State, f: Fields) {
    !ShortCircuits(Lookup(t.cache, f, t.WithHost())) ==> !ShortCircuits(Lookup(s.cache, f, s.WithHost()))
  }

  /** What a search remembers is what every request with that key is answered from then on, unless it wants headers. */
  lemma AnswerRemembered(lib: Library, s: State, r: Request, g: Fields, any: Option<Headers>)
    requires s.cache.Some? && CacheKey(r.fields, s.WithHost()) == CacheKey(g, s.WithHost())
    requires !ShortCircuits(Lookup(s.cache, r.fields, s.WithHost())) && Decides(lib, s, r)
    ensures Answer(lib, AfterAnswer(lib, s, r.fields, r.headers), g, any) == Uncached(lib, s, r)
  {
    assert r == Request(r.fields, r.headers);
  }

  /** Remembering the outcome for `a` leaves what is decided for `r` right. */
  lemma MemoKeepsAgreement(lib: Library, s: State, t: State, a: Asked, r: Request)
    requires t == s.(cache := t.cache) && t.cache.Some? == s.cache.Some?
    requires s.cache.Some? ==> MemoAgrees(lib, s, a.AsSearched(), r)
    requires PresentAgrees(lib, t, r)
    requires !ShortCircuits(Lookup(s.cache, a.request.fields, s.WithHost()))
    ensures PresentAgrees(lib, AfterAnswer(lib, t, a.request.fields, a.searched), r)
  {
  }

  /** A key that is open after an answer was open before. */
  lemma AnswerOpensNothing(lib: Library, t: State, a: Asked, f: Fields)
    ensures StillOpen(t, AfterAnswer(lib, t, a.request.fields, a.searched), f)
  {
  }

  lemma AskOne(lib: Library, s: State, t: State, u: iset<Request>, a: Asked)
    requires AllAgree(lib, s, u) && AskedRightly(lib, s, t, u) && From(u, a)
    ensures AskedRightly(lib, s, AfterAnswer(lib, t, a.request.fields, a.searched), u)
    ensures Answer(lib, t, a.request.fields, a.searched) == Uncached(lib, s, a.AsSearched())
  {
    assert PresentAgrees(lib, t, a.AsSearched());
    assert StillOpen(s, t, a.request.fields);
    if !ShortCircuits(Lookup(t.cache, a.request.fields, t.WithHost())) {
      forall b | From(u, b)
        ensures PresentAgrees(lib, AfterAnswer(lib, t, a.request.fields, a.searched), b.AsSearched())
        ensures StillOpen(s, AfterAnswer(lib, t, a.request.fields, a.searched), b.request.fields)
      {
        assert PresentAgrees(lib, t, b.AsSearched()) && StillOpen(s, t, b.request.fields);
        assert s.cache.Some? ==> MemoAgrees(lib, s, a.AsSearched(), b.AsSearched());
        MemoKeepsAgreement(lib, s, t, a, b.AsSearched());
        AnswerOpensNothing(lib, t, a, b.request.fields);
      }
    }
  }

  lemma {:induction false} AskMany(lib: Library, s: State, u: iset<Request>, asked: seq<Asked>)
    requires AllAgree(lib, s, u) && AskedFrom(u, asked)
    ensures AskedRightly(lib, s, AskAll(lib, s, asked), u)
  {
    if asked != [] {
      var front, last := asked[..|asked| - 1], asked[|asked| - 1];
      AskMany(lib, s, u, front);
      AskOne(lib, s, AskAll(lib, s, front), u, last);
    }
  }

  lemma AgreeingIsInvisible(lib: Library, s: State, u: iset<Request>)
    requires AllAgree(lib, s, u)
    ensures Invisible(lib, s, u)
  {
    forall before, a | AskedFrom(u, before + [a])
      ensures AnsweredAsUncached(lib, s, before, a)
    {
      var all := before + [a];
      assert all[|before|] == a;
      assert forall i :: 0 <= i < |before| ==> all[i] == before[i];
      AskMany(lib, s, u, before);
      AskOne(lib, s, AskAll(lib, s, before), u, a);
    }
  }

  lemma InvisibleAgrees(lib: Library, s: State, u: iset<Request>)
    requires Invisible(lib, s, u)
    ensures AllAgree(lib, s, u)
  {
    forall a | From(u, a)
      ensures PresentAgrees(lib, s, a.AsSearched())
    {
      assert AskedFrom(u, [] + [a]);
      assert AnsweredAsUncached(lib, s, [], a);
    }
    forall a, b | From(u, a) && From(u, b) && s.cache.Some?
      ensures MemoAgrees(lib, s, a.AsSearched(), b.AsSearched())
    {
      assert AskedFrom(u, [a] + [b]);
      assert AnsweredAsUncached(lib, s, [a], b);
      assert AskAll(lib, s, [a][..0]) == s;
      assert AskAll(lib, s, [a]) == AfterAnswer(lib, s, a.request.fields, a.searched);
    }
  }

  /**
   * From any state, the cache is invisible to every sequence of requests drawn from `u` if and
   * only if what it decides already is right and no two requests of `u` that share an open key
   * disagree once the first is remembered.
   */
  lemma InvisibleIffAllAgree(lib: Library, s: State, u: iset<Request>)
    ensures Invisible(lib, s, u) <==> AllAgree(lib, s, u)
  {
    if AllAgree(lib, s, u) {
      AgreeingIsInvisible(lib, s, u);
    }
    if Invisible(lib, s, u) {
      InvisibleAgrees(lib, s, u);
    }
  }

  // ---- after a switch to simulate

  /** The last fully exact pair under the key of `f`, if there is one and it wants no headers. */
  function PreloadedPair(s: State, f: Fields): Option<Pair> {
    var i := LastExact(s.pairs, CacheKey(f, s.WithHost()), s.WithHost());
    if i >= 0 && !HeaderBearing(s.pairs[i]) then Some(s.pairs[i]) else None
  }

  ghost predicate SwitchAccepted(s: State, headers: seq<Text>) {
    ModeProblem(s, Ascii("simulate"), headers).None?
  }

  /**
   * After any switch to simulate, a request whose key a fully exact pair is stored under is
   * answered by the last such pair, if headerless, whether or not that pair accepts it or comes first.
   */
  lemma SwitchServesLastExact(lib: Library, s: State, headers: seq<Text>, f: Fields, searched: Option<Headers>)
    requires s.cache.Some? && SwitchAccepted(s, headers) && PreloadedPair(s, f).Some?
    ensures Answer(lib, AfterSetMode(s, Ascii("simulate"), headers), f, searched)
         == Some(PreloadedPair(s, f).value.response)
  {
    PreloadIsLastWins(s.cache.value, s.pairs, s.WithHost(), CacheKey(f, s.WithHost()));
  }

  /** What a switch makes of a key: its last fully exact pair decides it or opens it, else it stays as it was. */
  lemma SwitchDecides(s: State, headers: seq<Text>, f: Fields)
    requires s.cache.Some? && SwitchAccepted(s, headers)
    ensures var e := Lookup(AfterSetMode(s, Ascii("simulate"), headers).cache, f, s.WithHost());
            if LastExact(s.pairs, CacheKey(f, s.WithHost()), s.WithHost()) >= 0
            then (ShortCircuits(e) <==> PreloadedPair(s, f).Some?)
              && (ShortCircuits(e) ==> e.value.matchingPair == PreloadedPair(s, f))
            else e == Lookup(s.cache, f, s.WithHost())
  {
    PreloadIsLastWins(s.cache.value, s.pairs, s.WithHost(), CacheKey(f, s.WithHost()));
  }

  /** The pair preloaded under the request's key, if any, gives the uncached answer. */
  ghost predicate PreloadAgrees(lib: Library, s: State, a: Asked) {
    PreloadedPair(s, a.request.fields).Some? ==>
      Some(PreloadedPair(s, a.request.fields).value.response) == Uncached(lib, s, a.AsSearched())
  }

  /** Under a key without a preloaded pair, a miss or a first match without headers is shared. */
  ghost predicate MatchesAgree(lib: Library, s: State, a: Asked, b: Asked) {
    SameKey(s, a.request, b.request) && PreloadedPair(s, a.request.fields).None? && Decides(lib, s, a.AsSearched())
    ==> Uncached(lib, s, a.AsSearched()) == Uncached(lib, s, b.AsSearched())
  }

  ghost predicate PreloadsAgree(lib: Library, s: State, u: iset<Request>) {
    forall a :: From(u, a) ==> PreloadAgrees(lib, s, a)
  }

  ghost predicate FirstMatchesAgree(lib: Library, s: State, u: iset<Request>) {
    forall a, b :: From(u, a) && From(u, b) ==> MatchesAgree(lib, s, a, b)
  }

  /**
   * After a switch to simulate on a flushed cache, the cache is invisible to every sequence of
   * requests drawn from `u` if and only if the stored pairs satisfy two conditions that mention
   * neither the cache nor the requests that came before.
   */
  lemma InvisibleAfterSwitchIff(lib: Library, s: State, headers: seq<Text>, u: iset<Request>)
    requires s.cache == Some(map[]) && SwitchAccepted(s, headers)
    ensures Invisible(lib, AfterSetMode(s, Ascii("simulate"), headers), u)
       <==> PreloadsAgree(lib, s, u) && FirstMatchesAgree(lib, s, u)
  {
    var t := AfterSetMode(s, Ascii("simulate"), headers);
    InvisibleIffAllAgree(lib, t, u);
    forall a | From(u, a)
      ensures PresentAgrees(lib, t, a.AsSearched()) <==> PreloadAgrees(lib, s, a)
    {
      AgreementAfterSwitch(lib, s, headers, a, a);
    }
    forall a, b | From(u, a) && From(u, b)
      ensures MemoAgrees(lib, t, a.AsSearched(), b.AsSearched()) <==> MatchesAgree(lib, s, a, b)
    {
      AgreementAfterSwitch(lib, s, headers, a, b);
    }
  }

  /** What the two conditions of agreement come to right after the switch. */
  lemma AgreementAfterSwitch(lib: Library, s: State, headers: seq<Text>, a: Asked, b: Asked)
    requires s.cache == Some(map[]) && SwitchAccepted(s, headers)
    ensures var t := AfterSetMode(s, Ascii("simulate"), headers);
            && (PresentAgrees(lib, t, a.AsSearched()) <==> PreloadAgrees(lib, s, a))
            && (MemoAgrees(lib, t, a.AsSearched(), b.AsSearched()) <==> MatchesAgree(lib, s, a, b))
  {
    SwitchDecides(s, headers, a.request.fields);
  }

  // ---- runs in which the cache is visible

  const X: Text := [120]
  const Y: Text := [121]

  function Plain(query: Text, body: Text, headers: Option<Headers>): Request {
    Request(Fields([SLASH], X, Y, X, query, body), headers)
  }

  function Ok(status: int): Response {
    Response(status, [], None)
  }

  function InSimulate(pairs: seq<Pair>): State {
    Blank(Simulate, true, false, false).(pairs := pairs)
  }

  /** Such an instance comes about by starting with these pairs imported. */
  lemma InSimulateInitial(lib: Library, pairs: seq<Pair>)
    requires forall p :: p in pairs ==> CanonicalQuery(p)
    ensures Initial(lib, InSimulate(pairs))
  {
    var blank, view := Blank(Simulate, true, false, false), SimulationView(PairsToViews(lib, pairs), []);
    PairsRoundTrip(lib, pairs);
    assert [] + pairs == pairs;
    assert AfterImport(lib, blank, view) == InSimulate(pairs);
    assert [view][..0] == [];
    assert AfterStartup(lib, blank, [view]) == InSimulate(pairs);
  }

  /** Matches every request that has the header x with the value y. */
  const WANTS_HEADER: Pair := Pair(RequestMatcher(None, None, None, None, None, None, Some(map[X := [Y]])), Ok(200))

  /** The request without headers misses; the miss then hides the pair from the request with headers. */
  lemma MissHidesHeaderPair(lib: Library)
    ensures var s := InSimulate([WANTS_HEADER]);
            var without, with := Plain([], [], None), Plain([], [], Some(map[X := [Y]]));
            var t := AfterAnswer(lib, s, without.fields, without.headers);
            && Initial(lib, s)
            && Answer(lib, t, with.fields, with.headers) == None
            && Uncached(lib, t, with) == Some(Ok(200))
  {
    var s := InSimulate([WANTS_HEADER]);
    InSimulateInitial(lib, s.pairs);
    var without, with := Plain([], [], None), Plain([], [], Some(map[X := [Y]]));
    HeaderIsWanted(lib);
    FirstMatchNone(lib, s.pairs, without, false);
    FirstMatchAt(lib, s.pairs, with, false, 0);
    AnswerRemembered(lib, s, without, with.fields, with.headers);
  }

  lemma HeaderIsWanted(lib: Library)
    ensures !Accepts(lib, WANTS_HEADER.matcher, Plain([], [], None), false)
    ensures Accepts(lib, WANTS_HEADER.matcher, Plain([], [], Some(map[X := [Y]])), false)
  {
    assert X in Entries(WANTS_HEADER.matcher.headers);
    assert !HeaderAccepted(X, [Y], map[]);
    GlobReflexive(ToLower(Y));
    assert ValueAccepted(Y, [Y]) by {
      assert GlobAccepts(ToLower(Y), ToLower([Y][0]));
    }
    assert EqualFold(X, X);
    assert HeaderAccepted(X, [Y], map[X := [Y]]);
  }

  function ExactPair(r: Request, status: int): Pair {
    var f := r.fields;
    Pair(RequestMatcher(Some(Exactly(f.path)), Some(Exactly(f.httpMethod)), Some(Exactly(f.destination)),
                        Some(Exactly(f.scheme)), Some(Exactly(f.query)), Some(Exactly(f.body)), None),
         Ok(status))
  }

  /** Of two pairs for one exact request matching serves the first, but preloading the second. */
  lemma PreloadServesLast(lib: Library)
    ensures var r := Plain([], [], None);
            var s := InSimulate([ExactPair(r, 1), ExactPair(r, 2)]);
            var t := AfterSetMode(s, Ascii("simulate"), []);
            && Initial(lib, s)
            && Answer(lib, t, r.fields, r.headers) == Some(Ok(2))
            && Uncached(lib, t, r) == Some(Ok(1))
  {
    var r := Plain([], [], None);
    var s := InSimulate([ExactPair(r, 1), ExactPair(r, 2)]);
    InSimulateInitial(lib, s.pairs);
    var k := CacheKey(r.fields, true);
    assert ExactRequest(s.pairs[1].matcher) == Some(r);
    assert ExactUnder(s.pairs[1], k, true);
    PreloadIsLastWins(map[], s.pairs, true, k);
    assert LastExact(s.pairs, k, true) == 1;
    FirstMatchAt(lib, s.pairs, r, false, 0);
  }

  /** A body moved into the query keeps the key, so the response of a pair that rejects the request is served. */
  lemma KeysRunTogether(lib: Library)
    ensures var r1, r2 := Plain([], Y, None), Plain(Y, [], None);
            var s := InSimulate([ExactPair(r1, 1)]);
            var t := AfterAnswer(lib, s, r1.fields, r1.headers);
            && Initial(lib, s)
            && Answer(lib, t, r2.fields, r2.headers) == Some(Ok(1))
            && Uncached(lib, t, r2) == None
  {
    var r1, r2 := Plain([], Y, None), Plain(Y, [], None);
    var s := InSimulate([ExactPair(r1, 1)]);
    InSimulateInitial(lib, s.pairs);
    KeysCollide(r1.fields, true);
    FirstMatchAt(lib, s.pairs, r1, false, 0);
    FirstMatchNone(lib, s.pairs, r2, false);
    AnswerRemembered(lib, s, r1, r2.fields, r2.headers);
  }
}
