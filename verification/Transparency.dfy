/**
 * When does the cache agree with having no cache? The plain claim is false: keys ignore headers
 * and run fields together, preloading is last-wins while matching is first-wins, and a cached
 * miss hides pairs that want other headers. These are the conditions under which answers are
 * right, for all runs, and runs that show they cannot be dropped.
 */
module Transparency {
  import opened Bytes
  import opened Wrappers
  import opened Models
  import opened HeaderMatching
  import opened HeaderWalks
  import opened RequestMatching
  import opened CacheKeys
  import opened CacheMatching
  import opened Engine
  import opened Runs

  // ---- conditions on a run

  predicate SwitchesToSimulate(s: State, e: Event) {
    e.SetMode? && ModeProblem(s, e.name, e.headers).None? && ParseMode(e.name).value == Simulate
  }

  /** The requests whose keys the step uses belong to `u`. */
  ghost predicate StepWithin(u: iset<Fields>, s: State, e: Event) {
    && (e.Traffic? && s.mode == Simulate ==> DetailsOf(e.exchange.request).fields in u)
    && (SwitchesToSimulate(s, e) ==>
          forall p :: p in s.pairs && ExactRequest(p.matcher).Some? ==> ExactRequest(p.matcher).value.fields in u)
  }

  ghost predicate RunWithin(lib: Library, u: iset<Fields>, s0: State, events: seq<Event>) {
    forall i :: 0 <= i < |events| ==> StepWithin(u, Run(lib, s0, events[..i]), events[i])
  }

  /** Each fully exact pair without headers is the first match of its own exact request. */
  ghost predicate Faithful(lib: Library, s: State) {
    forall p :: p in s.pairs && ExactRequest(p.matcher).Some? && !HeaderBearing(p) ==>
      FirstMatch(lib, s.pairs, ExactRequest(p.matcher).value, s.webserver) == Some(p)
  }

  /** Each fully exact pair without headers accepts its own exact values. */
  ghost predicate SelfAccepting(lib: Library, s: State) {
    forall p :: p in s.pairs && ExactRequest(p.matcher).Some? && !HeaderBearing(p) ==>
      FieldsAccept(lib, p.matcher, ExactRequest(p.matcher).value.fields, s.webserver)
  }

  ghost predicate FaithfulSwitches(lib: Library, s0: State, events: seq<Event>) {
    forall i :: 0 <= i < |events| && SwitchesToSimulate(Run(lib, s0, events[..i]), events[i]) ==>
      Faithful(lib, Run(lib, s0, events[..i]))
  }

  ghost predicate SelfAcceptingSwitches(lib: Library, s0: State, events: seq<Event>) {
    forall i :: 0 <= i < |events| && SwitchesToSimulate(Run(lib, s0, events[..i]), events[i]) ==>
      SelfAccepting(lib, Run(lib, s0, events[..i]))
  }

  // ---- what the cache entries then satisfy

  ghost predicate EntriesWithin(u: iset<Fields>, s: State) {
    forall k :: k in s.Entries() ==> s.Entries()[k].request.fields in u
  }

  /** An entry that decides without a search records the first match of its request. */
  ghost predicate Genuine(lib: Library, s: State, e: CachedResponse) {
    ShortCircuits(Some(e)) ==> Scanned(lib, s.pairs, s.webserver, e)
  }

  ghost predicate AllGenuine(lib: Library, s: State) {
    forall k :: k in s.Entries() ==> Genuine(lib, s, s.Entries()[k])
  }

  /** A pair that an entry serves without a search accepts the fields of the entry's request. */
  ghost predicate Sound(lib: Library, s: State, e: CachedResponse) {
    ShortCircuits(Some(e)) && e.matchingPair.Some? ==>
      FieldsAccept(lib, e.matchingPair.value.matcher, e.request.fields, s.webserver)
  }

  ghost predicate AllSound(lib: Library, s: State) {
    forall k :: k in s.Entries() ==> Sound(lib, s, s.Entries()[k])
  }

  /** A cache entry after a step is old, new from a search, or new from preloading; old ones saw the same pairs. */
  lemma EntryOrigin(lib: Library, s: State, e: Event, k: Text)
    requires Invariant(lib, s) && k in Step(lib, s, e).Entries()
    ensures var t, entry := Step(lib, s, e), Step(lib, s, e).Entries()[k];
            && t.pairs == s.pairs && t.webserver == s.webserver
            && (|| (k in s.Entries() && entry == s.Entries()[k])
                || (e.Traffic? && s.mode == Simulate && Scanned(lib, t.pairs, t.webserver, entry)
                    && entry.request.fields == DetailsOf(e.exchange.request).fields)
                || (SwitchesToSimulate(s, e) && FromPreload(s.pairs, entry)
                    && entry == Entry(entry.request, entry.matchingPair)))
  {
    if e.SetMode? && SwitchesToSimulate(s, e) && s.cache.Some? {
      PreloadIsLastWins(s.cache.value, s.pairs, s.WithHost(), k);
      var i := LastExact(s.pairs, k, s.WithHost());
      if i >= 0 {
        assert s.pairs[i] in s.pairs;
      }
    }
  }

  lemma {:induction false} RunEntriesWithin(lib: Library, u: iset<Fields>, s0: State, events: seq<Event>)
    requires Initial(lib, s0) && RunWithin(lib, u, s0, events)
    ensures EntriesWithin(u, Run(lib, s0, events))
  {
    if events == [] {
      InitialInvariant(lib, s0);
    } else {
      var n := |events| - 1;
      var front, e := events[..n], events[n];
      PrefixRuns(events, n);
      RunEntriesWithin(lib, u, s0, front);
      RunKeeps(lib, s0, front);
      var s := Run(lib, s0, front);
      assert StepWithin(u, s, e);
      forall k | k in Step(lib, s, e).Entries()
        ensures Step(lib, s, e).Entries()[k].request.fields in u
      {
        EntryOrigin(lib, s, e, k);
      }
    }
  }

  lemma PrefixRuns(events: seq<Event>, n: nat)
    requires n <= |events|
    ensures forall i :: 0 <= i < n ==> events[..n][..i] == events[..i] && events[..n][i] == events[i]
  {
  }

  lemma {:induction false} RunGenuine(lib: Library, s0: State, events: seq<Event>)
    requires Initial(lib, s0) && FaithfulSwitches(lib, s0, events)
    ensures AllGenuine(lib, Run(lib, s0, events))
  {
    if events == [] {
      InitialInvariant(lib, s0);
    } else {
      var n := |events| - 1;
      var front, e := events[..n], events[n];
      PrefixRuns(events, n);
      RunGenuine(lib, s0, front);
      RunKeeps(lib, s0, front);
      var s := Run(lib, s0, front);
      assert SwitchesToSimulate(s, e) ==> Faithful(lib, s);
      forall k | k in Step(lib, s, e).Entries()
        ensures Genuine(lib, Step(lib, s, e), Step(lib, s, e).Entries()[k])
      {
        EntryOrigin(lib, s, e, k);
        if k in s.Entries() {
          assert Genuine(lib, s, s.Entries()[k]);
        }
      }
    }
  }

  lemma {:induction false} RunSound(lib: Library, s0: State, events: seq<Event>)
    requires Initial(lib, s0) && SelfAcceptingSwitches(lib, s0, events)
    ensures AllSound(lib, Run(lib, s0, events))
  {
    if events == [] {
      InitialInvariant(lib, s0);
    } else {
      var n := |events| - 1;
      var front, e := events[..n], events[n];
      PrefixRuns(events, n);
      RunSound(lib, s0, front);
      RunKeeps(lib, s0, front);
      var s := Run(lib, s0, front);
      assert SwitchesToSimulate(s, e) ==> SelfAccepting(lib, s);
      forall k | k in Step(lib, s, e).Entries()
        ensures Sound(lib, Step(lib, s, e), Step(lib, s, e).Entries()[k])
      {
        EntryOrigin(lib, s, e, k);
        if k in s.Entries() {
          assert Sound(lib, s, s.Entries()[k]);
        }
      }
    }
  }

  /** Requests agreeing on the key fields are accepted by the same field matchers. */
  lemma SameKeyFieldsSameVerdict(lib: Library, m: RequestMatcher, a: Fields, b: Fields, s: State)
    requires SameKeyFields(a, b, s.WithHost()) && (s.cacheWebserver ==> s.webserver)
    ensures FieldsAccept(lib, m, a, s.webserver) == FieldsAccept(lib, m, b, s.webserver)
  {
  }

  /** The decisive entry for `f`, and what is known about the request stored in it. */
  lemma DecisiveEntry(lib: Library, u: iset<Fields>, s: State, f: Fields) returns (e: CachedResponse)
    requires Invariant(lib, s) && EntriesWithin(u, s) && f in u && CollisionFree(u, s.WithHost())
    requires ShortCircuits(Lookup(s.cache, f, s.WithHost()))
    ensures Lookup(s.cache, f, s.WithHost()) == Some(e) && SameKeyFields(e.request.fields, f, s.WithHost())
    ensures EntryOk(lib, s, CacheKey(f, s.WithHost()), e)
    ensures CacheKey(f, s.WithHost()) in s.Entries() && s.Entries()[CacheKey(f, s.WithHost())] == e
  {
    var k := CacheKey(f, s.WithHost());
    e := s.Entries()[k];
    assert EntryOk(lib, s, k, e);
    assert e.request.fields in u;
  }

  /**
   * A fully exact pair accepts only requests that agree with it on the key fields its matching
   * looks at, so preloading can decide every request it matches. A web server's pairs accept any
   * destination; if its cache keys by host, as when the flag is set after the cache is built,
   * the keys agree exactly when the destinations do.
   */
  lemma ExactPairsMatchOwnKey(lib: Library, m: RequestMatcher, r: Request, webserver: bool, withHost: bool)
    requires ExactRequest(m).Some? && Accepts(lib, m, r, webserver)
    ensures var f := ExactRequest(m).value.fields;
            && SameKeyFields(f, r.fields, withHost && !webserver)
            && CacheKey(f, withHost && !webserver) == CacheKey(r.fields, withHost && !webserver)
            && (CacheKey(f, withHost) == CacheKey(r.fields, withHost)
                <==> (withHost && webserver ==> f.destination == r.fields.destination))
  {
    var f := ExactRequest(m).value.fields;
    SameFieldsSameKey(f, r.fields, withHost && !webserver);
    if withHost && CacheKey(f, true) == CacheKey(r.fields, true) {
      KeysDifferByDestination(f, r.fields);
    }
  }

  // ---- main results

  /**
   * Transparency. If no stored pair wants headers, equal keys mean equal key fields, and every
   * switch to simulate found its fully exact pairs to be their own first matches, then every
   * answer, misses included, is what a search of the current simulation answers.
   */
  lemma CacheTransparent(lib: Library, u: iset<Fields>, s0: State, events: seq<Event>, h: HttpRequest,
                         searched: Option<Headers>)
    requires Initial(lib, s0)
    requires RunWithin(lib, u, s0, events) && DetailsOf(h).fields in u && CollisionFree(u, s0.WithHost())
    requires FaithfulSwitches(lib, s0, events)
    requires forall p :: p in Run(lib, s0, events).pairs ==> !HeaderBearing(p)
    ensures Answer(lib, Run(lib, s0, events), DetailsOf(h).fields, searched)
         == Uncached(lib, Run(lib, s0, events), DetailsOf(h))
  {
    var s, r := Run(lib, s0, events), DetailsOf(h);
    RunKeeps(lib, s0, events);
    FlagsNeverChange(lib, s0, events);
    RunEntriesWithin(lib, u, s0, events);
    RunGenuine(lib, s0, events);
    if ShortCircuits(Lookup(s.cache, r.fields, s.WithHost())) {
      var e := DecisiveEntry(lib, u, s, r.fields);
      assert Genuine(lib, s, e);
      HeaderlessSameMatch(lib, s, e.request, r);
    } else {
      HeaderlessSameMatch(lib, s, Request(r.fields, searched), r);
    }
  }

  /** For requests with one method and body length whose keys can be read back, keys need no assumption. */
  lemma CacheTransparentForReadableKeys(lib: Library, httpMethod: Text, bodyLength: nat, s0: State, events: seq<Event>,
                                        h: HttpRequest, searched: Option<Headers>)
    requires Initial(lib, s0)
    requires var u := iset f | Readable(f, s0.WithHost()) && f.httpMethod == httpMethod && |f.body| == bodyLength;
             RunWithin(lib, u, s0, events) && DetailsOf(h).fields in u
    requires FaithfulSwitches(lib, s0, events)
    requires forall p :: p in Run(lib, s0, events).pairs ==> !HeaderBearing(p)
    ensures Answer(lib, Run(lib, s0, events), DetailsOf(h).fields, searched)
         == Uncached(lib, Run(lib, s0, events), DetailsOf(h))
  {
    var u := iset f | Readable(f, s0.WithHost()) && f.httpMethod == httpMethod && |f.body| == bodyLength;
    ReadableCollisionFree(u, s0.WithHost(), httpMethod, bodyLength);
    CacheTransparent(lib, u, s0, events, h, searched);
  }

  lemma HeaderlessSameMatch(lib: Library, s: State, r1: Request, r2: Request)
    requires SameKeyFields(r1.fields, r2.fields, s.WithHost()) && (s.cacheWebserver ==> s.webserver)
    requires forall p :: p in s.pairs ==> !HeaderBearing(p)
    ensures FirstMatch(lib, s.pairs, r1, s.webserver) == FirstMatch(lib, s.pairs, r2, s.webserver)
  {
    forall p | p in s.pairs
      ensures Accepts(lib, p.matcher, r1, s.webserver) == Accepts(lib, p.matcher, r2, s.webserver)
    {
      SameKeyFieldsSameVerdict(lib, p.matcher, r1.fields, r2.fields, s);
    }
    SameVerdictsSameMatch(lib, s.pairs, r1, r2, s.webserver);
  }

  /** Among the pairs whose fields accept `f`, those without headers come first. */
  ghost predicate HeadersComeLast(lib: Library, s: State, f: Fields) {
    forall i, j :: 0 <= i < j < |s.pairs| ==>
      !(&& HeaderBearing(s.pairs[i]) && FieldsAccept(lib, s.pairs[i].matcher, f, s.webserver)
        && !HeaderBearing(s.pairs[j]) && FieldsAccept(lib, s.pairs[j].matcher, f, s.webserver))
  }

  /** The cache holds a miss under the key of `f`. */
  ghost predicate RememberedMiss(s: State, f: Fields) {
    var e := Lookup(s.cache, f, s.WithHost());
    e.Some? && e.value.matchingPair.None?
  }

  /** With pairs that want headers last, only a remembered miss keeps a request from its first match. */
  lemma AnswerUnlessMiss(lib: Library, u: iset<Fields>, s: State, r: Request, searched: Option<Headers>)
    requires Invariant(lib, s) && EntriesWithin(u, s) && AllGenuine(lib, s) && CollisionFree(u, s.WithHost())
    requires r.fields in u && HeadersComeLast(lib, s, r.fields)
    requires NothingLost(Entries(r.headers)) && Searched(r.headers, searched)
    ensures Answer(lib, s, r.fields, searched) == if RememberedMiss(s, r.fields) then None else Uncached(lib, s, r)
  {
    if ShortCircuits(Lookup(s.cache, r.fields, s.WithHost())) {
      var e := DecisiveEntry(lib, u, s, r.fields);
      assert Genuine(lib, s, e);
      if e.matchingPair.Some? {
        HeaderlessMatchShared(lib, s, e.request, r);
      }
    } else {
      SearchedSameMatch(lib, s.pairs, r.fields, r.headers, searched, s.webserver);
    }
  }

  /**
   * Exactness with headers. If, for the request at hand, no pair that wants headers precedes one
   * that does not, then the answer is the first match for the request's own headers, whatever
   * requests with the same key came before, unless one of them left a miss; then it is an error.
   */
  lemma AnswersExact(lib: Library, u: iset<Fields>, s0: State, events: seq<Event>, h: HttpRequest,
                     searched: Option<Headers>)
    requires Initial(lib, s0)
    requires RunWithin(lib, u, s0, events) && DetailsOf(h).fields in u && CollisionFree(u, s0.WithHost())
    requires FaithfulSwitches(lib, s0, events)
    requires HeadersComeLast(lib, Run(lib, s0, events), DetailsOf(h).fields)
    requires NothingLost(Entries(h.headers)) && Searched(h.headers, searched)
    ensures var s, r := Run(lib, s0, events), DetailsOf(h);
            Answer(lib, s, r.fields, searched) == if RememberedMiss(s, r.fields) then None else Uncached(lib, s, r)
  {
    RunKeeps(lib, s0, events);
    FlagsNeverChange(lib, s0, events);
    RunEntriesWithin(lib, u, s0, events);
    RunGenuine(lib, s0, events);
    AnswerUnlessMiss(lib, u, Run(lib, s0, events), DetailsOf(h), searched);
  }

  /** A first match without headers is the first match of every request with the same key fields. */
  lemma HeaderlessMatchShared(lib: Library, s: State, r1: Request, r2: Request)
    requires SameKeyFields(r1.fields, r2.fields, s.WithHost()) && (s.cacheWebserver ==> s.webserver)
    requires HeadersComeLast(lib, s, r2.fields)
    requires var m := FirstMatch(lib, s.pairs, r1, s.webserver); m.Some? && !HeaderBearing(m.value)
    ensures FirstMatch(lib, s.pairs, r2, s.webserver) == FirstMatch(lib, s.pairs, r1, s.webserver)
  {
    var j := FirstIndex(lib, s.pairs, r1, s.webserver);
    SameKeyFieldsSameVerdict(lib, s.pairs[j].matcher, r1.fields, r2.fields, s);
    forall i | 0 <= i < j
      ensures !Accepts(lib, s.pairs[i].matcher, r2, s.webserver)
    {
      SameKeyFieldsSameVerdict(lib, s.pairs[i].matcher, r1.fields, r2.fields, s);
    }
    FirstMatchAt(lib, s.pairs, r2, s.webserver, j);
  }

  /** An error, where a search would have found a pair, hides only pairs that want headers. */
  lemma ErrorsHideOnlyHeaderPairs(lib: Library, u: iset<Fields>, s0: State, events: seq<Event>, h: HttpRequest,
                                  searched: Option<Headers>)
    requires Initial(lib, s0)
    requires RunWithin(lib, u, s0, events) && DetailsOf(h).fields in u && CollisionFree(u, s0.WithHost())
    requires NothingLost(Entries(h.headers)) && Searched(h.headers, searched)
    requires Answer(lib, Run(lib, s0, events), DetailsOf(h).fields, searched).None?
    ensures var s := Run(lib, s0, events);
            var m := FirstMatch(lib, s.pairs, DetailsOf(h), s.webserver);
            m.Some? ==> HeaderBearing(m.value)
  {
    var s, r := Run(lib, s0, events), DetailsOf(h);
    RunKeeps(lib, s0, events);
    FlagsNeverChange(lib, s0, events);
    RunEntriesWithin(lib, u, s0, events);
    var j := FirstIndex(lib, s.pairs, r, s.webserver);
    if ShortCircuits(Lookup(s.cache, r.fields, s.WithHost())) {
      var e := DecisiveEntry(lib, u, s, r.fields);
      FirstMatchNone(lib, s.pairs, e.request, s.webserver);
      if j < |s.pairs| {
        assert s.pairs[j] in s.pairs;
        SameKeyFieldsSameVerdict(lib, s.pairs[j].matcher, e.request.fields, r.fields, s);
      }
    } else {
      SearchedSameMatch(lib, s.pairs, r.fields, h.headers, searched, s.webserver);
    }
  }

  /**
   * Soundness for arbitrary, even ambiguous, simulations and arbitrary headers: a response that is
   * served belongs to a pair stored now whose fields and headers all accept the request.
   */
  lemma ServedResponsesSound(lib: Library, u: iset<Fields>, s0: State, events: seq<Event>, h: HttpRequest,
                             searched: Option<Headers>)
    requires Initial(lib, s0)
    requires RunWithin(lib, u, s0, events) && DetailsOf(h).fields in u && CollisionFree(u, s0.WithHost())
    requires SelfAcceptingSwitches(lib, s0, events)
    requires Searched(h.headers, searched)
    ensures var s := Run(lib, s0, events);
            var answer := Answer(lib, s, DetailsOf(h).fields, searched);
            answer.Some? ==> ServedFor(lib, s, DetailsOf(h), answer.value)
  {
    var s, r := Run(lib, s0, events), DetailsOf(h);
    RunKeeps(lib, s0, events);
    FlagsNeverChange(lib, s0, events);
    RunEntriesWithin(lib, u, s0, events);
    RunSound(lib, s0, events);
    if ShortCircuits(Lookup(s.cache, r.fields, s.WithHost())) {
      CachedAnswerSound(lib, u, s, r);
    } else {
      SearchedAnswerSound(lib, s, r, searched);
    }
  }

  /** `answer` is the response of a pair stored now that accepts `r`. */
  ghost predicate ServedFor(lib: Library, s: State, r: Request, answer: Response) {
    exists p :: p in s.pairs && p.response == answer && Accepts(lib, p.matcher, r, s.webserver)
  }

  lemma CachedAnswerSound(lib: Library, u: iset<Fields>, s: State, r: Request)
    requires Invariant(lib, s) && EntriesWithin(u, s) && r.fields in u && CollisionFree(u, s.WithHost())
    requires AllSound(lib, s)
    requires ShortCircuits(Lookup(s.cache, r.fields, s.WithHost()))
    ensures var m := Lookup(s.cache, r.fields, s.WithHost()).value.matchingPair;
            m.Some? ==> ServedFor(lib, s, r, m.value.response)
  {
    var e := DecisiveEntry(lib, u, s, r.fields);
    assert Sound(lib, s, e);
    if e.matchingPair.Some? {
      var p := e.matchingPair.value;
      assert p in s.pairs by {
        var i := FirstIndex(lib, s.pairs, e.request, s.webserver);
      }
      SameKeyFieldsSameVerdict(lib, p.matcher, e.request.fields, r.fields, s);
      assert Accepts(lib, p.matcher, r, s.webserver);
    }
  }

  lemma SearchedAnswerSound(lib: Library, s: State, r: Request, searched: Option<Headers>)
    requires Searched(r.headers, searched)
    ensures var m := FirstMatch(lib, s.pairs, Request(r.fields, searched), s.webserver);
            m.Some? ==> ServedFor(lib, s, r, m.value.response)
  {
    var i := FirstIndex(lib, s.pairs, Request(r.fields, searched), s.webserver);
    if i < |s.pairs| {
      SearchedAccepts(lib, s.pairs[i].matcher, r.fields, r.headers, searched, s.webserver);
      assert s.pairs[i] in s.pairs;
    }
  }
}
