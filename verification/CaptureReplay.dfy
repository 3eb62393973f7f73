/** What Hoverfly is for: traffic captured from a service is replayed once the mode is simulate. */
module CaptureReplay {
  import opened Bytes
  import opened Wrappers
  import opened Models
  import opened Sequences
  import opened HeaderMatching
  import opened HeaderWalks
  import opened RequestMatching
  import opened CacheKeys
  import opened CacheMatching
  import opened Recording
  import opened Engine
  import opened Runs
  import opened Transparency
  import opened Limits

  lemma {:induction false} RunConcat(lib: Library, s: State, a: seq<Event>, b: seq<Event>)
    ensures Run(lib, s, a + b) == Run(lib, Run(lib, s, a), b)
  {
    if b == [] {
      assert a + b == a;
    } else {
      RunConcat(lib, s, a, b[..|b| - 1]);
      ConcatLast(a, b);
    }
  }

  lemma RunOne(lib: Library, s: State, e: Event)
    ensures Run(lib, s, [e]) == Step(lib, s, e)
  {
    assert [e][..0] == [];
  }

  ghost predicate OnlyTraffic(events: seq<Event>) {
    forall i :: 0 <= i < |events| ==> events[i].Traffic?
  }

  /** What a stretch of traffic gives to record, in order. */
  function RecordedLog(s: State, events: seq<Event>): seq<Pair> {
    if events == [] then []
    else
      var last := events[|events| - 1];
      var p := if last.Traffic? then Recorded(s, last.exchange) else None;
      RecordedLog(s, events[..|events| - 1]) + if p.Some? then [p.value] else []
  }

  /** Traffic in capture mode does nothing but record. */
  lemma {:induction false} CapturingOnlyRecords(lib: Library, s: State, events: seq<Event>)
    requires s.mode == Capture && OnlyTraffic(events)
    ensures Run(lib, s, events) == s.(pairs := AddAll(s.pairs, RecordedLog(s, events)))
  {
    if events != [] {
      var n := |events| - 1;
      CapturingOnlyRecords(lib, s, events[..n]);
      var log := RecordedLog(s, events[..n]);
      var p := Recorded(s, events[n].exchange);
      if p.Some? {
        assert (log + [p.value])[..|log|] == log;
      } else {
        assert log + [] == log;
      }
    }
  }

  /**
   * Captured from an empty simulation, the stored pairs are exactly the first-recorded pair of each
   * matcher, in order of first appearance, with pairwise distinct matchers.
   */
  lemma CapturesKeepFirsts(lib: Library, s: State, events: seq<Event>) returns (at: seq<nat>)
    requires s.mode == Capture && s.pairs == [] && OnlyTraffic(events)
    ensures var log, stored := RecordedLog(s, events), Run(lib, s, events).pairs;
            && FirstsOf(log, at)
            && |stored| == |at| && (forall j :: 0 <= j < |at| ==> stored[j] == log[at[j]])
            && DistinctMatchers(stored)
  {
    CapturingOnlyRecords(lib, s, events);
    at := CaptureLogShape(RecordedLog(s, events));
    CapturedPairsDistinct([], RecordedLog(s, events));
  }

  /** Capturing, further captures, then the switch to simulate. */
  function CaptureRun(before: seq<Event>, capture: Event, more: seq<Event>, headers: seq<Text>): seq<Event> {
    (before + [capture] + more) + [SetMode(Ascii("simulate"), headers)]
  }

  /** `x` is recorded as the answer to `r`, which nothing stored answers so far. */
  ghost predicate NewlyCaptured(lib: Library, s: State, x: Exchange, r: Request) {
    && s.mode == Capture
    && AfterMiddleware(x) == Some(r) && r.fields.destination != [] && x.upstream.Some?
    && Uncached(lib, s, r).None? && Replayable(lib, r)
  }

  /** A list of headers that does not get a switch to simulate refused. */
  predicate Acceptable(headers: seq<Text>) {
    !(ASTERISK in headers && |headers| > 1)
  }

  /**
   * The captured response is the first match of the captured request after any further captures
   * and the switch to simulate, if nothing stored answered it before and its body can be recognised.
   */
  lemma CapturedIsFirstMatch(lib: Library, s0: State, before: seq<Event>, x: Exchange, searchedX: Option<Headers>,
                             more: seq<Event>, headers: seq<Text>, r: Request)
    requires NewlyCaptured(lib, Run(lib, s0, before), x, r) && OnlyTraffic(more) && Acceptable(headers)
    ensures var t := Run(lib, s0, CaptureRun(before, Traffic(x, searchedX), more, headers));
            t.mode == Simulate && Uncached(lib, t, r) == x.upstream
  {
    var capture, switch := Traffic(x, searchedX), SetMode(Ascii("simulate"), headers);
    var s, s1 := Run(lib, s0, before), Run(lib, s0, before + [capture]);
    var s2 := Run(lib, s0, before + [capture] + more);
    AfterCapture(lib, s0, before, x, searchedX, r);
    RunConcat(lib, s0, before + [capture], more);
    CapturingOnlyRecords(lib, s1, more);
    ReplaySurvivesCaptures(lib, s1.pairs, RecordedLog(s1, more), r, s.webserver);
    RunConcat(lib, s0, before + [capture] + more, [switch]);
    RunOne(lib, s2, switch);
  }

  /** The capture itself: nothing but the pairs changes, and the captured response is the first match. */
  lemma AfterCapture(lib: Library, s0: State, before: seq<Event>, x: Exchange, searchedX: Option<Headers>, r: Request)
    requires NewlyCaptured(lib, Run(lib, s0, before), x, r)
    ensures var s, t := Run(lib, s0, before), Run(lib, s0, before + [Traffic(x, searchedX)]);
            t == s.(pairs := t.pairs) && Uncached(lib, t, r) == x.upstream
  {
    var s, capture := Run(lib, s0, before), Traffic(x, searchedX);
    RunConcat(lib, s0, before, [capture]);
    RunOne(lib, s, capture);
    CaptureThenReplay(lib, s.pairs, r, x.upstream.value, s.whitelist, s.webserver);
  }

  // ---- what traffic after the switch does to a key

  /** The event is a request with the key of `f` that no stored pair accepts. */
  ghost predicate Misses(lib: Library, s: State, f: Fields, e: Event) {
    && e.Traffic?
    && var g := DetailsOf(e.exchange.request).fields;
       && CacheKey(g, s.WithHost()) == CacheKey(f, s.WithHost())
       && FirstMatch(lib, s.pairs, Request(g, e.searched), s.webserver).None?
  }

  ghost predicate NoneMisses(lib: Library, s: State, f: Fields, events: seq<Event>) {
    forall i :: 0 <= i < |events| ==> !Misses(lib, s, f, events[i])
  }

  /** Simulated traffic changes nothing but the cache. */
  lemma {:induction false} SimulatingOnlyCaches(lib: Library, t: State, later: seq<Event>)
    requires t.mode == Simulate && OnlyTraffic(later)
    ensures Run(lib, t, later) == t.(cache := Run(lib, t, later).cache)
    ensures Run(lib, t, later).cache.Some? == t.cache.Some?
  {
    if later != [] {
      SimulatingOnlyCaches(lib, t, later[..|later| - 1]);
    }
  }

  lemma {:induction false} NoMissNoneRemembered(lib: Library, t: State, f: Fields, later: seq<Event>)
    requires t.mode == Simulate && OnlyTraffic(later)
    requires !RememberedMiss(t, f) && NoneMisses(lib, t, f, later)
    ensures !RememberedMiss(Run(lib, t, later), f)
  {
    if later != [] {
      var n := |later| - 1;
      NoMissNoneRemembered(lib, t, f, later[..n]);
      SimulatingOnlyCaches(lib, t, later[..n]);
      assert !Misses(lib, t, f, later[n]);
    }
  }

  /** The first request with the key of `f` whose search is remembered as decisive. */
  ghost function FirstDecider(lib: Library, t: State, f: Fields, later: seq<Event>): Option<Request> {
    if later == [] then None
    else
      var n := |later| - 1;
      var earlier := FirstDecider(lib, t, f, later[..n]);
      if earlier.Some? || !later[n].Traffic? then earlier
      else
        var r := Request(DetailsOf(later[n].exchange.request).fields, later[n].searched);
        if CacheKey(r.fields, t.WithHost()) == CacheKey(f, t.WithHost()) && Decides(lib, t, r) then Some(r) else None
  }

  /** What traffic makes of a key: decided, it stays so; open, it is decided by the first request that can. */
  lemma {:induction false} KeyAfterTraffic(lib: Library, t: State, f: Fields, later: seq<Event>)
    requires t.mode == Simulate && OnlyTraffic(later) && t.cache.Some?
    ensures var e0, e := Lookup(t.cache, f, t.WithHost()), Lookup(Run(lib, t, later).cache, f, t.WithHost());
            var d := FirstDecider(lib, t, f, later);
            if ShortCircuits(e0) then e == e0
            else if d.Some?
            then ShortCircuits(e) && e.value.matchingPair == FirstMatch(lib, t.pairs, d.value, t.webserver)
            else !ShortCircuits(e)
  {
    if later != [] {
      var n := |later| - 1;
      KeyAfterTraffic(lib, t, f, later[..n]);
      SimulatingOnlyCaches(lib, t, later[..n]);
      var r := Request(DetailsOf(later[n].exchange.request).fields, later[n].searched);
      KeyAfterAnswer(lib, Run(lib, t, later[..n]), f, r);
    }
  }

  /** The same for one request. */
  lemma KeyAfterAnswer(lib: Library, s: State, f: Fields, r: Request)
    requires s.cache.Some?
    ensures var e0 := Lookup(s.cache, f, s.WithHost());
            var e := Lookup(AfterAnswer(lib, s, r.fields, r.headers).cache, f, s.WithHost());
            if ShortCircuits(e0) then e == e0
            else if CacheKey(r.fields, s.WithHost()) == CacheKey(f, s.WithHost()) && Decides(lib, s, r)
            then ShortCircuits(e) && e.value.matchingPair == FirstMatch(lib, s.pairs, r, s.webserver)
            else !ShortCircuits(e)
  {
    assert r == Request(r.fields, r.headers);
  }

  lemma {:induction false} MissIsDecider(lib: Library, t: State, f: Fields, later: seq<Event>)
    requires OnlyTraffic(later) && !NoneMisses(lib, t, f, later)
    ensures FirstDecider(lib, t, f, later).Some?
  {
    var front := later[..|later| - 1];
    if !NoneMisses(lib, t, f, front) {
      MissIsDecider(lib, t, f, front);
    } else {
      MissIsLast(lib, t, f, later);
    }
  }

  lemma MissIsLast(lib: Library, t: State, f: Fields, later: seq<Event>)
    requires later != [] && NoneMisses(lib, t, f, later[..|later| - 1]) && !NoneMisses(lib, t, f, later)
    ensures Misses(lib, t, f, later[|later| - 1])
  {
    assert forall i :: 0 <= i < |later| - 1 ==> later[..|later| - 1][i] == later[i];
  }

  /** A key decided by a pair without headers has no misses at all. */
  lemma DecidedKeyNeverMisses(lib: Library, u: iset<Fields>, s: State, f: Fields, g: Fields, any: Option<Headers>)
    requires Invariant(lib, s) && EntriesWithin(u, s) && AllGenuine(lib, s) && CollisionFree(u, s.WithHost())
    requires f in u && g in u && CacheKey(g, s.WithHost()) == CacheKey(f, s.WithHost())
    requires HeadersComeLast(lib, s, f)
    requires ShortCircuits(Lookup(s.cache, f, s.WithHost())) && !RememberedMiss(s, f)
    ensures FirstMatch(lib, s.pairs, Request(g, any), s.webserver).Some?
  {
    var e := DecisiveEntry(lib, u, s, f);
    assert Genuine(lib, s, e);
    assert SameKeyFields(g, f, s.WithHost());
    forall p | p in s.pairs
      ensures FieldsAccept(lib, p.matcher, g, s.webserver) == FieldsAccept(lib, p.matcher, f, s.webserver)
    {
      SameKeyFieldsSameVerdict(lib, p.matcher, g, f, s);
    }
    assert forall i :: 0 <= i < |s.pairs| ==> s.pairs[i] in s.pairs;
    HeaderlessMatchShared(lib, s, e.request, Request(g, any));
  }

  /** So, in the end, a miss is remembered for the key exactly when a request with that key missed. */
  lemma MissRememberedIff(lib: Library, u: iset<Fields>, t: State, f: Fields, later: seq<Event>)
    requires t.mode == Simulate && OnlyTraffic(later) && t.cache.Some? && !RememberedMiss(t, f)
    requires var s := Run(lib, t, later);
             && Invariant(lib, s) && EntriesWithin(u, s) && AllGenuine(lib, s) && CollisionFree(u, s.WithHost())
             && HeadersComeLast(lib, s, f)
    requires f in u && forall i :: 0 <= i < |later| ==> DetailsOf(later[i].exchange.request).fields in u
    ensures RememberedMiss(Run(lib, t, later), f) <==> !NoneMisses(lib, t, f, later)
  {
    var s := Run(lib, t, later);
    SimulatingOnlyCaches(lib, t, later);
    if NoneMisses(lib, t, f, later) {
      NoMissNoneRemembered(lib, t, f, later);
    } else {
      MissIsDecider(lib, t, f, later);
      KeyAfterTraffic(lib, t, f, later);
      if !RememberedMiss(s, f) {
        var i :| 0 <= i < |later| && Misses(lib, t, f, later[i]);
        DecidedKeyNeverMisses(lib, u, s, f, DetailsOf(later[i].exchange.request).fields, later[i].searched);
        assert false;
      }
    }
  }

  // ---- main results

  /** What is known of a run, used at its end. */
  ghost predicate GoodRun(lib: Library, u: iset<Fields>, s0: State, events: seq<Event>) {
    && Initial(lib, s0)
    && RunWithin(lib, u, s0, events) && CollisionFree(u, s0.WithHost())
    && FaithfulSwitches(lib, s0, events)
  }

  lemma GoodRunFacts(lib: Library, u: iset<Fields>, s0: State, events: seq<Event>)
    requires GoodRun(lib, u, s0, events)
    ensures var s := Run(lib, s0, events);
            Invariant(lib, s) && EntriesWithin(u, s) && AllGenuine(lib, s) && CollisionFree(u, s.WithHost())
  {
    RunKeeps(lib, s0, events);
    FlagsNeverChange(lib, s0, events);
    RunEntriesWithin(lib, u, s0, events);
    RunGenuine(lib, s0, events);
  }

  /** The requests after the switch belong to `u`. */
  lemma LaterWithin(lib: Library, u: iset<Fields>, s0: State, first: seq<Event>, later: seq<Event>)
    requires RunWithin(lib, u, s0, first + later)
    requires Run(lib, s0, first).mode == Simulate && OnlyTraffic(later)
    ensures forall i :: 0 <= i < |later| ==> DetailsOf(later[i].exchange.request).fields in u
  {
    forall i | 0 <= i < |later|
      ensures DetailsOf(later[i].exchange.request).fields in u
    {
      LaterStepWithin(lib, u, s0, first, later, i);
      RunConcat(lib, s0, first, later[..i]);
      SimulatingOnlyCaches(lib, Run(lib, s0, first), later[..i]);
    }
  }

  lemma LaterStepWithin(lib: Library, u: iset<Fields>, s0: State, first: seq<Event>, later: seq<Event>, i: nat)
    requires RunWithin(lib, u, s0, first + later) && i < |later|
    ensures StepWithin(u, Run(lib, s0, first + later[..i]), later[i])
  {
    var n := |first| + i;
    assert (first + later)[..n] == first + later[..i] && (first + later)[n] == later[i];
  }

  /**
   * Capture, switch to simulate, then any traffic: the captured request is served the captured
   * response if and only if, since the switch, no request with its key was a miss (or there is no
   * cache). Recorded headers are allowed; pairs that want headers come after those that do not.
   */
  lemma CapturedIsServedIff(lib: Library, u: iset<Fields>, s0: State, before: seq<Event>, x: Exchange,
                            searchedX: Option<Headers>, more: seq<Event>, headers: seq<Text>, later: seq<Event>,
                            h: HttpRequest, searched: Option<Headers>)
    requires NewlyCaptured(lib, Run(lib, s0, before), x, DetailsOf(h))
    requires OnlyTraffic(more) && Acceptable(headers) && OnlyTraffic(later)
    requires GoodRun(lib, u, s0, CaptureRun(before, Traffic(x, searchedX), more, headers) + later)
    requires DetailsOf(h).fields in u
    requires HeadersComeLast(lib, Run(lib, s0, CaptureRun(before, Traffic(x, searchedX), more, headers)),
                             DetailsOf(h).fields)
    requires NothingLost(Entries(h.headers)) && Searched(h.headers, searched)
    ensures var first := CaptureRun(before, Traffic(x, searchedX), more, headers);
            && (Answer(lib, Run(lib, s0, first + later), DetailsOf(h).fields, searched) == x.upstream
                <==> s0.cache.None? || NoneMisses(lib, Run(lib, s0, first), DetailsOf(h).fields, later))
  {
    var first, r := CaptureRun(before, Traffic(x, searchedX), more, headers), DetailsOf(h);
    var t, s := Run(lib, s0, first), Run(lib, s0, first + later);
    CapturedIsFirstMatch(lib, s0, before, x, searchedX, more, headers, r);
    RunConcat(lib, s0, first, later);
    SimulatingOnlyCaches(lib, t, later);
    GoodRunFacts(lib, u, s0, first + later);
    FlagsNeverChange(lib, s0, first);
    LaterWithin(lib, u, s0, first, later);
    KeyAfterSwitch(lib, s0, before, x, searchedX, more, headers, r);
    if t.cache.Some? {
      MissRememberedIff(lib, u, t, r.fields, later);
    }
    AnswerUnlessMiss(lib, u, s, r, searched);
  }

  /** The state in which the mode is switched: still capturing, with an empty cache. */
  lemma BeforeSwitch(lib: Library, s0: State, before: seq<Event>, x: Exchange, searchedX: Option<Headers>,
                     more: seq<Event>, r: Request)
    requires Initial(lib, s0) && NewlyCaptured(lib, Run(lib, s0, before), x, r) && OnlyTraffic(more)
    ensures var s := Run(lib, s0, before + [Traffic(x, searchedX)] + more);
            s.mode == Capture && s.Entries() == map[] && s.cache.Some? == s0.cache.Some?
  {
    var captured := before + [Traffic(x, searchedX)];
    AfterCapture(lib, s0, before, x, searchedX, r);
    RunConcat(lib, s0, captured, more);
    CapturingOnlyRecords(lib, Run(lib, s0, captured), more);
    RunKeeps(lib, s0, captured + more);
    FlagsNeverChange(lib, s0, captured + more);
  }

  /** Right after capture and the switch a key is decided by its preloaded pair, or open. */
  lemma KeyAfterSwitch(lib: Library, s0: State, before: seq<Event>, x: Exchange, searchedX: Option<Headers>,
                       more: seq<Event>, headers: seq<Text>, r: Request)
    requires Initial(lib, s0) && NewlyCaptured(lib, Run(lib, s0, before), x, r)
    requires OnlyTraffic(more) && Acceptable(headers)
    ensures var t := Run(lib, s0, CaptureRun(before, Traffic(x, searchedX), more, headers));
            var e, p := Lookup(t.cache, r.fields, t.WithHost()), PreloadedPair(t, r.fields);
            && (t.cache.Some? ==> (ShortCircuits(e) <==> p.Some?) && (ShortCircuits(e) ==> e.value.matchingPair == p))
            && t.cache.Some? == s0.cache.Some?
            && !RememberedMiss(t, r.fields)
  {
    var switch := SetMode(Ascii("simulate"), headers);
    var captured := before + [Traffic(x, searchedX)] + more;
    var s := Run(lib, s0, captured);
    BeforeSwitch(lib, s0, before, x, searchedX, more, r);
    RunConcat(lib, s0, captured, [switch]);
    RunOne(lib, s, switch);
    KeySwitched(s, headers, r.fields);
  }

  lemma KeySwitched(s: State, headers: seq<Text>, f: Fields)
    requires s.Entries() == map[] && SwitchAccepted(s, headers)
    ensures var t := AfterSetMode(s, Ascii("simulate"), headers);
            var e, p := Lookup(t.cache, f, t.WithHost()), PreloadedPair(t, f);
            && (t.cache.Some? ==> (ShortCircuits(e) <==> p.Some?) && (ShortCircuits(e) ==> e.value.matchingPair == p))
            && t.cache.Some? == s.cache.Some?
            && !RememberedMiss(t, f)
  {
    if s.cache.Some? {
      SwitchDecides(s, headers, f);
    }
  }

  /**
   * The same without any assumption on keys, pairs or the order of header matchers: if a pair is
   * preloaded under the key, the captured response is served if and only if it is that pair's;
   * else it is so unless another request with the key was searched for first, decided the key,
   * and was answered differently.
   */
  lemma CapturedIsServedExactly(lib: Library, s0: State, before: seq<Event>, x: Exchange, searchedX: Option<Headers>,
                                more: seq<Event>, headers: seq<Text>, later: seq<Event>,
                                h: HttpRequest, searched: Option<Headers>)
    requires Initial(lib, s0) && NewlyCaptured(lib, Run(lib, s0, before), x, DetailsOf(h))
    requires OnlyTraffic(more) && Acceptable(headers) && OnlyTraffic(later)
    requires NothingLost(Entries(h.headers)) && Searched(h.headers, searched)
    ensures var first, f := CaptureRun(before, Traffic(x, searchedX), more, headers), DetailsOf(h).fields;
            var t := Run(lib, s0, first);
            var p, d := PreloadedPair(t, f), FirstDecider(lib, t, f, later);
            && (Answer(lib, Run(lib, s0, first + later), f, searched) == x.upstream
                <==> || s0.cache.None?
                     || (p.Some? && Some(p.value.response) == x.upstream)
                     || (p.None? && (d.Some? ==> Uncached(lib, t, d.value) == x.upstream)))
  {
    var first, r := CaptureRun(before, Traffic(x, searchedX), more, headers), DetailsOf(h);
    var t := Run(lib, s0, first);
    CapturedIsFirstMatch(lib, s0, before, x, searchedX, more, headers, r);
    KeyAfterSwitch(lib, s0, before, x, searchedX, more, headers, r);
    RunConcat(lib, s0, first, later);
    SimulatingOnlyCaches(lib, t, later);
    SearchedSameMatch(lib, t.pairs, r.fields, r.headers, searched, t.webserver);
    if t.cache.Some? {
      KeyAfterTraffic(lib, t, r.fields, later);
    }
  }

  /** Without any header matchers the captured response is served whatever else is asked in between. */
  lemma CapturedIsServed(lib: Library, u: iset<Fields>, s0: State, before: seq<Event>, x: Exchange,
                         searchedX: Option<Headers>, more: seq<Event>, headers: seq<Text>, later: seq<Event>,
                         h: HttpRequest, searched: Option<Headers>)
    requires NewlyCaptured(lib, Run(lib, s0, before), x, DetailsOf(h))
    requires OnlyTraffic(more) && Acceptable(headers) && OnlyTraffic(later)
    requires GoodRun(lib, u, s0, CaptureRun(before, Traffic(x, searchedX), more, headers) + later)
    requires DetailsOf(h).fields in u
    requires forall p :: p in Run(lib, s0, CaptureRun(before, Traffic(x, searchedX), more, headers) + later).pairs
                     ==> !HeaderBearing(p)
    ensures Answer(lib, Run(lib, s0, CaptureRun(before, Traffic(x, searchedX), more, headers) + later),
                   DetailsOf(h).fields, searched)
         == x.upstream
  {
    var first := CaptureRun(before, Traffic(x, searchedX), more, headers);
    CapturedIsFirstMatch(lib, s0, before, x, searchedX, more, headers, DetailsOf(h));
    RunConcat(lib, s0, first, later);
    SimulatingOnlyCaches(lib, Run(lib, s0, first), later);
    CacheTransparent(lib, u, s0, first + later, h, searched);
  }

  // ---- captures that preloading mixes up

  function Fetch(scheme: Text): HttpRequest {
    HttpRequest([SLASH], Ascii("GET"), Ascii("a"), scheme, [], [], None)
  }

  function Fetched(scheme: Text, status: int): Event {
    Traffic(Exchange(Fetch(scheme), Unchanged, Some(Response(status, [], None)), false), None)
  }

  const HTTP: Text := Ascii("http")
  const HTTPS: Text := Ascii("https")

  /**
   * The same resource captured over http and then https yields two pairs, since matchers are told
   * apart by their scheme; matching ignores the scheme and finds the first, but the switch to
   * simulate preloads both under one key, so both requests are served what was captured last.
   */
  lemma SchemesClash(lib: Library)
    ensures var s0 := Blank(Capture, true, false, false);
            var t := Step(lib, Step(lib, Step(lib, s0, Fetched(HTTP, 1)), Fetched(HTTPS, 2)),
                          SetMode(Ascii("simulate"), []));
            && |t.pairs| == 2
            && Uncached(lib, t, DetailsOf(Fetch(HTTP))) == Some(Response(1, [], None))
            && Answer(lib, t, DetailsOf(Fetch(HTTP)).fields, None) == Some(Response(2, [], None))
  {
    var s0 := Blank(Capture, true, false, false);
    var r1, r2 := DetailsOf(Fetch(HTTP)), DetailsOf(Fetch(HTTPS));
    var p1 := Pair(CapturedMatcher(r1, []), Response(1, [], None));
    var p2 := Pair(CapturedMatcher(r2, []), Response(2, [], None));
    assert r1.fields.destination == r2.fields.destination == ToLower(Ascii("a")) != [];
    assert HTTP != HTTPS by {
      assert |HTTP| != |HTTPS|;
    }
    var s1 := Step(lib, s0, Fetched(HTTP, 1));
    assert s1.pairs == [p1];
    var s2 := Step(lib, s1, Fetched(HTTPS, 2));
    assert s2.pairs == [p1, p2];
    var t := Step(lib, s2, SetMode(Ascii("simulate"), []));
    CapturedAcceptsOwnRequest(lib, r1, [], false);
    FirstMatchAt(lib, t.pairs, r1, false, 0);
    var k := CacheKey(r1.fields, true);
    SameFieldsSameKey(r1.fields, r2.fields, true);
    assert ExactRequest(p2.matcher).value.fields == r2.fields;
    assert ExactUnder(t.pairs[1], k, true);
    PreloadIsLastWins(map[], t.pairs, true, k);
    assert LastExact(t.pairs, k, true) == 1;
  }
}
