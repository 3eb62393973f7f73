/**
 * What holds in every state that an instance with an in-memory cache can reach, whatever
 * administrative calls and requests it has seen.
 */
module Runs {
  import opened Bytes
  import opened Wrappers
  import opened Models
  import opened RequestMatching
  import opened CacheKeys
  import opened CacheMatching
  import opened Recording
  import opened Delays
  import opened Views
  import opened VersionOne
  import opened Engine

  /** The entry records the outcome of a search for its request over the pairs stored now. */
  ghost predicate Scanned(lib: Library, pairs: seq<Pair>, webserver: bool, e: CachedResponse) {
    e.matchingPair == FirstMatch(lib, pairs, e.request, webserver)
  }

  /** The entry was stored for a fully exact pair that is still there. */
  ghost predicate FromPreload(pairs: seq<Pair>, e: CachedResponse) {
    && e.matchingPair.Some? && e.matchingPair.value in pairs
    && ExactRequest(e.matchingPair.value.matcher) == Some(e.request)
  }

  ghost predicate EntryOk(lib: Library, s: State, k: Text, e: CachedResponse) {
    && k == CacheKey(e.request.fields, s.WithHost())
    && e == Entry(e.request, e.matchingPair)
    && (Scanned(lib, s.pairs, s.webserver, e) || FromPreload(s.pairs, e))
  }

  ghost predicate NothingStale(lib: Library, s: State) {
    forall k :: k in s.Entries() ==> EntryOk(lib, s, k, s.Entries()[k])
  }

  ghost predicate Invariant(lib: Library, s: State) {
    && (s.mode == Capture ==> s.Entries() == map[])
    && NothingStale(lib, s)
    && (forall p :: p in s.pairs ==> CanonicalQuery(p))
    && (forall d :: d in s.delays ==> ValidDelay(lib, d))
    && (s.cacheWebserver ==> s.webserver)
    && (s.webserver ==> s.mode != Capture)
  }

  /** Staleness depends on the cache, the pairs and the two flags alone. */
  lemma StillNotStale(lib: Library, s: State, t: State)
    requires NothingStale(lib, s)
    requires t.cache == s.cache && t.pairs == s.pairs
    requires t.webserver == s.webserver && t.cacheWebserver == s.cacheWebserver
    ensures NothingStale(lib, t)
  {
    forall k | k in t.Entries()
      ensures EntryOk(lib, t, k, t.Entries()[k])
    {
      assert EntryOk(lib, s, k, s.Entries()[k]);
    }
  }

  // ---- each step keeps the invariant

  /** After `PUT`, `DELETE` and start-up imports the cache is empty. */
  lemma ImportKeeps(lib: Library, s: State, view: SimulationView)
    requires Invariant(lib, s) && s.Entries() == map[]
    ensures Invariant(lib, AfterImport(lib, s, view)) && AfterImport(lib, s, view).Entries() == map[]
  {
    forall p | p in PairsFromViews(view.pairs)
      ensures CanonicalQuery(p)
    {
      var i :| 0 <= i < |view.pairs| && PairsFromViews(view.pairs)[i] == p;
      ImportedQueryCanonical(view.pairs[i]);
    }
    SetDelaysKeep(lib, s.(pairs := s.pairs + PairsFromViews(view.pairs)), view.delays);
  }

  lemma SetDelaysKeep(lib: Library, s: State, views: seq<DelayView>)
    requires Invariant(lib, s)
    ensures Invariant(lib, AfterSetDelays(lib, s, views))
  {
    var after := AfterSetDelays(lib, s, views);
    forall d | d in after.delays
      ensures ValidDelay(lib, d)
    {
      if after.delays != s.delays {
        var i :| 0 <= i < |views| && FromViews(views)[i] == d;
        assert Problem(lib, views[i]).None?;
      }
    }
    StillNotStale(lib, s, after);
  }

  lemma {:induction false} PreloadKeeps(lib: Library, s: State, pairs: seq<Pair>)
    requires NothingStale(lib, s) && s.cache.Some?
    requires forall p :: p in pairs ==> p in s.pairs
    ensures NothingStale(lib, s.(cache := Some(Preloaded(s.cache.value, pairs, s.WithHost()))))
  {
    if pairs != [] {
      var front, last := pairs[..|pairs| - 1], pairs[|pairs| - 1];
      PreloadKeeps(lib, s, front);
      var before := s.(cache := Some(Preloaded(s.cache.value, front, s.WithHost())));
      var after := s.(cache := Some(Preloaded(s.cache.value, pairs, s.WithHost())));
      forall k | k in after.Entries()
        ensures EntryOk(lib, after, k, after.Entries()[k])
      {
        if k in before.Entries() && after.Entries()[k] == before.Entries()[k] {
          assert EntryOk(lib, before, k, before.Entries()[k]);
        } else {
          assert last in pairs;
        }
      }
    }
  }

  lemma SetModeKeeps(lib: Library, s: State, name: Text, headers: seq<Text>)
    requires Invariant(lib, s)
    ensures Invariant(lib, AfterSetMode(s, name, headers))
  {
    var after := AfterSetMode(s, name, headers);
    if after.mode == Simulate && ModeProblem(s, name, headers).None? && s.cache.Some? {
      PreloadKeeps(lib, s, s.pairs);
      var preloaded := s.(cache := Some(Preloaded(s.cache.value, s.pairs, s.WithHost())));
      StillNotStale(lib, preloaded, after);
    } else if after.mode != Capture {
      StillNotStale(lib, s, after);
    }
  }

  /** What a capture stores has a canonical query, middleware or not. */
  lemma RecordedQueryCanonical(s: State, x: Exchange)
    ensures Recorded(s, x).Some? ==> CanonicalQuery(Recorded(s, x).value)
    ensures AfterMiddleware(x).Some? ==> QueryString.IsCanonical(AfterMiddleware(x).value.fields.query)
  {
    match x.middleware
    case Unchanged => QueryString.CanonicalIdempotent(x.request.rawQuery);
    case Rewritten(v) =>
      if v.query.Some? {
        QueryString.CanonicalIdempotent(v.query.value);
      }
    case Failed =>
  }

  lemma RecordKeeps(lib: Library, s: State, p: Pair)
    requires Invariant(lib, s) && s.mode == Capture && CanonicalQuery(p)
    ensures Invariant(lib, s.(pairs := Added(s.pairs, p)))
  {
  }

  lemma MemoKeeps(lib: Library, s: State, r: Request)
    requires NothingStale(lib, s)
    ensures NothingStale(lib, s.(cache := Memoised(s.cache, r, FirstMatch(lib, s.pairs, r, s.webserver), s.WithHost())))
  {
    var m := FirstMatch(lib, s.pairs, r, s.webserver);
    var after := s.(cache := Memoised(s.cache, r, m, s.WithHost()));
    forall k | k in after.Entries()
      ensures EntryOk(lib, after, k, after.Entries()[k])
    {
      if k in s.Entries() && after.Entries()[k] == s.Entries()[k] {
        assert EntryOk(lib, s, k, s.Entries()[k]);
      }
    }
  }

  lemma TrafficKeeps(lib: Library, s: State, x: Exchange, searched: Option<Headers>)
    requires Invariant(lib, s)
    ensures Invariant(lib, AfterTraffic(lib, s, x, searched))
  {
    match s.mode
    case Capture =>
      RecordedQueryCanonical(s, x);
      if Recorded(s, x).Some? {
        RecordKeeps(lib, s, Recorded(s, x).value);
      }
    case Simulate => MemoKeeps(lib, s, Request(DetailsOf(x.request).fields, searched));
    case _ =>
  }

  lemma StepKeeps(lib: Library, s: State, e: Event)
    requires Invariant(lib, s)
    ensures Invariant(lib, Step(lib, s, e))
  {
    match e
    case Traffic(x, searched) => TrafficKeeps(lib, s, x, searched);
    case SetMode(name, headers) => SetModeKeeps(lib, s, name, headers);
    case Put(view) => ImportKeeps(lib, AfterDelete(s), view);
    case Delete =>
    case Flush =>
    case SetDelays(views) => SetDelaysKeep(lib, s, views);
    case DeleteDelays =>
      SetDelaysKeep(lib, s, []);
      assert FromViews([]) == [];
  }

  // ---- every reachable state

  lemma {:induction false} StartupKeeps(lib: Library, s: State, imports: seq<SimulationView>)
    requires Invariant(lib, s) && s.Entries() == map[]
    ensures Invariant(lib, AfterStartup(lib, s, imports)) && AfterStartup(lib, s, imports).Entries() == map[]
  {
    if imports != [] {
      StartupKeeps(lib, s, imports[..|imports| - 1]);
      ImportKeeps(lib, AfterStartup(lib, s, imports[..|imports| - 1]), imports[|imports| - 1]);
    }
  }

  lemma InitialInvariant(lib: Library, s: State)
    requires Initial(lib, s)
    ensures Invariant(lib, s) && s.Entries() == map[]
  {
    var mode, cached, webserver, cacheWebserver, imports :|
      && (cacheWebserver ==> webserver)
      && (webserver ==> mode == Simulate)
      && s == AfterStartup(lib, Blank(mode, cached, webserver, cacheWebserver), imports);
    StartupKeeps(lib, Blank(mode, cached, webserver, cacheWebserver), imports);
  }

  lemma {:induction false} RunKeeps(lib: Library, s0: State, events: seq<Event>)
    requires Initial(lib, s0)
    ensures Invariant(lib, Run(lib, s0, events))
  {
    if events == [] {
      InitialInvariant(lib, s0);
    } else {
      RunKeeps(lib, s0, events[..|events| - 1]);
      StepKeeps(lib, Run(lib, s0, events[..|events| - 1]), events[|events| - 1]);
    }
  }

  /**
   * No stale entries: capture mode always has an empty cache, and every cached miss is still a
   * miss of the request stored in it: no pair stored now accepts that request.
   */
  lemma NoStaleEntries(lib: Library, s0: State, events: seq<Event>)
    requires Initial(lib, s0)
    ensures var s := Run(lib, s0, events);
            && (s.mode == Capture ==> s.Entries() == map[])
            && (forall k :: k in s.Entries() && s.Entries()[k].matchingPair.None? ==>
                  forall p :: p in s.pairs ==> !Accepts(lib, p.matcher, s.Entries()[k].request, s.webserver))
            && (forall k :: k in s.Entries() && s.Entries()[k].matchingPair.Some? ==>
                  s.Entries()[k].matchingPair.value in s.pairs)
  {
    var s := Run(lib, s0, events);
    RunKeeps(lib, s0, events);
    forall k | k in s.Entries()
      ensures s.Entries()[k].matchingPair.None? ==>
                forall p :: p in s.pairs ==> !Accepts(lib, p.matcher, s.Entries()[k].request, s.webserver)
      ensures s.Entries()[k].matchingPair.Some? ==> s.Entries()[k].matchingPair.value in s.pairs
    {
      assert EntryOk(lib, s, k, s.Entries()[k]);
      FirstMatchNone(lib, s.pairs, s.Entries()[k].request, s.webserver);
    }
  }

  /**
   * Every stored exact query is in canonical form, so a request matches it exactly when its raw
   * query has the same segments, in whatever order.
   */
  lemma QueryOrderIrrelevant(lib: Library, s0: State, events: seq<Event>, p: Pair, h: HttpRequest)
    requires Initial(lib, s0)
    requires p in Run(lib, s0, events).pairs && p.matcher.query.Some? && p.matcher.query.value.exactMatch.Some?
    ensures var stored := p.matcher.query.value.exactMatch.value;
            && QueryString.IsCanonical(stored)
            && (stored == DetailsOf(h).fields.query <==> SameSegments(stored, h.rawQuery))
  {
    RunKeeps(lib, s0, events);
    assert CanonicalQuery(p);
    QueryString.CanonicalEqualsIffSameSegments(h.rawQuery, p.matcher.query.value.exactMatch.value);
  }

  /** Requests that reach matching or recording have canonical queries, even after middleware. */
  lemma RequestsCanonical(x: Exchange)
    ensures QueryString.IsCanonical(DetailsOf(x.request).fields.query)
    ensures AfterMiddleware(x).Some? ==> QueryString.IsCanonical(AfterMiddleware(x).value.fields.query)
  {
    QueryString.CanonicalIdempotent(x.request.rawQuery);
    RecordedQueryCanonical(Blank(Simulate, false, false, false), x);
  }

  /** The search for a delay never panics, and exported delays are accepted again. */
  lemma DelaysAreSafe(lib: Library, s0: State, events: seq<Event>, x: Exchange, answered: bool)
    requires Initial(lib, s0)
    ensures var s := Run(lib, s0, events);
            && DelayOf(lib, s, x, answered) != Panics
            && AfterSetDelays(lib, s, ToViews(s.delays)) == s
            && forall e :: !FirstProblem(lib, ToViews(s.delays), e)
  {
    var s := Run(lib, s0, events);
    RunKeeps(lib, s0, events);
    SearchFindsFirst(lib, s.delays, DetailsOf(x.request).fields);
    DelaysRoundTrip(lib, s.delays);
    forall i | 0 <= i < |s.delays|
      ensures Problem(lib, ToViews(s.delays)[i]).None?
    {
      assert s.delays[i] in s.delays;
    }
  }

  /** Putting an export into any instance reproduces the pairs, in order, and the delays. */
  lemma ExportThenImport(lib: Library, s0: State, events: seq<Event>, other: State)
    requires Initial(lib, s0)
    ensures var s := Run(lib, s0, events);
            && AfterPut(lib, other, Export(lib, s))
            == other.(pairs := s.pairs, delays := s.delays, cache := Flushed(other.cache))
  {
    var s := Run(lib, s0, events);
    RunKeeps(lib, s0, events);
    PairsRoundTrip(lib, s.pairs);
    DelaysRoundTrip(lib, s.delays);
    forall i | 0 <= i < |s.delays|
      ensures Problem(lib, ToViews(s.delays)[i]).None?
    {
      assert s.delays[i] in s.delays;
    }
    assert [] + s.pairs == s.pairs;
  }

  /** A web server never captures, and the two flags keep their relation. */
  lemma WebserverNeverCaptures(lib: Library, s0: State, events: seq<Event>)
    requires Initial(lib, s0) && s0.webserver
    ensures Run(lib, s0, events).mode != Capture
  {
    RunKeeps(lib, s0, events);
    FlagsNeverChange(lib, s0, events);
  }

  lemma StepKeepsFlags(lib: Library, s: State, e: Event)
    ensures var t := Step(lib, s, e);
            t.webserver == s.webserver && t.cacheWebserver == s.cacheWebserver && t.cache.Some? == s.cache.Some?
  {
  }

  lemma {:induction false} FlagsNeverChange(lib: Library, s0: State, events: seq<Event>)
    ensures var s := Run(lib, s0, events);
            s.webserver == s0.webserver && s.cacheWebserver == s0.cacheWebserver && s.cache.Some? == s0.cache.Some?
  {
    if events != [] {
      FlagsNeverChange(lib, s0, events[..|events| - 1]);
      StepKeepsFlags(lib, Run(lib, s0, events[..|events| - 1]), events[|events| - 1]);
    }
  }
}
