/** The instance itself: methods that update fields in place, each refining its step of `Engine`. */
module Hoverfly {
  import opened Bytes
  import opened Wrappers
  import opened Models
  import opened HeaderMatching
  import opened RequestMatching
  import opened CacheMatching
  import opened Recording
  import opened Delays
  import opened Views
  import opened Engine
  import opened Runs
  import opened Sequences

  class Hoverfly {
    const lib: Library
    const cacheMatcher: CacheMatcher
    const simulation: Simulation
    const webserver: bool
    var mode: Mode
    var captureHeaders: seq<Text>

    /** core/hoverfly.go, GetNewHoverfly, with an in-memory cache unless it is disabled. */
    constructor (lib: Library, mode: Mode, disableCache: bool, webserver: bool, cacheWebserver: bool)
      ensures Current() == Blank(mode, !disableCache, webserver, cacheWebserver)
      ensures this.lib == lib && fresh(simulation)
      ensures this.mode == mode && this.webserver == webserver && captureHeaders == []
      ensures simulation.matchingPairs == [] && simulation.responseDelays == []
      ensures cacheMatcher.webserver == cacheWebserver && (cacheMatcher.requestCache == null <==> disableCache)
      ensures cacheMatcher.requestCache != null ==> cacheMatcher.requestCache.elements == map[]
      ensures cacheMatcher.requestCache != null ==> fresh(cacheMatcher.requestCache)
    {
      var cache: InMemoryCache? := null;
      if !disableCache {
        cache := new InMemoryCache();
      }
      this.lib, this.mode, this.webserver, this.captureHeaders := lib, mode, webserver, [];
      this.cacheMatcher := new CacheMatcher(cache, cacheWebserver);
      this.simulation := new Simulation();
    }

    /** The state that the objects make up. */
    function Current(): State
      reads this, simulation, cacheMatcher.requestCache
    {
      State(mode, simulation.matchingPairs, simulation.responseDelays, CacheContents(cacheMatcher.requestCache),
            captureHeaders, webserver, cacheMatcher.webserver)
    }

    // ---- core/hoverfly_service.go

    method SetModeWithArguments(name: Text, headers: seq<Text>) returns (error: Option<ModeError>)
      modifies this, cacheMatcher.requestCache
      ensures Current() == AfterSetMode(old(Current()), name, headers)
      ensures error == ModeProblem(old(Current()), name, headers)
      ensures error.None? <==>
        && (name == Ascii("simulate") || name == Ascii("synthesize") || name == Ascii("modify")
            || name == Ascii("capture"))
        && !(webserver && name == Ascii("capture")) && !(|headers| > 1 && [42] in headers)
      ensures error == Some(CaptureAsWebserver) <==> webserver && name == Ascii("capture")
      ensures error == Some(BadWhitelist) ==> |headers| > 1 && [42] in headers
      ensures error.Some? ==> mode == old(mode)
      ensures error.None? ==>
        && (mode == Simulate <==> name == Ascii("simulate")) && (mode == Synthesize <==> name == Ascii("synthesize"))
        && (mode == Modify <==> name == Ascii("modify")) && (mode == Capture <==> name == Ascii("capture"))
      ensures captureHeaders == if error.None? && name == Ascii("capture") then headers else old(captureHeaders)
      ensures cacheMatcher.requestCache != null ==>
        && (error.None? && name == Ascii("capture") ==> cacheMatcher.requestCache.elements == map[])
        && (error.Some? || name == Ascii("synthesize") || name == Ascii("modify") ==>
              cacheMatcher.requestCache.elements == old(cacheMatcher.requestCache.elements))
        && (error.None? && name == Ascii("simulate") ==>
              cacheMatcher.requestCache.elements
              == Preloaded(old(cacheMatcher.requestCache.elements), simulation.matchingPairs, !cacheMatcher.webserver))
    {
      var parsed := ParseMode(name);
      if parsed.None? {
        return Some(NotAMode);
      }
      if webserver && parsed.value == Capture {
        return Some(CaptureAsWebserver);
      }
      for i := 0 to |headers|
        invariant |headers| > 1 ==> ASTERISK !in headers[..i]
      {
        assert headers[..i + 1] == headers[..i] + [headers[i]];
        if headers[i] == ASTERISK {
          if |headers| > 1 {
            return Some(BadWhitelist);
          }
        }
      }
      assert headers[..|headers|] == headers;
      mode := parsed.value;
      if mode == Capture {
        var _ := cacheMatcher.FlushCache();
      } else if mode == Simulate {
        var _ := cacheMatcher.PreloadCache(simulation.matchingPairs);
      }
      if mode == Capture {
        captureHeaders := headers;
      }
      return None;
    }

    method FlushCache() returns (error: Option<CacheError>)
      modifies cacheMatcher.requestCache
      ensures Current() == AfterFlush(old(Current()))
      ensures error.Some? <==> old(Current()).cache.None?
      ensures cacheMatcher.requestCache != null ==> cacheMatcher.requestCache.elements == map[]
    {
      error := cacheMatcher.FlushCache();
    }

    method SetResponseDelays(views: seq<DelayView>) returns (error: Option<DelayError>)
      modifies simulation
      ensures Current() == AfterSetDelays(lib, old(Current()), views)
      ensures error.None? <==> forall d :: d in FromViews(views) ==> ValidDelay(lib, d)
      ensures error.Some? ==> FirstProblem(lib, views, error.value)
      ensures error.Some? ==> simulation.responseDelays == old(simulation.responseDelays)
      ensures error.None? ==>
        && |simulation.responseDelays| == |views|
        && forall i :: 0 <= i < |views| ==>
             && simulation.responseDelays[i].urlPattern == views[i].urlPattern
             && simulation.responseDelays[i].httpMethod == views[i].httpMethod
             && simulation.responseDelays[i].milliseconds == views[i].delay
    {
      error := Validate(lib, views);
      if error.Some? {
        return;
      }
      var responseDelays: seq<Delay> := [];
      for i := 0 to |views|
        invariant responseDelays == FromViews(views)[..i]
      {
        responseDelays := responseDelays + [Delay(views[i].urlPattern, views[i].httpMethod, views[i].delay)];
        assert FromViews(views)[i] in FromViews(views);
      }
      forall i | 0 <= i < |views|
        ensures Problem(lib, views[i]).None?
      {
        assert FromViews(views)[i] in FromViews(views);
      }
      simulation.responseDelays := responseDelays;
    }

    method DeleteResponseDelays()
      modifies simulation
      ensures Current() == AfterDeleteDelays(old(Current()))
      ensures simulation.responseDelays == [] && simulation.matchingPairs == old(simulation.matchingPairs)
    {
      simulation.responseDelays := [];
    }

    method DeleteSimulation()
      modifies simulation, cacheMatcher.requestCache
      ensures Current() == AfterDelete(old(Current()))
      ensures simulation.matchingPairs == [] && simulation.responseDelays == []
      ensures cacheMatcher.requestCache != null ==> cacheMatcher.requestCache.elements == map[]
    {
      simulation.matchingPairs := [];
      DeleteResponseDelays();
      var _ := FlushCache();
    }

    /** core/import.go, ImportRequestResponsePairViews. */
    method ImportRequestResponsePairViews(pairViews: seq<PairView>)
      modifies simulation`matchingPairs
      ensures simulation.matchingPairs == old(simulation.matchingPairs) + PairsFromViews(pairViews)
      ensures |simulation.matchingPairs| == |old(simulation.matchingPairs)| + |pairViews|
      ensures forall i :: 0 <= i < |pairViews| ==>
        simulation.matchingPairs[|old(simulation.matchingPairs)| + i] == PairFromView(pairViews[i])
    {
      if |pairViews| > 0 {
        for i := 0 to |pairViews|
          invariant simulation.matchingPairs == old(simulation.matchingPairs) + PairsFromViews(pairViews)[..i]
        {
          var pair, _ := NewPairFromView(pairViews[i]);
          simulation.matchingPairs := simulation.matchingPairs + [pair];
        }
      }
    }

    method PutSimulation(view: SimulationView) returns (error: Option<DelayError>)
      modifies simulation
      ensures Current() == AfterImport(lib, old(Current()), view)
      ensures simulation.matchingPairs == old(simulation.matchingPairs) + PairsFromViews(view.pairs)
      ensures simulation.responseDelays
           == if error.None? then FromViews(view.delays) else old(simulation.responseDelays)
      ensures error.None? <==> forall d :: d in FromViews(view.delays) ==> ValidDelay(lib, d)
    {
      ImportRequestResponsePairViews(view.pairs);
      error := SetResponseDelays(view.delays);
    }

    /** core/handlers/v2/simulation_handler.go, Put. */
    method ReplaceSimulation(view: SimulationView) returns (error: Option<DelayError>)
      modifies simulation, cacheMatcher.requestCache
      ensures Current() == AfterPut(lib, old(Current()), view)
      ensures simulation.matchingPairs == PairsFromViews(view.pairs)
      ensures simulation.responseDelays == if error.None? then FromViews(view.delays) else []
      ensures cacheMatcher.requestCache != null ==> cacheMatcher.requestCache.elements == map[]
      ensures error.None? <==> forall d :: d in FromViews(view.delays) ==> ValidDelay(lib, d)
    {
      DeleteSimulation();
      error := PutSimulation(view);
    }

    method GetSimulation() returns (view: SimulationView)
      ensures view == Export(lib, Current())
      ensures |view.pairs| == |simulation.matchingPairs| && |view.delays| == |simulation.responseDelays|
      ensures forall i :: 0 <= i < |view.pairs| ==> view.pairs[i] == PairToView(lib, simulation.matchingPairs[i])
      ensures forall i :: 0 <= i < |view.delays| ==>
        && view.delays[i].urlPattern == simulation.responseDelays[i].urlPattern
        && view.delays[i].httpMethod == simulation.responseDelays[i].httpMethod
        && view.delays[i].delay == simulation.responseDelays[i].milliseconds
    {
      var pairViews: seq<PairView> := [];
      for i := 0 to |simulation.matchingPairs|
        invariant pairViews == PairsToViews(lib, simulation.matchingPairs)[..i]
      {
        pairViews := pairViews + [PairToView(lib, simulation.matchingPairs[i])];
      }
      var delays := ConvertToPayloadView(simulation.responseDelays);
      view := SimulationView(pairViews, delays);
    }

    // ---- core/hoverfly.go

    method GetResponse(fields: Fields, headers: HeaderMap?) returns (answer: Option<Response>)
      modifies headers, cacheMatcher.requestCache
      ensures Searched(old(Contents(headers)), Contents(headers))
      ensures answer == Answer(lib, old(Current()), fields, Contents(headers))
      ensures Current() == AfterAnswer(lib, old(Current()), fields, Contents(headers))
      ensures
        var key := (if cacheMatcher.webserver then [] else fields.destination)
                   + fields.path + fields.httpMethod + fields.query + fields.body;
        var cache, entries := cacheMatcher.requestCache, old(Current()).Entries();
        var found := FirstMatch(lib, simulation.matchingPairs, Request(fields, Contents(headers)), webserver);
        var wantsHeaders := found.Some? && Entries(found.value.matcher.headers) != map[];
        if cache != null && key in entries && entries[key].matchingPair.None?
        then answer == None && cache.elements == entries
        else if cache != null && key in entries && !entries[key].headerMatch
        then answer == Some(entries[key].matchingPair.value.response) && cache.elements == entries
        else
          && answer == (if found.Some? then Some(found.value.response) else None)
          && (cache != null ==>
                cache.elements
                == entries[key := CachedResponse(Request(fields, Contents(headers)), found, wantsHeaders)])
    {
      var cached := cacheMatcher.GetCachedResponse(fields);
      if cached.Success? && cached.value.matchingPair.None? {
        return None;
      } else if cached.Success? && !cached.value.headerMatch {
        return Some(cached.value.matchingPair.value.response);
      }
      var pair := MatchRequest(lib, fields, headers, webserver, simulation.matchingPairs);
      var _ := cacheMatcher.SaveRequestMatcherResponsePair(Request(fields, Contents(headers)), pair);
      if pair.None? {
        return None;
      }
      return Some(pair.value.response);
    }

    /** core/modes/capture_mode.go, Process: what it does to the stored simulation. */
    method CaptureExchange(x: Exchange)
      modifies simulation`matchingPairs
      ensures simulation.matchingPairs
           == (var p := Recorded(old(Current()), x);
               if p.Some? then Added(old(simulation.matchingPairs), p.value) else old(simulation.matchingPairs))
    {
      var request := AfterMiddleware(x);
      if request.None? {
        return;
      }
      if request.value.fields.destination == [] {
        return;
      }
      if x.upstream.None? {
        return;
      }
      Save(simulation, request.value, x.upstream.value, captureHeaders);
    }

    /** processRequest: dispatch on the mode, then the delay. */
    method ProcessRequest(x: Exchange)
      returns (answer: Option<Response>, delay: DelaySearch, ghost searched: Option<Headers>)
      modifies simulation`matchingPairs, cacheMatcher.requestCache
      ensures Searched(x.request.headers, searched)
      ensures Current() == AfterTraffic(lib, old(Current()), x, searched)
      ensures old(mode) == Simulate ==> answer == Served(lib, old(Current()), x, searched)
      ensures delay == DelayOf(lib, old(Current()), x, answer.Some?)
    {
      var h := x.request;
      var query := QueryString.SortQueryString(h.rawQuery);
      var fields := Fields(h.path, h.httpMethod, ToLower(h.host), h.scheme, query, h.body);
      answer, searched := None, h.headers;
      if mode == Capture {
        CaptureExchange(x);
        return answer, NoDelay, searched;
      } else if mode == Simulate {
        var headers: HeaderMap? := null;
        if h.headers.Some? {
          headers := new HeaderMap(h.headers.value);
        }
        answer := GetResponse(fields, headers);
        searched := Contents(headers);
        if answer.None? {
          return answer, NoDelay, searched;
        }
      }
      if x.troubled {
        return answer, NoDelay, searched;
      }
      delay := GetDelay(lib, simulation.responseDelays, fields);
    }

    /** Every event of a run is one of the calls above. */
    method Handle(e: Event) returns (ghost happened: Event)
      modifies this, simulation, cacheMatcher.requestCache
      ensures Possible(happened) && Current() == Step(lib, old(Current()), happened)
      ensures SameCall(e, happened)
    {
      happened := e;
      match e
      case Traffic(x, _) =>
        var answer, delay, searched := ProcessRequest(x);
        happened := Traffic(x, searched);
      case SetMode(name, headers) =>
        var _ := SetModeWithArguments(name, headers);
      case Put(view) =>
        var _ := ReplaceSimulation(view);
      case Delete =>
        DeleteSimulation();
      case Flush =>
        var _ := FlushCache();
      case SetDelays(views) =>
        var _ := SetResponseDelays(views);
      case DeleteDelays =>
        DeleteResponseDelays();
    }
  }
  /** What happened is the given call; the walk over a request's headers is the environment's choice. */
  ghost predicate SameCall(e: Event, happened: Event) {
    if e.Traffic? then happened.Traffic? && happened.exchange == e.exchange else happened == e
  }

  /**
   * A whole life, as core/cmd/hoverfly/main.go lays it out: start, import, then serve whatever
   * comes. A refused import ends the process before the first event. Every life is a run from an
   * initial state, so that what `Runs` proves about runs holds of the object.
   */
  method Live(lib: Library, mode: Mode, disableCache: bool, webserver: bool, cacheWebserver: bool,
              imports: seq<SimulationView>, events: seq<Event>)
    returns (h: Hoverfly, started: bool, ghost s0: State, ghost happened: seq<Event>)
    requires (cacheWebserver ==> webserver) && (webserver ==> mode == Simulate)
    ensures fresh(h) && h.lib == lib
    ensures Initial(lib, s0)
    ensures h.Current() == Run(lib, s0, happened)
    ensures Invariant(lib, h.Current())
    ensures forall i :: 0 <= i < |happened| ==> Possible(happened[i])
    ensures started <==> forall v, d :: v in imports && d in FromViews(v.delays) ==> ValidDelay(lib, d)
    ensures started ==> s0 == AfterStartup(lib, Blank(mode, !disableCache, webserver, cacheWebserver), imports)
    ensures |happened| == if started then |events| else 0
    ensures forall i :: 0 <= i < |happened| ==> SameCall(events[i], happened[i])
  {
    h := new Hoverfly(lib, mode, disableCache, webserver, cacheWebserver);
    ghost var blank := h.Current();
    happened := [];
    for i := 0 to |imports|
      invariant h.Current() == AfterStartup(lib, blank, imports[..i])
      invariant forall v, d :: v in imports[..i] && d in FromViews(v.delays) ==> ValidDelay(lib, d)
    {
      TakeSnoc(imports, i);
      SnocFront(imports[..i], imports[i]);
      var error := h.PutSimulation(imports[i]);
      if error.Some? {
        s0 := AfterStartup(lib, blank, imports[..i + 1]);
        assert imports[i] in imports;
        RunKeeps(lib, s0, []);
        return h, false, s0, [];
      }
    }
    TakeAll(imports);
    s0 := h.Current();
    for i := 0 to |events|
      invariant |happened| == i && h.Current() == Run(lib, s0, happened)
      invariant forall j :: 0 <= j < i ==> Possible(happened[j]) && SameCall(events[j], happened[j])
    {
      ghost var step := h.Handle(events[i]);
      SnocFront(happened, step);
      happened := happened + [step];
    }
    RunKeeps(lib, s0, happened);
    started := true;
  }
}
