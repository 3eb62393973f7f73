/**
 * The state of a Hoverfly instance and what each administrative call and each proxied request
 * does to it (core/hoverfly.go, core/hoverfly_service.go), one atomic step at a time.
 */
module Engine {
  import opened Bytes
  import opened Wrappers
  import opened Models
  import opened HeaderMatching
  import opened RequestMatching
  import opened CacheMatching
  import opened Recording
  import opened Delays
  import opened Views
  import opened VersionOne

  datatype Mode = Simulate | Synthesize | Modify | Capture

  /**
   * `webserver` is the flag the matcher reads, `cacheWebserver` the copy the cache took when it
   * was built; the former may have been switched on since.
   */
  datatype State = State(
    mode: Mode,
    pairs: seq<Pair>,
    delays: seq<Delay>,
    cache: Option<CacheMap>,
    whitelist: seq<Text>,
    webserver: bool,
    cacheWebserver: bool)
  {
    predicate WithHost() { !cacheWebserver }

    function Entries(): CacheMap {
      if cache.Some? then cache.value else map[]
    }
  }

  // ---- administrative calls

  datatype ModeError = NotAMode | CaptureAsWebserver | BadWhitelist

  function ParseMode(name: Text): Option<Mode> {
    if name == Ascii("simulate") then Some(Simulate)
    else if name == Ascii("synthesize") then Some(Synthesize)
    else if name == Ascii("modify") then Some(Modify)
    else if name == Ascii("capture") then Some(Capture)
    else None
  }

  /** Why a change of mode is refused, if it is. */
  function ModeProblem(s: State, name: Text, headers: seq<Text>): Option<ModeError> {
    if ParseMode(name).None? then Some(NotAMode)
    else if s.webserver && ParseMode(name).value == Capture then Some(CaptureAsWebserver)
    else if ASTERISK in headers && |headers| > 1 then Some(BadWhitelist)
    else None
  }

  /** SetModeWithArguments: capture flushes the cache, simulate preloads it; only capture takes the header list. */
  function AfterSetMode(s: State, name: Text, headers: seq<Text>): State {
    if ModeProblem(s, name, headers).Some? then s
    else
      match ParseMode(name).value
      case Capture => s.(mode := Capture, cache := Flushed(s.cache), whitelist := headers)
      case Simulate =>
        s.(mode := Simulate,
           cache := if s.cache.None? then None else Some(Preloaded(s.cache.value, s.pairs, s.WithHost())))
      case m => s.(mode := m)
  }

  function AfterFlush(s: State): State {
    s.(cache := Flushed(s.cache))
  }

  /** SetResponseDelays: one bad entry and nothing changes. */
  function AfterSetDelays(lib: Library, s: State, views: seq<DelayView>): State {
    if forall i :: 0 <= i < |views| ==> Problem(lib, views[i]).None? then s.(delays := FromViews(views)) else s
  }

  function AfterDeleteDelays(s: State): State {
    s.(delays := [])
  }

  function AfterDelete(s: State): State {
    AfterFlush(AfterDeleteDelays(s.(pairs := [])))
  }

  /** PutSimulation: the pairs are appended even when the delays are then refused. */
  function AfterImport(lib: Library, s: State, view: SimulationView): State {
    AfterSetDelays(lib, s.(pairs := s.pairs + PairsFromViews(view.pairs)), view.delays)
  }

  /** PUT /api/v2/simulation: delete, then import. */
  function AfterPut(lib: Library, s: State, view: SimulationView): State {
    AfterImport(lib, AfterDelete(s), view)
  }

  function Export(lib: Library, s: State): SimulationView {
    SimulationView(PairsToViews(lib, s.pairs), ToViews(s.delays))
  }

  // ---- traffic

  /** A request as it reaches the proxy. */
  datatype HttpRequest = HttpRequest(
    path: Text, httpMethod: Text, host: Text, scheme: Text, rawQuery: Text, body: Text, headers: Option<Headers>)

  /** core/models/payload.go, NewRequestDetailsFromHttpRequest. */
  function DetailsOf(h: HttpRequest): Request {
    Request(Fields(h.path, h.httpMethod, ToLower(h.host), h.scheme, QueryString.Canonical(h.rawQuery), h.body),
            h.headers)
  }

  datatype Middleware = Unchanged | Rewritten(view: RequestViewV1) | Failed

  /** A request together with what middleware and the real service make of it. */
  datatype Exchange = Exchange(request: HttpRequest, middleware: Middleware, upstream: Option<Response>, troubled: bool)

  /** The request as middleware leaves it. */
  function AfterMiddleware(x: Exchange): Option<Request> {
    match x.middleware
    case Unchanged => Some(DetailsOf(x.request))
    case Rewritten(v) => Some(RequestFromV1(v))
    case Failed => None
  }

  /** What capture mode records: nothing unless middleware, rebuilding and forwarding all succeed. */
  function Recorded(s: State, x: Exchange): Option<Pair> {
    var r := AfterMiddleware(x);
    if r.None? || r.value.fields.destination == [] || x.upstream.None? then None
    else Some(Pair(CapturedMatcher(r.value, s.whitelist), x.upstream.value))
  }

  /** The cache entry that decides without a search: a miss, or a pair without header matchers. */
  predicate ShortCircuits(e: Option<CachedResponse>) {
    e.Some? && (e.value.matchingPair.None? || !e.value.headerMatch)
  }

  function ResponseOf(p: Option<Pair>): Option<Response> {
    if p.Some? then Some(p.value.response) else None
  }

  /** What simulate mode answers without a cache; `None` is the error for an unknown request. */
  function Uncached(lib: Library, s: State, r: Request): Option<Response> {
    ResponseOf(FirstMatch(lib, s.pairs, r, s.webserver))
  }

  /** GetResponse: its answer, when the search leaves the request's headers as `searched`. */
  function Answer(lib: Library, s: State, f: Fields, searched: Option<Headers>): Option<Response> {
    var e := Lookup(s.cache, f, s.WithHost());
    if ShortCircuits(e) then ResponseOf(e.value.matchingPair)
    else Uncached(lib, s, Request(f, searched))
  }

  /** What simulate mode answers to a request from the network. */
  function Served(lib: Library, s: State, x: Exchange, searched: Option<Headers>): Option<Response> {
    Answer(lib, s, DetailsOf(x.request).fields, searched)
  }

  /** GetResponse: the state it leaves. */
  function AfterAnswer(lib: Library, s: State, f: Fields, searched: Option<Headers>): State {
    if ShortCircuits(Lookup(s.cache, f, s.WithHost())) then s
    else
      var r := Request(f, searched);
      s.(cache := Memoised(s.cache, r, FirstMatch(lib, s.pairs, r, s.webserver), s.WithHost()))
  }

  function AfterTraffic(lib: Library, s: State, x: Exchange, searched: Option<Headers>): State {
    match s.mode
    case Capture =>
      var p := Recorded(s, x);
      if p.Some? then s.(pairs := Added(s.pairs, p.value)) else s
    case Simulate => AfterAnswer(lib, s, DetailsOf(x.request).fields, searched)
    case _ => s
  }

  /** The delay before the response goes out: none in capture mode or after an error. */
  function DelayOf(lib: Library, s: State, x: Exchange, answered: bool): DelaySearch {
    if x.troubled || s.mode == Capture || (s.mode == Simulate && !answered) then NoDelay
    else SearchDelays(lib, s.delays, DetailsOf(x.request).fields)
  }

  // ---- runs

  /** `searched` is what the environment's map iteration order made of the request's headers. */
  datatype Event =
    | Traffic(exchange: Exchange, searched: Option<Headers>)
    | SetMode(name: Text, headers: seq<Text>)
    | Put(view: SimulationView)
    | Delete
    | Flush
    | SetDelays(views: seq<DelayView>)
    | DeleteDelays

  ghost predicate Possible(e: Event) {
    e.Traffic? ==> Searched(e.exchange.request.headers, e.searched)
  }

  function Step(lib: Library, s: State, e: Event): State {
    match e
    case Traffic(x, searched) => AfterTraffic(lib, s, x, searched)
    case SetMode(name, headers) => AfterSetMode(s, name, headers)
    case Put(view) => AfterPut(lib, s, view)
    case Delete => AfterDelete(s)
    case Flush => AfterFlush(s)
    case SetDelays(views) => AfterSetDelays(lib, s, views)
    case DeleteDelays => AfterDeleteDelays(s)
  }

  /** What the administrative calls leave, part by part. */
  lemma StepWrittenOut(lib: Library, s: State, e: Event)
    ensures var t := Step(lib, s, e);
            var emptied := if s.cache.None? then None else Some(map[]);
            match e
            case Traffic(_, _) => true
            case SetMode(name, headers) => true
            case Put(view) =>
              && |t.pairs| == |view.pairs|
              && (forall i :: 0 <= i < |t.pairs| ==> t.pairs[i] == PairFromView(view.pairs[i]))
              && t == s.(pairs := t.pairs, delays := t.delays, cache := emptied)
            case Delete => t == s.(pairs := [], delays := [], cache := emptied)
            case Flush => t == s.(cache := emptied)
            case SetDelays(views) =>
              if forall v :: v in views ==> v.urlPattern != [] && v.delay != 0 && lib.regexCompiles(v.urlPattern)
              then |t.delays| == |views| && t == s.(delays := t.delays)
                && forall i :: 0 <= i < |views| ==> ToView(t.delays[i]) == views[i]
              else t == s
            case DeleteDelays => t == s.(delays := [])
  {
    if e.SetDelays? {
      assert forall v :: v in e.views <==> exists i :: 0 <= i < |e.views| && e.views[i] == v;
    }
  }

  function Run(lib: Library, s: State, events: seq<Event>): State {
    if events == [] then s
    else Step(lib, Run(lib, s, events[..|events| - 1]), events[|events| - 1])
  }

  /** An instance right after start: an empty in-memory cache, or none, and nothing stored. */
  function Blank(mode: Mode, cached: bool, webserver: bool, cacheWebserver: bool): State {
    State(mode, [], [], if cached then Some(map[]) else None, [], webserver, cacheWebserver)
  }

  /** Simulations imported before the proxy starts are appended one after the other. */
  function AfterStartup(lib: Library, s: State, imports: seq<SimulationView>): State {
    if imports == [] then s
    else AfterImport(lib, AfterStartup(lib, s, imports[..|imports| - 1]), imports[|imports| - 1])
  }

  /** What an instance can look like before its first event. */
  ghost predicate Initial(lib: Library, s: State) {
    exists mode, cached, webserver, cacheWebserver, imports ::
      && (cacheWebserver ==> webserver)
      && (webserver ==> mode == Simulate)
      && s == AfterStartup(lib, Blank(mode, cached, webserver, cacheWebserver), imports)
  }
}
