/**
 * Version 1 requests: what middleware sends back, and the older simulation format that
 * `Upgrade` (core/handlers/v2/simulation_views.go) turns into the current one.
 */
module VersionOne {
  import opened Bytes
  import opened Wrappers
  import opened Models
  import opened FieldMatching
  import opened HeaderWalks
  import opened RequestMatching
  import opened Views

  datatype RequestViewV1 = RequestViewV1(
    requestType: Option<Text>,
    path: Option<Text>,
    httpMethod: Option<Text>,
    destination: Option<Text>,
    scheme: Option<Text>,
    query: Option<Text>,
    body: Option<Text>,
    headers: Option<Headers>)

  datatype PairViewV1 = PairViewV1(response: ResponseView, request: RequestViewV1)

  /** util.PointerToString. */
  function TextOf(p: Option<Text>): Text {
    if p.Some? then p.value else []
  }

  /** RequestDetailsViewV1.GetQuery. */
  function GetQuery(v: RequestViewV1): Option<Text> {
    if v.query.None? then None else Some(QueryString.Canonical(v.query.value))
  }

  /** core/models/payload.go, NewRequestDetailsFromRequest: the request as middleware rewrote it. */
  function RequestFromV1(v: RequestViewV1): Request {
    Request(
      Fields(TextOf(v.path), TextOf(v.httpMethod), TextOf(v.destination), TextOf(v.scheme), TextOf(GetQuery(v)),
             TextOf(v.body)),
      v.headers)
  }

  /** core/models/payload.go, ConvertToRequestDetailsView: the request as middleware receives it. */
  function RequestToV1(r: Request): RequestViewV1 {
    var f := r.fields;
    RequestViewV1(None, Some(f.path), Some(f.httpMethod), Some(f.destination), Some(f.scheme), Some(f.query),
                  Some(f.body), r.headers)
  }

  /** Field by field, what middleware sent back, absent fields empty and the query sorted. */
  lemma RequestFromV1WrittenOut(v: RequestViewV1)
    ensures var f := RequestFromV1(v).fields;
            && f.path == (if v.path.Some? then v.path.value else [])
            && f.httpMethod == (if v.httpMethod.Some? then v.httpMethod.value else [])
            && f.destination == (if v.destination.Some? then v.destination.value else [])
            && f.scheme == (if v.scheme.Some? then v.scheme.value else [])
            && f.query == (if v.query.Some? then QueryString.Canonical(v.query.value) else [])
            && f.body == (if v.body.Some? then v.body.value else [])
            && RequestFromV1(v).headers == v.headers
  {
  }

  /** Field by field, what middleware receives. */
  lemma RequestToV1WrittenOut(r: Request)
    ensures var v := RequestToV1(r);
            && v.path == Some(r.fields.path) && v.httpMethod == Some(r.fields.httpMethod)
            && v.destination == Some(r.fields.destination) && v.scheme == Some(r.fields.scheme)
            && v.query == Some(r.fields.query) && v.body == Some(r.fields.body)
            && v.headers == r.headers && v.requestType.None?
  {
  }

  /** Middleware that echoes a request leaves it unchanged exactly when its query is canonical. */
  lemma EchoingMiddleware(r: Request)
    ensures RequestFromV1(RequestToV1(r)) == r <==> QueryString.IsCanonical(r.fields.query)
  {
  }

  const RECORDING: Text := Ascii("recording")

  function ExactView(s: Option<Text>): Option<FieldMatchersView> {
    if s.None? then None else Some(FieldMatchersView(s, None, None, None, None, None, None))
  }

  /** An exact matcher for a field that is present, nothing for one that is not. */
  lemma ExactViewWrittenOut(s: Option<Text>)
    ensures s.None? ==> ExactView(s) == None
    ensures s.Some? ==>
      && ExactView(s).Some?
      && var m := ExactView(s).value;
         && m.exactMatch == s && m.globMatch.None? && m.regexMatch.None? && m.xmlMatch.None?
         && m.xpathMatch.None? && m.jsonMatch.None? && m.jsonPathMatch.None?
  {
  }

  /** Headers are only kept for pairs that say they are something else than a recording. */
  predicate KeepsHeaders(v: RequestViewV1) {
    v.requestType.Some? && v.requestType.value != RECORDING
  }

  function UpgradedPair(v: PairViewV1): PairView {
    var q := v.request;
    PairView(
      v.response,
      RequestView(ExactView(q.path), ExactView(q.httpMethod), ExactView(q.destination), ExactView(q.scheme),
                  ExactView(q.query), ExactView(q.body), if KeepsHeaders(q) then q.headers else None))
  }

  function UpgradedPairs(views: seq<PairViewV1>): seq<PairView> {
    seq(|views|, i requires 0 <= i < |views| => UpgradedPair(views[i]))
  }

  /** SimulationViewV1.Upgrade; the result carries no delays. */
  method Upgrade(views: seq<PairViewV1>) returns (r: SimulationView)
    ensures r == SimulationView(UpgradedPairs(views), [])
    ensures r.delays == [] && |r.pairs| == |views|
    ensures forall i :: 0 <= i < |views| ==>
      var v, q := views[i].request, r.pairs[i].request;
      && r.pairs[i].response == views[i].response
      && q.path == ExactView(v.path) && q.httpMethod == ExactView(v.httpMethod)
      && q.destination == ExactView(v.destination) && q.scheme == ExactView(v.scheme)
      && q.query == ExactView(v.query) && q.body == ExactView(v.body)
      && q.headers == if v.requestType.Some? && v.requestType.value != Ascii("recording") then v.headers else None
  {
    var pairs: seq<PairView> := [];
    for i := 0 to |views|
      invariant pairs == UpgradedPairs(views)[..i]
    {
      var q := views[i].request;
      var schemeMatchers, methodMatchers, destinationMatchers, pathMatchers, queryMatchers, bodyMatchers:
        Option<FieldMatchersView> := None, None, None, None, None, None;
      var headers: Option<Headers> := None;
      if q.requestType.Some? && q.requestType.value != RECORDING {
        headers := q.headers;
      }
      if q.scheme.Some? {
        schemeMatchers := Some(FieldMatchersView(q.scheme, None, None, None, None, None, None));
      }
      if q.httpMethod.Some? {
        methodMatchers := Some(FieldMatchersView(q.httpMethod, None, None, None, None, None, None));
      }
      if q.destination.Some? {
        destinationMatchers := Some(FieldMatchersView(q.destination, None, None, None, None, None, None));
      }
      if q.path.Some? {
        pathMatchers := Some(FieldMatchersView(q.path, None, None, None, None, None, None));
      }
      if q.query.Some? {
        queryMatchers := Some(FieldMatchersView(q.query, None, None, None, None, None, None));
      }
      if q.body.Some? {
        bodyMatchers := Some(FieldMatchersView(q.body, None, None, None, None, None, None));
      }
      pairs := pairs + [PairView(views[i].response,
                                 RequestView(pathMatchers, methodMatchers, destinationMatchers, schemeMatchers,
                                             queryMatchers, bodyMatchers, headers))];
    }
    r := SimulationView(pairs, []);
  }

  // ---- what a version 1 request means

  predicate FieldIs(wanted: Option<Text>, actual: Text) {
    wanted.Some? ==> wanted.value == actual
  }

  ghost predicate SameSegments(a: Text, b: Text) {
    multiset(QueryString.Segments(a)) == multiset(QueryString.Segments(b))
  }

  /**
   * Each field that is present equals the request's, the query up to the order of its segments,
   * the scheme ignored; headers count only when the pair is explicitly not a recording.
   */
  ghost predicate AcceptsV1(v: RequestViewV1, r: Request, webserver: bool) {
    && FieldIs(v.path, r.fields.path)
    && FieldIs(v.httpMethod, r.fields.httpMethod)
    && (webserver || FieldIs(v.destination, r.fields.destination))
    && FieldIs(v.body, r.fields.body)
    && (v.query.Some? ==> SameSegments(v.query.value, r.fields.query))
    && (KeepsHeaders(v) ==> HeadersAccept(Entries(v.headers), Entries(r.headers)))
  }

  lemma ExactFieldMeaning(lib: Library, wanted: Option<Text>, actual: Text)
    ensures FieldMatcher(lib, MatchersFromView(ExactView(wanted)), actual) <==> FieldIs(wanted, actual)
  {
  }

  /** An upgraded and imported pair accepts what the version 1 pair meant to accept. */
  lemma UpgradePreservesMeaning(lib: Library, v: PairViewV1, r: Request, webserver: bool)
    requires QueryString.IsCanonical(r.fields.query)
    ensures Accepts(lib, PairFromView(UpgradedPair(v)).matcher, r, webserver) <==> AcceptsV1(v.request, r, webserver)
  {
    var q := v.request;
    ExactFieldMeaning(lib, q.path, r.fields.path);
    ExactFieldMeaning(lib, q.httpMethod, r.fields.httpMethod);
    ExactFieldMeaning(lib, q.destination, r.fields.destination);
    ExactFieldMeaning(lib, q.body, r.fields.body);
    if q.query.Some? {
      QueryString.CanonicalEqualsIffSameSegments(q.query.value, r.fields.query);
    }
  }

  /** Matching picks the first version 1 pair that accepts, and answers with its response. */
  lemma UpgradeKeepsFirstMatch(lib: Library, views: seq<PairViewV1>, r: Request, webserver: bool)
    requires QueryString.IsCanonical(r.fields.query)
    ensures var found := FirstMatch(lib, PairsFromViews(UpgradedPairs(views)), r, webserver);
            && (found.None? <==> forall i :: 0 <= i < |views| ==> !AcceptsV1(views[i].request, r, webserver))
            && forall i :: 0 <= i < |views| && AcceptsV1(views[i].request, r, webserver)
                        && (forall j :: 0 <= j < i ==> !AcceptsV1(views[j].request, r, webserver))
                       ==> found.Some? && found.value.response == ResponseFromView(views[i].response)
  {
    var pairs := PairsFromViews(UpgradedPairs(views));
    forall i | 0 <= i < |views|
      ensures Accepts(lib, pairs[i].matcher, r, webserver) <==> AcceptsV1(views[i].request, r, webserver)
    {
      UpgradePreservesMeaning(lib, views[i], r, webserver);
    }
    forall i | 0 <= i < |views| && AcceptsV1(views[i].request, r, webserver)
            && (forall j :: 0 <= j < i ==> !AcceptsV1(views[j].request, r, webserver))
      ensures FirstMatch(lib, pairs, r, webserver) == Some(pairs[i])
    {
      FirstMatchAt(lib, pairs, r, webserver, i);
    }
    var k := FirstIndex(lib, pairs, r, webserver);
  }
}
