/**
 * Export and import of simulations (core/models/request_matcher.go, core/models/payload.go,
 * core/import.go): the view structures and the conversions between them and what is stored.
 */
module Views {
  import opened Bytes
  import opened Wrappers
  import opened Models
  import opened Delays
  import QueryString
  import Base64

  datatype FieldMatchersView = FieldMatchersView(
    exactMatch: Option<Text>,
    xmlMatch: Option<Text>,
    xpathMatch: Option<Text>,
    jsonMatch: Option<Text>,
    jsonPathMatch: Option<Text>,
    regexMatch: Option<Text>,
    globMatch: Option<Text>)

  datatype RequestView = RequestView(
    path: Option<FieldMatchersView>,
    httpMethod: Option<FieldMatchersView>,
    destination: Option<FieldMatchersView>,
    scheme: Option<FieldMatchersView>,
    query: Option<FieldMatchersView>,
    body: Option<FieldMatchersView>,
    headers: Option<Headers>)

  datatype ResponseView = ResponseView(status: int, body: Text, encodedBody: bool, headers: Option<Headers>)

  datatype PairView = PairView(response: ResponseView, request: RequestView)

  /** The data part of a v2 simulation; its meta part carries no behaviour. */
  datatype SimulationView = SimulationView(pairs: seq<PairView>, delays: seq<DelayView>)

  // ---- field matchers

  /** NewRequestFieldMatchersFromView. */
  function MatchersFromView(v: Option<FieldMatchersView>): Option<FieldMatchers> {
    match v
    case None => None
    case Some(m) =>
      Some(FieldMatchers(m.exactMatch, m.xmlMatch, m.xpathMatch, m.jsonMatch, m.jsonPathMatch, m.regexMatch,
                         m.globMatch))
  }

  /** RequestFieldMatchers.BuildView, applied when the matchers are present. */
  function MatchersToView(m: Option<FieldMatchers>): Option<FieldMatchersView> {
    match m
    case None => None
    case Some(m) =>
      Some(FieldMatchersView(m.exactMatch, m.xmlMatch, m.xpathMatch, m.jsonMatch, m.jsonPathMatch, m.regexMatch,
                             m.globMatch))
  }

  /** Each kind of matcher is imported and exported as the same kind. */
  lemma MatchersWrittenOut(v: FieldMatchersView, m: FieldMatchers)
    ensures MatchersFromView(None) == None && MatchersToView(None) == None
    ensures MatchersFromView(Some(v)) == Some(m) <==> MatchersToView(Some(m)) == Some(v)
    ensures MatchersFromView(Some(v)) == Some(m) <==>
      && m.exactMatch == v.exactMatch && m.globMatch == v.globMatch && m.regexMatch == v.regexMatch
      && m.xmlMatch == v.xmlMatch && m.xpathMatch == v.xpathMatch
      && m.jsonMatch == v.jsonMatch && m.jsonPathMatch == v.jsonPathMatch
  {
  }

  // ---- responses

  const CONTENT_ENCODING: Text := Ascii("Content-Encoding")

  /** MIME types that are exported as they are. */
  const SUPPORTED_MIME_TYPES: seq<Text> :=
    [Ascii("text"), Ascii("plain"), Ascii("css"), Ascii("html"), Ascii("json"), Ascii("xml"), Ascii("js"),
     Ascii("javascript")]

  /** strings.Contains. */
  predicate Contains(s: Text, part: Text) {
    exists i :: 0 <= i <= |s| && OccursAt(part, s, i)
  }

  predicate NeedsEncoding(lib: Library, r: Response) {
    || (CONTENT_ENCODING in Entries(r.headers) && Entries(r.headers)[CONTENT_ENCODING] != [])
    || forall i :: 0 <= i < |SUPPORTED_MIME_TYPES| ==> !Contains(lib.detectContentType(r.body), SUPPORTED_MIME_TYPES[i])
  }

  lemma ContainsIff(s: Text, part: Text)
    ensures Contains(s, part) <==> exists a, b :: s == a + part + b
  {
    if Contains(s, part) {
      var i :| 0 <= i <= |s| && OccursAt(part, s, i);
      assert s == s[..i] + part + s[i + |part|..];
    }
    if a, b :| s == a + part + b {
      assert s[|a|..|a| + |part|] == part;
      assert OccursAt(part, s, |a|);
    }
  }

  /** A body is exported in Base64 unless nothing says it is encoded and it looks like text. */
  lemma NeedsEncodingWrittenOut(lib: Library, r: Response)
    ensures var mime := lib.detectContentType(r.body);
            NeedsEncoding(lib, r) <==>
            || (r.headers.Some? && Ascii("Content-Encoding") in r.headers.value
                && |r.headers.value[Ascii("Content-Encoding")]| > 0)
            || !(|| Contains(mime, Ascii("text")) || Contains(mime, Ascii("plain")) || Contains(mime, Ascii("css"))
                 || Contains(mime, Ascii("html")) || Contains(mime, Ascii("json")) || Contains(mime, Ascii("xml"))
                 || Contains(mime, Ascii("js")) || Contains(mime, Ascii("javascript")))
  {
    var types := SUPPORTED_MIME_TYPES;
    assert types[0] == Ascii("text") && types[1] == Ascii("plain") && types[2] == Ascii("css");
    assert types[3] == Ascii("html") && types[4] == Ascii("json") && types[5] == Ascii("xml");
    assert types[6] == Ascii("js") && types[7] == Ascii("javascript") && |types| == 8;
  }

  function ResponseToView(lib: Library, r: Response): ResponseView {
    var encode := NeedsEncoding(lib, r);
    ResponseView(r.status, if encode then Base64.Encode(r.body) else r.body, encode, r.headers)
  }

  /** core/models/payload.go, ConvertToResponseDetailsView. */
  method ConvertToResponseDetailsView(lib: Library, r: Response) returns (v: ResponseView)
    ensures v == ResponseToView(lib, r)
    ensures v.status == r.status && v.headers == r.headers && (v.encodedBody <==> NeedsEncoding(lib, r))
    ensures v.body == if v.encodedBody then Base64.Encode(r.body) else r.body
  {
    var needsEncoding := false;
    var contentEncoding := if CONTENT_ENCODING in Entries(r.headers) then Entries(r.headers)[CONTENT_ENCODING] else [];
    if |contentEncoding| > 0 {
      needsEncoding := true;
    } else {
      var mimeType := lib.detectContentType(r.body);
      needsEncoding := true;
      for i := 0 to |SUPPORTED_MIME_TYPES|
        invariant needsEncoding
        invariant forall j :: 0 <= j < i ==> !Contains(mimeType, SUPPORTED_MIME_TYPES[j])
      {
        if Contains(mimeType, SUPPORTED_MIME_TYPES[i]) {
          needsEncoding := false;
          break;
        }
      }
    }
    var body := r.body;
    if needsEncoding {
      body := Base64.Encode(r.body);
    }
    v := ResponseView(r.status, body, needsEncoding, r.headers);
  }

  /** NewResponseDetailsFromResponse. */
  function ResponseFromView(v: ResponseView): Response {
    Response(v.status, if v.encodedBody then Base64.Decode(v.body) else v.body, v.headers)
  }

  /** Whatever the body and however it was judged, it comes back unchanged. */
  lemma ResponseRoundTrip(lib: Library, r: Response)
    ensures ResponseFromView(ResponseToView(lib, r)) == r
  {
    Base64.RoundTrip(r.body);
  }

  // ---- pairs

  /** The exact query of a view is put in canonical form before it is stored. */
  function SortedQuery(v: Option<FieldMatchersView>): Option<FieldMatchersView> {
    if v.Some? && v.value.exactMatch.Some?
    then Some(v.value.(exactMatch := Some(QueryString.Canonical(v.value.exactMatch.value))))
    else v
  }

  function PairFromView(v: PairView): Pair {
    var q := v.request;
    Pair(RequestMatcher(
           MatchersFromView(q.path), MatchersFromView(q.httpMethod), MatchersFromView(q.destination),
           MatchersFromView(q.scheme), MatchersFromView(SortedQuery(q.query)), MatchersFromView(q.body), q.headers),
         ResponseFromView(v.response))
  }

  /** An imported pair, written out: each field from its own view, the exact query sorted. */
  lemma ImportedPairWrittenOut(v: PairView)
    ensures var m, q := PairFromView(v).matcher, v.request;
            && m.path == MatchersFromView(q.path) && m.httpMethod == MatchersFromView(q.httpMethod)
            && m.destination == MatchersFromView(q.destination) && m.scheme == MatchersFromView(q.scheme)
            && m.body == MatchersFromView(q.body) && m.headers == q.headers
            && (q.query.None? ==> m.query.None?)
            && (q.query.Some? ==>
                  && m.query.Some? && m.query.value.exactMatch.Some? == q.query.value.exactMatch.Some?
                  && MatchersFromView(q.query) == Some(m.query.value.(exactMatch := q.query.value.exactMatch))
                  && (m.query.value.exactMatch.Some? ==>
                        m.query.value.exactMatch.value == QueryString.Canonical(q.query.value.exactMatch.value)))
    ensures var p := PairFromView(v).response;
            && p.status == v.response.status && p.headers == v.response.headers
            && p.body == if v.response.encodedBody then Base64.Decode(v.response.body) else v.response.body
  {
  }

  /** An exported pair, written out. */
  lemma ExportedPairWrittenOut(lib: Library, p: Pair)
    ensures var q, m := PairToView(lib, p).request, p.matcher;
            && m.path == MatchersFromView(q.path) && m.httpMethod == MatchersFromView(q.httpMethod)
            && m.destination == MatchersFromView(q.destination) && m.scheme == MatchersFromView(q.scheme)
            && m.query == MatchersFromView(q.query) && m.body == MatchersFromView(q.body) && m.headers == q.headers
  {
    MatchersRoundTrip(p.matcher.query);
  }

  /** core/models/request_matcher.go, NewRequestMatcherResponsePairFromView; `sorted` is the view as it is left. */
  method NewPairFromView(view: PairView) returns (pair: Pair, sorted: PairView)
    ensures pair == PairFromView(view)
    ensures sorted == view.(request := view.request.(query := SortedQuery(view.request.query)))
  {
    sorted := view;
    if sorted.request.query.Some? && sorted.request.query.value.exactMatch.Some? {
      var sortedQuery := QueryString.SortQueryString(sorted.request.query.value.exactMatch.value);
      sorted := sorted.(request := sorted.request.(query :=
        Some(sorted.request.query.value.(exactMatch := Some(sortedQuery)))));
    }
    var q := sorted.request;
    pair := Pair(RequestMatcher(
                   MatchersFromView(q.path), MatchersFromView(q.httpMethod), MatchersFromView(q.destination),
                   MatchersFromView(q.scheme), MatchersFromView(q.query), MatchersFromView(q.body), q.headers),
                 ResponseFromView(sorted.response));
  }

  /** RequestMatcherResponsePair.BuildView. */
  function PairToView(lib: Library, p: Pair): PairView {
    var m := p.matcher;
    PairView(
      ResponseToView(lib, p.response),
      RequestView(
        MatchersToView(m.path), MatchersToView(m.httpMethod), MatchersToView(m.destination), MatchersToView(m.scheme),
        MatchersToView(m.query), MatchersToView(m.body), m.headers))
  }

  function PairsFromViews(views: seq<PairView>): seq<Pair> {
    seq(|views|, i requires 0 <= i < |views| => PairFromView(views[i]))
  }

  function PairsToViews(lib: Library, pairs: seq<Pair>): seq<PairView> {
    seq(|pairs|, i requires 0 <= i < |pairs| => PairToView(lib, pairs[i]))
  }

  /** A stored exact query is in canonical form. */
  ghost predicate CanonicalQuery(p: Pair) {
    p.matcher.query.Some? && p.matcher.query.value.exactMatch.Some? ==>
      QueryString.IsCanonical(p.matcher.query.value.exactMatch.value)
  }

  lemma ImportedQueryCanonical(v: PairView)
    ensures CanonicalQuery(PairFromView(v))
  {
    if v.request.query.Some? && v.request.query.value.exactMatch.Some? {
      QueryString.CanonicalIdempotent(v.request.query.value.exactMatch.value);
    }
  }

  lemma MatchersRoundTrip(m: Option<FieldMatchers>)
    ensures MatchersFromView(MatchersToView(m)) == m
  {
  }

  /** A stored query comes back unchanged exactly when its exact part is canonical. */
  lemma QueryRoundTrip(m: Option<FieldMatchers>)
    ensures MatchersFromView(SortedQuery(MatchersToView(m))) == m
       <==> (m.Some? && m.value.exactMatch.Some? ==> QueryString.IsCanonical(m.value.exactMatch.value))
  {
  }

  /** Importing what was exported for a pair gives the pair back exactly when its exact query is canonical. */
  lemma PairRoundTrip(lib: Library, p: Pair)
    ensures PairFromView(PairToView(lib, p)) == p <==> CanonicalQuery(p)
  {
    var m := p.matcher;
    ResponseRoundTrip(lib, p.response);
    MatchersRoundTrip(m.path);
    MatchersRoundTrip(m.httpMethod);
    MatchersRoundTrip(m.destination);
    MatchersRoundTrip(m.scheme);
    MatchersRoundTrip(m.body);
    QueryRoundTrip(m.query);
  }

  lemma PairsRoundTrip(lib: Library, pairs: seq<Pair>)
    requires forall p :: p in pairs ==> CanonicalQuery(p)
    ensures PairsFromViews(PairsToViews(lib, pairs)) == pairs
  {
    forall i | 0 <= i < |pairs|
      ensures PairFromView(PairToView(lib, pairs[i])) == pairs[i]
    {
      assert pairs[i] in pairs;
      PairRoundTrip(lib, pairs[i]);
    }
  }
}
