/**
 * The values Hoverfly stores and exchanges (core/models). A pointer that may be nil is an
 * `Option`, as is a map that may be nil: `reflect.DeepEqual` tells a nil map from an empty one.
 */
module Models {
  import opened Bytes
  import opened Wrappers

  type Headers = map<Text, seq<Text>>

  /** Reading a possibly nil map. */
  function Entries(headers: Option<Headers>): Headers {
    if headers.Some? then headers.value else map[]
  }

  /** The matchers a field may carry; all those present must accept. */
  datatype FieldMatchers = FieldMatchers(
    exactMatch: Option<Text>,
    xmlMatch: Option<Text>,
    xpathMatch: Option<Text>,
    jsonMatch: Option<Text>,
    jsonPathMatch: Option<Text>,
    regexMatch: Option<Text>,
    globMatch: Option<Text>)

  function Exactly(s: Text): FieldMatchers {
    FieldMatchers(Some(s), None, None, None, None, None, None)
  }

  datatype RequestMatcher = RequestMatcher(
    path: Option<FieldMatchers>,
    httpMethod: Option<FieldMatchers>,
    destination: Option<FieldMatchers>,
    scheme: Option<FieldMatchers>,
    query: Option<FieldMatchers>,
    body: Option<FieldMatchers>,
    headers: Option<Headers>)

  /** Everything in a request but its headers, which live in a map that is updated in place. */
  datatype Fields = Fields(path: Text, httpMethod: Text, destination: Text, scheme: Text, query: Text, body: Text)

  datatype Request = Request(fields: Fields, headers: Option<Headers>)

  datatype Response = Response(status: int, body: Text, headers: Option<Headers>)

  datatype Pair = Pair(matcher: RequestMatcher, response: Response)

  /** core/models/cached_response.go, after decoding. */
  datatype CachedResponse = CachedResponse(request: Request, matchingPair: Option<Pair>, headerMatch: bool)

  datatype Delay = Delay(urlPattern: Text, httpMethod: Text, milliseconds: int)

  /**
   * The external libraries, as deterministic functions: minifiers that may fail, XPath and
   * JSONPath evaluation, regular expressions, and MIME sniffing.
   */
  datatype Library = Library(
    minifyXml: Text -> Option<Text>,
    minifyJson: Text -> Option<Text>,
    xpathMatch: (Text, Text) -> bool,
    jsonPathMatch: (Text, Text) -> bool,
    regexCompiles: Text -> bool,
    regexMatches: (Text, Text) -> bool,
    detectContentType: Text -> Text)

  predicate HeaderBearing(p: Pair) {
    Entries(p.matcher.headers) != map[]
  }

  /** core/models/request_matcher.go, BuildRequestDetailsFromExactMatches. */
  function ExactRequest(m: RequestMatcher): Option<Request> {
    if || m.body.None? || m.body.value.exactMatch.None?
       || m.destination.None? || m.destination.value.exactMatch.None?
       || m.httpMethod.None? || m.httpMethod.value.exactMatch.None?
       || m.path.None? || m.path.value.exactMatch.None?
       || m.query.None? || m.query.value.exactMatch.None?
       || m.scheme.None? || m.scheme.value.exactMatch.None?
    then None
    else Some(Request(
                Fields(
                  m.path.value.exactMatch.value,
                  m.httpMethod.value.exactMatch.value,
                  m.destination.value.exactMatch.value,
                  m.scheme.value.exactMatch.value,
                  m.query.value.exactMatch.value,
                  m.body.value.exactMatch.value),
                m.headers))
  }
}
