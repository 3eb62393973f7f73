/**
 * Recording: how a captured exchange becomes a stored pair (`Save` in core/hoverfly.go) and how
 * pairs are appended without duplicates (core/models/simulation.go).
 */
module Recording {
  import opened Bytes
  import opened Wrappers
  import opened Models
  import opened FieldMatching
  import opened Globs
  import opened HeaderWalks
  import opened RequestMatching
  import opened Sequences

  // ---- the list of stored pairs

  predicate HasMatcher(pairs: seq<Pair>, m: RequestMatcher) {
    exists i :: 0 <= i < |pairs| && pairs[i].matcher == m
  }

  function Added(pairs: seq<Pair>, p: Pair): seq<Pair> {
    if HasMatcher(pairs, p.matcher) then pairs else pairs + [p]
  }

  /** core/models/simulation.go. */
  class Simulation {
    var matchingPairs: seq<Pair>
    var responseDelays: seq<Delay>

    constructor ()
      ensures matchingPairs == [] && responseDelays == []
    {
      matchingPairs, responseDelays := [], [];
    }

    method AddRequestMatcherResponsePair(pair: Pair)
      modifies this`matchingPairs
      ensures matchingPairs == Added(old(matchingPairs), pair)
      ensures matchingPairs == if exists p :: p in old(matchingPairs) && p.matcher == pair.matcher
                               then old(matchingPairs) else old(matchingPairs) + [pair]
    {
      var duplicate := false;
      for i := 0 to |matchingPairs|
        invariant !duplicate && forall j :: 0 <= j < i ==> matchingPairs[j].matcher != pair.matcher
      {
        duplicate := pair.matcher == matchingPairs[i].matcher;
        if duplicate {
          assert HasMatcher(matchingPairs, pair.matcher);
          break;
        }
      }
      if !duplicate {
        matchingPairs := matchingPairs + [pair];
      }
    }
  }

  /** The pairs stored after recording `log` on top of `pairs`. */
  function AddAll(pairs: seq<Pair>, log: seq<Pair>): seq<Pair> {
    if log == [] then pairs
    else Added(AddAll(pairs, log[..|log| - 1]), log[|log| - 1])
  }

  /** Recording never alters an earlier pair: the list only grows at its end. */
  lemma {:induction false} AddAllExtends(pairs: seq<Pair>, log: seq<Pair>)
    ensures pairs <= AddAll(pairs, log)
  {
    if log != [] {
      AddAllExtends(pairs, log[..|log| - 1]);
    }
  }

  /** The entry at `i` is the first of the log with its matcher. */
  predicate FirstOfItsKind(log: seq<Pair>, i: nat)
    requires i < |log|
  {
    !HasMatcher(log[..i], log[i].matcher)
  }

  /** `at` lists, in order, exactly the positions of the log that hold the first entry of their kind. */
  ghost predicate FirstsOf(log: seq<Pair>, at: seq<nat>) {
    && (forall j :: 0 <= j < |at| ==> at[j] < |log|)
    && (forall i, j :: 0 <= i < j < |at| ==> at[i] < at[j])
    && (forall i: nat :: i < |log| ==> (i in at <==> FirstOfItsKind(log, i)))
  }

  /**
   * After any captures from an empty simulation, the stored pairs are the first-recorded pair of
   * each matcher, in order of first appearance.
   */
  lemma {:induction false} CaptureLogShape(log: seq<Pair>) returns (at: seq<nat>)
    ensures FirstsOf(log, at)
    ensures |AddAll([], log)| == |at| && forall j :: 0 <= j < |at| ==> AddAll([], log)[j] == log[at[j]]
    ensures forall m :: HasMatcher(AddAll([], log), m) <==> HasMatcher(log, m)
  {
    if log == [] {
      at := [];
    } else {
      var front, last := log[..|log| - 1], log[|log| - 1];
      var before := CaptureLogShape(front);
      var stored := AddAll([], front);
      assert log == front + [last];
      forall i: nat | i < |front|
        ensures FirstOfItsKind(log, i) == FirstOfItsKind(front, i)
      {
        assert log[..i] == front[..i];
      }
      assert log[..|front|] == front;
      if HasMatcher(stored, last.matcher) {
        at := before;
      } else {
        at := before + [|front|];
      }
      LogMatchers(front, last);
      LogMatchers(stored, last);
    }
  }

  lemma LogMatchers(pairs: seq<Pair>, p: Pair)
    ensures forall m :: HasMatcher(pairs + [p], m) <==> HasMatcher(pairs, m) || m == p.matcher
  {
    forall m
      ensures HasMatcher(pairs + [p], m) <==> HasMatcher(pairs, m) || m == p.matcher
    {
      var all := pairs + [p];
      assert all[|pairs|] == p;
      if HasMatcher(pairs, m) {
        var i :| 0 <= i < |pairs| && pairs[i].matcher == m;
        assert all[i] == pairs[i];
      }
    }
  }

  ghost predicate DistinctMatchers(pairs: seq<Pair>) {
    forall i, j :: 0 <= i < j < |pairs| ==> pairs[i].matcher != pairs[j].matcher
  }

  lemma AddedDistinct(pairs: seq<Pair>, p: Pair)
    requires DistinctMatchers(pairs)
    ensures DistinctMatchers(Added(pairs, p))
  {
    var all := Added(pairs, p);
    forall i, j | 0 <= i < j < |all|
      ensures all[i].matcher != all[j].matcher
    {
      assert all[i] == pairs[i];
    }
  }

  /** Captures keep the stored matchers pairwise distinct. */
  lemma {:induction false} CapturedPairsDistinct(pairs: seq<Pair>, log: seq<Pair>)
    requires DistinctMatchers(pairs)
    ensures DistinctMatchers(AddAll(pairs, log))
  {
    if log != [] {
      CapturedPairsDistinct(pairs, log[..|log| - 1]);
      AddedDistinct(AddAll(pairs, log[..|log| - 1]), log[|log| - 1]);
    }
  }

  // ---- from an exchange to a pair

  datatype BodyKind = Json | Xml | Other

  /** The regular expressions `[/+]json$` and `[/+]xml$`. */
  predicate EndsLike(value: Text, suffix: Text) {
    exists c: byte :: (c == 47 || c == 43) && |value| > |suffix| && value[|value| - |suffix| - 1..] == [c] + suffix
  }

  const JSON: Text := Ascii("json")
  const XML: Text := Ascii("xml")
  const CONTENT_TYPE: Text := Ascii("Content-Type")

  function KindOf(value: Text): BodyKind {
    if EndsLike(value, JSON) then Json else if EndsLike(value, XML) then Xml else Other
  }

  /** The first content type that says JSON or XML decides. */
  function ContentKind(values: seq<Text>): (k: BodyKind)
    ensures k == Other <==> forall i :: 0 <= i < |values| ==> KindOf(values[i]) == Other
    ensures k != Other ==>
      exists i :: 0 <= i < |values| && KindOf(values[i]) == k && forall j :: 0 <= j < i ==> KindOf(values[j]) == Other
  {
    if values == [] then Other
    else if KindOf(values[0]) != Other then KindOf(values[0])
    else
      var k := ContentKind(values[1..]);
      assert values == [values[0]] + values[1..];
      k
  }

  function BodyKindOf(headers: Option<Headers>): BodyKind {
    if CONTENT_TYPE in Entries(headers) then ContentKind(Entries(headers)[CONTENT_TYPE]) else Other
  }

  /** core/util/util.go, GetContentTypeFromHeaders. */
  method GetContentTypeFromHeaders(headers: Option<Headers>) returns (kind: BodyKind)
    ensures kind == BodyKindOf(headers)
  {
    if headers.None? {
      return Other;
    }
    var values := if CONTENT_TYPE in headers.value then headers.value[CONTENT_TYPE] else [];
    for i := 0 to |values|
      invariant ContentKind(values) == ContentKind(values[i..])
    {
      assert values[i..][1..] == values[i + 1..];
      if EndsLike(values[i], JSON) {
        return Json;
      }
      if EndsLike(values[i], XML) {
        return Xml;
      }
    }
    return Other;
  }

  const ASTERISK: Text := [STAR]

  /** The non-empty headers among those named. */
  function CapturedHeadersOf(headers: Option<Headers>, names: seq<Text>): Option<Headers> {
    Some(map h | h in names && h in Entries(headers) && Entries(headers)[h] != [] :: Entries(headers)[h])
  }

  /** Which request headers a capture keeps. */
  function CapturedHeaders(headers: Option<Headers>, whitelist: seq<Text>): Option<Headers> {
    if |whitelist| >= 1 && whitelist[0] == ASTERISK then headers
    else CapturedHeadersOf(headers, whitelist)
  }

  function CapturedBody(r: Request): FieldMatchers {
    match BodyKindOf(r.headers)
    case Json => FieldMatchers(None, None, None, Some(r.fields.body), None, None, None)
    case Xml => FieldMatchers(None, Some(r.fields.body), None, None, None, None, None)
    case Other => Exactly(r.fields.body)
  }

  function CapturedMatcher(r: Request, whitelist: seq<Text>): RequestMatcher {
    RequestMatcher(
      Some(Exactly(r.fields.path)),
      Some(Exactly(r.fields.httpMethod)),
      Some(Exactly(r.fields.destination)),
      Some(Exactly(r.fields.scheme)),
      Some(Exactly(r.fields.query)),
      Some(CapturedBody(r)),
      CapturedHeaders(r.headers, whitelist))
  }

  /** The header half of Save, lines 312-327. */
  method CollectHeaders(headers: Option<Headers>, whitelist: seq<Text>) returns (kept: Option<Headers>)
    ensures kept == CapturedHeaders(headers, whitelist)
  {
    if |whitelist| >= 1 && whitelist[0] == ASTERISK {
      return headers;
    }
    var entries: Headers := map[];
    for i := 0 to |whitelist|
      invariant Some(entries) == CapturedHeadersOf(headers, whitelist[..i])
    {
      var header := whitelist[i];
      var values := if header in Entries(headers) then Entries(headers)[header] else [];
      TakeSnoc(whitelist, i);
      CapturedHeadersOfSnoc(headers, whitelist[..i], header);
      if |values| > 0 {
        entries := entries[header := values];
      }
    }
    TakeAll(whitelist);
    return Some(entries);
  }

  /** The kind of a content type, byte by byte: `json` or `xml` at the end behind a slash or plus sign. */
  lemma KindOfBytes(value: Text)
    ensures KindOf(value) == Json <==>
      && |value| >= 5 && value[|value| - 4..] == [106, 115, 111, 110]
      && (value[|value| - 5] as int == 47 || value[|value| - 5] as int == 43)
    ensures KindOf(value) == Xml <==>
      && |value| >= 4 && value[|value| - 3..] == [120, 109, 108]
      && (value[|value| - 4] as int == 47 || value[|value| - 4] as int == 43)
  {
    EndsLikeBytes(value, JSON);
    EndsLikeBytes(value, XML);
    assert JSON == [106, 115, 111, 110] && XML == [120, 109, 108];
  }

  lemma EndsLikeBytes(value: Text, suffix: Text)
    ensures EndsLike(value, suffix) <==>
      && |value| > |suffix| && value[|value| - |suffix|..] == suffix
      && (value[|value| - |suffix| - 1] as int == 47 || value[|value| - |suffix| - 1] as int == 43)
    ensures EndsLike(value, suffix) && suffix != [] ==> value != [] && value[|value| - 1] == suffix[|suffix| - 1]
  {
    if |value| > |suffix| {
      var c := value[|value| - |suffix| - 1];
      assert value[|value| - |suffix| - 1..] == [c] + value[|value| - |suffix|..];
      if EndsLike(value, suffix) {
        var d: byte :| (d == 47 || d == 43) && value[|value| - |suffix| - 1..] == [d] + suffix;
        assert ([d] + suffix)[0] == d && ([d] + suffix)[1..] == suffix;
      }
    }
  }

  /** What is recorded for a request, written out. */
  lemma CapturedMatcherWrittenOut(r: Request, whitelist: seq<Text>)
    ensures var m, f := CapturedMatcher(r, whitelist), r.fields;
            && m.path == Some(FieldMatchers(Some(f.path), None, None, None, None, None, None))
            && m.httpMethod == Some(FieldMatchers(Some(f.httpMethod), None, None, None, None, None, None))
            && m.destination == Some(FieldMatchers(Some(f.destination), None, None, None, None, None, None))
            && m.scheme == Some(FieldMatchers(Some(f.scheme), None, None, None, None, None, None))
            && m.query == Some(FieldMatchers(Some(f.query), None, None, None, None, None, None))
            && m.body.Some?
            && m.body.value.(exactMatch := None, xmlMatch := None, jsonMatch := None)
            == FieldMatchers(None, None, None, None, None, None, None)
    ensures var body := CapturedMatcher(r, whitelist).body.value;
            match BodyKindOf(r.headers)
            case Json => body.jsonMatch == Some(r.fields.body) && body.xmlMatch == None && body.exactMatch == None
            case Xml => body.xmlMatch == Some(r.fields.body) && body.jsonMatch == None && body.exactMatch == None
            case Other => body.exactMatch == Some(r.fields.body) && body.xmlMatch == None && body.jsonMatch == None
  {
  }

  /** The body is recorded as what the first telling content type says. */
  lemma BodyKindWrittenOut(headers: Option<Headers>)
    ensures var values := if headers.Some? && Ascii("Content-Type") in headers.value
                          then headers.value[Ascii("Content-Type")] else [];
            && (BodyKindOf(headers) == Other <==> forall i :: 0 <= i < |values| ==> KindOf(values[i]) == Other)
            && (BodyKindOf(headers) != Other ==>
                  exists i :: 0 <= i < |values| && KindOf(values[i]) == BodyKindOf(headers)
                    && forall j :: 0 <= j < i ==> KindOf(values[j]) == Other)
  {
  }

  /** The headers that are recorded: all of them for a leading star, else those named that have values. */
  lemma CapturedHeadersWrittenOut(headers: Option<Headers>, whitelist: seq<Text>)
    ensures whitelist != [] && whitelist[0] == [42] ==> CapturedHeaders(headers, whitelist) == headers
    ensures whitelist == [] || whitelist[0] != [42] ==>
      && CapturedHeaders(headers, whitelist).Some?
      && var kept := CapturedHeaders(headers, whitelist).value;
         && (forall h :: h in kept <==> h in whitelist && h in Entries(headers) && Entries(headers)[h] != [])
         && (forall h :: h in kept ==> kept[h] == Entries(headers)[h])
  {
  }

  /** core/hoverfly.go, Save. */
  method Save(simulation: Simulation, request: Request, response: Response, headersWhitelist: seq<Text>)
    modifies simulation`matchingPairs
    ensures simulation.matchingPairs
         == Added(old(simulation.matchingPairs), Pair(CapturedMatcher(request, headersWhitelist), response))
  {
    var body := Exactly(request.fields.body);
    var kind := GetContentTypeFromHeaders(request.headers);
    if kind == Json {
      body := FieldMatchers(None, None, None, Some(request.fields.body), None, None, None);
    } else if kind == Xml {
      body := FieldMatchers(None, Some(request.fields.body), None, None, None, None, None);
    }

    var headers := CollectHeaders(request.headers, headersWhitelist);
    var f := request.fields;
    simulation.AddRequestMatcherResponsePair(
      Pair(RequestMatcher(Some(Exactly(f.path)), Some(Exactly(f.httpMethod)), Some(Exactly(f.destination)),
                          Some(Exactly(f.scheme)), Some(Exactly(f.query)), Some(body), headers),
           response));
  }

  lemma CapturedHeadersOfSnoc(headers: Option<Headers>, names: seq<Text>, name: Text)
    ensures CapturedHeadersOf(headers, names + [name]).value
         == if name in Entries(headers) && Entries(headers)[name] != []
            then CapturedHeadersOf(headers, names).value[name := Entries(headers)[name]]
            else CapturedHeadersOf(headers, names).value
  {
    assert forall h :: h in names + [name] <==> h in names || h == name;
  }

  // ---- capture then replay

  /** A body recorded as JSON or XML can only be recognised if it minifies. */
  predicate Replayable(lib: Library, r: Request) {
    match BodyKindOf(r.headers)
    case Json => lib.minifyJson(r.fields.body).Some?
    case Xml => lib.minifyXml(r.fields.body).Some?
    case Other => true
  }

  lemma CapturedHeadersAccept(headers: Option<Headers>, whitelist: seq<Text>)
    ensures HeadersAccept(Entries(CapturedHeaders(headers, whitelist)), Entries(headers))
  {
    var kept := Entries(CapturedHeaders(headers, whitelist));
    forall name | name in kept
      ensures HeaderAccepted(name, kept[name], Entries(headers))
    {
      var values := Entries(headers)[name];
      assert kept[name] == values;
      forall i | 0 <= i < |values|
        ensures ValueAccepted(values[i], values)
      {
        GlobReflexive(ToLower(values[i]));
      }
      assert EqualFold(name, name);
    }
  }

  lemma CapturedBodyAccepts(lib: Library, r: Request)
    ensures FieldMatcher(lib, Some(CapturedBody(r)), r.fields.body) <==> Replayable(lib, r)
  {
  }

  lemma ExactlyAccepts(lib: Library, s: Text)
    ensures FieldMatcher(lib, Some(Exactly(s)), s)
  {
  }

  /** What is recorded for a request accepts that request exactly when its body can be recognised. */
  lemma CapturedAcceptsOwnRequest(lib: Library, r: Request, whitelist: seq<Text>, webserver: bool)
    ensures Accepts(lib, CapturedMatcher(r, whitelist), r, webserver) <==> Replayable(lib, r)
  {
    CapturedHeadersAccept(r.headers, whitelist);
    CapturedBodyAccepts(lib, r);
    ExactlyAccepts(lib, r.fields.path);
    ExactlyAccepts(lib, r.fields.httpMethod);
    ExactlyAccepts(lib, r.fields.destination);
    ExactlyAccepts(lib, r.fields.query);
  }

  /**
   * A capture is preloaded, under exactly the fields it was recorded from, unless its body was
   * recorded as JSON or XML; then it is never preloaded.
   */
  lemma CapturedPreloadsItself(r: Request, whitelist: seq<Text>)
    ensures ExactRequest(CapturedMatcher(r, whitelist))
         == if BodyKindOf(r.headers) == Other
            then Some(Request(r.fields, CapturedHeaders(r.headers, whitelist)))
            else None
  {
  }

  /**
   * Capture then replay, for every stored simulation: the request is answered by what answered
   * it before, else by the response just recorded, unless its body cannot be recognised.
   */
  lemma CaptureThenReplay(lib: Library, pairs: seq<Pair>, r: Request, response: Response, whitelist: seq<Text>,
                          webserver: bool)
    ensures var captured := Pair(CapturedMatcher(r, whitelist), response);
            var before := FirstMatch(lib, pairs, r, webserver);
            && FirstMatch(lib, Added(pairs, captured), r, webserver)
            == (if before.Some? then before else if Replayable(lib, r) then Some(captured) else None)
  {
    var captured := Pair(CapturedMatcher(r, whitelist), response);
    CapturedAcceptsOwnRequest(lib, r, whitelist, webserver);
    FirstMatchNone(lib, pairs, r, webserver);
    if HasMatcher(pairs, captured.matcher) {
      var i :| 0 <= i < |pairs| && pairs[i].matcher == captured.matcher;
      assert pairs[i] in pairs;
    } else {
      FirstMatchAppend(lib, pairs, [captured], r, webserver);
      if Replayable(lib, r) {
        FirstMatchAt(lib, [captured], r, webserver, 0);
      } else {
        FirstMatchNone(lib, [captured], r, webserver);
      }
    }
  }

  /** An answer, once there, survives all further captures. */
  lemma ReplaySurvivesCaptures(lib: Library, pairs: seq<Pair>, log: seq<Pair>, r: Request, webserver: bool)
    requires FirstMatch(lib, pairs, r, webserver).Some?
    ensures FirstMatch(lib, AddAll(pairs, log), r, webserver) == FirstMatch(lib, pairs, r, webserver)
  {
    AddAllExtends(pairs, log);
    var more := AddAll(pairs, log)[|pairs|..];
    assert AddAll(pairs, log) == pairs + more;
    FirstMatchAppend(lib, pairs, more, r, webserver);
  }
}
