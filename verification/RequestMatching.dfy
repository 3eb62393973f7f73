/** The first-match search over the stored pairs (core/matching/request_matcher.go). */
module RequestMatching {
  import opened Wrappers
  import opened Models
  import opened FieldMatching
  import opened HeaderMatching
  import opened HeaderWalks

  /** Every field but the scheme is compared, and the destination only when proxying. */
  predicate FieldsAccept(lib: Library, m: RequestMatcher, f: Fields, webserver: bool) {
    && FieldMatcher(lib, m.body, f.body)
    && (webserver || FieldMatcher(lib, m.destination, f.destination))
    && FieldMatcher(lib, m.path, f.path)
    && FieldMatcher(lib, m.query, f.query)
    && FieldMatcher(lib, m.httpMethod, f.httpMethod)
  }

  predicate Accepts(lib: Library, m: RequestMatcher, r: Request, webserver: bool) {
    && FieldsAccept(lib, m, r.fields, webserver)
    && HeadersAccept(Entries(m.headers), Entries(r.headers))
  }

  /** Where the first accepting pair is; `|pairs|` when there is none. */
  function FirstIndex(lib: Library, pairs: seq<Pair>, r: Request, webserver: bool): (i: nat)
    ensures i <= |pairs|
    ensures i < |pairs| ==> Accepts(lib, pairs[i].matcher, r, webserver)
    ensures forall j :: 0 <= j < i ==> !Accepts(lib, pairs[j].matcher, r, webserver)
  {
    if pairs == [] then 0
    else if Accepts(lib, pairs[0].matcher, r, webserver) then 0
    else 1 + FirstIndex(lib, pairs[1..], r, webserver)
  }

  /** What Hoverfly answers with when no cache is in the way. */
  function FirstMatch(lib: Library, pairs: seq<Pair>, r: Request, webserver: bool): Option<Pair> {
    var i := FirstIndex(lib, pairs, r, webserver);
    if i < |pairs| then Some(pairs[i]) else None
  }

  /** The lowest accepting index decides. */
  lemma FirstMatchAt(lib: Library, pairs: seq<Pair>, r: Request, webserver: bool, i: nat)
    requires i < |pairs| && Accepts(lib, pairs[i].matcher, r, webserver)
    requires forall j :: 0 <= j < i ==> !Accepts(lib, pairs[j].matcher, r, webserver)
    ensures FirstMatch(lib, pairs, r, webserver) == Some(pairs[i])
  {
    var k := FirstIndex(lib, pairs, r, webserver);
    assert k <= i;
  }

  lemma FirstMatchNone(lib: Library, pairs: seq<Pair>, r: Request, webserver: bool)
    ensures FirstMatch(lib, pairs, r, webserver) == None
       <==> forall p :: p in pairs ==> !Accepts(lib, p.matcher, r, webserver)
  {
    var k := FirstIndex(lib, pairs, r, webserver);
    if k < |pairs| {
      assert pairs[k] in pairs;
    }
  }

  /** If every pair takes or leaves two requests alike, so does the search. */
  lemma SameVerdictsSameMatch(lib: Library, pairs: seq<Pair>, r1: Request, r2: Request, webserver: bool)
    requires forall p :: p in pairs ==> Accepts(lib, p.matcher, r1, webserver) == Accepts(lib, p.matcher, r2, webserver)
    ensures FirstMatch(lib, pairs, r1, webserver) == FirstMatch(lib, pairs, r2, webserver)
  {
    var i, j := FirstIndex(lib, pairs, r1, webserver), FirstIndex(lib, pairs, r2, webserver);
    if i < |pairs| {
      assert pairs[i] in pairs;
    }
    if j < |pairs| {
      assert pairs[j] in pairs;
    }
  }

  /** A search stops at the first match: what is stored behind it is irrelevant. */
  lemma FirstMatchAppend(lib: Library, pairs: seq<Pair>, more: seq<Pair>, r: Request, webserver: bool)
    ensures FirstMatch(lib, pairs + more, r, webserver)
         == (var m := FirstMatch(lib, pairs, r, webserver);
             if m.Some? then m else FirstMatch(lib, more, r, webserver))
  {
    var all := pairs + more;
    var i := FirstIndex(lib, pairs, r, webserver);
    if i < |pairs| {
      FirstMatchAt(lib, all, r, webserver, i);
    } else {
      var j := FirstIndex(lib, more, r, webserver);
      forall k | 0 <= k < |pairs| + j
        ensures !Accepts(lib, all[k].matcher, r, webserver)
      {
      }
      if j < |more| {
        FirstMatchAt(lib, all, r, webserver, |pairs| + j);
      } else {
        FirstMatchNone(lib, all, r, webserver);
      }
    }
  }

  /** Lower-casing distinct header names leaves the outcome of a search alone. */
  lemma SearchedSameMatch(lib: Library, pairs: seq<Pair>, f: Fields, before: Option<Headers>, after: Option<Headers>,
                          webserver: bool)
    requires Searched(before, after) && NothingLost(Entries(before))
    ensures FirstMatch(lib, pairs, Request(f, before), webserver)
         == FirstMatch(lib, pairs, Request(f, after), webserver)
  {
    forall p | p in pairs
      ensures Accepts(lib, p.matcher, Request(f, before), webserver)
           == Accepts(lib, p.matcher, Request(f, after), webserver)
    {
      if after != before {
        LoweringPreservesMatch(Entries(p.matcher.headers), before.value, after.value);
      }
    }
    SameVerdictsSameMatch(lib, pairs, Request(f, before), Request(f, after), webserver);
  }

  /** A pair that accepts a request with lower-cased headers accepts it with the original ones. */
  lemma SearchedAccepts(lib: Library, m: RequestMatcher, f: Fields, before: Option<Headers>, after: Option<Headers>,
                        webserver: bool)
    requires Searched(before, after) && Accepts(lib, m, Request(f, after), webserver)
    ensures Accepts(lib, m, Request(f, before), webserver)
  {
    if after != before {
      LoweringPreservesMatch(Entries(m.headers), before.value, after.value);
    }
  }

  /**
   * How far the search has come: before the headers were touched, pairs can only have been
   * passed over because of their fields.
   */
  ghost predicate PassedOver(lib: Library, passed: seq<Pair>, f: Fields, before: Option<Headers>, now: Option<Headers>,
                             webserver: bool)
  {
    || (now == before && forall p :: p in passed ==> !FieldsAccept(lib, p.matcher, f, webserver))
    || (((before.None? && now.None?) || (before.Some? && now.Some? && IsLowering(before.value, now.value)))
        && forall p :: p in passed ==> !Accepts(lib, p.matcher, Request(f, now), webserver))
  }

  /**
   * core/matching/request_matcher.go, RequestMatcher: the lowest-index accepting pair, whatever
   * the map iteration order, with the header map left as it was or wholly lower-cased.
   */
  method MatchRequest(lib: Library, fields: Fields, headers: HeaderMap?, webserver: bool, pairs: seq<Pair>)
    returns (r: Option<Pair>)
    modifies headers
    ensures Searched(old(Contents(headers)), Contents(headers))
    ensures r == FirstMatch(lib, pairs, Request(fields, Contents(headers)), webserver)
    ensures NothingLost(old(Entries(Contents(headers))))
        ==> r == FirstMatch(lib, pairs, Request(fields, old(Contents(headers))), webserver)
  {
    ghost var before := Contents(headers);
    r := Search(lib, fields, headers, webserver, pairs);
    if NothingLost(Entries(before)) {
      SearchedSameMatch(lib, pairs, fields, before, Contents(headers), webserver);
    }
  }

  method Search(lib: Library, fields: Fields, headers: HeaderMap?, webserver: bool, pairs: seq<Pair>)
    returns (r: Option<Pair>)
    modifies headers
    ensures Searched(old(Contents(headers)), Contents(headers))
    ensures r == FirstMatch(lib, pairs, Request(fields, Contents(headers)), webserver)
  {
    ghost var before := Contents(headers);
    for i := 0 to |pairs|
      invariant PassedOver(lib, pairs[..i], fields, before, Contents(headers), webserver)
    {
      ghost var now := Contents(headers);
      var matcher := pairs[i].matcher;
      TakeSnocMember(pairs, i);
      if !FieldMatcher(lib, matcher.body, fields.body) {
        continue;
      }
      if !webserver {
        if !FieldMatcher(lib, matcher.destination, fields.destination) {
          continue;
        }
      }
      if !FieldMatcher(lib, matcher.path, fields.path) {
        continue;
      }
      if !FieldMatcher(lib, matcher.query, fields.query) {
        continue;
      }
      if !FieldMatcher(lib, matcher.httpMethod, fields.httpMethod) {
        continue;
      }
      var matched := HeaderMatcher(matcher.headers, headers);
      LoweredOnce(before, now, Contents(headers), Entries(matcher.headers));
      if !matched {
        continue;
      }
      FirstMatchAt(lib, pairs, Request(fields, Contents(headers)), webserver, i) by {
        forall j | 0 <= j < i
          ensures !Accepts(lib, pairs[j].matcher, Request(fields, Contents(headers)), webserver)
        {
          assert pairs[j] in pairs[..i];
        }
      }
      return Some(pairs[i]);
    }
    assert pairs[..|pairs|] == pairs;
    FirstMatchNone(lib, pairs, Request(fields, Contents(headers)), webserver);
    return None;
  }

  lemma TakeSnocMember(pairs: seq<Pair>, i: nat)
    requires i < |pairs|
    ensures forall p :: p in pairs[..i + 1] <==> p in pairs[..i] || p == pairs[i]
  {
    assert pairs[..i + 1] == pairs[..i] + [pairs[i]];
  }

  /** Once lower-cased, the headers stay as they are. */
  lemma LoweredOnce(before: Option<Headers>, now: Option<Headers>, after: Option<Headers>, wanted: Headers)
    requires Searched(before, now) && Searched(now, after)
    ensures Searched(before, after)
    ensures now != before ==> after == now
    ensures before.Some? && now.Some? && IsLowering(before.value, now.value) ==> after == now
  {
    if before.Some? && now.Some? && after.Some? && IsLowering(before.value, now.value)
       && IsLowering(now.value, after.value) {
      LoweringStable(before.value, now.value, after.value);
    }
  }
}
