/**
 * What matching promises, written out matcher by matcher: the seven kinds of tests on the five
 * compared fields, and the indifference of header matching to case.
 */
module MatchingLaws {
  import opened Bytes
  import opened Wrappers
  import opened Models
  import opened Globs
  import opened HeaderMatching
  import opened HeaderWalks
  import opened FieldMatching
  import opened RequestMatching

  // ---- fields

  /** A pair tests the field `actual` of a request with `wanted`. */
  predicate Tests(m: RequestMatcher, f: Fields, webserver: bool, wanted: FieldMatchers, actual: Text) {
    || (m.path == Some(wanted) && actual == f.path)
    || (m.httpMethod == Some(wanted) && actual == f.httpMethod)
    || (m.query == Some(wanted) && actual == f.query)
    || (m.body == Some(wanted) && actual == f.body)
    || (!webserver && m.destination == Some(wanted) && actual == f.destination)
  }

  /** Each matcher of a pair that the search returns passes its own kind of test. */
  lemma FoundPairPasses(lib: Library, pairs: seq<Pair>, r: Request, webserver: bool, wanted: FieldMatchers,
                        actual: Text)
    requires FirstMatch(lib, pairs, r, webserver).Some?
    requires Tests(FirstMatch(lib, pairs, r, webserver).value.matcher, r.fields, webserver, wanted, actual)
    ensures wanted.exactMatch.Some? ==> wanted.exactMatch.value == actual
    ensures wanted.xmlMatch.Some? ==>
      && lib.minifyXml(wanted.xmlMatch.value).Some? && lib.minifyXml(actual).Some?
      && lib.minifyXml(wanted.xmlMatch.value).value == lib.minifyXml(actual).value
    ensures wanted.xpathMatch.Some? ==> lib.xpathMatch(wanted.xpathMatch.value, actual)
    ensures wanted.jsonMatch.Some? ==>
      && lib.minifyJson(wanted.jsonMatch.value).Some? && lib.minifyJson(actual).Some?
      && lib.minifyJson(wanted.jsonMatch.value).value == lib.minifyJson(actual).value
    ensures wanted.jsonPathMatch.Some? ==> lib.jsonPathMatch(wanted.jsonPathMatch.value, actual)
    ensures wanted.regexMatch.Some? ==>
      lib.regexCompiles(wanted.regexMatch.value) && lib.regexMatches(wanted.regexMatch.value, actual)
    ensures wanted.globMatch.Some? ==> GlobAccepts(wanted.globMatch.value, actual)
  {
    var i := FirstIndex(lib, pairs, r, webserver);
    assert FieldsAccept(lib, pairs[i].matcher, r.fields, webserver);
    assert FieldMatcher(lib, Some(wanted), actual);
  }

  /** And each header it wants is there up to case, with a value for each of the wanted patterns. */
  lemma FoundPairHasHeaders(lib: Library, pairs: seq<Pair>, r: Request, webserver: bool, name: Text)
    requires FirstMatch(lib, pairs, r, webserver).Some?
    requires name in Entries(FirstMatch(lib, pairs, r, webserver).value.matcher.headers)
    ensures var patterns := Entries(FirstMatch(lib, pairs, r, webserver).value.matcher.headers)[name];
            exists k :: k in Entries(r.headers) && EqualFold(k, name)
              && forall p :: p in patterns ==>
                   exists v :: v in Entries(r.headers)[k] && GlobAccepts(ToLower(p), ToLower(v))
  {
    var patterns := Entries(FirstMatch(lib, pairs, r, webserver).value.matcher.headers)[name];
    assert HeaderAccepted(name, patterns, Entries(r.headers));
    var k :| k in Entries(r.headers) && EqualFold(k, name) && ValuesAccepted(patterns, Entries(r.headers)[k]);
    ValuesAcceptedIff(patterns, Entries(r.headers)[k]);
  }

  lemma ValuesAcceptedIff(patterns: seq<Text>, values: seq<Text>)
    ensures ValuesAccepted(patterns, values) <==>
      forall p :: p in patterns ==> exists v :: v in values && GlobAccepts(ToLower(p), ToLower(v))
  {
    if ValuesAccepted(patterns, values) {
      forall p | p in patterns
        ensures exists v :: v in values && GlobAccepts(ToLower(p), ToLower(v))
      {
        var i :| 0 <= i < |patterns| && patterns[i] == p;
        assert ValueAccepted(patterns[i], values);
        var j :| 0 <= j < |values| && GlobAccepts(ToLower(p), ToLower(values[j]));
        assert values[j] in values;
      }
    }
    if forall p :: p in patterns ==> exists v :: v in values && GlobAccepts(ToLower(p), ToLower(v)) {
      forall i | 0 <= i < |patterns|
        ensures ValueAccepted(patterns[i], values)
      {
        var v :| v in values && GlobAccepts(ToLower(patterns[i]), ToLower(v));
        var j :| 0 <= j < |values| && values[j] == v;
      }
    }
  }

  /** Conversely a pair all of whose matchers pass is found, unless an earlier one is. */
  lemma PassingPairIsFound(lib: Library, pairs: seq<Pair>, r: Request, webserver: bool, n: nat)
    requires n < |pairs|
    requires forall wanted, actual :: Tests(pairs[n].matcher, r.fields, webserver, wanted, actual) ==>
      && (wanted.exactMatch.Some? ==> wanted.exactMatch.value == actual)
      && (wanted.xmlMatch.Some? ==>
            && lib.minifyXml(wanted.xmlMatch.value).Some? && lib.minifyXml(actual).Some?
            && lib.minifyXml(wanted.xmlMatch.value).value == lib.minifyXml(actual).value)
      && (wanted.xpathMatch.Some? ==> lib.xpathMatch(wanted.xpathMatch.value, actual))
      && (wanted.jsonMatch.Some? ==>
            && lib.minifyJson(wanted.jsonMatch.value).Some? && lib.minifyJson(actual).Some?
            && lib.minifyJson(wanted.jsonMatch.value).value == lib.minifyJson(actual).value)
      && (wanted.jsonPathMatch.Some? ==> lib.jsonPathMatch(wanted.jsonPathMatch.value, actual))
      && (wanted.regexMatch.Some? ==>
            lib.regexCompiles(wanted.regexMatch.value) && lib.regexMatches(wanted.regexMatch.value, actual))
      && (wanted.globMatch.Some? ==> GlobAccepts(wanted.globMatch.value, actual))
    requires forall name :: name in Entries(pairs[n].matcher.headers) ==>
      exists k :: k in Entries(r.headers) && EqualFold(k, name)
        && forall p :: p in Entries(pairs[n].matcher.headers)[name] ==>
             exists v :: v in Entries(r.headers)[k] && GlobAccepts(ToLower(p), ToLower(v))
    ensures exists i :: 0 <= i <= n && FirstMatch(lib, pairs, r, webserver) == Some(pairs[i])
  {
    var m, f := pairs[n].matcher, r.fields;
    assert m.path.Some? ==> Tests(m, f, webserver, m.path.value, f.path);
    assert m.httpMethod.Some? ==> Tests(m, f, webserver, m.httpMethod.value, f.httpMethod);
    assert m.query.Some? ==> Tests(m, f, webserver, m.query.value, f.query);
    assert m.body.Some? ==> Tests(m, f, webserver, m.body.value, f.body);
    assert !webserver && m.destination.Some? ==> Tests(m, f, webserver, m.destination.value, f.destination);
    assert FieldsAccept(lib, m, f, webserver);
    forall name | name in Entries(m.headers)
      ensures HeaderAccepted(name, Entries(m.headers)[name], Entries(r.headers))
    {
      forall k | k in Entries(r.headers)
        ensures ValuesAccepted(Entries(m.headers)[name], Entries(r.headers)[k])
           <==> forall p :: p in Entries(m.headers)[name] ==>
                  exists v :: v in Entries(r.headers)[k] && GlobAccepts(ToLower(p), ToLower(v))
      {
        ValuesAcceptedIff(Entries(m.headers)[name], Entries(r.headers)[k]);
      }
    }
    var i := FirstIndex(lib, pairs, r, webserver);
    assert i <= n;
  }

  // ---- case

  ghost predicate SameUpToCase(a: seq<Text>, b: seq<Text>) {
    |a| == |b| && forall i :: 0 <= i < |a| ==> EqualFold(a[i], b[i])
  }

  /** Each header of `a` is one of `b` when the case of names and values is left out of account. */
  ghost predicate Recased(a: Headers, b: Headers) {
    forall k {:trigger HasRecased(k, a, b)} :: k in a ==> HasRecased(k, a, b)
  }

  ghost predicate HasRecased(k: Text, a: Headers, b: Headers)
    requires k in a
  {
    exists l :: l in b && EqualFold(k, l) && SameUpToCase(a[k], b[l])
  }

  lemma RecasedValues(patterns: seq<Text>, values: seq<Text>, patterns': seq<Text>, values': seq<Text>)
    requires SameUpToCase(patterns, patterns') && SameUpToCase(values, values')
    requires ValuesAccepted(patterns, values)
    ensures ValuesAccepted(patterns', values')
  {
    forall i | 0 <= i < |patterns'|
      ensures ValueAccepted(patterns'[i], values')
    {
      assert EqualFold(patterns[i], patterns'[i]) && ValueAccepted(patterns[i], values);
      var j :| 0 <= j < |values| && GlobAccepts(ToLower(patterns[i]), ToLower(values[j]));
      assert EqualFold(values[j], values'[j]);
    }
  }

  lemma RecasedMatch(wanted: Headers, headers: Headers, wanted': Headers, headers': Headers)
    requires Recased(wanted', wanted) && Recased(headers, headers')
    requires HeadersAccept(wanted, headers)
    ensures HeadersAccept(wanted', headers')
  {
    forall name' | name' in wanted'
      ensures HeaderAccepted(name', wanted'[name'], headers')
    {
      assert HasRecased(name', wanted', wanted);
      var name :| name in wanted && EqualFold(name', name) && SameUpToCase(wanted'[name'], wanted[name]);
      assert HeaderAccepted(name, wanted[name], headers);
      var k :| k in headers && EqualFold(k, name) && ValuesAccepted(wanted[name], headers[k]);
      assert HasRecased(k, headers, headers');
      var l :| l in headers' && EqualFold(k, l) && SameUpToCase(headers[k], headers'[l]);
      assert SameUpToCase(wanted[name], wanted'[name']);
      RecasedValues(wanted[name], headers[k], wanted'[name'], headers'[l]);
    }
  }

  /** Changing the case of names or values, wanted or present, changes nothing. */
  lemma CaseIsIrrelevant(wanted: Headers, headers: Headers, wanted': Headers, headers': Headers)
    requires Recased(wanted, wanted') && Recased(wanted', wanted)
    requires Recased(headers, headers') && Recased(headers', headers)
    ensures HeadersAccept(wanted, headers) <==> HeadersAccept(wanted', headers')
  {
    if HeadersAccept(wanted, headers) {
      RecasedMatch(wanted, headers, wanted', headers');
    }
    if HeadersAccept(wanted', headers') {
      RecasedMatch(wanted', headers', wanted, headers);
    }
  }

  /** The same for the answers after walks, as long as the walks lose nothing. */
  lemma CaseIsIrrelevantAfterWalks(wanted: Headers, before: Option<Headers>, after: Option<Headers>,
                                   wanted': Headers, before': Option<Headers>, after': Option<Headers>)
    requires Recased(wanted, wanted') && Recased(wanted', wanted)
    requires Recased(Entries(before), Entries(before')) && Recased(Entries(before'), Entries(before))
    requires Searched(before, after) && NothingLost(Entries(before))
    requires Searched(before', after') && NothingLost(Entries(before'))
    ensures HeadersAccept(wanted, Entries(after)) <==> HeadersAccept(wanted', Entries(after'))
  {
    CaseIsIrrelevant(wanted, Entries(before), wanted', Entries(before'));
    if after != before {
      LoweringPreservesMatch(wanted, before.value, after.value);
    }
    if after' != before' {
      LoweringPreservesMatch(wanted', before'.value, after'.value);
    }
  }

  /** When only values change case, one and the same walk leads to the same answer, whatever it loses. */
  lemma {:induction false} ValueCaseIsIrrelevant(headers: Headers, headers': Headers, visits: seq<Text>)
    requires headers.Keys == headers'.Keys
    requires forall k :: k in headers ==> SameUpToCase(headers[k], headers'[k])
    ensures Walked(headers, visits).Keys == Walked(headers', visits).Keys
    ensures forall k :: k in Walked(headers, visits) ==>
      SameUpToCase(Walked(headers, visits)[k], Walked(headers', visits)[k])
    ensures forall wanted :: HeadersAccept(wanted, Walked(headers, visits))
                        <==> HeadersAccept(wanted, Walked(headers', visits))
  {
    if visits != [] {
      ValueCaseIsIrrelevant(headers, headers', visits[..|visits| - 1]);
    }
    var h, h' := Walked(headers, visits), Walked(headers', visits);
    SameNamesRecased(h, h');
    forall wanted
      ensures HeadersAccept(wanted, h) <==> HeadersAccept(wanted, h')
    {
      SameNamesRecased(wanted, wanted);
      CaseIsIrrelevant(wanted, h, wanted, h');
    }
  }

  lemma SameNamesRecased(a: Headers, b: Headers)
    requires a.Keys == b.Keys && forall k :: k in a ==> SameUpToCase(a[k], b[k])
    ensures Recased(a, b) && Recased(b, a)
  {
    forall k | k in a
      ensures HasRecased(k, a, b) && HasRecased(k, b, a)
    {
      assert EqualFold(k, k) && SameUpToCase(a[k], b[k]) && SameUpToCase(b[k], a[k]);
    }
  }

  /** Wanted values that are present up to case, under a name that is the same up to case, are found. */
  lemma EqualUpToCaseMatches(wanted: Headers, headers: Headers)
    requires forall name :: name in wanted ==>
      exists k :: k in headers && EqualFold(k, name)
        && forall w :: w in wanted[name] ==> exists v :: v in headers[k] && EqualFold(w, v)
    ensures HeadersAccept(wanted, headers)
  {
    forall name | name in wanted
      ensures HeaderAccepted(name, wanted[name], headers)
    {
      var k :| k in headers && EqualFold(k, name)
            && forall w :: w in wanted[name] ==> exists v :: v in headers[k] && EqualFold(w, v);
      forall w | w in wanted[name]
        ensures exists v :: v in headers[k] && GlobAccepts(ToLower(w), ToLower(v))
      {
        var v :| v in headers[k] && EqualFold(w, v);
        GlobReflexive(ToLower(v));
      }
      ValuesAcceptedIff(wanted[name], headers[k]);
    }
  }
}
