/**
 * Exactly when every response that is served belongs to a stored pair that accepts the request,
 * and why neither proviso of `Transparency.ServedResponsesSound` can be dropped.
 */
module Soundness {
  import opened Bytes
  import opened Wrappers
  import opened Models
  import opened RequestMatching
  import opened CacheKeys
  import opened CacheMatching
  import opened Views
  import opened Engine
  import opened Transparency
  import opened Limits

  /** The answer is an error or the response of a pair that accepts the request. */
  ghost predicate SoundAnswer(lib: Library, s: State, r: Request, answer: Option<Response>) {
    answer.Some? ==> ServedFor(lib, s, r, answer.value)
  }

  ghost predicate AnsweredSoundly(lib: Library, s: State, before: seq<Asked>, a: Asked) {
    SoundAnswer(lib, s, a.request, Answer(lib, AskAll(lib, s, before), a.request.fields, a.searched))
  }

  /** Whatever requests of `u` came before, and whatever the walks over headers, no response is served amiss. */
  ghost predicate AlwaysSound(lib: Library, s: State, u: iset<Request>) {
    forall before, a :: AskedFrom(u, before + [a]) ==> AnsweredSoundly(lib, s, before, a)
  }

  /** What the cache already decides, it decides with a pair that accepts the request. */
  ghost predicate PresentSound(lib: Library, s: State, r: Request) {
    var e := Lookup(s.cache, r.fields, s.WithHost());
    ShortCircuits(e) ==> SoundAnswer(lib, s, r, ResponseOf(e.value.matchingPair))
  }

  /** What a search for `a` would put in the cache is sound for `b`, if they share a key that is still open. */
  ghost predicate MemoSound(lib: Library, s: State, a: Asked, b: Asked) {
    && SameKey(s, a.request, b.request)
    && !ShortCircuits(Lookup(s.cache, a.request.fields, s.WithHost()))
    && Decides(lib, s, a.AsSearched())
    ==> SoundAnswer(lib, s, b.request, Uncached(lib, s, a.AsSearched()))
  }

  ghost predicate StepsSound(lib: Library, s: State, u: iset<Request>) {
    && (forall a :: From(u, a) ==> PresentSound(lib, s, a.request))
    && (s.cache.Some? ==> forall a, b :: From(u, a) && From(u, b) ==> MemoSound(lib, s, a, b))
  }

  /** After questions from `u`: the same pairs, open keys were open before, and decided keys are decided soundly. */
  ghost predicate AskedSoundly(lib: Library, s: State, t: State, u: iset<Request>) {
    && t == s.(cache := t.cache) && t.cache.Some? == s.cache.Some?
    && (forall a :: From(u, a) ==> PresentSound(lib, t, a.request))
    && (forall a :: From(u, a) ==> StillOpen(s, t, a.request.fields))
  }

  /** Soundness depends on the pairs and the flag alone. */
  lemma SameSoundness(lib: Library, s: State, t: State, r: Request, answer: Option<Response>)
    requires t.pairs == s.pairs && t.webserver == s.webserver
    ensures SoundAnswer(lib, t, r, answer) <==> SoundAnswer(lib, s, r, answer)
  {
    assert answer.Some? && ServedFor(lib, s, r, answer.value) ==> ServedFor(lib, t, r, answer.value);
    assert answer.Some? && ServedFor(lib, t, r, answer.value) ==> ServedFor(lib, s, r, answer.value);
  }

  /** Remembering the outcome for `a` leaves what is decided for `b` sound. */
  lemma MemoKeepsSoundness(lib: Library, s: State, t: State, a: Asked, b: Asked)
    requires t == s.(cache := t.cache) && t.cache.Some? == s.cache.Some?
    requires s.cache.Some? ==> MemoSound(lib, s, a, b)
    requires PresentSound(lib, t, b.request)
    requires !ShortCircuits(Lookup(s.cache, a.request.fields, s.WithHost()))
    ensures PresentSound(lib, AfterAnswer(lib, t, a.request.fields, a.searched), b.request)
  {
    var next := AfterAnswer(lib, t, a.request.fields, a.searched);
    SameSoundness(lib, s, next, b.request, Uncached(lib, s, a.AsSearched()));
    var e := Lookup(t.cache, b.request.fields, t.WithHost());
    if ShortCircuits(e) {
      SameSoundness(lib, t, next, b.request, ResponseOf(e.value.matchingPair));
    }
  }

  lemma AskOneSoundly(lib: Library, s: State, t: State, u: iset<Request>, a: Asked)
    requires StepsSound(lib, s, u) && AskedSoundly(lib, s, t, u) && From(u, a)
    ensures AskedSoundly(lib, s, AfterAnswer(lib, t, a.request.fields, a.searched), u)
    ensures SoundAnswer(lib, s, a.request, Answer(lib, t, a.request.fields, a.searched))
  {
    assert PresentSound(lib, t, a.request) && StillOpen(s, t, a.request.fields);
    SameSoundness(lib, s, t, a.request, Answer(lib, t, a.request.fields, a.searched));
    if !ShortCircuits(Lookup(t.cache, a.request.fields, t.WithHost())) {
      SearchedAnswerSound(lib, t, a.request, a.searched);
      forall b | From(u, b)
        ensures PresentSound(lib, AfterAnswer(lib, t, a.request.fields, a.searched), b.request)
        ensures StillOpen(s, AfterAnswer(lib, t, a.request.fields, a.searched), b.request.fields)
      {
        assert PresentSound(lib, t, b.request) && StillOpen(s, t, b.request.fields);
        assert s.cache.Some? ==> MemoSound(lib, s, a, b);
        MemoKeepsSoundness(lib, s, t, a, b);
        AnswerOpensNothing(lib, t, a, b.request.fields);
      }
    }
  }

  lemma {:induction false} AskManySoundly(lib: Library, s: State, u: iset<Request>, asked: seq<Asked>)
    requires StepsSound(lib, s, u) && AskedFrom(u, asked)
    ensures AskedSoundly(lib, s, AskAll(lib, s, asked), u)
  {
    if asked != [] {
      var front, last := asked[..|asked| - 1], asked[|asked| - 1];
      AskManySoundly(lib, s, u, front);
      AskOneSoundly(lib, s, AskAll(lib, s, front), u, last);
    }
  }

  lemma SoundStepsSuffice(lib: Library, s: State, u: iset<Request>)
    requires StepsSound(lib, s, u)
    ensures AlwaysSound(lib, s, u)
  {
    forall before, a | AskedFrom(u, before + [a])
      ensures AnsweredSoundly(lib, s, before, a)
    {
      var all := before + [a];
      assert all[|before|] == a;
      assert forall i :: 0 <= i < |before| ==> all[i] == before[i];
      AskManySoundly(lib, s, u, before);
      AskOneSoundly(lib, s, AskAll(lib, s, before), u, a);
    }
  }

  lemma SoundStepsNeeded(lib: Library, s: State, u: iset<Request>)
    requires AlwaysSound(lib, s, u)
    ensures StepsSound(lib, s, u)
  {
    forall a | From(u, a)
      ensures PresentSound(lib, s, a.request)
    {
      assert AskedFrom(u, [] + [a]);
      assert AnsweredSoundly(lib, s, [], a);
    }
    forall a, b | From(u, a) && From(u, b) && s.cache.Some?
      ensures MemoSound(lib, s, a, b)
    {
      assert AskedFrom(u, [a] + [b]);
      assert AnsweredSoundly(lib, s, [a], b);
      assert AskAll(lib, s, [a][..0]) == s;
      assert AskAll(lib, s, [a]) == AfterAnswer(lib, s, a.request.fields, a.searched);
      if SameKey(s, a.request, b.request) && !ShortCircuits(Lookup(s.cache, a.request.fields, s.WithHost()))
         && Decides(lib, s, a.AsSearched()) {
        AnswerRemembered(lib, s, a.AsSearched(), b.request.fields, b.searched);
      }
    }
  }

  /**
   * From any state, every response served to any sequence of requests drawn from `u` belongs to a
   * stored pair that accepts its request, if and only if that is so of what the cache decides
   * already and of what a search for one request of `u` leaves for another under an open key.
   */
  lemma AlwaysSoundIff(lib: Library, s: State, u: iset<Request>)
    ensures AlwaysSound(lib, s, u) <==> StepsSound(lib, s, u)
  {
    if StepsSound(lib, s, u) {
      SoundStepsSuffice(lib, s, u);
    }
    if AlwaysSound(lib, s, u) {
      SoundStepsNeeded(lib, s, u);
    }
  }

  // ---- after a switch to simulate

  /** The response of the pair preloaded under the request's key, if any, is that of an accepting pair. */
  ghost predicate PreloadSound(lib: Library, s: State, a: Asked) {
    PreloadedPair(s, a.request.fields).Some? ==>
      ServedFor(lib, s, a.request, PreloadedPair(s, a.request.fields).value.response)
  }

  /** Under a key without a preloaded pair, so is that of a first match without headers. */
  ghost predicate MatchSound(lib: Library, s: State, a: Asked, b: Asked) {
    SameKey(s, a.request, b.request) && PreloadedPair(s, a.request.fields).None? && Decides(lib, s, a.AsSearched())
    ==> SoundAnswer(lib, s, b.request, Uncached(lib, s, a.AsSearched()))
  }

  ghost predicate PreloadsSound(lib: Library, s: State, u: iset<Request>) {
    forall a :: From(u, a) ==> PreloadSound(lib, s, a)
  }

  ghost predicate FirstMatchesSound(lib: Library, s: State, u: iset<Request>) {
    forall a, b :: From(u, a) && From(u, b) ==> MatchSound(lib, s, a, b)
  }

  /** What the two conditions of soundness come to right after the switch. */
  lemma SoundnessAfterSwitch(lib: Library, s: State, headers: seq<Text>, a: Asked, b: Asked)
    requires s.cache == Some(map[]) && SwitchAccepted(s, headers)
    ensures var t := AfterSetMode(s, Ascii("simulate"), headers);
            && (PresentSound(lib, t, a.request) <==> PreloadSound(lib, s, a))
            && (MemoSound(lib, t, a, b) <==> MatchSound(lib, s, a, b))
  {
    var t := AfterSetMode(s, Ascii("simulate"), headers);
    SwitchDecides(s, headers, a.request.fields);
    if PreloadedPair(s, a.request.fields).Some? {
      SameSoundness(lib, s, t, a.request, Some(PreloadedPair(s, a.request.fields).value.response));
    }
    SameSoundness(lib, s, t, b.request, Uncached(lib, s, a.AsSearched()));
  }

  /**
   * After a switch to simulate on a flushed cache, every response served to any sequence of
   * requests drawn from `u` is sound if and only if the stored pairs satisfy two conditions that
   * mention neither the cache nor the requests that came before.
   */
  lemma SoundAfterSwitchIff(lib: Library, s: State, headers: seq<Text>, u: iset<Request>)
    requires s.cache == Some(map[]) && SwitchAccepted(s, headers)
    ensures AlwaysSound(lib, AfterSetMode(s, Ascii("simulate"), headers), u)
       <==> PreloadsSound(lib, s, u) && FirstMatchesSound(lib, s, u)
  {
    var t := AfterSetMode(s, Ascii("simulate"), headers);
    AlwaysSoundIff(lib, t, u);
    forall a | From(u, a)
      ensures PresentSound(lib, t, a.request) <==> PreloadSound(lib, s, a)
    {
      SoundnessAfterSwitch(lib, s, headers, a, a);
    }
    forall a, b | From(u, a) && From(u, b)
      ensures MemoSound(lib, t, a, b) <==> MatchSound(lib, s, a, b)
    {
      SoundnessAfterSwitch(lib, s, headers, a, b);
    }
  }

  // ---- a preload that no stored pair stands behind

  /**
   * A single fully exact pair without headers is served, after a switch, to every request with its
   * key, and this is sound for its own exact request if and only if it accepts it.
   */
  lemma LonePreload(lib: Library, p: Pair, headers: Option<Headers>, searched: Option<Headers>)
    requires ExactRequest(p.matcher).Some? && !HeaderBearing(p) && CanonicalQuery(p)
    ensures var s := InSimulate([p]);
            var t := AfterSetMode(s, Ascii("simulate"), []);
            var f := ExactRequest(p.matcher).value.fields;
            && Initial(lib, s)
            && Answer(lib, t, f, searched) == Some(p.response)
            && (ServedFor(lib, t, Request(f, headers), p.response) <==> FieldsAccept(lib, p.matcher, f, false))
  {
    var s := InSimulate([p]);
    var f := ExactRequest(p.matcher).value.fields;
    InSimulateInitial(lib, [p]);
    assert ExactUnder(s.pairs[0], CacheKey(f, true), true);
    SwitchServesLastExact(lib, s, [], f, searched);
    assert s.pairs[0] in s.pairs;
  }

  /** An exact path together with a glob that rejects it. */
  const AT_ODDS: Pair :=
    Pair(RequestMatcher(Some(Exactly([SLASH]).(globMatch := Some([]))), Some(Exactly(X)), Some(Exactly(Y)),
                        Some(Exactly(X)), Some(Exactly([])), Some(Exactly([])), None),
         Ok(1))

  /** Its response is served although no stored pair accepts the request: the proviso on preloads cannot be dropped. */
  lemma PreloadServedAmiss(lib: Library)
    ensures var r, s := Plain([], [], None), InSimulate([AT_ODDS]);
            var t := AfterSetMode(s, Ascii("simulate"), []);
            && Initial(lib, s)
            && Answer(lib, t, r.fields, r.headers) == Some(Ok(1))
            && Uncached(lib, t, r) == None
            && forall response :: !ServedFor(lib, t, r, response)
  {
    var r, s := Plain([], [], None), InSimulate([AT_ODDS]);
    assert ExactRequest(AT_ODDS.matcher) == Some(r);
    LonePreload(lib, AT_ODDS, None, None);
    assert !Accepts(lib, AT_ODDS.matcher, r, false);
    FirstMatchNone(lib, s.pairs, r, false);
  }
}
