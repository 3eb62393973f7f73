/** Response delays: validation, search and export (core/models/delay.go). */
module Delays {
  import opened Bytes
  import opened Wrappers
  import opened Models

  /** An entry as it arrives in, or leaves with, a payload. */
  datatype DelayView = DelayView(urlPattern: Text, httpMethod: Text, delay: int)

  datatype DelayError = InvalidPattern(pattern: Text) | MissingValues(view: DelayView)

  /** `MustCompile` panics on a pattern that does not compile. */
  datatype DelaySearch = Panics | NoDelay | Found(delay: Delay)

  function Problem(lib: Library, v: DelayView): Option<DelayError> {
    if v.urlPattern != [] && v.delay != 0 then
      if lib.regexCompiles(v.urlPattern) then None else Some(InvalidPattern(v.urlPattern))
    else Some(MissingValues(v))
  }

  /** What an entry must satisfy to be stored. */
  predicate ValidDelay(lib: Library, d: Delay) {
    d.urlPattern != [] && d.milliseconds != 0 && lib.regexCompiles(d.urlPattern)
  }

  function FromView(v: DelayView): Delay {
    Delay(v.urlPattern, v.httpMethod, v.delay)
  }

  function ToView(d: Delay): DelayView {
    DelayView(d.urlPattern, d.httpMethod, d.milliseconds)
  }

  function FromViews(views: seq<DelayView>): seq<Delay> {
    seq(|views|, i requires 0 <= i < |views| => FromView(views[i]))
  }

  function ToViews(delays: seq<Delay>): seq<DelayView> {
    seq(|delays|, i requires 0 <= i < |delays| => ToView(delays[i]))
  }

  /** The first problem among the entries, if any. */
  ghost predicate FirstProblem(lib: Library, views: seq<DelayView>, e: DelayError) {
    exists i :: 0 <= i < |views| && Problem(lib, views[i]) == Some(e)
             && forall j :: 0 <= j < i ==> Problem(lib, views[j]) == None
  }

  /** ValidateResponseDelayPayload: all entries are fine, or the first offending one is reported. */
  method Validate(lib: Library, views: seq<DelayView>) returns (error: Option<DelayError>)
    ensures error.None? <==> forall d :: d in FromViews(views) ==> ValidDelay(lib, d)
    ensures error.None? <==> forall i :: 0 <= i < |views| ==>
      views[i].urlPattern != [] && views[i].delay != 0 && lib.regexCompiles(views[i].urlPattern)
    ensures error.Some? ==> FirstProblem(lib, views, error.value)
    ensures error.Some? ==> exists i ::
      && 0 <= i < |views|
      && (error == Some(MissingValues(views[i])) <==> views[i].urlPattern == [] || views[i].delay == 0)
      && (error == Some(InvalidPattern(views[i].urlPattern)) <==> views[i].urlPattern != [] && views[i].delay != 0)
      && forall j :: 0 <= j < i ==>
           views[j].urlPattern != [] && views[j].delay != 0 && lib.regexCompiles(views[j].urlPattern)
  {
    for i := 0 to |views|
      invariant forall j :: 0 <= j < i ==> Problem(lib, views[j]) == None
    {
      var v := views[i];
      if v.urlPattern != [] && v.delay != 0 {
        if !lib.regexCompiles(v.urlPattern) {
          assert FromViews(views)[i] in FromViews(views);
          return Some(InvalidPattern(v.urlPattern));
        }
      } else {
        assert FromViews(views)[i] in FromViews(views);
        return Some(MissingValues(v));
      }
    }
    return None;
  }

  /** The URL pattern matches destination + path, and the method, if given, agrees up to case. */
  predicate DelayApplies(lib: Library, d: Delay, f: Fields) {
    && lib.regexMatches(d.urlPattern, f.destination + f.path)
    && (d.httpMethod == [] || EqualFold(d.httpMethod, f.httpMethod))
  }

  function SearchDelays(lib: Library, delays: seq<Delay>, f: Fields): DelaySearch {
    if delays == [] then NoDelay
    else if !lib.regexCompiles(delays[0].urlPattern) then Panics
    else if DelayApplies(lib, delays[0], f) then Found(delays[0])
    else SearchDelays(lib, delays[1..], f)
  }

  /** The search gets to entry `i`: every earlier one compiles and does not apply. */
  ghost predicate ReachesEntry(lib: Library, delays: seq<Delay>, f: Fields, i: nat) {
    && i < |delays|
    && forall j :: 0 <= j < i ==> lib.regexCompiles(delays[j].urlPattern) && !DelayApplies(lib, delays[j], f)
  }

  /** The search panics exactly when it gets to a pattern that does not compile. */
  lemma {:induction false} SearchPanicsIff(lib: Library, delays: seq<Delay>, f: Fields)
    ensures SearchDelays(lib, delays, f) == Panics
       <==> exists i: nat :: ReachesEntry(lib, delays, f, i) && !lib.regexCompiles(delays[i].urlPattern)
  {
    if delays != [] {
      var rest := delays[1..];
      SearchPanicsIff(lib, rest, f);
      assert ReachesEntry(lib, delays, f, 0);
      if lib.regexCompiles(delays[0].urlPattern) && !DelayApplies(lib, delays[0], f) {
        forall i: nat | i < |rest|
          ensures ReachesEntry(lib, rest, f, i) <==> ReachesEntry(lib, delays, f, i + 1)
        {
          assert forall j :: 0 <= j < i ==> rest[j] == delays[j + 1];
          assert forall j :: 0 < j < i + 1 ==> delays[j] == rest[j - 1];
        }
        if SearchDelays(lib, rest, f) == Panics {
          var i: nat :| ReachesEntry(lib, rest, f, i) && !lib.regexCompiles(rest[i].urlPattern);
          assert ReachesEntry(lib, delays, f, i + 1);
        }
        if exists i: nat :: ReachesEntry(lib, delays, f, i) && !lib.regexCompiles(delays[i].urlPattern) {
          var i: nat :| ReachesEntry(lib, delays, f, i) && !lib.regexCompiles(delays[i].urlPattern);
          assert ReachesEntry(lib, rest, f, i - 1);
        }
      }
    }
  }

  /** ResponseDelayList.GetDelay. */
  method GetDelay(lib: Library, delays: seq<Delay>, f: Fields) returns (r: DelaySearch)
    ensures r == SearchDelays(lib, delays, f)
    ensures r == NoDelay ==> forall d :: d in delays ==>
      && lib.regexCompiles(d.urlPattern)
      && !(lib.regexMatches(d.urlPattern, f.destination + f.path)
           && (d.httpMethod == [] || EqualFold(d.httpMethod, f.httpMethod)))
    ensures r != NoDelay ==> exists i ::
      && 0 <= i < |delays|
      && (forall j :: 0 <= j < i ==>
            && lib.regexCompiles(delays[j].urlPattern)
            && !(lib.regexMatches(delays[j].urlPattern, f.destination + f.path)
                 && (delays[j].httpMethod == [] || EqualFold(delays[j].httpMethod, f.httpMethod))))
      && (r == Panics ==> !lib.regexCompiles(delays[i].urlPattern))
      && (r != Panics ==>
            && r == Found(delays[i]) && lib.regexCompiles(delays[i].urlPattern)
            && lib.regexMatches(delays[i].urlPattern, f.destination + f.path)
            && (delays[i].httpMethod == [] || EqualFold(delays[i].httpMethod, f.httpMethod)))
  {
    for i := 0 to |delays|
      invariant SearchDelays(lib, delays, f) == SearchDelays(lib, delays[i..], f)
      invariant forall j :: 0 <= j < i ==>
        && lib.regexCompiles(delays[j].urlPattern)
        && !(lib.regexMatches(delays[j].urlPattern, f.destination + f.path)
             && (delays[j].httpMethod == [] || EqualFold(delays[j].httpMethod, f.httpMethod)))
    {
      var d := delays[i];
      if !lib.regexCompiles(d.urlPattern) {
        return Panics;
      }
      if lib.regexMatches(d.urlPattern, f.destination + f.path) {
        if d.httpMethod == [] || EqualFold(d.httpMethod, f.httpMethod) {
          return Found(d);
        }
      }
    }
    return NoDelay;
  }

  /** On stored delays the search cannot panic, and finds exactly the first entry that applies. */
  lemma {:induction false} SearchFindsFirst(lib: Library, delays: seq<Delay>, f: Fields)
    requires forall d :: d in delays ==> ValidDelay(lib, d)
    ensures SearchDelays(lib, delays, f) != Panics
    ensures SearchDelays(lib, delays, f) == NoDelay <==> forall d :: d in delays ==> !DelayApplies(lib, d, f)
    ensures forall i :: 0 <= i < |delays| && DelayApplies(lib, delays[i], f)
                     && (forall j :: 0 <= j < i ==> !DelayApplies(lib, delays[j], f))
                    ==> SearchDelays(lib, delays, f) == Found(delays[i])
  {
    if delays != [] {
      var rest := delays[1..];
      assert delays == [delays[0]] + rest && delays[0] in delays;
      SearchFindsFirst(lib, rest, f);
      forall i | 0 < i < |delays| && DelayApplies(lib, delays[i], f)
              && (forall j :: 0 <= j < i ==> !DelayApplies(lib, delays[j], f))
        ensures SearchDelays(lib, delays, f) == Found(delays[i])
      {
        assert rest[i - 1] == delays[i];
        assert forall j :: 0 <= j < i - 1 ==> rest[j] == delays[j + 1];
      }
    }
  }

  /** ConvertToResponseDelayPayloadView. */
  method ConvertToPayloadView(delays: seq<Delay>) returns (views: seq<DelayView>)
    ensures views == ToViews(delays)
  {
    views := [];
    for i := 0 to |delays|
      invariant views == ToViews(delays)[..i]
    {
      views := views + [DelayView(delays[i].urlPattern, delays[i].httpMethod, delays[i].milliseconds)];
    }
  }

  /** Exported delays come back as they were and are never rejected. */
  lemma DelaysRoundTrip(lib: Library, delays: seq<Delay>)
    requires forall d :: d in delays ==> ValidDelay(lib, d)
    ensures FromViews(ToViews(delays)) == delays
    ensures forall e :: !FirstProblem(lib, ToViews(delays), e)
  {
    forall i | 0 <= i < |delays|
      ensures Problem(lib, ToViews(delays)[i]) == None
    {
      assert delays[i] in delays;
    }
  }
}
