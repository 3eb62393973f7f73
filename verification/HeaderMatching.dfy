/**
 * `HeaderMatcher` (core/matching/header_matcher.go): it lower-cases the request's header map
 * in place, while ranging over it, once for every header it is asked about. It refines a
 * side-effect-free predicate, for every order in which Go may walk the maps.
 */
module HeaderMatching {
  import opened Bytes
  import opened Wrappers
  import opened Models
  import opened Globs
  import opened HeaderWalks
  import opened Sequences

  /** A Go map held by reference. */
  class HeaderMap {
    var entries: Headers

    constructor (entries: Headers)
      ensures this.entries == entries
    {
      this.entries := entries;
    }
  }

  /** The current contents of a possibly nil header map. */
  function Contents(h: HeaderMap?): Option<Headers>
    reads h
  {
    if h == null then None else Some(h.entries)
  }

  /** What a run of the matcher may leave behind: the map untouched, or wholly lower-cased. */
  ghost predicate Searched(before: Option<Headers>, after: Option<Headers>) {
    || after == before
    || (before.Some? && after.Some? && IsLowering(before.value, after.value))
  }

  /**
   * The inner loop, lines 12-16. An entry not yet reached when it is overwritten keeps its turn;
   * an entry created during the walk may be produced again or skipped, as the Go
   * specification leaves open; `revisits` bounds how often the runtime does so.
   */
  method LowerCaseNames(toMatch: HeaderMap) returns (ghost visits: seq<Text>)
    modifies toMatch
    ensures IsWalk(old(toMatch.entries), visits) && toMatch.entries == Walked(old(toMatch.entries), visits)
    ensures IsLowering(old(toMatch.entries), toMatch.entries)
  {
    ghost var original := toMatch.entries;
    visits := [];
    var pending := toMatch.entries.Keys;
    var created: set<Text> := {};
    var revisits: nat := *;
    while pending != {} || (revisits > 0 && created != {})
      invariant Legal(original, visits) && toMatch.entries == Walked(original, visits)
      invariant forall o :: o in original ==> o in pending || o in visits
      invariant pending <= toMatch.entries.Keys && created <= toMatch.entries.Keys
      decreases |pending| + revisits
    {
      var again := *;
      var k: Text;
      if pending == {} || (again && revisits > 0 && created != {}) {
        k :| k in created;
        revisits := revisits - 1;
      } else {
        k :| k in pending;
      }
      ghost var before := toMatch.entries;
      LegalSnoc(original, visits, k);
      var values := toMatch.entries[k];
      toMatch.entries := toMatch.entries - {k};
      pending, created := pending - {k}, created - {k};
      if ToLower(k) !in toMatch.entries {
        created := created + {ToLower(k)};
      }
      toMatch.entries := toMatch.entries[ToLower(k) := values];
      VisitedNames(before, k);
      SnocFront(visits, k);
      visits := visits + [k];
    }
    WalkIsLowering(original, visits);
  }

  /** The loops over wanted and present values, lines 23-34. */
  method ValuesMatch(patterns: seq<Text>, values: seq<Text>) returns (r: bool)
    ensures r == ValuesAccepted(patterns, values)
  {
    for i := 0 to |patterns|
      invariant forall k :: 0 <= k < i ==> ValueAccepted(patterns[k], values)
    {
      var matched := false;
      for j := 0 to |values|
        invariant matched <==> exists k :: 0 <= k < j && GlobAccepts(ToLower(patterns[i]), ToLower(values[k]))
      {
        var accepted := Glob(ToLower(patterns[i]), ToLower(values[j]));
        if accepted {
          matched := true;
        }
      }
      if !matched {
        return false;
      }
    }
    return true;
  }

  /** core/matching/header_matcher.go, HeaderMatcher. */
  method HeaderMatcher(matchingHeaders: Option<Headers>, toMatch: HeaderMap?) returns (r: bool)
    modifies toMatch
    ensures Searched(old(Contents(toMatch)), Contents(toMatch))
    ensures Entries(matchingHeaders) == map[] ==> Contents(toMatch) == old(Contents(toMatch))
    ensures Entries(matchingHeaders) != map[] && toMatch != null ==> IsLowering(old(toMatch.entries), toMatch.entries)
    ensures r == HeadersAccept(Entries(matchingHeaders), Entries(Contents(toMatch)))
    ensures NothingLost(old(Entries(Contents(toMatch))))
        ==> r == HeadersAccept(Entries(matchingHeaders), old(Entries(Contents(toMatch))))
  {
    var wanted := Entries(matchingHeaders);
    ghost var original := Entries(Contents(toMatch));
    r := MatchAll(wanted, toMatch);
    if toMatch != null && wanted != map[] {
      LoweringPreservesMatch(wanted, original, toMatch.entries);
    }
  }

  /** The loop over the wanted headers, in whatever order their map yields them. */
  method MatchAll(wanted: Headers, toMatch: HeaderMap?) returns (r: bool)
    modifies toMatch
    ensures wanted == map[] ==> Contents(toMatch) == old(Contents(toMatch))
    ensures wanted != map[] && toMatch != null ==> IsLowering(old(toMatch.entries), toMatch.entries)
    ensures r == HeadersAccept(wanted, Entries(Contents(toMatch)))
  {
    ghost var original := Entries(Contents(toMatch));
    var pending := wanted.Keys;
    while pending != {}
      invariant pending <= wanted.Keys
      invariant pending == wanted.Keys ==> Entries(Contents(toMatch)) == original
      invariant pending != wanted.Keys ==> toMatch != null && IsLowering(original, toMatch.entries)
      invariant forall name :: name in wanted && name !in pending ==>
        HeaderAccepted(name, wanted[name], Entries(Contents(toMatch)))
      decreases pending
    {
      var name :| name in pending;
      if toMatch == null {
        assert !HeaderAccepted(name, wanted[name], map[]);
        return false;
      }
      ghost var before := toMatch.entries;
      ghost var visits := LowerCaseNames(toMatch);
      if pending != wanted.Keys {
        LoweringStable(original, before, toMatch.entries);
      }
      LoweredLookup(original, toMatch.entries, name, wanted[name]);
      if ToLower(name) !in toMatch.entries {
        return false;
      }
      var matched := ValuesMatch(wanted[name], toMatch.entries[ToLower(name)]);
      if !matched {
        return false;
      }
      pending := pending - {name};
    }
    r := true;
    assert wanted == map[] <==> wanted.Keys == {};
  }
}
