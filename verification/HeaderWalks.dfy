/**
 * What walking a header map does to it (core/matching/header_matcher.go:12-16). Each visit deletes
 * an entry and puts it back under its lower-cased name while the map is being ranged over. The
 * maps a walk can end in, over all orders in which Go may take the entries, are characterised
 * exactly, and so is when that order matters.
 */
module HeaderWalks {
  import opened Bytes
  import opened Models
  import opened Globs
  import opened Sequences

  // ---- the side-effect-free reading of a header match

  predicate ValueAccepted(pattern: Text, values: seq<Text>) {
    exists j :: 0 <= j < |values| && GlobAccepts(ToLower(pattern), ToLower(values[j]))
  }

  predicate ValuesAccepted(patterns: seq<Text>, values: seq<Text>) {
    forall i :: 0 <= i < |patterns| ==> ValueAccepted(patterns[i], values)
  }

  /** Field names are compared case-insensitively (section 3.2 of RFC 7230). */
  predicate HeaderAccepted(name: Text, patterns: seq<Text>, headers: Headers) {
    exists k :: k in headers && EqualFold(k, name) && ValuesAccepted(patterns, headers[k])
  }

  predicate HeadersAccept(wanted: Headers, headers: Headers) {
    forall name :: name in wanted ==> HeaderAccepted(name, wanted[name], headers)
  }

  // ---- walks

  /** Deleting an entry and putting it back under its lower-cased name. */
  function Visited(entries: Headers, k: Text): Headers
    requires k in entries
  {
    (entries - {k})[ToLower(k) := entries[k]]
  }

  lemma VisitedNames(entries: Headers, k: Text)
    requires k in entries
    ensures Visited(entries, k).Keys == entries.Keys - {k} + {ToLower(k)}
  {
  }

  /** The map after the visits; a name that is not there when its turn comes is not produced. */
  function Walked(headers: Headers, visits: seq<Text>): Headers {
    if visits == [] then headers
    else
      var entries, k := Walked(headers, visits[..|visits| - 1]), visits[|visits| - 1];
      if k in entries then Visited(entries, k) else entries
  }

  /** Only entries that are in the map are produced. */
  ghost predicate Legal(headers: Headers, visits: seq<Text>) {
    forall i :: 0 <= i < |visits| ==> visits[i] in Walked(headers, visits[..i])
  }

  /**
   * One execution of the loop: every original name has its turn. Entries that the walk itself
   * creates may be produced again, any number of times, or not at all.
   */
  ghost predicate IsWalk(headers: Headers, visits: seq<Text>) {
    Legal(headers, visits) && forall o :: o in headers ==> o in visits
  }

  /** A visit of `o` moves its values to another name, `k`. */
  predicate MovesTo(o: Text, k: Text) {
    o != k && ToLower(o) == k
  }

  /** The name whose visit last wrote to `k` from elsewhere. */
  function LastMover(visits: seq<Text>, k: Text): (o: seq<Text>)
    ensures |o| <= 1
    ensures o != [] ==> o[0] in visits && MovesTo(o[0], k)
    ensures o == [] ==> forall n :: n in visits ==> !MovesTo(n, k)
  {
    if visits == [] then []
    else
      var last := visits[|visits| - 1];
      if MovesTo(last, k) then [last] else LastMover(visits[..|visits| - 1], k)
  }

  /** The value under a name that is not lower-case stays until it is moved away. */
  ghost predicate AtMixedName(headers: Headers, visits: seq<Text>, n: Text) {
    var entries := Walked(headers, visits);
    (n in entries <==> n in headers && n !in visits) && (n in entries ==> entries[n] == headers[n])
  }

  /** Under a lower-case name lie the values last moved there, else the original ones. */
  ghost predicate AtLowerName(headers: Headers, visits: seq<Text>, k: Text) {
    var entries, mover := Walked(headers, visits), LastMover(visits, k);
    if mover == [] then (k in entries <==> k in headers) && (k in entries ==> entries[k] == headers[k])
    else k in entries && mover[0] in headers && entries[k] == headers[mover[0]]
  }

  lemma LegalFront(headers: Headers, visits: seq<Text>)
    requires visits != [] && Legal(headers, visits)
    ensures Legal(headers, visits[..|visits| - 1])
    ensures visits[|visits| - 1] in Walked(headers, visits[..|visits| - 1])
  {
    var front := visits[..|visits| - 1];
    assert forall i :: 0 <= i < |front| ==> front[..i] == visits[..i] && front[i] == visits[i];
  }

  lemma AtMixedNameSnoc(headers: Headers, front: seq<Text>, k: Text, n: Text)
    requires k in Walked(headers, front) && ToLower(n) != n && AtMixedName(headers, front, n)
    ensures AtMixedName(headers, front + [k], n)
  {
    SnocFront(front, k);
    ToLowerIdempotent(k);
  }

  lemma AtLowerNameSnoc(headers: Headers, front: seq<Text>, k: Text, n: Text)
    requires k in Walked(headers, front) && ToLower(n) == n && AtLowerName(headers, front, n)
    requires ToLower(k) != k ==> AtMixedName(headers, front, k)
    ensures AtLowerName(headers, front + [k], n)
  {
    SnocFront(front, k);
  }

  /** What a legal sequence of visits leaves under any name. */
  lemma {:induction false} WalkedAt(headers: Headers, visits: seq<Text>, n: Text)
    requires Legal(headers, visits)
    ensures if ToLower(n) == n then AtLowerName(headers, visits, n) else AtMixedName(headers, visits, n)
  {
    if visits != [] {
      var front, k := visits[..|visits| - 1], visits[|visits| - 1];
      LegalFront(headers, visits);
      WalkedAt(headers, front, n);
      SplitLast(visits);
      if ToLower(n) == n {
        WalkedAt(headers, front, k);
        AtLowerNameSnoc(headers, front, k, n);
      } else {
        AtMixedNameSnoc(headers, front, k, n);
      }
    }
  }

  lemma LegalSnoc(headers: Headers, visits: seq<Text>, k: Text)
    requires Legal(headers, visits) && k in Walked(headers, visits)
    ensures Legal(headers, visits + [k])
    ensures Walked(headers, visits + [k]) == Visited(Walked(headers, visits), k)
  {
    var more := visits + [k];
    SnocFront(visits, k);
    assert forall i :: 0 <= i < |visits| ==> more[..i] == visits[..i];
  }

  // ---- the maps a walk can end in

  /**
   * `o` may be the name whose values end up under `k`: it lower-cases to `k`, and it is `k` itself
   * only if no other name does, since any other name overwrites what `k` holds.
   */
  predicate MaySupply(o: Text, k: Text, headers: Headers) {
    o in headers && ToLower(o) == k && (o == k ==> forall n :: n in headers ==> !MovesTo(n, k))
  }

  /** The name `o`, lower-cased, is present. */
  ghost predicate Reaches(o: Text, lowered: Headers) {
    ToLower(o) in lowered
  }

  ghost predicate Derived(k: Text, headers: Headers, lowered: Headers) {
    k in lowered && exists o :: MaySupply(o, k, headers) && lowered[k] == headers[o]
  }

  /** `lowered` has the lower-cased names of `headers`, each with the values of a name that may supply it. */
  ghost predicate IsLowering(headers: Headers, lowered: Headers) {
    && (forall o {:trigger Reaches(o, lowered)} :: o in headers ==> Reaches(o, lowered))
    && (forall k {:trigger Derived(k, headers, lowered)} :: k in lowered ==> Derived(k, headers, lowered))
  }

  /** Every walk ends in a lowering. */
  lemma WalkIsLowering(headers: Headers, visits: seq<Text>)
    requires IsWalk(headers, visits)
    ensures IsLowering(headers, Walked(headers, visits))
  {
    var lowered := Walked(headers, visits);
    forall o | o in headers
      ensures Reaches(o, lowered)
    {
      ToLowerIdempotent(o);
      WalkedAt(headers, visits, ToLower(o));
      assert MovesTo(o, ToLower(o)) || o == ToLower(o);
    }
    forall k | k in lowered
      ensures Derived(k, headers, lowered)
    {
      WalkedAt(headers, visits, k);
      var mover := LastMover(visits, k);
      assert MaySupply(if mover == [] then k else mover[0], k, headers);
    }
  }

  // ---- every lowering is the end of a walk

  ghost function Enumerated(s: set<Text>): (list: seq<Text>)
    ensures forall x :: x in list <==> x in s
    ensures forall i, j :: 0 <= i < j < |list| ==> list[i] != list[j]
  {
    if s == {} then []
    else
      var x :| x in s;
      Enumerated(s - {x}) + [x]
  }

  lemma {:induction false} DistinctIsLegal(headers: Headers, visits: seq<Text>)
    requires forall i, j :: 0 <= i < j < |visits| ==> visits[i] != visits[j]
    requires forall v :: v in visits ==> v in headers
    ensures Legal(headers, visits)
  {
    if visits != [] {
      var front, last := visits[..|visits| - 1], visits[|visits| - 1];
      DistinctIsLegal(headers, front);
      WalkedAt(headers, front, last);
      SplitLast(visits);
      assert last !in front;
      LegalSnoc(headers, front, last);
    }
  }

  lemma {:induction false} LastMoverConcat(a: seq<Text>, b: seq<Text>, k: Text)
    ensures LastMover(a + b, k) == if LastMover(b, k) == [] then LastMover(a, k) else LastMover(b, k)
  {
    if b == [] {
      assert a + b == a;
    } else {
      ConcatLast(a, b);
      LastMoverConcat(a, b[..|b| - 1], k);
    }
  }

  /** The name chosen to supply `k` in `lowered`. */
  ghost function Supplier(headers: Headers, lowered: Headers, k: Text): (o: Text)
    requires Derived(k, headers, lowered)
    ensures MaySupply(o, k, headers) && lowered[k] == headers[o]
  {
    var o :| MaySupply(o, k, headers) && lowered[k] == headers[o];
    o
  }

  /** The names that are visited last. */
  ghost predicate Supplies(headers: Headers, lowered: Headers, o: Text) {
    Derived(ToLower(o), headers, lowered) && Supplier(headers, lowered, ToLower(o)) == o
  }

  /** With the suppliers visited last, each name ends up with the values of its supplier. */
  lemma SupplierWins(headers: Headers, lowered: Headers, early: seq<Text>, late: seq<Text>, k: Text)
    requires IsLowering(headers, lowered) && k in lowered
    requires Legal(headers, early + late) && forall v :: v in early + late ==> v in headers
    requires forall o :: o in late <==> o in headers && Supplies(headers, lowered, o)
    ensures k in Walked(headers, early + late) && Walked(headers, early + late)[k] == lowered[k]
  {
    assert Derived(k, headers, lowered);
    var o := Supplier(headers, lowered, k);
    LoweredNameIsLower(headers, lowered, k);
    WalkedAt(headers, early + late, k);
    LastMoverConcat(early, late, k);
    if o != k {
      assert Supplies(headers, lowered, o);
      assert o in late && MovesTo(o, k);
    } else {
      assert LastMover(early + late, k) == [];
    }
  }

  lemma WalkedNameIsReached(headers: Headers, lowered: Headers, visits: seq<Text>, k: Text)
    requires IsLowering(headers, lowered) && IsWalk(headers, visits) && k in Walked(headers, visits)
    ensures k in lowered
  {
    WalkIsLowering(headers, visits);
    assert Derived(k, headers, Walked(headers, visits));
    var o :| MaySupply(o, k, headers);
    assert Reaches(o, lowered);
  }

  lemma DisjointConcat(a: seq<Text>, b: seq<Text>)
    requires forall i, j :: 0 <= i < j < |a| ==> a[i] != a[j]
    requires forall i, j :: 0 <= i < j < |b| ==> b[i] != b[j]
    requires forall x :: x in a ==> x !in b
    ensures forall i, j :: 0 <= i < j < |a + b| ==> (a + b)[i] != (a + b)[j]
    ensures forall x :: x in a + b <==> x in a || x in b
  {
    forall i, j | 0 <= i < j < |a + b|
      ensures (a + b)[i] != (a + b)[j]
    {
      if i < |a| <= j {
        assert a[i] in a && b[j - |a|] in b;
      }
    }
  }

  /** Every name once, the suppliers last. */
  lemma SuppliersLast(headers: Headers, chosen: set<Text>) returns (early: seq<Text>, late: seq<Text>)
    requires chosen <= headers.Keys
    ensures IsWalk(headers, early + late)
    ensures forall v :: v in early + late ==> v in headers
    ensures forall o :: o in late <==> o in chosen
  {
    early, late := Enumerated(headers.Keys - chosen), Enumerated(chosen);
    DisjointConcat(early, late);
    DistinctIsLegal(headers, early + late);
  }

  /** A walk that takes the suppliers last ends in `lowered`. */
  lemma LoweringHasWalk(headers: Headers, lowered: Headers) returns (visits: seq<Text>)
    requires IsLowering(headers, lowered)
    ensures IsWalk(headers, visits) && Walked(headers, visits) == lowered
  {
    var early, late := SuppliersLast(headers, set o | o in headers && Supplies(headers, lowered, o));
    visits := early + late;
    var entries := Walked(headers, visits);
    forall k | k in lowered
      ensures k in entries && entries[k] == lowered[k]
    {
      SupplierWins(headers, lowered, early, late, k);
    }
    forall k | k in entries
      ensures k in lowered
    {
      WalkedNameIsReached(headers, lowered, visits, k);
    }
  }

  // ---- properties of lowerings

  lemma LoweredNameIsLower(headers: Headers, lowered: Headers, k: Text)
    requires IsLowering(headers, lowered) && k in lowered
    ensures ToLower(k) == k
  {
    assert Derived(k, headers, lowered);
    var o :| MaySupply(o, k, headers);
    ToLowerIdempotent(o);
  }

  /** Lowering twice changes nothing. */
  lemma LoweringStable(headers: Headers, lowered: Headers, again: Headers)
    requires IsLowering(headers, lowered) && IsLowering(lowered, again)
    ensures again == lowered
  {
    forall k | k in lowered
      ensures k in again && again[k] == lowered[k]
    {
      LoweredNameIsLower(headers, lowered, k);
      assert Reaches(k, again) && Derived(k, lowered, again);
      var o :| MaySupply(o, k, lowered) && again[k] == lowered[o];
      LoweredNameIsLower(headers, lowered, o);
    }
    forall k | k in again
      ensures k in lowered
    {
      assert Derived(k, lowered, again);
      var o :| MaySupply(o, k, lowered);
      LoweredNameIsLower(headers, lowered, o);
    }
  }

  lemma LoweredLookup(headers: Headers, lowered: Headers, name: Text, patterns: seq<Text>)
    requires IsLowering(headers, lowered)
    ensures HeaderAccepted(name, patterns, lowered)
       <==> ToLower(name) in lowered && ValuesAccepted(patterns, lowered[ToLower(name)])
  {
    ToLowerIdempotent(name);
    forall k | k in lowered && EqualFold(k, name)
      ensures k == ToLower(name)
    {
      LoweredNameIsLower(headers, lowered, k);
    }
    if ToLower(name) in lowered {
      assert EqualFold(ToLower(name), name);
    }
  }

  ghost predicate SupplierExists(k: Text, headers: Headers) {
    exists o :: MaySupply(o, k, headers)
  }

  /** Where the values under `k` come from when `preferred` has its way. */
  ghost function Choice(headers: Headers, preferred: Text, k: Text): (o: Text)
    requires MaySupply(preferred, ToLower(preferred), headers) && SupplierExists(k, headers)
    ensures MaySupply(o, k, headers) && (k == ToLower(preferred) ==> o == preferred)
  {
    if k == ToLower(preferred) then preferred
    else
      var o :| MaySupply(o, k, headers);
      o
  }

  lemma SomeSupplier(headers: Headers, n: Text)
    requires n in headers
    ensures SupplierExists(ToLower(n), headers)
  {
    var k := ToLower(n);
    if o :| o in headers && MovesTo(o, k) {
      assert MaySupply(o, k, headers);
    } else {
      assert MaySupply(n, k, headers);
    }
  }

  /** Each name that may supply an entry does so in some lowering. */
  lemma LoweringPreferring(headers: Headers, preferred: Text) returns (lowered: Headers)
    requires MaySupply(preferred, ToLower(preferred), headers)
    ensures IsLowering(headers, lowered)
    ensures ToLower(preferred) in lowered && lowered[ToLower(preferred)] == headers[preferred]
  {
    var names := set o | o in headers :: ToLower(o);
    forall k | k in names
      ensures SupplierExists(k, headers)
    {
      var n :| n in headers && ToLower(n) == k;
      SomeSupplier(headers, n);
    }
    lowered := map k | k in names :: headers[Choice(headers, preferred, k)];
    forall k | k in lowered
      ensures Derived(k, headers, lowered)
    {
      assert MaySupply(Choice(headers, preferred, k), k, headers);
    }
  }

  // ---- when the order matters to the map

  /** Names that are not lower-case and equal up to case carry the same values. */
  ghost predicate MoversAgree(headers: Headers) {
    forall a, b :: a in headers && b in headers && ToLower(a) != a && ToLower(b) != b && EqualFold(a, b)
               ==> headers[a] == headers[b]
  }

  lemma MoverMaySupply(headers: Headers, a: Text)
    requires a in headers && ToLower(a) != a
    ensures MaySupply(a, ToLower(a), headers)
  {
  }

  /** Two names that may supply the same entry are both not lower-case, or the same. */
  lemma RivalsAreMovers(headers: Headers, a: Text, b: Text, k: Text)
    requires MaySupply(a, k, headers) && MaySupply(b, k, headers)
    ensures a == b || (ToLower(a) != a && ToLower(b) != b && EqualFold(a, b))
  {
    assert a != k ==> MovesTo(a, k);
    assert b != k ==> MovesTo(b, k);
  }

  lemma MoversAgreeSameLowering(headers: Headers, l1: Headers, l2: Headers)
    requires MoversAgree(headers) && IsLowering(headers, l1) && IsLowering(headers, l2)
    ensures l1 == l2
  {
    forall k | k in l1 || k in l2
      ensures k in l1 && k in l2 && l1[k] == l2[k]
    {
      assert k in l1 ==> Derived(k, headers, l1);
      assert k in l2 ==> Derived(k, headers, l2);
      var o :| MaySupply(o, k, headers);
      assert Reaches(o, l1) && Reaches(o, l2);
      assert Derived(k, headers, l1) && Derived(k, headers, l2);
      RivalsAreMovers(headers, Supplier(headers, l1, k), Supplier(headers, l2, k), k);
    }
  }

  /** All walks end in one map if and only if names that get moved to the same name carry the same values. */
  lemma WalksAgreeIff(headers: Headers)
    ensures (forall v, w :: IsWalk(headers, v) && IsWalk(headers, w) ==> Walked(headers, v) == Walked(headers, w))
       <==> MoversAgree(headers)
  {
    if MoversAgree(headers) {
      forall v, w | IsWalk(headers, v) && IsWalk(headers, w)
        ensures Walked(headers, v) == Walked(headers, w)
      {
        WalkIsLowering(headers, v);
        WalkIsLowering(headers, w);
        MoversAgreeSameLowering(headers, Walked(headers, v), Walked(headers, w));
      }
    } else {
      var a, b :| a in headers && b in headers && ToLower(a) != a && ToLower(b) != b && EqualFold(a, b)
               && headers[a] != headers[b];
      MoverMaySupply(headers, a);
      MoverMaySupply(headers, b);
      var l1 := LoweringPreferring(headers, a);
      var l2 := LoweringPreferring(headers, b);
      var v := LoweringHasWalk(headers, l1);
      var w := LoweringHasWalk(headers, l2);
      assert Walked(headers, v)[ToLower(a)] != Walked(headers, w)[ToLower(a)];
    }
  }

  // ---- when the order matters to the answer

  /** Whatever a pattern finds in `less` it finds in `more`. */
  ghost predicate Covers(more: seq<Text>, less: seq<Text>) {
    forall p :: ValueAccepted(p, less) ==> ValueAccepted(p, more)
  }

  /** That is so exactly when each value of `less`, read as a pattern, is found in `more`. */
  lemma CoversIff(more: seq<Text>, less: seq<Text>)
    ensures Covers(more, less) <==> ValuesAccepted(less, more)
  {
    if Covers(more, less) {
      forall i | 0 <= i < |less|
        ensures ValueAccepted(less[i], more)
      {
        GlobReflexive(ToLower(less[i]));
        assert ValueAccepted(less[i], less);
      }
    }
    if ValuesAccepted(less, more) {
      forall p | ValueAccepted(p, less)
        ensures ValueAccepted(p, more)
      {
        var i :| 0 <= i < |less| && GlobAccepts(ToLower(p), ToLower(less[i]));
        assert ValueAccepted(less[i], more);
        var j :| 0 <= j < |more| && GlobAccepts(ToLower(less[i]), ToLower(more[j]));
        GlobTransitive(ToLower(p), ToLower(less[i]), ToLower(more[j]));
      }
    }
  }

  /** Acceptance carries over to values that have those accepted so far, read as patterns. */
  lemma AcceptedOnwards(patterns: seq<Text>, less: seq<Text>, more: seq<Text>)
    requires ValuesAccepted(patterns, less) && ValuesAccepted(less, more)
    ensures ValuesAccepted(patterns, more)
  {
    CoversIff(more, less);
  }

  /** Of two names that are not lower-case and equal up to case, each has the values of the other, read as patterns. */
  predicate MoversAlike(headers: Headers) {
    forall a, b :: a in headers && b in headers && ToLower(a) != a && ToLower(b) != b && EqualFold(a, b)
               ==> ValuesAccepted(headers[b], headers[a])
  }

  /** Whatever the walk, the answer is the same. */
  ghost predicate AnswerSettled(headers: Headers) {
    forall v, w, wanted :: IsWalk(headers, v) && IsWalk(headers, w) ==>
      HeadersAccept(wanted, Walked(headers, v)) == HeadersAccept(wanted, Walked(headers, w))
  }

  lemma CoveredHeader(name: Text, patterns: seq<Text>, headers: Headers, l1: Headers, l2: Headers)
    requires MoversAlike(headers) && IsLowering(headers, l1) && IsLowering(headers, l2)
    requires HeaderAccepted(name, patterns, l1)
    ensures HeaderAccepted(name, patterns, l2)
  {
    var k := ToLower(name);
    LoweredLookup(headers, l1, name, patterns);
    LoweredLookup(headers, l2, name, patterns);
    assert Derived(k, headers, l1);
    var a := Supplier(headers, l1, k);
    assert Reaches(a, l2);
    assert Derived(k, headers, l2);
    var b := Supplier(headers, l2, k);
    RivalsAreMovers(headers, a, b, k);
    if a != b {
      AcceptedOnwards(patterns, headers[a], headers[b]);
    }
  }

  lemma OneHeaderWanted(name: Text, pattern: Text, headers: Headers, lowered: Headers)
    requires IsLowering(headers, lowered) && ToLower(name) in lowered
    ensures HeadersAccept(map[ToLower(name) := [pattern]], lowered) <==> ValueAccepted(pattern, lowered[ToLower(name)])
  {
    var wanted: Headers := map[ToLower(name) := [pattern]];
    ToLowerIdempotent(name);
    LoweredLookup(headers, lowered, ToLower(name), [pattern]);
    assert ValuesAccepted([pattern], lowered[ToLower(name)]) <==> ValueAccepted([pattern][0], lowered[ToLower(name)]);
    assert wanted[ToLower(name)] == [pattern];
  }

  /** Matching answers alike for all walks, whatever is wanted, if and only if moved names are alike. */
  lemma AnswerSettledIff(headers: Headers)
    ensures AnswerSettled(headers) <==> MoversAlike(headers)
  {
    if MoversAlike(headers) {
      forall v, w, wanted | IsWalk(headers, v) && IsWalk(headers, w) && HeadersAccept(wanted, Walked(headers, v))
        ensures HeadersAccept(wanted, Walked(headers, w))
      {
        WalkIsLowering(headers, v);
        WalkIsLowering(headers, w);
        forall name | name in wanted
          ensures HeaderAccepted(name, wanted[name], Walked(headers, w))
        {
          CoveredHeader(name, wanted[name], headers, Walked(headers, v), Walked(headers, w));
        }
      }
    } else {
      var a, b :| a in headers && b in headers && ToLower(a) != a && ToLower(b) != b && EqualFold(a, b)
               && !ValuesAccepted(headers[b], headers[a]);
      CoversIff(headers[a], headers[b]);
      var p :| ValueAccepted(p, headers[b]) && !ValueAccepted(p, headers[a]);
      var v, w, wanted := OrderDecides(headers, a, b, p);
    }
  }

  /** Two walks and a wanted header on which they differ. */
  lemma OrderDecides(headers: Headers, a: Text, b: Text, p: Text) returns (v: seq<Text>, w: seq<Text>, wanted: Headers)
    requires a in headers && b in headers && ToLower(a) != a && ToLower(b) != b && EqualFold(a, b)
    requires ValueAccepted(p, headers[b]) && !ValueAccepted(p, headers[a])
    ensures wanted == map[ToLower(a) := [p]]
    ensures IsWalk(headers, v) && !HeadersAccept(wanted, Walked(headers, v))
    ensures IsWalk(headers, w) && HeadersAccept(wanted, Walked(headers, w))
  {
    MoverMaySupply(headers, a);
    MoverMaySupply(headers, b);
    var l1 := LoweringPreferring(headers, a);
    var l2 := LoweringPreferring(headers, b);
    v := LoweringHasWalk(headers, l1);
    w := LoweringHasWalk(headers, l2);
    wanted := map[ToLower(a) := [p]];
    OneHeaderWanted(a, p, headers, l1);
    OneHeaderWanted(a, p, headers, l2);
  }

  // ---- when the answer is that of the untouched headers

  /** Each value, read as a pattern, is found under every name that may overwrite the one it stands under. */
  predicate NothingLost(headers: Headers) {
    forall a, b :: a in headers && b in headers && MaySupply(b, ToLower(a), headers)
               ==> ValuesAccepted(headers[a], headers[b])
  }

  /** In particular when no two names are equal up to case. */
  lemma DistinctNamesLoseNothing(headers: Headers)
    requires forall a, b :: a in headers && b in headers && EqualFold(a, b) ==> a == b
    ensures NothingLost(headers)
  {
    forall a | a in headers
      ensures ValuesAccepted(headers[a], headers[a])
    {
      CoversIff(headers[a], headers[a]);
    }
    forall a, b | a in headers && b in headers && MaySupply(b, ToLower(a), headers)
      ensures ValuesAccepted(headers[a], headers[b])
    {
      assert EqualFold(a, b);
    }
  }

  lemma LoweringAddsNoHeader(name: Text, patterns: seq<Text>, headers: Headers, lowered: Headers)
    requires IsLowering(headers, lowered) && HeaderAccepted(name, patterns, lowered)
    ensures HeaderAccepted(name, patterns, headers)
  {
    LoweredLookup(headers, lowered, name, patterns);
    assert Derived(ToLower(name), headers, lowered);
    assert EqualFold(Supplier(headers, lowered, ToLower(name)), name);
  }

  lemma LoweringLosesNoHeader(name: Text, patterns: seq<Text>, headers: Headers, lowered: Headers)
    requires IsLowering(headers, lowered) && NothingLost(headers) && HeaderAccepted(name, patterns, headers)
    ensures HeaderAccepted(name, patterns, lowered)
  {
    LoweredLookup(headers, lowered, name, patterns);
    var a :| a in headers && EqualFold(a, name) && ValuesAccepted(patterns, headers[a]);
    assert Reaches(a, lowered) && Derived(ToLower(name), headers, lowered);
    AcceptedOnwards(patterns, headers[a], headers[Supplier(headers, lowered, ToLower(name))]);
  }

  /** What matches after lower-casing matched before; if nothing is lost the converse holds too. */
  lemma LoweringPreservesMatch(wanted: Headers, headers: Headers, lowered: Headers)
    requires IsLowering(headers, lowered)
    ensures HeadersAccept(wanted, lowered) ==> HeadersAccept(wanted, headers)
    ensures NothingLost(headers) ==> HeadersAccept(wanted, lowered) == HeadersAccept(wanted, headers)
  {
    forall name | name in wanted
      ensures HeaderAccepted(name, wanted[name], lowered) ==> HeaderAccepted(name, wanted[name], headers)
      ensures NothingLost(headers) && HeaderAccepted(name, wanted[name], headers)
          ==> HeaderAccepted(name, wanted[name], lowered)
    {
      if HeaderAccepted(name, wanted[name], lowered) {
        LoweringAddsNoHeader(name, wanted[name], headers, lowered);
      } else if NothingLost(headers) && HeaderAccepted(name, wanted[name], headers) {
        LoweringLosesNoHeader(name, wanted[name], headers, lowered);
      }
    }
  }

  /** For every walk the answer is the one for the untouched headers. */
  ghost predicate AnswerPreserved(headers: Headers) {
    forall v, wanted :: IsWalk(headers, v) ==>
      HeadersAccept(wanted, Walked(headers, v)) == HeadersAccept(wanted, headers)
  }

  /** A walk and a wanted header that the untouched headers have. */
  lemma LossShows(headers: Headers) returns (v: seq<Text>, wanted: Headers)
    requires !NothingLost(headers)
    ensures IsWalk(headers, v)
    ensures HeadersAccept(wanted, headers) && !HeadersAccept(wanted, Walked(headers, v))
  {
    var a, b :| a in headers && b in headers && MaySupply(b, ToLower(a), headers)
             && !ValuesAccepted(headers[a], headers[b]);
    CoversIff(headers[b], headers[a]);
    var p :| ValueAccepted(p, headers[a]) && !ValueAccepted(p, headers[b]);
    var lowered := LoweringPreferring(headers, b);
    v := LoweringHasWalk(headers, lowered);
    wanted := map[ToLower(b) := [p]];
    OneHeaderWanted(b, p, headers, lowered);
    ToLowerIdempotent(a);
    assert ValuesAccepted([p], headers[a]);
    assert HeaderAccepted(ToLower(b), [p], headers);
  }

  /** The answer is that of the case-insensitive reading of the original headers exactly when nothing is lost. */
  lemma AnswerPreservedIff(headers: Headers)
    ensures AnswerPreserved(headers) <==> NothingLost(headers)
  {
    if NothingLost(headers) {
      forall v, wanted | IsWalk(headers, v)
        ensures HeadersAccept(wanted, Walked(headers, v)) == HeadersAccept(wanted, headers)
      {
        WalkIsLowering(headers, v);
        LoweringPreservesMatch(wanted, headers, Walked(headers, v));
      }
    } else {
      var v, wanted := LossShows(headers);
      assert HeadersAccept(wanted, Walked(headers, v)) != HeadersAccept(wanted, headers);
    }
  }

  /** The names AB and Ab with different values: which of them a request for ab meets is decided by the walk. */
  lemma OrderDecidesExample() returns (v: seq<Text>, w: seq<Text>)
    ensures var headers, wanted: Headers := map[[65, 66] := [[120]], [65, 98] := [[121]]], map[[97, 98] := [[120]]];
            && IsWalk(headers, v) && !HeadersAccept(wanted, Walked(headers, v))
            && IsWalk(headers, w) && HeadersAccept(wanted, Walked(headers, w))
  {
    var headers: Headers := map[[65, 66] := [[120]], [65, 98] := [[121]]];
    assert ToLower([65, 66]) == [97, 98] == ToLower([65, 98]);
    assert ToLower([120]) == [120] && ToLower([121]) == [121];
    GlobReflexive([120]);
    assert GlobAccepts(ToLower([120]), ToLower(headers[[65, 66]][0]));
    assert ValueAccepted([120], headers[[65, 66]]);
    assert !ValueAccepted([120], headers[[65, 98]]);
    var wanted;
    v, w, wanted := OrderDecides(headers, [65, 98], [65, 66], [120]);
  }
}
