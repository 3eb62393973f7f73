/**
 * `SortQueryString` (core/util/util.go): a loop that splits a raw query at `&` and `;`,
 * groups the pieces by key in a map, sorts keys and values, and prints the groups.
 * Its specification is one line: the non-empty segments in lexicographic order, joined by `&`.
 */
module QueryString {
  import opened Bytes
  import opened Sequences
  import opened Sorting
  import opened Pieces

  const AMPERSAND: byte := 38
  const SEMICOLON: byte := 59
  const EQUALS: byte := 61

  const SEPARATORS: set<byte> := {AMPERSAND, SEMICOLON}

  /** The pieces between separators, in order, empty ones dropped. */
  function Segments(q: Text): seq<Text> {
    if q == [] then []
    else
      var i := IndexAny(q, SEPARATORS);
      if i < 0 then [q]
      else (if i == 0 then [] else [q[..i]]) + Segments(q[i + 1..])
  }

  /** The segments written one after the other with `&` between them. */
  function Join(segments: seq<Text>): Text {
    if segments == [] then []
    else if |segments| == 1 then segments[0]
    else Join(segments[..|segments| - 1]) + [AMPERSAND] + segments[|segments| - 1]
  }

  function Canonical(q: Text): Text {
    Join(Sort(Segments(q)))
  }

  predicate IsSegment(s: Text) {
    s != [] && forall i :: 0 <= i < |s| ==> s[i] !in SEPARATORS
  }

  /** A segment's key reaches up to and including its first `=`. */
  function Key(s: Text): (k: Text)
    ensures k <= s
    ensures s != [] ==> k != []
  {
    var i := IndexAny(s, {EQUALS});
    if i < 0 then s else s[..i + 1]
  }

  function Value(s: Text): Text {
    s[|Key(s)|..]
  }

  // ---- splitting and printing undo each other

  function NonEmpty(s: Text): seq<Text> {
    if s == [] then [] else [s]
  }

  /** The first separator cuts off one segment, unless it comes first. */
  lemma SegmentsCut(head: Text, separator: byte, rest: Text)
    requires separator in SEPARATORS
    requires forall k :: 0 <= k < |head| ==> head[k] !in SEPARATORS
    ensures Segments(head + [separator] + rest) == NonEmpty(head) + Segments(rest)
    ensures Segments(head) == NonEmpty(head)
  {
    var q := head + [separator] + rest;
    IndexAnyUnique(q, SEPARATORS, |head|);
    IndexAnyAbsent(head, SEPARATORS);
    assert q[..|head|] == head && q[|head| + 1..] == rest;
  }

  lemma {:induction false} SegmentIsSegment(q: Text, s: Text)
    requires s in Segments(q)
    ensures IsSegment(s)
  {
    var i := IndexAny(q, SEPARATORS);
    if i >= 0 {
      SplitAt(q, i);
      SegmentsCut(q[..i], q[i], q[i + 1..]);
      if s in Segments(q[i + 1..]) {
        SegmentIsSegment(q[i + 1..], s);
      }
    }
  }

  lemma SegmentsAreSegments(q: Text)
    ensures forall s :: s in Segments(q) ==> IsSegment(s)
  {
    forall s | s in Segments(q)
      ensures IsSegment(s)
    {
      SegmentIsSegment(q, s);
    }
  }

  lemma {:induction false} SegmentsConcat(a: Text, separator: byte, b: Text)
    requires separator in SEPARATORS
    ensures Segments(a + [separator] + b) == Segments(a) + Segments(b)
  {
    var i := IndexAny(a, SEPARATORS);
    if i < 0 {
      SegmentsCut(a, separator, b);
    } else {
      var head, rest := a[..i], a[i + 1..];
      SegmentsConcat(rest, separator, b);
      SegmentsCut(head, a[i], rest);
      SegmentsCut(head, a[i], rest + [separator] + b);
      SplitAt(a, i);
      AssociativeTail(head, [a[i]], rest, [separator], b);
      Associative(NonEmpty(head), Segments(rest), Segments(b));
    }
  }

  lemma SegmentsOfSegment(s: Text)
    requires IsSegment(s)
    ensures Segments(s) == [s]
  {
  }

  /** Reading back printed segments yields those segments. */
  lemma {:induction false} SegmentsOfJoin(segments: seq<Text>)
    requires forall s :: s in segments ==> IsSegment(s)
    ensures Segments(Join(segments)) == segments
  {
    if |segments| == 1 {
      SegmentsOfSegment(segments[0]);
    } else if |segments| > 1 {
      var front, last := segments[..|segments| - 1], segments[|segments| - 1];
      SegmentsOfJoin(front);
      SegmentsConcat(Join(front), AMPERSAND, last);
      SegmentsOfSegment(last);
      assert segments == front + [last];
    }
  }

  lemma SegmentsOfCanonical(q: Text)
    ensures Segments(Canonical(q)) == Sort(Segments(q))
  {
    SegmentsAreSegments(q);
    SortIsSorted(Segments(q));
    forall s | s in Sort(Segments(q))
      ensures IsSegment(s)
    {
      assert s in multiset(Sort(Segments(q)));
      assert s in Segments(q);
    }
    SegmentsOfJoin(Sort(Segments(q)));
  }

  /** Canonicalising twice is canonicalising once. */
  lemma CanonicalIdempotent(q: Text)
    ensures Canonical(Canonical(q)) == Canonical(q)
  {
    SegmentsOfCanonical(q);
    SortIsSorted(Segments(q));
    SortDependsOnMultiset(Sort(Segments(q)), Segments(q));
  }

  /** The canonical form decides equality of queries up to the order of their segments. */
  lemma CanonicalComplete(a: Text, b: Text)
    ensures Canonical(a) == Canonical(b) <==> multiset(Segments(a)) == multiset(Segments(b))
  {
    SegmentsOfCanonical(a);
    SegmentsOfCanonical(b);
    SortDependsOnMultiset(Segments(a), Segments(b));
  }

  ghost predicate IsCanonical(q: Text) {
    Canonical(q) == q
  }

  /** A canonical query equals the canonical form of another exactly when they hold the same segments. */
  lemma CanonicalEqualsIffSameSegments(a: Text, b: Text)
    requires IsCanonical(b)
    ensures Canonical(a) == b <==> multiset(Segments(a)) == multiset(Segments(b))
  {
    CanonicalComplete(a, b);
  }

  // ---- the canonical form, read byte by byte

  /** A query is cut at its first separator, if it has one. */
  lemma FirstCut(q: Text) returns (found: bool, head: Text, b: byte, rest: Text)
    ensures if found
            then q == head + [b] + rest && Unseparated(head) && Separates(b) && |rest| < |q|
              && Segments(q) == NonEmpty(head) + Segments(rest)
            else Unseparated(q)
  {
    var i := IndexAny(q, SEPARATORS);
    found, head, b, rest := i >= 0, [], 0, [];
    if found {
      head, b, rest := q[..i], q[i], q[i + 1..];
      SplitAt(q, i);
      SegmentsCut(head, b, rest);
    }
  }

  /** A segment is listed as often as it is a piece of the query. */
  lemma {:induction false} PlacesAreSegments(q: Text, s: Text)
    ensures |Places(q, s)| == multiset(Segments(q))[s]
    decreases |q|
  {
    var found, head, separator, rest := FirstCut(q);
    if !found {
      PlacesUncut(q, s);
    } else {
      PlacesAfterCut(head, separator, rest, s);
      PlacesAreSegments(rest, s);
      CountConcat(NonEmpty(head), Segments(rest), s);
    }
  }

  /** What is a piece is listed. */
  lemma PieceIsSegment(q: Text, i: int, s: Text)
    requires PieceAt(q, i, s)
    ensures s in Segments(q)
  {
    PlacesAreSegments(q, s);
    assert i in Places(q, s);
    assert s in multiset(Segments(q));
  }

  /** `s` is listed somewhere before `t`. */
  ghost predicate ListedBefore(list: seq<Text>, s: Text, t: Text) {
    exists a, b :: 0 <= a < b < |list| && list[a] == s && list[b] == t
  }

  lemma ListedBehind(front: seq<Text>, list: seq<Text>, s: Text, t: Text)
    requires ListedBefore(list, s, t)
    ensures ListedBefore(front + list, s, t)
  {
    var a, b :| 0 <= a < b < |list| && list[a] == s && list[b] == t;
    assert (front + list)[|front| + a] == s && (front + list)[|front| + b] == t;
  }

  lemma ListedFirst(s: Text, list: seq<Text>, t: Text)
    requires t in list
    ensures ListedBefore([s] + list, s, t)
  {
    var b :| 0 <= b < |list| && list[b] == t;
    assert ([s] + list)[0] == s && ([s] + list)[b + 1] == t;
  }

  /** Pieces are listed in the order in which they stand in the query. */
  lemma {:induction false} PiecesInOrder(q: Text, i: int, s: Text, j: int, t: Text)
    requires PieceAt(q, i, s) && PieceAt(q, j, t) && i < j
    ensures ListedBefore(Segments(q), s, t)
    decreases |q|
  {
    var found, head, separator, rest := FirstCut(q);
    if !found {
      PieceUncut(q, i, s);
      PieceUncut(q, j, t);
      assert false;
    } else {
      var k, l := TwoPieces(q, head, separator, rest, i, s, j, t);
      if PieceAt(rest, k, s) {
        PiecesInOrder(rest, k, s, l, t);
        ListedBehind(NonEmpty(head), Segments(rest), s, t);
      } else {
        PieceIsSegment(rest, l, t);
        ListedFirst(s, Segments(rest), t);
      }
    }
  }

  /** Neither two separators in a row nor one at either end, and no byte 59. */
  ghost predicate Tidy(q: Text) {
    && (forall i :: 0 <= i < |q| ==> q[i] as int != 59)
    && (q != [] ==> q[0] as int != 38 && q[|q| - 1] as int != 38)
    && (forall i :: 0 < i < |q| ==> !(q[i - 1] as int == 38 && q[i] as int == 38))
  }

  lemma {:induction false} JoinIsTidy(segments: seq<Text>)
    requires forall s :: s in segments ==> IsSegment(s)
    ensures Tidy(Join(segments))
    ensures segments != [] ==> Join(segments) != []
  {
    if |segments| == 1 {
      assert segments[0] in segments;
    } else if |segments| > 1 {
      var front, last := Join(segments[..|segments| - 1]), segments[|segments| - 1];
      JoinIsTidy(segments[..|segments| - 1]);
      assert last in segments;
      JoinedTidily(front, last);
    }
  }

  lemma JoinedTidily(front: Text, last: Text)
    requires Tidy(front) && front != [] && IsSegment(last)
    ensures Tidy(front + [AMPERSAND] + last)
  {
    var q := front + [AMPERSAND] + last;
    forall i | 0 <= i < |q|
      ensures q[i] as int != 59
      ensures i > 0 ==> !(q[i - 1] as int == 38 && q[i] as int == 38)
    {
      assert i > |front| ==> q[i] == last[i - |front| - 1];
      assert i > |front| + 1 ==> q[i - 1] == last[i - |front| - 2];
    }
  }

  lemma CanonicalIsTidy(q: Text)
    ensures Tidy(Canonical(q))
  {
    SegmentsAreSegments(q);
    SortElements(Segments(q));
    JoinIsTidy(Sort(Segments(q)));
  }

  /** The canonical form has the pieces of the query, each as often. */
  lemma CanonicalKeepsPieces(q: Text, s: Text)
    ensures |Places(Canonical(q), s)| == |Places(q, s)|
  {
    PlacesAreSegments(q, s);
    PlacesAreSegments(Canonical(q), s);
    SegmentsOfCanonical(q);
    SortIsSorted(Segments(q));
  }

  /** Its pieces ascend. */
  lemma CanonicalAscends(q: Text, i: int, s: Text, j: int, t: Text)
    requires PieceAt(Canonical(q), i, s) && PieceAt(Canonical(q), j, t) && i < j
    ensures s <= t || exists k :: 0 <= k < |s| && k < |t| && s[..k] == t[..k] && s[k] as int < t[k] as int
  {
    PiecesInOrder(Canonical(q), i, s, j, t);
    SegmentsOfCanonical(q);
    SortIsSorted(Segments(q));
    var sorted := Sort(Segments(q));
    var a, b :| 0 <= a < b < |sorted| && sorted[a] == s && sorted[b] == t;
    assert Leq(sorted[a], sorted[b]);
    LeqIff(s, t);
  }

  lemma CanonicalBytes(q: Text)
    ensures Tidy(Canonical(q))
    ensures forall s :: |Places(Canonical(q), s)| == |Places(q, s)|
    ensures forall i, j, s, t :: PieceAt(Canonical(q), i, s) && PieceAt(Canonical(q), j, t) && i < j ==>
      s <= t || exists k :: 0 <= k < |s| && k < |t| && s[..k] == t[..k] && s[k] as int < t[k] as int
  {
    CanonicalIsTidy(q);
    forall s
      ensures |Places(Canonical(q), s)| == |Places(q, s)|
    {
      CanonicalKeepsPieces(q, s);
    }
    forall i, j, s, t | PieceAt(Canonical(q), i, s) && PieceAt(Canonical(q), j, t) && i < j
      ensures s <= t || exists k :: 0 <= k < |s| && k < |t| && s[..k] == t[..k] && s[k] as int < t[k] as int
    {
      CanonicalAscends(q, i, s, j, t);
    }
  }

  // ---- grouping by key does not change the sorted order

  lemma KeyValueSplit(s: Text)
    ensures s == Key(s) + Value(s)
  {
  }

  /** A key containing `=` ends there, so it is a proper prefix of no other key. */
  lemma PrefixKeyHasNoValue(s: Text, t: Text)
    requires Key(s) <= Key(t) && Key(s) != Key(t)
    ensures Key(s) == s
  {
    assert forall k :: 0 <= k < |Key(s)| ==> t[k] == Key(t)[k] == s[k];
  }

  /** Segments with different keys compare as their keys do. */
  lemma KeysDecideOrder(s: Text, t: Text)
    requires Leq(Key(s), Key(t)) && Key(s) != Key(t)
    ensures Leq(s, t)
  {
    KeyValueSplit(s);
    KeyValueSplit(t);
    if Key(s) <= Key(t) {
      PrefixKeyHasNoValue(s, t);
    }
    FrontsDecideOrder(Key(s), Value(s), Key(t), Value(t));
  }

  lemma FrontsDecideOrder(a: Text, u: Text, b: Text, v: Text)
    requires Leq(a, b) && (a <= b ==> u == [])
    ensures Leq(a + u, b + v)
  {
    if a <= b {
      var rest := b[|a|..];
      LeqExtension(a, rest + v);
      assert a + u == a && b + v == a + (rest + v);
    } else {
      LeqDecided(a, b, u, v);
    }
  }

  /** The values filed under `key` after reading `segments`. */
  function ValuesOf(segments: seq<Text>, key: Text): seq<Text> {
    if segments == [] then []
    else
      var last := segments[|segments| - 1];
      ValuesOf(segments[..|segments| - 1], key) + ValueUnder(last, key)
  }

  /** What a segment contributes to the values of `key`. */
  function ValueUnder(segment: Text, key: Text): seq<Text> {
    if Key(segment) == key then [Value(segment)] else []
  }

  lemma ValuesOfSnoc(segments: seq<Text>, segment: Text, key: Text)
    ensures ValuesOf(segments + [segment], key) == ValuesOf(segments, key) + ValueUnder(segment, key)
  {
    SnocFront(segments, segment);
  }

  /** `key` printed in front of each value. */
  function Prefixed(key: Text, values: seq<Text>): seq<Text> {
    seq(|values|, i requires 0 <= i < |values| => key + values[i])
  }

  lemma PrefixedSnoc(key: Text, values: seq<Text>, value: Text)
    ensures Prefixed(key, values + [value]) == Prefixed(key, values) + [key + value]
  {
  }

  ghost predicate ValuesFit(key: Text, values: seq<Text>) {
    forall v :: v in values ==> Key(key + v) == key
  }

  lemma {:induction false} ValuesOfFit(segments: seq<Text>, key: Text)
    ensures ValuesFit(key, ValuesOf(segments, key))
  {
    if segments != [] {
      ValuesOfFit(segments[..|segments| - 1], key);
      KeyValueSplit(segments[|segments| - 1]);
    }
  }

  lemma SplitsEqually(s: Text, t: Text)
    ensures s == t <==> Key(s) == Key(t) && Value(s) == Value(t)
  {
    KeyValueSplit(s);
    KeyValueSplit(t);
  }

  /** A segment is counted once for each time its value is filed under its key. */
  lemma {:induction false} ValuesOfCount(segments: seq<Text>, s: Text)
    ensures multiset(ValuesOf(segments, Key(s)))[Value(s)] == multiset(segments)[s]
  {
    if segments != [] {
      var front, last := segments[..|segments| - 1], segments[|segments| - 1];
      ValuesOfCount(front, s);
      SplitLast(segments);
      CountSnoc(front, last, s);
      SplitsEqually(last, s);
      CountConcat(ValuesOf(front, Key(s)), ValueUnder(last, Key(s)), Value(s));
    }
  }

  lemma {:induction false} PrefixedCount(key: Text, values: seq<Text>, s: Text)
    requires ValuesFit(key, values)
    ensures multiset(Prefixed(key, values))[s] == if Key(s) == key then multiset(values)[Value(s)] else 0
  {
    if values != [] {
      var front, last := values[..|values| - 1], values[|values| - 1];
      PrefixedCount(key, front, s);
      SplitLast(values);
      PrefixedSnoc(key, front, last);
      CountSnoc(Prefixed(key, front), key + last, s);
      CountSnoc(front, last, Value(s));
      assert last in values;
      assert Value(key + last) == last;
      SplitsEqually(key + last, s);
    }
  }

  /** How often `s` has been printed once the keys `printed` are done. */
  ghost predicate PrintedCounts(out: seq<Text>, printed: seq<Text>, segments: seq<Text>) {
    forall s :: multiset(out)[s] == if Key(s) in printed then multiset(segments)[s] else 0
  }

  lemma GroupCounts(out: seq<Text>, printed: seq<Text>, key: Text, segments: seq<Text>)
    requires key !in printed && PrintedCounts(out, printed, segments)
    ensures PrintedCounts(out + Group(segments, key), printed + [key], segments)
  {
    var values, group := Sort(ValuesOf(segments, key)), Group(segments, key);
    GroupFits(segments, key);
    SortIsSorted(ValuesOf(segments, key));
    forall s
      ensures multiset(out + group)[s] == if Key(s) in printed + [key] then multiset(segments)[s] else 0
    {
      CountConcat(out, group, s);
      PrefixedCount(key, values, s);
      if Key(s) == key {
        ValuesOfCount(segments, s);
      }
    }
  }

  /** The printed group of a key. */
  function Group(segments: seq<Text>, key: Text): seq<Text> {
    Prefixed(key, Sort(ValuesOf(segments, key)))
  }

  lemma GroupFits(segments: seq<Text>, key: Text)
    ensures ValuesFit(key, Sort(ValuesOf(segments, key)))
    ensures forall i :: 0 <= i < |Group(segments, key)| ==> Key(Group(segments, key)[i]) == key
  {
    ValuesOfFit(segments, key);
    SortElements(ValuesOf(segments, key));
  }

  lemma GroupSorted(segments: seq<Text>, key: Text)
    ensures Sorted(Group(segments, key))
  {
    var values, group := Sort(ValuesOf(segments, key)), Group(segments, key);
    SortIsSorted(ValuesOf(segments, key));
    forall i, j | 0 <= i < j < |group|
      ensures Leq(group[i], group[j])
    {
      assert Leq(values[i], values[j]);
      LeqCommonPrefix(key, values[i], values[j]);
    }
  }

  /** What was printed under earlier keys stays below the next group. */
  lemma GroupAbove(out: seq<Text>, printed: seq<Text>, key: Text, segments: seq<Text>, s: Text)
    requires Sorted(printed + [key]) && key !in printed
    requires PrintedCounts(out, printed, segments) && s in out
    ensures Below(s, Group(segments, key))
  {
    var group := Group(segments, key);
    GroupFits(segments, key);
    assert s in multiset(out);
    assert Key(s) in printed;
    var k :| 0 <= k < |printed| && printed[k] == Key(s);
    assert Leq((printed + [key])[k], (printed + [key])[|printed|]);
    forall i | 0 <= i < |group|
      ensures Leq(s, group[i])
    {
      KeysDecideOrder(s, group[i]);
    }
  }

  /** Printing the sorted group of the next key keeps the output sorted and complete so far. */
  lemma PrintGroup(out: seq<Text>, printed: seq<Text>, key: Text, segments: seq<Text>)
    requires Sorted(printed + [key]) && key !in printed
    requires Sorted(out) && PrintedCounts(out, printed, segments)
    ensures Sorted(out + Group(segments, key)) && PrintedCounts(out + Group(segments, key), printed + [key], segments)
  {
    GroupCounts(out, printed, key, segments);
    GroupSorted(segments, key);
    forall s | s in out
      ensures Below(s, Group(segments, key))
    {
      GroupAbove(out, printed, key, segments, s);
    }
    SortedConcat(out, Group(segments, key));
  }

  ghost predicate Distinct(s: seq<Text>) {
    forall i, j :: 0 <= i < j < |s| ==> s[i] != s[j]
  }

  lemma {:induction false} DistinctOnce(s: seq<Text>, x: Text)
    requires Distinct(s)
    ensures multiset(s)[x] <= 1
  {
    if s != [] {
      DistinctOnce(s[1..], x);
      assert s == [s[0]] + s[1..];
    }
  }

  lemma TwiceCounted(s: seq<Text>, i: nat, j: nat)
    requires i < j < |s|
    ensures s[i] == s[j] ==> multiset(s)[s[i]] >= 2
  {
    assert s == s[..i] + [s[i]] + s[i + 1..j] + [s[j]] + s[j + 1..];
  }

  /** sort.Strings on a list of distinct keys leaves them distinct. */
  lemma SortKeepsDistinct(keys: seq<Text>)
    requires Distinct(keys)
    ensures Distinct(Sort(keys))
    ensures forall k :: k in Sort(keys) <==> k in keys
  {
    var sorted := Sort(keys);
    SortIsSorted(keys);
    forall i, j | 0 <= i < j < |sorted|
      ensures sorted[i] != sorted[j]
    {
      DistinctOnce(keys, sorted[i]);
      TwiceCounted(sorted, i, j);
    }
    SortElements(keys);
  }

  /** `done` holds the segments of `query` in front of what is left of it. */
  ghost predicate Consumed(done: seq<Text>, rest: Text, query: Text) {
    Segments(query) == done + Segments(rest)
  }

  lemma ConsumedAtEnds(query: Text, done: seq<Text>)
    ensures Consumed([], query, query)
    ensures Consumed(done, [], query) ==> done == Segments(query)
  {
  }

  /** One turn of the splitting loop takes one, possibly empty, piece off the front. */
  lemma ConsumeOne(done: seq<Text>, rest: Text, query: Text)
    requires rest != [] && Consumed(done, rest, query)
    ensures var i := IndexAny(rest, SEPARATORS);
            var head, tail := (if i < 0 then rest else rest[..i]), (if i < 0 then [] else rest[i + 1..]);
            Consumed(if head == [] then done else done + [head], tail, query)
  {
    var i := IndexAny(rest, SEPARATORS);
    if i >= 0 {
      SplitAt(rest, i);
      SegmentsCut(rest[..i], rest[i], rest[i + 1..]);
      Associative(done, NonEmpty(rest[..i]), Segments(rest[i + 1..]));
    } else {
      Associative(done, [rest], []);
    }
  }

  /**
   * core/util/util.go, SortQueryString. In bytes: the result has the non-empty pieces of the query
   * between the bytes 38 and 59, each as often, in ascending order, with single bytes 38 in between.
   */
  method SortQueryString(query: Text) returns (r: Text)
    ensures r == Canonical(query)
    ensures forall i :: 0 <= i < |r| ==> r[i] as int != 59
    ensures r != [] ==> r[0] as int != 38 && r[|r| - 1] as int != 38
    ensures forall i :: 0 < i < |r| ==> !(r[i - 1] as int == 38 && r[i] as int == 38)
    ensures forall s :: |Places(r, s)| == |Places(query, s)|
    ensures forall i, j, s, t :: PieceAt(r, i, s) && PieceAt(r, j, t) && i < j ==>
      s <= t || exists k :: 0 <= k < |s| && k < |t| && s[..k] == t[..k] && s[k] as int < t[k] as int
  {
    var rest := query;
    var keyValues: map<Text, seq<Text>> := map[];
    ghost var done: seq<Text> := [];
    ConsumedAtEnds(query, done);
    while rest != []
      invariant Consumed(done, rest, query)
      invariant Groups(keyValues, done)
      decreases |rest|
    {
      var key := rest;
      ConsumeOne(done, rest, query);
      var i := IndexAny(key, SEPARATORS);
      if i >= 0 {
        key, rest := key[..i], key[i + 1..];
      } else {
        rest := [];
      }
      if key == [] {
        continue;
      }
      keyValues := FileSegment(key, keyValues, done);
      done := done + [key];
    }
    ConsumedAtEnds(query, done);
    SegmentsAreSegments(query);
    r := PrintSorted(keyValues, done);
    CanonicalBytes(query);
  }

  /** The groups hold exactly the values of the segments read so far. */
  ghost predicate Groups(keyValues: map<Text, seq<Text>>, segments: seq<Text>) {
    && keyValues.Keys == KeysOf(segments)
    && forall k :: k in keyValues ==> keyValues[k] == ValuesOf(segments, k)
  }

  /** The body of the loop for a non-empty segment. */
  method FileSegment(segment: Text, keyValues: map<Text, seq<Text>>, ghost done: seq<Text>)
    returns (r: map<Text, seq<Text>>)
    requires Groups(keyValues, done)
    ensures Groups(r, done + [segment])
  {
    var key, value := segment, [];
    var j := IndexAny(key, {EQUALS});
    if j >= 0 {
      key, value := key[..j + 1], key[j + 1..];
    }
    assert key == Key(segment) && value == Value(segment);
    r := keyValues[key := (if key in keyValues then keyValues[key] else []) + [value]];
    Refile(done, segment, keyValues, r);
  }

  /** The values filed so far under a key, present or not. */
  function Filed(keyValues: map<Text, seq<Text>>, key: Text): seq<Text> {
    if key in keyValues then keyValues[key] else []
  }

  lemma FiledSoFar(done: seq<Text>, key: Text, keyValues: map<Text, seq<Text>>)
    requires Groups(keyValues, done)
    ensures Filed(keyValues, key) == ValuesOf(done, key)
  {
    if key !in keyValues {
      NothingFiled(done, key);
    }
  }

  lemma RefiledUnder(done: seq<Text>, segment: Text, keyValues: map<Text, seq<Text>>, k: Text)
    requires Groups(keyValues, done)
    ensures ValuesOf(done + [segment], k)
         == Filed(keyValues, k) + (if k == Key(segment) then [Value(segment)] else [])
  {
    FiledSoFar(done, k, keyValues);
    ValuesOfSnoc(done, segment, k);
  }

  /** Filing one more segment keeps the groups. */
  lemma Refile(done: seq<Text>, segment: Text, keyValues: map<Text, seq<Text>>, after: map<Text, seq<Text>>)
    requires Groups(keyValues, done)
    requires after == keyValues[Key(segment) := Filed(keyValues, Key(segment)) + [Value(segment)]]
    ensures Groups(after, done + [segment])
  {
    KeysSnoc(done, segment);
    assert after.Keys == KeysOf(done + [segment]);
    forall k | k in after
      ensures after[k] == ValuesOf(done + [segment], k)
    {
      RefiledUnder(done, segment, keyValues, k);
      assert k != Key(segment) ==> Filed(keyValues, k) + [] == Filed(keyValues, k);
    }
  }

  function KeysOf(segments: seq<Text>): set<Text> {
    set s | s in segments :: Key(s)
  }

  lemma KeysSnoc(segments: seq<Text>, segment: Text)
    ensures KeysOf(segments + [segment]) == KeysOf(segments) + {Key(segment)}
  {
    SnocFront(segments, segment);
  }

  lemma {:induction false} NothingFiled(done: seq<Text>, key: Text)
    requires key !in KeysOf(done)
    ensures ValuesOf(done, key) == []
  {
    if done != [] {
      assert done[|done| - 1] in done;
      NothingFiled(done[..|done| - 1], key);
    }
  }

  /** `for key := range keyValues`: the keys in whatever order the map yields them. */
  method CollectKeys(keyValues: map<Text, seq<Text>>) returns (keys: seq<Text>)
    ensures Distinct(keys)
    ensures forall k :: k in keys <==> k in keyValues
  {
    keys := [];
    var pending := keyValues.Keys;
    while pending != {}
      invariant Distinct(keys)
      invariant forall k :: k in keys || k in pending <==> k in keyValues
      invariant forall k :: k in keys ==> k !in pending
      decreases pending
    {
      var key :| key in pending;
      pending := pending - {key};
      keys := keys + [key];
    }
  }

  /** The output after printing the groups of the keys `printed`. */
  ghost predicate Printed(buffer: Text, out: seq<Text>, printed: seq<Text>, segments: seq<Text>) {
    && buffer == Join(out) && Sorted(out) && PrintedCounts(out, printed, segments)
    && NoneEmpty(out)
  }

  ghost predicate NoneEmpty(segments: seq<Text>) {
    forall s :: s in segments ==> s != []
  }

  lemma PrintedNext(buffer: Text, out: seq<Text>, keys: seq<Text>, i: nat, segments: seq<Text>)
    requires i < |keys| && Sorted(keys) && Distinct(keys) && keys[i] != []
    requires Sorted(out) && PrintedCounts(out, keys[..i], segments) && NoneEmpty(out)
    requires buffer == Join(out + Group(segments, keys[i]))
    ensures Printed(buffer, out + Group(segments, keys[i]), keys[..i + 1], segments)
  {
    var key := keys[i];
    TakeSnoc(keys, i);
    var taken := keys[..i + 1];
    forall j, k | 0 <= j < k < |taken|
      ensures Leq(taken[j], taken[k])
    {
      assert Leq(keys[j], keys[k]);
    }
    PrintGroup(out, keys[..i], key, segments);
  }

  lemma KeysNotEmpty(segments: seq<Text>, key: Text)
    requires key in KeysOf(segments) && forall s :: s in segments ==> IsSegment(s)
    ensures key != []
  {
  }

  /** The printing loops over sorted keys and, inside each group, sorted values. */
  method PrintSorted(keyValues: map<Text, seq<Text>>, ghost segments: seq<Text>) returns (buffer: Text)
    requires Groups(keyValues, segments)
    requires forall s :: s in segments ==> IsSegment(s)
    ensures buffer == Join(Sort(segments))
  {
    var keys := CollectKeys(keyValues);
    SortIsSorted(keys);
    SortKeepsDistinct(keys);
    keys := Sort(keys);
    buffer := [];
    ghost var out: seq<Text> := [];
    for i := 0 to |keys|
      invariant Printed(buffer, out, keys[..i], segments)
    {
      var key := keys[i];
      var values := Sort(keyValues[key]);
      assert values == Sort(ValuesOf(segments, key));
      KeysNotEmpty(segments, key);
      buffer := PrintValues(key, values, buffer, out);
      PrintedNext(buffer, out, keys, i, segments);
      out := out + Group(segments, key);
    }
    TakeAll(keys);
    AllPrinted(out, keys, segments);
  }

  /** The inner printing loop: one group appended to the buffer. */
  method PrintValues(key: Text, values: seq<Text>, before: Text, ghost out: seq<Text>) returns (buffer: Text)
    requires key != [] && before == Join(out) && NoneEmpty(out)
    ensures buffer == Join(out + Prefixed(key, values))
  {
    buffer := before;
    ghost var printed := out;
    assert out + Prefixed(key, values[..0]) == out;
    for j := 0 to |values|
      invariant buffer == Join(printed) && NoneEmpty(printed)
      invariant printed == out + Prefixed(key, values[..j])
    {
      JoinEmpty(printed);
      JoinSnoc(printed, key + values[j]);
      TakeSnoc(values, j);
      PrefixedSnoc(key, values[..j], values[j]);
      Associative(out, Prefixed(key, values[..j]), [key + values[j]]);
      if |buffer| > 0 {
        buffer := buffer + [AMPERSAND];
      }
      buffer := buffer + key;
      buffer := buffer + values[j];
      Associative(Join(printed) + [AMPERSAND], key, values[j]);
      SnocFront(printed, key + values[j]);
      printed := printed + [key + values[j]];
    }
    TakeAll(values);
  }

  lemma JoinSnoc(segments: seq<Text>, s: Text)
    ensures Join(segments + [s]) == (if segments == [] then s else Join(segments) + [AMPERSAND] + s)
  {
    assert (segments + [s])[..|segments|] == segments;
  }

  lemma JoinEmpty(segments: seq<Text>)
    requires NoneEmpty(segments)
    ensures Join(segments) == [] <==> segments == []
  {
    if |segments| == 1 {
      assert segments[0] in segments;
    }
  }

  /** Once every key is printed, the output is the sorted list of all segments. */
  lemma AllPrinted(out: seq<Text>, keys: seq<Text>, segments: seq<Text>)
    requires Sorted(out) && PrintedCounts(out, keys, segments)
    requires forall s :: s in segments ==> Key(s) in keys
    ensures out == Sort(segments)
  {
    forall s
      ensures multiset(out)[s] == multiset(segments)[s]
    {
      if s in multiset(segments) {
        assert s in segments;
      }
    }
    SortIsSorted(segments);
    SortedUnique(out, Sort(segments));
  }
}
