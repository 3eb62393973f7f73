/**
 * Glob matching (vendor/github.com/ryanuber/go-glob/glob.go): the pattern is split at its stars
 * and each piece is looked for once, leftmost first. This greedy search finds a match whenever
 * there is one.
 */
module Globs {
  import opened Bytes

  const STAR: byte := 42

  /** A glob: `*` stands for any, possibly empty, piece of text; other bytes for themselves. */
  predicate GlobAccepts(pattern: Text, s: Text)
    decreases |pattern| + |s|
  {
    if pattern == [] then s == []
    else if pattern[0] == STAR then
      GlobAccepts(pattern[1..], s) || (s != [] && GlobAccepts(pattern, s[1..]))
    else s != [] && pattern[0] == s[0] && GlobAccepts(pattern[1..], s[1..])
  }

  /** Every text, read as a glob, accepts itself. */
  lemma {:induction false} GlobReflexive(s: Text)
    ensures GlobAccepts(s, s)
  {
    if s != [] {
      GlobReflexive(s[1..]);
    }
  }

  /** What a glob accepts of a text that is itself read as a glob, it accepts of all that text accepts. */
  lemma {:induction false} GlobTransitive(p: Text, q: Text, s: Text)
    requires GlobAccepts(p, q) && GlobAccepts(q, s)
    ensures GlobAccepts(p, s)
    decreases |p| + |q| + |s|
  {
    if p != [] && p[0] == STAR && GlobAccepts(p[1..], q) {
      GlobTransitive(p[1..], q, s);
    } else if q != [] && q[0] == STAR {
      if GlobAccepts(q[1..], s) {
        GlobTransitive(p, q[1..], s);
      } else {
        GlobTransitive(p, q, s[1..]);
      }
    } else if p != [] {
      GlobTransitive(if p[0] == STAR then p else p[1..], q[1..], s[1..]);
    }
  }

  // ---- what globs mean, byte by byte

  /** The byte 42 accepts every text, any other byte only itself. */
  lemma {:induction false} OneBytePattern(c: byte, s: Text)
    ensures GlobAccepts([c], s) <==> c as int == 42 || s == [c]
  {
    if c as int == 42 {
      if s != [] {
        OneBytePattern(c, s[1..]);
      }
      assert [c][1..] == [];
    } else if s != [] {
      assert [c][1..] == [];
      assert s == [s[0]] + s[1..];
    }
  }

  /** A pattern made of two accepts what falls into a part for each; so patterns mean what their bytes mean. */
  lemma {:induction false} PatternConcat(p: Text, q: Text, s: Text)
    ensures GlobAccepts(p + q, s) <==> exists k :: 0 <= k <= |s| && GlobAccepts(p, s[..k]) && GlobAccepts(q, s[k..])
    decreases |p| + |s|
  {
    if p == [] {
      assert p + q == q && s[..0] == [] && s[0..] == s;
      forall k | 0 <= k <= |s| && GlobAccepts(p, s[..k])
        ensures k == 0
      {
      }
    } else if GlobAccepts(p + q, s) {
      var k := ConcatSplits(p, q, s);
    } else if k :| 0 <= k <= |s| && GlobAccepts(p, s[..k]) && GlobAccepts(q, s[k..]) {
      ConcatJoins(p, q, s, k);
    }
  }

  lemma {:induction false} ConcatSplits(p: Text, q: Text, s: Text) returns (k: nat)
    requires GlobAccepts(p + q, s)
    ensures k <= |s| && GlobAccepts(p, s[..k]) && GlobAccepts(q, s[k..])
    decreases |p| + |s|
  {
    if p == [] {
      assert p + q == q && s[..0] == [] && s[0..] == s;
      k := 0;
    } else {
      assert (p + q)[1..] == p[1..] + q;
      if p[0] == STAR && GlobAccepts(p[1..] + q, s) {
        k := ConcatSplits(p[1..], q, s);
      } else {
        var j := ConcatSplits(if p[0] == STAR then p else p[1..], q, s[1..]);
        k := j + 1;
        assert s[..k][1..] == s[1..][..j] && s[k..] == s[1..][j..];
      }
    }
  }

  lemma {:induction false} ConcatJoins(p: Text, q: Text, s: Text, k: nat)
    requires k <= |s| && GlobAccepts(p, s[..k]) && GlobAccepts(q, s[k..])
    ensures GlobAccepts(p + q, s)
    decreases |p| + k
  {
    if p == [] {
      assert p + q == q && s[k..] == s;
    } else {
      assert (p + q)[1..] == p[1..] + q;
      if p[0] == STAR && GlobAccepts(p[1..], s[..k]) {
        ConcatJoins(p[1..], q, s, k);
      } else {
        assert s[..k][1..] == s[1..][..k - 1] && s[k..] == s[1..][k - 1..];
        ConcatJoins(if p[0] == STAR then p else p[1..], q, s[1..], k - 1);
      }
    }
  }

  // ---- the library functions the search uses

  /** strings.Split at stars. */
  function Split(pattern: Text): (parts: seq<Text>)
    ensures parts != []
  {
    var i := IndexAny(pattern, {STAR});
    if i < 0 then [pattern] else [pattern[..i]] + Split(pattern[i + 1..])
  }

  /** strings.Index: the first occurrence, or -1. */
  function Index(s: Text, part: Text): (i: int)
    ensures i >= 0 ==> OccursAt(part, s, i)
    ensures forall k: nat :: OccursAt(part, s, k) ==> 0 <= i <= k
    ensures i >= -1
  {
    IndexFrom(s, part, 0)
  }

  function IndexFrom(s: Text, part: Text, start: nat): (i: int)
    ensures i == -1 || i >= start
    ensures i >= 0 ==> OccursAt(part, s, i)
    ensures forall k: nat :: start <= k && OccursAt(part, s, k) ==> 0 <= i <= k
    decreases |s| - start
  {
    if start > |s| then -1
    else if OccursAt(part, s, start) then start
    else if start == |s| then -1
    else IndexFrom(s, part, start + 1)
  }

  /** strings.HasSuffix. */
  predicate HasSuffix(s: Text, suffix: Text) {
    |suffix| <= |s| && s[|s| - |suffix|..] == suffix
  }

  // ---- what the pieces mean

  /** The pieces follow one another, each after a gap; the last one ends the text. */
  predicate Floating(parts: seq<Text>, s: Text)
    requires parts != []
    decreases |parts|
  {
    if |parts| == 1 then HasSuffix(s, parts[0])
    else exists k: nat :: k <= |s| && OccursAt(parts[0], s, k) && Floating(parts[1..], s[k + |parts[0]|..])
  }

  /** As above, but the first piece starts the text. */
  predicate Anchored(parts: seq<Text>, s: Text)
    requires parts != []
  {
    if |parts| == 1 then s == parts[0]
    else OccursAt(parts[0], s, 0) && Floating(parts[1..], s[|parts[0]|..])
  }

  /** A longer text offers at least the same places. */
  lemma FloatingSuffix(parts: seq<Text>, s: Text, i: nat, j: nat)
    requires parts != [] && i <= j <= |s| && Floating(parts, s[j..])
    ensures Floating(parts, s[i..])
  {
    if |parts| > 1 {
      var k: nat :| k <= |s[j..]| && OccursAt(parts[0], s[j..], k) && Floating(parts[1..], s[j..][k + |parts[0]|..]);
      OccursShifted(parts[0], s[i..], j - i + k);
      OccursShifted(parts[0], s[j..], k);
      DropDrop(s, i, j - i + k);
      DropDrop(s, j, k);
      assert OccursAt(parts[0], s[i..], j - i + k);
    }
  }

  lemma DropDrop(s: Text, i: nat, k: nat)
    requires i + k <= |s|
    ensures s[i..][k..] == s[i + k..]
  {
  }

  /** Taking the leftmost occurrence of a piece loses nothing. */
  lemma LeftmostSuffices(parts: seq<Text>, s: Text)
    requires |parts| > 1
    ensures var i := Index(s, parts[0]);
            Floating(parts, s) <==> i >= 0 && Floating(parts[1..], s[i + |parts[0]|..])
  {
    if Floating(parts, s) {
      var k: nat :| k <= |s| && OccursAt(parts[0], s, k) && Floating(parts[1..], s[k + |parts[0]|..]);
      FloatingSuffix(parts[1..], s, Index(s, parts[0]) + |parts[0]|, k + |parts[0]|);
    }
  }

  lemma {:induction false} LiteralAccepts(p: Text, rest: Text, s: Text)
    requires STAR !in p
    ensures GlobAccepts(p + rest, s) <==> OccursAt(p, s, 0) && GlobAccepts(rest, s[|p|..])
  {
    if p == [] {
      assert p + rest == rest && s[0..] == s;
    } else {
      assert (p + rest)[1..] == p[1..] + rest;
      if OccursAt(p, s, 0) {
        OccursHead(p, s);
      }
      if s != [] && p[0] == s[0] {
        LiteralAccepts(p[1..], rest, s[1..]);
        OccursCons(p, s);
        assert |p| <= |s| ==> s[1..][|p[1..]|..] == s[|p|..];
      }
    }
  }

  lemma OccursHead(p: Text, s: Text)
    requires p != [] && OccursAt(p, s, 0)
    ensures s != [] && s[0] == p[0]
  {
    assert s[0..|p|][0] == s[0];
  }

  lemma OccursCons(p: Text, s: Text)
    requires p != [] && s != [] && p[0] == s[0]
    ensures OccursAt(p, s, 0) <==> OccursAt(p[1..], s[1..], 0)
  {
    if |p| <= |s| {
      assert s[0..|p|] == [s[0]] + s[1..][0..|p| - 1];
      assert p == [p[0]] + p[1..];
      assert s[0..|p|][1..] == s[1..][0..|p| - 1];
    }
  }

  /** A star accepts any prefix. */
  lemma {:induction false} StarAccepts(p: Text, s: Text)
    ensures GlobAccepts([STAR] + p, s) <==> exists k: nat :: k <= |s| && GlobAccepts(p, s[k..])
    decreases |s|
  {
    assert ([STAR] + p)[1..] == p && s[0..] == s;
    if s != [] {
      StarAccepts(p, s[1..]);
      assert forall k: nat :: k < |s| ==> s[1..][k..] == s[k + 1..];
      if GlobAccepts([STAR] + p, s[1..]) {
        var k: nat :| k <= |s[1..]| && GlobAccepts(p, s[1..][k..]);
        assert GlobAccepts(p, s[k + 1..]);
      }
      if k: nat :| 0 < k <= |s| && GlobAccepts(p, s[k..]) {
        assert s[1..][k - 1..] == s[k..];
      }
    }
  }

  /** The pieces of a pattern mean what the pattern means, on its own and after a star. */
  lemma {:induction false} PatternMeansParts(pattern: Text, s: Text)
    ensures GlobAccepts(pattern, s) <==> Anchored(Split(pattern), s)
    decreases |pattern|, 0
  {
    var i := IndexAny(pattern, {STAR});
    if i < 0 {
      LiteralAccepts(pattern, [], s);
      assert pattern + [] == pattern;
      if |pattern| <= |s| {
        assert s == s[0..|pattern|] + s[|pattern|..];
      }
    } else {
      var literal, rest := pattern[..i], pattern[i + 1..];
      assert pattern == literal + ([STAR] + rest);
      LiteralAccepts(literal, [STAR] + rest, s);
      if OccursAt(literal, s, 0) {
        StarMeansFloating(rest, s[|literal|..]);
      }
    }
  }

  lemma {:induction false} StarMeansFloating(pattern: Text, s: Text)
    ensures GlobAccepts([STAR] + pattern, s) <==> Floating(Split(pattern), s)
    decreases |pattern|, 1
  {
    var parts := Split(pattern);
    StarAccepts(pattern, s);
    forall k: nat | k <= |s|
      ensures GlobAccepts(pattern, s[k..]) <==> Anchored(parts, s[k..])
    {
      PatternMeansParts(pattern, s[k..]);
    }
    AnchoredSomewhere(parts, s);
  }

  lemma AnchoredSomewhere(parts: seq<Text>, s: Text)
    requires parts != []
    ensures Floating(parts, s) <==> exists k: nat :: k <= |s| && Anchored(parts, s[k..])
  {
    if |parts| == 1 {
      if HasSuffix(s, parts[0]) {
        assert Anchored(parts, s[|s| - |parts[0]|..]);
      }
    } else {
      if Floating(parts, s) {
        var k: nat :| k <= |s| && OccursAt(parts[0], s, k) && Floating(parts[1..], s[k + |parts[0]|..]);
        OccursShifted(parts[0], s, k);
        assert Anchored(parts, s[k..]);
      }
      if k: nat :| k <= |s| && Anchored(parts, s[k..]) {
        OccursShifted(parts[0], s, k);
        assert OccursAt(parts[0], s, k);
      }
    }
  }

  lemma OccursShifted(part: Text, s: Text, k: nat)
    requires k <= |s|
    ensures OccursAt(part, s, k) <==> OccursAt(part, s[k..], 0)
    ensures k + |part| <= |s| ==> s[k..][|part|..] == s[k + |part|..]
  {
    if k + |part| <= |s| {
      assert s[k..][0..|part|] == s[k..k + |part|];
    }
  }

  /** The first piece is empty exactly when the pattern starts with a star. */
  lemma {:induction false} SplitStart(pattern: Text)
    requires pattern != []
    ensures Split(pattern)[0] == [] <==> pattern[0] == STAR
  {
    var i := IndexAny(pattern, {STAR});
    if i >= 0 {
      assert pattern[..i] == [] <==> i == 0;
    }
  }

  /** The last piece of a pattern that ends with a star is empty. */
  lemma {:induction false} SplitEnd(pattern: Text)
    requires pattern != [] && pattern[|pattern| - 1] == STAR
    ensures Split(pattern)[|Split(pattern)| - 1] == []
  {
    var i := IndexAny(pattern, {STAR});
    var rest := pattern[i + 1..];
    if rest == [] {
      assert Split(rest) == [[]];
    } else {
      SplitEnd(rest);
    }
  }

  lemma SplitEnds(pattern: Text)
    requires pattern != []
    ensures Split(pattern)[0] == [] <==> pattern[0] == STAR
    ensures pattern[|pattern| - 1] == STAR ==> Split(pattern)[|Split(pattern)| - 1] == []
  {
    SplitStart(pattern);
    if pattern[|pattern| - 1] == STAR {
      SplitEnd(pattern);
    }
  }

  /** What remains to be found after piece `i` was taken at its leftmost occurrence. */
  lemma NextPiece(parts: seq<Text>, i: nat, s: Text)
    requires i + 1 < |parts|
    ensures var idx := Index(s, parts[i]);
            Floating(parts[i..], s) <==> idx >= 0 && Floating(parts[i + 1..], s[idx + |parts[i]|..])
  {
    LeftmostSuffices(parts[i..], s);
    assert parts[i..][1..] == parts[i + 1..];
  }

  lemma StarAcceptsAll(s: Text)
    ensures GlobAccepts([STAR], s)
  {
    StarAccepts([], s);
    assert s[|s|..] == [] && [STAR] + [] == [STAR];
  }

  /** The loop of Glob and what follows it, lines 32-55: one piece after the other. */
  method FindPieces(parts: seq<Text>, subj: Text, leadingGlob: bool, trailingGlob: bool) returns (r: bool)
    requires |parts| > 1
    requires leadingGlob <==> parts[0] == []
    requires trailingGlob ==> parts[|parts| - 1] == []
    ensures r == Anchored(parts, subj)
  {
    var end := |parts| - 1;
    var rest := subj;
    for i := 0 to end
      invariant i == 0 ==> rest == subj
      invariant i > 0 ==> (Anchored(parts, subj) <==> Floating(parts[i..], rest))
    {
      var idx := Index(rest, parts[i]);
      if i == 0 {
        if leadingGlob {
          assert OccursAt(parts[0], rest, 0);
        } else if idx != 0 {
          return false;
        }
      } else {
        NextPiece(parts, i, rest);
        if idx < 0 {
          return false;
        }
      }
      rest := rest[idx + |parts[i]|..];
    }
    return trailingGlob || HasSuffix(rest, parts[end]);
  }

  /** glob.go, Glob. */
  method Glob(pattern: Text, subj: Text) returns (r: bool)
    ensures r == GlobAccepts(pattern, subj)
  {
    if pattern == [] {
      return subj == pattern;
    }
    if pattern == [STAR] {
      StarAcceptsAll(subj);
      return true;
    }
    PatternMeansParts(pattern, subj);
    SplitEnds(pattern);
    var parts := Split(pattern);
    if |parts| == 1 {
      return subj == pattern;
    }
    r := FindPieces(parts, subj, pattern[0] == STAR, pattern[|pattern| - 1] == STAR);
  }
}
