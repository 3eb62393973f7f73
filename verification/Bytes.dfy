/**
 * Go strings: byte sequences, their bytewise order, and the ASCII case folding that
 * HTTP field names and methods are subject to.
 */
module Bytes {

  newtype byte = x: int | 0 <= x < 256

  type Text = seq<byte>

  /** The bytes of an ASCII literal. */
  function Ascii(s: string): (t: Text)
    ensures |t| == |s| && forall i :: 0 <= i < |s| && s[i] as int < 128 ==> t[i] as int == s[i] as int
  {
    seq(|s|, i requires 0 <= i < |s| => (s[i] as int % 256) as byte)
  }

  function LowerByte(b: byte): byte {
    if 65 <= b <= 90 then b + 32 else b
  }

  /** strings.ToLower on ASCII text; other bytes are left alone. */
  function ToLower(s: Text): Text {
    seq(|s|, i requires 0 <= i < |s| => LowerByte(s[i]))
  }

  lemma ToLowerIdempotent(s: Text)
    ensures ToLower(ToLower(s)) == ToLower(s)
  {
  }

  /** strings.EqualFold on ASCII text. */
  predicate EqualFold(a: Text, b: Text) {
    ToLower(a) == ToLower(b)
  }

  /** Lower-casing moves the bytes 65 to 90 up by 32 and touches no other. */
  lemma LowerCaseBytes(s: Text)
    ensures |ToLower(s)| == |s|
    ensures forall i :: 0 <= i < |s| ==>
      ToLower(s)[i] as int == if 65 <= s[i] as int <= 90 then s[i] as int + 32 else s[i] as int
    ensures forall i :: 0 <= i < |s| ==> !(65 <= ToLower(s)[i] as int <= 90)
  {
  }

  /** Texts are equal up to case when each byte is, or is the other case of the same letter. */
  lemma EqualFoldIff(a: Text, b: Text)
    ensures EqualFold(a, b) <==>
      && |a| == |b|
      && forall i :: 0 <= i < |a| ==>
           || a[i] == b[i]
           || (65 <= a[i] as int <= 90 && b[i] as int == a[i] as int + 32)
           || (65 <= b[i] as int <= 90 && a[i] as int == b[i] as int + 32)
  {
    if EqualFold(a, b) {
      forall i | 0 <= i < |a|
        ensures LowerByte(a[i]) == LowerByte(b[i])
      {
        assert ToLower(a)[i] == ToLower(b)[i];
      }
    }
  }

  /** strings.IndexAny: the first position holding one of `chars`, or -1. */
  function IndexAny(s: Text, chars: set<byte>): (i: int)
    ensures -1 <= i < |s|
    ensures i >= 0 ==> s[i] in chars
    ensures forall k :: 0 <= k < (if i < 0 then |s| else i) ==> s[k] !in chars
  {
    if s == [] then -1
    else if s[0] in chars then 0
    else
      var j := IndexAny(s[1..], chars);
      if j < 0 then -1 else j + 1
  }

  lemma {:induction false} IndexAnyUnique(s: Text, chars: set<byte>, i: nat)
    requires i < |s| && s[i] in chars
    requires forall k :: 0 <= k < i ==> s[k] !in chars
    ensures IndexAny(s, chars) == i
  {
  }

  lemma {:induction false} IndexAnyAbsent(s: Text, chars: set<byte>)
    requires forall k :: 0 <= k < |s| ==> s[k] !in chars
    ensures IndexAny(s, chars) == -1
  {
  }

  /** `m` occurs in `s` at `i`. */
  predicate OccursAt(m: Text, s: Text, i: nat) {
    i + |m| <= |s| && s[i..i + |m|] == m
  }

  /** Bytewise lexicographic order, the order of Go's `<=` on strings. */
  predicate Leq(a: Text, b: Text) {
    a == [] || (b != [] && (a[0] < b[0] || (a[0] == b[0] && Leq(a[1..], b[1..]))))
  }

  /** A prefix comes first; else the first byte in which the texts differ decides. */
  lemma {:induction false} LeqIff(a: Text, b: Text)
    ensures Leq(a, b) <==>
      a <= b || exists i :: 0 <= i < |a| && i < |b| && a[..i] == b[..i] && a[i] as int < b[i] as int
  {
    if a == [] || b == [] {
    } else if a[0] != b[0] {
      assert a[..0] == b[..0];
      forall i | 0 <= i < |a| && i < |b| && a[..i] == b[..i]
        ensures i == 0
      {
        if i > 0 {
          SamePrefixSameHead(a, b, i);
        }
      }
    } else {
      LeqIff(a[1..], b[1..]);
      if i :| 0 <= i < |a[1..]| && i < |b[1..]| && a[1..][..i] == b[1..][..i] && a[1..][i] as int < b[1..][i] as int {
        assert a[..i + 1] == [a[0]] + a[1..][..i] == b[..i + 1];
        assert a[i + 1] as int < b[i + 1] as int;
      }
      if i :| 0 <= i < |a| && i < |b| && a[..i] == b[..i] && a[i] as int < b[i] as int {
        assert a[1..][..i - 1] == a[..i][1..] == b[1..][..i - 1];
        assert a[1..][i - 1] as int < b[1..][i - 1] as int;
      }
    }
  }

  lemma SamePrefixSameHead(a: Text, b: Text, i: nat)
    requires 0 < i < |a| && i < |b| && a[..i] == b[..i]
    ensures a[0] == b[0]
  {
    assert a[..i][0] == a[0] && b[..i][0] == b[0];
  }

  lemma LeqReflexive(a: Text)
    ensures Leq(a, a)
  {
  }

  lemma LeqTotal(a: Text, b: Text)
    ensures Leq(a, b) || Leq(b, a)
  {
  }

  lemma {:induction false} LeqAntisymmetric(a: Text, b: Text)
    requires Leq(a, b) && Leq(b, a)
    ensures a == b
  {
    if a != [] {
      LeqAntisymmetric(a[1..], b[1..]);
      assert a == [a[0]] + a[1..] == [b[0]] + b[1..] == b;
    }
  }

  lemma {:induction false} LeqTransitive(a: Text, b: Text, c: Text)
    requires Leq(a, b) && Leq(b, c)
    ensures Leq(a, c)
  {
    if a != [] && a[0] == b[0] == c[0] {
      LeqTransitive(a[1..], b[1..], c[1..]);
    }
  }

  /** A common prefix does not influence the order. */
  lemma {:induction false} LeqCommonPrefix(p: Text, a: Text, b: Text)
    requires Leq(a, b)
    ensures Leq(p + a, p + b)
  {
    if p == [] {
      assert p + a == a && p + b == b;
    } else {
      LeqCommonPrefix(p[1..], a, b);
      assert (p + a)[1..] == p[1..] + a && (p + b)[1..] == p[1..] + b;
    }
  }

  lemma {:induction false} LeqExtension(a: Text, b: Text)
    ensures Leq(a, a + b)
  {
    LeqCommonPrefix(a, [], b);
    assert a + [] == a;
  }

  /** Two texts neither of which is a prefix of the other compare like any of their extensions. */
  lemma {:induction false} LeqDecided(a: Text, b: Text, u: Text, v: Text)
    requires Leq(a, b) && !(a <= b)
    ensures Leq(a + u, b + v)
  {
    assert a != [];
    assert (a + u)[1..] == a[1..] + u && (b + v)[1..] == b[1..] + v;
    if a[0] == b[0] {
      LeqDecided(a[1..], b[1..], u, v);
    }
  }
}
