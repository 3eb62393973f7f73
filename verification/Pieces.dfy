/**
 * The pieces of a query, told by position alone: what lies between the bytes 38 (`&`) and 59 (`;`).
 * What `SortQueryString` promises is stated with them.
 */
module Pieces {
  import opened Bytes
  import opened Sequences

  /** `s` is the piece of `q` that starts at `i`: not empty, and reaching from separator to separator. */
  predicate PieceAt(q: Text, i: int, s: Text) {
    && s != [] && 0 <= i && i + |s| <= |q|
    && (forall k :: 0 <= k < |s| ==> s[k] == q[i + k] && s[k] != 38 && s[k] != 59)
    && (i == 0 || q[i - 1] == 38 || q[i - 1] == 59)
    && (i + |s| == |q| || q[i + |s|] == 38 || q[i + |s|] == 59)
  }

  /** Where `s` is a piece of `q`. */
  function Places(q: Text, s: Text): set<int> {
    set i | 0 <= i < |q| && PieceAt(q, i, s)
  }

  predicate Separates(b: byte) {
    b == 38 || b == 59
  }

  predicate Unseparated(s: Text) {
    forall k :: 0 <= k < |s| ==> !Separates(s[k])
  }

  /** The first separator cuts off the piece in front of it, if there is one. */
  lemma PieceAfterCut(head: Text, b: byte, rest: Text, i: int, s: Text)
    requires Unseparated(head) && Separates(b)
    ensures PieceAt(head + [b] + rest, i, s)
       <==> (i == 0 && s == head && s != []) || PieceAt(rest, i - |head| - 1, s)
  {
    var q := head + [b] + rest;
    assert forall k :: 0 <= k < |head| ==> q[k] == head[k];
    assert q[|head|] == b;
    assert forall k :: |head| < k < |q| ==> q[k] == rest[k - |head| - 1];
    if PieceAt(q, i, s) {
      assert forall k :: 0 <= k < |s| ==> s[k] == q[i + k];
      if i <= |head| {
        PieceWithin(q, head, i, s);
      } else {
        assert rest[i - |head| - 1..i - |head| - 1 + |s|] == s;
      }
    }
    if i == 0 && s == head && s != [] {
      assert q[0..|s|] == s;
    }
    if PieceAt(rest, i - |head| - 1, s) {
      assert q[i..i + |s|] == s;
    }
  }

  /** A piece that starts no later than the first separator is all that precedes it. */
  lemma PieceWithin(q: Text, head: Text, i: int, s: Text)
    requires |head| < |q| && (forall k :: 0 <= k < |head| ==> q[k] == head[k]) && Separates(q[|head|])
    requires Unseparated(head) && i <= |head| && PieceAt(q, i, s)
    ensures i == 0 && s == head
  {
    if |head| < i + |s| {
      PieceUnseparated(q, i, s, |head|);
    }
    PieceBounds(q, i, s);
    assert forall k :: 0 <= k < |head| ==> !Separates(q[k]);
  }

  /** A piece has separators, or the ends, on both sides. */
  lemma PieceBounds(q: Text, i: int, s: Text)
    requires PieceAt(q, i, s)
    ensures i > 0 ==> Separates(q[i - 1])
    ensures i + |s| < |q| ==> Separates(q[i + |s|])
  {
  }

  /** No separator stands inside a piece. */
  lemma PieceUnseparated(q: Text, i: int, s: Text, k: int)
    requires PieceAt(q, i, s) && i <= k < i + |s|
    ensures !Separates(q[k])
  {
    assert s[k - i] == q[k];
    assert s[k - i] in s;
  }

  /** Of two pieces the later one lies behind the first separator, and the earlier one too unless it is in front. */
  lemma TwoPieces(q: Text, head: Text, b: byte, rest: Text, i: int, s: Text, j: int, t: Text) returns (k: int, l: int)
    requires q == head + [b] + rest && Unseparated(head) && Separates(b)
    requires PieceAt(q, i, s) && PieceAt(q, j, t) && i < j
    ensures k < l && PieceAt(rest, l, t)
    ensures PieceAt(rest, k, s) || (s == head && s != [])
  {
    PieceAfterCut(head, b, rest, i, s);
    PieceAfterCut(head, b, rest, j, t);
    PieceStart(q, i, s);
    k, l := i - |head| - 1, j - |head| - 1;
  }

  lemma PieceStart(q: Text, i: int, s: Text)
    requires PieceAt(q, i, s)
    ensures i >= 0
  {
  }

  lemma PieceUncut(q: Text, i: int, s: Text)
    requires Unseparated(q)
    ensures PieceAt(q, i, s) <==> i == 0 && s == q && q != []
  {
    if PieceAt(q, i, s) {
      assert i == 0;
      assert |s| == |q|;
    }
    assert q[0..|q|] == q;
  }

  function Shifted(places: set<int>, k: int): set<int> {
    set i | i in places :: i + k
  }

  lemma InShifted(places: set<int>, k: int, i: int)
    ensures i in Shifted(places, k) <==> i - k in places
  {
    assert i - k in places ==> i - k + k in Shifted(places, k);
  }

  lemma {:induction false} ShiftedSize(places: set<int>, k: int)
    ensures |Shifted(places, k)| == |places|
  {
    if places == {} {
      assert Shifted(places, k) == {};
    } else {
      var i := Element(places);
      var rest := places - {i};
      ShiftedSize(rest, k);
      forall x
        ensures x in Shifted(places, k) <==> x in Shifted(rest, k) + {i + k}
      {
        InShifted(places, k, x);
        InShifted(rest, k, x);
      }
      assert Shifted(places, k) == Shifted(rest, k) + {i + k};
      InShifted(rest, k, i + k);
    }
  }

  /** How often `s` is a piece, counted over the first separator. */
  lemma PlacesAfterCut(head: Text, b: byte, rest: Text, s: Text)
    requires Unseparated(head) && Separates(b)
    ensures |Places(head + [b] + rest, s)| == (if s == head && s != [] then 1 else 0) + |Places(rest, s)|
  {
    var q, k := head + [b] + rest, |head| + 1;
    var first: set<int> := if s == head && s != [] then {0} else {};
    forall i
      ensures i in Places(q, s) <==> i in first + Shifted(Places(rest, s), k)
    {
      PieceAfterCut(head, b, rest, i, s);
      InShifted(Places(rest, s), k, i);
    }
    assert Places(q, s) == first + Shifted(Places(rest, s), k);
    ShiftedSize(Places(rest, s), k);
    InShifted(Places(rest, s), k, 0);
  }

  lemma PlacesUncut(q: Text, s: Text)
    requires Unseparated(q)
    ensures |Places(q, s)| == if s == q && s != [] then 1 else 0
  {
    forall i
      ensures i in Places(q, s) <==> i == 0 && s == q && q != []
    {
      PieceUncut(q, i, s);
    }
    assert Places(q, s) == if s == q && s != [] then {0} else {};
  }
}
