/** What `sort.Strings` produces: the one sorted arrangement of a list of strings. */
module Sorting {
  import opened Bytes

  ghost predicate Sorted(s: seq<Text>) {
    forall i, j {:trigger Leq(s[i], s[j])} :: 0 <= i < j < |s| ==> Leq(s[i], s[j])
  }

  function Insert(x: Text, s: seq<Text>): seq<Text> {
    if s == [] then [x]
    else if Leq(x, s[0]) then [x] + s
    else [s[0]] + Insert(x, s[1..])
  }

  function Sort(s: seq<Text>): seq<Text> {
    if s == [] then [] else Insert(s[0], Sort(s[1..]))
  }

  ghost predicate Below(x: Text, s: seq<Text>) {
    forall i {:trigger Leq(x, s[i])} :: 0 <= i < |s| ==> Leq(x, s[i])
  }

  lemma SortedCons(x: Text, s: seq<Text>)
    requires Sorted(s) && Below(x, s)
    ensures Sorted([x] + s)
  {
    var all := [x] + s;
    forall i, j | 0 <= i < j < |all|
      ensures Leq(all[i], all[j])
    {
      if i == 0 {
        assert Leq(x, s[j - 1]);
      } else {
        assert Leq(s[i - 1], s[j - 1]);
      }
    }
  }

  lemma SortedUncons(s: seq<Text>)
    requires s != [] && Sorted(s)
    ensures Sorted(s[1..]) && Below(s[0], s[1..])
  {
    var rest := s[1..];
    forall i, j | 0 <= i < j < |rest|
      ensures Leq(rest[i], rest[j])
    {
      assert Leq(s[i + 1], s[j + 1]);
    }
    forall i | 0 <= i < |rest|
      ensures Leq(s[0], rest[i])
    {
      assert Leq(s[0], s[i + 1]);
    }
  }

  /** Sorted lists, all of one below all of the other, make a sorted list. */
  lemma SortedConcat(s: seq<Text>, t: seq<Text>)
    requires Sorted(s) && Sorted(t)
    requires forall x :: x in s ==> Below(x, t)
    ensures Sorted(s + t)
  {
    var all := s + t;
    forall i, j | 0 <= i < j < |all|
      ensures Leq(all[i], all[j])
    {
      if j < |s| {
        assert Leq(s[i], s[j]);
      } else if i < |s| {
        assert Below(s[i], t);
        assert Leq(s[i], t[j - |s|]);
      } else {
        assert Leq(t[i - |s|], t[j - |s|]);
      }
    }
  }

  lemma {:induction false} InsertMultiset(x: Text, s: seq<Text>)
    ensures multiset(Insert(x, s)) == multiset(s) + multiset{x}
  {
    if s != [] && !Leq(x, s[0]) {
      InsertMultiset(x, s[1..]);
      assert s == [s[0]] + s[1..];
    }
  }

  lemma {:induction false} InsertBelow(x: Text, s: seq<Text>, y: Text)
    requires Below(y, s) && Leq(y, x)
    ensures Below(y, Insert(x, s))
  {
    var r := Insert(x, s);
    forall i | 0 <= i < |r|
      ensures Leq(y, r[i])
    {
      InsertMultiset(x, s);
      assert r[i] in multiset(r);
      if r[i] != x {
        assert r[i] in multiset(s);
        var j :| 0 <= j < |s| && s[j] == r[i];
        assert Leq(y, s[j]);
      }
    }
  }

  lemma {:induction false} InsertSorted(x: Text, s: seq<Text>)
    requires Sorted(s)
    ensures Sorted(Insert(x, s))
  {
    if s == [] {
    } else if Leq(x, s[0]) {
      SortedUncons(s);
      forall i | 0 <= i < |s|
        ensures Leq(x, s[i])
      {
        if i > 0 {
          assert Leq(s[0], s[1..][i - 1]);
          LeqTransitive(x, s[0], s[i]);
        }
      }
      SortedCons(x, s);
    } else {
      LeqTotal(x, s[0]);
      SortedUncons(s);
      InsertSorted(x, s[1..]);
      InsertBelow(x, s[1..], s[0]);
      SortedCons(s[0], Insert(x, s[1..]));
    }
  }

  lemma {:induction false} SortIsSorted(s: seq<Text>)
    ensures Sorted(Sort(s)) && multiset(Sort(s)) == multiset(s)
  {
    if s != [] {
      SortIsSorted(s[1..]);
      InsertSorted(s[0], Sort(s[1..]));
      InsertMultiset(s[0], Sort(s[1..]));
      assert s == [s[0]] + s[1..];
    }
  }

  /** Sorting keeps the elements. */
  lemma SortElements(s: seq<Text>)
    ensures forall x :: x in Sort(s) <==> x in s
  {
    SortIsSorted(s);
    forall x
      ensures x in Sort(s) <==> x in s
    {
      assert x in s <==> x in multiset(s);
      assert x in Sort(s) <==> x in multiset(Sort(s));
    }
  }

  lemma SmallestFirst(s: seq<Text>, x: Text)
    requires Sorted(s) && x in multiset(s)
    ensures s != [] && Leq(s[0], x)
  {
    var i :| 0 <= i < |s| && s[i] == x;
    if i == 0 {
      LeqReflexive(x);
    } else {
      assert Leq(s[0], s[i]);
    }
  }

  lemma TailMultiset(s: seq<Text>)
    requires s != []
    ensures multiset(s[1..]) == multiset(s) - multiset{s[0]}
  {
    assert s == [s[0]] + s[1..];
  }

  /** A list has exactly one sorted arrangement. */
  lemma {:induction false} SortedUnique(s: seq<Text>, t: seq<Text>)
    requires Sorted(s) && Sorted(t) && multiset(s) == multiset(t)
    ensures s == t
  {
    if s == [] {
      assert |multiset(t)| == |t|;
    } else {
      assert s[0] in multiset(s);
      SmallestFirst(t, s[0]);
      assert t[0] in multiset(t);
      SmallestFirst(s, t[0]);
      LeqAntisymmetric(s[0], t[0]);
      TailMultiset(s);
      TailMultiset(t);
      SortedUncons(s);
      SortedUncons(t);
      SortedUnique(s[1..], t[1..]);
      assert s == [s[0]] + s[1..];
    }
  }

  /** Sorting depends on nothing but the multiset of elements. */
  lemma SortDependsOnMultiset(s: seq<Text>, t: seq<Text>)
    ensures Sort(s) == Sort(t) <==> multiset(s) == multiset(t)
  {
    SortIsSorted(s);
    SortIsSorted(t);
    if multiset(s) == multiset(t) {
      SortedUnique(Sort(s), Sort(t));
    }
  }
}
