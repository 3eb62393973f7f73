/** Base64 with the standard alphabet and padding (section 4 of RFC 4648), as `encoding/base64` implements it. */
module Base64 {
  import opened Bytes

  const PAD: byte := 61
  const LINE_FEED: byte := 10
  const CARRIAGE_RETURN: byte := 13

  type Sextet = x: int | 0 <= x < 64

  /** Table 1 of RFC 4648. */
  function Symbol(x: Sextet): (b: byte)
    ensures b != PAD && b != LINE_FEED && b != CARRIAGE_RETURN
  {
    if x < 26 then (x + 65) as byte
    else if x < 52 then (x + 71) as byte
    else if x < 62 then (x - 4) as byte
    else if x == 62 then 43
    else 47
  }

  /** The value of an alphabet byte, or -1. */
  function SymbolValue(b: byte): (x: int)
    ensures -1 <= x < 64
  {
    if 65 <= b <= 90 then b as int - 65
    else if 97 <= b <= 122 then b as int - 71
    else if 48 <= b <= 57 then b as int + 4
    else if b == 43 then 62
    else if b == 47 then 63
    else -1
  }

  // The four sextets of a three-byte group, and the three bytes of a four-sextet group.

  function First(a: byte): Sextet { a as int / 4 }

  function Second(a: byte, b: byte): Sextet { a as int % 4 * 16 + b as int / 16 }

  function Third(b: byte, c: byte): Sextet { b as int % 16 * 4 + c as int / 64 }

  function Fourth(c: byte): Sextet { c as int % 64 }

  function ByteOne(w: Sextet, x: Sextet): byte { (w * 4 + x / 16) as byte }

  function ByteTwo(x: Sextet, y: Sextet): byte { (x % 16 * 16 + y / 4) as byte }

  function ByteThree(y: Sextet, z: Sextet): byte { (y % 4 * 64 + z) as byte }

  lemma GroupRoundTrip(a: byte, b: byte, c: byte)
    ensures ByteOne(First(a), Second(a, b)) == a
    ensures ByteTwo(Second(a, b), Third(b, c)) == b
    ensures ByteThree(Third(b, c), Fourth(c)) == c
  {
  }

  function Encode(s: Text): Text {
    if s == [] then []
    else if |s| == 1 then
      [Symbol(First(s[0])), Symbol(Second(s[0], 0)), PAD, PAD]
    else if |s| == 2 then
      [Symbol(First(s[0])), Symbol(Second(s[0], s[1])), Symbol(Third(s[1], 0)), PAD]
    else
      [Symbol(First(s[0])), Symbol(Second(s[0], s[1])), Symbol(Third(s[1], s[2])), Symbol(Fourth(s[2]))]
      + Encode(s[3..])
  }

  /** The alphabet: capital and small letters, digits, plus sign and slash. */
  lemma SymbolTable(x: Sextet)
    ensures Symbol(x) as int
         == if x < 26 then "ABCDEFGHIJKLMNOPQRSTUVWXYZ"[x] as int
            else if x < 52 then "abcdefghijklmnopqrstuvwxyz"[x - 26] as int
            else "0123456789+/"[x - 52] as int
  {
  }

  /** A group of up to three bytes, read as 24 bits with absent bytes zero. */
  function Bits(s: Text, i: nat): int
    requires 3 * i < |s|
  {
    s[3 * i] as int * 65536
    + (if 3 * i + 1 < |s| then s[3 * i + 1] as int * 256 else 0)
    + (if 3 * i + 2 < |s| then s[3 * i + 2] as int else 0)
  }

  /**
   * Section 4 of RFC 4648: the 24 bits of each group are cut into four symbols, and a symbol that
   * would stand for absent bytes only is replaced by the byte 61; so the unused bits are zero.
   */
  lemma {:induction false} EncodedGroup(s: Text, i: nat) returns (w: Sextet, x: Sextet, y: Sextet, z: Sextet)
    requires 3 * i < |s|
    ensures |Encode(s)| == (|s| + 2) / 3 * 4
    ensures Encode(s)[4 * i] == Symbol(w) && Encode(s)[4 * i + 1] == Symbol(x)
    ensures Encode(s)[4 * i + 2] == if 3 * i + 1 < |s| then Symbol(y) else 61
    ensures Encode(s)[4 * i + 3] == if 3 * i + 2 < |s| then Symbol(z) else 61
    ensures w * 262144 + x * 4096 + y * 64 + z == Bits(s, i)
  {
    EncodedLength(s);
    if i == 0 {
      w, x, y, z := EncodedFirstGroup(s);
    } else {
      w, x, y, z := EncodedGroup(s[3..], i - 1);
      GroupShift(s, i);
    }
  }

  lemma EncodedFirstGroup(s: Text) returns (w: Sextet, x: Sextet, y: Sextet, z: Sextet)
    requires s != []
    ensures |Encode(s)| >= 4 && Encode(s)[0] == Symbol(w) && Encode(s)[1] == Symbol(x)
    ensures Encode(s)[2] == if 1 < |s| then Symbol(y) else 61
    ensures Encode(s)[3] == if 2 < |s| then Symbol(z) else 61
    ensures w * 262144 + x * 4096 + y * 64 + z == Bits(s, 0)
  {
    var b, c := if |s| > 1 then s[1] else 0, if |s| > 2 then s[2] else 0;
    w, x, y, z := First(s[0]), Second(s[0], b), Third(b, c), Fourth(c);
    FourSextets(s[0], b, c);
  }

  lemma FourSextets(a: byte, b: byte, c: byte)
    ensures First(a) * 262144 + Second(a, b) * 4096 + Third(b, c) * 64 + Fourth(c)
         == a as int * 65536 + b as int * 256 + c as int
  {
  }

  lemma GroupCount(n: nat, i: nat)
    requires 3 * i < n
    ensures i + 1 <= (n + 2) / 3
  {
  }

  /** Later groups are the groups of what is left after the first. */
  lemma SymbolShift(s: Text, i: nat, k: nat)
    requires 0 < i && 3 * i < |s| && k < 4
    ensures 4 * i + k < |Encode(s)| && 4 * (i - 1) + k < |Encode(s[3..])|
    ensures Encode(s)[4 * i + k] == Encode(s[3..])[4 * (i - 1) + k]
  {
    var rest, j := Encode(s[3..]), 4 * (i - 1) + k;
    EncodedLength(s[3..]);
    GroupCount(|s[3..]|, i - 1);
    assert |Encode(s)| == 4 + |rest|;
    assert Encode(s)[4 + j] == rest[j];
  }

  lemma GroupShift(s: Text, i: nat)
    requires 0 < i && 3 * i < |s|
    ensures 4 * i + 3 < |Encode(s)| && 4 * i <= |Encode(s[3..])|
    ensures Encode(s)[4 * i] == Encode(s[3..])[4 * (i - 1)]
    ensures Encode(s)[4 * i + 1] == Encode(s[3..])[4 * (i - 1) + 1]
    ensures Encode(s)[4 * i + 2] == Encode(s[3..])[4 * (i - 1) + 2]
    ensures Encode(s)[4 * i + 3] == Encode(s[3..])[4 * (i - 1) + 3]
    ensures Bits(s, i) == Bits(s[3..], i - 1)
  {
    SymbolShift(s, i, 0);
    SymbolShift(s, i, 1);
    SymbolShift(s, i, 2);
    SymbolShift(s, i, 3);
  }

  lemma {:induction false} EncodedLength(s: Text)
    ensures |Encode(s)| == (|s| + 2) / 3 * 4
  {
    if |s| >= 3 {
      EncodedLength(s[3..]);
      OneMoreGroup(|s|);
    }
  }

  lemma OneMoreGroup(n: nat)
    requires n >= 3
    ensures (n + 2) / 3 == (n - 3 + 2) / 3 + 1
  {
  }

  /** Line breaks are dropped before decoding. */
  function StripLineBreaks(s: Text): Text {
    if s == [] then []
    else (if s[0] == LINE_FEED || s[0] == CARRIAGE_RETURN then [] else [s[0]]) + StripLineBreaks(s[1..])
  }

  /** Decoding stops at the first group that is not well formed; the bytes before it are kept. */
  function DecodeGroups(s: Text): Text {
    if |s| < 4 then []
    else
      var w, x, y, z := SymbolValue(s[0]), SymbolValue(s[1]), SymbolValue(s[2]), SymbolValue(s[3]);
      if w < 0 || x < 0 then []
      else if s[2] == PAD then
        if s[3] == PAD then [ByteOne(w, x)] else []
      else if y < 0 then []
      else if s[3] == PAD then [ByteOne(w, x), ByteTwo(x, y)]
      else if z < 0 then []
      else [ByteOne(w, x), ByteTwo(x, y), ByteThree(y, z)] + DecodeGroups(s[4..])
  }

  function Decode(s: Text): Text {
    DecodeGroups(StripLineBreaks(s))
  }

  lemma {:induction false} NothingToStrip(s: Text)
    requires LINE_FEED !in s && CARRIAGE_RETURN !in s
    ensures StripLineBreaks(s) == s
  {
    if s != [] {
      NothingToStrip(s[1..]);
    }
  }

  lemma {:induction false} EncodeHasNoLineBreaks(s: Text)
    ensures LINE_FEED !in Encode(s) && CARRIAGE_RETURN !in Encode(s)
  {
    if |s| >= 3 {
      EncodeHasNoLineBreaks(s[3..]);
    }
  }

  lemma {:induction false} StripConcat(a: Text, b: Text)
    ensures StripLineBreaks(a + b) == StripLineBreaks(a) + StripLineBreaks(b)
  {
    if a == [] {
      assert a + b == b;
    } else {
      assert (a + b)[1..] == a[1..] + b;
      StripConcat(a[1..], b);
    }
  }

  /** The bytes 10 and 13 may stand anywhere. */
  lemma LineBreaksIgnored(a: Text, lineBreak: byte, b: Text)
    requires lineBreak as int == 10 || lineBreak as int == 13
    ensures Decode(a + [lineBreak] + b) == Decode(a + b)
  {
    StripConcat(a + [lineBreak], b);
    StripConcat(a, [lineBreak]);
    StripConcat(a, b);
    assert StripLineBreaks([lineBreak]) == [] by {
      assert [lineBreak][1..] == [];
    }
    assert StripLineBreaks(a) + [] == StripLineBreaks(a);
  }

  lemma DecodeGroup(w: Sextet, x: Sextet, y: Sextet, z: Sextet, rest: Text)
    ensures DecodeGroups([Symbol(w), Symbol(x), Symbol(y), Symbol(z)] + rest)
         == [ByteOne(w, x), ByteTwo(x, y), ByteThree(y, z)] + DecodeGroups(rest)
    ensures DecodeGroups([Symbol(w), Symbol(x), Symbol(y), PAD]) == [ByteOne(w, x), ByteTwo(x, y)]
    ensures DecodeGroups([Symbol(w), Symbol(x), PAD, PAD]) == [ByteOne(w, x)]
  {
    var s := [Symbol(w), Symbol(x), Symbol(y), Symbol(z)] + rest;
    assert s[4..] == rest;
  }

  lemma DecodeFullGroup(a: byte, b: byte, c: byte, rest: Text)
    ensures DecodeGroups([Symbol(First(a)), Symbol(Second(a, b)), Symbol(Third(b, c)), Symbol(Fourth(c))] + rest)
         == [a, b, c] + DecodeGroups(rest)
    ensures DecodeGroups([Symbol(First(a)), Symbol(Second(a, b)), Symbol(Third(b, c)), PAD]) == [a, b]
    ensures DecodeGroups([Symbol(First(a)), Symbol(Second(a, b)), PAD, PAD]) == [a]
  {
    GroupRoundTrip(a, b, c);
    DecodeGroup(First(a), Second(a, b), Third(b, c), Fourth(c), rest);
  }

  lemma {:induction false} DecodeGroupsEncode(s: Text)
    ensures DecodeGroups(Encode(s)) == s
  {
    if |s| == 1 {
      DecodeFullGroup(s[0], 0, 0, []);
    } else if |s| == 2 {
      DecodeFullGroup(s[0], s[1], 0, []);
    } else if |s| > 2 {
      DecodeGroupsEncode(s[3..]);
      DecodeFullGroup(s[0], s[1], s[2], Encode(s[3..]));
      TakeThree(s);
    }
  }

  lemma TakeThree(s: Text)
    requires |s| >= 3
    ensures s == [s[0], s[1], s[2]] + s[3..]
  {
  }

  /** The bytes that stand for a sextet are those of the alphabet. */
  lemma SymbolValueIff(b: byte)
    ensures SymbolValue(b) >= 0 <==> exists x: Sextet :: Symbol(x) == b
    ensures SymbolValue(b) >= 0 ==> Symbol(SymbolValue(b)) == b
  {
  }

  /** A group that is no good: too short, or with a byte that may not stand where it does. */
  predicate BadGroup(q: Text) {
    || |q| < 4
    || SymbolValue(q[0]) < 0 || SymbolValue(q[1]) < 0
    || (q[2] as int == 61 && q[3] as int != 61)
    || (q[2] as int != 61 && SymbolValue(q[2]) < 0)
    || (q[3] as int != 61 && SymbolValue(q[3]) < 0)
  }

  /** What was decoded before a bad group is kept; the bad group and what follows it are dropped. */
  lemma BadGroupEndsDecoding(s: Text, q: Text)
    requires |s| % 3 == 0 && BadGroup(q) && LINE_FEED !in q && CARRIAGE_RETURN !in q
    ensures Decode(Encode(s) + q) == s
  {
    EncodeHasNoLineBreaks(s);
    NothingToStrip(Encode(s) + q);
    GroupsBeforeBadGroup(s, q);
  }

  lemma {:induction false} GroupsBeforeBadGroup(s: Text, q: Text)
    requires |s| % 3 == 0 && BadGroup(q)
    ensures DecodeGroups(Encode(s) + q) == s
  {
    if s == [] {
      assert Encode(s) + q == q;
    } else {
      var first := [Symbol(First(s[0])), Symbol(Second(s[0], s[1])), Symbol(Third(s[1], s[2])), Symbol(Fourth(s[2]))];
      GroupsBeforeBadGroup(s[3..], q);
      DecodeFullGroup(s[0], s[1], s[2], Encode(s[3..]) + q);
      assert Encode(s) + q == first + (Encode(s[3..]) + q);
      TakeThree(s);
    }
  }

  /** Decoding undoes encoding, for every byte string. */
  lemma RoundTrip(s: Text)
    ensures Decode(Encode(s)) == s
  {
    EncodeHasNoLineBreaks(s);
    NothingToStrip(Encode(s));
    DecodeGroupsEncode(s);
  }
}
