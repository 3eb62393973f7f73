/**
 * `GetRandomName` (core/test_tools.go): letters by rejection sampling. Each 63-bit draw yields
 * ten 6-bit digits, least significant first; digits below 52 become letters, filled in from the
 * end of the buffer.
 */
module RandomName {
  import opened Bytes

  const LETTER_COUNT := 52

  /** The letters a-z, then A-Z. */
  function Letter(d: nat): byte
    requires d < LETTER_COUNT
  {
    if d < 26 then (97 + d) as byte else (65 + d - 26) as byte
  }

  /** The letters in the order of the alphabet, small before capital ones. */
  lemma LetterTable(d: nat)
    requires d < LETTER_COUNT
    ensures Letter(d) as int
         == if d < 26 then "abcdefghijklmnopqrstuvwxyz"[d] as int else "ABCDEFGHIJKLMNOPQRSTUVWXYZ"[d - 26] as int
    ensures LETTER_COUNT == 52
  {
  }

  const DIGITS_PER_DRAW := 10

  /** `x` shifted right by `k` digits of six bits. */
  function Shifted(x: nat, k: nat): nat {
    if k == 0 then x else Shifted(x, k - 1) / 64
  }

  /** Digit `j` of the stream that the draws make up. */
  function Digit(draws: seq<nat>, j: nat): nat
    requires j < DIGITS_PER_DRAW * |draws|
  {
    Shifted(draws[j / DIGITS_PER_DRAW], j % DIGITS_PER_DRAW) % 64
  }

  /** Each draw gives ten digits to the stream, its lowest first. */
  lemma DigitOfDraw(draws: seq<nat>, a: nat, b: nat)
    requires a < |draws| && b < 10
    ensures DIGITS_PER_DRAW == 10 && 10 * a + b < 10 * |draws|
    ensures Digit(draws, 10 * a + b) == Shifted(draws[a], b) % 64
  {
    assert (10 * a + b) / 10 == a && (10 * a + b) % 10 == b;
  }

  /** The first `k` digits of one draw. */
  function DrawDigits(x: nat, k: nat): seq<nat> {
    if k == 0 then [] else DrawDigits(x, k - 1) + [Shifted(x, k - 1) % 64]
  }

  /** `rest` with the digits put back below it, the last one first. */
  function PutBack(rest: nat, digits: seq<nat>): nat
    decreases |digits|
  {
    if digits == [] then rest
    else PutBack(64 * rest + digits[|digits| - 1], digits[..|digits| - 1])
  }

  /** The digits taken off and what is left over make up the draw again: none is lost or read twice. */
  lemma {:induction false} DigitsMakeUpDraw(x: nat, k: nat)
    ensures PutBack(Shifted(x, k), DrawDigits(x, k)) == x
  {
    if k > 0 {
      DigitsMakeUpDraw(x, k - 1);
      var front, rest := DrawDigits(x, k - 1), Shifted(x, k - 1);
      assert (front + [rest % 64])[..|front|] == front;
      assert 64 * (rest / 64) + rest % 64 == rest;
    }
  }

  /** The digits below 52 among the first `count` of the stream. */
  function Accepted(draws: seq<nat>, count: nat): seq<nat>
    requires count <= DIGITS_PER_DRAW * |draws|
  {
    if count == 0 then []
    else
      var d := Digit(draws, count - 1);
      Accepted(draws, count - 1) + if d < LETTER_COUNT then [d] else []
  }

  predicate AreLetters(digits: seq<nat>) {
    forall i :: 0 <= i < |digits| ==> digits[i] < LETTER_COUNT
  }

  lemma {:induction false} AcceptedAreLetters(draws: seq<nat>, count: nat)
    requires count <= DIGITS_PER_DRAW * |draws|
    ensures AreLetters(Accepted(draws, count))
  {
    if count > 0 {
      AcceptedAreLetters(draws, count - 1);
    }
  }

  lemma {:induction false} AcceptedGrows(draws: seq<nat>, count: nat, more: nat)
    requires count <= more <= DIGITS_PER_DRAW * |draws|
    ensures Accepted(draws, count) <= Accepted(draws, more)
  {
    if count < more {
      AcceptedGrows(draws, count, more - 1);
    }
  }

  /** `name`, read backwards, spells the first accepted digits. */
  ghost predicate SpellsBackwards(name: Text, digits: seq<nat>)
    requires AreLetters(digits)
  {
    |name| <= |digits| && forall i :: 0 <= i < |name| ==> name[i] == Letter(digits[|name| - 1 - i])
  }

  /** The digit at hand: `count` digits of `taken` draws are used up, `remain` are left in `cache`. */
  ghost predicate AtDigit(draws: seq<nat>, taken: nat, cache: nat, remain: nat, count: nat) {
    && 0 < taken <= |draws| && remain <= DIGITS_PER_DRAW
    && count == DIGITS_PER_DRAW * taken - remain
    && cache == Shifted(draws[taken - 1], DIGITS_PER_DRAW - remain)
  }

  lemma TakeDigit(draws: seq<nat>, taken: nat, cache: nat, remain: nat, count: nat)
    requires AtDigit(draws, taken, cache, remain, count) && remain > 0
    ensures count < DIGITS_PER_DRAW * |draws| && cache % 64 == Digit(draws, count)
    ensures AtDigit(draws, taken, cache / 64, remain - 1, count + 1)
  {
    assert count / DIGITS_PER_DRAW == taken - 1 && count % DIGITS_PER_DRAW == DIGITS_PER_DRAW - remain;
  }

  /** All the digits that can be used, in the order in which they come. */
  function Usable(draws: seq<nat>): seq<nat> {
    Accepted(draws, DIGITS_PER_DRAW * |draws|)
  }

  /** While letters are missing there is another digit; if usable it is the next accepted one. */
  lemma AcceptStep(draws: seq<nat>, count: nat)
    requires count <= DIGITS_PER_DRAW * |draws| && |Accepted(draws, count)| < |Usable(draws)|
    ensures count < DIGITS_PER_DRAW * |draws|
    ensures var d, found := Digit(draws, count), |Accepted(draws, count)|;
            && (d >= LETTER_COUNT ==> |Accepted(draws, count + 1)| == found)
            && (d < LETTER_COUNT ==> |Accepted(draws, count + 1)| == found + 1 && Usable(draws)[found] == d)
  {
    AcceptedGrows(draws, count + 1, DIGITS_PER_DRAW * |draws|);
    var now := Accepted(draws, count + 1);
    assert Digit(draws, count) < LETTER_COUNT ==> now[|Accepted(draws, count)|] == Digit(draws, count);
  }

  /** Besides, `found` of the digits used up were below 52. */
  ghost predicate Reading(draws: seq<nat>, taken: nat, cache: nat, remain: nat, count: nat, found: nat) {
    && AtDigit(draws, taken, cache, remain, count)
    && |Accepted(draws, count)| == found
  }

  /** Lines 72-76 and 80: a used-up draw is replaced by the next one, and its lowest digit is taken off. */
  method NextDigit(draws: seq<nat>, taken: nat, cache: nat, remain: nat, ghost count: nat, ghost found: nat)
    returns (idx: nat, taken': nat, cache': nat, remain': nat)
    requires Reading(draws, taken, cache, remain, count, found) && found < |Usable(draws)|
    ensures idx < LETTER_COUNT ==> idx == Usable(draws)[found]
    ensures Reading(draws, taken', cache', remain', count + 1, if idx < LETTER_COUNT then found + 1 else found)
    ensures count < DIGITS_PER_DRAW * |draws|
  {
    AcceptStep(draws, count);
    taken', cache', remain' := taken, cache, remain;
    if remain == 0 {
      cache', remain' := draws[taken], DIGITS_PER_DRAW;
      taken' := taken + 1;
    }
    TakeDigit(draws, taken', cache', remain', count);
    idx := cache' % 64;
    cache' := cache' / 64;
    remain' := remain' - 1;
  }

  /**
   * GetRandomName, reading the outputs `draws` of the random source one after the other. It ends
   * as soon as they hold `n` usable digits.
   */
  method GetRandomName(n: nat, draws: seq<nat>) returns (name: Text)
    requires draws != [] && |Usable(draws)| >= n
    ensures |name| == n
    ensures AreLetters(Usable(draws)) && SpellsBackwards(name, Usable(draws))
  {
    AcceptedAreLetters(draws, DIGITS_PER_DRAW * |draws|);
    ghost var digits := Usable(draws);
    var b := new byte[n];
    var taken := 1;
    var cache, remain: nat := draws[0], DIGITS_PER_DRAW;
    var i := n - 1;
    ghost var count := 0;
    while i >= 0
      invariant -1 <= i < n
      invariant Reading(draws, taken, cache, remain, count, n - 1 - i)
      invariant forall k :: i < k < n ==> b[k] == Letter(digits[n - 1 - k])
      decreases DIGITS_PER_DRAW * |draws| - count
    {
      var idx;
      idx, taken, cache, remain := NextDigit(draws, taken, cache, remain, count, n - 1 - i);
      if idx < LETTER_COUNT {
        b[i] := Letter(idx);
        i := i - 1;
      }
      count := count + 1;
    }
    name := b[..];
  }
}
