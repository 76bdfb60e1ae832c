/** `_b2cratio` and the guess that `tell` makes from it, with rounded arithmetic. */
module Ratios {
  /** The unit of a double: results are rounded with at most this relative error. */
  const UNIT: real := 1.0 / 9007199254740992.0

  /** Inputs up to this length leave room for two roundings. */
  const LARGEST: nat := 2251799813685248

  predicate Near(x: real, y: real) {
    x * (1.0 - UNIT) <= y <= x * (1.0 + UNIT)
  }

  /** What is asked of the rounding of quotients and products; denormal numbers do not come up. */
  ghost predicate Rounds(round: real -> real) {
    forall x: real :: x >= 0.0 ==> Near(x, round(x))
  }

  /** The bytes a character took in the last chunk. */
  function RatioOf(round: real -> real, bytes: nat, chars: nat): real {
    if chars > 0 then round(bytes as real / chars as real) else 0.0
  }

  /** How many bytes the fast search guesses for `used` characters. */
  function Guess(round: real -> real, ratio: real, used: nat): (n: nat)
    requires ratio >= 0.0 && Rounds(round)
  {
    Positive(round, ratio, used);
    round(ratio * used as real).Floor
  }

  /** The characters take no more than these bytes, but for one rounding. */
  predicate Covers(ratio: real, chars: nat, bytes: nat) {
    ratio * chars as real <= bytes as real * (1.0 + UNIT)
  }

  lemma Scale(a: real, b: real, c: real)
    requires a <= b && c >= 0.0
    ensures a * c <= b * c
  {
  }

  lemma Positive(round: real -> real, ratio: real, used: nat)
    requires ratio >= 0.0 && Rounds(round)
    ensures ratio * used as real >= 0.0 && round(ratio * used as real) >= 0.0
  {
    Scale(0.0, ratio, used as real);
    var x := ratio * used as real;
    assert Near(x, round(x));
    Scale(0.0, x, 1.0 - UNIT);
  }

  lemma Quotient(bytes: real, chars: real)
    requires bytes >= 0.0 && chars > 0.0
    ensures bytes / chars >= 0.0 && bytes / chars * chars == bytes
  {
  }

  lemma RatioOfChunk(round: real -> real, bytes: nat, chars: nat, input: nat)
    requires bytes <= input && Rounds(round)
    ensures RatioOf(round, bytes, chars) >= 0.0 && Covers(RatioOf(round, bytes, chars), chars, input)
  {
    Scale(bytes as real, input as real, 1.0 + UNIT);
    if chars > 0 {
      var c := chars as real;
      var q := bytes as real / c;
      Quotient(bytes as real, c);
      var r := round(q);
      assert Near(q, r);
      Scale(0.0, q, 1.0 - UNIT);
      Scale(r, q * (1.0 + UNIT), c);
      Reorder(q, 1.0 + UNIT, c);
    }
  }

  lemma Reorder(a: real, b: real, c: real)
    ensures a * b * c == a * c * b
  {
  }

  lemma TwoRoundings(bytes: nat)
    requires bytes <= LARGEST
    ensures bytes as real * (1.0 + UNIT) * (1.0 + UNIT) < bytes as real + 1.0
  {
    var b := bytes as real;
    assert b * (1.0 + UNIT) * (1.0 + UNIT) == b + b * (2.0 * UNIT + UNIT * UNIT);
    Scale(b, LARGEST as real, 2.0 * UNIT + UNIT * UNIT);
  }

  /** A ratio that covers its input guesses within it. */
  lemma GuessInRange(round: real -> real, ratio: real, used: nat, chars: nat, bytes: nat)
    requires ratio >= 0.0 && Rounds(round) && used <= chars && bytes <= LARGEST && Covers(ratio, chars, bytes)
    ensures Guess(round, ratio, used) <= bytes
  {
    var x, b := ratio * used as real, bytes as real;
    Positive(round, ratio, used);
    assert Near(x, round(x));
    Grows(ratio, used, chars);
    Scale(x, b * (1.0 + UNIT), 1.0 + UNIT);
    TwoRoundings(bytes);
  }

  lemma Grows(ratio: real, used: nat, chars: nat)
    requires ratio >= 0.0 && used <= chars
    ensures ratio * used as real <= ratio * chars as real
  {
    Scale(used as real, chars as real, ratio);
  }

  /** One character of five bytes. */
  lemma FiveBytesGuess(round: real -> real)
    requires Rounds(round)
    ensures RatioOf(round, 5, 1) >= 0.0 && Guess(round, RatioOf(round, 5, 1), 1) > 1
  {
    var r := round(5.0);
    assert Near(5.0, r) && 5.0 / 1.0 == 5.0;
    assert Near(r * 1.0, round(r * 1.0)) && r * 1.0 == r;
  }
}
