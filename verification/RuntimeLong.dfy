/** `Marshal::Reader::readLongObject`: the runtime packs the 15-bit digits of an integer into
    machine words, negates them in place and sign-extends the result. */
module RuntimeLong {
  import opened Basics
  import opened Bits
  import opened MarshalFormat

  // ----- the digits on the stream -----

  const BITS_PER_DIGIT: nat := 15

  function DigitAt(t: seq<byte>, k: nat): nat
    requires 2 * k + 2 <= |t|
  {
    t[2 * k] as nat + 256 * t[2 * k + 1] as nat
  }

  /** What the first `k` digits stand for. */
  function DigitsValue(t: seq<byte>, k: nat): nat
    requires 2 * k <= |t|
  {
    if k == 0 then 0 else DigitsValue(t, k - 1) + ShiftLeft(DigitAt(t, k - 1), BITS_PER_DIGIT * (k - 1))
  }

  /** `readShort` gives no negative number for the first `k` digits. */
  predicate NoneNegative(t: seq<byte>, k: nat)
    requires 2 * k <= |t|
  {
    forall i :: 0 <= i < k ==> DigitAt(t, i) < 0x8000
  }

  lemma ShiftTwice(a: nat, m: nat, n: nat)
    ensures ShiftLeft(ShiftLeft(a, m), n) == ShiftLeft(a, m + n)
  {
    hide Pow2;
    Pow2Adds(m, n);
    ProductAssoc(a, Pow2(m), Pow2(n));
  }

  lemma ProductAssoc(a: nat, b: nat, c: nat)
    ensures a * b * c == a * (b * c)
  {
  }

  lemma ShiftAdds(a: nat, b: nat, n: nat)
    ensures ShiftLeft(a + b, n) == ShiftLeft(a, n) + ShiftLeft(b, n)
  {
  }

  lemma ShiftDigit(a: nat)
    ensures ShiftLeft(a, BITS_PER_DIGIT) == 0x8000 * a
  {
    assert Pow2(5) == 32 by { assert Pow2(3) == 8; }
    Pow2Adds(5, 5);
    Pow2Adds(10, 5);
  }

  lemma ShiftNothing(a: nat, n: nat)
    ensures ShiftLeft(0, n) == 0 && ShiftLeft(a, 0) == a
  {
  }

  /** The digits after the first one count 2^15-fold. */
  lemma {:induction false} FirstDigit(t: seq<byte>, k: nat)
    requires 0 < k && 2 * k <= |t|
    ensures DigitsValue(t, k) == DigitAt(t, 0) + 0x8000 * DigitsValue(t[2..], k - 1)
  {
    hide ShiftLeft;
    if k == 1 {
      ShiftNothing(DigitAt(t, 0), 0);
    } else {
      var d, n := DigitAt(t, k - 1), BITS_PER_DIGIT * (k - 2);
      FirstDigit(t, k - 1);
      assert DigitAt(t[2..], k - 2) == d;
      ShiftTwice(d, n, BITS_PER_DIGIT);
      ShiftDigit(ShiftLeft(d, n));
    }
  }

  lemma FirstNegative(t: seq<byte>, k: nat)
    requires 0 < k && 2 * k <= |t|
    ensures NoneNegative(t, k) <==> t[1] < 128 && NoneNegative(t[2..], k - 1)
  {
    assert DigitAt(t, 0) < 0x8000 <==> t[1] < 128;
    assert forall i :: 0 <= i < k - 1 ==> DigitAt(t[2..], i) == DigitAt(t, i + 1);
    if DigitAt(t, 0) < 0x8000 && NoneNegative(t[2..], k - 1) {
      forall i | 0 <= i < k ensures DigitAt(t, i) < 0x8000 {
        if i > 0 { assert DigitAt(t[2..], i - 1) == DigitAt(t, i); }
      }
    }
  }

  /** The reader of the round trip reads the same digits from the front. */
  lemma {:induction false} DigitsAreRead(count: nat, t: seq<byte>)
    requires 2 * count <= |t|
    ensures ReadDigits(count, t).Some? <==> NoneNegative(t, count)
    ensures NoneNegative(t, count) ==> ReadDigits(count, t) == Some((DigitsValue(t, count), t[2 * count..]))
  {
    if count > 0 {
      hide ShiftLeft;
      DigitsAreRead(count - 1, t[2..]);
      FirstDigit(t, count);
      FirstNegative(t, count);
      assert t[2..][2 * (count - 1)..] == t[2 * count..];
    }
  }

  // ----- words -----

  predicate AreWords(words: seq<nat>, bits: nat) {
    forall i :: 0 <= i < |words| ==> words[i] < Pow2(bits)
  }

  /** How many bits `n` words have. */
  function Width(n: nat, bits: nat): nat {
    bits * n
  }

  lemma OneMoreWord(n: nat, bits: nat)
    ensures Width(n + 1, bits) == Width(n, bits) + bits && Width(0, bits) == 0
  {
  }

  /** What words stand for, the least significant first. */
  function WordsValue(words: seq<nat>, bits: nat): nat {
    if words == [] then 0
    else
      var i := |words| - 1;
      WordsValue(words[..i], bits) + ShiftLeft(words[i], Width(i, bits))
  }

  /** The sign bit of a word. */
  predicate Negative(word: nat, bits: nat)
    requires bits > 0
  {
    word >= Pow2(bits - 1)
  }

  /** What they stand for in two's complement. */
  function Signed(words: seq<nat>, bits: nat): int
    requires bits > 0
  {
    if words != [] && Negative(words[|words| - 1], bits) then WordsValue(words, bits) - Pow2(Width(|words|, bits))
    else WordsValue(words, bits)
  }

  /** `LargeInt::isValid`: no word more than the number needs. */
  predicate Minimal(words: seq<nat>, bits: nat)
    requires bits > 0
  {
    |words| > 1 ==>
      var high, next := words[|words| - 1], words[|words| - 2];
      && !(high == Pow2(bits) - 1 && Negative(next, bits))
      && !(high == 0 && !Negative(next, bits))
  }

  lemma ValueOfMore(words: seq<nat>, w: nat, bits: nat)
    ensures WordsValue(words + [w], bits) == WordsValue(words, bits) + ShiftLeft(w, Width(|words|, bits))
  {
    hide ShiftLeft; hide Width;
    assert (words + [w])[..|words|] == words;
  }

  lemma BelowNext(low: nat, w: nat, m: nat, n: nat)
    requires low < Pow2(m) && w < Pow2(n)
    ensures low + ShiftLeft(w, m) < Pow2(m + n)
  {
    hide Pow2;
    Pow2Adds(m, n);
    ProductBelow(low, w, Pow2(m), Pow2(n));
  }

  lemma ProductBelow(low: nat, w: nat, a: nat, b: nat)
    requires low < a && w < b
    ensures low + w * a < a * b
  {
    assert w * a <= (b - 1) * a;
  }

  lemma {:induction false} ValueBelow(words: seq<nat>, bits: nat)
    requires AreWords(words, bits)
    ensures WordsValue(words, bits) < Pow2(Width(|words|, bits))
  {
    hide ShiftLeft; hide Width;
    if words != [] {
      var i := |words| - 1;
      ValueBelow(words[..i], bits);
      BelowNext(WordsValue(words[..i], bits), words[i], Width(i, bits), bits);
      OneMoreWord(i, bits);
    }
  }

  /** The full words and `buf` hold the first `k` digits, which stand for `value`. */
  predicate Packed(words: seq<nat>, buf: nat, offset: nat, bits: nat, value: nat, k: nat) {
    && AreWords(words, bits) && buf < Pow2(offset) && offset < bits
    && BITS_PER_DIGIT * k == Width(|words|, bits) + offset
    && WordsValue(words, bits) + ShiftLeft(buf, Width(|words|, bits)) == value
  }

  /** A digit that fits into the word. */
  lemma DigitFits(words: seq<nat>, buf: nat, offset: nat, bits: nat, value: nat, k: nat, d: nat)
    requires Packed(words, buf, offset, bits, value, k) && d < 0x8000 && offset + BITS_PER_DIGIT <= bits
    ensures var word := Or(buf, ShiftLeft(d, offset));
      var value1 := value + ShiftLeft(d, BITS_PER_DIGIT * k);
      && word < Pow2(offset + BITS_PER_DIGIT)
      && (if offset + BITS_PER_DIGIT == bits then Packed(words + [word], 0, 0, bits, value1, k + 1)
          else Packed(words, word, offset + BITS_PER_DIGIT, bits, value1, k + 1))
  {
    hide ShiftLeft; hide Or; hide Pow2; hide Width; hide WordsValue;
    var word, base := Or(buf, ShiftLeft(d, offset)), Width(|words|, bits);
    OrIsSum(buf, d, offset);
    DigitBelow(d);
    BelowNext(buf, d, offset, BITS_PER_DIGIT);
    ShiftAdds(buf, ShiftLeft(d, offset), base);
    ShiftTwice(d, offset, base);
    if offset + BITS_PER_DIGIT == bits {
      ValueOfMore(words, word, bits);
      ShiftNothing(0, Width(|words| + 1, bits));
      OneMoreWord(|words|, bits);
    }
  }

  lemma DigitBelow(d: nat)
    ensures d < 0x8000 <==> d < Pow2(BITS_PER_DIGIT)
  {
    ShiftDigit(1);
  }

  /** `a & ((1 << n) - 1)` */
  function Low(a: nat, n: nat): nat {
    RemainderIsNat(a, Pow2(n));
    a % Pow2(n)
  }

  function ShiftRight(a: nat, n: nat): nat {
    QuotientIsNat(a, Pow2(n));
    a / Pow2(n)
  }

  lemma RemainderIsNat(a: nat, b: nat)
    requires b > 0
    ensures a % b >= 0
  {
  }

  lemma QuotientIsNat(a: nat, b: nat)
    requires b > 0
    ensures a / b >= 0
  {
  }

  /** The two parts of a digit. */
  lemma SplitAt(d: nat, low: nat, high: nat)
    requires d < Pow2(low + high)
    ensures d == Low(d, low) + ShiftLeft(ShiftRight(d, low), low)
    ensures Low(d, low) < Pow2(low) && ShiftRight(d, low) < Pow2(high)
    ensures Low(ShiftRight(d, low), high) == ShiftRight(d, low)
  {
    hide Pow2; hide Low; hide ShiftRight; hide ShiftLeft;
    Pow2Adds(low, high);
    PartsByPowers(d, low, high, Pow2(low), Pow2(high));
  }

  lemma PartsByPowers(d: nat, low: nat, high: nat, a: nat, b: nat)
    requires a == Pow2(low) && b == Pow2(high) && d < a * b
    ensures d == Low(d, low) + ShiftLeft(ShiftRight(d, low), low)
    ensures Low(d, low) < a && ShiftRight(d, low) < b && Low(ShiftRight(d, low), high) == ShiftRight(d, low)
  {
    hide Pow2;
    Parts(d, a, b);
  }

  lemma Parts(d: nat, a: nat, b: nat)
    requires 0 < a && d < a * b
    ensures d == d % a + d / a * a && d % a < a && 0 < b && d / a < b && d / a % b == d / a
  {
    var q, r := d / a, d % a;
    Divided(d, a);
    Quotient(q * a + r, q, a, b);
    SmallRemainder(q, b);
  }

  lemma Divided(d: nat, a: nat)
    requires 0 < a
    ensures d == d % a + d / a * a && d % a < a
  {
  }

  lemma Quotient(d: nat, q: nat, a: nat, b: nat)
    requires d < a * b && q * a <= d
    ensures q < b
  {
    if q >= b { ProductGrows(b, q, a); }
  }

  lemma ProductGrows(b: nat, q: nat, a: nat)
    requires b <= q
    ensures b * a <= q * a
  {
    assert q * a == b * a + (q - b) * a;
  }

  lemma SmallRemainder(q: nat, b: nat)
    requires q < b
    ensures q % b == q
  {
  }

  /** A digit whose upper part goes to the next word. */
  lemma DigitSplits(words: seq<nat>, buf: nat, offset: nat, bits: nat, value: nat, k: nat, d: nat, extra: nat)
    requires Packed(words, buf, offset, bits, value, k) && d < 0x8000 && extra == offset + BITS_PER_DIGIT - bits
    requires bits >= BITS_PER_DIGIT
    ensures extra < BITS_PER_DIGIT
    ensures var taken := BITS_PER_DIGIT - extra;
      var word := Or(buf, ShiftLeft(Low(d, taken), offset));
      && word < Pow2(bits)
      && Packed(words + [word], Low(ShiftRight(d, taken), extra), extra, bits,
                value + ShiftLeft(d, BITS_PER_DIGIT * k), k + 1)
  {
    hide ShiftLeft; hide Or; hide Pow2; hide Width; hide WordsValue; hide Low; hide ShiftRight;
    var taken := BITS_PER_DIGIT - extra;
    var low, high := Low(d, taken), ShiftRight(d, taken);
    var word, base := Or(buf, ShiftLeft(low, offset)), Width(|words|, bits);
    DigitBelow(d);
    SplitAt(d, taken, extra);
    OrIsSum(buf, low, offset);
    BelowNext(buf, low, offset, taken);
    ShiftAdds(buf, ShiftLeft(low, offset), base);
    ShiftTwice(low, offset, base);
    ShiftAdds(low, ShiftLeft(high, taken), offset + base);
    ShiftTwice(high, taken, offset + base);
    ValueOfMore(words, word, bits);
    OneMoreWord(|words|, bits);
  }

  // ----- reading -----

  /** One more digit. */
  method AddDigit(digits: array<nat>, index: nat, offset: nat, buf: nat, d: nat, bits: nat, ghost value: nat,
                  ghost k: nat)
    returns (index1: nat, offset1: nat, buf1: nat)
    requires bits >= BITS_PER_DIGIT && index < digits.Length && d < 0x8000
    requires Packed(digits[..index], buf, offset, bits, value, k)
    modifies digits
    ensures index <= index1 <= digits.Length
    ensures Packed(digits[..index1], buf1, offset1, bits, value + ShiftLeft(d, BITS_PER_DIGIT * k), k + 1)
  {
    ghost var words := digits[..index];
    index1 := index;
    if offset + BITS_PER_DIGIT <= bits {
      DigitFits(words, buf, offset, bits, value, k, d);
      hide Packed; hide Or; hide ShiftLeft;
      buf1, offset1 := Or(buf, ShiftLeft(d, offset)), offset + BITS_PER_DIGIT;
      if offset1 == bits {
        digits[index] := buf1;
        assert digits[..index + 1] == words + [buf1];
        index1, buf1, offset1 := index + 1, 0, 0;
      }
    } else {
      assert offset < bits;
      var extra := offset + BITS_PER_DIGIT - bits;
      DigitSplits(words, buf, offset, bits, value, k, d, extra);
      hide Packed; hide Or; hide ShiftLeft; hide Low; hide ShiftRight;
      var taken := BITS_PER_DIGIT - extra;
      var word := Or(buf, ShiftLeft(Low(d, taken), offset));
      digits[index] := word;
      assert digits[..index + 1] == words + [word];
      index1, buf1, offset1 := index + 1, Low(ShiftRight(d, taken), extra), extra;
    }
  }

  lemma {:induction false} Pow2Grows(m: nat, n: nat)
    requires m <= n
    ensures Pow2(m) <= Pow2(n)
    decreases n - m
  {
    if m < n { Pow2Grows(m + 1, n); }
  }

  /** The word in `buf` never has its sign bit set. */
  lemma BufIsPositive(buf: nat, offset: nat, bits: nat)
    requires buf < Pow2(offset) && offset < bits
    ensures buf < Pow2(bits - 1) && Pow2(bits) == 2 * Pow2(bits - 1) && !Negative(buf, bits)
  {
    Pow2Grows(offset, bits - 1);
  }

  /** The magnitude when all digits are packed. */
  function Magnitude(words: seq<nat>, buf: nat, offset: nat): seq<nat> {
    if offset > 0 && buf != 0 then words + [buf] else words
  }

  lemma MagnitudeIsValue(words: seq<nat>, buf: nat, offset: nat, bits: nat, value: nat, k: nat)
    requires Packed(words, buf, offset, bits, value, k) && value > 0
    ensures var m := Magnitude(words, buf, offset);
      AreWords(m, bits) && WordsValue(m, bits) == value && m != []
  {
    hide ShiftLeft; hide Width; hide Pow2;
    ShiftNothing(0, Width(|words|, bits));
    if offset > 0 && buf != 0 {
      BufIsPositive(buf, offset, bits);
      ValueOfMore(words, buf, bits);
    } else {
      assert buf == 0 by { if offset == 0 { NoBits(buf); } }
    }
  }

  lemma NoBits(buf: nat)
    requires buf < Pow2(0)
    ensures buf == 0
  {
  }

  /** If the last digit is not zero, neither is the last word of the magnitude. */
  lemma TopIsNotZero(words: seq<nat>, buf: nat, offset: nat, bits: nat, t: seq<byte>, k: nat)
    requires 0 < k && 2 * k <= |t| && DigitAt(t, k - 1) > 0 && bits >= BITS_PER_DIGIT
    requires Packed(words, buf, offset, bits, DigitsValue(t, k), k)
    ensures var m := Magnitude(words, buf, offset);
      m != [] && m[|m| - 1] > 0
  {
    hide Width; hide Pow2;
    var d, value := DigitAt(t, k - 1), DigitsValue(t, k);
    assert value >= Pow2(BITS_PER_DIGIT * (k - 1)) by {
      ProductGrows(1, d, Pow2(BITS_PER_DIGIT * (k - 1)));
    }
    MagnitudeIsValue(words, buf, offset, bits, value, k);
    var m := Magnitude(words, buf, offset);
    var last := |m| - 1;
    if m[last] == 0 {
      assert m == words && |words| > 0;
      OneMoreWord(last, bits);
      ValueBelow(m[..last], bits);
      ShiftNothing(0, Width(last, bits));
      Pow2Grows(Width(last, bits), BITS_PER_DIGIT * (k - 1));
      assert false;
    }
  }

  // ----- negation -----

  /** The step of the carry chain, with `p` the weight of the word and `w` that of a word. */
  lemma NegateWord(p: nat, w: nat, low: nat, was: nat, carry: nat, x: nat, digit: nat, carry1: nat)
    requires low + carry * p == p - was && digit + carry1 * w == w - 1 - x + carry
    ensures low + digit * p + carry1 * (p * w) == p * w - (was + x * p)
  {
    assert digit * p + carry1 * (p * w) == (digit + carry1 * w) * p;
    assert (w - 1 - x + carry) * p == p * w - p - x * p + carry * p;
  }

  /** How far the carry chain has come: the words `now` are those of `was` negated. */
  predicate Negated(was: seq<nat>, now: seq<nat>, carry: nat, bits: nat) {
    && |now| == |was|
    && WordsValue(now, bits) + carry * Pow2(Width(|was|, bits)) == Pow2(Width(|was|, bits)) - WordsValue(was, bits)
  }

  /** Only zeros hand the carry on; `w` is the weight of a word. */
  predicate CarryChain(was: seq<nat>, now: seq<nat>, carry: nat, w: nat) {
    && |now| == |was| && (forall i :: 0 <= i < |now| ==> now[i] < w) && carry <= 1
    && (carry == 1 ==> forall i :: 0 <= i < |now| ==> now[i] == 0)
    && (|now| > 1 && now[|now| - 1] == w - 1 ==> was[|was| - 1] == 0 || now[|now| - 2] == 0)
  }

  predicate Negating(was: seq<nat>, now: seq<nat>, carry: nat, bits: nat) {
    Negated(was, now, carry, bits) && CarryChain(was, now, carry, Pow2(bits))
  }

  lemma NegateStep(was: seq<nat>, now: seq<nat>, carry: nat, bits: nat, x: nat, digit: nat, carry1: nat)
    requires Negating(was, now, carry, bits) && bits > 0
    requires x < Pow2(bits) && carry1 <= 1 && digit < Pow2(bits)
    requires digit + carry1 * Pow2(bits) == Pow2(bits) - 1 - x + carry
    ensures Negating(was + [x], now + [digit], carry1, bits)
  {
    assert Pow2(bits) >= 2 by { Pow2Grows(1, bits); }
    hide Pow2; hide Negated; hide CarryChain;
    ChainGrows(was, now, carry, Pow2(bits), x, digit, carry1);
    NegatedGrows(was, now, carry, bits, x, digit, carry1);
  }

  lemma ChainGrows(was: seq<nat>, now: seq<nat>, carry: nat, w: nat, x: nat, digit: nat, carry1: nat)
    requires CarryChain(was, now, carry, w) && w >= 2 && x < w && carry1 <= 1 && digit < w
    requires digit + carry1 * w == w - 1 - x + carry
    ensures CarryChain(was + [x], now + [digit], carry1, w)
  {
    assert carry1 * w == if carry1 == 1 then w else 0;
    if carry1 == 1 { assert x == 0 && carry == 1 && digit == 0; }
  }

  lemma NegatedGrows(was: seq<nat>, now: seq<nat>, carry: nat, bits: nat, x: nat, digit: nat, carry1: nat)
    requires Negated(was, now, carry, bits) && digit + carry1 * Pow2(bits) == Pow2(bits) - 1 - x + carry
    ensures Negated(was + [x], now + [digit], carry1, bits)
  {
    hide Pow2; hide Width; hide WordsValue;
    var n := Width(|was|, bits);
    ValueOfMore(was, x, bits);
    ValueOfMore(now, digit, bits);
    OneMoreWord(|was|, bits);
    Pow2Adds(n, bits);
    NegateWord(Pow2(n), Pow2(bits), WordsValue(now, bits), WordsValue(was, bits), carry, x, digit, carry1);
  }

  /** The words of a number that is not zero become those of its negative. */
  method Negate(digits: array<nat>, count: nat, bits: nat) returns (carry: nat)
    requires count <= digits.Length && AreWords(digits[..count], bits) && bits > 0
    modifies digits
    ensures Negating(old(digits[..count]), digits[..count], carry, bits)
    ensures WordsValue(old(digits[..count]), bits) > 0 ==> carry == 0
  {
    hide Pow2;
    ghost var was := digits[..count];
    carry := 1;
    StartNegating(bits);
    var i := 0;
    while i < count
      invariant i <= count && digits[i..count] == was[i..]
      invariant Negating(was[..i], digits[..i], carry, bits)
    {
      assert digits[i] == digits[i..count][0] == was[i];
      ghost var now, x := digits[..i], was[i];
      var sum := Pow2(bits) - 1 - digits[i] + carry;
      var carry1 := if sum == Pow2(bits) then 1 else 0;
      var digit := if sum == Pow2(bits) then 0 else sum;
      NegateStep(was[..i], now, carry, bits, x, digit, carry1);
      assert digits[i + 1..count] == digits[i..count][1..];
      digits[i], carry := digit, carry1;
      assert digits[..i + 1] == now + [digit] && was[..i + 1] == was[..i] + [x];
      i := i + 1;
    }
    assert was[..count] == was;
    if WordsValue(was, bits) > 0 { CarryOut(was, digits[..count], carry, bits); }
  }

  lemma StartNegating(bits: nat)
    ensures Negating([], [], 1, bits)
  {
    OneMoreWord(0, bits);
  }

  lemma CarryOut(was: seq<nat>, now: seq<nat>, carry: nat, bits: nat)
    requires Negating(was, now, carry, bits) && WordsValue(was, bits) > 0
    ensures carry == 0
  {
    hide Pow2; hide Width; hide WordsValue;
  }

  // ----- sign extension -----

  lemma PositiveResult(m: seq<nat>, bits: nat)
    requires bits > 0 && AreWords(m, bits) && m != []
    ensures var r := if Negative(m[|m| - 1], bits) then m + [0] else m;
      && AreWords(r, bits) && Signed(r, bits) == WordsValue(m, bits)
      && (m[|m| - 1] > 0 ==> Minimal(r, bits))
  {
    hide Width;
    ValueOfMore(m, 0, bits);
    ShiftNothing(0, Width(|m|, bits));
  }

  lemma TopWord(w: nat, p: nat)
    requires w > 0
    ensures (w - 1) * p == p * w - p
  {
  }

  lemma NegativeResult(was: seq<nat>, now: seq<nat>, bits: nat)
    requires bits > 1 && Negating(was, now, 0, bits) && was != [] && AreWords(was, bits)
    ensures var r := if Negative(now[|now| - 1], bits) then now else now + [Pow2(bits) - 1];
      && AreWords(r, bits) && Signed(r, bits) == -(WordsValue(was, bits) as int)
      && (was[|was| - 1] > 0 ==> Minimal(r, bits))
  {
    var n := Width(|now|, bits);
    assert Pow2(bits) == 2 * Pow2(bits - 1) && Pow2(bits - 1) >= 2 by { Pow2Grows(1, bits - 1); }
    hide Width; hide Pow2; hide WordsValue;
    OneMoreWord(|now|, bits);
    Pow2Adds(n, bits);
    ValueOfMore(now, Pow2(bits) - 1, bits);
    TopWord(Pow2(bits), Pow2(n));
  }

  // ----- the method -----

  /** What the method asks of its input: a count whose bits an int32 can hold, that many
      digits, and not zeros alone where the count is not 0. */
  predicate Held(s: seq<byte>) {
    ReadLong(s).Some? &&
    var (n, t) := ReadLong(s).value;
    var k: nat := if n < 0 then -n else n;
    BITS_PER_DIGIT * k <= 0x7FFF_FFFF && 2 * k <= |t| && (n != 0 ==> DigitsValue(t, k) > 0)
  }

  lemma Room(count: nat, bits: nat, index: nat, offset: nat)
    requires bits > 0 && Width(index, bits) + offset <= count
    ensures index + 2 <= (count + bits + 1) / bits + 1
  {
    if (count + bits + 1) / bits < index + 1 { TooLittle(count + bits + 1, bits, index + 1); }
  }

  lemma TooLittle(n: nat, bits: nat, q: nat)
    requires bits > 0 && n / bits < q
    ensures n < bits * q
  {
    Divided(n, bits);
    ProductGrows(n / bits + 1, q, bits);
  }

  lemma NoDigits(t: seq<byte>)
    ensures ReadDigits(0, t) == Some((0, t))
  {
  }

  lemma ZeroWord(bits: nat)
    requires bits > 0
    ensures AreWords([0], bits) && Signed([0], bits) == 0 && Minimal([0], bits)
  {
    ShiftNothing(0, Width(0, bits));
    ValueOfMore([], 0, bits);
  }

  /** The loop over the digits; `ok` is false at a negative one. */
  method PackDigits(t: seq<byte>, count: nat, bits: nat)
    returns (ok: bool, digits: array<nat>, index: nat, buf: nat, offset: nat)
    requires bits >= BITS_PER_DIGIT && 2 * count <= |t|
    ensures ok <==> NoneNegative(t, count)
    ensures fresh(digits) && index + 2 <= digits.Length
    ensures ok ==> Packed(digits[..index], buf, offset, bits, DigitsValue(t, count), count)
  {
    hide Pow2; hide Width; hide ShiftLeft; hide DigitAt; hide WordsValue;
    var bitsConsumed, numBits := 0, count * BITS_PER_DIGIT;
    digits := new nat[(numBits + bits + 1) / bits + 1];
    index, buf, offset := 0, 0, 0;
    ok := true;
    ghost var j := 0;
    StartPacking(t, bits);
    Room(numBits, bits, 0, 0);
    while bitsConsumed < numBits
      invariant j <= count && bitsConsumed == j * BITS_PER_DIGIT && NoneNegative(t, j)
      invariant index + 2 <= digits.Length
      invariant Packed(digits[..index], buf, offset, bits, DigitsValue(t, j), j)
    {
      var digit := DigitAt(t, bitsConsumed / BITS_PER_DIGIT);
      if digit >= 0x8000 {
        ok := false;
        return;
      }
      index, offset, buf := AddDigit(digits, index, offset, buf, digit, bits, DigitsValue(t, j), j);
      bitsConsumed, j := bitsConsumed + BITS_PER_DIGIT, j + 1;
      Room(numBits, bits, index, offset);
    }
  }

  lemma StartPacking(t: seq<byte>, bits: nat)
    requires bits > 0
    ensures Packed([], 0, 0, bits, DigitsValue(t, 0), 0)
  {
    OneMoreWord(0, bits);
    ShiftNothing(0, Width(0, bits));
  }

  /** The end of the method: the last word, the sign and the sign extension. */
  method FinishWords(digits: array<nat>, count: nat, buf: nat, offset: nat, positive: bool, bits: nat,
                     ghost value: nat, ghost k: nat) returns (words: seq<nat>)
    requires bits >= BITS_PER_DIGIT && count + 2 <= digits.Length && value > 0
    requires Packed(digits[..count], buf, offset, bits, value, k)
    modifies digits
    ensures AreWords(words, bits) && Signed(words, bits) == if positive then value as int else -(value as int)
    ensures var m := Magnitude(old(digits[..count]), buf, offset);
      m != [] && (m[|m| - 1] > 0 ==> Minimal(words, bits))
  {
    hide Pow2; hide Width; hide ShiftLeft; hide WordsValue; hide Signed; hide Minimal;
    var index := count;
    ghost var m := Magnitude(digits[..count], buf, offset);
    MagnitudeIsValue(digits[..count], buf, offset, bits, value, k);
    if offset > 0 && buf != 0 {
      BufIsPositive(buf, offset, bits);
      digits[index] := buf;
      index := index + 1;
      assert digits[..index] == m;
    } else if positive && Negative(digits[index - 1], bits) {
      digits[index] := 0;
      index := index + 1;
      assert digits[..index] == m + [0];
    }
    if positive {
      PositiveResult(m, bits);
    } else {
      hide Packed; hide Negating; hide Magnitude;
      var carry := Negate(digits, index, bits);
      ghost var now := digits[..index];
      NegativeResult(m, now, bits);
      NegatedLength(m, now, bits);
      if !Negative(digits[index - 1], bits) {
        digits[index] := Pow2(bits) - 1;
        index := index + 1;
        assert digits[..index] == now + [Pow2(bits) - 1];
      }
    }
    words := digits[..index];
  }

  lemma NegatedLength(was: seq<nat>, now: seq<nat>, bits: nat)
    requires Negating(was, now, 0, bits)
    ensures |now| == |was|
  {
  }

  /** `readLongObject` with words of `bits` bits, which are 64 in the source: the words of the
      integer in two's complement and the bytes after it, or None for a negative digit. The
      integer is the one the round trip reads, and if its last digit is not zero, as the
      writer has it, no word is redundant. */
  method ReadLongObject(s: seq<byte>, bits: nat) returns (r: Option<(seq<nat>, seq<byte>)>)
    requires bits >= BITS_PER_DIGIT && Held(s)
    ensures r.Some? <==> ReadBig(s).Some?
    ensures r.Some? ==>
      AreWords(r.value.0, bits) && ReadBig(s) == Some((Signed(r.value.0, bits), r.value.1))
    ensures r.Some? ==> var (n, t) := ReadLong(s).value;
      n == 0 || DigitAt(t, (if n < 0 then -n else n) - 1) > 0 ==> Minimal(r.value.0, bits)
  {
    hide Pow2; hide Width; hide ShiftLeft; hide ReadDigits; hide DigitAt; hide Packed; hide Magnitude;
    hide NoneNegative; hide Signed; hide Minimal; hide AreWords;
    var (n, t) := ReadLong(s).value;
    var k: nat := if n < 0 then -n else n;
    DigitsAreRead(k, t);
    if n == 0 {
      ZeroWord(bits);
      NoDigits(t);
      return Some(([0], t));
    }
    var ok, digits, index, buf, offset := PackDigits(t, k, bits);
    if !ok {
      return None;
    }
    if DigitAt(t, k - 1) > 0 { TopIsNotZero(digits[..index], buf, offset, bits, t, k); }
    var words := FinishWords(digits, index, buf, offset, n > 0, bits, DigitsValue(t, k), k);
    r := Some((words, t[2 * k..]));
  }
}
