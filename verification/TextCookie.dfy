/** The integer that `tell` returns and `seek` takes apart. */
module TextCookie {
  import opened Bits

  /** Where to restart, and how much of the decoded text to skip from there. */
  datatype Cookie = Cookie(position: nat, decFlags: nat, bytesToFeed: nat, needEof: bool, charsToSkip: nat)

  /** `_pack_cookie`, for fields of `bits` bits. */
  function Pack(c: Cookie, bits: nat): nat {
    Or(Or(Or(Or(c.position, ShiftLeft(c.decFlags, bits)), ShiftLeft(c.bytesToFeed, 2 * bits)),
          ShiftLeft(c.charsToSkip, 3 * bits)),
       ShiftLeft(if c.needEof then 1 else 0, 4 * bits))
  }

  /** `_unpack_cookie`: whatever lies above the four fields asks for the end of file. */
  function Unpack(bigint: nat, bits: nat): Cookie {
    var w := Pow2(bits);
    var (rest1, position) := (bigint / w, bigint % w);
    var (rest2, decFlags) := (rest1 / w, rest1 % w);
    var (rest3, bytesToFeed) := (rest2 / w, rest2 % w);
    var (needEof, charsToSkip) := (rest3 / w, rest3 % w);
    Cookie(position, decFlags, bytesToFeed, needEof != 0, charsToSkip)
  }

  predicate Fits(c: Cookie, bits: nat) {
    var w := Pow2(bits);
    c.position < w && c.decFlags < w && c.bytesToFeed < w && c.charsToSkip < w
  }

  /** One more digit in base `w` on top of a number below `p`. */
  lemma PushDigit(low: nat, digit: nat, p: nat, w: nat)
    requires low < p && digit < w
    ensures low + digit * p < p * w
  {
    assert digit * p <= (w - 1) * p;
  }

  lemma MultipleSize(k: int, w: nat)
    ensures k >= 1 ==> k * w >= w
    ensures k <= -1 ==> k * w + w <= 0
  {
    if k >= 1 { assert k * w == (k - 1) * w + w; }
    if k <= -1 { assert k * w + w == (k + 1) * w; }
  }

  lemma SplitDigit(low: nat, rest: nat, w: nat)
    requires low < w
    ensures (low + rest * w) / w == rest && (low + rest * w) % w == low
  {
    var n := low + rest * w;
    var q, r := n / w, n % w;
    assert n == q * w + r;
    assert (q - rest) * w == low - r;
    MultipleSize(q - rest, w);
  }

  lemma OrDigit(low: nat, digit: nat, n: nat, bits: nat)
    requires low < Pow2(n) && digit < Pow2(bits)
    ensures Or(low, ShiftLeft(digit, n)) == low + ShiftLeft(digit, n) < Pow2(n + bits)
  {
    OrIsSum(low, digit, n);
    PushDigit(low, digit, Pow2(n), Pow2(bits));
    Pow2Adds(n, bits);
  }

  lemma PackDigits(c: Cookie, bits: nat, eof: nat)
    requires Fits(c, bits) && eof == if c.needEof then 1 else 0
    ensures Pack(c, bits) == c.position + ShiftLeft(c.decFlags, bits) + ShiftLeft(c.bytesToFeed, 2 * bits)
                             + ShiftLeft(c.charsToSkip, 3 * bits) + ShiftLeft(eof, 4 * bits)
  {
    hide ShiftLeft; hide Or; hide Pow2;
    var s1, s2 := ShiftLeft(c.decFlags, bits), ShiftLeft(c.bytesToFeed, 2 * bits);
    var s3 := ShiftLeft(c.charsToSkip, 3 * bits);
    OrDigit(c.position, c.decFlags, bits, bits);
    assert bits + bits == 2 * bits && 2 * bits + bits == 3 * bits && 3 * bits + bits == 4 * bits;
    OrDigit(c.position + s1, c.bytesToFeed, 2 * bits, bits);
    OrDigit(c.position + s1 + s2, c.charsToSkip, 3 * bits, bits);
    OrIsSum(c.position + s1 + s2 + s3, eof, 4 * bits);
  }

  /** The fields are the digits of the packed number in base `2**bits`. */
  lemma PackIsSum(c: Cookie, bits: nat, eof: nat, w: nat) returns (r1: nat, r2: nat, r3: nat)
    requires Fits(c, bits) && w == Pow2(bits) && eof == if c.needEof then 1 else 0
    ensures Pack(c, bits) == c.position + r1 * w
    ensures r1 == c.decFlags + r2 * w && r2 == c.bytesToFeed + r3 * w && r3 == c.charsToSkip + eof * w
  {
    r3 := c.charsToSkip + eof * w;
    r2 := c.bytesToFeed + r3 * w;
    r1 := c.decFlags + r2 * w;
    Pow2Adds(bits, bits);
    Pow2Adds(2 * bits, bits);
    Pow2Adds(3 * bits, bits);
    PackDigits(c, bits, eof);
    Horner(c.position, c.decFlags, c.bytesToFeed, c.charsToSkip, eof, w);
  }

  lemma Horner(a: nat, b: nat, c: nat, d: nat, e: nat, w: nat)
    ensures a + b * w + c * (w * w) + d * (w * w * w) + e * (w * w * w * w)
         == a + (b + (c + (d + e * w) * w) * w) * w
  {
    var x := d + e * w;
    assert x * w == d * w + e * w * w;
    var y := c + x * w;
    assert y * w == c * w + d * w * w + e * w * w * w;
    assert (b + y * w) * w == b * w + c * w * w + d * w * w * w + e * w * w * w * w;
  }

  /** Unpacking gives back what was packed exactly when every field fits. */
  lemma CookieRoundTrip(c: Cookie, bits: nat)
    ensures Unpack(Pack(c, bits), bits) == c <==> Fits(c, bits)
  {
    var w, eof := Pow2(bits), if c.needEof then 1 else 0;
    if Fits(c, bits) {
      var r1, r2, r3 := PackIsSum(c, bits, eof, w);
      SplitDigit(c.position, r1, w);
      SplitDigit(c.decFlags, r2, w);
      SplitDigit(c.bytesToFeed, r3, w);
      SplitDigit(c.charsToSkip, eof, w);
    }
  }

  /** Of the cookies that fit, only that of the start of the file with the decoder reset
      is 0; so `seek` may reset the decoder for a cookie of 0. */
  lemma ZeroCookie(bits: nat)
    ensures Unpack(0, bits) == Cookie(0, 0, 0, false, 0)
    ensures forall c :: Fits(c, bits) ==> (Pack(c, bits) == 0 <==> c == Cookie(0, 0, 0, false, 0))
  {
    var zero := Cookie(0, 0, 0, false, 0);
    SplitDigit(0, 0, Pow2(bits));
    forall c | Fits(c, bits) ensures Pack(c, bits) == 0 <==> c == zero {
      CookieRoundTrip(c, bits);
      assert Pack(zero, bits) == 0 by { OrZero(0); }
    }
  }
}
