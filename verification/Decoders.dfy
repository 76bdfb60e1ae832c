/** Incremental byte decoders: what `decode`, `getstate`, `setstate` and `reset`
    of an incremental decoder promise the text layer. */
module Decoders {
  import opened Basics

  /** What `getstate` returns: the bytes the decoder holds back, and its flags. */
  datatype State = State(buf: seq<byte>, flags: nat)

  const RESET := State([], 0)

  /** A decoder by its answer to one more byte and to the end of the input. */
  datatype Decoder = Decoder(step: (State, byte) -> (State, string), finish: State -> (State, string))

  function Feed(d: Decoder, s: State, input: seq<byte>): (State, string)
    decreases |input|
  {
    if input == [] then (s, "")
    else
      var (s1, out1) := d.step(s, input[0]);
      var (s2, out2) := Feed(d, s1, input[1..]);
      (s2, out1 + out2)
  }

  /** `decode(input, final)` from state `s`. */
  function Decode(d: Decoder, s: State, input: seq<byte>, final: bool): (State, string) {
    var (s1, out1) := Feed(d, s, input);
    if final then
      var (s2, out2) := d.finish(s1);
      (s2, out1 + out2)
    else (s1, out1)
  }

  /** `s` is what the empty state with its flags becomes after its own held bytes,
      which give no output. */
  ghost predicate Canonical(d: Decoder, s: State) {
    Feed(d, State([], s.flags), s.buf) == (s, "")
  }

  ghost predicate IsSuffix(a: seq<byte>, b: seq<byte>) {
    |a| <= |b| && b[|b| - |a|..] == a
  }

  ghost predicate StepLaw(d: Decoder, s: State, b: byte) {
    var s' := d.step(s, b).0;
    Canonical(d, s') && IsSuffix(s'.buf, s.buf + [b])
  }

  /** After the end of the input the decoder has nothing more to say. */
  ghost predicate FinishLaw(d: Decoder, s: State) {
    var s' := d.finish(s).0;
    && Canonical(d, s') && IsSuffix(s'.buf, s.buf)
    && d.finish(s') == (s', "")
  }

  ghost predicate Lawful(d: Decoder) {
    && d.finish(RESET).1 == ""
    && (forall s: State, b: byte :: Canonical(d, s) ==> StepLaw(d, s, b))
    && (forall s: State {:trigger FinishLaw(d, s)} :: Canonical(d, s) ==> FinishLaw(d, s))
  }

  lemma {:induction false} FeedConcat(d: Decoder, s: State, a: seq<byte>, b: seq<byte>)
    ensures Feed(d, s, a + b).0 == Feed(d, Feed(d, s, a).0, b).0
    ensures Feed(d, s, a + b).1 == Feed(d, s, a).1 + Feed(d, Feed(d, s, a).0, b).1
    decreases |a|
  {
    if a == [] {
      assert a + b == b;
    } else {
      var (s1, out1) := d.step(s, a[0]);
      assert (a + b)[1..] == a[1..] + b;
      FeedConcat(d, s1, a[1..], b);
      assert Feed(d, s, a + b).1 == out1 + Feed(d, s1, a[1..] + b).1;
    }
  }

  /** Decoding `a + b` at once or as two inputs is the same. */
  lemma DecodeConcat(d: Decoder, s: State, a: seq<byte>, b: seq<byte>, final: bool)
    ensures Decode(d, s, a + b, final).0 == Decode(d, Decode(d, s, a, false).0, b, final).0
    ensures Decode(d, s, a + b, final).1
         == Decode(d, s, a, false).1 + Decode(d, Decode(d, s, a, false).0, b, final).1
  {
    FeedConcat(d, s, a, b);
  }

  lemma FeedStep(d: Decoder, s: State, input: seq<byte>)
    requires input != []
    ensures Feed(d, s, input).0 == Feed(d, d.step(s, input[0]).0, input[1..]).0
    ensures Feed(d, s, input).1 == d.step(s, input[0]).1 + Feed(d, d.step(s, input[0]).0, input[1..]).1
  {
  }

  lemma DecodeStep(d: Decoder, s: State, input: seq<byte>, final: bool)
    requires input != []
    ensures Decode(d, s, input, final).0 == Decode(d, d.step(s, input[0]).0, input[1..], final).0
    ensures Decode(d, s, input, final).1
         == d.step(s, input[0]).1 + Decode(d, d.step(s, input[0]).0, input[1..], final).1
  {
  }

  lemma StepKeepsCanonical(d: Decoder, s: State, b: byte)
    requires Lawful(d) && Canonical(d, s)
    ensures Canonical(d, d.step(s, b).0)
  {
    assert StepLaw(d, s, b);
  }

  lemma {:induction false} FeedKeepsCanonical(d: Decoder, s: State, input: seq<byte>)
    requires Lawful(d) && Canonical(d, s)
    ensures Canonical(d, Feed(d, s, input).0)
    decreases |input|
  {
    if input != [] {
      StepKeepsCanonical(d, s, input[0]);
      FeedKeepsCanonical(d, d.step(s, input[0]).0, input[1..]);
    }
  }

  lemma StepHoldsSuffix(d: Decoder, s: State, b: byte) returns (used: seq<byte>)
    requires Lawful(d) && Canonical(d, s)
    ensures s.buf + [b] == used + d.step(s, b).0.buf
  {
    assert StepLaw(d, s, b);
    var held := d.step(s, b).0.buf;
    used := (s.buf + [b])[..|s.buf + [b]| - |held|];
  }

  /** The bytes held back are the last ones fed. */
  lemma {:induction false} FeedHoldsSuffix(d: Decoder, s: State, input: seq<byte>) returns (used: seq<byte>)
    requires Lawful(d) && Canonical(d, s)
    ensures s.buf + input == used + Feed(d, s, input).0.buf
    decreases |input|
  {
    if input == [] {
      used := [];
    } else {
      var s1 := d.step(s, input[0]).0;
      StepKeepsCanonical(d, s, input[0]);
      var used1 := StepHoldsSuffix(d, s, input[0]);
      var used2 := FeedHoldsSuffix(d, s1, input[1..]);
      used := used1 + used2;
      var held := Feed(d, s, input).0.buf;
      calc {
        s.buf + input;
        (s.buf + [input[0]]) + input[1..];
        (used1 + s1.buf) + input[1..];
        used1 + (s1.buf + input[1..]);
        used1 + (used2 + held);
        used + held;
      }
    }
  }

  lemma SuffixOf(used: seq<byte>, a: seq<byte>, b: seq<byte>)
    requires b == used + a
    ensures IsSuffix(a, b)
  {
  }

  lemma SuffixTrans(a: seq<byte>, b: seq<byte>, c: seq<byte>)
    requires IsSuffix(a, b) && IsSuffix(b, c)
    ensures IsSuffix(a, c)
  {
  }

  lemma DecodeKeepsCanonical(d: Decoder, s: State, input: seq<byte>, final: bool)
    requires Lawful(d) && Canonical(d, s)
    ensures Canonical(d, Decode(d, s, input, final).0)
    ensures IsSuffix(Decode(d, s, input, final).0.buf, s.buf + input)
    ensures final ==> d.finish(Decode(d, s, input, final).0) == (Decode(d, s, input, final).0, "")
  {
    FeedKeepsCanonical(d, s, input);
    var used := FeedHoldsSuffix(d, s, input);
    var s1 := Feed(d, s, input).0;
    SuffixOf(used, s1.buf, s.buf + input);
    if final {
      assert FinishLaw(d, s1);
      SuffixTrans(d.finish(s1).0.buf, s1.buf, s.buf + input);
    }
  }

  /** The flags fit in a field of the given size. */
  ghost predicate FlagsBelow(d: Decoder, limit: nat) {
    && 0 < limit
    && (forall s: State, b: byte :: s.flags < limit ==> d.step(s, b).0.flags < limit)
    && (forall s: State :: s.flags < limit ==> d.finish(s).0.flags < limit)
  }

  lemma {:induction false} FeedKeepsFlags(d: Decoder, s: State, input: seq<byte>, limit: nat)
    requires FlagsBelow(d, limit) && s.flags < limit
    ensures Feed(d, s, input).0.flags < limit
    decreases |input|
  {
    if input != [] { FeedKeepsFlags(d, d.step(s, input[0]).0, input[1..], limit); }
  }

  lemma DecodeKeepsFlags(d: Decoder, s: State, input: seq<byte>, final: bool, limit: nat)
    requires FlagsBelow(d, limit) && s.flags < limit
    ensures Decode(d, s, input, final).0.flags < limit
  {
    FeedKeepsFlags(d, s, input, limit);
  }
}
