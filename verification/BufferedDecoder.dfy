/** `BufferedIncrementalDecoder`: a decoder made of one stateless function that
    says how many bytes it consumed. */
module BufferedDecoder {
  import opened Basics
  import opened Decoders

  /** `_buffer_decode(data, errors, final)`: the text and the bytes consumed. */
  type BufferDecode = (seq<byte>, bool) -> (string, nat)

  /** What the class needs of `_buffer_decode`. */
  ghost predicate LawfulBufferDecode(f: BufferDecode) {
    && (forall x, final :: f(x, final).1 <= |x|)
    && (forall x :: f(x, true).1 == |x|)
    && f([], true) == ("", 0)
    && (forall x, y, final :: Resumes(f, x, y, final))
  }

  /** What follows `x` continues where the decoding of `x` stopped consuming. */
  ghost predicate Resumes(f: BufferDecode, x: seq<byte>, y: seq<byte>, final: bool) {
    var (text, n) := f(x, false);
    n <= |x| ==>
      var (text', n') := f(x[n..] + y, final);
      f(x + y, final) == (text + text', n + n')
  }

  /** The decoder the class makes of `f`; its flags are always 0. */
  function Buffered(f: BufferDecode): Decoder {
    Decoder((s: State, b: byte) => Consume(f, s.buf + [b], false), (s: State) => Consume(f, s.buf, true))
  }

  function Consume(f: BufferDecode, data: seq<byte>, final: bool): (State, string) {
    var (text, n) := f(data, final);
    (State(if n <= |data| then data[n..] else [], 0), text)
  }

  /** Nothing of `buf` can be decoded before more input comes. */
  ghost predicate HeldBack(f: BufferDecode, buf: seq<byte>) {
    f(buf, false) == ("", 0)
  }

  lemma EmptyTail(t: string, u: string)
    requires t == t + u
    ensures u == ""
  {
    assert |t + u| == |t| + |u|;
  }

  lemma RestIsHeldBack(f: BufferDecode, x: seq<byte>)
    requires LawfulBufferDecode(f)
    ensures HeldBack(f, Consume(f, x, false).0.buf)
  {
    var rest := Consume(f, x, false).0.buf;
    assert f(x, false).1 <= |x| && Resumes(f, x, [], false);
    assert x + [] == x && rest + [] == rest;
    var p, q := f(x, false), f(rest, false);
    assert p == (p.0 + q.0, p.1 + q.1);
    EmptyTail(p.0, q.0);
  }

  lemma NothingIsHeldBack(f: BufferDecode)
    requires LawfulBufferDecode(f)
    ensures HeldBack(f, [])
  {
    RestIsHeldBack(f, []);
    assert Consume(f, [], false).0.buf == [];
  }

  lemma ConsumeInTwo(f: BufferDecode, x: seq<byte>, y: seq<byte>, final: bool)
    requires LawfulBufferDecode(f)
    ensures Consume(f, x + y, final).0 == Consume(f, Consume(f, x, false).0.buf + y, final).0
    ensures Consume(f, x + y, final).1 == Consume(f, x, false).1 + Consume(f, Consume(f, x, false).0.buf + y, final).1
  {
    var n := f(x, false).1;
    assert n <= |x| && Resumes(f, x, y, final);
    var n' := f(x[n..] + y, final).1;
    assert f(x[n..] + y, final).1 <= |x[n..] + y|;
    assert (x + y)[n + n'..] == (x[n..] + y)[n'..];
  }

  lemma DecodeNothing(f: BufferDecode, buf: seq<byte>, final: bool)
    requires HeldBack(f, buf)
    ensures Decode(Buffered(f), State(buf, 0), [], final).0 == Consume(f, buf, final).0
    ensures Decode(Buffered(f), State(buf, 0), [], final).1 == Consume(f, buf, final).1
  {
    assert buf[0..] == buf;
    assert "" + Consume(f, buf, true).1 == Consume(f, buf, true).1;
  }

  lemma DecodeOne(f: BufferDecode, buf: seq<byte>, input: seq<byte>, final: bool)
    requires input != []
    ensures var s := Consume(f, buf + [input[0]], false).0;
      && s.flags == 0
      && Decode(Buffered(f), State(buf, 0), input, final).0 == Decode(Buffered(f), s, input[1..], final).0
      && Decode(Buffered(f), State(buf, 0), input, final).1
         == Consume(f, buf + [input[0]], false).1 + Decode(Buffered(f), s, input[1..], final).1
  {
    DecodeStep(Buffered(f), State(buf, 0), input, final);
  }

  /** One call on the whole input is the fold over its bytes. */
  lemma {:induction false} DecodeIsFold(f: BufferDecode, buf: seq<byte>, input: seq<byte>, final: bool)
    requires LawfulBufferDecode(f) && HeldBack(f, buf)
    ensures Consume(f, buf + input, final).0 == Decode(Buffered(f), State(buf, 0), input, final).0
    ensures Consume(f, buf + input, final).1 == Decode(Buffered(f), State(buf, 0), input, final).1
    decreases |input|
  {
    hide LawfulBufferDecode; hide Decode; hide Consume; hide Buffered;
    if input == [] {
      assert buf + input == buf;
      DecodeNothing(f, buf, final);
    } else {
      var x, y := buf + [input[0]], input[1..];
      RestIsHeldBack(f, x);
      DecodeOne(f, buf, input, final);
      DecodeIsFold(f, Consume(f, x, false).0.buf, y, final);
      ConsumeInTwo(f, x, y, final);
      assert x + y == buf + input;
    }
  }

  lemma StepIsLawful(f: BufferDecode, s: State, b: byte)
    requires LawfulBufferDecode(f)
    ensures StepLaw(Buffered(f), s, b)
  {
    var rest := Buffered(f).step(s, b).0.buf;
    RestIsHeldBack(f, s.buf + [b]);
    NothingIsHeldBack(f);
    DecodeIsFold(f, [], rest, false);
    assert [] + rest == rest;
  }

  /** A lawful `_buffer_decode` makes a lawful incremental decoder. */
  lemma BufferedIsLawful(f: BufferDecode)
    requires LawfulBufferDecode(f)
    ensures Lawful(Buffered(f))
  {
    forall s: State, b: byte ensures StepLaw(Buffered(f), s, b) { StepIsLawful(f, s, b); }
  }

  class BufferedIncrementalDecoder {
    const bufferDecode: BufferDecode
    var buffer: seq<byte>

    constructor (bufferDecode: BufferDecode)
      ensures this.bufferDecode == bufferDecode && buffer == []
    {
      this.bufferDecode, buffer := bufferDecode, [];
    }

    /** One call decodes what feeding the bytes one at a time would. */
    method Decode(input: seq<byte>, final: bool) returns (text: string)
      requires LawfulBufferDecode(bufferDecode) && HeldBack(bufferDecode, buffer)
      modifies this
      ensures (State(buffer, 0), text)
           == Decoders.Decode(Buffered(bufferDecode), State(old(buffer), 0), input, final)
      ensures HeldBack(bufferDecode, buffer)
    {
      var data := buffer + input;
      DecodeIsFold(bufferDecode, buffer, input, final);
      var result := bufferDecode(data, final);
      text := result.0;
      buffer := data[result.1..];
      RestIsHeldBack(bufferDecode, data);
      NothingIsHeldBack(bufferDecode);
    }

    method Reset()
      modifies this
      ensures State(buffer, 0) == RESET
    {
      buffer := [];
    }

    function GetState(): (s: State)
      reads this
    {
      State(buffer, 0)
    }

    method SetState(s: State)
      modifies this
      ensures GetState().buf == s.buf
    {
      buffer := s.buf;
    }
  }
}
