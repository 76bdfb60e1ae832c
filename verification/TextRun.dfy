/** Any mix of `read` and `readline` on a text stream. */
module TextRun {
  import opened Basics
  import opened Lines
  import opened NewlineDecoder
  import Bits
  import Decoders
  import Ratios
  import TextSnapshot
  import TextStream

  datatype ReadOp = Read(size: int) | ReadLine(size: int)

  /** How much of the text `t` one operation returns. */
  function Amount(mode: Mode, t: string, op: ReadOp): nat {
    match op
    case Read(size) => if 0 <= size <= |t| then size else |t|
    case ReadLine(size) => TextStream.LineLength(mode, t, size)
  }

  lemma AmountInRange(mode: Mode, t: string, op: ReadOp)
    requires ValidMode(mode)
    ensures Amount(mode, t, op) <= |t|
  {
    LineEndInRange(mode, t);
  }

  /** The consecutive slices of `t` that the operations return. */
  function Slices(mode: Mode, t: string, ops: seq<ReadOp>): (r: seq<string>)
    requires ValidMode(mode)
    ensures |r| == |ops|
    decreases |ops|
  {
    if ops == [] then []
    else
      AmountInRange(mode, t, ops[0]);
      var k := Amount(mode, t, ops[0]);
      [t[..k]] + Slices(mode, t[k..], ops[1..])
  }

  method ReadOne(w: TextStream.TextIOWrapper, op: ReadOp) returns (text: string)
    requires w.Valid()
    modifies w
    ensures w.Valid() && (old(w.RatioFits()) ==> w.RatioFits())
    ensures |text| == Amount(w.mode, old(w.Remaining()), op)
    ensures text + w.Remaining() == old(w.Remaining())
  {
    hide TextStream.ValidSnapshot;
    if op.Read? {
      text := w.Read(op.size);
    } else {
      var inBounds;
      text, inBounds := w.ReadLine(op.size);
    }
  }

  /** Every mix of reads returns consecutive slices of the text that was left, whatever
      chunks the buffer delivers. */
  method ReadMix(w: TextStream.TextIOWrapper, ops: seq<ReadOp>) returns (results: seq<string>)
    requires w.Valid()
    modifies w
    ensures w.Valid() && (old(w.RatioFits()) ==> w.RatioFits())
    ensures results == Slices(w.mode, old(w.Remaining()), ops)
    ensures Join(results) + w.Remaining() == old(w.Remaining())
    decreases |ops|
  {
    hide Amount; hide TextStream.ValidSnapshot;
    if ops == [] {
      results := [];
      assert "" + w.Remaining() == w.Remaining();
    } else {
      ghost var text := w.Remaining();
      var first := ReadOne(w, ops[0]);
      ghost var left := w.Remaining();
      assert text[..|first|] == first && text[|first|..] == left;
      var rest := ReadMix(w, ops[1..]);
      assert ([first] + rest)[1..] == rest;
      assert first + (Join(rest) + w.Remaining()) == first + Join(rest) + w.Remaining();
      results := [first] + rest;
    }
  }

  /** After any mix of reads from a newly opened stream `tell` gives a cookie for the text
      that is left. */
  method ReadAndTell(d: Decoders.Decoder, mode: Mode, data: seq<byte>, bits: nat, round: real -> real,
                     ops: seq<ReadOp>)
    returns (w: TextStream.TextIOWrapper, results: seq<string>, r: TextStream.Outcome)
    requires TextStream.Opened(d, mode, data, bits) && Ratios.Rounds(round)
    ensures w.Valid() && Join(results) + w.Remaining() == TextSnapshot.TextFrom(d, Decoders.RESET, data)
    ensures |w.decodedChars| < Bits.Pow2(bits) && |data| <= Ratios.LARGEST ==>
              r.At? && w.Restores(r.cookie, w.Remaining())
  {
    w := new TextStream.TextIOWrapper(d, mode, data, 0, bits, round);
    assert data[0..] == data;
    results := ReadMix(w, ops);
    r := TextStream.ValueError;
    if |w.decodedChars| < Bits.Pow2(bits) {
      if |data| <= Ratios.LARGEST { w.RatioGuesses(); }
      r := w.Tell();
    }
  }
}
