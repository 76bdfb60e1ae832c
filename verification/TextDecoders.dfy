/** The decoders `TextIOWrapper._get_decoder` builds meet what the stream asks. */
module TextDecoders {
  import opened Basics
  import opened Bits
  import opened Decoders
  import opened BufferedDecoder
  import opened NewlineDecoder
  import opened Lines
  import opened TextCookie
  import LineMeaning
  import Ratios
  import TextRun
  import opened TextSnapshot
  import TextStream

  /** A buffered codec, wrapped for the two universal newline modes. */
  function GetDecoder(f: BufferDecode, mode: Mode): Decoder {
    match mode
    case Translating => Newlines(Buffered(f), true)
    case Universal => Newlines(Buffered(f), false)
    case Exact(_) => Buffered(f)
  }

  /** Every buffered codec gives a decoder that every newline mode can use. */
  lemma GetDecoderOpens(f: BufferDecode, mode: Mode, data: seq<byte>, bits: nat)
    requires LawfulBufferDecode(f) && ValidMode(mode) && 0 < bits && |data| < Pow2(bits)
    ensures TextStream.Opened(GetDecoder(f, mode), mode, data, bits)
  {
    BufferedIsLawful(f);
    assert FlagsBelow(Buffered(f), Pow2(bits - 1)) && FlagsBelow(Buffered(f), Pow2(bits));
    if !mode.Exact? {
      NewlinesIsLawful(Buffered(f), mode.Translating?);
      NewlinesFlags(Buffered(f), mode.Translating?, Pow2(bits - 1));
    }
    if mode.Universal? {
      NewlinesKeepsPairs(Buffered(f));
    }
  }

  /** The text that stands for bytes in a newline mode: what the codec makes of all of them,
      translated only in the default mode. */
  function TextOf(f: BufferDecode, mode: Mode, data: seq<byte>): string {
    if mode.Translating? then Translate(f(data, true).0) else f(data, true).0
  }

  /** The decoder of each mode gives that text. */
  lemma GetDecoderText(f: BufferDecode, mode: Mode, data: seq<byte>)
    requires LawfulBufferDecode(f)
    ensures TextFrom(GetDecoder(f, mode), RESET, data) == TextOf(f, mode, data)
  {
    hide Translate; hide Decode; hide LawfulBufferDecode;
    NothingIsHeldBack(f);
    DecodeIsFold(f, [], data, true);
    assert [] + data == data;
    if !mode.Exact? {
      NewlinesDecode(Buffered(f), mode.Translating?, RESET, false, data, true);
      assert PackState(RESET, false) == RESET;
      NothingPending(TextFrom(Buffered(f), RESET, data));
    }
  }

  lemma NothingPending(t: string)
    ensures WithPending(false, t) == t
  {
  }

  /** A stream opened on bytes with a newline mode, and any mix of reads: they return
      consecutive slices of the text that the bytes from its position stand for. */
  method OpenAndRead(f: BufferDecode, mode: Mode, data: seq<byte>, position: nat, bits: nat, round: real -> real,
                     ops: seq<TextRun.ReadOp>)
    returns (w: TextStream.TextIOWrapper, results: seq<string>)
    requires LawfulBufferDecode(f) && ValidMode(mode) && 0 < bits && |data| < Pow2(bits)
    requires position < Pow2(bits) && Ratios.Rounds(round)
    ensures w.Valid() && fresh(w)
    ensures var text := TextOf(f, mode, if position <= |data| then data[position..] else []);
      results == TextRun.Slices(mode, text, ops) && Join(results) + w.Remaining() == text
  {
    GetDecoderOpens(f, mode, data, bits);
    GetDecoderText(f, mode, if position <= |data| then data[position..] else []);
    w := new TextStream.TextIOWrapper(GetDecoder(f, mode), mode, data, position, bits, round);
    results := TextRun.ReadMix(w, ops);
  }

  /** A codec that makes one character of each byte is one for which `tell` gives plain
      positions, where no newlines are to be found. */
  lemma OneByteCodec(f: BufferDecode, nl: string)
    requires forall b: byte :: |f([b], false).0| == 1 && f([b], false).1 == 1
    ensures OneByteEach(GetDecoder(f, Exact(nl)), 0)
  {
    var d := Buffered(f);
    forall b: byte ensures OneCharacter(d, 0, b) { assert [] + [b] == [b]; }
  }

  // ----- the lines of the two universal modes -----

  function ReadLines(n: nat): seq<TextRun.ReadOp> {
    if n == 0 then [] else [TextRun.ReadLine(-1)] + ReadLines(n - 1)
  }

  /** The lines of a text in universal mode, translated, are the lines of the translated text. */
  lemma {:induction false} SameLines(t: string, n: nat, k: nat)
    requires k < n
    ensures |ReadLines(n)| == n
    ensures Translate(TextRun.Slices(Universal, t, ReadLines(n))[k])
         == TextRun.Slices(Translating, Translate(t), ReadLines(n))[k]
    decreases n
  {
    hide Translate; hide LineEnd;
    ReadLinesLength(n);
    LineMeaning.TranslatedLines(t);
    assert ReadLines(n)[1..] == ReadLines(n - 1) && ReadLines(n)[0] == TextRun.ReadLine(-1);
    if k > 0 { SameLines(t[LineEnd(Universal, t)..], n - 1, k - 1); }
  }

  lemma {:induction false} ReadLinesLength(n: nat)
    ensures |ReadLines(n)| == n
  {
    if n > 0 { ReadLinesLength(n - 1); }
  }
}
