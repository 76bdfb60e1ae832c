/** `IncrementalNewlineDecoder`: newline translation over an incremental decoder. */
module NewlineDecoder {
  import opened Basics
  import opened Decoders

  datatype Newline = LF | CR | CRLF

  predicate EndsCr(t: string) {
    t != "" && t[|t| - 1] == '\r'
  }

  predicate StartsLf(t: string) {
    t != "" && t[0] == '\n'
  }

  predicate StartsCrLf(t: string) {
    |t| >= 2 && t[0] == '\r' && t[1] == '\n'
  }

  /** Every newline becomes a single line feed. */
  function Translate(t: string): string {
    if t == "" then ""
    else if StartsCrLf(t) then "\n" + Translate(t[2..])
    else (if t[0] == '\r' then "\n" else [t[0]]) + Translate(t[1..])
  }

  /** The kinds of newline that occur in a text. */
  function Kinds(t: string): set<Newline> {
    if t == "" then {}
    else if StartsCrLf(t) then {CRLF} + Kinds(t[2..])
    else (if t[0] == '\r' then {CR} else if t[0] == '\n' then {LF} else {}) + Kinds(t[1..])
  }

  // ----- how the class computes them -----

  function CountChar(t: string, c: char): nat {
    if t == "" then 0 else (if t[0] == c then 1 else 0) + CountChar(t[1..], c)
  }

  function CountCrLf(t: string): nat {
    if t == "" then 0
    else if StartsCrLf(t) then 1 + CountCrLf(t[2..])
    else CountCrLf(t[1..])
  }

  function ReplaceCrLf(t: string): string {
    if t == "" then ""
    else if StartsCrLf(t) then "\n" + ReplaceCrLf(t[2..])
    else [t[0]] + ReplaceCrLf(t[1..])
  }

  function ReplaceCr(t: string): string {
    if t == "" then "" else (if t[0] == '\r' then "\n" else [t[0]]) + ReplaceCr(t[1..])
  }

  /** The three counts of `decode` are positive exactly for the kinds that occur. */
  lemma {:induction false} CountsGiveKinds(t: string)
    ensures CountChar(t, '\r') >= CountCrLf(t) && CountChar(t, '\n') >= CountCrLf(t)
    ensures CountCrLf(t) > 0 <==> CRLF in Kinds(t)
    ensures CountChar(t, '\r') - CountCrLf(t) > 0 <==> CR in Kinds(t)
    ensures CountChar(t, '\n') - CountCrLf(t) > 0 <==> LF in Kinds(t)
  {
    if t == "" {
    } else if StartsCrLf(t) {
      assert t[1..][1..] == t[2..];
      CountsGiveKinds(t[2..]);
    } else {
      CountsGiveKinds(t[1..]);
    }
  }

  lemma {:induction false} ReplacingTwice(t: string)
    ensures ReplaceCr(ReplaceCrLf(t)) == Translate(t)
    ensures CRLF !in Kinds(t) ==> ReplaceCrLf(t) == t
    ensures CR !in Kinds(t) ==> Translate(t) == ReplaceCrLf(t)
  {
    if t == "" {
    } else {
      var rest := if StartsCrLf(t) then t[2..] else t[1..];
      ReplacingTwice(rest);
      assert ReplaceCrLf(t)[1..] == ReplaceCrLf(rest);
      assert t == [t[0]] + t[1..];
    }
  }

  // ----- what they mean -----

  /** A translated text holds no carriage return, and one without them stays; a lone one and
      a pair give one line feed. With `CutText` this is all there is to it. */
  lemma {:induction false} TranslateRemovesCr(t: string)
    ensures forall k :: 0 <= k < |Translate(t)| ==> Translate(t)[k] != '\r'
    ensures (forall k :: 0 <= k < |t| ==> t[k] != '\r') ==> Translate(t) == t
    ensures Translate("\r") == Translate("\r\n") == "\n"
  {
    assert "\r"[1..] == "" && "\r\n"[2..] == "";
    if t != "" {
      TranslateRemovesCr(if StartsCrLf(t) then t[2..] else t[1..]);
      assert t == [t[0]] + t[1..];
    }
  }

  /** A carriage return at `k` that no line feed follows, a line feed that follows none, and
      a pair. */
  predicate NewlineAt(t: string, k: nat, kind: Newline) {
    k < |t| &&
    match kind
    case CR => t[k] == '\r' && !(k + 1 < |t| && t[k + 1] == '\n')
    case LF => t[k] == '\n' && !(k > 0 && t[k - 1] == '\r')
    case CRLF => t[k] == '\r' && k + 1 < |t| && t[k + 1] == '\n'
  }

  /** The kinds are those that stand somewhere in the text. */
  lemma {:induction false} KindsByPlace(t: string, kind: Newline)
    ensures kind in Kinds(t) <==> exists k: nat :: NewlineAt(t, k, kind)
    decreases |t|
  {
    if t != "" {
      var n := if StartsCrLf(t) then 2 else 1;
      KindsByPlace(t[n..], kind);
      forall k: nat ensures k >= n ==> (NewlineAt(t, k, kind) <==> NewlineAt(t[n..], k - n, kind)) {
        if n <= k < |t| { LaterNewline(t, n, k, kind); }
      }
      if k: nat :| NewlineAt(t[n..], k, kind) { assert NewlineAt(t, k + n, kind); }
      if kind in Kinds(t) && kind !in Kinds(t[n..]) { assert NewlineAt(t, 0, kind); }
    }
  }

  lemma LaterNewline(t: string, n: nat, k: nat, kind: Newline)
    requires n == (if StartsCrLf(t) then 2 else 1) && n <= k < |t|
    ensures NewlineAt(t, k, kind) <==> NewlineAt(t[n..], k - n, kind)
  {
    assert k == n && t[0] == '\r' ==> n == 2 || t[k] != '\n';
  }

  // ----- splitting texts -----

  /** How many characters the translation takes from the front of a text. */
  function FrontLength(t: string): nat
    requires t != ""
  {
    if StartsCrLf(t) then 2 else 1
  }

  lemma FrontOfCut(x: string, y: string)
    requires x != "" && !(EndsCr(x) && StartsLf(y))
    ensures FrontLength(x + y) == FrontLength(x) <= |x|
    ensures (x + y)[FrontLength(x)..] == x[FrontLength(x)..] + y
    ensures !(EndsCr(x[FrontLength(x)..]) && StartsLf(y))
  {
  }

  lemma {:induction false} CutTranslate(x: string, y: string)
    requires !(EndsCr(x) && StartsLf(y))
    ensures Translate(x + y) == Translate(x) + Translate(y)
    decreases |x|
  {
    if x == "" {
      assert x + y == y;
    } else {
      FrontOfCut(x, y);
      CutTranslate(x[FrontLength(x)..], y);
    }
  }

  lemma {:induction false} CutKinds(x: string, y: string)
    requires !(EndsCr(x) && StartsLf(y))
    ensures Kinds(x + y) == Kinds(x) + Kinds(y)
    decreases |x|
  {
    if x == "" {
      assert x + y == y;
    } else {
      FrontOfCut(x, y);
      CutKinds(x[FrontLength(x)..], y);
    }
  }

  /** A text may be cut anywhere but inside a carriage return, line feed pair. */
  lemma CutText(x: string, y: string)
    requires !(EndsCr(x) && StartsLf(y))
    ensures Translate(x + y) == Translate(x) + Translate(y)
    ensures Kinds(x + y) == Kinds(x) + Kinds(y)
  {
    CutTranslate(x, y);
    CutKinds(x, y);
  }

  lemma {:induction false} TranslateEmpty(t: string)
    ensures Translate(t) == "" <==> t == ""
  {
  }

  /** The text of one call: a carriage return kept from the last call comes first. */
  function WithPending(pending: bool, t: string): string {
    (if pending then "\r" else "") + t
  }

  /** What a call passes on of its text; a carriage return at the end is kept. */
  function PassOn(t: string, final: bool): (bool, string) {
    if EndsCr(t) && !final then (true, t[..|t| - 1]) else (false, t)
  }

  function Chunk(translate: bool, pending: bool, t: string, final: bool): (bool, string) {
    var (keep, passed) := PassOn(WithPending(pending, t), final);
    (keep, if translate then Translate(passed) else passed)
  }

  function Whole(translate: bool, t: string): string {
    if translate then Translate(t) else t
  }

  /** Two calls on `a` and `b` pass on what one call on `a + b` does. */
  lemma ChunkConcat(translate: bool, pending: bool, a: string, b: string, final: bool)
    ensures var (keep, out) := Chunk(translate, pending, a, false);
            && Chunk(translate, pending, a + b, final).0 == Chunk(translate, keep, b, final).0
            && Chunk(translate, pending, a + b, final).1 == out + Chunk(translate, keep, b, final).1
    ensures var (keep, passed) := PassOn(WithPending(pending, a), false);
            Kinds(PassOn(WithPending(pending, a + b), final).1)
            == Kinds(passed) + Kinds(PassOn(WithPending(keep, b), final).1)
  {
    hide Translate; hide Kinds; hide PassOn; hide EndsCr; hide StartsLf;
    var ta := WithPending(pending, a);
    assert WithPending(pending, a + b) == ta + b;
    PassOnConcat(ta, b, final);
    var (keep, pa) := PassOn(ta, false);
    CutText(pa, PassOn(WithPending(keep, b), final).1);
  }

  lemma PassOnConcat(ta: string, b: string, final: bool)
    ensures var (keep, pa) := PassOn(ta, false);
            var (keep1, pb) := PassOn(WithPending(keep, b), final);
            PassOn(ta + b, final) == (keep1, pa + pb) && !(EndsCr(pa) && StartsLf(pb))
  {
    var (keep, pa) := PassOn(ta, false);
    var tb := WithPending(keep, b);
    assert ta + b == pa + tb;
    if EndsCr(tb) && !final { assert (pa + tb)[..|pa + tb| - 1] == pa + tb[..|tb| - 1]; }
  }

  /** The joined output of a run of calls of which only the last is final. */
  function RunOutput(translate: bool, pending: bool, chunks: seq<string>): string
    requires |chunks| > 0
    decreases |chunks|
  {
    var (keep, out) := Chunk(translate, pending, chunks[0], |chunks| == 1);
    if |chunks| == 1 then out else out + RunOutput(translate, keep, chunks[1..])
  }

  /** `_seennl` after the run, when it started empty. */
  function RunKinds(pending: bool, chunks: seq<string>): set<Newline>
    requires |chunks| > 0
    decreases |chunks|
  {
    var (keep, passed) := PassOn(WithPending(pending, chunks[0]), |chunks| == 1);
    if |chunks| == 1 then Kinds(passed) else Kinds(passed) + RunKinds(keep, chunks[1..])
  }

  function Join(chunks: seq<string>): string {
    if chunks == [] then "" else chunks[0] + Join(chunks[1..])
  }

  /** However a text is cut into chunks, the joined outputs are its one-shot
      translation and the kinds seen are the kinds of the whole text. */
  lemma {:induction false} ChunkingDoesNotMatter(translate: bool, pending: bool, chunks: seq<string>)
    requires |chunks| > 0
    ensures RunOutput(translate, pending, chunks) == Whole(translate, WithPending(pending, Join(chunks)))
    ensures RunKinds(pending, chunks) == Kinds(WithPending(pending, Join(chunks)))
    decreases |chunks|
  {
    var first, rest := chunks[0], chunks[1..];
    if |chunks| == 1 {
      assert Join(rest) == "" && Join(chunks) == first;
    } else {
      var keep := Chunk(translate, pending, first, false).0;
      ChunkingDoesNotMatter(translate, keep, rest);
      ChunkConcat(translate, pending, first, Join(rest), true);
    }
  }

  // ----- as a decoder -----

  function Inner(s: State): State {
    State(s.buf, s.flags / 2)
  }

  function Pending(s: State): bool {
    s.flags % 2 == 1
  }

  /** `getstate`: the pending carriage return is the lowest bit of the flags. */
  function PackState(s: State, pending: bool): State {
    State(s.buf, s.flags * 2 + if pending then 1 else 0)
  }

  function Newlines(inner: Decoder, translate: bool): Decoder {
    Decoder((s: State, b: byte) => Over(inner.step(Inner(s), b), translate, Pending(s), false),
            (s: State) => Over(inner.finish(Inner(s)), translate, Pending(s), true))
  }

  function Over(r: (State, string), translate: bool, pending: bool, final: bool): (State, string) {
    var (keep, out) := Chunk(translate, pending, r.1, final);
    (PackState(r.0, keep), out)
  }

  class IncrementalNewlineDecoder {
    const inner: Decoder
    const translate: bool
    var innerState: State   // the state of the wrapped decoder
    var pendingcr: bool
    var seennl: set<Newline>

    constructor (inner: Decoder, translate: bool)
      ensures this.inner == inner && this.translate == translate
      ensures GetState() == RESET && seennl == {}
    {
      this.inner, this.translate := inner, translate;
      innerState, pendingcr, seennl := RESET, false, {};
    }

    function GetState(): State
      reads this
    {
      PackState(innerState, pendingcr)
    }

    method SetState(s: State)
      modifies this
      ensures GetState() == s && seennl == old(seennl)
    {
      pendingcr := Pending(s);
      innerState := Inner(s);
    }

    method Reset()
      modifies this
      ensures GetState() == RESET && seennl == {}
    {
      seennl, pendingcr, innerState := {}, false, RESET;
    }

    /** One call is one call of the decoder `Newlines`, and it records exactly the
        kinds of newline in the text it passes on. */
    method Decode(input: seq<byte>, final: bool) returns (output: string)
      modifies this
      ensures GetState() == Decoders.Decode(Newlines(inner, translate), old(GetState()), input, final).0
      ensures output == Decoders.Decode(Newlines(inner, translate), old(GetState()), input, final).1
      ensures seennl == old(seennl) + Kinds(PassOn(WithPending(old(pendingcr),
                Decoders.Decode(inner, old(innerState), input, final).1), final).1)
    {
      var r := Decoders.Decode(inner, innerState, input, final);
      NewlinesDecode(inner, translate, innerState, pendingcr, input, final);
      innerState, output := r.0, r.1;
      pendingcr, output := KeepLastCr(pendingcr, output, final);
      var kinds, translated := RecordAndTranslate(output, translate);
      seennl := seennl + kinds;
      output := translated;
    }
  }

  method KeepLastCr(pendingcr: bool, t: string, final: bool) returns (pending: bool, output: string)
    ensures pending == PassOn(WithPending(pendingcr, t), final).0
    ensures output == PassOn(WithPending(pendingcr, t), final).1
  {
    pending, output := pendingcr, t;
    if pending && (output != "" || final) {
      output := "\r" + output;
      pending := false;
    }
    if EndsCr(output) && !final {
      output := output[..|output| - 1];
      pending := true;
    }
    assert t == "" ==> WithPending(true, t)[..0] == t;
  }

  method RecordAndTranslate(t: string, translate: bool) returns (kinds: set<Newline>, output: string)
    ensures kinds == Kinds(t) && output == Whole(translate, t)
  {
    output := t;
    var crlf := CountCrLf(output);
    CountsGiveKinds(output);
    ReplacingTwice(output);
    var cr, lf := CountChar(output, '\r') - crlf, CountChar(output, '\n') - crlf;
    kinds := (if lf > 0 then {LF} else {}) + (if cr > 0 then {CR} else {}) + (if crlf > 0 then {CRLF} else {});
    forall k ensures k in Kinds(t) <==> k in kinds {
      match k case LF => case CR => case CRLF =>
    }
    if translate {
      if crlf > 0 { output := ReplaceCrLf(output); }
      if cr > 0 { output := ReplaceCr(output); }
    }
  }

  lemma PackInverse(s: State, pending: bool)
    ensures Inner(PackState(s, pending)) == s && Pending(PackState(s, pending)) == pending
  {
  }

  lemma NewlinesStep(inner: Decoder, translate: bool, s: State, pending: bool, b: byte)
    ensures Newlines(inner, translate).step(PackState(s, pending), b)
         == Over(inner.step(s, b), translate, pending, false)
    ensures Newlines(inner, translate).finish(PackState(s, pending)) == Over(inner.finish(s), translate, pending, true)
  {
    PackInverse(s, pending);
  }

  /** Feeding bytes one at a time passes on what one call on all of them does. */
  lemma {:induction false} NewlinesFeed(inner: Decoder, translate: bool, s: State, pending: bool, input: seq<byte>)
    ensures Feed(Newlines(inner, translate), PackState(s, pending), input).0
         == Over(Feed(inner, s, input), translate, pending, false).0
    ensures Feed(Newlines(inner, translate), PackState(s, pending), input).1
         == Over(Feed(inner, s, input), translate, pending, false).1
    decreases |input|
  {
    if input != [] {
      var r := inner.step(s, input[0]);
      var keep := Chunk(translate, pending, r.1, false).0;
      NewlinesStep(inner, translate, s, pending, input[0]);
      NewlinesFeed(inner, translate, r.0, keep, input[1..]);
      ChunkConcat(translate, pending, r.1, Feed(inner, r.0, input[1..]).1, false);
      FeedStep(inner, s, input);
      FeedStep(Newlines(inner, translate), PackState(s, pending), input);
    }
  }

  lemma NewlinesDecode(inner: Decoder, translate: bool, s: State, pending: bool, input: seq<byte>, final: bool)
    ensures Decode(Newlines(inner, translate), PackState(s, pending), input, final).0
         == Over(Decode(inner, s, input, final), translate, pending, final).0
    ensures Decode(Newlines(inner, translate), PackState(s, pending), input, final).1
         == Over(Decode(inner, s, input, final), translate, pending, final).1
  {
    NewlinesFeed(inner, translate, s, pending, input);
    var r := Feed(inner, s, input);
    if final {
      var keep := Chunk(translate, pending, r.1, false).0;
      NewlinesStep(inner, translate, r.0, keep, 0);
      ChunkConcat(translate, pending, r.1, inner.finish(r.0).1, true);
    }
  }

  function JoinBytes(chunks: seq<seq<byte>>): seq<byte> {
    if chunks == [] then [] else chunks[0] + JoinBytes(chunks[1..])
  }

  /** One call, and then the rest of the input: what the wrapped decoder says first and last,
      what is passed on, and the kinds in it. */
  lemma OneCallAndRest(inner: Decoder, translate: bool, s: State, pending: bool, a: seq<byte>, b: seq<byte>)
    ensures var first := Decode(inner, s, a, false);
      var last, all := Decode(inner, first.0, b, true).1, Decode(inner, s, a + b, true).1;
      var (keep, out) := Chunk(translate, pending, first.1, false);
      && all == first.1 + last
      && Whole(translate, WithPending(pending, all)) == out + Whole(translate, WithPending(keep, last))
      && Kinds(WithPending(pending, all))
         == Kinds(PassOn(WithPending(pending, first.1), false).1) + Kinds(WithPending(keep, last))
  {
    hide Decode; hide Kinds; hide Translate; hide EndsCr;
    DecodeConcat(inner, s, a, b, true);
    var first := Decode(inner, s, a, false);
    ChunkConcat(translate, pending, first.1, Decode(inner, first.0, b, true).1, true);
  }

  /** Input in any number of calls, of which only the last is final: the joined outputs are
      the translation of what the wrapped decoder says to the whole input, and the newlines
      recorded are exactly the kinds in that text. */
  method DecodeChunks(d: IncrementalNewlineDecoder, chunks: seq<seq<byte>>) returns (outputs: seq<string>)
    requires chunks != []
    modifies d
    ensures |outputs| == |chunks|
    ensures var inner := Decoders.Decode(d.inner, old(d.innerState), JoinBytes(chunks), true).1;
      var text := WithPending(old(d.pendingcr), inner);
      Join(outputs) == Whole(d.translate, text) && d.seennl == old(d.seennl) + Kinds(text)
    decreases |chunks|
  {
    hide Kinds; hide Translate; hide Decoders.Decode; hide Newlines;
    ghost var s, pending, final := d.innerState, d.pendingcr, |chunks| == 1;
    ghost var r := Decoders.Decode(d.inner, s, chunks[0], final);
    NewlinesDecode(d.inner, d.translate, s, pending, chunks[0], final);
    PackInverse(r.0, Chunk(d.translate, pending, r.1, final).0);
    var output := d.Decode(chunks[0], |chunks| == 1);
    PackInverse(d.innerState, d.pendingcr);
    if |chunks| == 1 {
      assert chunks[0] + [] == chunks[0] && output + "" == output;
      outputs := [output];
    } else {
      OneCallAndRest(d.inner, d.translate, s, pending, chunks[0], JoinBytes(chunks[1..]));
      var rest := DecodeChunks(d, chunks[1..]);
      outputs := [output] + rest;
      assert outputs[1..] == rest;
    }
  }

  /** The same from a new decoder, where nothing is pending and nothing was seen. */
  method DecodeFromStart(inner: Decoder, translate: bool, chunks: seq<seq<byte>>)
    returns (d: IncrementalNewlineDecoder, outputs: seq<string>)
    requires chunks != []
    ensures var text := Decoders.Decode(inner, RESET, JoinBytes(chunks), true).1;
      Join(outputs) == Whole(translate, text) && d.seennl == Kinds(text)
  {
    hide Kinds; hide Translate; hide Decoders.Decode;
    d := new IncrementalNewlineDecoder(inner, translate);
    PackInverse(d.innerState, d.pendingcr);
    PackInverse(RESET, false);
    outputs := DecodeChunks(d, chunks);
    assert WithPending(false, Decoders.Decode(inner, RESET, JoinBytes(chunks), true).1)
        == Decoders.Decode(inner, RESET, JoinBytes(chunks), true).1;
  }

  lemma PackUnpack(s: State)
    ensures PackState(Inner(s), Pending(s)) == s
  {
  }

  lemma SilentChunk(translate: bool, pending: bool, t: string)
    ensures Chunk(translate, pending, "", false) == (pending, "")
    ensures Chunk(translate, pending, t, false) == (pending, "") ==> t == ""
  {
    assert WithPending(true, "")[..0] == "";
    TranslateEmpty(PassOn(WithPending(pending, t), false).1);
  }

  lemma CanonicalInside(inner: Decoder, translate: bool, s: State)
    ensures Canonical(Newlines(inner, translate), s) <==> Canonical(inner, Inner(s))
  {
    var d, start := Newlines(inner, translate), State([], s.flags);
    var r := Feed(inner, Inner(start), s.buf);
    PackUnpack(start);
    PackUnpack(s);
    NewlinesFeed(inner, translate, Inner(start), Pending(s), s.buf);
    SilentChunk(translate, Pending(s), r.1);
    PackInverse(r.0, Chunk(translate, Pending(s), r.1, false).0);
  }

  /** Wrapping a lawful decoder gives a lawful decoder. */
  lemma NewlinesIsLawful(inner: Decoder, translate: bool)
    requires Lawful(inner)
    ensures Lawful(Newlines(inner, translate))
  {
    var d := Newlines(inner, translate);
    assert d.finish(RESET).1 == "" by {
      NewlinesStep(inner, translate, RESET, false, 0);
      assert PackState(RESET, false) == RESET;
    }
    forall s: State, b: byte | Canonical(d, s) ensures StepLaw(d, s, b) {
      CanonicalInside(inner, translate, s);
      PackUnpack(s);
      NewlinesStep(inner, translate, Inner(s), Pending(s), b);
      assert StepLaw(inner, Inner(s), b);
      var r := inner.step(Inner(s), b);
      var keep := Chunk(translate, Pending(s), r.1, false).0;
      PackInverse(r.0, keep);
      CanonicalInside(inner, translate, PackState(r.0, keep));
    }
    forall s: State | Canonical(d, s) ensures FinishLaw(d, s) {
      CanonicalInside(inner, translate, s);
      PackUnpack(s);
      NewlinesStep(inner, translate, Inner(s), Pending(s), 0);
      assert FinishLaw(inner, Inner(s));
      var r := inner.finish(Inner(s));
      PackInverse(r.0, false);
      CanonicalInside(inner, translate, PackState(r.0, false));
      NewlinesStep(inner, translate, r.0, false, 0);
    }
  }

  lemma NewlinesFlags(inner: Decoder, translate: bool, limit: nat)
    requires FlagsBelow(inner, limit)
    ensures FlagsBelow(Newlines(inner, translate), 2 * limit)
  {
    var d := Newlines(inner, translate);
    forall s: State, b: byte | s.flags < 2 * limit
      ensures d.step(s, b).0.flags < 2 * limit
    {
      PackUnpack(s);
      NewlinesStep(inner, translate, Inner(s), Pending(s), b);
    }
    forall s: State | s.flags < 2 * limit ensures d.finish(s).0.flags < 2 * limit {
      PackUnpack(s);
      NewlinesStep(inner, translate, Inner(s), Pending(s), 0);
      assert Inner(s).flags < limit;
    }
  }

  /** Output that ends with a carriage return is never continued by a line feed. */
  ghost predicate CutAfter(d: Decoder, s: State, x: seq<byte>, y: seq<byte>, final: bool) {
    EndsCr(Feed(d, s, x).1) ==> !StartsLf(Decode(d, Feed(d, s, x).0, y, final).1)
  }

  ghost predicate KeepsPairs(d: Decoder) {
    forall s: State, x: seq<byte>, y: seq<byte>, final: bool :: CutAfter(d, s, x, y, final)
  }

  lemma NewlinesKeepsPairs(inner: Decoder)
    ensures KeepsPairs(Newlines(inner, false))
  {
    var d := Newlines(inner, false);
    forall s: State, x: seq<byte>, y: seq<byte>, final: bool ensures CutAfter(d, s, x, y, final) {
      PackUnpack(s);
      NewlinesFeed(inner, false, Inner(s), Pending(s), x);
      var r := Feed(inner, Inner(s), x);
      var keep := Chunk(false, Pending(s), r.1, false).0;
      NewlinesDecode(inner, false, r.0, keep, y, final);
    }
  }
}
