/** What a decoder snapshot says about a stream, and the search of `tell` for a
    point from which a position can be restored. */
module TextSnapshot {
  import opened Basics
  import opened Bits
  import opened Decoders
  import opened TextCookie

  /** All the text that decoding `input` to the end of file gives. */
  function TextFrom(d: Decoder, s: State, input: seq<byte>): string {
    Decode(d, s, input, true).1
  }

  /** Decoding `next` from the empty state with these flags gives `text` and leaves
      the decoder in `s`; a final decoding happens only at the end of the file. */
  ghost predicate Explains(d: Decoder, flags: nat, next: seq<byte>, final: bool, s: State, text: string,
                           rest: seq<byte>) {
    && Decode(d, State([], flags), next, final).0 == s
    && Decode(d, State([], flags), next, final).1 == text
    && (final ==> rest == [] && d.finish(s) == (s, ""))
  }

  lemma TextFromConcat(d: Decoder, s: State, a: seq<byte>, b: seq<byte>)
    ensures TextFrom(d, s, a + b) == Feed(d, s, a).1 + TextFrom(d, Feed(d, s, a).0, b)
  {
    DecodeConcat(d, s, a, b, true);
  }

  /** The decoded text and the text still to come are one decoding from the
      snapshot point. */
  lemma ExplainedText(d: Decoder, flags: nat, next: seq<byte>, final: bool, s: State, text: string, rest: seq<byte>)
    requires Explains(d, flags, next, final, s, text, rest)
    ensures TextFrom(d, State([], flags), next + rest) == text + TextFrom(d, s, rest)
  {
    if final {
      assert next + rest == next;
    } else {
      TextFromConcat(d, State([], flags), next, rest);
    }
  }

  // ----- what a cookie stands for -----

  /** Past the end of the file there is nothing to read, as at its end. */
  function Clip(c: Cookie, data: seq<byte>): Cookie {
    if c.position <= |data| then c else c.(position := |data|)
  }

  /** The text that the bytes of `c` give. */
  function Replayed(d: Decoder, data: seq<byte>, c: Cookie): string
    requires c.position + c.bytesToFeed <= |data|
  {
    Decode(d, State([], c.decFlags), data[c.position..c.position + c.bytesToFeed], c.needEof).1
  }

  /** Restoring `c` succeeds: its bytes are in the file, they give enough text, and
      it asks for the end of file only there. */
  ghost predicate GoodCookie(d: Decoder, data: seq<byte>, c: Cookie) {
    && c.position + c.bytesToFeed <= |data|
    && (c.needEof ==> c.position + c.bytesToFeed == |data|)
    && c.charsToSkip <= |Replayed(d, data, c)|
  }

  ghost function CookieText(d: Decoder, data: seq<byte>, c: Cookie): string {
    if c.position <= |data| && c.charsToSkip <= |TextFrom(d, State([], c.decFlags), data[c.position..])|
    then TextFrom(d, State([], c.decFlags), data[c.position..])[c.charsToSkip..]
    else ""
  }

  /** What is left to read after feeding the cookie's bytes and skipping its
      characters is the text the cookie stands for. */
  lemma CookieFeeds(d: Decoder, data: seq<byte>, c: Cookie)
    requires Lawful(d) && GoodCookie(d, data, c)
    ensures var chunk := data[c.position..c.position + c.bytesToFeed];
            var (s, text) := Decode(d, State([], c.decFlags), chunk, c.needEof);
            && Explains(d, c.decFlags, chunk, c.needEof, s, text, data[c.position + c.bytesToFeed..])
            && c.charsToSkip <= |text|
            && text[c.charsToSkip..] + TextFrom(d, s, data[c.position + c.bytesToFeed..]) == CookieText(d, data, c)
  {
    var start := State([], c.decFlags);
    var chunk := data[c.position..c.position + c.bytesToFeed];
    var rest := data[c.position + c.bytesToFeed..];
    var r := Decode(d, start, chunk, c.needEof);
    DecodeKeepsCanonical(d, start, chunk, c.needEof);
    ExplainedText(d, c.decFlags, chunk, c.needEof, r.0, r.1, rest);
    assert data[c.position..] == chunk + rest;
  }

  // ----- the search of tell -----

  /** Feeding the first `k` bytes of `next` leaves nothing held back, and all but
      `left` of the `used` characters come before that point. */
  ghost predicate StartPoint(d: Decoder, flags: nat, next: seq<byte>, used: nat, k: nat, f: nat, left: nat) {
    && k <= |next|
    && Feed(d, State([], flags), next[..k]).0 == State([], f)
    && |Feed(d, State([], flags), next[..k]).1| + left == used
  }

  lemma NextStartPoint(d: Decoder, flags: nat, next: seq<byte>, used: nat, k: nat, f: nat, left: nat,
                       i: nat, s: State, chars: nat)
    requires StartPoint(d, flags, next, used, k, f, left) && k <= i <= |next|
    requires Feed(d, State([], f), next[k..i]).0 == s && |Feed(d, State([], f), next[k..i]).1| == chars
    requires s.buf == [] && chars <= left
    ensures StartPoint(d, flags, next, used, i, s.flags, left - chars)
  {
    assert next[..i] == next[..k] + next[k..i];
    FeedConcat(d, State([], flags), next[..k], next[k..i]);
  }

  lemma FeedNextByte(d: Decoder, s: State, next: seq<byte>, k: nat, i: nat)
    requires k <= i < |next|
    ensures Feed(d, s, next[k..i + 1]).0 == Feed(d, Feed(d, s, next[k..i]).0, next[i..i + 1]).0
    ensures |Feed(d, s, next[k..i + 1]).1|
         == |Feed(d, s, next[k..i]).1| + |Feed(d, Feed(d, s, next[k..i]).0, next[i..i + 1]).1|
  {
    assert next[k..i + 1] == next[k..i] + next[i..i + 1];
    FeedConcat(d, s, next[k..i], next[i..i + 1]);
  }

  /** After `k` bytes of the snapshot's input the decoder has nothing buffered, and no more
      characters than are used. */
  predicate SafeWithin(d: Decoder, flags: nat, next: seq<byte>, used: nat, k: nat)
    requires k <= |next|
  {
    var r := Feed(d, State([], flags), next[..k]);
    r.0.buf == [] && |r.1| <= used
  }

  function CharsAfter(d: Decoder, flags: nat, next: seq<byte>, k: nat): nat
    requires k <= |next|
  {
    |Feed(d, State([], flags), next[..k]).1|
  }

  /** No safe point after `start` is passed over, and the bytes fed are just those needed. */
  ghost predicate Nearest(d: Decoder, flags: nat, next: seq<byte>, used: nat, start: nat, fed: nat, needEof: bool,
                          left: nat) {
    && start + fed <= |next|
    && (left == 0 ==> fed == 0 && !needEof)
    && (forall k :: start < k <= start + fed ==> !SafeWithin(d, flags, next, used, k))
    && (left > 0 ==> forall k :: start <= k < start + fed ==> CharsAfter(d, flags, next, k) < used)
    && (if needEof then CharsAfter(d, flags, next, |next|) < used
        else CharsAfter(d, flags, next, start + fed) >= used)
  }

  /** Further on in the input, from a start point. */
  lemma AfterStart(d: Decoder, flags: nat, next: seq<byte>, used: nat, k: nat, f: nat, left: nat, i: nat)
    requires StartPoint(d, flags, next, used, k, f, left) && k <= i <= |next|
    ensures var r := Feed(d, State([], f), next[k..i]);
      && CharsAfter(d, flags, next, i) + left == used + |r.1|
      && (SafeWithin(d, flags, next, used, i) <==> r.0.buf == [] && |r.1| <= left)
  {
    assert next[..i] == next[..k] + next[k..i];
    FeedConcat(d, State([], flags), next[..k], next[k..i]);
  }

  lemma CharsGrow(d: Decoder, flags: nat, next: seq<byte>, k: nat, i: nat)
    requires k <= i <= |next|
    ensures CharsAfter(d, flags, next, k) <= CharsAfter(d, flags, next, i)
  {
    assert next[..i] == next[..k] + next[k..i];
    FeedConcat(d, State([], flags), next[..k], next[k..i]);
  }

  /** Where a byte completes just the characters used, and leaves nothing buffered, the
      position needs no characters to be skipped. */
  lemma ExactPoint(d: Decoder, flags: nat, next: seq<byte>, used: nat, start: nat, f: nat, fed: nat, needEof: bool,
                   left: nat, k: nat)
    requires StartPoint(d, flags, next, used, start, f, left) && k <= |next|
    requires Nearest(d, flags, next, used, start, fed, needEof, left)
    requires SafeWithin(d, flags, next, used, k) && CharsAfter(d, flags, next, k) == used
    requires forall j :: 0 <= j < k ==> CharsAfter(d, flags, next, j) < used
    ensures left == 0 && fed == 0 && !needEof && k <= start
  {
    hide SafeWithin;
    assert CharsAfter(d, flags, next, start) + left == used;
    if left > 0 {
      CharsGrow(d, flags, next, k, if k <= start then start else |next|);
      assert false;
    }
  }

  /** Every byte gives one character and leaves the decoder as it was. */
  ghost predicate OneByteEach(d: Decoder, flags: nat) {
    forall b: byte :: OneCharacter(d, flags, b)
  }

  predicate OneCharacter(d: Decoder, flags: nat, b: byte) {
    var r := d.step(State([], flags), b);
    r.0 == State([], flags) && |r.1| == 1
  }

  lemma {:induction false} OneByteFeed(d: Decoder, flags: nat, input: seq<byte>)
    requires OneByteEach(d, flags)
    ensures Feed(d, State([], flags), input).0 == State([], flags)
    ensures |Feed(d, State([], flags), input).1| == |input|
    decreases |input|
  {
    if input != [] {
      assert OneCharacter(d, flags, input[0]);
      OneByteFeed(d, flags, input[1..]);
    }
  }

  /** With such a decoder the search ends at the very byte of the position. */
  lemma OneBytePosition(d: Decoder, flags: nat, next: seq<byte>, used: nat, start: nat, f: nat, fed: nat,
                        needEof: bool, left: nat)
    requires OneByteEach(d, flags) && used <= |next|
    requires StartPoint(d, flags, next, used, start, f, left)
    requires Nearest(d, flags, next, used, start, fed, needEof, left)
    ensures start == used && f == flags && fed == 0 && !needEof && left == 0
  {
    hide OneByteEach;
    forall k | 0 <= k <= |next|
      ensures CharsAfter(d, flags, next, k) == k && Feed(d, State([], flags), next[..k]).0 == State([], flags)
    {
      OneByteFeed(d, flags, next[..k]);
    }
    ExactPoint(d, flags, next, used, start, f, fed, needEof, left, used);
    OneByteFeed(d, flags, next[..start]);
  }

  /** The fast search: from any guess, a start point not past the position; the guess itself
      if it is one. */
  method FastSearch(d: Decoder, decFlags: nat, nextInput: seq<byte>, used: nat, guess: nat)
    returns (skipBytes: nat, startFlags: nat, charsToSkip: nat)
    requires guess <= |nextInput|
    ensures StartPoint(d, decFlags, nextInput, used, skipBytes, startFlags, charsToSkip)
    ensures skipBytes <= guess && (SafeWithin(d, decFlags, nextInput, used, guess) ==> skipBytes == guess)
  {
    assert nextInput[..0] == [];
    startFlags, charsToSkip := decFlags, used;
    var skip: int, skipBack := guess, 1;
    while skip > 0
      invariant skip <= guess && skipBack >= 1
      invariant SafeWithin(d, decFlags, nextInput, used, guess) ==> skip == guess
      decreases skip
    {
      var r := Feed(d, State([], decFlags), nextInput[..skip]);
      var n := |r.1|;
      if n <= used {
        if r.0.buf == [] {
          return skip, r.0.flags, used - n;
        }
        skip := skip - |r.0.buf|;
        skipBack := 1;
      } else {
        skip := skip - skipBack;
        skipBack := skipBack * 2;
      }
    }
    skipBytes := 0;
  }

  /** Feeding `fed` bytes from a start point gives at least `left` characters. */
  ghost predicate Replays(d: Decoder, next: seq<byte>, final: bool, start: nat, f: nat, fed: nat, needEof: bool,
                          left: nat) {
    && start + fed <= |next|
    && (needEof ==> final && start + fed == |next|)
    && left <= |Decode(d, State([], f), next[start..start + fed], needEof).1|
  }

  /** The byte-by-byte walk from a start point to the position. It always gets
      enough characters, if need be from the end of the file. */
  method Walk(d: Decoder, ghost decFlags: nat, nextInput: seq<byte>, ghost used: nat, ghost final: bool,
              skipBytes: nat, flags: nat, chars: nat)
    returns (start: nat, startFlags: nat, bytesFed: nat, needEof: bool, charsToSkip: nat, enough: bool)
    requires StartPoint(d, decFlags, nextInput, used, skipBytes, flags, chars) && chars > 0
    requires used <= |Decode(d, State([], decFlags), nextInput, final).1|
    ensures enough
    ensures StartPoint(d, decFlags, nextInput, used, start, startFlags, charsToSkip)
    ensures Replays(d, nextInput, final, start, startFlags, bytesFed, needEof, charsToSkip)
    ensures Nearest(d, decFlags, nextInput, used, start, bytesFed, needEof, charsToSkip)
  {
    hide SafeWithin; hide CharsAfter;
    start, startFlags, charsToSkip := skipBytes, flags, chars;
    bytesFed, needEof, enough := 0, false, true;
    var charsDecoded := 0;
    var cur := State([], flags);
    var i := skipBytes;
    while i < |nextInput|
      invariant start + bytesFed == i <= |nextInput| && charsDecoded < charsToSkip
      invariant StartPoint(d, decFlags, nextInput, used, start, startFlags, charsToSkip)
      invariant cur == Feed(d, State([], startFlags), nextInput[start..i]).0
      invariant charsDecoded == |Feed(d, State([], startFlags), nextInput[start..i]).1|
      invariant forall k :: start < k <= i ==> !SafeWithin(d, decFlags, nextInput, used, k)
      invariant forall k :: start <= k < i ==> CharsAfter(d, decFlags, nextInput, k) < used
    {
      AfterStart(d, decFlags, nextInput, used, start, startFlags, charsToSkip, i);
      FeedNextByte(d, State([], startFlags), nextInput, start, i);
      var r := Feed(d, cur, nextInput[i..i + 1]);
      bytesFed, charsDecoded, cur := bytesFed + 1, charsDecoded + |r.1|, r.0;
      i := i + 1;
      AfterStart(d, decFlags, nextInput, used, start, startFlags, charsToSkip, i);
      if cur.buf == [] && charsDecoded <= charsToSkip {
        NextStartPoint(d, decFlags, nextInput, used, start, startFlags, charsToSkip, i, cur, charsDecoded);
        start, charsToSkip, startFlags := i, charsToSkip - charsDecoded, cur.flags;
        bytesFed, charsDecoded := 0, 0;
        assert nextInput[i..i] == [];
      }
      if charsDecoded >= charsToSkip {
        return;
      }
    }
    assert nextInput == nextInput[..start] + nextInput[start..] && nextInput[start..i] == nextInput[start..];
    FeedConcat(d, State([], decFlags), nextInput[..start], nextInput[start..]);
    assert final;
    AfterStart(d, decFlags, nextInput, used, start, startFlags, charsToSkip, i);
    charsDecoded := charsDecoded + |d.finish(cur).1|;
    needEof := true;
    enough := charsDecoded >= charsToSkip;
  }

  /** The search of `tell` from a snapshot, for any guess of the fast search that is not
      past the snapshot's input. */
  method FindCookie(d: Decoder, decFlags: nat, nextInput: seq<byte>, used: nat, guess: nat, ghost final: bool)
    returns (start: nat, startFlags: nat, bytesFed: nat, needEof: bool, charsToSkip: nat, enough: bool)
    requires used <= |Decode(d, State([], decFlags), nextInput, final).1|
    requires used > 0 ==> guess <= |nextInput|
    ensures enough
    ensures StartPoint(d, decFlags, nextInput, used, start, startFlags, charsToSkip)
    ensures Replays(d, nextInput, final, start, startFlags, bytesFed, needEof, charsToSkip)
    ensures Nearest(d, decFlags, nextInput, used, start, bytesFed, needEof, charsToSkip)
  {
    start, startFlags, bytesFed, needEof, charsToSkip, enough := 0, decFlags, 0, false, 0, true;
    if used == 0 {
      assert nextInput[..0] == [];
      return;
    }
    start, startFlags, charsToSkip := FastSearch(d, decFlags, nextInput, used, guess);
    if charsToSkip != 0 {
      start, startFlags, bytesFed, needEof, charsToSkip, enough :=
        Walk(d, decFlags, nextInput, used, final, start, startFlags, charsToSkip);
    }
  }
}
