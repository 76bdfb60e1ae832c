/** `TextIOWrapper` over a readable, seekable buffer whose contents do not change. */
module TextStream {
  import opened Basics
  import opened Bits
  import opened Decoders
  import opened NewlineDecoder
  import opened Lines
  import opened Ratios
  import opened TextCookie
  import opened TextSnapshot

  datatype Snapshot = NoSnapshot | Snapshot(decFlags: nat, nextInput: seq<byte>)

  datatype Outcome = At(cookie: nat) | ValueError | UnsupportedOperation | OSError | AssertionError

  const CHUNK_SIZE: nat := 2048

  /** `readline(size)` returns this many characters of the text `t`. */
  function LineLength(mode: Mode, t: string, size: int): nat {
    if 0 <= size < LineEnd(mode, t) then size else LineEnd(mode, t)
  }

  /** What a stream is opened with. */
  ghost predicate Opened(d: Decoder, mode: Mode, data: seq<byte>, bits: nat) {
    && Lawful(d) && FlagsBelow(d, Pow2(bits)) && |data| < Pow2(bits)
    && ValidMode(mode) && (mode.Universal? ==> KeepsPairs(d))
  }

  /** What every state of a stream satisfies. */
  ghost predicate Consistent(d: Decoder, mode: Mode, data: seq<byte>, bits: nat, pos: nat, s: State,
                             decoded: string, used: nat, snapshot: Snapshot) {
    && Opened(d, mode, data, bits)
    && pos <= |data| && used <= |decoded|
    && Canonical(d, s) && s.flags < Pow2(bits)
    && IsSuffix(s.buf, data[..pos])
    && ValidSnapshot(d, data, bits, pos, s, decoded, snapshot)
    && (mode.Universal? && EndsCr(decoded) ==> !StartsLf(TextFrom(d, s, data[pos..])))
  }

  /** Without a snapshot nothing is decoded and the decoder is reset, or spent at
      the end of the file. */
  ghost predicate ValidSnapshot(d: Decoder, data: seq<byte>, bits: nat, pos: nat, s: State,
                                decoded: string, snapshot: Snapshot)
    requires pos <= |data|
  {
    match snapshot
    case NoSnapshot => decoded == "" && (s == RESET || (pos == |data| && d.finish(s) == (s, "")))
    case Snapshot(flags, next) =>
      && flags < Pow2(bits) && IsSuffix(next, data[..pos])
      && exists final: bool :: Explains(d, flags, next, final, s, decoded, data[pos..])
  }

  /** A buffer past its end gives no bytes, so none are held back or to be replayed. */
  predicate NothingPast(data: seq<byte>, bits: nat, pos: nat, past: nat, s: State, snapshot: Snapshot) {
    past > 0 ==>
      && pos == |data| && pos + past < Pow2(bits) && s.buf == []
      && (snapshot.Snapshot? ==> snapshot.nextInput == [])
  }

  class TextIOWrapper {
    const decoder: Decoder
    const mode: Mode
    const data: seq<byte>        // the bytes of the underlying buffer
    const bits: nat              // width of the fields of a cookie; 64 in the source
    const round: real -> real    // how results of floating-point arithmetic are rounded
    var pos: nat                 // bytes read from the buffer
    var past: nat                // bytes by which the buffer stands past its end
    var state: State             // decoder.getstate()
    var decodedChars: string
    var used: nat                // _decoded_chars_used
    var snapshot: Snapshot
    var ratio: real              // _b2cratio

    ghost predicate Valid()
      reads this
    {
      && Consistent(decoder, mode, data, bits, pos, state, decodedChars, used, snapshot)
      && NothingPast(data, bits, pos, past, state, snapshot) && ratio >= 0.0 && Rounds(round)
    }

    /** The ratio is that of the chunk in the snapshot, or smaller. */
    ghost predicate RatioFits()
      reads this`ratio, this`decodedChars, this`snapshot
    {
      snapshot.Snapshot? ==> Covers(ratio, |decodedChars|, |snapshot.nextInput|)
    }

    /** The guess of the fast search lies past the input it searches. */
    ghost predicate GuessTooLarge()
      reads this`ratio, this`used, this`snapshot
      requires ratio >= 0.0 && Rounds(round)
    {
      snapshot.Snapshot? && used > 0 && Guess(round, ratio, used) > |snapshot.nextInput|
    }

    /** The text that is not decoded yet. */
    ghost function Rest(): string
      reads this`pos, this`state
      requires pos <= |data|
    {
      TextFrom(decoder, state, data[pos..])
    }

    /** The text still to be read: the logical position of the stream. */
    ghost function Remaining(): string
      reads this
      requires pos <= |data| && used <= |decodedChars|
    {
      decodedChars[used..] + Rest()
    }

    constructor (decoder: Decoder, mode: Mode, data: seq<byte>, position: nat, bits: nat, round: real -> real)
      requires Opened(decoder, mode, data, bits) && position < Pow2(bits) && Rounds(round)
      ensures Valid() && RatioFits()
      ensures Remaining() == TextFrom(decoder, RESET, if position <= |data| then data[position..] else [])
      ensures this.decoder == decoder && this.mode == mode && this.data == data && this.bits == bits
      ensures this.round == round
    {
      this.decoder, this.mode, this.data, this.bits, this.round := decoder, mode, data, bits, round;
      pos, past := if position <= |data| then position else |data|, if position <= |data| then 0 else position - |data|;
      state, decodedChars, used, snapshot, ratio := RESET, "", 0, NoSnapshot, 0.0;
    }

    /** The next `n` decoded characters, all of them if `n` is negative. */
    method GetDecodedChars(n: int) returns (chars: string)
      requires Valid()
      modifies this`used
      ensures Valid() && chars + Remaining() == old(Remaining())
      ensures |chars| == used - old(used) && decodedChars[used - |chars|..used] == chars
      ensures if 0 <= n < |decodedChars| - old(used) then |chars| == n else used == |decodedChars|
    {
      var offset := used;
      if 0 <= n < |decodedChars| - offset {
        chars := decodedChars[offset..offset + n];
      } else {
        chars := decodedChars[offset..];
      }
      used := used + |chars|;
      assert decodedChars[offset..] == chars + decodedChars[used..];
      assert chars + (decodedChars[used..] + Rest()) == decodedChars[offset..] + Rest();
    }

    method SetDecodedChars(chars: string)
      modifies this`decodedChars, this`used
      ensures decodedChars == chars && used == 0
    {
      decodedChars, used := chars, 0;
    }

    /** The buffer delivers any number of bytes up to the chunk size, and none only
        at the end. */
    method BufferRead1() returns (chunk: seq<byte>)
      requires pos <= |data|
      modifies this`pos
      ensures old(pos) <= pos <= |data| && chunk == data[old(pos)..pos]
      ensures chunk == [] <==> old(pos) == |data|
    {
      var available := |data| - pos;
      var n: nat :| n <= CHUNK_SIZE && n <= available && (n == 0 <==> available == 0) by {
        assert available > 0 ==> 1 <= CHUNK_SIZE && 1 <= available;
      }
      chunk := data[pos..pos + n];
      pos := pos + n;
    }

    /** `_read_chunk`: it returns False only at the end of the file, and moves
        text from the undecoded to the decoded part. */
    method ReadChunk() returns (more: bool)
      requires Valid() && used == |decodedChars|
      modifies this
      ensures Valid() && RatioFits() && used == 0 && snapshot.Snapshot?
      ensures pos >= old(pos) && ratio == RatioOf(round, pos - old(pos), |decodedChars|)
      ensures Remaining() == old(Remaining())
      ensures more <==> old(pos) < |data|
      ensures if more then pos > old(pos) else pos == old(pos) && decoder.finish(state) == (state, "")
      ensures !more ==> decodedChars == decoder.finish(old(state)).1 && Rest() == ""
    {
      hide Covers; hide RatioOf; hide Explains; hide Opened; hide NothingPast;
      var decBuffer, decFlags := state.buf, state.flags;
      var chunk := BufferRead1();
      var eof := chunk == [];
      var r := Decode(decoder, state, chunk, eof);
      ChunkRead(decoder, mode, data, bits, old(pos), state, decodedChars, snapshot, pos, eof);
      assert decodedChars[used..] == "";
      ReadPast(decoder, mode, data, bits, old(pos), past, state, decodedChars, snapshot, pos, eof);
      state := r.0;
      SetDecodedChars(r.1);
      ratio := RatioOf(round, |chunk|, |decodedChars|);
      snapshot := Snapshot(decFlags, decBuffer + chunk);
      RatioOfChunk(round, |chunk|, |decodedChars|, |snapshot.nextInput|);
      more := !eof;
    }

    method ReadAll() returns (result: string)
      requires Valid()
      modifies this
      ensures Valid() && RatioFits() && result == old(Remaining()) && Remaining() == ""
    {
      hide Opened; hide ValidSnapshot; hide NothingPast; hide Explains;
      result := GetDecodedChars(-1);
      assert decodedChars[used..] == "";
      var r := Decode(decoder, state, data[pos..], true);
      AllRead(decoder, mode, data, bits, pos, state, decodedChars, snapshot);
      ReadPast(decoder, mode, data, bits, pos, past, state, decodedChars, snapshot, |data|, true);
      assert data[pos..] == data[pos..|data|];
      pos, state := |data|, r.0;
      result := result + r.1;
      SetDecodedChars("");
      snapshot := NoSnapshot;
    }

    method ReadMore(n: nat) returns (chars: string, more: bool)
      requires Valid() && used == |decodedChars|
      modifies this
      ensures Valid() && RatioFits() && chars + Remaining() == old(Remaining()) && |chars| <= n
      ensures |chars| < n ==> used == |decodedChars| && (!more ==> Remaining() == "")
      ensures if more then pos > old(pos) else pos == old(pos)
    {
      hide TextIOWrapper.Remaining;
      more := ReadChunk();
      chars := GetDecodedChars(n);
      if |chars| < n && !more { AllUsed(); }
    }

    /** `read(size)`: the next `size` characters, or all that are left. */
    method Read(size: int) returns (result: string)
      requires Valid()
      modifies this
      ensures Valid() && result + Remaining() == old(Remaining()) && (old(RatioFits()) ==> RatioFits())
      ensures if size < 0 then Remaining() == ""
              else |result| == if size < |old(Remaining())| then size else |old(Remaining())|
    {
      hide TextIOWrapper.Remaining;
      if size < 0 {
        result := ReadAll();
        assert result + "" == result;
        return;
      }
      var eof := false;
      result := GetDecodedChars(size);
      while |result| < size && !eof
        invariant Valid() && result + Remaining() == old(Remaining()) && |result| <= size
        invariant old(RatioFits()) ==> RatioFits()
        invariant |result| < size ==> used == |decodedChars| && (eof ==> Remaining() == "")
        decreases |data| - pos, !eof
      {
        var chars, more := ReadMore(size - |result|);
        eof := !more;
        assert result + (chars + Remaining()) == (result + chars) + Remaining();
        result := result + chars;
      }
    }

    method RewindDecodedChars(n: nat) returns (inBounds: bool)
      modifies this`used
      ensures inBounds <==> old(used) >= n
      ensures used == if inBounds then old(used) - n else old(used)
    {
      if used < n {
        return false;
      }
      used := used - n;
      inBounds := true;
    }

    /** Reads chunks until one gives text; no text means the end of the file. */
    method ReadSomeText()
      requires Valid() && used == |decodedChars|
      modifies this
      ensures Valid() && RatioFits() && used == 0 && Remaining() == old(Remaining())
      ensures pos >= old(pos)
      ensures decodedChars == "" ==> pos == |data| && decoder.finish(state) == (state, "") && Rest() == ""
      ensures decodedChars != "" && pos == old(pos) ==>
                decoder.finish(old(state)).1 != "" && decoder.finish(state).1 == ""
    {
      var more := ReadChunk();
      while more && decodedChars == ""
        invariant Valid() && RatioFits() && used == 0 && Remaining() == old(Remaining()) && pos >= old(pos)
        invariant more ==> pos > old(pos)
        invariant !more ==> Rest() == "" && pos == |data| && decoder.finish(state) == (state, "")
        invariant !more && pos == old(pos) ==> decodedChars == decoder.finish(old(state)).1
        decreases |data| - pos, more
      {
        more := ReadChunk();
      }
    }

    /** Appends the next text to a line all of whose characters are used. */
    method FetchText() returns (chars: string)
      requires Valid() && used == |decodedChars|
      modifies this
      ensures Valid() && RatioFits() && used == |decodedChars| && chars == decodedChars
      ensures chars + Rest() == old(Rest()) && pos >= old(pos)
      ensures chars == "" ==> Rest() == "" && snapshot.NoSnapshot?
      ensures chars != "" && pos == old(pos) ==>
                decoder.finish(old(state)).1 != "" && decoder.finish(state).1 == ""
    {
      hide TextIOWrapper.Remaining;
      AllUsed();
      ReadSomeText();
      if decodedChars == "" {
        AllUsed();
        SetDecodedChars("");
        snapshot := NoSnapshot;
        chars := "";
        assert "" + Rest() == Rest();
      } else {
        chars := GetDecodedChars(-1);
        AllUsed();
      }
    }

    lemma AllUsed()
      requires Valid() && used == |decodedChars|
      ensures Remaining() == Rest()
    {
      assert decodedChars[used..] == "";
    }

    /** The loop of `readline`: text is fetched until the line end or the size is
        reached (`endpos`), or until the end of the file (`endpos` is -1). */
    method GatherLine(size: int) returns (line: string, endpos: int)
      requires Valid()
      modifies this
      ensures Valid() && used == |decodedChars| && (old(RatioFits()) ==> RatioFits())
      ensures line + Rest() == old(Remaining())
      ensures endpos < 0 ==> Rest() == "" && LineLength(mode, line, size) == |line|
      ensures endpos >= 0 ==> EndsAt(mode, line, old(Remaining()), size, decodedChars, endpos)
    {
      ghost var text := Remaining();
      line := GetDecodedChars(-1);
      ghost var prev := "";
      var start := 0;
      endpos := -1;
      NothingGathered(mode, line, text, size, decodedChars, old(used), Rest());
      while endpos < 0
        invariant Valid() && used == |decodedChars| && (old(RatioFits()) ==> RatioFits())
        invariant Gathered(mode, prev, line, text, size, decodedChars, Rest())
        invariant start == if mode.Exact? then 0 else |prev|
        invariant endpos >= 0 ==> EndsAt(mode, line, text, size, decodedChars, endpos)
        decreases |data| - pos, decoder.finish(state).1 != "", endpos < 0
      {
        endpos := SearchLine(mode, line, start, size, prev, text, decodedChars, Rest());
        if endpos < 0 {
          if !mode.Exact? {
            start := |line|;
          }
          ghost var rest := Rest();
          var chars := FetchText();
          if chars == "" {
            AllGathered(mode, prev, line, text, size, rest);
            return;
          }
          GatherMore(mode, line, text, size, rest, chars, Rest());
          prev := line;
          line := line + chars;
        }
      }
    }

    /** `readline(size)`: the text up to and including its first line end, cut at
        `size`. Putting back the rest of the last chunk never fails. */
    method ReadLine(size: int) returns (result: string, inBounds: bool)
      requires Valid()
      modifies this
      ensures inBounds && Valid() && result + Remaining() == old(Remaining()) && (old(RatioFits()) ==> RatioFits())
      ensures |result| == LineLength(mode, old(Remaining()), size)
      ensures var line := LineEnd(mode, old(Remaining()));
        |result| == if 0 <= size < line then size else line
    {
      hide TextIOWrapper.Remaining; hide Buffered;
      var line, endpos := GatherLine(size);
      if endpos < 0 {
        AllUsed();
        assert line + "" == line;
        return line, true;
      }
      if size >= 0 && endpos > size {
        endpos := size;
      }
      result, inBounds := PutBackAfter(line, endpos);
    }

    /** Rewinds to just after position `n` of the line. */
    method PutBackAfter(line: string, n: nat) returns (result: string, inBounds: bool)
      requires Valid() && used == |decodedChars| && Buffered(line, decodedChars, n)
      modifies this`used
      ensures inBounds && Valid() && |result| == n && result + Remaining() == line + Rest()
    {
      PutBack(line, decodedChars, n, Rest());
      inBounds := RewindDecodedChars(|line| - n);
      result := line[..n];
    }

    /** Seeking to `cookie` gives back exactly `text` to read. */
    ghost predicate Restores(cookie: nat, text: string) {
      var c := Clip(Unpack(cookie, bits), data);
      GoodCookie(decoder, data, c) && CookieText(decoder, data, c) == text
    }

    /** While the ratio fits, no guess is too large. */
    lemma RatioGuesses()
      requires Valid() && RatioFits() && (snapshot.Snapshot? ==> |snapshot.nextInput| <= LARGEST)
      ensures !GuessTooLarge()
    {
      hide Covers; hide Guess; hide Opened; hide ValidSnapshot;
      if snapshot.Snapshot? { GuessInRange(round, ratio, used, |decodedChars|, |snapshot.nextInput|); }
    }

    /** The cookie starts at the nearest safe point before the position that the search can
        come to, and feeds no more bytes than it takes from there. */
    ghost predicate StartsNear(c: Cookie)
      reads this
      requires snapshot.Snapshot?
    {
      var next, base := snapshot.nextInput, pos + past - |snapshot.nextInput|;
      && base <= c.position
      && StartPoint(decoder, snapshot.decFlags, next, used, c.position - base, c.decFlags, c.charsToSkip)
      && Nearest(decoder, snapshot.decFlags, next, used, c.position - base, c.bytesToFeed, c.needEof, c.charsToSkip)
    }

    /** `tell`: the cookie restores the current position, and the stream is left as it
        was. It raises exactly for a guess past the input of the snapshot. */
    method Tell() returns (r: Outcome)
      requires Valid() && |decodedChars| < Pow2(bits)
      modifies this
      ensures pos == old(pos) && past == old(past) && state == old(state) && decodedChars == old(decodedChars)
      ensures used == old(used) && snapshot == old(snapshot) && ratio == old(ratio)
      ensures GuessTooLarge() ==> r == AssertionError
      ensures !GuessTooLarge() ==> r.At? && Restores(r.cookie, Remaining())
      ensures snapshot.NoSnapshot? ==> r == At(pos + past)
      ensures snapshot.Snapshot? && !GuessTooLarge() ==> r.At? && StartsNear(Unpack(r.cookie, bits))
    {
      if snapshot.NoSnapshot? {
        if decodedChars != "" {
          return AssertionError;
        }
        TellWithoutSnapshot(decoder, mode, data, bits, pos, past, state, decodedChars, used);
        return At(pos + past);
      }
      ghost var final :|
        Explains(decoder, snapshot.decFlags, snapshot.nextInput, final, state, decodedChars, data[pos..]);
      var guess: nat := 0;
      if used > 0 {
        guess := Guess(round, ratio, used);
        if guess > |snapshot.nextInput| {
          return AssertionError;
        }
      }
      var start, flags, bytesFed, needEof, chars, enough :=
        FindCookie(decoder, snapshot.decFlags, snapshot.nextInput, used, guess, final);
      if !enough {
        return OSError;
      }
      var c := Cookie(pos + past - |snapshot.nextInput| + start, flags, bytesFed, needEof, chars);
      TellCookie(decoder, mode, data, bits, pos, past, state, decodedChars, used, snapshot, final, start, c);
      r := At(Pack(c, bits));
    }

    /** `seek(cookie)`; the buffer may be sent past its end. */
    method SeekTo(cookie: int) returns (r: Outcome)
      requires Valid()
      modifies this
      ensures ratio == old(ratio)
      ensures cookie < 0 ==> r == ValueError && unchanged(this)
      ensures cookie >= 0 ==> pos <= |data| && used <= |decodedChars|
      ensures cookie >= 0 && GoodCookie(decoder, data, Clip(Unpack(cookie, bits), data)) ==>
                r == At(cookie) && Valid() && Remaining() == CookieText(decoder, data, Clip(Unpack(cookie, bits), data))
      ensures cookie >= 0 && GoodCookie(decoder, data, Clip(Unpack(cookie, bits), data)) ==>
                Sought(Clip(Unpack(cookie, bits), data))
      ensures r.OSError? <==> cookie >= 0 && TooShort(Unpack(cookie, bits))
      ensures r.OSError? ==> LeftShort(Unpack(cookie, bits))
    {
      hide CookieText; hide Replayed; hide GoodCookie; hide ValidSnapshot; hide FlagsBelow; hide Canonical;
      if cookie < 0 {
        return ValueError;
      }
      var c := Unpack(cookie, bits);
      ZeroCookie(bits);
      Restart(c, cookie == 0);
      if c.charsToSkip != 0 {
        var enough := SkipText(c);
        if !enough {
          return OSError;
        }
      }
      r := At(cookie);
    }

    /** `seek(cookie, whence)`: only seeks by 0 are possible from the current position, where
        nothing changes but what `tell` raises, and from the end of the file, where nothing is
        left to be read. */
    method Seek(cookie: int, whence: int) returns (r: Outcome)
      requires Valid() && (whence == 1 && cookie == 0 ==> |decodedChars| < Pow2(bits))
      modifies this
      ensures ratio == old(ratio)
      ensures whence !in {0, 1, 2} ==> r == ValueError && unchanged(this)
      ensures whence in {1, 2} && cookie != 0 ==> r == UnsupportedOperation && unchanged(this)
      ensures whence == 1 && cookie == 0 && old(GuessTooLarge()) ==>
                r == AssertionError && unchanged(`pos, `past, `state, `decodedChars, `used, `snapshot)
      ensures whence == 1 && cookie == 0 && !old(GuessTooLarge()) ==>
                r.At? && Valid() && Remaining() == old(Remaining())
      ensures whence == 2 && cookie == 0 ==> r == At(|data|) && Valid() && Remaining() == ""
      ensures whence == 0 && cookie < 0 ==> r == ValueError && unchanged(this)
      ensures whence == 0 && cookie >= 0 && Restorable(cookie) ==>
                r == At(cookie) && Valid() && Restores(cookie, Remaining())
      ensures whence == 0 ==> (r.OSError? <==> cookie >= 0 && TooShort(Unpack(cookie, bits)))
    {
      hide ValidSnapshot; hide CookieText; hide GoodCookie; hide Opened; hide Unpack;
      if whence == 1 {
        if cookie != 0 {
          return UnsupportedOperation;
        }
        r := Tell();
        if r.At? {
          r := SeekTo(r.cookie);
        }
        return;
      }
      if whence == 2 {
        if cookie != 0 {
          return UnsupportedOperation;
        }
        AtEnd(decoder, mode, data, bits);
        pos, past := |data|, 0;
        SetDecodedChars("");
        snapshot, state := NoSnapshot, RESET;
        return At(|data|);
      }
      if whence != 0 {
        return ValueError;
      }
      r := SeekTo(cookie);
    }

    /** The cookie can be replayed. */
    ghost predicate Restorable(cookie: nat) {
      GoodCookie(decoder, data, Clip(Unpack(cookie, bits), data))
    }

    /** Goes back to the start point of `c`, with the decoder as it was there. */
    method Restart(c: Cookie, reset: bool)
      requires Opened(decoder, mode, data, bits) && ratio >= 0.0 && Rounds(round)
      requires c.position < Pow2(bits) && c.decFlags < Pow2(bits) && (reset ==> c == Cookie(0, 0, 0, false, 0))
      modifies this
      ensures ratio == old(ratio) && AtStart(c) && pos <= |data| && used == 0 && decodedChars == ""
      ensures c.charsToSkip == 0 && GoodCookie(decoder, data, Clip(c, data)) ==>
                Valid() && Remaining() == CookieText(decoder, data, Clip(c, data)) && Sought(Clip(c, data))
    {
      hide Opened; hide NothingPast; hide CookieText; hide Consistent;
      pos, past := if c.position <= |data| then c.position else |data|,
                   if c.position <= |data| then 0 else c.position - |data|;
      SetDecodedChars("");
      snapshot := NoSnapshot;
      if reset {
        state := RESET;
      } else {
        state := State([], c.decFlags);
        snapshot := Snapshot(c.decFlags, []);
      }
      if c.charsToSkip == 0 && GoodCookie(decoder, data, Clip(c, data)) {
        SoughtPast(decoder, mode, data, bits, c, past);
        SoughtToStart(decoder, mode, data, bits, Clip(c, data), reset);
      }
    }

    /** The bytes of `c` that are in the file give too little text to skip its characters. */
    predicate TooShort(c: Cookie) {
      var start := Clip(c, data).position;
      var end := if c.bytesToFeed <= |data| - start then start + c.bytesToFeed else |data|;
      c.charsToSkip > 0 && |Decode(decoder, State([], c.decFlags), data[start..end], c.needEof).1| < c.charsToSkip
    }

    /** Where a seek to such a cookie stops: its bytes are decoded, and nothing is skipped. */
    ghost predicate LeftShort(c: Cookie)
      reads this
    {
      var start := Clip(c, data).position;
      var end := if c.bytesToFeed <= |data| - start then start + c.bytesToFeed else |data|;
      && pos == end && past == c.position - start && used == 0
      && snapshot == Snapshot(c.decFlags, data[start..end])
      && (state, decodedChars) == Decode(decoder, State([], c.decFlags), data[start..end], c.needEof)
    }

    ghost predicate AtStart(c: Cookie)
      reads this`pos, this`past, this`state
    {
      pos == Clip(c, data).position && past == c.position - pos && state == State([], c.decFlags)
    }

    /** Feeds the bytes of `c` to the decoder and skips its characters; false if they give
        too few. */
    method SkipText(c: Cookie) returns (enough: bool)
      requires Opened(decoder, mode, data, bits) && AtStart(c) && c.charsToSkip > 0 && ratio >= 0.0 && Rounds(round)
      requires c.position < Pow2(bits) && c.decFlags < Pow2(bits)
      modifies this
      ensures ratio == old(ratio) && pos <= |data| && used <= |decodedChars| && enough == !TooShort(c)
      ensures !enough ==> LeftShort(c)
      ensures GoodCookie(decoder, data, Clip(c, data)) ==>
                enough && Valid() && Remaining() == CookieText(decoder, data, Clip(c, data)) && Sought(Clip(c, data))
    {
      hide Opened; hide NothingPast; hide CookieText; hide Consistent; hide Pow2; hide Decode; hide TextFrom;
      ghost var good := GoodCookie(decoder, data, Clip(c, data));
      if good {
        SoughtPast(decoder, mode, data, bits, c, past);
        SoughtIntoText(decoder, mode, data, bits, Clip(c, data));
      }
      var end := if c.bytesToFeed <= |data| - pos then pos + c.bytesToFeed else |data|;
      var inputChunk := data[pos..end];
      pos := end;
      var decoded := Decode(decoder, state, inputChunk, c.needEof);
      state := decoded.0;
      SetDecodedChars(decoded.1);
      snapshot := Snapshot(c.decFlags, inputChunk);
      if |decodedChars| < c.charsToSkip {
        return false;
      }
      used := c.charsToSkip;
      enough := true;
    }

    /** The stream as a seek to `c` leaves it: its characters are skipped, and if there are
        any the snapshot holds its bytes, and their text is decoded. */
    ghost predicate Sought(c: Cookie)
      requires c.position + c.bytesToFeed <= |data|
      reads this`used, this`snapshot, this`decodedChars
    {
      && used == c.charsToSkip
      && (used > 0 ==> snapshot.Snapshot? && |snapshot.nextInput| == c.bytesToFeed)
      && decodedChars == if used > 0 then Replayed(decoder, data, c) else ""
    }
  }

  lemma AtEnd(d: Decoder, mode: Mode, data: seq<byte>, bits: nat)
    requires Opened(d, mode, data, bits)
    ensures Consistent(d, mode, data, bits, |data|, RESET, "", 0, NoSnapshot)
    ensures TextFrom(d, RESET, data[|data|..]) == ""
  {
    assert data[|data|..] == [];
  }

  /** Reading past the end holds nothing back. */
  lemma ReadPast(d: Decoder, mode: Mode, data: seq<byte>, bits: nat, p: nat, past: nat, s: State, decoded: string,
                 snapshot: Snapshot, q: nat, eof: bool)
    requires Consistent(d, mode, data, bits, p, s, decoded, |decoded|, snapshot)
    requires NothingPast(data, bits, p, past, s, snapshot) && p <= q <= |data|
    ensures var r, next := Decode(d, s, data[p..q], eof), s.buf + data[p..q];
      && NothingPast(data, bits, q, past, r.0, Snapshot(s.flags, next))
      && NothingPast(data, bits, q, past, r.0, NoSnapshot)
  {
    if past > 0 {
      assert data[p..q] == [] && s.buf + [] == s.buf;
      NothingHeld(d, s, eof);
    }
  }

  /** Nor does seeking there. */
  lemma SoughtPast(d: Decoder, mode: Mode, data: seq<byte>, bits: nat, c: Cookie, past: nat)
    requires Opened(d, mode, data, bits) && c.position < Pow2(bits) && GoodCookie(d, data, Clip(c, data))
    requires past == c.position - Clip(c, data).position
    ensures var (start, s) := (Clip(c, data).position, State([], c.decFlags));
      var end := start + c.bytesToFeed;
      && NothingPast(data, bits, start, past, s, NoSnapshot)
      && NothingPast(data, bits, start, past, s, Snapshot(c.decFlags, []))
      && NothingPast(data, bits, end, past, Decode(d, s, data[start..end], c.needEof).0,
                     Snapshot(c.decFlags, data[start..end]))
  {
    if past > 0 {
      assert data[|data|..|data|] == [];
      NothingHeld(d, State([], c.decFlags), c.needEof);
    }
  }

  /** Without bytes held back or new ones, none are held back afterwards. */
  lemma NothingHeld(d: Decoder, s: State, eof: bool)
    requires Lawful(d) && Canonical(d, s) && s.buf == []
    ensures Decode(d, s, [], eof).0.buf == []
  {
    if eof { assert FinishLaw(d, s); }
  }

  lemma TellWithoutSnapshot(d: Decoder, mode: Mode, data: seq<byte>, bits: nat, pos: nat, past: nat, s: State,
                            decoded: string, used: nat)
    requires Consistent(d, mode, data, bits, pos, s, decoded, used, NoSnapshot)
    requires NothingPast(data, bits, pos, past, s, NoSnapshot)
    ensures Unpack(pos + past, bits) == Cookie(pos + past, 0, 0, false, 0)
    ensures Clip(Cookie(pos + past, 0, 0, false, 0), data) == Cookie(pos, 0, 0, false, 0)
    ensures GoodCookie(d, data, Cookie(pos, 0, 0, false, 0))
    ensures CookieText(d, data, Cookie(pos, 0, 0, false, 0)) == decoded[used..] + TextFrom(d, s, data[pos..])
  {
    PlainCookie(pos + past, bits);
    assert data[|data|..] == [];
  }

  lemma PlainCookie(position: nat, bits: nat)
    requires position < Pow2(bits)
    ensures Unpack(position, bits) == Cookie(position, 0, 0, false, 0)
  {
    var c := Cookie(position, 0, 0, false, 0);
    var w := Pow2(bits);
    var r1, r2, r3 := PackIsSum(c, bits, 0, w);
    assert 0 * w == 0;
    CookieRoundTrip(c, bits);
  }

  /** A start point inside the snapshot makes a cookie for the current position. */
  lemma TellCookie(d: Decoder, mode: Mode, data: seq<byte>, bits: nat, pos: nat, past: nat, s: State,
                   decoded: string, used: nat, snapshot: Snapshot, final: bool, start: nat, c: Cookie)
    requires Consistent(d, mode, data, bits, pos, s, decoded, used, snapshot) && snapshot.Snapshot?
    requires |decoded| < Pow2(bits) && NothingPast(data, bits, pos, past, s, snapshot)
    requires Explains(d, snapshot.decFlags, snapshot.nextInput, final, s, decoded, data[pos..])
    requires StartPoint(d, snapshot.decFlags, snapshot.nextInput, used, start, c.decFlags, c.charsToSkip)
    requires Replays(d, snapshot.nextInput, final, start, c.decFlags, c.bytesToFeed, c.needEof, c.charsToSkip)
    requires c.position == pos + past - |snapshot.nextInput| + start
    ensures Unpack(Pack(c, bits), bits) == c
    ensures GoodCookie(d, data, Clip(c, data))
    ensures CookieText(d, data, Clip(c, data)) == decoded[used..] + TextFrom(d, s, data[pos..])
  {
    var inside := c.(position := pos - |snapshot.nextInput| + start);
    PositionFits(d, mode, data, bits, pos, past, s, decoded, used, snapshot, start, c);
    CookieInside(d, mode, data, bits, pos, s, decoded, used, snapshot, final, start, inside);
    CookieRoundTrip(c, bits);
  }

  lemma PositionFits(d: Decoder, mode: Mode, data: seq<byte>, bits: nat, pos: nat, past: nat, s: State,
                     decoded: string, used: nat, snapshot: Snapshot, start: nat, c: Cookie)
    requires Consistent(d, mode, data, bits, pos, s, decoded, used, snapshot) && snapshot.Snapshot?
    requires NothingPast(data, bits, pos, past, s, snapshot) && start <= |snapshot.nextInput|
    requires c.position == pos + past - |snapshot.nextInput| + start
    ensures |snapshot.nextInput| <= pos && c.position < Pow2(bits)
    ensures Clip(c, data) == c.(position := pos - |snapshot.nextInput| + start)
  {
    assert IsSuffix(snapshot.nextInput, data[..pos]);
  }

  lemma CookieInside(d: Decoder, mode: Mode, data: seq<byte>, bits: nat, pos: nat, s: State,
                     decoded: string, used: nat, snapshot: Snapshot, final: bool, start: nat, c: Cookie)
    requires Consistent(d, mode, data, bits, pos, s, decoded, used, snapshot) && snapshot.Snapshot?
    requires |decoded| < Pow2(bits)
    requires Explains(d, snapshot.decFlags, snapshot.nextInput, final, s, decoded, data[pos..])
    requires StartPoint(d, snapshot.decFlags, snapshot.nextInput, used, start, c.decFlags, c.charsToSkip)
    requires Replays(d, snapshot.nextInput, final, start, c.decFlags, c.bytesToFeed, c.needEof, c.charsToSkip)
    requires c.position == pos - |snapshot.nextInput| + start
    ensures TextCookie.Fits(c, bits) && GoodCookie(d, data, c)
    ensures CookieText(d, data, c) == decoded[used..] + TextFrom(d, s, data[pos..])
  {
    var next, rest := snapshot.nextInput, data[pos..];
    FeedKeepsFlags(d, State([], snapshot.decFlags), next[..start], Pow2(bits));
    SnapshotBytes(data, pos, next, start, c.bytesToFeed);
    StartPointText(d, snapshot.decFlags, next, final, s, decoded, rest, used, start, c.decFlags, c.charsToSkip);
  }

  /** From a start point the text still to be read is the text after `left` characters. */
  lemma StartPointText(d: Decoder, flags: nat, next: seq<byte>, final: bool, s: State, decoded: string,
                       rest: seq<byte>, used: nat, start: nat, f: nat, left: nat)
    requires Explains(d, flags, next, final, s, decoded, rest) && used <= |decoded|
    requires StartPoint(d, flags, next, used, start, f, left)
    ensures left <= |TextFrom(d, State([], f), next[start..] + rest)|
    ensures TextFrom(d, State([], f), next[start..] + rest)[left..] == decoded[used..] + TextFrom(d, s, rest)
  {
    var s0 := State([], flags);
    ExplainedText(d, flags, next, final, s, decoded, rest);
    assert next + rest == next[..start] + (next[start..] + rest);
    TextFromConcat(d, s0, next[..start], next[start..] + rest);
    var first := Feed(d, s0, next[..start]).1;
    DropPrefix(first, TextFrom(d, State([], f), next[start..] + rest), decoded, TextFrom(d, s, rest), used, left);
  }

  lemma SnapshotBytes(data: seq<byte>, pos: nat, next: seq<byte>, start: nat, fed: nat)
    requires pos <= |data| && IsSuffix(next, data[..pos]) && start + fed <= |next|
    ensures var base := pos - |next|;
      && data[base + start..base + start + fed] == next[start..start + fed]
      && data[base + start..] == next[start..] + data[pos..]
  {
    var base := pos - |next|;
    var rest := data[pos..];
    assert next == data[base..pos];
    assert data[base..] == next + rest;
    assert next[start..start + fed] == data[base + start..base + start + fed];
    assert (next + rest)[start..] == next[start..] + rest;
  }

  lemma DropPrefix(first: string, second: string, decoded: string, rest: string, used: nat, chars: nat)
    requires first + second == decoded + rest && |first| + chars == used <= |decoded|
    ensures chars <= |second| && second[chars..] == decoded[used..] + rest
  {
    assert |first + second| == |decoded + rest|;
    assert second[chars..] == (first + second)[used..];
  }

  lemma SoughtToStart(d: Decoder, mode: Mode, data: seq<byte>, bits: nat, c: Cookie, reset: bool)
    requires Opened(d, mode, data, bits)
    requires GoodCookie(d, data, c) && c.decFlags < Pow2(bits) && c.charsToSkip == 0
    requires reset ==> c.decFlags == 0
    ensures Consistent(d, mode, data, bits, c.position, State([], c.decFlags), "", 0,
                       if reset then NoSnapshot else Snapshot(c.decFlags, []))
    ensures TextFrom(d, State([], c.decFlags), data[c.position..]) == CookieText(d, data, c)
  {
    assert Explains(d, c.decFlags, [], false, State([], c.decFlags), "", data[c.position..]);
  }

  lemma SoughtIntoText(d: Decoder, mode: Mode, data: seq<byte>, bits: nat, c: Cookie)
    requires Opened(d, mode, data, bits)
    requires GoodCookie(d, data, c) && c.decFlags < Pow2(bits)
    ensures var end := c.position + c.bytesToFeed;
      var r := Decode(d, State([], c.decFlags), data[c.position..end], c.needEof);
      && Consistent(d, mode, data, bits, end, r.0, r.1, c.charsToSkip, Snapshot(c.decFlags, data[c.position..end]))
      && r.1[c.charsToSkip..] + TextFrom(d, r.0, data[end..]) == CookieText(d, data, c)
  {
    var start, end := State([], c.decFlags), c.position + c.bytesToFeed;
    CookieFeeds(d, data, c);
    DecodeKeepsFlags(d, start, data[c.position..end], c.needEof, Pow2(bits));
    FreshSuffixes(d, c.decFlags, data, c.position, end, c.needEof);
    if mode.Universal? {
      FreshKeepsPairs(d, c.decFlags, data, c.position, end, c.needEof);
    }
  }

  lemma FreshSuffixes(d: Decoder, flags: nat, data: seq<byte>, p: nat, q: nat, eof: bool)
    requires Lawful(d) && p <= q <= |data|
    ensures Canonical(d, Decode(d, State([], flags), data[p..q], eof).0)
    ensures IsSuffix(Decode(d, State([], flags), data[p..q], eof).0.buf, data[..q])
    ensures IsSuffix(data[p..q], data[..q])
  {
    var chunk := data[p..q];
    DecodeKeepsCanonical(d, State([], flags), chunk, eof);
    assert [] + chunk == chunk;
    assert data[..q][p..] == chunk;
    SuffixTrans(Decode(d, State([], flags), chunk, eof).0.buf, chunk, data[..q]);
  }

  lemma FreshKeepsPairs(d: Decoder, flags: nat, data: seq<byte>, p: nat, q: nat, eof: bool)
    requires Lawful(d) && KeepsPairs(d) && p <= q <= |data| && (eof ==> q == |data|)
    ensures var r := Decode(d, State([], flags), data[p..q], eof);
      EndsCr(r.1) ==> !StartsLf(TextFrom(d, r.0, data[q..]))
  {
    var s, chunk := State([], flags), data[p..q];
    if eof {
      DecodeKeepsCanonical(d, s, chunk, true);
      assert data[q..] == [];
    } else {
      assert CutAfter(d, s, chunk, data[q..], true);
    }
  }

  lemma PlainPosition(n: nat, p: nat, bits: nat)
    requires Unpack(n, bits) == Cookie(p, 0, 0, false, 0)
    ensures n == p
  {
    var w := Pow2(bits);
    var rest1 := n / w;
    var rest2 := rest1 / w;
    var rest3 := rest2 / w;
    NothingAbove(rest3, w);
    NothingAbove(rest2, w);
    NothingAbove(rest1, w);
    NothingAbove(n, w);
  }

  lemma NothingAbove(n: nat, w: nat)
    requires w > 0 && n / w == 0
    ensures n == n % w
  {
  }

  /** With a codec of one byte for each character `tell` returns the plain position in the
      file: that of the snapshot and the characters used since. */
  method TellOneByte(w: TextIOWrapper) returns (r: Outcome)
    requires w.Valid() && |w.decodedChars| < Pow2(w.bits) && !w.GuessTooLarge()
    requires w.snapshot.Snapshot? && w.snapshot.decFlags == 0 && w.used <= |w.snapshot.nextInput|
    requires OneByteEach(w.decoder, 0)
    modifies w
    ensures r == At(old(w.pos + w.past - |w.snapshot.nextInput| + w.used))
  {
    hide OneByteEach; hide StartPoint; hide Nearest; hide Unpack; hide TextIOWrapper.Valid;
    r := w.Tell();
    var c := Unpack(r.cookie, w.bits);
    ghost var next, base := w.snapshot.nextInput, w.pos + w.past - |w.snapshot.nextInput|;
    OneBytePosition(w.decoder, 0, next, w.used, c.position - base, c.decFlags, c.bytesToFeed, c.needEof, c.charsToSkip);
    PlainPosition(r.cookie, base + w.used, w.bits);
  }

  /** Read any amount and any line, and come back. This fails only if `tell` does. */
  method Bookmark(w: TextIOWrapper, size: int, limit: int) returns (r: Outcome)
    requires w.Valid() && |w.decodedChars| < Pow2(w.bits)
    modifies w
    ensures old(w.GuessTooLarge()) ==> r == AssertionError
    ensures !old(w.GuessTooLarge()) ==> r.At? && w.Valid() && w.Remaining() == old(w.Remaining())
  {
    var here := w.Tell();
    if !here.At? {
      return here;
    }
    var text := w.Read(size);
    var line, _ := w.ReadLine(limit);
    r := w.SeekTo(here.cookie);
  }

  /** A seek keeps the ratio of the chunk read before it: a `tell` right after a seek into
      decoded text raises exactly if that ratio guesses past the bytes of the cookie. */
  method SeekAndTell(w: TextIOWrapper, cookie: nat) returns (r: Outcome)
    requires w.Valid() && GoodCookie(w.decoder, w.data, Clip(Unpack(cookie, w.bits), w.data))
    requires |Replayed(w.decoder, w.data, Clip(Unpack(cookie, w.bits), w.data))| < Pow2(w.bits)
    modifies w
    ensures old(w.ratio) >= 0.0 && Rounds(w.round)
    ensures var c := Unpack(cookie, w.bits);
      if c.charsToSkip > 0 && Guess(w.round, old(w.ratio), c.charsToSkip) > c.bytesToFeed then r == AssertionError
      else r.At? && w.Restores(r.cookie, CookieText(w.decoder, w.data, Clip(c, w.data)))
  {
    hide Guess; hide ValidSnapshot; hide CookieText; hide Replayed; hide Unpack;
    var _ := w.SeekTo(cookie);
    r := w.Tell();
  }

  /** A stateless decoder: 255 gives two characters, 0 none, other bytes one. */
  function Uneven(): Decoder {
    Decoder((s: State, b: byte) => (s, if b == 255 then "ab" else if b == 0 then "" else "c"), (s: State) => (s, ""))
  }

  lemma UnevenIsLawful()
    ensures Lawful(Uneven())
  {
    var d := Uneven();
    forall s: State | Canonical(d, s) ensures s.buf == [] { UnevenKeepsState(State([], s.flags), s.buf); }
    forall s: State, b: byte | Canonical(d, s) ensures StepLaw(d, s, b) {
      assert (s.buf + [b])[1..] == [];
    }
  }

  lemma {:induction false} UnevenKeepsState(s: State, input: seq<byte>)
    ensures Feed(Uneven(), s, input).0 == s
    decreases |input|
  {
    if input != [] { UnevenKeepsState(s, input[1..]); }
  }

  /** A ratio that guesses too far: of the bytes 255, 0, 0, 0, 0, 65 the first is read as
      one chunk and the others as another. `tell` after the first character gives `c`;
      after all is read and `c` is sought, the ratio is that of the second chunk. */
  lemma StaleRatioGuessesTooFar(round: real -> real) returns (c: Cookie)
    requires Rounds(round)
    ensures var d, data := Uneven(), [255, 0, 0, 0, 0, 65];
      && Lawful(d)
      && StartPoint(d, 0, data[..1], 1, 0, c.decFlags, c.charsToSkip)
      && Replays(d, data[..1], false, 0, c.decFlags, c.bytesToFeed, c.needEof, c.charsToSkip)
      && GoodCookie(d, data, c) && c.charsToSkip > 0
      && (var ratio := RatioOf(round, 5, |Decode(d, RESET, data[1..], false).1|);
          ratio >= 0.0 && Guess(round, ratio, c.charsToSkip) > c.bytesToFeed)
  {
    var d, data: seq<byte> := Uneven(), [255, 0, 0, 0, 0, 65];
    c := Cookie(0, 0, 1, false, 1);
    UnevenIsLawful();
    assert data[..1][..0] == [] && data[..1][0..1] == [255] && data[0..1] == [255];
    FeedOne(d, RESET, 255);
    assert data[1..] == [0] + ([0] + ([0] + ([0] + [65])));
    FeedConcat(d, RESET, [0], [0] + ([0] + ([0] + [65])));
    FeedConcat(d, RESET, [0], [0] + ([0] + [65]));
    FeedConcat(d, RESET, [0], [0] + [65]);
    FeedConcat(d, RESET, [0], [65]);
    FeedOne(d, RESET, 0);
    FeedOne(d, RESET, 65);
    FiveBytesGuess(round);
  }

  lemma FeedOne(d: Decoder, s: State, b: byte)
    ensures Feed(d, s, [b]) == d.step(s, b)
  {
    var r := d.step(s, b);
    assert [b][1..] == [] && r.1 + "" == r.1;
  }

  function CutAt(size: int, endpos: int): int {
    if size >= 0 && endpos > size then size else endpos
  }

  /** What follows position `n` of the line is the end of the decoded text. */
  ghost predicate Buffered(line: string, decoded: string, n: int) {
    && 0 <= n <= |line| && |line| - n <= |decoded|
    && decoded[|decoded| - (|line| - n)..] == line[n..]
  }

  /** Cut at `size`, `endpos` is where the line ends, and it lies in the decoded text. */
  ghost predicate EndsAt(mode: Mode, line: string, text: string, size: int, decoded: string, endpos: int) {
    && CutAt(size, endpos) == LineLength(mode, text, size)
    && Buffered(line, decoded, CutAt(size, endpos))
  }

  lemma PutBack(line: string, decoded: string, n: nat, rest: string)
    requires Buffered(line, decoded, n)
    ensures line[..n] + (decoded[|decoded| - (|line| - n)..] + rest) == line + rest
  {
    assert line[..n] + line[n..] == line;
  }

  /** `prev` was searched without finding a line end, and is shorter than `size`. */
  ghost predicate Searched(mode: Mode, prev: string, text: string, size: int) {
    && prev <= text && CutIsSafe(mode, prev, text)
    && NoTerminator(mode, prev, |prev|)
    && (size < 0 || |prev| < size)
  }

  /** The line so far: `prev` was searched, and the rest is the end of the decoded
      text, all of which is used. */
  ghost predicate Gathered(mode: Mode, prev: string, line: string, text: string, size: int,
                           decoded: string, rest: string) {
    && line + rest == text && prev <= line <= text
    && CutIsSafe(mode, line, text)
    && Buffered(line, decoded, |prev|)
    && (prev != "" ==> Searched(mode, prev, text, size))
  }

  lemma NothingGathered(mode: Mode, line: string, text: string, size: int, decoded: string, used: nat, rest: string)
    requires used <= |decoded| && line == decoded[used..] && text == line + rest
    requires mode.Universal? && EndsCr(decoded) ==> !StartsLf(rest)
    ensures Gathered(mode, "", line, text, size, decoded, rest)
  {
    SafeCut(mode, "", line, text, rest);
  }

  /** Text from the decoder never stops inside a two-character newline. */
  lemma SafeCut(mode: Mode, head: string, chars: string, text: string, rest: string)
    requires head + chars + rest == text
    requires chars == "" ==> head == ""
    requires mode.Universal? && EndsCr(chars) ==> !StartsLf(rest)
    ensures head + chars <= text && CutIsSafe(mode, head + chars, text)
  {
    var line := head + chars;
    if chars != "" { assert line[|line| - 1] == chars[|chars| - 1]; }
    if rest != "" { assert text[|line|] == rest[0]; }
  }

  lemma GatherMore(mode: Mode, line: string, text: string, size: int, rest: string, chars: string, rest': string)
    requires Searched(mode, line, text, size) && line + rest == text && rest == chars + rest' && chars != ""
    requires mode.Universal? && EndsCr(chars) ==> !StartsLf(rest')
    ensures Gathered(mode, line, line + chars, text, size, chars, rest')
  {
    assert line + (chars + rest') == (line + chars) + rest';
    SafeCut(mode, line, chars, text, rest');
    assert (line + chars)[|line|..] == chars == chars[0..];
  }

  lemma AllGathered(mode: Mode, prev: string, line: string, text: string, size: int, rest: string)
    requires ValidMode(mode) && Searched(mode, line, text, size) && line + rest == text && rest == ""
    ensures line == text && LineLength(mode, line, size) == |line|
  {
    NotFoundInPrefix(mode, line, text);
    LineEndInRange(mode, text);
  }

  /** Without a given terminator the part already searched need not be searched again. */
  lemma SearchResumes(mode: Mode, prev: string, line: string, text: string, size: int)
    requires Searched(mode, prev, text, size) && prev <= line <= text
    ensures !mode.Exact? ==> NoTerminator(mode, line, |prev|)
  {
    if !mode.Exact? {
      forall k | 0 <= k < |prev| ensures Terminator(mode, line, k) == 0 {
        assert Terminator(mode, prev, k) == 0;
      }
    }
  }

  lemma BufferedSuffix(line: string, decoded: string, m: int, n: int)
    requires Buffered(line, decoded, m) && m <= n <= |line|
    ensures Buffered(line, decoded, n)
  {
    assert line[n..] == line[m..][n - m..];
    var d := |decoded| - (|line| - m);
    assert decoded[d..][n - m..] == decoded[d + n - m..];
  }

  /** One round of the search in `readline`; -1 asks for more text. */
  method SearchLine(mode: Mode, line: string, start: nat, size: int,
                    ghost prev: string, ghost text: string, ghost decoded: string, ghost rest: string)
    returns (endpos: int)
    requires ValidMode(mode) && Gathered(mode, prev, line, text, size, decoded, rest)
    requires start == if mode.Exact? then 0 else |prev|
    ensures endpos < 0 ==> Searched(mode, line, text, size)
    ensures endpos >= 0 ==> EndsAt(mode, line, text, size, decoded, endpos)
  {
    if prev != "" {
      SearchResumes(mode, prev, line, text, size);
      NotFoundInPrefix(mode, prev, text);
    }
    ghost var at;
    endpos, at := SearchLineEnd(mode, line, start);
    if endpos >= 0 {
      FoundInPrefix(mode, line, text, at);
      BufferedSuffix(line, decoded, |prev|, CutAt(size, endpos));
    } else {
      NotFoundInPrefix(mode, line, text);
      if size >= 0 && |line| >= size {
        endpos := size;
        BufferedSuffix(line, decoded, |prev|, size);
      }
    }
  }

  /** After a chunk is decoded the held bytes before it together with the chunk
      explain the state of the decoder. */
  lemma ChunkExplained(d: Decoder, data: seq<byte>, p: nat, q: nat, s: State, eof: bool)
    requires Lawful(d) && Canonical(d, s)
    requires p <= q <= |data| && IsSuffix(s.buf, data[..p]) && (eof ==> q == |data|)
    ensures var r := Decode(d, s, data[p..q], eof);
      && Explains(d, s.flags, s.buf + data[p..q], eof, r.0, r.1, data[q..])
      && Canonical(d, r.0)
      && IsSuffix(r.0.buf, data[..q]) && IsSuffix(s.buf + data[p..q], data[..q])
  {
    var chunk := data[p..q];
    var r := Decode(d, s, chunk, eof);
    DecodeKeepsCanonical(d, s, chunk, eof);
    HeldThenChunk(d, s, chunk, eof);
    ChunkSuffixes(s.buf, data, p, q, r.0.buf);
  }

  /** No text is lost. */
  lemma ChunkText(d: Decoder, data: seq<byte>, p: nat, q: nat, s: State, eof: bool)
    requires Lawful(d) && Canonical(d, s)
    requires p <= q <= |data| && (eof ==> p == q == |data|)
    ensures var r := Decode(d, s, data[p..q], eof);
      && TextFrom(d, s, data[p..]) == r.1 + TextFrom(d, r.0, data[q..])
      && (eof ==> r.1 == d.finish(s).1 && TextFrom(d, r.0, data[q..]) == "" && d.finish(r.0) == (r.0, ""))
  {
    var chunk := data[p..q];
    DecodeKeepsCanonical(d, s, chunk, eof);
    if eof {
      assert chunk == [] && data[p..] == [] && data[q..] == [];
    } else {
      assert data[p..] == chunk + data[q..];
      TextFromConcat(d, s, chunk, data[q..]);
    }
  }

  /** What `_read_chunk` does to the state of the stream. */
  lemma ChunkRead(d: Decoder, mode: Mode, data: seq<byte>, bits: nat, p: nat, s: State, decoded: string,
                  snapshot: Snapshot, q: nat, eof: bool)
    requires Consistent(d, mode, data, bits, p, s, decoded, |decoded|, snapshot)
    requires p <= q <= |data| && (eof <==> data[p..q] == []) && (eof <==> p == |data|)
    ensures var r := Decode(d, s, data[p..q], eof);
      && Consistent(d, mode, data, bits, q, r.0, r.1, 0, Snapshot(s.flags, s.buf + data[p..q]))
      && TextFrom(d, s, data[p..]) == r.1 + TextFrom(d, r.0, data[q..])
      && (eof ==> r.1 == d.finish(s).1 && TextFrom(d, r.0, data[q..]) == "" && d.finish(r.0) == (r.0, ""))
  {
    ChunkExplained(d, data, p, q, s, eof);
    ChunkText(d, data, p, q, s, eof);
    DecodeKeepsFlags(d, s, data[p..q], eof, Pow2(bits));
    ChunkKeepsPairs(d, mode, data, p, q, s, eof);
  }

  lemma SpentSnapshot(d: Decoder, data: seq<byte>, bits: nat, s: State)
    ensures d.finish(s) == (s, "") ==> ValidSnapshot(d, data, bits, |data|, s, "", NoSnapshot)
  {
  }

  lemma AllRead(d: Decoder, mode: Mode, data: seq<byte>, bits: nat, p: nat, s: State, decoded: string,
                snapshot: Snapshot)
    requires Consistent(d, mode, data, bits, p, s, decoded, |decoded|, snapshot)
    ensures var r := Decode(d, s, data[p..], true);
      && Consistent(d, mode, data, bits, |data|, r.0, "", 0, NoSnapshot)
      && TextFrom(d, r.0, data[|data|..]) == ""
  {
    hide ValidSnapshot;
    var r := Decode(d, s, data[p..], true);
    SpentSnapshot(d, data, bits, r.0);
    assert data[p..] == data[p..|data|] && data[|data|..] == [];
    DecodeKeepsCanonical(d, s, data[p..], true);
    DecodeKeepsFlags(d, s, data[p..], true, Pow2(bits));
    ChunkSuffixes(s.buf, data, p, |data|, r.0.buf);
  }

  lemma HeldThenChunk(d: Decoder, s: State, chunk: seq<byte>, eof: bool)
    requires Canonical(d, s)
    ensures Decode(d, State([], s.flags), s.buf + chunk, eof).0 == Decode(d, s, chunk, eof).0
    ensures Decode(d, State([], s.flags), s.buf + chunk, eof).1 == Decode(d, s, chunk, eof).1
  {
    DecodeConcat(d, State([], s.flags), s.buf, chunk, eof);
  }

  lemma ChunkSuffixes(held: seq<byte>, data: seq<byte>, p: nat, q: nat, held': seq<byte>)
    requires p <= q <= |data| && IsSuffix(held, data[..p]) && IsSuffix(held', held + data[p..q])
    ensures IsSuffix(held', data[..q]) && IsSuffix(held + data[p..q], data[..q])
  {
    assert data[..q] == data[..p] + data[p..q];
    SuffixGrows(held, data[..p], data[p..q]);
    SuffixTrans(held', held + data[p..q], data[..q]);
  }

  lemma SuffixGrows(a: seq<byte>, b: seq<byte>, c: seq<byte>)
    requires IsSuffix(a, b)
    ensures IsSuffix(a + c, b + c)
  {
    var n := |b| - |a|;
    assert b == b[..n] + a;
    assert b + c == b[..n] + (a + c);
  }

  lemma ChunkKeepsPairs(d: Decoder, mode: Mode, data: seq<byte>, p: nat, q: nat, s: State, eof: bool)
    requires p <= q <= |data| && (eof ==> p == q == |data|)
    requires Lawful(d) && Canonical(d, s) && (mode.Universal? ==> KeepsPairs(d))
    ensures var r := Decode(d, s, data[p..q], eof);
      mode.Universal? && EndsCr(r.1) ==> !StartsLf(TextFrom(d, r.0, data[q..]))
  {
    if mode.Universal? {
      assert CutAfter(d, s, data[p..q], data[q..], true);
      if eof {
        DecodeKeepsCanonical(d, s, data[p..q], true);
        assert data[q..] == [];
      }
    }
  }
}
