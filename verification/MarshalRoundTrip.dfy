/** Reading undoes writing, whatever bytes come after. */
module MarshalRoundTrip {
  import opened Basics
  import opened MarshalFormat

  predicate Reads(s: seq<byte>, it: Item, rest: seq<byte>) {
    Decode(s) == Some((it, rest))
  }

  lemma AtomDecodes(code: char, flag: bool, leaf: Leaf, t: seq<byte>, rest: seq<byte>)
    requires code in "igylus" && DecodeLeaf(code, flag, t) == Some((Atom(flag, leaf), rest))
    ensures Reads([Flagged(code as byte, flag)] + t, Atom(flag, leaf), rest)
  {
    hide DecodeLeaf; hide DecodeMany; hide DecodePairs; hide ReadHeader; hide ReadLong;
    assert ([Flagged(code as byte, flag)] + t)[1..] == t;
  }

  lemma IntRoundTrip(n: int, flag: bool, rest: seq<byte>)
    requires IntBytes(n, flag).Some?
    ensures Reads(IntBytes(n, flag).value + rest, Atom(flag, Int(n)), rest)
  {
    hide Decode; hide Reads; hide Long; hide ReadLong; hide Digits; hide ReadDigits; hide Shorts; hide FitsLong;
    var s := IntBytes(n, flag).value + rest;
    if FitsLong(n) {
      LongRoundTrip(n, rest);
      assert s == [Flagged('i' as byte, flag)] + (Long(n).value + rest);
      AtomDecodes('i', flag, Int(n), Long(n).value + rest, rest);
    } else {
      var m: nat := if n < 0 then -n else n;
      DigitsAreDigits(m);
      var count: int := if n < 0 then -|Digits(m)| else |Digits(m)|;
      var tail := Shorts(Digits(m)) + rest;
      OnlyFittingLongs(count);
      LongRoundTrip(count, tail);
      DigitsRoundTrip(m, rest);
      assert (count < 0) == (n < 0) by { SomeDigits(m); }
      assert s == [Flagged('l' as byte, flag)] + (Long(count).value + tail);
      AtomDecodes('l', flag, Int(n), Long(count).value + tail, rest);
    }
  }

  lemma OnlyFittingLongs(n: int)
    ensures Long(n).Some? <==> FitsLong(n)
  {
  }

  lemma SomeDigits(n: nat)
    ensures |Digits(n)| == 0 <==> n == 0
  {
  }

  lemma CountedRoundTrip(data: seq<byte>, rest: seq<byte>)
    requires Counted(data).Some?
    ensures ReadCounted(Counted(data).value + rest) == Some((data, rest))
  {
    LongRoundTrip(|data|, data + rest);
    assert Counted(data).value + rest == Long(|data|).value + (data + rest);
    assert (data + rest)[..|data|] == data && (data + rest)[|data|..] == rest;
  }

  lemma LeafRoundTrip(leaf: Leaf, flag: bool, rest: seq<byte>)
    requires LeafBytes(leaf, flag).Some?
    ensures Reads(LeafBytes(leaf, flag).value + rest, Atom(flag, leaf), rest)
  {
    hide Decode; hide Reads; hide Counted; hide ReadCounted; hide IntBytes;
    var s := LeafBytes(leaf, flag).value + rest;
    match leaf
    case Int(n) => IntRoundTrip(n, flag, rest);
    case Float(d) =>
      assert s == [Flagged('g' as byte, flag)] + (d + rest) && (d + rest)[..8] == d && (d + rest)[8..] == rest;
      AtomDecodes('g', flag, leaf, d + rest, rest);
    case Complex(re, im) =>
      var t := re + im + rest;
      assert s == [Flagged('y' as byte, flag)] + t && t[..8] == re && t[8..16] == im && t[16..] == rest;
      AtomDecodes('y', flag, leaf, t, rest);
    case Str(data) =>
      CountedRoundTrip(data, rest);
      assert s == [Flagged('u' as byte, flag)] + (Counted(data).value + rest);
      AtomDecodes('u', flag, leaf, Counted(data).value + rest, rest);
    case Bytes(data) =>
      CountedRoundTrip(data, rest);
      assert s == [Flagged('s' as byte, flag)] + (Counted(data).value + rest);
      AtomDecodes('s', flag, leaf, Counted(data).value + rest, rest);
  }

  predicate HeaderFits(h: Header) {
    FitsLong(h.argcount) && FitsLong(h.posonlyargcount) && FitsLong(h.kwonlyargcount) && FitsLong(h.nlocals) &&
    FitsLong(h.stacksize) && FitsLong(h.flags)
  }

  lemma LongAt(s: seq<byte>, i: nat, n: int)
    requires FitsLong(n) && i + 4 <= |s| && s[i..i + 4] == Long(n).value
    ensures ReadLong(s[i..]).Some? && ReadLong(s[i..]).value.0 == n
  {
    LongRoundTrip(n, s[i + 4..]);
    assert s[i..] == Long(n).value + s[i + 4..];
  }

  lemma HeaderRoundTrip(h: Header, rest: seq<byte>)
    requires HeaderBytes(h).Some?
    ensures ReadHeader(HeaderBytes(h).value + rest) == Some((h.(firstlineno := 0), rest))
  {
    assert HeaderFits(h);
    var s := HeaderBytes(h).value + rest;
    hide Long; hide ReadLong;
    assert forall n :: FitsLong(n) ==> Long(n).Some? && |Long(n).value| == 4 by { LongLength(); }
    SixParts(Long(h.argcount).value, Long(h.posonlyargcount).value, Long(h.kwonlyargcount).value,
             Long(h.nlocals).value, Long(h.stacksize).value, Long(h.flags).value, rest);
    LongAt(s, 0, h.argcount);
    LongAt(s, 4, h.posonlyargcount);
    LongAt(s, 8, h.kwonlyargcount);
    LongAt(s, 12, h.nlocals);
    LongAt(s, 16, h.stacksize);
    LongAt(s, 20, h.flags);
    assert s[0..] == s;
  }

  lemma SixParts(a: seq<byte>, b: seq<byte>, c: seq<byte>, d: seq<byte>, e: seq<byte>, f: seq<byte>, rest: seq<byte>)
    requires |a| == |b| == |c| == |d| == |e| == |f| == 4
    ensures var s := a + b + c + d + e + f + rest;
      s[0..4] == a && s[4..8] == b && s[8..12] == c && s[12..16] == d && s[16..20] == e && s[20..24] == f
      && s[24..] == rest
  {
  }

  lemma LongLength()
    ensures forall n :: FitsLong(n) ==> Long(n).Some? && |Long(n).value| == 4
  {
  }

  lemma FirstByte(it: Item)
    requires Encode(it).Some?
    ensures Encode(it).value != [] && Encode(it).value[0] != TYPE_NULL
  {
  }

  lemma {:induction false} EncodeGrows(items: seq<Item>, it: Item, lo: nat)
    requires lo <= |items|
    ensures EncodeAll(items + [it], lo, |items| + 1) == Join(EncodeAll(items, lo, |items|), Encode(it))
    decreases |items| - lo
  {
    var all := items + [it];
    if lo == |items| {
      assert all[lo] == it && EncodeAll(all, lo + 1, lo + 1) == Some([]) && EncodeAll(items, lo, lo) == Some([]);
      if Encode(it).Some? {
        assert Encode(it).value + [] == Encode(it).value;
        assert [] + Encode(it).value == Encode(it).value;
      }
    } else {
      EncodeGrows(items, it, lo + 1);
      assert all[lo] == items[lo];
      JoinAssoc(Encode(items[lo]), EncodeAll(items, lo + 1, |items|), Encode(it));
    }
  }

  lemma JoinAssoc(a: Option<seq<byte>>, b: Option<seq<byte>>, c: Option<seq<byte>>)
    ensures Join(a, Join(b, c)) == Join(Join(a, b), c)
  {
    if a.Some? && b.Some? && c.Some? { assert a.value + (b.value + c.value) == a.value + b.value + c.value; }
  }

  lemma {:induction false} EncodePrefix(items: seq<Item>, more: seq<Item>, lo: nat, hi: nat)
    requires lo <= hi <= |items|
    ensures EncodeAll(items + more, lo, hi) == EncodeAll(items, lo, hi)
    decreases hi - lo
  {
    if lo < hi { EncodePrefix(items, more, lo + 1, hi); }
  }

  /** The bytes of `it` followed by anything read as `it` followed by that. */
  lemma {:induction false} RoundTrip(it: Item, rest: seq<byte>)
    requires Shaped(it) && Encode(it).Some?
    ensures Reads(Encode(it).value + rest, it, rest)
    decreases it, 1, 0
  {
    match it
    case Single(s) =>
      assert ([SingletonCode(s)] + rest)[1..] == rest;
    case Ref(a) =>
      LongRoundTrip(a, rest);
      assert (Encode(it).value + rest)[1..] == Long(a).value + rest;
    case Atom(flag, leaf) => LeafRoundTrip(leaf, flag, rest);
    case Node(flag, shape, items) => NodeRoundTrip(it, rest);
  }

  lemma {:induction false} NodeRoundTrip(it: Item, rest: seq<byte>)
    requires it.Node? && Shaped(it) && Encode(it).Some?
    ensures Reads(Encode(it).value + rest, it, rest)
    decreases it, 0, 0
  {
    hide Decode; hide DecodeMany; hide DecodePairs; hide Reads; hide EncodeAll; hide Long; hide ReadLong;
    hide ReadHeader;
    hide HeaderBytes;
    var shape, items := it.shape, it.items;
    var k := Cut(shape, |items|);
    var before, after := Before(shape, |items|).value, After(shape).value;
    var first, last := EncodeAll(items, 0, k).value, EncodeAll(items, k, |items|).value;
    var s := Encode(it).value + rest;
    var tail := after + (last + rest);
    assert s == [Flagged(ShapeCode(shape), it.flag)] + (before + (first + tail));
    assert s[1..] == before + (first + tail);
    hide Encode;
    if shape.Code? {
      ManyRoundTrip(items, 0, 8, tail);
      HeaderRoundTrip(shape.header, first + tail);
      OnlyFittingLongs(shape.header.firstlineno);
      LongRoundTrip(shape.header.firstlineno, last + rest);
      EncodeOne(items);
      RoundTrip(items[8], rest);
      assert items[0..8] == items[..8];
      CodeDecodes(it, s, first + tail, tail, last + rest, rest);
    } else {
      assert last == [] && items[0..] == items == items[0..k] by { EncodeNone(items, k); }
      if shape.Dict? {
        assert before + (first + tail) == first + tail && tail == [TYPE_NULL] + rest;
        PairsRoundTrip(items, 0, rest);
        DictDecodes(it.flag, s, items, rest);
      } else {
        assert tail == rest;
        ManyRoundTrip(items, 0, k, rest);
        OnlyFittingLongs(|items|);
        LongRoundTrip(|items|, first + rest);
        ListDecodes(it, s, first + rest, rest);
      }
    }
  }

  lemma EncodeNone(items: seq<Item>, k: nat)
    requires k == |items|
    ensures EncodeAll(items, k, |items|) == Some([])
  {
  }

  lemma EncodeOne(items: seq<Item>)
    requires |items| == 9
    ensures EncodeAll(items, 8, 9).Some? ==> Encode(items[8]).Some? && EncodeAll(items, 8, 9) == Encode(items[8])
  {
    var e := Encode(items[8]);
    if e.Some? { assert e.value + [] == e.value; }
  }

  lemma DictDecodes(flag: bool, s: seq<byte>, items: seq<Item>, rest: seq<byte>)
    requires s != [] && s[0] == Flagged('{' as byte, flag) && DecodePairs(s[1..]) == Some((items, rest))
    ensures Reads(s, Node(flag, Dict, items), rest)
  {
    hide DecodeMany; hide DecodePairs; hide ReadLong; hide ReadHeader; hide DecodeLeaf;
  }

  lemma CodeDecodes(it: Item, s: seq<byte>, u: seq<byte>, v: seq<byte>, w: seq<byte>, rest: seq<byte>)
    requires it.Node? && it.shape.Code? && |it.items| == 9 && s != [] && s[0] == Flagged('c' as byte, it.flag)
    requires ReadHeader(s[1..]) == Some((it.shape.header.(firstlineno := 0), u))
    requires DecodeMany(8, u) == Some((it.items[..8], v))
    requires ReadLong(v) == Some((it.shape.header.firstlineno, w))
    requires Decode(w) == Some((it.items[8], rest))
    ensures Reads(s, it, rest)
  {
    hide ReadHeader; hide ReadLong; hide DecodeMany;
    assert it.items[..8] + [it.items[8]] == it.items;
    var h := it.shape.header;
    assert h.(firstlineno := 0).(firstlineno := h.firstlineno) == h;
  }

  lemma ListDecodes(it: Item, s: seq<byte>, u: seq<byte>, rest: seq<byte>)
    requires it.Node? && !it.shape.Code? && !it.shape.Dict?
    requires s != [] && s[0] == Flagged(ShapeCode(it.shape), it.flag)
    requires ReadLong(s[1..]) == Some((|it.items|, u)) && DecodeMany(|it.items|, u) == Some((it.items, rest))
    ensures Reads(s, it, rest)
  {
    hide DecodeMany; hide DecodePairs; hide ReadLong; hide ReadHeader; hide DecodeLeaf;
  }

  lemma {:induction false} ManyRoundTrip(items: seq<Item>, lo: nat, hi: nat, rest: seq<byte>)
    requires lo <= hi <= |items| && EncodeAll(items, lo, hi).Some?
    requires forall i :: 0 <= i < |items| ==> Shaped(items[i])
    ensures DecodeMany(hi - lo, EncodeAll(items, lo, hi).value + rest) == Some((items[lo..hi], rest))
    decreases items, 0, hi - lo
  {
    hide Decode; hide Encode; hide Shaped;
    if lo == hi {
      assert [] + rest == rest;
    } else {
      var b, more := Encode(items[lo]).value, EncodeAll(items, lo + 1, hi).value + rest;
      assert EncodeAll(items, lo, hi).value + rest == b + more;
      RoundTrip(items[lo], more);
      ManyRoundTrip(items, lo + 1, hi, rest);
      assert [items[lo]] + items[lo + 1..hi] == items[lo..hi];
    }
  }

  lemma {:induction false} PairsRoundTrip(items: seq<Item>, lo: nat, rest: seq<byte>)
    requires lo <= |items| && (|items| - lo) % 2 == 0 && EncodeAll(items, lo, |items|).Some?
    requires forall i :: 0 <= i < |items| ==> Shaped(items[i])
    ensures DecodePairs(EncodeAll(items, lo, |items|).value + ([TYPE_NULL] + rest)) == Some((items[lo..], rest))
    decreases items, 0, |items| - lo
  {
    hide Decode; hide Encode; hide Shaped;
    var end := [TYPE_NULL] + rest;
    if lo == |items| {
      assert [] + end == end && end[1..] == rest;
    } else {
      assert lo + 1 < |items|;
      var key, value := Encode(items[lo]).value, Encode(items[lo + 1]).value;
      var more := EncodeAll(items, lo + 2, |items|).value + end;
      var s := EncodeAll(items, lo, |items|).value + end;
      assert s == key + (value + more);
      FirstByte(items[lo]);
      assert s[0] == key[0];
      RoundTrip(items[lo], value + more);
      RoundTrip(items[lo + 1], more);
      PairsRoundTrip(items, lo + 2, rest);
      assert [items[lo], items[lo + 1]] + items[lo + 2..] == items[lo..];
    }
  }

  // ----- when the writer raises -----

  /** Every number that is written in four bytes fits in them. */
  predicate Writable(it: Item) {
    match it
    case Single(_) => true
    case Ref(a) => FitsLong(a)
    case Atom(_, Int(n)) =>
      FitsLong(n) || FitsLong(if n < 0 then -|Digits(-n)| else |Digits(n)|)
    case Atom(_, Str(data)) => FitsLong(|data|)
    case Atom(_, Bytes(data)) => FitsLong(|data|)
    case Atom(_, _) => true
    case Node(_, shape, items) =>
      && (if shape.Code? then HeaderFits(shape.header) && FitsLong(shape.header.firstlineno)
          else shape.Dict? || FitsLong(|items|))
      && forall i :: 0 <= i < |items| ==> Writable(items[i])
  }

  lemma {:induction false} WritesExactlyTheWritable(it: Item)
    requires Shaped(it)
    ensures Encode(it).Some? <==> Writable(it)
    decreases it
  {
    hide Long; hide Digits; hide Shorts; hide EncodeAll;
    if it.Node? {
      var items := it.items;
      forall i | 0 <= i < |items| ensures Encode(items[i]).Some? <==> Writable(items[i]) {
        WritesExactlyTheWritable(items[i]);
      }
      NodeEncodes(it);
    } else {
      forall n ensures Long(n).Some? <==> FitsLong(n) { OnlyFittingLongs(n); }
    }
  }

  lemma NodeEncodes(it: Item)
    requires it.Node? && Shaped(it)
    ensures Encode(it).Some? <==>
      && (if it.shape.Code? then HeaderFits(it.shape.header) && FitsLong(it.shape.header.firstlineno)
          else it.shape.Dict? || FitsLong(|it.items|))
      && forall i :: 0 <= i < |it.items| ==> Encode(it.items[i]).Some?
  {
    hide Long; hide EncodeAll; hide HeaderBytes; hide FitsLong; hide HeaderFits;
    var items := it.items;
    var k := Cut(it.shape, |items|);
    AllEncode(items, 0, k);
    AllEncode(items, k, |items|);
    OnlyFittingLongs(|items|);
    if it.shape.Code? {
      OnlyFittingLongs(it.shape.header.firstlineno);
      HeaderEncodes(it.shape.header);
    }
  }

  lemma HeaderEncodes(h: Header)
    ensures HeaderBytes(h).Some? <==> HeaderFits(h)
  {
    forall n ensures Long(n).Some? <==> FitsLong(n) { OnlyFittingLongs(n); }
    hide Long; hide FitsLong;
  }

  lemma {:induction false} AllEncode(items: seq<Item>, lo: nat, hi: nat)
    requires lo <= hi <= |items|
    ensures EncodeAll(items, lo, hi).Some? <==> forall i :: lo <= i < hi ==> Encode(items[i]).Some?
    decreases hi - lo
  {
    hide Encode;
    if lo < hi { AllEncode(items, lo + 1, hi); }
  }
}
