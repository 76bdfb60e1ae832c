/** The bytes of marshal, in numbers: the type codes, the order of bytes and fields. The reader
    of the round trip shares these with the writer, so it cannot vouch for them. */
module MarshalBytes {
  import opened Basics
  import opened MarshalFormat
  import opened MarshalRefs
  import opened MarshalRoundTrip
  import opened MarshalDump

  /** `_w_long` is little-endian two's complement. */
  lemma LongIsLittleEndian(n: int)
    requires FitsLong(n)
    ensures Long(n).Some? && |Long(n).value| == 4
    ensures var b := Long(n).value;
      n == b[0] as int + 0x100 * b[1] as int + 0x1_0000 * b[2] as int + 0x100_0000 * b[3] as int
           - if b[3] >= 128 then 0x1_0000_0000 else 0
  {
    var u := if n < 0 then n + 0x1_0000_0000 else n;
    LittleRoundTrip(u, []);
    assert Little(u) + [] == Little(u);
  }

  lemma ShortIsLittleEndian(d: nat)
    requires d < 0x8000
    ensures |Short(d)| == 2 && d == Short(d)[0] as nat + 0x100 * Short(d)[1] as nat
  {
  }

  /** A type code, with 128 added for a flagged object. */
  function Coded(code: nat, flag: bool): int {
    code + if flag then 128 else 0
  }

  predicate StartsWith(b: seq<byte>, code: nat, flag: bool) {
    b != [] && b[0] as int == Coded(code, flag)
  }

  lemma SingletonBytes()
    ensures Encode(Single(NoneObject)) == Some([78]) && Encode(Single(StopIteration)) == Some([83])
    ensures Encode(Single(Ellipsis)) == Some([46])
    ensures Encode(Single(False)) == Some([70]) && Encode(Single(True)) == Some([84])
  {
  }

  /** What stands for an atom, after its code. */
  predicate AtomLaidOut(leaf: Leaf, flag: bool, b: seq<byte>) {
    match leaf
    case Int(n) =>
      if -0x8000_0000 <= n <= 0x7FFF_FFFF then StartsWith(b, 105, flag) && Long(n) == Some(b[1..])
      else
        var digits := Digits(if n < 0 then -n else n);
        && AreDigits(digits) && StartsWith(b, 108, flag)
        && Join(Long(if n < 0 then -|digits| else |digits|), Some(Shorts(digits))) == Some(b[1..])
    case Float(d) => StartsWith(b, 103, flag) && b[1..] == d
    case Complex(re, im) => StartsWith(b, 121, flag) && b[1..] == re + im
    case Str(t) => StartsWith(b, 117, flag) && Join(Long(|t|), Some(t)) == Some(b[1..])
    case Bytes(t) => StartsWith(b, 115, flag) && Join(Long(|t|), Some(t)) == Some(b[1..])
  }

  lemma AfterCode(code: byte, t: seq<byte>)
    ensures ([code] + t)[0] == code && ([code] + t)[1..] == t
  {
  }

  lemma JoinedAfterCode(code: byte, a: Option<seq<byte>>, b: Option<seq<byte>>)
    requires Join(Join(Some([code]), a), b).Some?
    ensures var r := Join(Join(Some([code]), a), b).value;
      a.Some? && b.Some? && r != [] && r[0] == code && Join(a, b) == Some(r[1..])
  {
    assert [code] + a.value + b.value == [code] + (a.value + b.value);
    AfterCode(code, a.value + b.value);
  }

  lemma IntLaidOut(flag: bool, n: int)
    requires IntBytes(n, flag).Some?
    ensures AtomLaidOut(Int(n), flag, IntBytes(n, flag).value)
  {
    hide Long; hide Digits; hide Shorts;
    if FitsLong(n) {
      AfterCode(Flagged(105, flag), Long(n).value);
    } else {
      var digits := Digits(if n < 0 then -n else n);
      DigitsAreDigits(if n < 0 then -n else n);
      JoinedAfterCode(Flagged(108, flag), Long(if n < 0 then -|digits| else |digits|), Some(Shorts(digits)));
    }
  }

  lemma CountedLaidOut(code: byte, t: seq<byte>)
    requires Join(Some([code]), Counted(t)).Some?
    ensures var b := Join(Some([code]), Counted(t)).value;
      b != [] && b[0] == code && Join(Long(|t|), Some(t)) == Some(b[1..])
  {
    hide Long;
    AfterCode(code, Counted(t).value);
  }

  lemma AtomBytes(flag: bool, leaf: Leaf)
    requires Encode(Atom(flag, leaf)).Some?
    ensures AtomLaidOut(leaf, flag, Encode(Atom(flag, leaf)).value)
  {
    hide Long; hide Digits; hide Shorts; hide IntBytes; hide Counted;
    match leaf
    case Int(n) => IntLaidOut(flag, n);
    case Float(d) => AfterCode(Flagged(103, flag), d);
    case Complex(re, im) =>
      assert [Flagged(121, flag)] + re + im == [Flagged(121, flag)] + (re + im);
      AfterCode(Flagged(121, flag), re + im);
    case Str(t) => CountedLaidOut(Flagged(117, flag), t);
    case Bytes(t) => CountedLaidOut(Flagged(115, flag), t);
  }

  lemma RefBytes(a: int)
    requires FitsLong(a)
    ensures Encode(Ref(a)) == Some([114] + Long(a).value)
  {
    hide Long;
    OnlyFittingLongs(a);
  }

  function ContainerCode(shape: Shape): nat {
    match shape
    case Tuple => 40
    case List => 91
    case Set => 60
    case FrozenSet => 62
    case Dict => 123
    case Code(_) => 99
  }

  /** Tuples, lists and sets give their length and their items. */
  lemma SequenceBytes(flag: bool, shape: Shape, items: seq<Item>)
    requires !shape.Dict? && !shape.Code? && Encode(Node(flag, shape, items)).Some?
    ensures var b := Encode(Node(flag, shape, items)).value;
      && Long(|items|).Some? && EncodeAll(items, 0, |items|).Some?
      && StartsWith(b, ContainerCode(shape), flag)
      && b[1..] == Long(|items|).value + EncodeAll(items, 0, |items|).value
  {
    hide Long; hide EncodeAll;
    EncodeNone(items, |items|);
    var first := EncodeAll(items, 0, |items|).value;
    assert Long(|items|).value + first + [] + [] == Long(|items|).value + first;
  }

  /** Dictionaries give their keys and values, and the byte 48. */
  lemma DictBytes(flag: bool, items: seq<Item>)
    requires Encode(Node(flag, Dict, items)).Some?
    ensures var b := Encode(Node(flag, Dict, items)).value;
      EncodeAll(items, 0, |items|).Some? && StartsWith(b, 123, flag)
      && b[1..] == EncodeAll(items, 0, |items|).value + [48]
  {
    hide EncodeAll;
    EncodeNone(items, |items|);
    var first := EncodeAll(items, 0, |items|).value;
    BetweenCodes(Flagged(123, flag), first);
  }

  lemma BetweenCodes(code: byte, first: seq<byte>)
    ensures ([code] + [] + first + [48] + [])[1..] == first + [48]
  {
  }

  /** Code objects give six numbers, eight parts, the first line number and the last part. */
  lemma CodeBytes(flag: bool, h: Header, items: seq<Item>)
    requires |items| == 9 && Encode(Node(flag, Code(h), items)).Some?
    ensures HeaderFits(h) && FitsLong(h.firstlineno)
    ensures EncodeAll(items, 0, 8).Some? && Encode(items[8]).Some?
    ensures var b := Encode(Node(flag, Code(h), items)).value;
      && StartsWith(b, 99, flag)
      && b[1..] == Long(h.argcount).value + Long(h.posonlyargcount).value + Long(h.kwonlyargcount).value
                   + Long(h.nlocals).value + Long(h.stacksize).value + Long(h.flags).value
                   + EncodeAll(items, 0, 8).value + Long(h.firstlineno).value + Encode(items[8]).value
  {
    hide Long; hide EncodeAll;
    forall n ensures Long(n).Some? <==> FitsLong(n) { OnlyFittingLongs(n); }
    hide FitsLong;
    EncodeOne(items);
  }

  /** `dumps({})` is `b"{0"` in both versions. */
  lemma EmptyDictBytes(refs: bool)
    ensures var g, v := [Container(Dict, [])], Object(0);
      Acyclic(g) && Dumps(g, v, refs) == Some([123, 48])
  {
    var g, v := [Container(Dict, [])], Object(0);
    assert Visits(g, v, 0) == 1;
    assert Line(g, v, refs, v, []) == Some((Node(false, Dict, []), []));
    assert [123] + [] + [] + [48] + [] == [123, 48];
  }

  const PAIR: Graph := [Plain(Int(5)), Container(Tuple, [Object(0), Object(0)])]

  lemma PairVisits()
    ensures Acyclic(PAIR) && Visits(PAIR, Object(1), 1) == 1 && Visits(PAIR, Object(1), 0) == 2
  {
    var vs := PAIR[1].children;
    assert Acyclic(PAIR) && vs == [Object(0), Object(0)];
    assert Visits(PAIR, Object(0), 0) == 1 && Visits(PAIR, Object(0), 1) == 0;
    PairVisitsAll(0);
    PairVisitsAll(1);
  }

  lemma PairVisitsAll(x: nat)
    requires Acyclic(PAIR)
    ensures VisitsAll(PAIR, PAIR[1].children, 2, 1, x) == 2 * Visits(PAIR, Object(0), x)
  {
    hide Visits;
    var vs := PAIR[1].children;
    assert VisitsAll(PAIR, vs, 0, 1, x) == 0;
    assert VisitsAll(PAIR, vs, 1, 1, x) == VisitsAll(PAIR, vs, 0, 1, x) + Visits(PAIR, vs[0], x);
    assert VisitsAll(PAIR, vs, 2, 1, x) == VisitsAll(PAIR, vs, 1, 1, x) + Visits(PAIR, vs[1], x);
  }

  lemma PairLine()
    requires Acyclic(PAIR) && Visits(PAIR, Object(1), 1) == 1 && Visits(PAIR, Object(1), 0) == 2
    ensures Line(PAIR, Object(1), true, Object(1), [])
         == Some((Node(false, Tuple, [Atom(true, Int(5)), Ref(0)]), [0]))
  {
    hide Visits;
    var v, five, vs := Object(1), Object(0), PAIR[1].children;
    assert [] + [0] == [0] && PAIR[0] == Plain(Int(5));
    assert Line(PAIR, v, true, five, []) == Some((Atom(true, Int(5)), [0]));
    assert IndexOf([0], 0) == 0;
    assert Line(PAIR, v, true, five, [0]) == Some((Ref(0), [0]));
    assert LineAll(PAIR, v, true, vs, 0, 1, []) == Some(([], []));
    assert LineAll(PAIR, v, true, vs, 1, 1, []) == Some(([] + [Atom(true, Int(5))], [0]));
    assert LineAll(PAIR, v, true, vs, 2, 1, []) == Some(([] + [Atom(true, Int(5))] + [Ref(0)], [0]));
    assert [] + [Atom(true, Int(5))] + [Ref(0)] == [Atom(true, Int(5)), Ref(0)];
  }

  /** The tuple of one 5 twice, in version 3: in full with a flag, then by its address. */
  lemma SharedPairBytes()
    ensures Acyclic(PAIR)
    ensures Dumps(PAIR, Object(1), true) == Some([40, 2, 0, 0, 0, 233, 5, 0, 0, 0, 114, 0, 0, 0, 0])
  {
    hide Line; hide Visits; hide Long; hide EncodeAll;
    var first, second := Atom(true, Int(5)), Ref(0);
    PairVisits();
    PairLine();
    SmallLongs();
    assert [233 as byte] + [5, 0, 0, 0] == [233, 5, 0, 0, 0] && [114 as byte] + [0, 0, 0, 0] == [114, 0, 0, 0, 0];
    assert Encode(first) == Some([233, 5, 0, 0, 0]) && Encode(second) == Some([114, 0, 0, 0, 0]);
    EncodeTwo(first, second);
    EncodeNone([first, second], 2);
    SequenceBytes(false, Tuple, [first, second]);
    var b := Encode(Node(false, Tuple, [first, second])).value;
    assert b == [40] + b[1..];
    InOneLine();
    assert Dumps(PAIR, Object(1), true) == Some(b);
  }

  lemma InOneLine()
    ensures [40] + ([2, 0, 0, 0] + ([233, 5, 0, 0, 0] + [114, 0, 0, 0, 0]))
         == [40, 2, 0, 0, 0, 233, 5, 0, 0, 0, 114, 0, 0, 0, 0 as byte]
  {
  }

  lemma SmallLongs()
    ensures Long(0) == Some([0, 0, 0, 0]) && Long(2) == Some([2, 0, 0, 0]) && Long(5) == Some([5, 0, 0, 0])
  {
  }

  lemma EncodeTwo(a: Item, b: Item)
    requires Encode(a).Some? && Encode(b).Some?
    ensures EncodeAll([a, b], 0, 2) == Some(Encode(a).value + Encode(b).value)
  {
    hide Encode;
    var items := [a, b];
    assert EncodeAll(items, 2, 2) == Some([]);
    assert Encode(b).value + [] == Encode(b).value;
    assert EncodeAll(items, 1, 2) == Encode(b);
  }
}
