/** `Marshal::Reader` of the runtime on bytes: it builds the objects while it reads. */
module RuntimeReader {
  import opened Basics
  import opened MarshalFormat
  import opened MarshalRefs
  import opened MarshalRoundTrip
  import opened MarshalSharing
  import opened MarshalDump
  import opened MarshalRuntime
  import RuntimeLong

  /** An object, with the graph and the list of references after it and the bytes left. */
  datatype Reading = Reading(value: Value, graph: Graph, refs: seq<Option<Value>>, rest: seq<byte>)

  datatype Readings = Readings(values: seq<Value>, graph: Graph, refs: seq<Option<Value>>, rest: seq<byte>)

  /** A new object, with a reference if it is flagged. */
  function NewObject(o: Obj, flag: bool, h: Graph, refs: seq<Option<Value>>, rest: seq<byte>): Option<Reading> {
    var v := Object(|h|);
    Some(Reading(v, h + [o], if flag then refs + [Some(v)] else refs, rest))
  }

  /** A length of one byte and that many bytes. */
  function ReadShortCounted(s: seq<byte>): (r: Option<(seq<byte>, seq<byte>)>)
    ensures r.Some? ==> |r.value.1| < |s|
  {
    if s == [] || |s| - 1 < s[0] as nat then None else Some((s[1..][..s[0]], s[1..][s[0]..]))
  }

  function ReadLeaf(code: char, flag: bool, t: seq<byte>, h: Graph, refs: seq<Option<Value>>): (r: Option<Reading>)
    ensures r.Some? ==> |r.value.rest| <= |t| && |refs| <= |r.value.refs|
  {
    if code == 'i' then
      match ReadLong(t)
      case None => None
      case Some((n, u)) => NewObject(Plain(Int(n)), flag, h, refs, u)
    else if code == 'l' then
      // `RuntimeLong.ReadLongObject` is the method
      if !RuntimeLong.Held(t) then None
      else match ReadBig(t)
        case None => None
        case Some((n, u)) => NewObject(Plain(Int(n)), flag, h, refs, u)
    else if code == 'g' then
      if |t| < 8 then None else NewObject(Plain(Float(t[..8])), flag, h, refs, t[8..])
    else if code == 'y' then
      if |t| < 16 then None else NewObject(Plain(Complex(t[..8], t[8..16])), flag, h, refs, t[16..])
    else
      match if code == 'z' || code == 'Z' then ReadShortCounted(t) else ReadCounted(t)
      case None => None
      case Some((data, u)) =>
        NewObject(Plain(if code == 's' then Bytes(data) else Str(data)), flag, h, refs, u)
  }

  predicate IsLeafCode(code: char) {
    code in "ilgysutAazZ"
  }

  /** `readObject`. None also where the runtime aborts, and for code objects that are not
      plain. */
  function ReadObject(s: seq<byte>, h: Graph, refs: seq<Option<Value>>): (r: Option<Reading>)
    ensures r.Some? ==> |r.value.rest| < |s| && |refs| <= |r.value.refs|
    decreases |s|, 0, 0
  {
    if s == [] then None
    else
      var code, flag, t := (s[0] % 128) as char, s[0] >= 128, s[1..];
      if code == '0' then NewObject(Plain(Int(0)), false, h, refs, t)
      else if code == 'N' then Some(Reading(Shared(NoneObject), h, refs, t))
      else if code == '.' then Some(Reading(Shared(Ellipsis), h, refs, t))
      else if code == 'F' then Some(Reading(Shared(False), h, refs, t))
      else if code == 'T' then Some(Reading(Shared(True), h, refs, t))
      else if IsLeafCode(code) then ReadLeaf(code, flag, t, h, refs)
      else if code == ')' then
        if t == [] then None else ReadContainer(Tuple, t[0] as nat, flag, t[1..], h, refs)
      else if code == 'c' then ReadCode(flag, t, h, refs)
      else if code in "(<>r" then
        match ReadLong(t)
        case None => None
        case Some((n, u)) =>
          if code == 'r' then
            if 0 <= n < |refs| && refs[n].Some? then Some(Reading(refs[n].value, h, refs, u)) else None
          else if code == '(' then
            if n < 0 then None else ReadContainer(Tuple, n, flag, u, h, refs)
          else if code == '<' then ReadContainer(Set, if n < 0 then 0 else n, flag, u, h, refs)
          else ReadContainer(FrozenSet, if n < 0 then 0 else n, flag && n != 0, u, h, refs)
      else None
  }

  /** `doTupleElements` and `doSetElements`; a flagged object takes its number first. */
  function ReadContainer(shape: Shape, n: nat, flag: bool, s: seq<byte>, h: Graph, refs: seq<Option<Value>>)
    : (r: Option<Reading>)
    ensures r.Some? ==> |r.value.rest| <= |s| && |refs| <= |r.value.refs|
    decreases |s|, 2, n
  {
    match ReadObjects(n, s, h, if flag then refs + [None] else refs)
    case None => None
    case Some(rs) => Finished(shape, flag, |refs|, rs)
  }

  /** A container whose children are read, flagged with number `i`. */
  function Finished(shape: Shape, flag: bool, i: nat, rs: Readings): Option<Reading>
    requires flag ==> i < |rs.refs|
  {
    var v := Object(|rs.graph|);
    Some(Reading(v, rs.graph + [Container(shape, rs.values)], if flag then rs.refs[i := Some(v)] else rs.refs, rs.rest))
  }

  function ReadObjects(n: nat, s: seq<byte>, h: Graph, refs: seq<Option<Value>>): (r: Option<Readings>)
    ensures r.Some? ==> |r.value.rest| <= |s| && |refs| <= |r.value.refs| && |r.value.values| == n
    decreases |s|, 1, n
  {
    if n == 0 then Some(Readings([], h, refs, s))
    else match ReadObjects(n - 1, s, h, refs)
      case None => None
      case Some(rs) =>
        match ReadObject(rs.rest, rs.graph, rs.refs)
        case None => None
        case Some(r) => Some(Readings(rs.values + [r.value], r.graph, r.refs, r.rest))
  }

  /** `readTypeCode` */
  function ReadCode(flag: bool, t: seq<byte>, h: Graph, refs: seq<Option<Value>>): (r: Option<Reading>)
    ensures r.Some? ==> |r.value.rest| < |t| && |refs| <= |r.value.refs|
    decreases |t|, 3, 0
  {
    match ReadHeader(t)
    case None => None
    case Some((header, u)) =>
      match ReadObjects(8, u, h, if flag then refs + [None] else refs)
      case None => None
      case Some(rs) =>
        match ReadLong(rs.rest)
        case None => None
        case Some((line, w)) =>
          match ReadObject(w, rs.graph, rs.refs)
          case None => None
          case Some(r) =>
            if !PlainCode(header) then None
            else Finished(Code(header.(firstlineno := line)), flag, |refs|,
                          Readings(rs.values + [r.value], r.graph, r.refs, r.rest))
  }

  /** What the runtime makes of a stream: a value, its graph and the bytes after it. */
  function RuntimeLoads(s: seq<byte>): Option<(Value, Graph, seq<byte>)> {
    match ReadObject(s, [], [])
    case None => None
    case Some(r) => Some((r.value, r.graph, r.rest))
  }

  // ----- what the writer wrote -----

  /** Reading gives what rebuilding the item as the runtime sees it gives, or nothing if the
      item is not readable. */
  predicate ReadAs(r: Option<Reading>, it: Item, h: Graph, refs: seq<Option<Value>>, rest: seq<byte>) {
    var b := Rebuild(Seen(it), h, refs);
    r == if !Readable(it) || b.None? then None else Some(Reading(b.value.0, b.value.1, b.value.2, rest))
  }

  predicate AllReadAs(r: Option<Readings>, items: seq<Item>, n: nat, h: Graph, refs: seq<Option<Value>>,
                      rest: seq<byte>)
    requires n <= |items|
  {
    var b := RebuildAll(SeenAll(items, n), n, h, refs);
    r == if (exists i :: 0 <= i < n && !Readable(items[i])) || b.None? then None
         else Some(Readings(b.value.0, b.value.1, b.value.2, rest))
  }

  lemma LeafStarts(code: char, flag: bool, t: seq<byte>, h: Graph, refs: seq<Option<Value>>)
    requires code in "ilgyus"
    ensures ReadObject([Flagged(code as byte, flag)] + t, h, refs) == ReadLeaf(code, flag, t, h, refs)
  {
    hide ReadLeaf; hide ReadContainer; hide ReadCode; hide ReadLong;
    assert ([Flagged(code as byte, flag)] + t)[1..] == t;
  }

  lemma {:induction false} ShortsLength(ds: seq<nat>)
    requires AreDigits(ds)
    ensures |Shorts(ds)| == 2 * |ds|
  {
    if ds != [] { ShortsLength(ds[1..]); }
  }

  /** The digits of an integer that does not fit in four bytes. */
  lemma BigReads(n: int, m: nat, count: int, rest: seq<byte>)
    requires !FitsLong(n) && m == (if n < 0 then -n else n) && AreDigits(Digits(m))
    requires count == (if n < 0 then -|Digits(m)| else |Digits(m)|) && FitsLong(count)
    ensures var t := Long(count).value + (Shorts(Digits(m)) + rest);
      ReadBig(t) == Some((n, rest)) && (RuntimeLong.Held(t) <==> CountedInt(n))
  {
    hide Digits; hide ReadDigits; hide Shorts; hide Long; hide ReadLong;
    var tail := Shorts(Digits(m)) + rest;
    LongRoundTrip(count, tail);
    DigitsRoundTrip(m, rest);
    SomeDigits(m);
    ShortsLength(Digits(m));
    RuntimeLong.DigitsAreRead(|Digits(m)|, tail);
  }

  lemma IntIsRead(n: int, flag: bool, rest: seq<byte>, h: Graph, refs: seq<Option<Value>>)
    requires IntBytes(n, flag).Some?
    ensures ReadAs(ReadObject(IntBytes(n, flag).value + rest, h, refs), Atom(flag, Int(n)), h, refs, rest)
  {
    hide ReadObject; hide Long; hide ReadLong; hide Digits; hide ReadDigits; hide Shorts; hide FitsLong;
    hide RuntimeLong.Held; hide ReadBig;
    var s := IntBytes(n, flag).value + rest;
    if FitsLong(n) {
      LongRoundTrip(n, rest);
      assert s == [Flagged('i' as byte, flag)] + (Long(n).value + rest);
      LeafStarts('i', flag, Long(n).value + rest, h, refs);
    } else {
      var m: nat := if n < 0 then -n else n;
      DigitsAreDigits(m);
      var count: int := if n < 0 then -|Digits(m)| else |Digits(m)|;
      OnlyFittingLongs(count);
      BigReads(n, m, count, rest);
      var t := Long(count).value + (Shorts(Digits(m)) + rest);
      assert s == [Flagged('l' as byte, flag)] + t;
      LeafStarts('l', flag, t, h, refs);
    }
  }

  lemma LeafIsRead(leaf: Leaf, flag: bool, rest: seq<byte>, h: Graph, refs: seq<Option<Value>>)
    requires LeafBytes(leaf, flag).Some?
    ensures ReadAs(ReadObject(LeafBytes(leaf, flag).value + rest, h, refs), Atom(flag, leaf), h, refs, rest)
  {
    hide ReadObject; hide Counted; hide ReadCounted; hide IntBytes; hide ReadBig; hide ReadLong;
    var s := LeafBytes(leaf, flag).value + rest;
    match leaf
    case Int(n) => IntIsRead(n, flag, rest, h, refs);
    case Float(d) =>
      assert s == [Flagged('g' as byte, flag)] + (d + rest) && (d + rest)[..8] == d && (d + rest)[8..] == rest;
      LeafStarts('g', flag, d + rest, h, refs);
    case Complex(re, im) =>
      var t := re + im + rest;
      assert s == [Flagged('y' as byte, flag)] + t && t[..8] == re && t[8..16] == im && t[16..] == rest;
      LeafStarts('y', flag, t, h, refs);
    case Str(data) =>
      CountedRoundTrip(data, rest);
      assert s == [Flagged('u' as byte, flag)] + (Counted(data).value + rest);
      LeafStarts('u', flag, Counted(data).value + rest, h, refs);
    case Bytes(data) =>
      CountedRoundTrip(data, rest);
      assert s == [Flagged('s' as byte, flag)] + (Counted(data).value + rest);
      LeafStarts('s', flag, Counted(data).value + rest, h, refs);
  }

  function Joined(a: Option<Readings>, b: Option<Reading>): Option<Readings> {
    if a.None? || b.None? then None
    else Some(Readings(a.value.values + [b.value.value], b.value.graph, b.value.refs, b.value.rest))
  }

  /** One more object read after others. */
  lemma OneMore(items: seq<Item>, k: nat, h: Graph, refs: seq<Option<Value>>, a: Option<Readings>, b: Option<Reading>,
                middle: seq<byte>, rest: seq<byte>)
    requires 0 < k <= |items| && AllReadAs(a, items, k - 1, h, refs, middle)
    requires a.Some? ==> ReadAs(b, items[k - 1], a.value.graph, a.value.refs, rest)
    ensures AllReadAs(Joined(a, b), items, k, h, refs, rest)
  {
    hide Readable; hide Seen; hide Rebuild;
    var seen, last := SeenAll(items, k - 1), items[k - 1];
    assert SeenAll(items, k) == seen + [Seen(last)] && (seen + [Seen(last)])[k - 1] == Seen(last);
    RebuildPrefix(seen, [Seen(last)], k - 1, h, refs);
    assert (exists i :: 0 <= i < k && !Readable(items[i]))
      <==> !Readable(last) || exists i :: 0 <= i < k - 1 && !Readable(items[i]);
  }

  lemma EncodeLast(items: seq<Item>, k: nat)
    requires 0 < k <= |items|
    ensures EncodeAll(items, 0, k) == Join(EncodeAll(items, 0, k - 1), Encode(items[k - 1]))
  {
    hide Encode; hide EncodeAll;
    var before := items[..k - 1];
    EncodePrefix(before, items[k - 1..], 0, k - 1);
    EncodePrefix(items[..k], items[k..], 0, k);
    EncodeGrows(before, items[k - 1], 0);
    assert before + items[k - 1..] == items == items[..k] + items[k..] && before + [items[k - 1]] == items[..k];
  }

  /** What the writer wrote for an item, followed by anything. */
  lemma {:induction false} ReadsItem(it: Item, rest: seq<byte>, h: Graph, refs: seq<Option<Value>>)
    requires Shaped(it) && Encode(it).Some?
    ensures ReadAs(ReadObject(Encode(it).value + rest, h, refs), it, h, refs, rest)
    decreases it, 1, 0
  {
    match it
    case Single(_) => SingleIsRead(it, rest, h, refs);
    case Ref(a) => RefIsRead(a, rest, h, refs);
    case Atom(flag, leaf) => LeafIsRead(leaf, flag, rest, h, refs);
    case Node(_, shape, items) =>
      if shape.Code? {
        CodeIsRead(it, rest, h, refs);
      } else {
        ContainerIsRead(it, rest, h, refs);
      }
  }

  lemma SingleIsRead(it: Item, rest: seq<byte>, h: Graph, refs: seq<Option<Value>>)
    requires it.Single?
    ensures ReadAs(ReadObject(Encode(it).value + rest, h, refs), it, h, refs, rest)
  {
    hide ReadLeaf; hide ReadContainer; hide ReadCode; hide ReadLong;
    assert ([SingletonCode(it.single)] + rest)[1..] == rest;
  }

  lemma RefIsRead(a: int, rest: seq<byte>, h: Graph, refs: seq<Option<Value>>)
    requires Encode(Ref(a)).Some?
    ensures ReadAs(ReadObject(Encode(Ref(a)).value + rest, h, refs), Ref(a), h, refs, rest)
  {
    hide ReadLeaf; hide ReadContainer; hide ReadCode; hide ReadLong; hide Long;
    OnlyFittingLongs(a);
    LongRoundTrip(a, rest);
    assert (Encode(Ref(a)).value + rest)[1..] == Long(a).value + rest;
  }

  lemma {:induction false} AllAreRead(items: seq<Item>, k: nat, rest: seq<byte>, h: Graph, refs: seq<Option<Value>>)
    requires k <= |items| && EncodeAll(items, 0, k).Some? && forall i :: 0 <= i < |items| ==> Shaped(items[i])
    ensures AllReadAs(ReadObjects(k, EncodeAll(items, 0, k).value + rest, h, refs), items, k, h, refs, rest)
    decreases items, 0, k
  {
    hide ReadObject; hide Encode; hide EncodeAll; hide ReadAs; hide Shaped;
    if k == 0 {
      NothingIsRead(items, rest, h, refs);
    } else {
      hide AllReadAs;
      EncodeLast(items, k);
      var b := Encode(items[k - 1]).value + rest;
      var s := EncodeAll(items, 0, k).value + rest;
      assert s == EncodeAll(items, 0, k - 1).value + b;
      AllAreRead(items, k - 1, b, h, refs);
      var before := ReadObjects(k - 1, s, h, refs);
      if before.Some? {
        AllLeft(before.value, items, k - 1, h, refs, b);
        ReadsItem(items[k - 1], rest, before.value.graph, before.value.refs);
        OneMore(items, k, h, refs, before, ReadObject(b, before.value.graph, before.value.refs), b, rest);
      } else {
        OneMore(items, k, h, refs, before, None, b, rest);
      }
    }
  }

  lemma AllLeft(rs: Readings, items: seq<Item>, k: nat, h: Graph, refs: seq<Option<Value>>, rest: seq<byte>)
    requires k <= |items| && AllReadAs(Some(rs), items, k, h, refs, rest)
    ensures rs.rest == rest
  {
  }

  lemma NothingIsRead(items: seq<Item>, rest: seq<byte>, h: Graph, refs: seq<Option<Value>>)
    ensures AllReadAs(ReadObjects(0, EncodeAll(items, 0, 0).value + rest, h, refs), items, 0, h, refs, rest)
  {
    assert EncodeAll(items, 0, 0) == Some([]) && [] + rest == rest;
  }

  lemma {:induction false} ContainerIsRead(it: Item, rest: seq<byte>, h: Graph, refs: seq<Option<Value>>)
    requires it.Node? && !it.shape.Code? && Shaped(it) && Encode(it).Some?
    ensures ReadAs(ReadObject(Encode(it).value + rest, h, refs), it, h, refs, rest)
    decreases it, 0, 0
  {
    hide ReadObject; hide ReadContainer; hide EncodeAll; hide Long; hide ReadLong;
    var shape, items := it.shape, it.items;
    var s, first := Encode(it).value + rest, EncodeAll(items, 0, |items|).value;
    if shape.List? || shape.Dict? {
      NotRead(s, h, refs);
    } else {
      var flag := it.flag && !IsEmptyFrozenSet(it);
      EncodeNone(items, |items|);
      assert s == [Flagged(ShapeCode(shape), it.flag)] + (Long(|items|).value + (first + rest));
      OnlyFittingLongs(|items|);
      LongRoundTrip(|items|, first + rest);
      ContainerStarts(s, shape, it.flag, |items|, Long(|items|).value + (first + rest), first + rest, h, refs);
      AllAreRead(items, |items|, rest, h, if flag then refs + [None] else refs);
      ContainerEnds(it, first + rest, rest, h, refs);
    }
  }

  lemma NotRead(s: seq<byte>, h: Graph, refs: seq<Option<Value>>)
    requires s != [] && (s[0] % 128) as char in "[{"
    ensures ReadObject(s, h, refs) == None
  {
    hide ReadLeaf; hide ReadContainer; hide ReadCode; hide ReadLong;
  }

  lemma ContainerStarts(s: seq<byte>, shape: Shape, flag: bool, n: nat, t: seq<byte>, u: seq<byte>, h: Graph,
                        refs: seq<Option<Value>>)
    requires shape.Tuple? || shape.Set? || shape.FrozenSet?
    requires s == [Flagged(ShapeCode(shape), flag)] + t && ReadLong(t) == Some((n, u))
    ensures ReadObject(s, h, refs) == ReadContainer(shape, n, flag && !(shape.FrozenSet? && n == 0), u, h, refs)
  {
    hide ReadLeaf; hide ReadContainer; hide ReadCode; hide ReadLong;
    assert s[1..] == t;
  }

  lemma ContainerEnds(it: Item, u: seq<byte>, rest: seq<byte>, h: Graph, refs: seq<Option<Value>>)
    requires it.Node? && ReadableShape(it.shape)
    requires var flag := it.flag && !IsEmptyFrozenSet(it);
      var refs1 := if flag then refs + [None] else refs;
      AllReadAs(ReadObjects(|it.items|, u, h, refs1), it.items, |it.items|, h, refs1, rest)
    ensures ReadAs(ReadContainer(it.shape, |it.items|, it.flag && !IsEmptyFrozenSet(it), u, h, refs), it, h, refs, rest)
  {
    hide ReadObjects; hide RebuildAll; hide SeenAll; hide ReadableShape;
  }

  lemma {:induction false} CodeIsRead(it: Item, rest: seq<byte>, h: Graph, refs: seq<Option<Value>>)
    requires it.Node? && it.shape.Code? && Shaped(it) && Encode(it).Some?
    ensures ReadAs(ReadObject(Encode(it).value + rest, h, refs), it, h, refs, rest)
    decreases it, 0, 0
  {
    hide ReadObject; hide ReadCode; hide EncodeAll; hide Long; hide ReadLong; hide HeaderBytes; hide ReadHeader;
    hide ReadAs; hide AllReadAs; hide ReadObjects; hide Shaped; hide Encode;
    var header, items := it.shape.header, it.items;
    CodeParts(it);
    var first, line := EncodeAll(items, 0, 8).value, Long(header.firstlineno).value;
    var w := Encode(items[8]).value + rest;
    var v := line + w;
    var u := first + v;
    var t := HeaderBytes(header).value + u;
    var s := Encode(it).value + rest;
    assert s == [Flagged('c' as byte, it.flag)] + t;
    HeaderRoundTrip(header, u);
    OnlyFittingLongs(header.firstlineno);
    LongRoundTrip(header.firstlineno, w);
    CodeStarts(s, it.flag, t, h, refs);
    var refs1 := if it.flag then refs + [None] else refs;
    AllAreRead(items, 8, v, h, refs1);
    var before := ReadObjects(8, u, h, refs1);
    var last: Option<Reading> := None;
    if before.Some? {
      AllLeft(before.value, items, 8, h, refs1, v);
      last := ReadObject(w, before.value.graph, before.value.refs);
      ReadsItem(items[8], rest, before.value.graph, before.value.refs);
    }
    OneMore(items, 9, h, refs1, before, last, v, rest);
    CodeEnds(it, t, u, w, rest, h, refs, before, last);
  }

  lemma CodeParts(it: Item)
    requires it.Node? && it.shape.Code? && Shaped(it) && Encode(it).Some?
    ensures |it.items| == 9 && HeaderBytes(it.shape.header).Some? && Long(it.shape.header.firstlineno).Some?
    ensures EncodeAll(it.items, 0, 8).Some? && Encode(it.items[8]).Some?
    ensures forall i :: 0 <= i < 9 ==> Shaped(it.items[i])
    ensures Encode(it).value == [Flagged('c' as byte, it.flag)]
                                + HeaderBytes(it.shape.header).value + EncodeAll(it.items, 0, 8).value
                                + Long(it.shape.header.firstlineno).value + Encode(it.items[8]).value
  {
    hide EncodeAll; hide Long; hide HeaderBytes;
    EncodeOne(it.items);
  }

  lemma CodeStarts(s: seq<byte>, flag: bool, t: seq<byte>, h: Graph, refs: seq<Option<Value>>)
    requires s == [Flagged('c' as byte, flag)] + t
    ensures ReadObject(s, h, refs) == ReadCode(flag, t, h, refs)
  {
    hide ReadLeaf; hide ReadContainer; hide ReadCode; hide ReadLong;
    assert s[1..] == t;
  }

  lemma CodeEnds(it: Item, t: seq<byte>, u: seq<byte>, w: seq<byte>, rest: seq<byte>, h: Graph,
                 refs: seq<Option<Value>>, before: Option<Readings>, last: Option<Reading>)
    requires it.Node? && it.shape.Code? && |it.items| == 9
    requires ReadHeader(t) == Some((it.shape.header.(firstlineno := 0), u))
    requires var refs1 := if it.flag then refs + [None] else refs;
      && before == ReadObjects(8, u, h, refs1) && AllReadAs(Joined(before, last), it.items, 9, h, refs1, rest)
    requires before.Some? ==>
      && ReadLong(before.value.rest) == Some((it.shape.header.firstlineno, w))
      && last == ReadObject(w, before.value.graph, before.value.refs)
    ensures ReadAs(ReadCode(it.flag, t, h, refs), it, h, refs, rest)
  {
    hide ReadObject; hide ReadObjects; hide ReadLong; hide ReadHeader; hide RebuildAll; hide SeenAll;
    var header := it.shape.header;
    assert header.(firstlineno := 0).(firstlineno := header.firstlineno) == header;
    assert PlainCode(header.(firstlineno := 0)) <==> PlainCode(header);
  }

  // ----- the results -----

  lemma LoadsOfItem(it: Item, rest: seq<byte>)
    requires Shaped(it) && Encode(it).Some? && Rebuild(it, [], []).Some?
    ensures var s, a, b := Encode(it).value + rest, Rebuild(it, [], []).value, RuntimeRead(it);
      && Loads(s) == Some((a.0, a.1, rest))
      && RuntimeLoads(s) == if b.None? then None else Some((b.value.0, b.value.1, rest))
  {
    hide Rebuild; hide Readable; hide Seen; hide Decode; hide ReadObject; hide Encode;
    RoundTrip(it, rest);
    ReadsItem(it, rest, [], []);
  }

  /** The runtime loads version 2 exactly if `v` reaches only objects that it reads, and then
      the value that was written and the bytes that follow. */
  lemma RuntimeLoadsVersion2(g: Graph, v: Value, rest: seq<byte>)
    requires Acyclic(g) && Rank(v) <= |g| && Dumps(g, v, false).Some?
    ensures var s := Dumps(g, v, false).value + rest;
      && (RuntimeLoads(s).Some? <==> ReadableGraph(g, v))
      && (RuntimeLoads(s).Some? ==> RuntimeLoads(s) == Loads(s))
  {
    hide Readable; hide RuntimeLoads; hide Loads; hide Encode;
    LineIsTree(g, v, v, []);
    LineIsShaped(g, v, false, v, []);
    TreeIsUnflagged(g, v);
    var it := Tree(g, v).value;
    RebuildsTree(it, [], []);
    LoadsOfItem(it, rest);
    UnflaggedIsSafe(it, Count(0, None));
    BothRead(it, [], [], [], Count(0, None));
    if Readable(it) {
      TreeIsReadable(g, v, 0);
      forall x ensures ReadableValue(v) && (Visits(g, v, x) >= 1 ==> ReadableObject(g, x)) { TreeIsReadable(g, v, x); }
    }
    if ReadableGraph(g, v) { ReadableIsWrittenSo(g, v, false, v, []); }
  }

  /** Of what version 3 wrote the runtime loads the same graph as a reader that numbers every
      flagged object exactly if `v` reaches only objects that it reads, and no reference is at
      or above the number of a flagged empty frozen set. */
  lemma RuntimeLoadsIffSafe(g: Graph, v: Value, rest: seq<byte>)
    requires Acyclic(g) && Rank(v) <= |g| && Dumps(g, v, true).Some?
    ensures var s := Dumps(g, v, true).value + rest;
      RuntimeLoads(s) == Loads(s)
      <==> ReadableGraph(g, v) && Safe(Line(g, v, true, v, []).value.0, Count(0, None)).Some?
  {
    hide Readable; hide RuntimeLoads; hide Loads; hide Encode; hide Safe; hide RuntimeRead;
    var it := Line(g, v, true, v, []).value.0;
    LineIsShaped(g, v, true, v, []);
    var order := ReadBack(g, v, v, [], [], [], []);
    LoadsOfItem(it, rest);
    ReadableIffGraph(g, v);
    RuntimeAgreesIffSafe(g, v);
  }

  /** Without shared empty frozen sets the runtime loads a copy of the graph from the bytes of
      version 3, and leaves the bytes that follow. */
  lemma RuntimeLoadsBack(g: Graph, v: Value, rest: seq<byte>) returns (order: seq<nat>)
    requires Acyclic(g) && Rank(v) <= |g| && Dumps(g, v, true).Some?
    requires ReadableGraph(g, v) && NoSharedEmptyFrozenSet(g, v)
    ensures RuntimeLoads(Dumps(g, v, true).value + rest).Some?
    ensures var (w, h, left) := RuntimeLoads(Dumps(g, v, true).value + rest).value;
      left == rest && CopyOfGraph(g, v, order, h, w) && Tree(h, w) == Tree(g, v)
  {
    hide RuntimeLoads; hide Loads; hide Encode; hide Safe;
    SafeWithoutEmpty(g, v, v, [], Count(0, None));
    RuntimeLoadsIffSafe(g, v, rest);
    order := Version3RoundTrip(g, v, rest);
  }

  /** The bytes of a tuple that holds one empty frozen set twice: the runtime does not load
      them. */
  lemma SharedEmptyFrozenSetIsNotLoaded(rest: seq<byte>)
    ensures var e, pair := Object(0), Object(1);
      var g := [Container(FrozenSet, []), Container(Tuple, [e, e])];
      && Acyclic(g) && Dumps(g, pair, true).Some?
      && Loads(Dumps(g, pair, true).value + rest).Some? && RuntimeLoads(Dumps(g, pair, true).value + rest) == None
  {
    hide Line; hide Encode; hide RuntimeLoads; hide Loads; hide RuntimeRead; hide Rebuild;
    SharedEmptyFrozenSetIsLost();
    var g, pair := [Container(FrozenSet, []), Container(Tuple, [Object(0), Object(0)])], Object(1);
    var it := Node(false, Tuple, [Node(true, FrozenSet, []), Ref(0)]);
    assert Acyclic(g) && Rank(pair) <= |g|;
    LineIsShaped(g, pair, true, pair, []);
    WritesExactlyTheWritable(it);
    var order := Version3RoundTrip(g, pair, rest);
    var order1 := ReadBack(g, pair, pair, [], [], [], []);
    LoadsOfItem(it, rest);
  }
}
