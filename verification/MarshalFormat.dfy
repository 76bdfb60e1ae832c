/** The byte format of marshal: what the writer puts on the stream for a value without
    regard to object identity, and a reader for it. A `None` result stands for a raised
    exception. */
module MarshalFormat {
  import opened Basics

  // ----- numbers -----

  function Join(a: Option<seq<byte>>, b: Option<seq<byte>>): Option<seq<byte>> {
    if a.Some? && b.Some? then Some(a.value + b.value) else None
  }

  predicate FitsLong(n: int) {
    -0x8000_0000 <= n <= 0x7FFF_FFFF
  }

  /** `_w_long`: four bytes, little-endian, two's complement. */
  function Long(n: int): Option<seq<byte>> {
    if !FitsLong(n) then None
    else
      var u := if n < 0 then n + 0x1_0000_0000 else n;
      Some(Little(u))
  }

  function Little(u: nat): seq<byte>
    requires u < 0x1_0000_0000
  {
    var v := u / 256;
    var w := v / 256;
    [(u % 256) as byte, (v % 256) as byte, (w % 256) as byte, (w / 256) as byte]
  }

  function FromLittle(s: seq<byte>): nat
    requires |s| >= 4
  {
    s[0] as nat + 256 * s[1] as nat + 0x1_0000 * s[2] as nat + 0x100_0000 * s[3] as nat
  }

  lemma LittleRoundTrip(u: nat, rest: seq<byte>)
    requires u < 0x1_0000_0000
    ensures FromLittle(Little(u) + rest) == u
  {
    var v := u / 256;
    var w := v / 256;
    assert u == u % 256 + 256 * v && v == v % 256 + 256 * w && w == w % 256 + 256 * (w / 256);
  }

  function ReadLong(s: seq<byte>): (r: Option<(int, seq<byte>)>)
    ensures r.Some? ==> |s| >= 4 && r.value.1 == s[4..]
  {
    if |s| < 4 then None
    else
      var u := FromLittle(s);
      Some((if u > 0x7FFF_FFFF then u - 0x1_0000_0000 else u, s[4..]))
  }

  lemma LongRoundTrip(n: int, rest: seq<byte>)
    requires FitsLong(n)
    ensures ReadLong(Long(n).value + rest) == Some((n, rest))
  {
    hide FromLittle;
    LittleRoundTrip(if n < 0 then n + 0x1_0000_0000 else n, rest);
    assert (Long(n).value + rest)[4..] == rest;
  }

  /** `_w_short` of a digit. */
  function Short(d: nat): seq<byte>
    requires d < 0x8000
  {
    [(d % 256) as byte, (d / 256) as byte]
  }

  /** The digits of `n` in base 2^15, least significant first. */
  function Digits(n: nat): seq<nat> {
    if n == 0 then [] else [n % 0x8000] + Digits(n / 0x8000)
  }

  predicate AreDigits(ds: seq<nat>) {
    forall i :: 0 <= i < |ds| ==> ds[i] < 0x8000
  }

  function Shorts(ds: seq<nat>): seq<byte>
    requires AreDigits(ds)
  {
    if ds == [] then [] else Short(ds[0]) + Shorts(ds[1..])
  }

  lemma {:induction false} DigitsAreDigits(n: nat)
    ensures AreDigits(Digits(n))
  {
    if n > 0 { DigitsAreDigits(n / 0x8000); }
  }

  /** `count` digits, none of them negative, as the number they stand for. */
  function ReadDigits(count: nat, s: seq<byte>): (r: Option<(nat, seq<byte>)>)
    ensures r.Some? ==> |r.value.1| <= |s|
  {
    if count == 0 then Some((0, s))
    else if |s| < 2 || s[1] >= 128 then None
    else match ReadDigits(count - 1, s[2..])
      case None => None
      case Some((n, rest)) => Some((s[0] as nat + 256 * s[1] as nat + 0x8000 * n, rest))
  }

  lemma {:induction false} DigitsRoundTrip(n: nat, rest: seq<byte>)
    ensures AreDigits(Digits(n)) && ReadDigits(|Digits(n)|, Shorts(Digits(n)) + rest) == Some((n, rest))
  {
    DigitsAreDigits(n);
    if n == 0 {
      assert Shorts([]) + rest == rest;
    } else {
      var d, more := n % 0x8000, Digits(n / 0x8000);
      assert Digits(n)[1..] == more && Digits(n)[0] == d;
      var s := Shorts(Digits(n)) + rest;
      assert s == Short(d) + (Shorts(more) + rest);
      assert s[2..] == Shorts(more) + rest;
      DigitsRoundTrip(n / 0x8000, rest);
    }
  }

  // ----- values -----

  datatype Singleton = NoneObject | StopIteration | Ellipsis | False | True

  type Double = s: seq<byte> | |s| == 8 witness [0, 0, 0, 0, 0, 0, 0, 0]

  /** Objects that hold no others. A float is its eight bytes, a string its UTF-8 form. */
  datatype Leaf =
    | Int(n: int)
    | Float(d: Double)
    | Complex(re: Double, im: Double)
    | Str(utf8: seq<byte>)
    | Bytes(data: seq<byte>)

  /** Containers; a set stands for its elements in iteration order. */
  datatype Shape = Tuple | List | Set | FrozenSet | Dict | Code(header: Header)

  datatype Header = Header(argcount: int, posonlyargcount: int, kwonlyargcount: int, nlocals: int,
                           stacksize: int, flags: int, firstlineno: int)

  /** What one object puts on the stream. A dictionary has its keys and values in turn,
      a code object its nine parts; `flag` is FLAG_REF, and `Ref` only comes in version 3. */
  datatype Item =
    | Single(single: Singleton)
    | Ref(address: int)
    | Atom(flag: bool, leaf: Leaf)
    | Node(flag: bool, shape: Shape, items: seq<Item>)

  predicate GoodLength(shape: Shape, n: nat) {
    (shape.Dict? ==> n % 2 == 0) && (shape.Code? ==> n == 9)
  }

  predicate Shaped(it: Item) {
    it.Node? ==> GoodLength(it.shape, |it.items|) && forall i :: 0 <= i < |it.items| ==> Shaped(it.items[i])
  }

  function SingletonCode(s: Singleton): byte {
    match s
    case NoneObject => 'N' as byte
    case StopIteration => 'S' as byte
    case Ellipsis => '.' as byte
    case False => 'F' as byte
    case True => 'T' as byte
  }

  function ShapeCode(s: Shape): byte {
    match s
    case Tuple => '(' as byte
    case List => '[' as byte
    case Set => '<' as byte
    case FrozenSet => '>' as byte
    case Dict => '{' as byte
    case Code(_) => 'c' as byte
  }

  const TYPE_NULL: byte := '0' as byte

  /** `_apply_flag` */
  function Flagged(code: byte, flag: bool): byte
    requires code < 128
  {
    if flag then code + 128 else code
  }

  // ----- the writer's bytes -----

  /** `_dump_int` */
  function IntBytes(n: int, flag: bool): Option<seq<byte>> {
    if FitsLong(n) then Join(Some([Flagged('i' as byte, flag)]), Long(n))
    else
      var digits := Digits(if n < 0 then -n else n);
      DigitsAreDigits(if n < 0 then -n else n);
      Join(Join(Some([Flagged('l' as byte, flag)]), Long(if n < 0 then -|digits| else |digits|)), Some(Shorts(digits)))
  }

  /** A length and that many bytes. */
  function Counted(data: seq<byte>): Option<seq<byte>> {
    Join(Long(|data|), Some(data))
  }

  function LeafBytes(leaf: Leaf, flag: bool): Option<seq<byte>> {
    match leaf
    case Int(n) => IntBytes(n, flag)
    case Float(d) => Some([Flagged('g' as byte, flag)] + d)
    case Complex(re, im) => Some([Flagged('y' as byte, flag)] + re + im)
    case Str(utf8) => Join(Some([Flagged('u' as byte, flag)]), Counted(utf8))
    case Bytes(data) => Join(Some([Flagged('s' as byte, flag)]), Counted(data))
  }

  function HeaderBytes(h: Header): Option<seq<byte>> {
    Join(Join(Join(Join(Join(Long(h.argcount), Long(h.posonlyargcount)), Long(h.kwonlyargcount)),
                   Long(h.nlocals)), Long(h.stacksize)), Long(h.flags))
  }

  /** What stands before the items of a container. */
  function Before(shape: Shape, n: nat): Option<seq<byte>> {
    match shape
    case Dict => Some([])
    case Code(h) => HeaderBytes(h)
    case _ => Long(n)
  }

  /** What stands after the first `Cut` of them. */
  function After(shape: Shape): Option<seq<byte>> {
    match shape
    case Dict => Some([TYPE_NULL])
    case Code(h) => Long(h.firstlineno)
    case _ => Some([])
  }

  function Cut(shape: Shape, n: nat): (k: nat)
    ensures k <= n
  {
    if shape.Code? && n >= 8 then 8 else n
  }

  function Encode(it: Item): Option<seq<byte>> {
    match it
    case Single(s) => Some([SingletonCode(s)])
    case Ref(a) => Join(Some(['r' as byte]), Long(a))
    case Atom(flag, leaf) => LeafBytes(leaf, flag)
    case Node(flag, shape, items) =>
      var k := Cut(shape, |items|);
      Join(Join(Join(Join(Some([Flagged(ShapeCode(shape), flag)]), Before(shape, |items|)), EncodeAll(items, 0, k)),
                After(shape)), EncodeAll(items, k, |items|))
  }

  function EncodeAll(items: seq<Item>, lo: nat, hi: nat): Option<seq<byte>>
    requires lo <= hi <= |items|
    decreases items, hi - lo
  {
    if lo == hi then Some([]) else Join(Encode(items[lo]), EncodeAll(items, lo + 1, hi))
  }

  // ----- the reader -----

  function ReadCounted(s: seq<byte>): (r: Option<(seq<byte>, seq<byte>)>)
    ensures r.Some? ==> |r.value.1| < |s|
  {
    match ReadLong(s)
    case None => None
    case Some((n, t)) => if 0 <= n <= |t| then Some((t[..n], t[n..])) else None
  }

  /** A number of `count` digits, with its sign on the count. */
  function ReadBig(s: seq<byte>): (r: Option<(int, seq<byte>)>)
    ensures r.Some? ==> |r.value.1| < |s|
  {
    match ReadLong(s)
    case None => None
    case Some((count, t)) =>
      match ReadDigits(if count < 0 then -count else count, t)
      case None => None
      case Some((n, u)) => Some((if count < 0 then -(n as int) else n, u))
  }

  function ReadHeader(s: seq<byte>): (r: Option<(Header, seq<byte>)>)
    ensures r.Some? ==> |r.value.1| < |s|
  {
    if |s| < 24 then None
    else
      Some((Header(ReadLong(s).value.0, ReadLong(s[4..]).value.0, ReadLong(s[8..]).value.0,
                   ReadLong(s[12..]).value.0, ReadLong(s[16..]).value.0, ReadLong(s[20..]).value.0, 0), s[24..]))
  }

  function WithRest(it: Item, rest: seq<byte>): Option<(Item, seq<byte>)> {
    Some((it, rest))
  }

  /** The first object of a stream, and the bytes after it. */
  function Decode(s: seq<byte>): (r: Option<(Item, seq<byte>)>)
    ensures r.Some? ==> |r.value.1| < |s|
    decreases |s|, 0, 0
  {
    if s == [] then None
    else
      var code, flag, t := (s[0] % 128) as char, s[0] >= 128, s[1..];
      if code == 'N' then WithRest(Single(NoneObject), t)
      else if code == 'S' then WithRest(Single(StopIteration), t)
      else if code == '.' then WithRest(Single(Ellipsis), t)
      else if code == 'F' then WithRest(Single(False), t)
      else if code == 'T' then WithRest(Single(True), t)
      else if code in "igylus" then DecodeLeaf(code, flag, t)
      else if code == 'r' then
        (match ReadLong(t)
         case None => None
         case Some((a, u)) => WithRest(Ref(a), u))
      else if code == '{' then
        (match DecodePairs(t)
         case None => None
         case Some((items, u)) => WithRest(Node(flag, Dict, items), u))
      else if code == 'c' then
        match ReadHeader(t) {
          case None => None
          case Some((h, u)) =>
            match DecodeMany(8, u) {
              case None => None
              case Some((items, v)) =>
                match ReadLong(v) {
                  case None => None
                  case Some((line, w)) =>
                    match Decode(w) {
                      case None => None
                      case Some((last, x)) => WithRest(Node(flag, Code(h.(firstlineno := line)), items + [last]), x)
                    }
                }
            }
        }
      else if code in "([<>" then
        var shape :=
          if code == '(' then Tuple else if code == '[' then List else if code == '<' then Set else FrozenSet;
        match ReadLong(t) {
          case None => None
          case Some((n, u)) =>
            if n < 0 then None
            else match DecodeMany(n, u)
              case None => None
              case Some((items, v)) => WithRest(Node(flag, shape, items), v)
        }
      else None
  }

  function DecodeLeaf(code: char, flag: bool, t: seq<byte>): (r: Option<(Item, seq<byte>)>)
    ensures r.Some? ==> |r.value.1| <= |t|
  {
    if code == 'i' then
      match ReadLong(t)
      case None => None
      case Some((n, u)) => Some((Atom(flag, Int(n)), u))
    else if code == 'l' then
      match ReadBig(t)
      case None => None
      case Some((n, u)) => Some((Atom(flag, Int(n)), u))
    else if code == 'g' then
      if |t| < 8 then None else Some((Atom(flag, Float(t[..8])), t[8..]))
    else if code == 'y' then
      if |t| < 16 then None else Some((Atom(flag, Complex(t[..8], t[8..16])), t[16..]))
    else
      match ReadCounted(t)
      case None => None
      case Some((data, u)) => Some((Atom(flag, if code == 'u' then Str(data) else Bytes(data)), u))
  }

  function DecodeMany(n: nat, s: seq<byte>): (r: Option<(seq<Item>, seq<byte>)>)
    ensures r.Some? ==> |r.value.1| <= |s|
    decreases |s|, 1, n
  {
    if n == 0 then Some(([], s))
    else match Decode(s)
      case None => None
      case Some((it, t)) =>
        match DecodeMany(n - 1, t)
        case None => None
        case Some((items, u)) => Some(([it] + items, u))
  }

  /** Keys and values up to a TYPE_NULL. */
  function DecodePairs(s: seq<byte>): (r: Option<(seq<Item>, seq<byte>)>)
    ensures r.Some? ==> |r.value.1| <= |s|
    decreases |s|, 1, 0
  {
    if s != [] && s[0] == TYPE_NULL then Some(([], s[1..]))
    else match Decode(s)
      case None => None
      case Some((key, t)) =>
        match Decode(t)
        case None => None
        case Some((value, u)) =>
          match DecodePairs(u)
          case None => None
          case Some((items, v)) => Some(([key, value] + items, v))
  }
}
