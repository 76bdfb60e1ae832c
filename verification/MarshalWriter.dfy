/** The marshal writer as the source runs it: it counts references, then appends to a
    stream and keeps a reference table. Proved against `MarshalDump.Dumps`. */
module MarshalWriter {
  import opened Basics
  import opened MarshalFormat
  import opened MarshalRoundTrip
  import opened MarshalRefs
  import opened MarshalDump

  class Stream {
    var data: seq<byte>

    constructor ()
      ensures data == []
    {
      data := [];
    }

    method Write(bytes: seq<byte>) returns (n: nat)
      modifies this
      ensures data == old(data) + bytes && n == |bytes|
    {
      data := data + bytes;
      n := |bytes|;
    }
  }

  /** What a write that may raise leaves on the stream, and the count it returns. */
  predicate Wrote(wanted: Option<seq<byte>>, before: seq<byte>, after: seq<byte>, n: Option<nat>) {
    n.Some? == wanted.Some? && (n.Some? ==> after == before + wanted.value && n.value == |wanted.value|)
  }

  // ----- numbers and leaves -----

  method WriteLong(n: int, f: Stream) returns (r: Option<nat>)
    modifies f
    ensures Wrote(Long(n), old(f.data), f.data, r)
  {
    if !FitsLong(n) {
      return None;
    }
    var k := f.Write(Long(n).value);
    return Some(k);
  }

  lemma ShortsGrow(ds: seq<nat>, d: nat)
    requires AreDigits(ds) && d < 0x8000
    ensures Shorts(ds + [d]) == Shorts(ds) + Short(d)
  {
    if ds == [] {
      assert Shorts([d]) == Short(d) + Shorts([]);
      assert ds + [d] == [d] && Short(d) + [] == Short(d) && Shorts(ds) + Short(d) == Short(d);
    } else {
      ShortsGrow(ds[1..], d);
      assert (ds + [d])[1..] == ds[1..] + [d];
      assert Short(ds[0]) + (Shorts(ds[1..]) + Short(d)) == Short(ds[0]) + Shorts(ds[1..]) + Short(d);
    }
  }

  /** The digits of a magnitude, peeled off from the low end. */
  method PeelDigits(m: nat) returns (digits: seq<nat>)
    ensures digits == Digits(m)
  {
    var rest := m;
    digits := [];
    while rest != 0
      invariant digits + Digits(rest) == Digits(m)
    {
      assert digits + Digits(rest) == digits + [rest % 0x8000] + Digits(rest / 0x8000);
      digits, rest := digits + [rest % 0x8000], rest / 0x8000;
    }
  }

  method DumpInt(obj: int, flag: bool, f: Stream) returns (r: Option<nat>)
    modifies f
    ensures Wrote(IntBytes(obj, flag), old(f.data), f.data, r)
  {
    hide Long; hide Shorts; hide FitsLong; hide Digits;
    if FitsLong(obj) {
      var a := f.Write([Flagged('i' as byte, flag)]);
      var b := WriteLong(obj, f);
      return if b.None? then None else Some(a + b.value);
    }
    var a := f.Write([Flagged('l' as byte, flag)]);
    var magnitude := if obj < 0 then -obj else obj;
    var digits := PeelDigits(magnitude);
    DigitsAreDigits(magnitude);
    var b := WriteLong(if obj < 0 then -|digits| else |digits|, f);
    if b.None? {
      return None;
    }
    var n := WriteDigits(digits, f);
    return Some(a + b.value + n);
  }

  method WriteDigits(digits: seq<nat>, f: Stream) returns (n: nat)
    requires AreDigits(digits)
    modifies f
    ensures f.data == old(f.data) + Shorts(digits) && n == |Shorts(digits)|
  {
    hide Shorts;
    var i := 0;
    n := 0;
    NoShorts();
    while i < |digits|
      invariant i <= |digits| && f.data == old(f.data) + Shorts(digits[..i]) && n == |Shorts(digits[..i])|
    {
      ShortsGrow(digits[..i], digits[i]);
      assert digits[..i + 1] == digits[..i] + [digits[i]];
      var k := f.Write(Short(digits[i]));
      n, i := n + k, i + 1;
    }
    assert digits[..i] == digits;
  }

  lemma NoShorts()
    ensures Shorts([]) == []
  {
  }

  method DumpCounted(code: byte, data: seq<byte>, f: Stream) returns (r: Option<nat>)
    modifies f
    ensures Wrote(Join(Some([code]), Counted(data)), old(f.data), f.data, r)
  {
    hide Long;
    var a := f.Write([code]);
    var b := WriteLong(|data|, f);
    if b.None? {
      return None;
    }
    var c := f.Write(data);
    return Some(a + b.value + c);
  }

  method DumpLeaf(leaf: Leaf, flag: bool, f: Stream) returns (r: Option<nat>)
    modifies f
    ensures Wrote(LeafBytes(leaf, flag), old(f.data), f.data, r)
  {
    hide Counted; hide IntBytes;
    match leaf {
      case Int(n) => r := DumpInt(n, flag, f);
      case Float(d) =>
        var a := f.Write([Flagged('g' as byte, flag)]);
        var b := f.Write(d);
        r := Some(a + b);
      case Complex(re, im) =>
        var a := f.Write([Flagged('y' as byte, flag)]);
        var b := f.Write(re);
        var c := f.Write(im);
        r := Some(a + b + c);
      case Str(utf8) => r := DumpCounted(Flagged('u' as byte, flag), utf8, f);
      case Bytes(data) => r := DumpCounted(Flagged('s' as byte, flag), data, f);
    }
  }

  method DumpHeader(h: Header, f: Stream) returns (r: Option<nat>)
    modifies f
    ensures Wrote(HeaderBytes(h), old(f.data), f.data, r)
  {
    hide Long;
    var a := WriteLong(h.argcount, f);
    if a.None? { return None; }
    var b := WriteLong(h.posonlyargcount, f);
    if b.None? { return None; }
    var c := WriteLong(h.kwonlyargcount, f);
    if c.None? { return None; }
    var d := WriteLong(h.nlocals, f);
    if d.None? { return None; }
    var e := WriteLong(h.stacksize, f);
    if e.None? { return None; }
    var g := WriteLong(h.flags, f);
    if g.None? { return None; }
    return Some(a.value + b.value + c.value + d.value + e.value + g.value);
  }

  // ----- references -----

  function Position(vs: seq<Value>, v: Value): (i: nat)
    ensures i <= |vs|
    ensures i < |vs| ==> vs[i] == v
    ensures v in vs <==> i < |vs|
  {
    if vs == [] then 0 else if vs[0] == v then 0 else 1 + Position(vs[1..], v)
  }

  lemma {:induction false} PositionFirst(vs: seq<Value>, v: Value, i: nat)
    requires i <= |vs| && v !in vs[..i] && (i < |vs| ==> vs[i] == v)
    ensures Position(vs, v) == i
    decreases i
  {
    if i == 0 {
    } else {
      assert vs[..i][0] == vs[0] && vs[1..][..i - 1] == vs[..i][1..];
      PositionFirst(vs[1..], v, i - 1);
    }
  }

  lemma {:induction false} PositionAppend(vs: seq<Value>, w: Value, v: Value)
    ensures Position(vs + [w], v) == if v in vs then Position(vs, v) else if v == w then |vs| else |vs| + 1
  {
    if vs != [] {
      assert (vs + [w])[1..] == vs[1..] + [w];
      PositionAppend(vs[1..], w, v);
    }
  }

  class ReferenceData {
    var referenceCount: map<nat, nat>
    var referenceTable: map<nat, nat>
    var indirect: seq<Value>
    ghost var table: seq<nat>

    constructor ()
      ensures Valid() && table == []
      ensures forall v :: Count(v) == 0
    {
      referenceCount, referenceTable, indirect, table := map[], map[], [], [];
    }

    /** The reference table by position in `indirect` is `table` by identity. */
    ghost predicate Valid()
      reads this
    {
      && (forall i :: i in referenceCount ==> i < |indirect|)
      && (forall i :: i in referenceTable ==> i < |indirect|)
      && |referenceTable| == |table|
      && (forall a :: 0 <= a < |table| ==> Address(table[a]) == Some(a))
      && (forall id :: Address(id).Some? ==> Address(id).value < |table| && table[Address(id).value] == id)
    }

    ghost function Address(id: nat): Option<nat>
      reads this`indirect, this`referenceTable
    {
      var i := Position(indirect, Object(id));
      if i in referenceTable then Some(referenceTable[i]) else None
    }

    ghost function Count(v: Value): nat
      reads this`indirect, this`referenceCount
    {
      var i := Position(indirect, v);
      if i in referenceCount then referenceCount[i] else 0
    }

    /** `_get_indirect_ref` */
    method GetIndirectRef(v: Value) returns (i: nat)
      requires Valid()
      modifies this`indirect
      ensures Valid() && i < |indirect| && i == Position(indirect, v)
      ensures forall w :: Count(w) == old(Count(w))
      ensures forall id :: Address(id) == old(Address(id))
    {
      i := 0;
      while i < |indirect|
        invariant i <= |indirect| && v !in indirect[..i]
        invariant indirect == old(indirect)
      {
        if indirect[i] == v {
          PositionFirst(indirect, v, i);
          return;
        }
        i := i + 1;
      }
      assert indirect[..i] == indirect;
      ghost var known := indirect;
      indirect := indirect + [v];
      PositionAppend(known, v, v);
      forall w ensures Count(w) == old(Count(w)) { PositionAppend(known, v, w); }
      forall id ensures Address(id) == old(Address(id)) { PositionAppend(known, v, Object(id)); }
    }

    /** `_incref` */
    method Incref(v: Value)
      requires Valid()
      modifies this`indirect, this`referenceCount
      ensures Valid()
      ensures Count(v) == old(Count(v)) + 1 && forall w :: w != v ==> Count(w) == old(Count(w))
      ensures forall id :: Address(id) == old(Address(id))
    {
      var i := GetIndirectRef(v);
      referenceCount := referenceCount[i := (if i in referenceCount then referenceCount[i] else 0) + 1];
      forall w | w != v ensures Position(indirect, w) != i {}
      forall w ensures Count(w) == old(Count(w)) + if w == v then 1 else 0 {}
    }

    /** The next free address for the object at position `i`. */
    method StartReference(id: nat, i: nat)
      requires Valid() && i < |indirect| && i == Position(indirect, Object(id)) && i !in referenceTable
      modifies this`referenceTable, this`table
      ensures Valid() && table == old(table) + [id]
    {
      referenceTable := referenceTable[i := |referenceTable|];
      table := table + [id];
      forall x | x != id ensures Address(x) == old(Address(x)) {}
    }

    /** `_count_references`: refuses unsupported objects, and otherwise counts the visits
        of a walk that never prunes. */
    method CountReferences(g: Graph, v: Value) returns (ok: bool)
      requires Valid() && Acyclic(g) && Rank(v) <= |g|
      modifies this`indirect, this`referenceCount
      ensures Valid() && ok == Tree(g, v).Some?
      ensures ok ==> forall x :: Count(Object(x)) == old(Count(Object(x))) + Visits(g, v, x)
      ensures forall id :: Address(id) == old(Address(id))
      decreases Rank(v), 0
    {
      hide Valid; hide Address; hide Count;
      Incref(v);
      if v.Shared? {
        return true;
      }
      match g[v.id] {
        case Other => return false;
        case Plain(_) => return true;
        case Container(_, children) => ok := CountAll(g, children, v.id);
      }
    }

    method CountAll(g: Graph, vs: seq<Value>, bound: nat) returns (ok: bool)
      requires Valid() && Acyclic(g) && Under(vs, bound) && bound <= |g|
      modifies this`indirect, this`referenceCount
      ensures Valid() && ok == Trees(g, vs, |vs|, bound).Some?
      ensures ok ==> forall x :: Count(Object(x)) == old(Count(Object(x))) + VisitsAll(g, vs, |vs|, bound, x)
      ensures forall id :: Address(id) == old(Address(id))
      decreases bound, 1
    {
      hide Valid; hide Address; hide Count;
      var k := 0;
      while k < |vs|
        invariant k <= |vs| && Valid() && Trees(g, vs, k, bound).Some?
        invariant forall x :: Count(Object(x)) == old(Count(Object(x))) + VisitsAll(g, vs, k, bound, x)
        invariant forall id :: Address(id) == old(Address(id))
      {
        var counted := CountReferences(g, vs[k]);
        if !counted {
          TreesFail(g, vs, k + 1, |vs|, bound);
          return false;
        }
        k := k + 1;
      }
      ok := true;
    }
  }

  lemma {:induction false} TreesFail(g: Graph, vs: seq<Value>, k: nat, n: nat, bound: nat)
    requires Acyclic(g) && Under(vs, bound) && bound <= |g| && k <= n <= |vs| && Trees(g, vs, k, bound).None?
    ensures Trees(g, vs, n, bound).None?
    decreases n
  {
    if k < n { TreesFail(g, vs, k, n - 1, bound); }
  }

  // ----- objects -----

  /** The bytes of `v` and the table after it, or None. */
  function LineBytes(g: Graph, root: Value, refs: bool, v: Value, table: seq<nat>): Option<(seq<byte>, seq<nat>)>
    requires Acyclic(g) && Rank(root) <= |g| && Rank(v) <= |g|
  {
    match Line(g, root, refs, v, table)
    case None => None
    case Some((it, table1)) => if Encode(it).None? then None else Some((Encode(it).value, table1))
  }

  /** The bytes of children `lo` to `hi`, and the table after child `hi`. */
  function RangeBytes(g: Graph, root: Value, refs: bool, vs: seq<Value>, lo: nat, hi: nat, bound: nat, table: seq<nat>)
    : Option<(seq<byte>, seq<nat>)>
    requires Acyclic(g) && Rank(root) <= |g| && Under(vs, bound) && bound <= |g| && lo <= hi <= |vs|
  {
    match LineAll(g, root, refs, vs, hi, bound, table)
    case None => None
    case Some((items, table1)) =>
      if EncodeAll(items, lo, hi).None? then None else Some((EncodeAll(items, lo, hi).value, table1))
  }

  lemma RangeStep(g: Graph, root: Value, refs: bool, vs: seq<Value>, lo: nat, j: nat, bound: nat, table: seq<nat>)
    requires Acyclic(g) && Rank(root) <= |g| && Under(vs, bound) && bound <= |g| && lo <= j < |vs|
    requires RangeBytes(g, root, refs, vs, lo, j, bound, table).Some?
    ensures var (b, t) := RangeBytes(g, root, refs, vs, lo, j, bound, table).value;
      var next := LineBytes(g, root, refs, vs[j], t);
      RangeBytes(g, root, refs, vs, lo, j + 1, bound, table)
      == if next.None? then None else Some((b + next.value.0, next.value.1))
  {
    hide Encode;
    var (items, t) := LineAll(g, root, refs, vs, j, bound, table).value;
    var next := Line(g, root, refs, vs[j], t);
    if next.Some? { EncodeGrows(items, next.value.0, lo); }
  }

  lemma {:induction false} RangeFails(g: Graph, root: Value, refs: bool, vs: seq<Value>, lo: nat, j: nat, hi: nat,
                                      bound: nat, table: seq<nat>)
    requires Acyclic(g) && Rank(root) <= |g| && Under(vs, bound) && bound <= |g| && lo <= j <= hi <= |vs|
    requires RangeBytes(g, root, refs, vs, lo, j, bound, table).None?
    ensures RangeBytes(g, root, refs, vs, lo, hi, bound, table).None?
    decreases hi
  {
    if j < hi {
      RangeFails(g, root, refs, vs, lo, j, hi - 1, bound, table);
      hide Encode; hide Line;
      var last := LineAll(g, root, refs, vs, hi - 1, bound, table);
      if last.Some? {
        var next := Line(g, root, refs, vs[hi - 1], last.value.1);
        if next.Some? { EncodeGrows(last.value.0, next.value.0, lo); }
      }
    }
  }

  /** The bytes of a container, from those of its children in two stretches. */
  function NodeBytes(g: Graph, root: Value, refs: bool, shape: Shape, flag: bool, vs: seq<Value>, bound: nat,
                     table: seq<nat>)
    : Option<(seq<byte>, seq<nat>)>
    requires Acyclic(g) && Rank(root) <= |g| && Under(vs, bound) && bound <= |g|
  {
    var k := Cut(shape, |vs|);
    var first := RangeBytes(g, root, refs, vs, 0, k, bound, table);
    var last := RangeBytes(g, root, refs, vs, k, |vs|, bound, table);
    if first.None? || last.None? || Before(shape, |vs|).None? || After(shape).None? then None
    else Some(([Flagged(ShapeCode(shape), flag)] + Before(shape, |vs|).value + first.value.0
               + After(shape).value + last.value.0, last.value.1))
  }

  lemma ContainerBytes(g: Graph, root: Value, refs: bool, v: Value, table: seq<nat>)
    requires Acyclic(g) && Rank(root) <= |g| && Rank(v) <= |g|
    requires v.Object? && g[v.id].Container? && !(refs && v.id in table)
    requires !(refs && Visits(g, root, v.id) > 1 && |table| >= MAX_ADDRESS)
    ensures var flag := refs && Visits(g, root, v.id) > 1;
      LineBytes(g, root, refs, v, table)
      == NodeBytes(g, root, refs, g[v.id].shape, flag, g[v.id].children, v.id, if flag then table + [v.id] else table)
  {
    hide Before; hide After; hide Visits; hide EncodeAll; hide LineAll; hide Encode; hide Line; hide RangeBytes;
    var flag := refs && Visits(g, root, v.id) > 1;
    var shape, vs := g[v.id].shape, g[v.id].children;
    var t := if flag then table + [v.id] else table;
    var all := LineAll(g, root, refs, vs, |vs|, v.id, t);
    ContainerLine(g, root, refs, v, table);
    if all.None? {
      NoRange(g, root, refs, vs, Cut(shape, |vs|), v.id, t);
    } else {
      TwoRanges(g, root, refs, vs, Cut(shape, |vs|), v.id, t);
      EncodeNode(flag, shape, all.value.0);
    }
  }

  lemma ContainerLine(g: Graph, root: Value, refs: bool, v: Value, table: seq<nat>)
    requires Acyclic(g) && Rank(root) <= |g| && Rank(v) <= |g|
    requires v.Object? && g[v.id].Container? && !(refs && v.id in table)
    requires !(refs && Visits(g, root, v.id) > 1 && |table| >= MAX_ADDRESS)
    ensures var flag := refs && Visits(g, root, v.id) > 1;
      var vs := g[v.id].children;
      var all := LineAll(g, root, refs, vs, |vs|, v.id, if flag then table + [v.id] else table);
      Line(g, root, refs, v, table)
      == if all.None? then None else Some((Node(flag, g[v.id].shape, all.value.0), all.value.1))
  {
    hide LineAll; hide Visits;
  }

  lemma NoRange(g: Graph, root: Value, refs: bool, vs: seq<Value>, k: nat, bound: nat, table: seq<nat>)
    requires Acyclic(g) && Rank(root) <= |g| && Under(vs, bound) && bound <= |g| && k <= |vs|
    requires LineAll(g, root, refs, vs, |vs|, bound, table).None?
    ensures RangeBytes(g, root, refs, vs, k, |vs|, bound, table).None?
  {
  }

  /** The bytes of all children, in two stretches. */
  lemma TwoRanges(g: Graph, root: Value, refs: bool, vs: seq<Value>, k: nat, bound: nat, table: seq<nat>)
    requires Acyclic(g) && Rank(root) <= |g| && Under(vs, bound) && bound <= |g| && k <= |vs|
    requires LineAll(g, root, refs, vs, |vs|, bound, table).Some?
    ensures var (items, table1) := LineAll(g, root, refs, vs, |vs|, bound, table).value;
      var first, last := EncodeAll(items, 0, k), EncodeAll(items, k, |items|);
      var (a, b) := (RangeBytes(g, root, refs, vs, 0, k, bound, table),
                     RangeBytes(g, root, refs, vs, k, |vs|, bound, table));
      && a.Some? == first.Some? && (a.Some? ==> a.value.0 == first.value)
      && b == if last.None? then None else Some((last.value, table1))
  {
    hide EncodeAll; hide LineAll; hide Encode;
    var items := LineAll(g, root, refs, vs, |vs|, bound, table).value.0;
    AllPrefix(g, root, refs, vs, k, |vs|, bound, table);
    EncodePrefix(items[..k], items[k..], 0, k);
    assert items[..k] + items[k..] == items;
  }

  lemma EncodeNode(flag: bool, shape: Shape, items: seq<Item>)
    ensures var k := Cut(shape, |items|);
      var first, last := EncodeAll(items, 0, k), EncodeAll(items, k, |items|);
      Encode(Node(flag, shape, items))
      == if first.None? || last.None? || Before(shape, |items|).None? || After(shape).None? then None
         else Some([Flagged(ShapeCode(shape), flag)] + Before(shape, |items|).value + first.value
                   + After(shape).value + last.value)
  {
    hide EncodeAll; hide Before; hide After;
  }

  lemma {:induction false} AllPrefix(g: Graph, root: Value, refs: bool, vs: seq<Value>, k: nat, n: nat, bound: nat,
                                     table: seq<nat>)
    requires Acyclic(g) && Rank(root) <= |g| && Under(vs, bound) && bound <= |g| && k <= n <= |vs|
    requires LineAll(g, root, refs, vs, n, bound, table).Some?
    ensures LineAll(g, root, refs, vs, k, bound, table).Some?
    ensures LineAll(g, root, refs, vs, k, bound, table).value.0
         == LineAll(g, root, refs, vs, n, bound, table).value.0[..k]
    decreases n
  {
    if k < n { AllPrefix(g, root, refs, vs, k, n - 1, bound, table); }
  }

  ghost predicate CountsVisits(rd: ReferenceData, g: Graph, root: Value)
    requires Acyclic(g) && Rank(root) <= |g|
    reads rd`indirect, rd`referenceCount
  {
    forall x :: rd.Count(Object(x)) == Visits(g, root, x)
  }

  /** What dumping leaves behind: the wanted bytes on the stream and the wanted table. */
  predicate Dumped(wanted: Option<(seq<byte>, seq<nat>)>, before: seq<byte>, after: seq<byte>, table: seq<nat>,
                   n: Option<nat>) {
    && n.Some? == wanted.Some?
    && (n.Some? ==> after == before + wanted.value.0 && n.value == |wanted.value.0| && table == wanted.value.1)
  }

  /** How `_dump` begins in version 3: a reference if `v` has an address, and otherwise an
      address and a flag if it needs one. */
  method StartObject(g: Graph, root: Value, v: Value, rd: ReferenceData, f: Stream)
    returns (done: bool, r: Option<nat>, flag: bool)
    requires Acyclic(g) && Rank(root) <= |g| && Rank(v) <= |g| && v.Object?
    requires rd.Valid() && CountsVisits(rd, g, root)
    modifies rd`indirect, rd`referenceTable, rd`table, f
    ensures rd.Valid() && CountsVisits(rd, g, root)
    ensures done ==> Dumped(LineBytes(g, root, true, v, old(rd.table)), old(f.data), f.data, rd.table, r)
    ensures !done ==> f.data == old(f.data) && v.id !in old(rd.table) && flag == (Visits(g, root, v.id) > 1)
    ensures !done ==> rd.table == if flag then old(rd.table) + [v.id] else old(rd.table)
    ensures !done && flag ==> |old(rd.table)| < MAX_ADDRESS
  {
    hide LineBytes; hide Dumped; hide Visits;
    done, r, flag := false, None, false;
    var i := rd.GetIndirectRef(v);
    if i in rd.referenceTable {
      r := DumpRef(g, root, v, i, rd, f);
      done := true;
      return;
    }
    assert v.id !in rd.table;
    var references := if i in rd.referenceCount then rd.referenceCount[i] else 0;
    assert references == rd.Count(v);
    if references > 1 {
      if |rd.referenceTable| >= MAX_ADDRESS {
        NoAddressLeft(g, root, v, rd.table, f.data);
        done := true;
        return;
      }
      rd.StartReference(v.id, i);
      flag := true;
    }
  }

  lemma NoAddressLeft(g: Graph, root: Value, v: Value, table: seq<nat>, data: seq<byte>)
    requires Acyclic(g) && Rank(root) <= |g| && Rank(v) <= |g| && v.Object? && v.id !in table
    requires Visits(g, root, v.id) > 1 && |table| >= MAX_ADDRESS
    ensures Dumped(LineBytes(g, root, true, v, table), data, data, table, None)
  {
  }

  lemma PlainBytes(g: Graph, root: Value, refs: bool, v: Value, table: seq<nat>)
    requires Acyclic(g) && Rank(root) <= |g| && Rank(v) <= |g|
    requires v.Object? && !g[v.id].Container? && !(refs && v.id in table)
    requires !(refs && Visits(g, root, v.id) > 1 && |table| >= MAX_ADDRESS)
    ensures var flag := refs && Visits(g, root, v.id) > 1;
      var bytes := if g[v.id].Other? then None else LeafBytes(g[v.id].leaf, flag);
      LineBytes(g, root, refs, v, table)
      == if bytes.None? then None else Some((bytes.value, if flag then table + [v.id] else table))
  {
  }

  /** `_dump` */
  method Dump(g: Graph, root: Value, refs: bool, v: Value, rd: ReferenceData, f: Stream) returns (r: Option<nat>)
    requires Acyclic(g) && Rank(root) <= |g| && Rank(v) <= |g|
    requires rd.Valid() && (refs ==> CountsVisits(rd, g, root))
    modifies rd`indirect, rd`referenceTable, rd`table, f
    ensures rd.Valid() && (refs ==> CountsVisits(rd, g, root))
    ensures Dumped(LineBytes(g, root, refs, v, old(rd.table)), old(f.data), f.data, rd.table, r)
    decreases Rank(v), 1
  {
    if v.Shared? {
      var n := f.Write([SingletonCode(v.single)]);
      return Some(n);
    }
    hide LineBytes; hide Visits; hide ReferenceData.Valid; hide CountsVisits; hide NodeBytes; hide LeafBytes;
    ghost var table := rd.table;
    var flag := false;
    if refs {
      var done;
      done, r, flag := StartObject(g, root, v, rd, f);
      if done {
        return;
      }
    }
    if g[v.id].Container? {
      ContainerBytes(g, root, refs, v, table);
      r := DumpContainer(g, root, refs, v, flag, rd, f);
    } else {
      PlainBytes(g, root, refs, v, table);
      if g[v.id].Other? {
        return None;
      }
      r := DumpLeaf(g[v.id].leaf, flag, f);
    }
  }

  /** `_dump_ref` for an object that has an address. */
  method DumpRef(g: Graph, root: Value, v: Value, i: nat, rd: ReferenceData, f: Stream) returns (r: Option<nat>)
    requires Acyclic(g) && Rank(root) <= |g| && Rank(v) <= |g| && v.Object?
    requires rd.Valid() && i == Position(rd.indirect, v) && i in rd.referenceTable
    modifies f
    ensures Dumped(LineBytes(g, root, true, v, rd.table), old(f.data), f.data, rd.table, r)
  {
    assert rd.Address(v.id) == Some(rd.referenceTable[i]);
    assert IndexOf(rd.table, v.id) == rd.referenceTable[i] by {
      assert rd.Address(rd.table[IndexOf(rd.table, v.id)]) == Some(IndexOf(rd.table, v.id));
    }
    var a := f.Write(['r' as byte]);
    var b := WriteLong(rd.referenceTable[i], f);
    return if b.None? then None else Some(a + b.value);
  }

  method DumpBefore(shape: Shape, n: nat, f: Stream) returns (r: Option<nat>)
    modifies f
    ensures Wrote(Before(shape, n), old(f.data), f.data, r)
  {
    match shape {
      case Dict => r := Some(0);
      case Code(h) => r := DumpHeader(h, f);
      case _ => r := WriteLong(n, f);
    }
  }

  method DumpAfter(shape: Shape, f: Stream) returns (r: Option<nat>)
    modifies f
    ensures Wrote(After(shape), old(f.data), f.data, r)
  {
    match shape {
      case Dict => var n := f.Write([TYPE_NULL]); r := Some(n);
      case Code(h) => r := WriteLong(h.firstlineno, f);
      case _ => r := Some(0);
    }
  }

  /** The writers of tuples, lists, sets, frozen sets, dictionaries and code objects. */
  method DumpContainer(g: Graph, root: Value, refs: bool, v: Value, flag: bool, rd: ReferenceData, f: Stream)
    returns (r: Option<nat>)
    requires Acyclic(g) && Rank(root) <= |g| && Rank(v) <= |g| && v.Object? && g[v.id].Container?
    requires rd.Valid() && (refs ==> CountsVisits(rd, g, root))
    modifies rd`indirect, rd`referenceTable, rd`table, f
    ensures rd.Valid() && (refs ==> CountsVisits(rd, g, root))
    ensures Dumped(NodeBytes(g, root, refs, g[v.id].shape, flag, g[v.id].children, v.id, old(rd.table)),
                   old(f.data), f.data, rd.table, r)
    decreases Rank(v), 0
  {
    hide RangeBytes; hide LineAll; hide Before; hide After; hide CountsVisits; hide ReferenceData.Valid;
    hide Cut;
    var shape, vs := g[v.id].shape, g[v.id].children;
    ghost var t := rd.table;
    EmptyRange(g, root, refs, vs, 0, v.id, t);
    var a := f.Write([Flagged(ShapeCode(shape), flag)]);
    var b := DumpBefore(shape, |vs|, f);
    if b.None? {
      return None;
    }
    var k := Cut(shape, |vs|);
    var c := DumpChildren(g, root, refs, vs, 0, k, v.id, rd, f, t);
    if c.None? {
      return None;
    }
    RangeTable(g, root, refs, vs, 0, k, v.id, t);
    var d := DumpAfter(shape, f);
    if d.None? {
      return None;
    }
    var e := DumpChildren(g, root, refs, vs, k, |vs|, v.id, rd, f, t);
    if e.None? {
      return None;
    }
    return Some(a + b.value + c.value + d.value + e.value);
  }

  method DumpChildren(g: Graph, root: Value, refs: bool, vs: seq<Value>, lo: nat, hi: nat, bound: nat,
                      rd: ReferenceData, f: Stream, ghost table: seq<nat>) returns (r: Option<nat>)
    requires Acyclic(g) && Rank(root) <= |g| && Under(vs, bound) && bound <= |g| && lo <= hi <= |vs|
    requires rd.Valid() && (refs ==> CountsVisits(rd, g, root))
    requires LineAll(g, root, refs, vs, lo, bound, table).Some?
    requires rd.table == LineAll(g, root, refs, vs, lo, bound, table).value.1
    modifies rd`indirect, rd`referenceTable, rd`table, f
    ensures rd.Valid() && (refs ==> CountsVisits(rd, g, root))
    ensures Dumped(RangeBytes(g, root, refs, vs, lo, hi, bound, table), old(f.data), f.data, rd.table, r)
    decreases bound, 2
  {
    hide LineAll; hide CountsVisits; hide LineBytes; hide RangeBytes; hide ReferenceData.Valid;
    var j: nat, n: nat := lo, 0;
    EmptyRange(g, root, refs, vs, lo, bound, table);
    while j < hi
      invariant lo <= j <= hi && rd.Valid() && (refs ==> CountsVisits(rd, g, root))
      invariant Dumped(RangeBytes(g, root, refs, vs, lo, j, bound, table), old(f.data), f.data, rd.table, Some(n))
    {
      RangeStep(g, root, refs, vs, lo, j, bound, table);
      var k := Dump(g, root, refs, vs[j], rd, f);
      if k.None? {
        RangeFails(g, root, refs, vs, lo, j + 1, hi, bound, table);
        return None;
      }
      j, n := j + 1, n + k.value;
    }
    r := Some(n);
  }

  lemma EmptyRange(g: Graph, root: Value, refs: bool, vs: seq<Value>, lo: nat, bound: nat, table: seq<nat>)
    requires Acyclic(g) && Rank(root) <= |g| && Under(vs, bound) && bound <= |g| && lo <= |vs|
    ensures LineAll(g, root, refs, vs, 0, bound, table) == Some(([], table))
    ensures LineAll(g, root, refs, vs, lo, bound, table).Some? ==>
      RangeBytes(g, root, refs, vs, lo, lo, bound, table)
      == Some(([], LineAll(g, root, refs, vs, lo, bound, table).value.1))
  {
  }

  lemma RangeTable(g: Graph, root: Value, refs: bool, vs: seq<Value>, lo: nat, hi: nat, bound: nat, table: seq<nat>)
    requires Acyclic(g) && Rank(root) <= |g| && Under(vs, bound) && bound <= |g| && lo <= hi <= |vs|
    requires RangeBytes(g, root, refs, vs, lo, hi, bound, table).Some?
    ensures LineAll(g, root, refs, vs, hi, bound, table).Some?
    ensures RangeBytes(g, root, refs, vs, lo, hi, bound, table).value.1
         == LineAll(g, root, refs, vs, hi, bound, table).value.1
  {
  }

  /** `dumps`; only versions 2 and 3 are supported. */
  method Dumps(g: Graph, v: Value, version: int) returns (r: Option<seq<byte>>)
    requires Acyclic(g) && Rank(v) <= |g|
    ensures r == if version == 2 || version == 3 then MarshalDump.Dumps(g, v, version == 3) else None
  {
    hide Line; hide Encode; hide ReferenceData.Valid;
    if version != 2 && version != 3 {
      return None;
    }
    var rd := new ReferenceData();
    var f := new Stream();
    if version == 3 {
      var ok := rd.CountReferences(g, v);
      if !ok {
        if Line(g, v, true, v, []).Some? { WrittenHasATree(g, v); }
        return None;
      }
    }
    var n := Dump(g, v, version == 3, v, rd, f);
    ghost var wanted := LineBytes(g, v, version == 3, v, []);
    assert wanted.Some? ==> [] + wanted.value.0 == wanted.value.0;
    r := if n.None? then None else Some(f.data);
  }
}
