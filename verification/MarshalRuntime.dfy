/** The runtime's own reader gives an empty frozen set no number even if it is flagged.
    When that matters for what version 3 wrote. */
module MarshalRuntime {
  import opened Basics
  import opened MarshalFormat
  import opened MarshalRefs
  import opened MarshalSharing
  import opened MarshalDump
  import RuntimeLong

  predicate IsEmptyFrozenSet(it: Item) {
    it.Node? && it.shape.FrozenSet? && it.items == []
  }

  /** An item as the runtime's reader takes it. */
  function Seen(it: Item): Item
    decreases it, 0
  {
    if it.Node? then Node(it.flag && !IsEmptyFrozenSet(it), it.shape, SeenAll(it.items, |it.items|)) else it
  }

  function SeenAll(items: seq<Item>, n: nat): (r: seq<Item>)
    requires n <= |items|
    ensures |r| == n
    decreases items, n
  {
    if n == 0 then [] else SeenAll(items, n - 1) + [Seen(items[n - 1])]
  }

  /** Numbers given out so far, and the number of the first flagged empty frozen set. */
  datatype Count = Count(started: nat, lost: Option<nat>)

  predicate Later(c: Count, d: Count) {
    && c.started <= d.started
    && (c.lost.Some? ==> d.lost == c.lost)
    && (c.lost.None? && d.lost.Some? ==> d.lost.value >= c.started)
  }

  /** Every reference is below the number of the first flagged empty frozen set. */
  function Safe(it: Item, c: Count): (r: Option<Count>)
    ensures r.Some? ==> Later(c, r.value)
    decreases it, 0
  {
    match it
    case Single(_) => Some(c)
    case Ref(a) => if c.lost.Some? && a >= c.lost.value then None else Some(c)
    case Atom(flag, _) => Some(if flag then c.(started := c.started + 1) else c)
    case Node(flag, _, items) =>
      if flag && IsEmptyFrozenSet(it) then
        Some(Count(c.started + 1, if c.lost.None? then Some(c.started) else c.lost))
      else SafeAll(items, |items|, if flag then c.(started := c.started + 1) else c)
  }

  function SafeAll(items: seq<Item>, n: nat, c: Count): (r: Option<Count>)
    requires n <= |items|
    ensures r.Some? ==> Later(c, r.value)
    decreases items, n
  {
    if n == 0 then Some(c)
    else match SafeAll(items, n - 1, c)
      case None => None
      case Some(d) => Safe(items[n - 1], d)
  }

  predicate Known(h: Graph, refs: seq<Option<Value>>) {
    forall k :: 0 <= k < |refs| && refs[k].Some? ==> Rank(refs[k].value) <= |h| && refs[k].value.Object?
  }

  /** The numbers of both readers: the same below the lost one, and never the same above. */
  predicate Shifted(h: Graph, refs: seq<Option<Value>>, mine: seq<Option<Value>>, c: Count) {
    && c.started == |refs| && Known(h, refs) && Known(h, mine)
    && (c.lost.None? ==> mine == refs)
    && (c.lost.Some? ==>
          && c.lost.value <= |mine| < |refs| && mine[..c.lost.value] == refs[..c.lost.value]
          && forall k :: c.lost.value <= k < |mine| && mine[k].Some? ==> mine[k] != refs[k])
  }

  /** Two readings end with the same values in the same graph. */
  predicate Agree<W(==)>(a: Option<(W, Graph, seq<Option<Value>>)>, b: Option<(W, Graph, seq<Option<Value>>)>) {
    a.Some? && b.Some? && a.value.0 == b.value.0 && a.value.1 == b.value.1
  }

  /** The readings agree exactly if safe, and then the numbers stay as they should. */
  predicate Verdict<W(==)>(safe: Option<Count>, a: Option<(W, Graph, seq<Option<Value>>)>,
                           b: Option<(W, Graph, seq<Option<Value>>)>) {
    && (safe.Some? <==> Agree(a, b))
    && (safe.Some? ==> Shifted(a.value.1, a.value.2, b.value.2, safe.value))
  }

  lemma {:induction false} SeenIsAsFull(it: Item)
    ensures FullItems(Seen(it)) == FullItems(it)
    decreases it, 0
  {
    if it.Node? { SeenAreAsFull(it.items, |it.items|); }
  }

  lemma {:induction false} SeenAreAsFull(items: seq<Item>, n: nat)
    requires n <= |items|
    ensures AllFullItems(SeenAll(items, n), n) == AllFullItems(items, n)
    decreases items, n
  {
    if n > 0 {
      SeenAreAsFull(items, n - 1);
      SeenIsAsFull(items[n - 1]);
      FullPrefix(SeenAll(items, n - 1), [Seen(items[n - 1])], n - 1);
    }
  }

  lemma {:induction false} FullPrefix(items: seq<Item>, more: seq<Item>, n: nat)
    requires n <= |items|
    ensures AllFullItems(items + more, n) == AllFullItems(items, n)
    decreases n
  {
    if n > 0 { FullPrefix(items, more, n - 1); }
  }

  lemma StartBoth(h: Graph, refs: seq<Option<Value>>, mine: seq<Option<Value>>, c: Count)
    requires Shifted(h, refs, mine, c)
    ensures Shifted(h, refs + [None], mine + [None], c.(started := c.started + 1))
  {
    if c.lost.Some? {
      var l := c.lost.value;
      assert (mine + [None])[..l] == mine[..l] && (refs + [None])[..l] == refs[..l];
    }
  }

  /** The object that started at `i`, for the runtime's reader at `j`, is finished. */
  lemma FinishBoth(h: Graph, b: Obj, refs: seq<Option<Value>>, mine: seq<Option<Value>>, c: Count, i: nat, j: nat)
    requires Shifted(h, refs, mine, c) && j <= i < |refs| && j < |mine|
    requires if c.lost.Some? && c.lost.value <= i then c.lost.value <= j < i else i == j
    ensures var v := Some(Object(|h|));
      Shifted(h + [b], refs[i := v], mine[j := v], c)
  {
    var v := Some(Object(|h|));
    var refs1, mine1 := refs[i := v], mine[j := v];
    if c.lost.Some? {
      var l := c.lost.value;
      forall k | 0 <= k < l ensures mine1[k] == refs1[k] {
        assert mine[..l][k] == refs[..l][k];
      }
      forall k | l <= k < |mine1| && mine1[k].Some? ensures mine1[k] != refs1[k] {
        assert refs[k].Some? ==> refs[k] != v;
        assert mine[k].Some? ==> mine[k] != v;
      }
    }
  }

  /** One item: the readers agree exactly if it holds no reference at or above the lost number. */
  lemma {:induction false} BothRead(it: Item, h: Graph, refs: seq<Option<Value>>, mine: seq<Option<Value>>, c: Count)
    requires Rebuild(it, h, refs).Some? && Shifted(h, refs, mine, c)
    ensures Verdict(Safe(it, c), Rebuild(it, h, refs), Rebuild(Seen(it), h, mine))
    decreases it, 1
  {
    match it
    case Single(_) =>
    case Ref(a) =>
      if c.lost.Some? && a < c.lost.value {
        assert mine[..c.lost.value][a] == refs[..c.lost.value][a];
      }
    case Atom(flag, leaf) => BothReadAtom(flag, leaf, h, refs, mine, c);
    case Node(_, _, _) => BothReadNode(it, h, refs, mine, c);
  }

  lemma StillShifted(h: Graph, b: Obj, refs: seq<Option<Value>>, mine: seq<Option<Value>>, c: Count)
    requires Shifted(h, refs, mine, c)
    ensures Shifted(h + [b], refs, mine, c)
  {
  }

  lemma BothReadAtom(flag: bool, leaf: Leaf, h: Graph, refs: seq<Option<Value>>, mine: seq<Option<Value>>, c: Count)
    requires Shifted(h, refs, mine, c)
    ensures var it := Atom(flag, leaf);
      Verdict(Safe(it, c), Rebuild(it, h, refs), Rebuild(Seen(it), h, mine))
  {
    var b, v := Plain(leaf), Some(Object(|h|));
    if flag {
      StartBoth(h, refs, mine, c);
      FinishBoth(h, b, refs + [None], mine + [None], c.(started := c.started + 1), |refs|, |mine|);
      assert (refs + [None])[|refs| := v] == refs + [v] && (mine + [None])[|mine| := v] == mine + [v];
    } else {
      StillShifted(h, b, refs, mine, c);
    }
  }

  lemma {:induction false} BothReadNode(it: Item, h: Graph, refs: seq<Option<Value>>, mine: seq<Option<Value>>,
                                        c: Count)
    requires it.Node? && Rebuild(it, h, refs).Some? && Shifted(h, refs, mine, c)
    ensures Verdict(Safe(it, c), Rebuild(it, h, refs), Rebuild(Seen(it), h, mine))
    decreases it, 0
  {
    if it.flag && IsEmptyFrozenSet(it) {
      EmptyFrozenSet(it, h, refs, mine, c);
    } else {
      hide Shifted;
      var flag, items := it.flag, it.items;
      var refs1, mine1 := if flag then refs + [None] else refs, if flag then mine + [None] else mine;
      var c1 := if flag then c.(started := c.started + 1) else c;
      StartBoth(h, refs, mine, c);
      BothReadAll(items, |items|, h, refs1, mine1, c1);
      FinishNode(it, h, refs, mine, c);
    }
  }

  lemma EmptyFrozenSet(it: Item, h: Graph, refs: seq<Option<Value>>, mine: seq<Option<Value>>, c: Count)
    requires it.Node? && it.flag && IsEmptyFrozenSet(it) && Shifted(h, refs, mine, c)
    ensures Verdict(Safe(it, c), Rebuild(it, h, refs), Rebuild(Seen(it), h, mine))
  {
    var refs1 := refs + [Some(Object(|h|))];
    assert (refs + [None])[|refs| := Some(Object(|h|))] == refs1;
    assert Rebuild(it, h, refs) == Some((Object(|h|), h + [Container(FrozenSet, [])], refs1));
    assert Rebuild(Seen(it), h, mine) == Some((Object(|h|), h + [Container(FrozenSet, [])], mine));
    if c.lost.Some? {
      assert refs1[..c.lost.value] == refs[..c.lost.value];
    } else {
      assert refs1[..|refs|] == refs == mine[..|refs|];
    }
  }

  lemma FinishNode(it: Item, h: Graph, refs: seq<Option<Value>>, mine: seq<Option<Value>>, c: Count)
    requires it.Node? && !(it.flag && IsEmptyFrozenSet(it)) && Rebuild(it, h, refs).Some? && Shifted(h, refs, mine, c)
    requires var flag, items := it.flag, it.items;
      var refs1, mine1 := if flag then refs + [None] else refs, if flag then mine + [None] else mine;
      var c1 := if flag then c.(started := c.started + 1) else c;
      Verdict(SafeAll(items, |items|, c1), RebuildAll(items, |items|, h, refs1),
              RebuildAll(SeenAll(items, |items|), |items|, h, mine1))
    ensures Verdict(Safe(it, c), Rebuild(it, h, refs), Rebuild(Seen(it), h, mine))
  {
    hide RebuildAll; hide SafeAll; hide SeenAll;
    var flag, items := it.flag, it.items;
    var refs1, mine1 := if flag then refs + [None] else refs, if flag then mine + [None] else mine;
    var c1 := if flag then c.(started := c.started + 1) else c;
    var safe := SafeAll(items, |items|, c1);
    var a, b := RebuildAll(items, |items|, h, refs1), RebuildAll(SeenAll(items, |items|), |items|, h, mine1);
    assert Seen(it) == Node(flag, it.shape, SeenAll(items, |items|));
    if safe.Some? {
      var (vs, h1, refs2) := a.value;
      var mine2 := b.value.2;
      var o := Container(it.shape, vs);
      if flag {
        FinishBoth(h1, o, refs2, mine2, safe.value, |refs|, |mine|);
      } else {
        StillShifted(h1, o, refs2, mine2, safe.value);
      }
    } else if b.Some? {
      AppendDiffers(a.value.1, Container(it.shape, a.value.0), b.value.1, Container(it.shape, b.value.0));
    }
  }

  lemma AppendDiffers(h: Graph, o: Obj, h1: Graph, o1: Obj)
    ensures h + [o] == h1 + [o1] <==> h == h1 && o == o1
  {
    if h + [o] == h1 + [o1] {
      assert |h + [o]| == |h1 + [o1]|;
      assert h == (h + [o])[..|h|] == (h1 + [o1])[..|h|] == h1;
      assert o == (h + [o])[|h|] == (h1 + [o1])[|h|];
    }
  }

  lemma {:induction false} BothReadAll(items: seq<Item>, n: nat, h: Graph, refs: seq<Option<Value>>,
                                       mine: seq<Option<Value>>, c: Count)
    requires n <= |items| && RebuildAll(items, n, h, refs).Some? && Shifted(h, refs, mine, c)
    ensures Verdict(SafeAll(items, n, c), RebuildAll(items, n, h, refs), RebuildAll(SeenAll(items, n), n, h, mine))
    decreases items, n
  {
    hide Shifted; hide Safe; hide Rebuild; hide Seen;
    if n > 0 {
      BothReadAll(items, n - 1, h, refs, mine, c);
      var seen, last := SeenAll(items, n - 1), items[n - 1];
      RebuildPrefix(seen, [Seen(last)], n - 1, h, mine);
      assert SeenAll(items, n) == seen + [Seen(last)] && (seen + [Seen(last)])[n - 1] == Seen(last);
      var a, b := RebuildAll(items, n - 1, h, refs), RebuildAll(seen, n - 1, h, mine);
      if SafeAll(items, n - 1, c).Some? {
        var (vs, h1, refs1) := a.value;
        BothRead(last, h1, refs1, b.value.2, SafeAll(items, n - 1, c).value);
        LastDecides(items, n, h, refs, mine, c);
      } else if b.Some? {
        OneObjectEachAll(items, n - 1, h, refs);
        OneObjectEachAll(seen, n - 1, h, mine);
        SeenAreAsFull(items, n - 1);
        if Agree(RebuildAll(items, n, h, refs), RebuildAll(SeenAll(items, n), n, h, mine)) {
          EarlierAgree(items, n, h, refs, mine);
        }
      }
    }
  }

  lemma LastDecides(items: seq<Item>, n: nat, h: Graph, refs: seq<Option<Value>>, mine: seq<Option<Value>>, c: Count)
    requires 0 < n <= |items| && RebuildAll(items, n, h, refs).Some? && SafeAll(items, n - 1, c).Some?
    requires RebuildAll(SeenAll(items, n), n - 1, h, mine) == RebuildAll(SeenAll(items, n - 1), n - 1, h, mine)
    requires Agree(RebuildAll(items, n - 1, h, refs), RebuildAll(SeenAll(items, n - 1), n - 1, h, mine))
    requires var (vs, h1, refs1) := RebuildAll(items, n - 1, h, refs).value;
      var mine1 := RebuildAll(SeenAll(items, n - 1), n - 1, h, mine).value.2;
      Verdict(Safe(items[n - 1], SafeAll(items, n - 1, c).value), Rebuild(items[n - 1], h1, refs1),
              Rebuild(Seen(items[n - 1]), h1, mine1))
    ensures Verdict(SafeAll(items, n, c), RebuildAll(items, n, h, refs), RebuildAll(SeenAll(items, n), n, h, mine))
  {
    hide Shifted;
    var (vs, h1, refs1) := RebuildAll(items, n - 1, h, refs).value;
    var mine1 := RebuildAll(SeenAll(items, n - 1), n - 1, h, mine).value.2;
    assert SeenAll(items, n)[n - 1] == Seen(items[n - 1]);
    var x, y := Rebuild(items[n - 1], h1, refs1), Rebuild(Seen(items[n - 1]), h1, mine1);
    if y.Some? && vs + [x.value.0] == vs + [y.value.0] {
      assert x.value.0 == (vs + [x.value.0])[|vs|] == (vs + [y.value.0])[|vs|];
    }
  }

  lemma EarlierAgree(items: seq<Item>, n: nat, h: Graph, refs: seq<Option<Value>>, mine: seq<Option<Value>>)
    requires 0 < n <= |items| && RebuildAll(items, n, h, refs).Some?
    requires RebuildAll(SeenAll(items, n), n - 1, h, mine) == RebuildAll(SeenAll(items, n - 1), n - 1, h, mine)
    requires var b := RebuildAll(SeenAll(items, n - 1), n - 1, h, mine);
      b.Some? && |RebuildAll(items, n - 1, h, refs).value.1| == |b.value.1|
    requires Agree(RebuildAll(items, n, h, refs), RebuildAll(SeenAll(items, n), n, h, mine))
    ensures Agree(RebuildAll(items, n - 1, h, refs), RebuildAll(SeenAll(items, n - 1), n - 1, h, mine))
  {
    var a, b := RebuildAll(items, n - 1, h, refs).value, RebuildAll(SeenAll(items, n - 1), n - 1, h, mine).value;
    var a1, b1 := RebuildAll(items, n, h, refs).value, RebuildAll(SeenAll(items, n), n, h, mine).value;
    assert a.0 == a1.0[..n - 1] == b1.0[..n - 1] == b.0;
    assert a.1 == a1.1[..|a.1|] == b1.1[..|b.1|] == b.1;
  }

  const BUILTIN: int := 0x200_0000

  /** A code object without the flags of built-in code and metadata, and no flag unknown to
      the runtime, with counts that are not negative. */
  predicate PlainCode(h: Header) {
    && h.argcount >= 0 && h.posonlyargcount >= 0 && h.kwonlyargcount >= 0 && h.nlocals >= 0 && h.stacksize >= 0
    && h.flags < 4 * BUILTIN && h.flags / BUILTIN % 4 == 0
  }

  /** An integer whose digits have no more bits than an int32 can count. */
  predicate CountedInt(n: int) {
    FitsLong(n) || RuntimeLong.BITS_PER_DIGIT * |Digits(if n < 0 then -n else n)| <= 0x7FFF_FFFF
  }

  predicate ReadableLeaf(leaf: Leaf) {
    leaf.Int? ==> CountedInt(leaf.n)
  }

  predicate ReadableShape(shape: Shape) {
    !shape.List? && !shape.Dict? && (shape.Code? ==> PlainCode(shape.header))
  }

  /** The runtime's reader aborts on lists, dictionaries, StopIteration and code objects that
      are out of order, and its counter of bits overflows on larger integers. */
  predicate Readable(it: Item) {
    match it
    case Single(single) => !single.StopIteration?
    case Ref(_) => true
    case Atom(_, leaf) => ReadableLeaf(leaf)
    case Node(_, shape, items) => ReadableShape(shape) && forall i :: 0 <= i < |items| ==> Readable(items[i])
  }

  /** What the runtime's reader makes of an item. */
  function RuntimeRead(it: Item): Option<(Value, Graph, seq<Option<Value>>)> {
    if Readable(it) then Rebuild(Seen(it), [], []) else None
  }

  /** On what version 3 wrote, the runtime's reader agrees with a reader that numbers
      every flagged object exactly if it can read all kinds of objects in it, and no
      reference is at or above the number of a flagged empty frozen set. */
  lemma RuntimeAgreesIffSafe(g: Graph, v: Value)
    requires Acyclic(g) && Rank(v) <= |g| && Line(g, v, true, v, []).Some?
    ensures var it := Line(g, v, true, v, []).value.0;
      Agree(Rebuild(it, [], []), RuntimeRead(it)) <==> Readable(it) && Safe(it, Count(0, None)).Some?
  {
    var it := Line(g, v, true, v, []).value.0;
    var order := ReadBack(g, v, v, [], [], [], []);
    BothRead(it, [], [], [], Count(0, None));
  }

  /** `v` reaches only objects that the runtime reads. */
  ghost predicate ReadableGraph(g: Graph, v: Value)
    requires Acyclic(g) && Rank(v) <= |g|
  {
    ReadableValue(v) && forall x :: Visits(g, v, x) >= 1 ==> ReadableObject(g, x)
  }

  predicate ReadableValue(v: Value) {
    v != Shared(StopIteration)
  }

  predicate ReadableObj(o: Obj) {
    match o
    case Plain(leaf) => ReadableLeaf(leaf)
    case Container(shape, children) =>
      ReadableShape(shape) && forall i :: 0 <= i < |children| ==> ReadableValue(children[i])
    case Other => true
  }

  predicate ReadableObject(g: Graph, x: nat) {
    x < |g| ==> ReadableObj(g[x])
  }

  lemma {:induction false} ReadableIsWrittenSo(g: Graph, root: Value, refs: bool, v: Value, table: seq<nat>)
    requires Acyclic(g) && Rank(root) <= |g| && Rank(v) <= |g| && Line(g, root, refs, v, table).Some?
    requires ReadableGraph(g, v)
    ensures Readable(Line(g, root, refs, v, table).value.0)
    decreases Rank(v), 0
  {
    if v.Object? { assert Visits(g, v, v.id) >= 1 && ReadableObject(g, v.id); }
    if v.Object? && !(refs && v.id in table) && g[v.id].Container? {
      var id, children := v.id, g[v.id].children;
      forall x | VisitsAll(g, children, |children|, id, x) >= 1 ensures ReadableObject(g, x) {
        assert Visits(g, v, x) >= 1;
      }
      var table1 := if refs && Visits(g, root, id) > 1 then table + [id] else table;
      ReadableAreWrittenSo(g, root, refs, children, |children|, id, table1);
    }
  }

  lemma {:induction false} ReadableAreWrittenSo(g: Graph, root: Value, refs: bool, vs: seq<Value>, n: nat, bound: nat,
                                                table: seq<nat>)
    requires Acyclic(g) && Rank(root) <= |g| && Under(vs, bound) && bound <= |g| && n <= |vs|
    requires LineAll(g, root, refs, vs, n, bound, table).Some?
    requires forall i :: 0 <= i < |vs| ==> ReadableValue(vs[i])
    requires forall x :: VisitsAll(g, vs, n, bound, x) >= 1 ==> ReadableObject(g, x)
    ensures forall i :: 0 <= i < n ==> Readable(LineAll(g, root, refs, vs, n, bound, table).value.0[i])
    decreases bound, n + 1
  {
    if n > 0 {
      forall x | VisitsAll(g, vs, n - 1, bound, x) >= 1 || Visits(g, vs[n - 1], x) >= 1 ensures ReadableObject(g, x) {
        assert VisitsAll(g, vs, n, bound, x) >= 1;
      }
      ReadableAreWrittenSo(g, root, refs, vs, n - 1, bound, table);
      ReadableIsWrittenSo(g, root, refs, vs[n - 1], LineAll(g, root, refs, vs, n - 1, bound, table).value.1);
    }
  }

  /** All references name objects. */
  predicate NameObjects(refs: seq<Option<Value>>) {
    forall k :: 0 <= k < |refs| && refs[k].Some? ==> refs[k].value.Object?
  }

  /** The objects from `n` on are readable. */
  predicate ReadableFrom(h: Graph, n: nat) {
    forall m :: n <= m < |h| ==> ReadableObj(h[m])
  }

  /** A readable item makes readable objects. */
  lemma {:induction false} MakesReadable(it: Item, h: Graph, refs: seq<Option<Value>>)
    requires Rebuild(it, h, refs).Some? && Readable(it) && NameObjects(refs)
    ensures var (w, h1, refs1) := Rebuild(it, h, refs).value;
      ReadableValue(w) && ReadableFrom(h1, |h|) && NameObjects(refs1)
    decreases it, 0
  {
    if it.Node? { AllMakeReadable(it.items, |it.items|, h, if it.flag then refs + [None] else refs); }
  }

  lemma {:induction false} AllMakeReadable(items: seq<Item>, n: nat, h: Graph, refs: seq<Option<Value>>)
    requires n <= |items| && RebuildAll(items, n, h, refs).Some? && NameObjects(refs)
    requires forall i :: 0 <= i < |items| ==> Readable(items[i])
    ensures var (ws, h1, refs1) := RebuildAll(items, n, h, refs).value;
      ReadableFrom(h1, |h|) && NameObjects(refs1) && forall i :: 0 <= i < |ws| ==> ReadableValue(ws[i])
    decreases items, n
  {
    if n > 0 {
      AllMakeReadable(items, n - 1, h, refs);
      var (ws, h1, refs1) := RebuildAll(items, n - 1, h, refs).value;
      MakesReadable(items[n - 1], h1, refs1);
    }
  }

  /** In version 3 the item is readable exactly if all objects in the graph are. */
  lemma ReadableIffGraph(g: Graph, v: Value)
    requires Acyclic(g) && Rank(v) <= |g| && Line(g, v, true, v, []).Some?
    ensures Readable(Line(g, v, true, v, []).value.0) <==> ReadableGraph(g, v)
  {
    var it := Line(g, v, true, v, []).value.0;
    if ReadableGraph(g, v) { ReadableIsWrittenSo(g, v, true, v, []); }
    if Readable(it) {
      var order := ReadBack(g, v, v, [], [], [], []);
      MakesReadable(it, [], []);
      var (w, h, _) := Rebuild(it, [], []).value;
      forall x | Visits(g, v, x) >= 1 ensures ReadableObject(g, x) {
        CopyReaches(g, order, h, v, w, x);
        var m :| 0 <= m < |order| && order[m] == x;
        CopyIsReadable(order, g, x, h, m);
      }
    }
  }

  lemma CopyIsReadable(order: seq<nat>, g: Graph, x: nat, h: Graph, m: nat)
    requires x < |g| && m < |h| && CopiedObject(order, g[x], h[m]) && ReadableObj(h[m])
    ensures ReadableObject(g, x)
  {
    if g[x].Container? {
      forall i | 0 <= i < |g[x].children| ensures ReadableValue(g[x].children[i]) {
        assert CopyOf(order, g[x].children[i], h[m].children[i]) && ReadableValue(h[m].children[i]);
      }
    }
  }

  /** In version 2 too. */
  lemma {:induction false} TreeIsReadable(g: Graph, v: Value, x: nat)
    requires Acyclic(g) && Rank(v) <= |g| && Tree(g, v).Some? && Readable(Tree(g, v).value)
    ensures ReadableValue(v) && (Visits(g, v, x) >= 1 ==> ReadableObject(g, x))
    decreases Rank(v)
  {
    if v.Object? && g[v.id].Container? {
      var vs := g[v.id].children;
      forall i | 0 <= i < |vs| ensures Tree(g, vs[i]).Some? && Readable(Tree(g, vs[i]).value) {
        TreeOfChild(g, vs, |vs|, v.id, i);
      }
      forall i | 0 <= i < |vs| ensures ReadableValue(vs[i]) {
        TreeIsReadable(g, vs[i], x);
      }
      if Visits(g, v, x) >= 1 && x != v.id {
        var i := SomeChild(g, vs, |vs|, v.id, x);
        TreeIsReadable(g, vs[i], x);
      }
    }
  }

  lemma {:induction false} TreeOfChild(g: Graph, vs: seq<Value>, n: nat, bound: nat, i: nat)
    requires Acyclic(g) && Under(vs, bound) && bound <= |g| && i < n <= |vs| && Trees(g, vs, n, bound).Some?
    ensures Tree(g, vs[i]) == Some(Trees(g, vs, n, bound).value[i])
    decreases n
  {
    if i < n - 1 { TreeOfChild(g, vs, n - 1, bound, i); }
  }

  /** Without flags and references nothing can be lost. */
  lemma {:induction false} UnflaggedIsSafe(it: Item, c: Count)
    requires Unflagged(it)
    ensures Safe(it, c) == Some(c)
    decreases it, 0
  {
    if it.Node? { UnflaggedAreSafe(it.items, |it.items|, c); }
  }

  lemma {:induction false} UnflaggedAreSafe(items: seq<Item>, n: nat, c: Count)
    requires n <= |items| && forall i :: 0 <= i < |items| ==> Unflagged(items[i])
    ensures SafeAll(items, n, c) == Some(c)
    decreases items, n
  {
    if n > 0 {
      UnflaggedAreSafe(items, n - 1, c);
      UnflaggedIsSafe(items[n - 1], c);
    }
  }

  /** No empty frozen set is shared. */
  ghost predicate NoSharedEmptyFrozenSet(g: Graph, root: Value)
    requires Acyclic(g) && Rank(root) <= |g|
  {
    forall x: nat :: Visits(g, root, x) > 1 && x < |g| ==> g[x] != Container(FrozenSet, [])
  }

  lemma {:induction false} SafeWithoutEmpty(g: Graph, root: Value, v: Value, table: seq<nat>, c: Count)
    requires Acyclic(g) && Rank(root) <= |g| && Rank(v) <= |g| && Line(g, root, true, v, table).Some?
    requires NoSharedEmptyFrozenSet(g, root) && c.lost.None?
    ensures var safe := Safe(Line(g, root, true, v, table).value.0, c);
      safe.Some? && safe.value.lost.None?
    decreases Rank(v), 0
  {
    if v.Object? && v.id !in table && g[v.id].Container? {
      var id, children := v.id, g[v.id].children;
      var flag := Visits(g, root, id) > 1;
      var c1 := if flag then c.(started := c.started + 1) else c;
      SafeAllWithoutEmpty(g, root, children, |children|, id, if flag then table + [id] else table, c1);
    }
  }

  lemma {:induction false} SafeAllWithoutEmpty(g: Graph, root: Value, vs: seq<Value>, n: nat, bound: nat,
                                               table: seq<nat>, c: Count)
    requires Acyclic(g) && Rank(root) <= |g| && Under(vs, bound) && bound <= |g| && n <= |vs|
    requires LineAll(g, root, true, vs, n, bound, table).Some?
    requires NoSharedEmptyFrozenSet(g, root) && c.lost.None?
    ensures var safe := SafeAll(LineAll(g, root, true, vs, n, bound, table).value.0, n, c);
      safe.Some? && safe.value.lost.None?
    decreases bound, n + 1
  {
    if n > 0 {
      hide NoSharedEmptyFrozenSet;
      SafeAllWithoutEmpty(g, root, vs, n - 1, bound, table, c);
      var (items, table1) := LineAll(g, root, true, vs, n - 1, bound, table).value;
      var it := Line(g, root, true, vs[n - 1], table1).value.0;
      SafeWithoutEmpty(g, root, vs[n - 1], table1, SafeAll(items, n - 1, c).value);
      SafePrefix(items, [it], n - 1, c);
    }
  }

  lemma {:induction false} SafePrefix(items: seq<Item>, more: seq<Item>, n: nat, c: Count)
    requires n <= |items|
    ensures SafeAll(items + more, n, c) == SafeAll(items, n, c)
    decreases n
  {
    if n > 0 { SafePrefix(items, more, n - 1, c); }
  }

  /** `(e, e)` for one empty frozen set `e`: the reference to it names nothing. */
  lemma SharedEmptyFrozenSetIsLost()
    ensures var e, pair := Object(0), Object(1);
      var g := [Container(FrozenSet, []), Container(Tuple, [e, e])];
      && Acyclic(g)
      && Line(g, pair, true, pair, []) == Some((Node(false, Tuple, [Node(true, FrozenSet, []), Ref(0)]), [0]))
      && RuntimeRead(Node(false, Tuple, [Node(true, FrozenSet, []), Ref(0)])) == None
  {
    hide RuntimeRead; hide Seen;
    var e, pair := Object(0), Object(1);
    var g := [Container(FrozenSet, []), Container(Tuple, [e, e])];
    var both := [e, e];
    assert g[1].children == both;
    assert Visits(g, e, 0) == 1 && Visits(g, e, 1) == 0;
    assert VisitsAll(g, both, 1, 1, 0) == 1 && VisitsAll(g, both, 2, 1, 0) == 2;
    assert Visits(g, pair, 0) == 2 && Visits(g, pair, 1) == 1;
    var first := Node(true, FrozenSet, []);
    var none: seq<nat> := [];
    assert none + [0] == [0] && LineAll(g, pair, true, [], 0, 0, [0]) == Some(([], [0]));
    assert Line(g, pair, true, e, none) == Some((first, [0]));
    assert [] + [first] == [first];
    assert LineAll(g, pair, true, both, 1, 1, []) == Some(([first], [0]));
    assert LineAll(g, pair, true, both, 2, 1, []) == Some(([first] + [Ref(0)], [0]));
    assert [first] + [Ref(0)] == [first, Ref(0)];
    PairIsLost();
  }

  lemma PairIsLost()
    ensures RuntimeRead(Node(false, Tuple, [Node(true, FrozenSet, []), Ref(0)])) == None
  {
    var items := [Node(true, FrozenSet, []), Ref(0)];
    assert SeenAll(items, 1) == [Node(false, FrozenSet, [])];
    assert SeenAll(items, 2) == [Node(false, FrozenSet, []), Ref(0)];
  }
}
