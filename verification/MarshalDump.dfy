/** `dumps` and a matching reader, in versions 2 and 3. */
module MarshalDump {
  import opened Basics
  import opened MarshalFormat
  import opened MarshalRefs
  import opened MarshalRoundTrip
  import opened MarshalSharing

  /** The bytes of `v`; `refs` in version 3. None if the writer raises. */
  function Dumps(g: Graph, v: Value, refs: bool): Option<seq<byte>>
    requires Acyclic(g) && Rank(v) <= |g|
  {
    match Line(g, v, refs, v, [])
    case None => None
    case Some((it, _)) => Encode(it)
  }

  /** The first value of a stream, in a graph of its own, and the bytes after it. */
  function Loads(s: seq<byte>): Option<(Value, Graph, seq<byte>)> {
    match Decode(s)
    case None => None
    case Some((it, rest)) =>
      match Rebuild(it, [], [])
      case None => None
      case Some((w, h, _)) => Some((w, h, rest))
  }

  // ----- values -----

  /** The nested value that `v` stands for, without regard to identity; None if it
      holds an unsupported object. */
  function Tree(g: Graph, v: Value): Option<Item>
    requires Acyclic(g) && Rank(v) <= |g|
    decreases Rank(v), 0
  {
    if v.Shared? then Some(Single(v.single))
    else match g[v.id]
      case Other => None
      case Plain(leaf) => Some(Atom(false, leaf))
      case Container(shape, children) =>
        match Trees(g, children, |children|, v.id)
        case None => None
        case Some(items) => Some(Node(false, shape, items))
  }

  function Trees(g: Graph, vs: seq<Value>, n: nat, bound: nat): (r: Option<seq<Item>>)
    requires Acyclic(g) && Under(vs, bound) && bound <= |g| && n <= |vs|
    ensures r.Some? ==> |r.value| == n
    decreases bound, n + 1
  {
    if n == 0 then Some([])
    else match Trees(g, vs, n - 1, bound)
      case None => None
      case Some(items) =>
        match Tree(g, vs[n - 1])
        case None => None
        case Some(it) => Some(items + [it])
  }

  /** Without references the writer puts the nested value on the stream. */
  lemma {:induction false} LineIsTree(g: Graph, root: Value, v: Value, table: seq<nat>)
    requires Acyclic(g) && Rank(root) <= |g| && Rank(v) <= |g|
    ensures Line(g, root, false, v, table) == if Tree(g, v).None? then None else Some((Tree(g, v).value, table))
    decreases Rank(v), 0
  {
    if v.Object? && g[v.id].Container? {
      LineAllIsTrees(g, root, g[v.id].children, |g[v.id].children|, v.id, table);
    }
  }

  lemma {:induction false} LineAllIsTrees(g: Graph, root: Value, vs: seq<Value>, n: nat, bound: nat, table: seq<nat>)
    requires Acyclic(g) && Rank(root) <= |g| && Under(vs, bound) && bound <= |g| && n <= |vs|
    ensures var ts := Trees(g, vs, n, bound);
      LineAll(g, root, false, vs, n, bound, table) == if ts.None? then None else Some((ts.value, table))
    decreases bound, n + 1
  {
    if n > 0 {
      LineAllIsTrees(g, root, vs, n - 1, bound, table);
      LineIsTree(g, root, vs[n - 1], table);
    }
  }

  lemma {:induction false} LineIsShaped(g: Graph, root: Value, refs: bool, v: Value, table: seq<nat>)
    requires Acyclic(g) && Rank(root) <= |g| && Rank(v) <= |g| && Line(g, root, refs, v, table).Some?
    ensures Shaped(Line(g, root, refs, v, table).value.0)
    decreases Rank(v), 0
  {
    if v.Object? && g[v.id].Container? && !(refs && v.id in table) {
      var flag := refs && Visits(g, root, v.id) > 1;
      var children, table1 := g[v.id].children, if flag then table + [v.id] else table;
      LineAllIsShaped(g, root, refs, children, |children|, v.id, table1);
    }
  }

  lemma {:induction false} LineAllIsShaped(g: Graph, root: Value, refs: bool, vs: seq<Value>, n: nat, bound: nat,
                                           table: seq<nat>)
    requires Acyclic(g) && Rank(root) <= |g| && Under(vs, bound) && bound <= |g| && n <= |vs|
    requires LineAll(g, root, refs, vs, n, bound, table).Some?
    ensures forall i :: 0 <= i < n ==> Shaped(LineAll(g, root, refs, vs, n, bound, table).value.0[i])
    decreases bound, n + 1
  {
    if n > 0 {
      LineAllIsShaped(g, root, refs, vs, n - 1, bound, table);
      LineIsShaped(g, root, refs, vs[n - 1], LineAll(g, root, refs, vs, n - 1, bound, table).value.1);
    }
  }

  // ----- version 2 -----

  predicate Unflagged(it: Item) {
    match it
    case Single(_) => true
    case Ref(_) => false
    case Atom(flag, _) => !flag
    case Node(flag, _, items) => !flag && forall i :: 0 <= i < |items| ==> Unflagged(items[i])
  }

  lemma {:induction false} TreeIsUnflagged(g: Graph, v: Value)
    requires Acyclic(g) && Rank(v) <= |g| && Tree(g, v).Some?
    ensures Unflagged(Tree(g, v).value)
    decreases Rank(v), 0
  {
    if v.Object? && g[v.id].Container? { TreesAreUnflagged(g, g[v.id].children, |g[v.id].children|, v.id); }
  }

  lemma {:induction false} TreesAreUnflagged(g: Graph, vs: seq<Value>, n: nat, bound: nat)
    requires Acyclic(g) && Under(vs, bound) && bound <= |g| && n <= |vs| && Trees(g, vs, n, bound).Some?
    ensures forall i :: 0 <= i < n ==> Unflagged(Trees(g, vs, n, bound).value[i])
    decreases bound, n + 1
  {
    if n > 0 {
      TreesAreUnflagged(g, vs, n - 1, bound);
      TreeIsUnflagged(g, vs[n - 1]);
    }
  }

  /** The part of a graph that a value reaches decides its tree. */
  lemma {:induction false} TreeInLarger(h: Graph, h1: Graph, w: Value)
    requires Acyclic(h) && Acyclic(h1) && h <= h1 && Rank(w) <= |h|
    ensures Tree(h1, w) == Tree(h, w)
    decreases Rank(w), 0
  {
    if w.Object? && h[w.id].Container? { TreesInLarger(h, h1, h[w.id].children, |h[w.id].children|, w.id); }
  }

  lemma {:induction false} TreesInLarger(h: Graph, h1: Graph, vs: seq<Value>, n: nat, bound: nat)
    requires Acyclic(h) && Acyclic(h1) && h <= h1 && Under(vs, bound) && bound <= |h| && n <= |vs|
    ensures Trees(h1, vs, n, bound) == Trees(h, vs, n, bound)
    decreases bound, n + 1
  {
    if n > 0 {
      TreesInLarger(h, h1, vs, n - 1, bound);
      TreeInLarger(h, h1, vs[n - 1]);
    }
  }

  lemma {:induction false} RebuildsTree(it: Item, h: Graph, refs: seq<Option<Value>>)
    requires Unflagged(it) && Shaped(it) && Acyclic(h)
    ensures Rebuild(it, h, refs).Some?
    ensures var (w, h1, refs1) := Rebuild(it, h, refs).value;
      refs1 == refs && Acyclic(h1) && Rank(w) <= |h1| && Tree(h1, w) == Some(it)
    decreases it, 0
  {
    if it.Node? {
      RebuildsTrees(it.items, |it.items|, h, refs);
      var (vs, h1, _) := RebuildAll(it.items, |it.items|, h, refs).value;
      var h2 := h1 + [Container(it.shape, vs)];
      assert it.items[..|it.items|] == it.items;
      TreesInLarger(h1, h2, vs, |vs|, |h1|);
    }
  }

  lemma {:induction false} RebuildsTrees(items: seq<Item>, n: nat, h: Graph, refs: seq<Option<Value>>)
    requires n <= |items| && Acyclic(h)
    requires forall i :: 0 <= i < |items| ==> Unflagged(items[i]) && Shaped(items[i])
    ensures RebuildAll(items, n, h, refs).Some?
    ensures var (vs, h1, refs1) := RebuildAll(items, n, h, refs).value;
      refs1 == refs && Acyclic(h1) && Under(vs, |h1|) && Trees(h1, vs, n, |h1|) == Some(items[..n])
    decreases items, n
  {
    hide Tree; hide Unflagged; hide Shaped; hide Acyclic;
    if n > 0 {
      RebuildsTrees(items, n - 1, h, refs);
      var (vs, h1, _) := RebuildAll(items, n - 1, h, refs).value;
      RebuildsTree(items[n - 1], h1, refs);
      var (v, h2, _) := Rebuild(items[n - 1], h1, refs).value;
      TreesInLarger(h1, h2, vs, n - 1, |h1|);
      TreesPrefix(h2, vs, vs + [v], n - 1, |h1|, |h2|);
      assert items[..n] == items[..n - 1] + [items[n - 1]];
    }
  }

  lemma {:induction false} TreesPrefix(g: Graph, vs: seq<Value>, ws: seq<Value>, n: nat, bound: nat, bound1: nat)
    requires Acyclic(g) && Under(vs, bound) && Under(ws, bound1) && bound <= bound1 <= |g| && n <= |vs| && vs <= ws
    ensures Trees(g, ws, n, bound1) == Trees(g, vs, n, bound)
    decreases n
  {
    if n > 0 { TreesPrefix(g, vs, ws, n - 1, bound, bound1); }
  }

  /** Version 2: a reader gets back the value that was written, and leaves exactly the
      bytes that follow it. */
  lemma Version2RoundTrip(g: Graph, v: Value, rest: seq<byte>)
    requires Acyclic(g) && Rank(v) <= |g| && Dumps(g, v, false).Some?
    ensures Tree(g, v).Some? && Decode(Dumps(g, v, false).value + rest) == Some((Tree(g, v).value, rest))
    ensures Loads(Dumps(g, v, false).value + rest).Some?
    ensures var (w, h, left) := Loads(Dumps(g, v, false).value + rest).value;
      left == rest && Acyclic(h) && Rank(w) <= |h| && Tree(h, w) == Tree(g, v)
  {
    LineIsTree(g, v, v, []);
    LineIsShaped(g, v, false, v, []);
    TreeIsUnflagged(g, v);
    var it := Tree(g, v).value;
    RoundTrip(it, rest);
    RebuildsTree(it, [], []);
  }

  /** Version 2 writes exactly the values whose objects are supported and whose numbers fit. */
  lemma Version2Writes(g: Graph, v: Value)
    requires Acyclic(g) && Rank(v) <= |g|
    ensures Dumps(g, v, false).Some? <==> Tree(g, v).Some? && Writable(Tree(g, v).value)
  {
    LineIsTree(g, v, v, []);
    if Tree(g, v).Some? {
      LineIsShaped(g, v, false, v, []);
      WritesExactlyTheWritable(Tree(g, v).value);
    }
  }

  // ----- version 3 -----

  /** `h` and `w` are a copy of what `v` reaches in `g`: one object for each, listed by
      `order`, with the same contents and the same sharing. */
  ghost predicate CopyOfGraph(g: Graph, v: Value, order: seq<nat>, h: Graph, w: Value)
    requires Acyclic(g) && Rank(v) <= |g|
  {
    && Copies(g, order, h) && CopyOf(order, v, w)
    && forall x :: x in order <==> Visits(g, v, x) >= 1
  }

  lemma {:induction false} CopyReaches(g: Graph, order: seq<nat>, h: Graph, v: Value, w: Value, x: nat)
    requires Acyclic(g) && Rank(v) <= |g| && Copies(g, order, h) && CopyOf(order, v, w) && Visits(g, v, x) >= 1
    ensures x in order
    decreases Rank(v)
  {
    assert CopiedObject(order, g[v.id], h[w.id]);
    if x != v.id {
      var children := g[v.id].children;
      var i := SomeChild(g, children, |children|, v.id, x);
      CopyReaches(g, order, h, children[i], h[w.id].children[i], x);
    }
  }

  lemma {:induction false} SomeChild(g: Graph, vs: seq<Value>, n: nat, bound: nat, x: nat) returns (i: nat)
    requires Acyclic(g) && Under(vs, bound) && bound <= |g| && n <= |vs| && VisitsAll(g, vs, n, bound, x) >= 1
    ensures i < n && Visits(g, vs[i], x) >= 1
    decreases n
  {
    if Visits(g, vs[n - 1], x) >= 1 {
      i := n - 1;
    } else {
      i := SomeChild(g, vs, n - 1, bound, x);
    }
  }

  lemma {:induction false} CopyHasSameTree(g: Graph, order: seq<nat>, h: Graph, v: Value, w: Value)
    requires Acyclic(g) && Rank(v) <= |g| && Copies(g, order, h) && CopyOf(order, v, w)
    ensures Rank(w) <= |h| && Tree(h, w) == Tree(g, v)
    decreases Rank(w), 0
  {
    if v.Object? {
      assert CopiedObject(order, g[v.id], h[w.id]);
      if g[v.id].Container? {
        var vs, ws := g[v.id].children, h[w.id].children;
        CopiesHaveSameTrees(g, order, h, vs, ws, |vs|, v.id, w.id);
      }
    }
  }

  lemma {:induction false} CopiesHaveSameTrees(g: Graph, order: seq<nat>, h: Graph, vs: seq<Value>, ws: seq<Value>,
                                               n: nat, bound: nat, bound1: nat)
    requires Acyclic(g) && Copies(g, order, h) && CopyOfAll(order, vs, ws) && n <= |vs|
    requires Under(vs, bound) && bound <= |g| && Under(ws, bound1) && bound1 <= |h|
    ensures Trees(h, ws, n, bound1) == Trees(g, vs, n, bound)
    decreases bound1, n + 1
  {
    if n > 0 {
      CopiesHaveSameTrees(g, order, h, vs, ws, n - 1, bound, bound1);
      CopyHasSameTree(g, order, h, vs[n - 1], ws[n - 1]);
    }
  }

  /** How many objects an item holds in full. */
  function FullItems(it: Item): nat
    decreases it, 0
  {
    match it
    case Single(_) => 0
    case Ref(_) => 0
    case Atom(_, _) => 1
    case Node(_, _, items) => 1 + AllFullItems(items, |items|)
  }

  function AllFullItems(items: seq<Item>, n: nat): nat
    requires n <= |items|
    decreases items, n
  {
    if n == 0 then 0 else AllFullItems(items, n - 1) + FullItems(items[n - 1])
  }

  lemma {:induction false} OneObjectEach(it: Item, h: Graph, refs: seq<Option<Value>>)
    requires Rebuild(it, h, refs).Some?
    ensures |Rebuild(it, h, refs).value.1| == |h| + FullItems(it)
    decreases it, 0
  {
    if it.Node? { OneObjectEachAll(it.items, |it.items|, h, if it.flag then refs + [None] else refs); }
  }

  lemma {:induction false} OneObjectEachAll(items: seq<Item>, n: nat, h: Graph, refs: seq<Option<Value>>)
    requires n <= |items| && RebuildAll(items, n, h, refs).Some?
    ensures |RebuildAll(items, n, h, refs).value.1| == |h| + AllFullItems(items, n)
    decreases items, n
  {
    if n > 0 {
      OneObjectEachAll(items, n - 1, h, refs);
      var (_, h1, refs1) := RebuildAll(items, n - 1, h, refs).value;
      OneObjectEach(items[n - 1], h1, refs1);
    }
  }

  /** Version 3: a reader gets back a copy of the graph, object by object and with the
      same sharing, so also the same value, and leaves exactly the bytes that follow. */
  lemma Version3RoundTrip(g: Graph, v: Value, rest: seq<byte>) returns (order: seq<nat>)
    requires Acyclic(g) && Rank(v) <= |g| && Dumps(g, v, true).Some?
    ensures Loads(Dumps(g, v, true).value + rest).Some?
    ensures var (w, h, left) := Loads(Dumps(g, v, true).value + rest).value;
      left == rest && CopyOfGraph(g, v, order, h, w) && Rank(w) <= |h| && Tree(h, w) == Tree(g, v)
  {
    var (it, table) := Line(g, v, true, v, []).value;
    LineIsShaped(g, v, true, v, []);
    RoundTrip(it, rest);
    order := ReadBack(g, v, v, [], [], [], []);
    var (w, h, _) := Rebuild(it, [], []).value;
    forall x | Visits(g, v, x) >= 1 ensures x in order { CopyReaches(g, order, h, v, w, x); }
    CopyHasSameTree(g, order, h, v, w);
  }

  /** Only objects that a walk comes to more than once get an address. */
  lemma {:induction false} OnlySharedFlagged(g: Graph, root: Value, v: Value, table: seq<nat>)
    requires Acyclic(g) && Rank(root) <= |g| && Rank(v) <= |g| && Line(g, root, true, v, table).Some?
    requires forall x :: x in table ==> Visits(g, root, x) >= 2
    ensures forall x :: x in Line(g, root, true, v, table).value.1 ==> Visits(g, root, x) >= 2
    decreases Rank(v), 0
  {
    if v.Object? && v.id !in table && g[v.id].Container? {
      var children := g[v.id].children;
      var table1 := if Visits(g, root, v.id) > 1 then table + [v.id] else table;
      OnlySharedFlaggedAll(g, root, children, |children|, v.id, table1);
    }
  }

  lemma {:induction false} OnlySharedFlaggedAll(g: Graph, root: Value, vs: seq<Value>, n: nat, bound: nat,
                                                table: seq<nat>)
    requires Acyclic(g) && Rank(root) <= |g| && Under(vs, bound) && bound <= |g| && n <= |vs|
    requires LineAll(g, root, true, vs, n, bound, table).Some?
    requires forall x :: x in table ==> Visits(g, root, x) >= 2
    ensures forall x :: x in LineAll(g, root, true, vs, n, bound, table).value.1 ==> Visits(g, root, x) >= 2
    decreases bound, n + 1
  {
    if n > 0 {
      OnlySharedFlaggedAll(g, root, vs, n - 1, bound, table);
      OnlySharedFlagged(g, root, vs[n - 1], LineAll(g, root, true, vs, n - 1, bound, table).value.1);
    }
  }

  /** Version 3 writes each object that `v` reaches in full exactly once, every reference is
      below the number of flagged objects started before it, and flagged are exactly the
      objects that a walk comes to more than once. */
  lemma Version3WritesOnce(g: Graph, v: Value) returns (order: seq<nat>)
    requires Acyclic(g) && Rank(v) <= |g| && Line(g, v, true, v, []).Some?
    ensures var (it, table) := Line(g, v, true, v, []).value;
      && Started(it, 0) == Some(|table|) && FullItems(it) == |order|
      && Distinct(table) && forall x :: x in table <==> Visits(g, v, x) >= 2
    ensures Distinct(order) && forall x :: x in order <==> Visits(g, v, x) >= 1
  {
    var (it, table) := Line(g, v, true, v, []).value;
    RefsNameStarted(g, v, v, []);
    order := ReadBack(g, v, v, [], [], [], []);
    var (w, h, _) := Rebuild(it, [], []).value;
    OneObjectEach(it, [], []);
    forall x | Visits(g, v, x) >= 1 ensures x in order { CopyReaches(g, order, h, v, w, x); }
    OnlySharedFlagged(g, v, v, []);
  }

  // ----- when version 3 raises -----

  predicate Below(s: seq<nat>, n: nat) {
    forall i :: 0 <= i < |s| ==> s[i] < n
  }

  lemma {:induction false} DistinctBelowIsShort(s: seq<nat>, n: nat)
    requires Distinct(s) && Below(s, n)
    ensures |s| <= n
    decreases n
  {
    assert |s| > 0 ==> s[0] < n;
    if n > 0 && |s| > 0 {
      if n - 1 in s {
        var k :| 0 <= k < |s| && s[k] == n - 1;
        DistinctBelowIsShort(s[..k] + s[k + 1..], n - 1);
      } else {
        DistinctBelowIsShort(s, n - 1);
      }
    }
  }

  lemma {:induction false} SupportedIsWritten(g: Graph, root: Value, v: Value, table: seq<nat>)
    requires Acyclic(g) && Rank(root) <= |g| <= MAX_ADDRESS && Rank(v) <= |g| && Tree(g, v).Some?
    requires Distinct(table) && Below(table, |g|)
    ensures Line(g, root, true, v, table).Some?
    ensures var table1 := Line(g, root, true, v, table).value.1;
      Distinct(table1) && Below(table1, |g|)
    decreases Rank(v), 0
  {
    if v.Object? && v.id !in table {
      DistinctBelowIsShort(table + [v.id], |g|);
      if g[v.id].Container? {
        var table1 := if Visits(g, root, v.id) > 1 then table + [v.id] else table;
        SupportedAreWritten(g, root, g[v.id].children, |g[v.id].children|, v.id, table1);
      }
    }
  }

  lemma {:induction false} SupportedAreWritten(g: Graph, root: Value, vs: seq<Value>, n: nat, bound: nat,
                                               table: seq<nat>)
    requires Acyclic(g) && Rank(root) <= |g| <= MAX_ADDRESS && Under(vs, bound) && bound <= |g| && n <= |vs|
    requires Trees(g, vs, n, bound).Some? && Distinct(table) && Below(table, |g|)
    ensures LineAll(g, root, true, vs, n, bound, table).Some?
    ensures var table1 := LineAll(g, root, true, vs, n, bound, table).value.1;
      Distinct(table1) && Below(table1, |g|)
    decreases bound, n + 1
  {
    if n > 0 {
      SupportedAreWritten(g, root, vs, n - 1, bound, table);
      SupportedIsWritten(g, root, vs[n - 1], LineAll(g, root, true, vs, n - 1, bound, table).value.1);
    }
  }

  lemma {:induction false} CopyHasATree(h: Graph, w: Value)
    requires Acyclic(h) && Rank(w) <= |h| && forall m :: 0 <= m < |h| ==> !h[m].Other?
    ensures Tree(h, w).Some?
    decreases Rank(w), 0
  {
    if w.Object? && h[w.id].Container? { CopyHasTrees(h, h[w.id].children, |h[w.id].children|, w.id); }
  }

  lemma {:induction false} CopyHasTrees(h: Graph, vs: seq<Value>, n: nat, bound: nat)
    requires Acyclic(h) && Under(vs, bound) && bound <= |h| && n <= |vs| && forall m :: 0 <= m < |h| ==> !h[m].Other?
    ensures Trees(h, vs, n, bound).Some?
    decreases bound, n + 1
  {
    if n > 0 {
      CopyHasTrees(h, vs, n - 1, bound);
      CopyHasATree(h, vs[n - 1]);
    }
  }

  lemma WrittenHasATree(g: Graph, v: Value)
    requires Acyclic(g) && Rank(v) <= |g| && Line(g, v, true, v, []).Some?
    ensures Tree(g, v).Some?
  {
    var order := ReadBack(g, v, v, [], [], [], []);
    var (w, h, _) := Rebuild(Line(g, v, true, v, []).value.0, [], []).value;
    CopyHasSameTree(g, order, h, v, w);
    forall m | 0 <= m < |h| ensures !h[m].Other? { assert CopiedObject(order, g[order[m]], h[m]); }
    CopyHasATree(h, w);
  }

  /** As long as addresses suffice, version 3 refuses exactly the values that hold an
      unsupported object, as version 2 does. */
  lemma Version3Refuses(g: Graph, v: Value)
    requires Acyclic(g) && Rank(v) <= |g| <= 0x7FFF_FFFF
    ensures Line(g, v, true, v, []).Some? <==> Line(g, v, false, v, []).Some?
    ensures Line(g, v, true, v, []).Some? <==> Tree(g, v).Some?
  {
    LineIsTree(g, v, v, []);
    if Tree(g, v).Some? {
      SupportedIsWritten(g, v, v, []);
    } else if Line(g, v, true, v, []).Some? {
      WrittenHasATree(g, v);
    }
  }
}
