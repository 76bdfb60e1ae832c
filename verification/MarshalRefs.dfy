/** Object identity in marshal: the writer's reference table (version 3), and a reader
    that numbers flagged objects in the order in which they start. */
module MarshalRefs {
  import opened Basics
  import opened MarshalFormat

  // ----- object graphs -----

  datatype Value = Shared(single: Singleton) | Object(id: nat)

  /** `Other` is an object that marshal does not support. */
  datatype Obj = Plain(leaf: Leaf) | Container(shape: Shape, children: seq<Value>) | Other

  /** Objects by identity. */
  type Graph = seq<Obj>

  function Rank(v: Value): nat {
    if v.Object? then v.id + 1 else 0
  }

  predicate Under(vs: seq<Value>, bound: nat) {
    forall i :: 0 <= i < |vs| ==> Rank(vs[i]) <= bound
  }

  /** No cycles: objects are numbered so that children come before their container. */
  predicate Acyclic(g: Graph) {
    forall id :: 0 <= id < |g| && g[id].Container? ==>
      Under(g[id].children, id) && GoodLength(g[id].shape, |g[id].children|)
  }

  // ----- counting (`_count_references`) -----

  /** How often a walk from `v` that never prunes comes to object `x`. */
  function Visits(g: Graph, v: Value, x: nat): (n: nat)
    requires Acyclic(g) && Rank(v) <= |g|
    ensures n > 0 ==> x < Rank(v)
    decreases Rank(v), 0
  {
    if v.Shared? then 0
    else
      var below := if g[v.id].Container? then VisitsAll(g, g[v.id].children, |g[v.id].children|, v.id, x) else 0;
      below + if v.id == x then 1 else 0
  }

  /** The same from the first `n` of `vs`. */
  function VisitsAll(g: Graph, vs: seq<Value>, n: nat, bound: nat, x: nat): (c: nat)
    requires Acyclic(g) && Under(vs, bound) && bound <= |g| && n <= |vs|
    ensures c > 0 ==> x < bound
    decreases bound, n + 1
  {
    if n == 0 then 0 else VisitsAll(g, vs, n - 1, bound, x) + Visits(g, vs[n - 1], x)
  }

  // ----- writing (`_dump`) -----

  function IndexOf(table: seq<nat>, id: nat): (a: nat)
    requires id in table
    ensures a < |table| && table[a] == id
    decreases |table|
  {
    if table[0] == id then 0 else 1 + IndexOf(table[1..], id)
  }

  const MAX_ADDRESS: nat := 0x7FFF_FFFF

  /** What the writer puts on the stream for `v`, and its reference table afterwards:
      `table[a]` is the object with address `a`. Only with `refs` (version 3) are there
      flags and references. None if it raises. */
  function Line(g: Graph, root: Value, refs: bool, v: Value, table: seq<nat>): (r: Option<(Item, seq<nat>)>)
    requires Acyclic(g) && Rank(root) <= |g| && Rank(v) <= |g|
    ensures r.Some? ==> table <= r.value.1
    decreases Rank(v), 0
  {
    if v.Shared? then Some((Single(v.single), table))
    else if refs && v.id in table then Some((Ref(IndexOf(table, v.id)), table))
    else
      var flag := refs && Visits(g, root, v.id) > 1;
      if flag && |table| >= MAX_ADDRESS then None
      else
        var table1 := if flag then table + [v.id] else table;
        match g[v.id]
        case Other => None
        case Plain(leaf) => Some((Atom(flag, leaf), table1))
        case Container(shape, children) =>
          match LineAll(g, root, refs, children, |children|, v.id, table1)
          case None => None
          case Some((items, table2)) => Some((Node(flag, shape, items), table2))
  }

  function LineAll(g: Graph, root: Value, refs: bool, vs: seq<Value>, n: nat, bound: nat, table: seq<nat>)
    : (r: Option<(seq<Item>, seq<nat>)>)
    requires Acyclic(g) && Rank(root) <= |g| && Under(vs, bound) && bound <= |g| && n <= |vs|
    ensures r.Some? ==> table <= r.value.1 && |r.value.0| == n
    decreases bound, n + 1
  {
    if n == 0 then Some(([], table))
    else match LineAll(g, root, refs, vs, n - 1, bound, table)
      case None => None
      case Some((items, table1)) =>
        match Line(g, root, refs, vs[n - 1], table1)
        case None => None
        case Some((it, table2)) => Some((items + [it], table2))
  }

  /** An object to be flagged when addresses have run out makes the writer raise. */
  lemma AddressesEnd(g: Graph, root: Value, v: Value, table: seq<nat>)
    requires Acyclic(g) && Rank(root) <= |g| && Rank(v) <= |g| && v.Object? && v.id !in table
    requires Visits(g, root, v.id) > 1
    ensures |table| >= 0x7FFF_FFFF ==> Line(g, root, true, v, table) == None
    ensures |table| < 0x7FFF_FFFF && g[v.id].Plain? ==>
      Line(g, root, true, v, table) == Some((Atom(true, g[v.id].leaf), table + [v.id]))
  {
  }

  // ----- reading -----

  /** The objects an item makes, added to `h`: containers after their children. A
      flagged item takes the next number when it starts. */
  function Rebuild(it: Item, h: Graph, refs: seq<Option<Value>>): (r: Option<(Value, Graph, seq<Option<Value>>)>)
    ensures r.Some? ==> |refs| <= |r.value.2| && h <= r.value.1
    decreases it, 0
  {
    match it
    case Single(s) => Some((Shared(s), h, refs))
    case Ref(a) => if 0 <= a < |refs| && refs[a].Some? then Some((refs[a].value, h, refs)) else None
    case Atom(flag, leaf) =>
      var v := Object(|h|);
      Some((v, h + [Plain(leaf)], if flag then refs + [Some(v)] else refs))
    case Node(flag, shape, items) =>
      match RebuildAll(items, |items|, h, if flag then refs + [None] else refs)
      case None => None
      case Some((vs, h1, refs1)) =>
        var v := Object(|h1|);
        Some((v, h1 + [Container(shape, vs)], if flag then refs1[|refs| := Some(v)] else refs1))
  }

  function RebuildAll(items: seq<Item>, n: nat, h: Graph, refs: seq<Option<Value>>)
    : (r: Option<(seq<Value>, Graph, seq<Option<Value>>)>)
    requires n <= |items|
    ensures r.Some? ==> |refs| <= |r.value.2| && h <= r.value.1 && |r.value.0| == n
    decreases items, n
  {
    if n == 0 then Some(([], h, refs))
    else match RebuildAll(items, n - 1, h, refs)
      case None => None
      case Some((vs, h1, refs1)) =>
        match Rebuild(items[n - 1], h1, refs1)
        case None => None
        case Some((v, h2, refs2)) => Some((vs + [v], h2, refs2))
  }

  // ----- references point backwards -----

  /** How many flagged items have started after `it`, if `n` had before; None if some
      reference is not below the number started at its place. */
  function Started(it: Item, n: nat): Option<nat>
    decreases it, 0
  {
    match it
    case Single(_) => Some(n)
    case Ref(a) => if 0 <= a < n then Some(n) else None
    case Atom(flag, _) => Some(if flag then n + 1 else n)
    case Node(flag, _, items) => StartedAll(items, |items|, if flag then n + 1 else n)
  }

  function StartedAll(items: seq<Item>, k: nat, n: nat): Option<nat>
    requires k <= |items|
    decreases items, k
  {
    if k == 0 then Some(n)
    else match StartedAll(items, k - 1, n)
      case None => None
      case Some(m) => Started(items[k - 1], m)
  }

  lemma {:induction false} RefsNameStarted(g: Graph, root: Value, v: Value, table: seq<nat>)
    requires Acyclic(g) && Rank(root) <= |g| && Rank(v) <= |g| && Line(g, root, true, v, table).Some?
    ensures var (it, table1) := Line(g, root, true, v, table).value;
      Started(it, |table|) == Some(|table1|)
    decreases Rank(v), 0
  {
    if v.Object? && v.id !in table && g[v.id].Container? {
      var children := g[v.id].children;
      var table1 := if Visits(g, root, v.id) > 1 then table + [v.id] else table;
      RefsNameStartedAll(g, root, children, |children|, v.id, table1);
    }
  }

  lemma {:induction false} RefsNameStartedAll(g: Graph, root: Value, vs: seq<Value>, n: nat, bound: nat,
                                              table: seq<nat>)
    requires Acyclic(g) && Rank(root) <= |g| && Under(vs, bound) && bound <= |g| && n <= |vs|
    requires LineAll(g, root, true, vs, n, bound, table).Some?
    ensures var (items, table1) := LineAll(g, root, true, vs, n, bound, table).value;
      StartedAll(items, n, |table|) == Some(|table1|)
    decreases bound, n + 1
  {
    if n > 0 {
      RefsNameStartedAll(g, root, vs, n - 1, bound, table);
      var (items, table1) := LineAll(g, root, true, vs, n - 1, bound, table).value;
      RefsNameStarted(g, root, vs[n - 1], table1);
      var it := Line(g, root, true, vs[n - 1], table1).value.0;
      StartedPrefix(items, [it], n - 1, |table|);
    }
  }

  lemma {:induction false} StartedPrefix(items: seq<Item>, more: seq<Item>, k: nat, n: nat)
    requires k <= |items|
    ensures StartedAll(items + more, k, n) == StartedAll(items, k, n)
    decreases k
  {
    if k > 0 { StartedPrefix(items, more, k - 1, n); }
  }
}
