/** Version 3 of marshal: a reader rebuilds the same objects with the same sharing. */
module MarshalSharing {
  import opened Basics
  import opened MarshalFormat
  import opened MarshalRefs

  /** `w` is the copy of `v`: object `m` of the copy is object `order[m]` of the original. */
  predicate CopyOf(order: seq<nat>, v: Value, w: Value) {
    match v
    case Shared(_) => w == v
    case Object(id) => w.Object? && w.id < |order| && order[w.id] == id
  }

  predicate CopyOfAll(order: seq<nat>, vs: seq<Value>, ws: seq<Value>) {
    |ws| == |vs| && forall i :: 0 <= i < |vs| ==> CopyOf(order, vs[i], ws[i])
  }

  predicate CopiedObject(order: seq<nat>, a: Obj, b: Obj) {
    match a
    case Plain(_) => b == a
    case Container(shape, children) => b.Container? && b.shape == shape && CopyOfAll(order, children, b.children)
    case Other => false
  }

  /** `h` holds one copy of each object in `order`, with the same contents. */
  ghost predicate Copies(g: Graph, order: seq<nat>, h: Graph) {
    && Acyclic(h) && |h| == |order| && Distinct(order)
    && forall m :: 0 <= m < |order| ==> order[m] < |g| && CopiedObject(order, g[order[m]], h[m])
  }

  /** The reader's numbers and the writer's addresses name the same finished objects, and
      finished objects with more than one reference have an address. */
  ghost predicate InStep(g: Graph, root: Value, order: seq<nat>, table: seq<nat>, h: Graph, refs: seq<Option<Value>>)
    requires Acyclic(g) && Rank(root) <= |g|
  {
    && Copies(g, order, h) && Distinct(table) && |refs| == |table|
    && (forall a :: 0 <= a < |table| && table[a] in order ==>
          refs[a].Some? && CopyOf(order, Object(table[a]), refs[a].value))
    && forall x :: x in order && Visits(g, root, x) > 1 ==> x in table
  }

  /** Objects with an address that are not finished lie above `bound`. */
  predicate Unfinished(order: seq<nat>, table: seq<nat>, bound: nat) {
    forall a :: 0 <= a < |table| && table[a] !in order ==> table[a] >= bound
  }

  /** The finished objects and the rest of the walk stay within the counts. */
  ghost predicate Budget(g: Graph, root: Value, order: seq<nat>, v: Value)
    requires Acyclic(g) && Rank(root) <= |g| && Rank(v) <= |g|
  {
    forall x :: Visits(g, v, x) + (if x in order then 1 else 0) <= Visits(g, root, x)
  }

  ghost predicate BudgetAll(g: Graph, root: Value, order: seq<nat>, vs: seq<Value>, n: nat, bound: nat)
    requires Acyclic(g) && Rank(root) <= |g| && Under(vs, bound) && bound <= |g| && n <= |vs|
  {
    forall x :: VisitsAll(g, vs, n, bound, x) + (if x in order then 1 else 0) <= Visits(g, root, x)
  }

  /** What finishing some objects between `order` and `order1` leaves in place. */
  predicate Grown(order: seq<nat>, table: seq<nat>, order1: seq<nat>, table1: seq<nat>) {
    && order <= order1 && table <= table1
    && forall a :: |table| <= a < |table1| ==> table1[a] in order1
  }

  lemma CopyOfGrows(order: seq<nat>, order1: seq<nat>, v: Value, w: Value)
    requires order <= order1 && CopyOf(order, v, w)
    ensures CopyOf(order1, v, w)
  {
  }

  lemma CopiedObjectGrows(order: seq<nat>, order1: seq<nat>, a: Obj, b: Obj)
    requires order <= order1 && CopiedObject(order, a, b)
    ensures CopiedObject(order1, a, b)
  {
    if a.Container? {
      forall i | 0 <= i < |a.children| ensures CopyOf(order1, a.children[i], b.children[i]) {
        CopyOfGrows(order, order1, a.children[i], b.children[i]);
      }
    }
  }

  /** One more finished object. */
  lemma CopiesGrow(g: Graph, order: seq<nat>, h: Graph, id: nat, b: Obj)
    requires Copies(g, order, h) && id !in order && id < |g| && CopiedObject(order, g[id], b)
    requires b.Container? ==> Under(b.children, |h|) && GoodLength(b.shape, |b.children|)
    ensures Copies(g, order + [id], h + [b])
  {
    var order1, h1 := order + [id], h + [b];
    forall m | 0 <= m < |order1| ensures order1[m] < |g| && CopiedObject(order1, g[order1[m]], h1[m]) {
      CopiedObjectGrows(order, order1, g[order1[m]], h1[m]);
    }
  }

  /** An object that is written in full is not finished yet. */
  lemma NotFinished(g: Graph, root: Value, v: Value, order: seq<nat>, table: seq<nat>, h: Graph,
                    refs: seq<Option<Value>>)
    requires Acyclic(g) && Rank(root) <= |g| && Rank(v) <= |g| && v.Object? && v.id !in table
    requires InStep(g, root, order, table, h, refs) && Budget(g, root, order, v)
    ensures v.id !in order
  {
    assert Visits(g, v, v.id) >= 1;
  }

  /** `InStep` when object `id` starts, flagged or not. */
  lemma Start(g: Graph, root: Value, order: seq<nat>, table: seq<nat>, h: Graph, refs: seq<Option<Value>>, id: nat)
    requires Acyclic(g) && Rank(root) <= |g| && InStep(g, root, order, table, h, refs)
    requires id !in table && id !in order
    ensures InStep(g, root, order, table + [id], h, refs + [None])
  {
  }

  /** `InStep` when object `id` is finished, with address `a` if flagged. */
  lemma Finish(g: Graph, root: Value, order: seq<nat>, table: seq<nat>, h: Graph, refs: seq<Option<Value>>,
               id: nat, b: Obj, flag: bool, a: nat)
    requires Acyclic(g) && Rank(root) <= |g| && InStep(g, root, order, table, h, refs)
    requires Copies(g, order + [id], h + [b]) && flag == (Visits(g, root, id) > 1)
    requires if flag then a < |table| && table[a] == id else id !in table
    ensures InStep(g, root, order + [id], table, h + [b], if flag then refs[a := Some(Object(|h|))] else refs)
  {
    var order1, refs1 := order + [id], if flag then refs[a := Some(Object(|h|))] else refs;
    forall c | 0 <= c < |table| && table[c] in order1
      ensures refs1[c].Some? && CopyOf(order1, Object(table[c]), refs1[c].value)
    {
      if table[c] != id {
        assert table[c] in order;
        CopyOfGrows(order, order1, Object(table[c]), refs[c].value);
      }
    }
  }

  /** Reading what the writer wrote for `v` finishes `order1`, and gives a copy of `v`. */
  ghost predicate ReadsBack(g: Graph, root: Value, v: Value, order: seq<nat>, table: seq<nat>,
                            h: Graph, refs: seq<Option<Value>>, order1: seq<nat>)
    requires Acyclic(g) && Rank(root) <= |g| && Rank(v) <= |g| && Line(g, root, true, v, table).Some?
  {
    var (it, table1) := Line(g, root, true, v, table).value;
    && Rebuild(it, h, refs).Some?
    && (var (w, h1, refs1) := Rebuild(it, h, refs).value;
        InStep(g, root, order1, table1, h1, refs1) && CopyOf(order1, v, w))
    && Grown(order, table, order1, table1)
    && forall x :: x in order1 ==> x in order || Visits(g, v, x) >= 1
  }

  ghost predicate ReadsBackAll(g: Graph, root: Value, vs: seq<Value>, n: nat, bound: nat, order: seq<nat>,
                               table: seq<nat>, h: Graph, refs: seq<Option<Value>>, order1: seq<nat>)
    requires Acyclic(g) && Rank(root) <= |g| && Under(vs, bound) && bound <= |g| && n <= |vs|
    requires LineAll(g, root, true, vs, n, bound, table).Some?
  {
    var (items, table1) := LineAll(g, root, true, vs, n, bound, table).value;
    && RebuildAll(items, n, h, refs).Some?
    && (var (ws, h1, refs1) := RebuildAll(items, n, h, refs).value;
        InStep(g, root, order1, table1, h1, refs1) && CopyOfAll(order1, vs[..n], ws))
    && Grown(order, table, order1, table1)
    && forall x :: x in order1 ==> x in order || VisitsAll(g, vs, n, bound, x) >= 1
  }

  lemma {:induction false} ReadBack(g: Graph, root: Value, v: Value, order: seq<nat>, table: seq<nat>,
                                    h: Graph, refs: seq<Option<Value>>)
    returns (order1: seq<nat>)
    requires Acyclic(g) && Rank(root) <= |g| && Rank(v) <= |g| && Line(g, root, true, v, table).Some?
    requires InStep(g, root, order, table, h, refs) && Unfinished(order, table, Rank(v)) && Budget(g, root, order, v)
    ensures ReadsBack(g, root, v, order, table, h, refs, order1)
    decreases Rank(v), 0
  {
    if v.Shared? {
      order1 := order;
    } else if v.id in table {
      order1 := order;
      assert table[IndexOf(table, v.id)] in order;
    } else {
      hide ReadsBack; hide ReadsBackAll; hide InStep; hide Budget; hide BudgetAll; hide Visits; hide VisitsAll;
      var id := v.id;
      NotFinished(g, root, v, order, table, h, refs);
      Start(g, root, order, table, h, refs, id);
      var finished := order;
      if g[id].Container? {
        var flag := Visits(g, root, id) > 1;
        var table1, refs1 := if flag then table + [id] else table, if flag then refs + [None] else refs;
        ChildBudget(g, root, order, v);
        var children := g[id].children;
        finished := ReadBackAll(g, root, children, |children|, id, order, table1, h, refs1);
        FinishContainer(g, root, v, order, table, h, refs, finished);
      } else {
        FinishPlain(g, root, v, order, table, h, refs);
      }
      order1 := finished + [id];
    }
  }

  lemma FinishPlain(g: Graph, root: Value, v: Value, order: seq<nat>, table: seq<nat>, h: Graph,
                    refs: seq<Option<Value>>)
    requires Acyclic(g) && Rank(root) <= |g| && Rank(v) <= |g| && Line(g, root, true, v, table).Some?
    requires v.Object? && v.id !in table && v.id !in order && g[v.id].Plain?
    requires InStep(g, root, order, table, h, refs)
    ensures ReadsBack(g, root, v, order, table, h, refs, order + [v.id])
  {
    var id := v.id;
    var flag := Visits(g, root, id) > 1;
    Start(g, root, order, table, h, refs, id);
    CopiesGrow(g, order, h, id, g[id]);
    Finish(g, root, order, if flag then table + [id] else table, h, if flag then refs + [None] else refs,
           id, g[id], flag, |table|);
    assert (refs + [None])[|table| := Some(Object(|h|))] == refs + [Some(Object(|h|))];
    assert Visits(g, v, id) >= 1;
    hide InStep;
  }

  lemma FinishContainer(g: Graph, root: Value, v: Value, order: seq<nat>, table: seq<nat>,
                        h: Graph, refs: seq<Option<Value>>, order2: seq<nat>)
    requires Acyclic(g) && Rank(root) <= |g| && Rank(v) <= |g| && Line(g, root, true, v, table).Some?
    requires v.Object? && v.id !in table && v.id !in order && g[v.id].Container?
    requires |refs| == |table|
    requires var flag := Visits(g, root, v.id) > 1;
      var table1, refs1 := if flag then table + [v.id] else table, if flag then refs + [None] else refs;
      var children := g[v.id].children;
      && LineAll(g, root, true, children, |children|, v.id, table1).Some?
      && ReadsBackAll(g, root, children, |children|, v.id, order, table1, h, refs1, order2)
    ensures ReadsBack(g, root, v, order, table, h, refs, order2 + [v.id])
  {
    hide InStep; hide Copies; hide CopiedObject; hide VisitsAll;
    var id, children := v.id, g[v.id].children;
    var flag := Visits(g, root, id) > 1;
    var table1, refs1 := if flag then table + [id] else table, if flag then refs + [None] else refs;
    var (items, table2) := LineAll(g, root, true, children, |children|, id, table1).value;
    var (ws, h2, refs2) := RebuildAll(items, |items|, h, refs1).value;
    var b := Container(g[id].shape, ws);
    assert children[..|children|] == children;
    FinishWith(g, root, order2, table2, h2, refs2, id, b, flag, |table|);
    assert CopyOf(order2 + [id], v, Object(|h2|)) by { SameSize(g, root, order2, table2, h2, refs2); }
    assert forall x :: x in order2 ==> x in order || Visits(g, v, x) >= 1;
    assert Visits(g, v, id) >= 1;
  }

  lemma SameSize(g: Graph, root: Value, order: seq<nat>, table: seq<nat>, h: Graph, refs: seq<Option<Value>>)
    requires Acyclic(g) && Rank(root) <= |g| && InStep(g, root, order, table, h, refs)
    ensures |h| == |order| && |refs| == |table|
  {
  }

  /** Finishing a container whose children are copied. */
  lemma FinishWith(g: Graph, root: Value, order: seq<nat>, table: seq<nat>, h: Graph, refs: seq<Option<Value>>,
                   id: nat, b: Obj, flag: bool, a: nat)
    requires Acyclic(g) && Rank(root) <= |g| && InStep(g, root, order, table, h, refs)
    requires id < |g| && g[id].Container? && id !in order && flag == (Visits(g, root, id) > 1)
    requires b.Container? && b.shape == g[id].shape && CopyOfAll(order, g[id].children, b.children)
    requires if flag then a < |table| && table[a] == id else id !in table
    ensures InStep(g, root, order + [id], table, h + [b], if flag then refs[a := Some(Object(|h|))] else refs)
  {
    SameSize(g, root, order, table, h, refs);
    hide Visits;
    forall i | 0 <= i < |b.children| ensures Rank(b.children[i]) <= |h| {
      assert CopyOf(order, g[id].children[i], b.children[i]);
    }
    CopiesGrow(g, order, h, id, b);
    Finish(g, root, order, table, h, refs, id, b, flag, a);
  }

  lemma ChildBudget(g: Graph, root: Value, order: seq<nat>, v: Value)
    requires Acyclic(g) && Rank(root) <= |g| && Rank(v) <= |g| && v.Object? && g[v.id].Container?
    requires Budget(g, root, order, v)
    ensures BudgetAll(g, root, order, g[v.id].children, |g[v.id].children|, v.id)
  {
    var children := g[v.id].children;
    forall x ensures VisitsAll(g, children, |children|, v.id, x) + (if x in order then 1 else 0) <= Visits(g, root, x) {
      assert Visits(g, v, x) >= VisitsAll(g, children, |children|, v.id, x);
    }
  }

  lemma {:induction false} ReadBackAll(g: Graph, root: Value, vs: seq<Value>, n: nat, bound: nat,
                                       order: seq<nat>, table: seq<nat>, h: Graph, refs: seq<Option<Value>>)
    returns (order1: seq<nat>)
    requires Acyclic(g) && Rank(root) <= |g| && Under(vs, bound) && bound <= |g| && n <= |vs|
    requires LineAll(g, root, true, vs, n, bound, table).Some?
    requires InStep(g, root, order, table, h, refs) && Unfinished(order, table, bound)
    requires BudgetAll(g, root, order, vs, n, bound)
    ensures ReadsBackAll(g, root, vs, n, bound, order, table, h, refs, order1)
    decreases bound, n + 1
  {
    if n == 0 {
      order1 := order;
    } else {
      hide InStep; hide Budget; hide BudgetAll; hide Unfinished; hide Visits; hide VisitsAll;
      FirstBudget(g, root, order, vs, n, bound);
      var order0 := ReadBackAll(g, root, vs, n - 1, bound, order, table, h, refs);
      var (items, table0) := LineAll(g, root, true, vs, n - 1, bound, table).value;
      var (ws, h0, refs0) := RebuildAll(items, n - 1, h, refs).value;
      LastBudget(g, root, order, order0, vs, n, bound);
      StillUnfinished(order, table, order0, table0, bound, Rank(vs[n - 1]));
      order1 := ReadBack(g, root, vs[n - 1], order0, table0, h0, refs0);
      AllReadBack(g, root, vs, n, bound, order, table, h, refs, order0, order1);
    }
  }

  lemma AllReadBack(g: Graph, root: Value, vs: seq<Value>, n: nat, bound: nat, order: seq<nat>, table: seq<nat>,
                    h: Graph, refs: seq<Option<Value>>, order0: seq<nat>, order1: seq<nat>)
    requires Acyclic(g) && Rank(root) <= |g| && Under(vs, bound) && bound <= |g| && 0 < n <= |vs|
    requires LineAll(g, root, true, vs, n, bound, table).Some?
    requires ReadsBackAll(g, root, vs, n - 1, bound, order, table, h, refs, order0)
    requires var (items, table0) := LineAll(g, root, true, vs, n - 1, bound, table).value;
      var (ws, h0, refs0) := RebuildAll(items, n - 1, h, refs).value;
      ReadsBack(g, root, vs[n - 1], order0, table0, h0, refs0, order1)
    ensures ReadsBackAll(g, root, vs, n, bound, order, table, h, refs, order1)
  {
    hide InStep; hide Visits;
    var (items, table0) := LineAll(g, root, true, vs, n - 1, bound, table).value;
    var (ws, h0, refs0) := RebuildAll(items, n - 1, h, refs).value;
    var (it, table1) := Line(g, root, true, vs[n - 1], table0).value;
    var (w, h1, refs1) := Rebuild(it, h0, refs0).value;
    RebuildPrefix(items, [it], n - 1, h, refs);
    forall i | 0 <= i < n ensures CopyOf(order1, vs[..n][i], (ws + [w])[i]) {
      if i < n - 1 {
        assert vs[..n - 1][i] == vs[i];
        CopyOfGrows(order0, order1, vs[i], ws[i]);
      }
    }
    GrownTwice(order, table, order0, table0, order1, table1);
    assert (items + [it])[n - 1] == it;
  }

  lemma FirstBudget(g: Graph, root: Value, order: seq<nat>, vs: seq<Value>, n: nat, bound: nat)
    requires Acyclic(g) && Rank(root) <= |g| && Under(vs, bound) && bound <= |g| && 0 < n <= |vs|
    requires BudgetAll(g, root, order, vs, n, bound)
    ensures BudgetAll(g, root, order, vs, n - 1, bound)
  {
    forall x ensures VisitsAll(g, vs, n - 1, bound, x) + (if x in order then 1 else 0) <= Visits(g, root, x) {
      assert VisitsAll(g, vs, n, bound, x) == VisitsAll(g, vs, n - 1, bound, x) + Visits(g, vs[n - 1], x);
    }
  }

  lemma LastBudget(g: Graph, root: Value, order: seq<nat>, order0: seq<nat>, vs: seq<Value>, n: nat, bound: nat)
    requires Acyclic(g) && Rank(root) <= |g| && Under(vs, bound) && bound <= |g| && 0 < n <= |vs|
    requires BudgetAll(g, root, order, vs, n, bound)
    requires forall x :: x in order0 ==> x in order || VisitsAll(g, vs, n - 1, bound, x) >= 1
    ensures Budget(g, root, order0, vs[n - 1])
  {
    forall x ensures Visits(g, vs[n - 1], x) + (if x in order0 then 1 else 0) <= Visits(g, root, x) {
      assert VisitsAll(g, vs, n, bound, x) == VisitsAll(g, vs, n - 1, bound, x) + Visits(g, vs[n - 1], x);
    }
  }

  lemma StillUnfinished(order: seq<nat>, table: seq<nat>, order0: seq<nat>, table0: seq<nat>, bound: nat, rank: nat)
    requires Unfinished(order, table, bound) && Grown(order, table, order0, table0) && rank <= bound
    ensures Unfinished(order0, table0, rank)
  {
    forall a | 0 <= a < |table0| && table0[a] !in order0 ensures table0[a] >= rank {
      assert a < |table| && table0[a] == table[a];
      assert forall m :: 0 <= m < |order| ==> order0[m] == order[m];
    }
  }

  lemma GrownTwice(order: seq<nat>, table: seq<nat>, order0: seq<nat>, table0: seq<nat>, order1: seq<nat>,
                   table1: seq<nat>)
    requires Grown(order, table, order0, table0) && Grown(order0, table0, order1, table1)
    ensures Grown(order, table, order1, table1)
  {
    forall a | |table| <= a < |table1| ensures table1[a] in order1 {
      if a < |table0| {
        var m :| 0 <= m < |order0| && order0[m] == table0[a];
        assert order1[m] == table1[a];
      }
    }
  }

  lemma {:induction false} RebuildPrefix(items: seq<Item>, more: seq<Item>, k: nat, h: Graph, refs: seq<Option<Value>>)
    requires k <= |items|
    ensures RebuildAll(items + more, k, h, refs) == RebuildAll(items, k, h, refs)
    decreases k
  {
    if k > 0 { RebuildPrefix(items, more, k - 1, h, refs); }
  }
}
