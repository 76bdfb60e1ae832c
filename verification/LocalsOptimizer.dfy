/** The two local-variable passes of `PyroFlowGraph`, and the proof that together
    they preserve the meaning of the code. */
module LocalsOptimizer {
  import opened FlowGraph
  import opened DefiniteAssignment
  import opened CodePaths

  // ----- dead stores -----

  function Uses(x: Instr): set<nat> {
    match x
    case LoadFast(i) => {i}
    case DeleteFast(i) => {i}
    case _ => {}
  }

  function BlockUses(insts: seq<Instr>): set<nat> {
    if insts == [] then {} else Uses(insts[0]) + BlockUses(insts[1..])
  }

  /** The locals that some instruction loads or deletes. */
  function Used(blocks: seq<seq<Instr>>): set<nat> {
    if blocks == [] then {} else BlockUses(blocks[0]) + Used(blocks[1..])
  }

  function DropStore(x: Instr, used: set<nat>): Instr {
    if x.StoreFast? && x.i !in used then PopTop else x
  }

  function DropInBlock(insts: seq<Instr>, used: set<nat>): seq<Instr> {
    if insts == [] then [] else [DropStore(insts[0], used)] + DropInBlock(insts[1..], used)
  }

  function DropDeadStores(g: Graph): Graph {
    g.(insts := seq(|g.insts|, b requires 0 <= b < |g.insts| => DropInBlock(g.insts[b], Used(g.insts))))
  }

  // ----- unchecked loads -----

  function Reverse(i: nat, total: nat): nat
    requires i < total
  {
    total - i - 1
  }

  function RewriteInstr(x: Instr, a: set<nat>, total: nat): Instr
    requires IsSource(x, total)
  {
    match x
    case LoadFast(i) => if i in a then LoadFastReverseUnchecked(Reverse(i, total)) else x
    case StoreFast(i) => StoreFastReverse(Reverse(i, total))
    case _ => x
  }

  function RewriteBlock(insts: seq<Instr>, a: set<nat>, total: nat): seq<Instr>
    requires SourceBlock(insts, total)
  {
    if insts == [] then []
    else [RewriteInstr(insts[0], a, total)] + RewriteBlock(insts[1..], Assign(insts[0], a), total)
  }

  /** Locals, parameters aside, that the block loads where they may be unbound. */
  function ConditionalLoads(insts: seq<Instr>, a: set<nat>, argcount: nat): set<nat> {
    if insts == [] then {}
    else ConditionalLoad(insts[0], a, argcount) + ConditionalLoads(insts[1..], Assign(insts[0], a), argcount)
  }

  function ConditionalLoad(x: Instr, a: set<nat>, argcount: nat): set<nat> {
    if x.LoadFast? && x.i !in a && x.i >= argcount then {x.i} else {}
  }

  ghost function ConditionalAt(g: Graph, out: Facts, b: nat): set<nat>
    requires |out| == |g.children| && b < |g.insts|
  {
    ConditionalLoads(g.insts[b], AssignedIn(g, out, b), g.argcount)
  }

  /** `unset` lists the conditionally assigned locals, in some order. */
  ghost predicate UnsetAtEntry(g: Graph, out: Facts, unset: seq<nat>)
    requires |out| == |g.children| == |g.insts|
  {
    forall i: nat :: i in unset <==> exists b: nat :: b < |out| && i in ConditionalAt(g, out, b)
  }

  function Prelude(unset: seq<nat>, total: nat): seq<Instr>
    requires forall k :: 0 <= k < |unset| ==> unset[k] < total
  {
    seq(|unset|, k requires 0 <= k < |unset| => DeleteFastReverseUnchecked(Reverse(unset[k], total)))
  }

  ghost function OptimisedBlock(g: Graph, out: Facts, b: nat): seq<Instr>
    requires |out| == |g.children| && b < |g.insts| && SourceBlock(g.insts[b], g.totalLocals)
  {
    RewriteBlock(g.insts[b], AssignedIn(g, out, b), g.totalLocals)
  }

  /** The code that `optimizeLoadFast` leaves behind. */
  ghost function Optimised(g: Graph, out: Facts, unset: seq<nat>): Graph
    requires ValidGraph(g) && |out| == |g.children|
    requires forall k :: 0 <= k < |unset| ==> unset[k] < g.totalLocals
  {
    g.(insts := seq(|g.insts|, b requires 0 <= b < |g.insts| =>
      (if b == g.entry then Prelude(unset, g.totalLocals) else []) + OptimisedBlock(g, out, b)))
  }

  lemma {:induction false} ConditionalInRange(insts: seq<Instr>, a: set<nat>, argcount: nat, n: nat)
    requires SourceBlock(insts, n)
    ensures forall i :: i in ConditionalLoads(insts, a, argcount) ==> i < n
    decreases |insts|
  {
    if insts != [] { ConditionalInRange(insts[1..], Assign(insts[0], a), argcount, n); }
  }

  // ----- the rewritten code, instruction by instruction -----

  lemma {:induction false} RewrittenAt(insts: seq<Instr>, a: set<nat>, total: nat, k: nat)
    requires SourceBlock(insts, total) && k < |insts|
    ensures |RewriteBlock(insts, a, total)| == |insts|
    ensures RewriteBlock(insts, a, total)[k] == RewriteInstr(insts[k], Transfer(insts[..k], a), total)
    decreases |insts|
  {
    if k == 0 {
      if |insts| > 1 { RewrittenAt(insts[1..], Assign(insts[0], a), total, 0); }
    } else {
      RewrittenAt(insts[1..], Assign(insts[0], a), total, k - 1);
      assert insts[..k][1..] == insts[1..][..k - 1];
    }
  }

  lemma {:induction false} ConditionalLoadAt(insts: seq<Instr>, a: set<nat>, argcount: nat, k: nat)
    requires k < |insts|
    ensures ConditionalLoad(insts[k], Transfer(insts[..k], a), argcount) <= ConditionalLoads(insts, a, argcount)
    decreases |insts|
  {
    if k > 0 {
      ConditionalLoadAt(insts[1..], Assign(insts[0], a), argcount, k - 1);
      assert insts[..k][1..] == insts[1..][..k - 1];
    }
  }

  lemma {:induction false} SomeConditionalLoad(insts: seq<Instr>, a: set<nat>, argcount: nat, i: nat) returns (k: nat)
    requires i in ConditionalLoads(insts, a, argcount)
    ensures k < |insts| && i in ConditionalLoad(insts[k], Transfer(insts[..k], a), argcount)
    decreases |insts|
  {
    if i in ConditionalLoad(insts[0], a, argcount) {
      k := 0;
    } else {
      k := SomeConditionalLoad(insts[1..], Assign(insts[0], a), argcount, i);
      k := k + 1;
      assert insts[..k][1..] == insts[1..][..k - 1];
    }
  }

  lemma RewrittenIsEmitted(g: Graph, out: Facts, b: nat, k: nat)
    requires ValidGraph(g) && IsSolution(g, out) && IsGreatest(g, out) && b < |g.insts| && k < |g.insts[b]|
    ensures |OptimisedBlock(g, out, b)| == |g.insts[b]| && EmittedInstr(g, b, k, OptimisedBlock(g, out, b)[k])
  {
    hide SurelyAssigned; hide IsGreatest; hide AssignedIn; hide Transfer;
    var x := g.insts[b][k];
    RewrittenAt(g.insts[b], AssignedIn(g, out, b), g.totalLocals, k);
    if x.LoadFast? { FactsAreSure(g, out, b, k, x.i); }
  }

  lemma ConditionalIsUnsure(g: Graph, out: Facts, i: nat)
    requires ValidGraph(g) && IsSolution(g, out) && IsGreatest(g, out)
    ensures (exists b: nat :: b < |out| && i in ConditionalAt(g, out, b)) <==> LoadedUnsure(g, i)
  {
    hide SurelyAssigned; hide IsGreatest; hide AssignedIn; hide Transfer;
    if b: nat :| b < |out| && i in ConditionalAt(g, out, b) {
      var k := SomeConditionalLoad(g.insts[b], AssignedIn(g, out, b), g.argcount, i);
      FactsAreSure(g, out, b, k, i);
      assert LoadsUnsure(g, b, k, i);
    }
    if LoadedUnsure(g, i) {
      var b: nat, k: nat :| LoadsUnsure(g, b, k, i);
      FactsAreSure(g, out, b, k, i);
      ConditionalLoadAt(g.insts[b], AssignedIn(g, out, b), g.argcount, k);
      assert i in ConditionalAt(g, out, b);
    }
  }

  /** The pass leaves the code it should leave. */
  lemma OptimisedIsEmitted(g: Graph, out: Facts, unset: seq<nat>)
    requires ValidGraph(g) && IsSolution(g, out) && IsGreatest(g, out) && UnsetAtEntry(g, out, unset)
    requires forall k :: 0 <= k < |unset| ==> unset[k] < g.totalLocals
    requires forall j, k :: 0 <= j < k < |unset| ==> unset[j] != unset[k]
    ensures Emitted(g, Optimised(g, out, unset), unset)
  {
    hide SurelyAssigned; hide LoadedUnsure; hide ConditionalAt; hide OptimisedBlock; hide EmittedInstr; hide IsGreatest;
    var h := Optimised(g, out, unset);
    forall i: nat ensures i in unset <==> LoadedUnsure(g, i) { ConditionalIsUnsure(g, out, i); }
    forall b: nat | b < |g.insts| ensures EmittedBlock(g, b, if b == g.entry then unset else [], h.insts[b]) {
      var block, n := OptimisedBlock(g, out, b), if b == g.entry then |unset| else 0;
      SameLength(g, out, b);
      assert h.insts[b][n..] == block;
      forall k | 0 <= k < |g.insts[b]| ensures EmittedInstr(g, b, k, h.insts[b][n..][k]) {
        RewrittenIsEmitted(g, out, b, k);
      }
    }
  }

  lemma {:induction false} SameLength(g: Graph, out: Facts, b: nat)
    requires ValidGraph(g) && |out| == |g.children| && b < |g.insts|
    ensures |OptimisedBlock(g, out, b)| == |g.insts[b]|
  {
    if g.insts[b] != [] { RewrittenAt(g.insts[b], AssignedIn(g, out, b), g.totalLocals, 0); }
  }

  lemma {:induction false} DroppedAt(insts: seq<Instr>, used: set<nat>, k: nat)
    requires k < |insts|
    ensures |DropInBlock(insts, used)| == |insts| && DropInBlock(insts, used)[k] == DropStore(insts[k], used)
    decreases |insts|
  {
    if k == 0 {
      if |insts| > 1 { DroppedAt(insts[1..], used, 0); }
    } else {
      DroppedAt(insts[1..], used, k - 1);
    }
  }

  lemma {:induction false} BlockUsesAt(insts: seq<Instr>, i: nat)
    ensures i in BlockUses(insts) <==>
      exists k :: 0 <= k < |insts| && (insts[k] == LoadFast(i) || insts[k] == DeleteFast(i))
    decreases |insts|
  {
    if insts != [] {
      BlockUsesAt(insts[1..], i);
      assert forall k :: 0 <= k < |insts| - 1 ==> insts[1..][k] == insts[k + 1];
      if k :| 0 <= k < |insts| && (insts[k] == LoadFast(i) || insts[k] == DeleteFast(i)) {
        if k > 0 { assert insts[1..][k - 1] == insts[k]; }
      }
    }
  }

  lemma {:induction false} UsedAt(blocks: seq<seq<Instr>>, i: nat)
    ensures i in Used(blocks) <==> exists b :: 0 <= b < |blocks| && i in BlockUses(blocks[b])
    decreases |blocks|
  {
    hide BlockUses;
    if blocks != [] {
      UsedAt(blocks[1..], i);
      assert forall b :: 0 <= b < |blocks| - 1 ==> blocks[1..][b] == blocks[b + 1];
      if b :| 0 <= b < |blocks| && i in BlockUses(blocks[b]) {
        if b > 0 { assert blocks[1..][b - 1] == blocks[b]; }
      }
    }
  }

  lemma UsedIsMentioned(g: Graph, i: nat)
    ensures i in Used(g.insts) <==> Mentioned(g, i)
  {
    hide Used; hide BlockUses;
    UsedAt(g.insts, i);
    forall b | 0 <= b < |g.insts| { BlockUsesAt(g.insts[b], i); }
  }

  lemma DroppingDropsStores(g: Graph)
    ensures StoresDropped(g, DropDeadStores(g), false) && StoresDropped(g, g, true)
  {
    hide Used; hide DropInBlock; hide Mentioned;
    var used, h := Used(g.insts), DropDeadStores(g);
    forall i: nat ensures i in used <==> Mentioned(g, i) { UsedIsMentioned(g, i); }
    forall b | 0 <= b < |g.insts|
      ensures |h.insts[b]| == |g.insts[b]|
      ensures forall k :: 0 <= k < |g.insts[b]| ==> StoreKeptOrDropped(g, g.insts[b][k], h.insts[b][k], false)
    {
      DroppedLength(g.insts[b], used);
      forall k | 0 <= k < |g.insts[b]| ensures StoreKeptOrDropped(g, g.insts[b][k], h.insts[b][k], false) {
        DroppedAt(g.insts[b], used, k);
      }
    }
  }

  lemma DroppedLength(insts: seq<Instr>, used: set<nat>)
    ensures |DropInBlock(insts, used)| == |insts|
  {
    if insts != [] { DroppedAt(insts, used, 0); }
  }

  // ----- the passes themselves -----

  class PyroFlowGraph {
    var graph: Graph
    const order: seq<nat>      // `getBlocksInOrder`
    const callsLocals: bool    // "locals" is among the names the code mentions

    ghost predicate Valid()
      reads this
    {
      && ValidGraph(graph)
      && Lists(order, |graph.insts|)
      && (forall j, k :: 0 <= j < k < |order| ==> order[j] != order[k])
    }

    constructor (graph: Graph, order: seq<nat>, callsLocals: bool)
      requires ValidGraph(graph) && Lists(order, |graph.insts|)
      requires forall j, k :: 0 <= j < k < |order| ==> order[j] != order[k]
      ensures Valid() && this.graph == graph && this.order == order && this.callsLocals == callsLocals
    {
      this.graph, this.order, this.callsLocals := graph, order, callsLocals;
    }

    method OptimizeStoreFast()
      requires Valid()
      modifies this
      ensures Valid()
      ensures graph == if callsLocals then old(graph) else DropDeadStores(old(graph))
      ensures StoresDropped(old(graph), graph, callsLocals)
    {
      DroppingDropsStores(graph);
      if callsLocals {
        return;
      }
      var used := CollectUsed(graph.insts);
      ghost var g := graph;
      for b := 0 to |graph.insts|
        invariant graph == g.(insts := graph.insts) && |graph.insts| == |g.insts|
        invariant forall c :: 0 <= c < b ==> graph.insts[c] == DropInBlock(g.insts[c], used)
        invariant forall c :: b <= c < |g.insts| ==> graph.insts[c] == g.insts[c]
      {
        var insts := DropStores(graph.insts[b], used);
        graph := graph.(insts := graph.insts[b := insts]);
      }
      DroppingKeepsValid(g);
      assert graph.insts == DropDeadStores(g).insts;
    }

    /** `process_one_block` with `modify` over all blocks. */
    method RewriteBlocks(assignedOut: Facts) returns (conditional: set<nat>)
      requires Valid() && IsSolution(graph, assignedOut)
      modifies this
      ensures graph == old(graph).(insts := graph.insts) && |graph.insts| == |old(graph).insts|
      ensures forall b: nat :: b < |graph.insts| ==> graph.insts[b] == OptimisedBlock(old(graph), assignedOut, b)
      ensures forall i: nat :: i in conditional <==>
                exists b: nat :: b < |assignedOut| && i in ConditionalAt(old(graph), assignedOut, b)
      ensures forall i :: i in conditional ==> i < graph.totalLocals
    {
      hide OptimisedBlock; hide ConditionalAt; hide Flow;
      ghost var g, out := graph, assignedOut;
      conditional := {};
      for k := 0 to |order|
        invariant graph == g.(insts := graph.insts) && |graph.insts| == |g.insts|
        invariant forall j :: 0 <= j < k ==> graph.insts[order[j]] == OptimisedBlock(g, out, order[j])
        invariant forall j :: k <= j < |order| ==> graph.insts[order[j]] == g.insts[order[j]]
        invariant forall i: nat :: i in conditional <==>
                    exists j :: 0 <= j < k && i in ConditionalAt(g, out, order[j])
      {
        var b := order[k];
        BlocksLookSame(g, graph, out, b);
        var insts, cond, _ := RewriteOneBlock(graph, assignedOut, b);
        graph := graph.(insts := graph.insts[b := insts]);
        conditional := conditional + cond;
      }
      forall b: nat | b < |g.insts| ensures graph.insts[b] == OptimisedBlock(g, out, b) {
        assert b in order;
      }
      ConditionalCovers(g, out, order, conditional);
    }

    /** Puts the instructions that unset the conditionally assigned locals before the entry. */
    method UnsetAtStart(conditional: set<nat>, ghost g: Graph, ghost out: Facts) returns (ghost unset: seq<nat>)
      requires ValidGraph(g) && |out| == |g.children| && forall i :: i in conditional ==> i < g.totalLocals
      requires graph == g.(insts := graph.insts) && |graph.insts| == |g.insts|
      requires forall b: nat :: b < |graph.insts| ==> graph.insts[b] == OptimisedBlock(g, out, b)
      modifies this
      ensures forall i: nat :: i in unset <==> i in conditional
      ensures forall k :: 0 <= k < |unset| ==> unset[k] < g.totalLocals
      ensures forall j, k :: 0 <= j < k < |unset| ==> unset[j] != unset[k]
      ensures graph == Optimised(g, out, unset)
    {
      hide OptimisedBlock;
      var prelude;
      prelude, unset := MakePrelude(conditional, graph);
      graph := graph.(insts := graph.insts[graph.entry := prelude + graph.insts[graph.entry]]);
      ghost var want := Optimised(g, out, unset);
      forall b | 0 <= b < |g.insts| ensures graph.insts[b] == want.insts[b] {
        assert [] + OptimisedBlock(g, out, b) == OptimisedBlock(g, out, b);
      }
      assert graph.insts == want.insts;
    }

    /** The analysis and the rewriting pass; the ghost results name the facts
        the rewriting used and the order in which the entry unsets locals. */
    method OptimizeLoadFast() returns (ghost out: Facts, ghost unset: seq<nat>)
      requires Valid()
      modifies this
      ensures IsSolution(old(graph), out) && IsGreatest(old(graph), out)
      ensures UnsetAtEntry(old(graph), out, unset)
      ensures forall k :: 0 <= k < |unset| ==> unset[k] < old(graph).totalLocals
      ensures graph == Optimised(old(graph), out, unset)
      ensures Emitted(old(graph), graph, unset)
    {
      hide IsGreatest; hide Optimised; hide OptimisedBlock; hide ConditionalAt; hide Emitted;
      ghost var g := graph;
      var assignedOut := Analyse(graph, order);
      out := assignedOut;
      var conditional := RewriteBlocks(assignedOut);
      unset := UnsetAtStart(conditional, g, out);
      OptimisedIsEmitted(g, out, unset);
    }

    /** The ghost results name the graph between the passes, the facts and the
        order in which the entry unsets locals. */
    method GetCode() returns (ghost between: Graph, ghost out: Facts, ghost unset: seq<nat>)
      requires Valid()
      modifies this
      ensures between == if callsLocals then old(graph) else DropDeadStores(old(graph))
      ensures ValidGraph(between) && IsSolution(between, out) && IsGreatest(between, out)
      ensures UnsetAtEntry(between, out, unset)
      ensures forall k :: 0 <= k < |unset| ==> unset[k] < between.totalLocals
      ensures graph == Optimised(between, out, unset)
      ensures StoresDropped(old(graph), between, callsLocals) && Emitted(between, graph, unset)
    {
      hide Emitted; hide StoresDropped; hide Optimised;
      OptimizeStoreFast();
      between := graph;
      out, unset := OptimizeLoadFast();
    }
  }

  method CollectUsed(blocks: seq<seq<Instr>>) returns (used: set<nat>)
    ensures used == Used(blocks)
  {
    used := {};
    for b := 0 to |blocks|
      invariant used + Used(blocks[b..]) == Used(blocks)
    {
      assert blocks[b..][1..] == blocks[b + 1..];
      var insts := blocks[b];
      ghost var before := used;
      for k := 0 to |insts|
        invariant used + BlockUses(insts[k..]) == before + BlockUses(insts)
      {
        assert insts[k..][1..] == insts[k + 1..];
        used := used + Uses(insts[k]);
      }
    }
  }

  method DropStores(insts: seq<Instr>, used: set<nat>) returns (r: seq<Instr>)
    ensures r == DropInBlock(insts, used)
  {
    r := [];
    for k := 0 to |insts|
      invariant r + DropInBlock(insts[k..], used) == DropInBlock(insts, used)
    {
      assert insts[k..][1..] == insts[k + 1..];
      r := r + [DropStore(insts[k], used)];
    }
  }

  /** `process_one_block` with `modify`: it ends with the facts it found, so it
      leaves `assigned_out` alone. */
  method RewriteOneBlock(g: Graph, out: Facts, b: nat)
    returns (r: seq<Instr>, conditional: set<nat>, changed: bool)
    requires |out| == |g.children| == |g.insts| && b < |out|
    requires SourceBlock(g.insts[b], g.totalLocals) && out[b] == Flow(g, out, b)
    ensures r == OptimisedBlock(g, out, b)
    ensures conditional == ConditionalAt(g, out, b)
    ensures !changed
  {
    var insts, total := g.insts[b], g.totalLocals;
    var bits := AssignedIn(g, out, b);
    r, conditional := [], {};
    for k := 0 to |insts|
      invariant Transfer(insts[k..], bits) == Flow(g, out, b)
      invariant r + RewriteBlock(insts[k..], bits, total) == OptimisedBlock(g, out, b)
      invariant conditional + ConditionalLoads(insts[k..], bits, g.argcount) == ConditionalAt(g, out, b)
    {
      assert insts[k..][1..] == insts[k + 1..];
      r := r + [RewriteInstr(insts[k], bits, total)];
      conditional := conditional + ConditionalLoad(insts[k], bits, g.argcount);
      bits := Assign(insts[k], bits);
    }
    changed := bits != out[b];
  }

  /** What reaches a block does not depend on the instructions of the others. */
  lemma BlocksLookSame(g: Graph, h: Graph, out: Facts, b: nat)
    requires h == g.(insts := h.insts) && |out| == |g.children| == |g.insts| == |h.insts|
    requires b < |g.insts| && g.insts[b] == h.insts[b]
    ensures AssignedIn(g, out, b) == AssignedIn(h, out, b)
    ensures Flow(g, out, b) == Flow(h, out, b)
    ensures ConditionalAt(g, out, b) == ConditionalAt(h, out, b)
    ensures SourceBlock(g.insts[b], g.totalLocals) ==> OptimisedBlock(g, out, b) == OptimisedBlock(h, out, b)
  {
    assert Preds(g, b) == Preds(h, b);
  }

  lemma ConditionalCovers(g: Graph, out: Facts, order: seq<nat>, conditional: set<nat>)
    requires ValidGraph(g) && |out| == |g.children| == |g.insts| && Lists(order, |g.insts|)
    requires forall i: nat :: i in conditional <==>
               exists j :: 0 <= j < |order| && i in ConditionalAt(g, out, order[j])
    ensures forall i: nat :: i in conditional <==> exists b: nat :: b < |out| && i in ConditionalAt(g, out, b)
    ensures forall i :: i in conditional ==> i < g.totalLocals
  {
    forall i | i in conditional ensures i < g.totalLocals {
      var j :| 0 <= j < |order| && i in ConditionalAt(g, out, order[j]);
      ConditionalInRange(g.insts[order[j]], AssignedIn(g, out, order[j]), g.argcount, g.numLocals);
    }
    forall i: nat, b: nat | b < |out| && i in ConditionalAt(g, out, b) ensures i in conditional {
      assert b in order;
    }
  }

  method MakePrelude(conditional: set<nat>, g: Graph) returns (prelude: seq<Instr>, ghost unset: seq<nat>)
    requires forall i :: i in conditional ==> i < g.totalLocals
    ensures forall i: nat :: i in unset <==> i in conditional
    ensures forall k :: 0 <= k < |unset| ==> unset[k] < g.totalLocals
    ensures forall j, k :: 0 <= j < k < |unset| ==> unset[j] != unset[k]
    ensures prelude == Prelude(unset, g.totalLocals)
  {
    prelude, unset := [], [];
    var rest := conditional;
    while rest != {}
      invariant rest <= conditional
      invariant forall i: nat :: i in unset <==> i in conditional - rest
      invariant forall k :: 0 <= k < |unset| ==> unset[k] < g.totalLocals
      invariant forall j, k :: 0 <= j < k < |unset| ==> unset[j] != unset[k]
      invariant prelude == Prelude(unset, g.totalLocals)
    {
      var i :| i in rest;
      assert i !in unset;
      prelude := prelude + [DeleteFastReverseUnchecked(Reverse(i, g.totalLocals))];
      unset := unset + [i];
      rest := rest - {i};
    }
  }

  lemma {:induction false} DropInBlockShape(insts: seq<Instr>, used: set<nat>, n: nat)
    requires SourceBlock(insts, n)
    ensures SourceBlock(DropInBlock(insts, used), n)
    ensures |DropInBlock(insts, used)| == |insts|
    decreases |insts|
  {
    if insts != [] { DropInBlockShape(insts[1..], used, n); }
  }

  lemma DroppingKeepsValid(g: Graph)
    requires ValidGraph(g)
    ensures ValidGraph(DropDeadStores(g))
  {
    forall b | 0 <= b < |g.insts|
      ensures SourceBlock(DropInBlock(g.insts[b], Used(g.insts)), g.numLocals)
    {
      DropInBlockShape(g.insts[b], Used(g.insts), g.numLocals);
    }
  }

  // ----- the two programs simulate each other -----

  /** Every local the block loads where it may be unbound is in `known`. */
  predicate LoadsKnown(insts: seq<Instr>, a: set<nat>, known: set<nat>) {
    insts == [] ||
    (&& (insts[0].LoadFast? && insts[0].i !in a ==> insts[0].i in known)
     && LoadsKnown(insts[1..], Assign(insts[0], a), known))
  }

  /** Slots that an instruction writes. */
  function SlotsWritten(x: Instr, total: nat): set<nat> {
    match x
    case StoreFast(i) => {i}
    case DeleteFast(i) => {i}
    case StoreFastReverse(r) => if r < total then {Reverse(r, total)} else {}
    case DeleteFastReverseUnchecked(r) => if r < total then {Reverse(r, total)} else {}
    case _ => {}
  }

  function WrittenAfter(insts: seq<Instr>, written: set<nat>, total: nat): set<nat> {
    if insts == [] then written
    else WrittenAfter(insts[1..], written + SlotsWritten(insts[0], total), total)
  }

  /** With the locals in `bound` bound, the original code stops at `x`. */
  predicate Stops(x: Instr, bound: set<nat>) {
    (x.LoadFast? || x.DeleteFast?) && x.i !in bound
  }

  predicate Survives(insts: seq<Instr>, bound: set<nat>) {
    insts == [] || (!Stops(insts[0], bound) && Survives(insts[1..], Assign(insts[0], bound)))
  }

  /** Up to where the original code stops, the block deletes only locals whose slot is
      in `written` or was written earlier in the block. */
  predicate Guarded(insts: seq<Instr>, bound: set<nat>, written: set<nat>, total: nat) {
    insts == [] ||
    (&& (insts[0].DeleteFast? ==> insts[0].i in written)
     && (Stops(insts[0], bound)
         || Guarded(insts[1..], Assign(insts[0], bound), written + SlotsWritten(insts[0], total), total)))
  }

  function BoundLocals(f: Frame): (s: set<nat>)
    ensures forall i :: i in s <==> 0 <= i < |f.locals| && f.locals[i].Bound?
  {
    set i: nat | i < |f.locals| && f.locals[i].Bound?
  }

  /** `f` is the frame of the original code and `f'` that of the optimised code at a
      point where the analysis has the locals in `a` assigned and the slots in `written`
      are clean or written: the stacks are equal, and so are the used locals whose slot
      is in `written`, among them all that are bound. */
  ghost predicate Related(used: set<nat>, a: set<nat>, written: set<nat>, f: Frame, f': Frame) {
    && f.stack == f'.stack
    && |f.locals| == |f'.locals|
    && a <= BoundLocals(f) <= written
    && (forall i :: i in used && i in written && i < |f.locals| ==> f.locals[i] == f'.locals[i])
  }

  ghost predicate RelatedNext(used: set<nat>, a: set<nat>, written: set<nat>, n: Next, n': Next) {
    if n.Going? then n'.Going? && Related(used, a, written, n.frame, n'.frame) else n' == n
  }

  /** Both runs finish in related frames, or both stop at the same instruction
      for the same reason. */
  ghost predicate RelatedOutcome(used: set<nat>, a: set<nat>, written: set<nat>, o: Outcome, o': Outcome) {
    if o.Done? then o'.Done? && Related(used, a, written, o.frame, o'.frame) else o' == o
  }

  lemma StepBinds(x: Instr, f: Frame, effects: Effects)
    requires IsSource(x, |f.locals|) && Step(x, f, effects).Going?
    ensures var f1 := Step(x, f, effects).frame;
      |f1.locals| == |f.locals| && BoundLocals(f1) == Assign(x, BoundLocals(f)) && !Stops(x, BoundLocals(f))
  {
    var f1 := Step(x, f, effects).frame;
    assert forall i :: i in BoundLocals(f1) <==> i in Assign(x, BoundLocals(f));
  }

  lemma StepSimulates(x: Instr, y: Instr, used: set<nat>, known: set<nat>, a: set<nat>, written: set<nat>,
                      f: Frame, f': Frame, effects: Effects)
    requires IsSource(x, |f.locals|) && Related(used, a, written, f, f') && Uses(x) <= used
    requires y == x || y == DropStore(x, used)
    requires LoadsKnown([y], a, known) && known <= written
    requires x.DeleteFast? ==> x.i in written
    ensures RelatedNext(used, Assign(y, a), written + SlotsWritten(x, |f.locals|), Step(x, f, effects),
                        Step(RewriteInstr(y, a, |f.locals|), f', effects))
  {
    if Step(x, f, effects).Going? { StepBinds(x, f, effects); }
  }

  lemma {:induction false} BlockSimulates(
    xs: seq<Instr>, ys: seq<Instr>, used: set<nat>, known: set<nat>, a: set<nat>, written: set<nat>,
    f: Frame, f': Frame, effects: Effects, left: nat)
    requires SourceBlock(xs, |f.locals|) && SourceBlock(ys, |f.locals|) && Related(used, a, written, f, f')
    requires BlockUses(xs) <= used && (ys == xs || ys == DropInBlock(xs, used))
    requires LoadsKnown(ys, a, known) && known <= written
    requires Guarded(xs, BoundLocals(f), written, |f.locals|)
    ensures RelatedOutcome(used, Transfer(ys, a), WrittenAfter(xs, written, |f.locals|),
                           RunBlock(xs, f, effects, left),
                           RunBlock(RewriteBlock(ys, a, |f.locals|), f', effects, left))
    ensures RunBlock(xs, f, effects, left).Done? ==>
              BlockBinds(xs, f, RunBlock(xs, f, effects, left).frame)
    decreases |xs|
  {
    RewriteLength(ys, a, |f.locals|);
    if xs != [] {
      var n := |f.locals|;
      DropInBlockShape(xs, used, n);
      var x, y := xs[0], ys[0];
      var z := RewriteInstr(y, a, n);
      RewriteFirst(ys, a, n);
      StepSimulates(x, y, used, known, a, written, f, f', effects);
      match Step(x, f, effects)
      case Going(g) =>
        StepBinds(x, f, effects);
        BlockSimulates(xs[1..], ys[1..], used, known, Assign(y, a), written + SlotsWritten(x, n),
                       g, Step(z, f', effects).frame, effects, left);
      case Failed(_) =>
    }
  }

  /** A block that is run to its end keeps the slots and binds what it assigns. */
  ghost predicate BlockBinds(xs: seq<Instr>, f: Frame, f1: Frame) {
    && |f1.locals| == |f.locals| && Survives(xs, BoundLocals(f))
    && BoundLocals(f1) == Transfer(xs, BoundLocals(f))
  }

  lemma RewriteFirst(insts: seq<Instr>, a: set<nat>, total: nat)
    requires insts != [] && SourceBlock(insts, total)
    ensures var r := RewriteBlock(insts, a, total);
      r != [] && r[0] == RewriteInstr(insts[0], a, total)
      && r[1..] == RewriteBlock(insts[1..], Assign(insts[0], a), total)
  {
  }

  // ----- where a deletion is not guarded -----

  /** Every slot outside `written` holds garbage. */
  predicate Garbage(f: Frame, written: set<nat>) {
    forall i: nat :: i < |f.locals| && i !in written ==> f.locals[i].Bound?
  }

  /** Effects that leave the stack as it is. */
  function Quiet(): Effects {
    (op: nat, stack: seq<Value>) => Pushed(stack)
  }

  /** With enough on the stack, an instruction that does not stop goes on. */
  lemma QuietStep(x: Instr, f: Frame)
    requires IsSource(x, |f.locals|) && !Stops(x, BoundLocals(f)) && |f.stack| > 0
    ensures Step(x, f, Quiet()).Going? && |Step(x, f, Quiet()).frame.stack| >= |f.stack| - 1
  {
  }

  /** The original code stops for an unbound local, and the other one does not stop there. */
  predicate Diverge(o: Outcome, o': Outcome, left: nat) {
    && o.Stopped? && o.blocksLeft == left && o.why == UnboundLocal
    && (o'.Stopped? ==> o'.blocksLeft < left || (o'.blocksLeft == left && o'.instrsLeft < o.instrsLeft))
  }

  lemma {:induction false} InstrsLeft(insts: seq<Instr>, f: Frame, effects: Effects, left: nat)
    ensures var o := RunBlock(insts, f, effects, left);
      o.Stopped? ==> o.blocksLeft == left && o.instrsLeft <= |insts|
    decreases |insts|
  {
    if insts != [] && Step(insts[0], f, effects).Going? {
      InstrsLeft(insts[1..], Step(insts[0], f, effects).frame, effects, left);
    }
  }

  lemma StepKeepsGarbage(x: Instr, y: Instr, used: set<nat>, a: set<nat>, written: set<nat>, f': Frame)
    requires IsSource(x, |f'.locals|) && (y == x || y == DropStore(x, used)) && Garbage(f', written)
    requires Step(RewriteInstr(y, a, |f'.locals|), f', Quiet()).Going?
    ensures Garbage(Step(RewriteInstr(y, a, |f'.locals|), f', Quiet()).frame,
                    written + SlotsWritten(x, |f'.locals|))
  {
  }

  lemma {:induction false} BlockDiverges(
    xs: seq<Instr>, ys: seq<Instr>, used: set<nat>, known: set<nat>, a: set<nat>, written: set<nat>,
    f: Frame, f': Frame, left: nat)
    requires SourceBlock(xs, |f.locals|) && SourceBlock(ys, |f.locals|) && Related(used, a, written, f, f')
    requires BlockUses(xs) <= used && (ys == xs || ys == DropInBlock(xs, used))
    requires LoadsKnown(ys, a, known) && known <= written && Garbage(f', written) && |f.stack| >= |xs|
    requires !Guarded(xs, BoundLocals(f), written, |f.locals|)
    ensures Diverge(RunBlock(xs, f, Quiet(), left), RunBlock(RewriteBlock(ys, a, |f.locals|), f', Quiet(), left), left)
    decreases |xs|
  {
    var n := |f.locals|;
    RewriteLength(ys, a, n);
    DropInBlockShape(xs, used, n);
    var x, y := xs[0], ys[0];
    var z := RewriteInstr(y, a, n);
    RewriteFirst(ys, a, n);
    if x.DeleteFast? && x.i !in written {
      InstrsLeft(RewriteBlock(ys, a, n)[1..], Step(z, f', Quiet()).frame, Quiet(), left);
    } else {
      StepSimulates(x, y, used, known, a, written, f, f', Quiet());
      QuietStep(x, f);
      StepBinds(x, f, Quiet());
      StepKeepsGarbage(x, y, used, a, written, f');
      BlockDiverges(xs[1..], ys[1..], used, known, Assign(y, a), written + SlotsWritten(x, n),
                    Step(x, f, Quiet()).frame, Step(z, f', Quiet()).frame, left);
    }
  }

  /** A guarded block without a stop runs to its end and leaves garbage garbage. */
  lemma {:induction false} BlockFinishes(
    xs: seq<Instr>, ys: seq<Instr>, used: set<nat>, known: set<nat>, a: set<nat>, written: set<nat>,
    f: Frame, f': Frame, left: nat)
    requires SourceBlock(xs, |f.locals|) && SourceBlock(ys, |f.locals|) && Related(used, a, written, f, f')
    requires BlockUses(xs) <= used && (ys == xs || ys == DropInBlock(xs, used))
    requires LoadsKnown(ys, a, known) && known <= written && Garbage(f', written) && |f.stack| >= |xs|
    requires Guarded(xs, BoundLocals(f), written, |f.locals|) && Survives(xs, BoundLocals(f))
    ensures var o, o' := RunBlock(xs, f, Quiet(), left), RunBlock(RewriteBlock(ys, a, |f.locals|), f', Quiet(), left);
      && o.Done? && o'.Done? && |o.frame.stack| >= |f.stack| - |xs|
      && Garbage(o'.frame, WrittenAfter(xs, written, |f.locals|))
    decreases |xs|
  {
    var n := |f.locals|;
    RewriteLength(ys, a, n);
    if xs != [] {
      DropInBlockShape(xs, used, n);
      var x, y := xs[0], ys[0];
      var z := RewriteInstr(y, a, n);
      RewriteFirst(ys, a, n);
      StepSimulates(x, y, used, known, a, written, f, f', Quiet());
      QuietStep(x, f);
      StepBinds(x, f, Quiet());
      StepKeepsGarbage(x, y, used, a, written, f');
      BlockFinishes(xs[1..], ys[1..], used, known, Assign(y, a), written + SlotsWritten(x, n),
                    Step(x, f, Quiet()).frame, Step(z, f', Quiet()).frame, left);
    }
  }

  lemma {:induction false} RewriteLength(insts: seq<Instr>, a: set<nat>, total: nat)
    requires SourceBlock(insts, total)
    ensures |RewriteBlock(insts, a, total)| == |insts|
    decreases |insts|
  {
    if insts != [] { RewriteLength(insts[1..], Assign(insts[0], a), total); }
  }
}
