/** The definite-assignment analysis of `PyroFlowGraph.optimizeLoadFast`.
    An integer used as a bit vector is the set of its set bits. */
module DefiniteAssignment {
  import opened FlowGraph

  type Facts = seq<set<nat>>  // one set of assigned locals per block id

  /** The bits of 2**n - 1. */
  function Ones(n: nat): (s: set<nat>)
    ensures forall i: nat :: i in s <==> i < n
  {
    if n == 0 then {} else Ones(n - 1) + {n - 1}
  }

  function Top(g: Graph): set<nat> {
    Ones(g.numLocals)
  }

  function ArgsAssigned(g: Graph): set<nat> {
    Ones(g.argcount)
  }

  function Assign(x: Instr, a: set<nat>): set<nat> {
    match x
    case StoreFast(i) => a + {i}
    case DeleteFast(i) => a - {i}
    case _ => a
  }

  function Transfer(insts: seq<Instr>, a: set<nat>): set<nat> {
    if insts == [] then a else Transfer(insts[1..], Assign(insts[0], a))
  }

  function Meet(g: Graph, out: Facts, b: nat): set<nat>
    requires |out| == |g.children|
  {
    set i | i in Top(g) && forall p :: p in Preds(g, b) ==> i in out[p]
  }

  function AssignedIn(g: Graph, out: Facts, b: nat): set<nat>
    requires |out| == |g.children|
  {
    if Preds(g, b) == {} then ArgsAssigned(g) else Meet(g, out, b)
  }

  function Flow(g: Graph, out: Facts, b: nat): set<nat>
    requires |out| == |g.children| == |g.insts| && b < |g.insts|
  {
    Transfer(g.insts[b], AssignedIn(g, out, b))
  }

  ghost predicate IsSolution(g: Graph, out: Facts) {
    && |out| == |g.children| == |g.insts|
    && forall b: nat :: b < |out| ==> out[b] == Flow(g, out, b)
  }

  /** Facts that the block equations can only add to. */
  ghost predicate IsSupported(g: Graph, s: Facts) {
    && |s| == |g.children| == |g.insts|
    && forall b: nat :: b < |s| ==> s[b] <= Flow(g, s, b)
  }

  ghost predicate Below(s: Facts, out: Facts) {
    && |s| == |out|
    && forall b :: 0 <= b < |s| ==> s[b] <= out[b]
  }

  ghost predicate IsGreatest(g: Graph, out: Facts) {
    forall s: Facts :: IsSupported(g, s) ==> Below(s, out)
  }

  // ----- the transfer function works bit by bit -----

  lemma {:induction false} TransferBit(insts: seq<Instr>, a: set<nat>, a': set<nat>, i: nat)
    requires i in a <==> i in a'
    ensures i in Transfer(insts, a) <==> i in Transfer(insts, a')
    decreases |insts|
  {
    if insts != [] {
      TransferBit(insts[1..], Assign(insts[0], a), Assign(insts[0], a'), i);
    }
  }

  lemma {:induction false} TransferMonotone(insts: seq<Instr>, a: set<nat>, a': set<nat>)
    requires a <= a'
    ensures Transfer(insts, a) <= Transfer(insts, a')
    decreases |insts|
  {
    if insts != [] {
      TransferMonotone(insts[1..], Assign(insts[0], a), Assign(insts[0], a'));
    }
  }

  lemma {:induction false} TransferInRange(g: Graph, insts: seq<Instr>, a: set<nat>)
    requires SourceBlock(insts, g.numLocals) && a <= Top(g)
    ensures Transfer(insts, a) <= Top(g)
    decreases |insts|
  {
    if insts != [] {
      TransferInRange(g, insts[1..], Assign(insts[0], a));
    }
  }

  lemma FlowMonotone(g: Graph, s: Facts, s': Facts, b: nat)
    requires |s| == |s'| == |g.children| == |g.insts| && b < |g.insts|
    requires Below(s, s')
    ensures Flow(g, s, b) <= Flow(g, s', b)
  {
    assert forall p :: p in Preds(g, b) ==> s[p] <= s'[p];
    TransferMonotone(g.insts[b], AssignedIn(g, s, b), AssignedIn(g, s', b));
  }

  // ----- the fixpoint loop -----

  function SetBits(out: Facts): nat {
    if out == [] then 0 else |out[0]| + SetBits(out[1..])
  }

  lemma {:induction false} ClearingBitsShrinks(out: Facts, b: nat, a: set<nat>)
    requires b < |out| && a < out[b]
    ensures SetBits(out[b := a]) < SetBits(out)
    decreases |out|
  {
    if b == 0 {
      ProperSubsetIsSmaller(a, out[0]);
      assert out[0 := a][1..] == out[1..];
    } else {
      assert out[b := a][1..] == out[1..][b - 1 := a];
      ClearingBitsShrinks(out[1..], b - 1, a);
    }
  }

  lemma ProperSubsetIsSmaller(a: set<nat>, c: set<nat>)
    requires a < c
    ensures |a| < |c|
  {
    assert |c| == |a| + |c - a| by { assert c == a + (c - a); }
    assert c - a != {};
  }

  /** What every state of the loop satisfies: the facts lie above every
      supported family, and one more evaluation can only clear bits. */
  ghost predicate LoopInvariant(g: Graph, out: Facts) {
    && |out| == |g.children| == |g.insts|
    && IsGreatest(g, out)
    && forall b: nat :: b < |out| ==> Flow(g, out, b) <= out[b] <= Top(g)
  }

  lemma TopIsStart(g: Graph)
    requires ValidGraph(g)
    ensures LoopInvariant(g, seq(|g.insts|, _ => Top(g)))
  {
    var top: Facts := seq(|g.insts|, _ => Top(g));
    forall b: nat | b < |top| ensures Flow(g, top, b) <= Top(g) {
      TransferInRange(g, g.insts[b], AssignedIn(g, top, b));
    }
    forall s: Facts | IsSupported(g, s) ensures Below(s, top) {
      forall b: nat | b < |s| ensures s[b] <= Top(g) {
        TransferInRange(g, g.insts[b], AssignedIn(g, s, b));
      }
    }
  }

  lemma ProcessingKeepsInvariant(g: Graph, out: Facts, b: nat)
    requires LoopInvariant(g, out) && b < |out|
    ensures LoopInvariant(g, out[b := Flow(g, out, b)])
  {
    var out' := out[b := Flow(g, out, b)];
    forall c: nat | c < |out'| ensures Flow(g, out', c) <= out'[c] {
      FlowMonotone(g, out', out, c);
    }
    forall s: Facts | IsSupported(g, s) ensures Below(s, out') {
      assert Below(s, out);
      FlowMonotone(g, s, out, b);
    }
  }

  /** `process_one_block` without `modify`. */
  method ProcessOneBlock(g: Graph, preds: seq<set<nat>>, out: Facts, b: nat)
    returns (out': Facts, changed: bool)
    requires |out| == |g.children| == |g.insts| && b < |out| && Listed(g, preds)
    ensures out' == out[b := Flow(g, out, b)]
    ensures changed <==> Flow(g, out, b) != out[b]
  {
    var bits := if |preds[b]| == 0 then ArgsAssigned(g) else Meet(g, out, b);
    assert bits == AssignedIn(g, out, b);
    var insts := g.insts[b];
    for k := 0 to |insts|
      invariant Transfer(insts[k..], bits) == Flow(g, out, b)
    {
      assert insts[k..][0] == insts[k] && insts[k..][1..] == insts[k + 1..];
      bits := Assign(insts[k], bits);
    }
    if bits == out[b] {
      return out, false;
    }
    return out[b := bits], true;
  }

  method ComputePreds(g: Graph) returns (preds: seq<set<nat>>)
    requires ValidGraph(g)
    ensures Listed(g, preds)
  {
    preds := seq(|g.insts|, _ => {});
    for b := 0 to |g.insts|
      invariant |preds| == |g.insts|
      invariant forall c: nat :: c < |preds| ==>
        preds[c] == set p: nat | p < b && c in g.children[p]
    {
      var rest := g.children[b];
      ghost var before := preds;
      while rest != {}
        invariant rest <= g.children[b]
        invariant |preds| == |g.insts|
        invariant forall c: nat :: c < |preds| ==>
          preds[c] == before[c] + (if c in g.children[b] - rest then {b} else {})
      {
        var child :| child in rest;
        preds := preds[child := preds[child] + {b}];
        rest := rest - {child};
      }
    }
  }

  /** `order` names every one of the `n` blocks. */
  predicate Lists(order: seq<nat>, n: nat) {
    && (forall k :: 0 <= k < |order| ==> order[k] < n)
    && (forall b :: 0 <= b < n ==> b in order)
  }

  ghost predicate Listed(g: Graph, preds: seq<set<nat>>) {
    && |preds| == |g.insts|
    && forall c: nat :: c < |preds| ==> preds[c] == Preds(g, c)
  }

  ghost predicate SolvedAt(g: Graph, out: Facts, order: seq<nat>, k: nat)
    requires |out| == |g.children| == |g.insts| && k <= |order| && Lists(order, |out|)
  {
    forall j :: 0 <= j < k ==> out[order[j]] == Flow(g, out, order[j])
  }

  /** One pass over the blocks: it changes nothing only at a solution, and
      otherwise clears at least one bit. */
  method Round(g: Graph, preds: seq<set<nat>>, order: seq<nat>, start: Facts)
    returns (out: Facts, changed: bool)
    requires Lists(order, |g.insts|) && Listed(g, preds) && LoopInvariant(g, start)
    ensures LoopInvariant(g, out)
    ensures !changed ==> out == start && IsSolution(g, out)
    ensures changed ==> SetBits(out) < SetBits(start)
  {
    changed := false;
    out := start;
    for k := 0 to |order|
      invariant LoopInvariant(g, out)
      invariant !changed ==> out == start && SolvedAt(g, out, order, k)
      invariant changed ==> SetBits(out) < SetBits(start)
    {
      var b := order[k];
      var next, different := ProcessOneBlock(g, preds, out, b);
      ProcessingKeepsInvariant(g, out, b);
      if different {
        assert Flow(g, out, b) < out[b];
        ClearingBitsShrinks(out, b, Flow(g, out, b));
      } else {
        assert next == out;
      }
      out := next;
      changed := changed || different;
    }
    if !changed {
      forall b: nat | b < |out| ensures out[b] == Flow(g, out, b) {
        assert b in order;
      }
    }
  }

  /** The `while changed` loop, over the blocks in any order. It ends, and its
      result is the greatest solution of the block equations. */
  method Analyse(g: Graph, order: seq<nat>) returns (out: Facts)
    requires ValidGraph(g) && Lists(order, |g.insts|)
    ensures IsSolution(g, out) && IsGreatest(g, out)
  {
    var preds := ComputePreds(g);
    out := seq(|g.insts|, _ => Top(g));
    TopIsStart(g);
    var changed := true;
    while changed
      invariant LoopInvariant(g, out)
      invariant !changed ==> IsSolution(g, out)
      decreases SetBits(out), changed
    {
      out, changed := Round(g, preds, order, out);
    }
  }

  /** There is only one greatest solution, so the block order cannot matter. */
  lemma GreatestIsUnique(g: Graph, out: Facts, out': Facts)
    requires IsSolution(g, out) && IsGreatest(g, out)
    requires IsSolution(g, out') && IsGreatest(g, out')
    ensures out == out'
  {
    assert IsSupported(g, out) && IsSupported(g, out');
    forall b | 0 <= b < |out| ensures out[b] == out'[b] {
      assert Below(out, out') && Below(out', out);
    }
  }

  // ----- exactness over paths -----

  /** Locals assigned after running path `p`; a path that starts at a block with
      predecessors starts with everything assigned. */
  function AssignedAfter(g: Graph, p: seq<nat>): set<nat>
    requires |g.insts| == |g.children| && IsPath(g, p)
  {
    var b := Last(p);
    if |p| == 1 then
      Transfer(g.insts[b], if Preds(g, b) == {} then ArgsAssigned(g) else Top(g))
    else
      Transfer(g.insts[b], AssignedAfter(g, p[..|p| - 1]))
  }

  ghost predicate AssignedOnAllPaths(g: Graph, b: nat, i: nat)
    requires |g.insts| == |g.children|
  {
    forall p: seq<nat> :: IsPath(g, p) && Last(p) == b ==> i in AssignedAfter(g, p)
  }

  lemma {:induction false} SolutionIsSafe(g: Graph, out: Facts, p: seq<nat>)
    requires ValidGraph(g) && IsSolution(g, out) && IsPath(g, p)
    ensures out[Last(p)] <= AssignedAfter(g, p)
    decreases |p|
  {
    var b := Last(p);
    if |p| == 1 {
      TransferMonotone(g.insts[b], AssignedIn(g, out, b),
                       if Preds(g, b) == {} then ArgsAssigned(g) else Top(g));
    } else {
      var q := p[..|p| - 1];
      SolutionIsSafe(g, out, q);
      assert Last(q) in Preds(g, b);
      TransferMonotone(g.insts[b], AssignedIn(g, out, b), AssignedAfter(g, q));
    }
  }

  ghost function MeetOverPaths(g: Graph): (s: Facts)
    requires |g.insts| == |g.children|
    ensures |s| == |g.insts|
    ensures forall b: nat, i: nat :: b < |s| ==> (i in s[b] <==> i < g.numLocals && AssignedOnAllPaths(g, b, i))
  {
    seq(|g.insts|, (b: nat) => set i | i in Top(g) && AssignedOnAllPaths(g, b, i))
  }

  lemma ExtendPath(g: Graph, p: seq<nat>, b: nat)
    requires ValidGraph(g) && IsPath(g, p) && Last(p) in Preds(g, b)
    ensures IsPath(g, p + [b])
    ensures AssignedAfter(g, p + [b]) == Transfer(g.insts[b], AssignedAfter(g, p))
  {
    var q := p + [b];
    assert q[..|q| - 1] == p;
  }

  lemma MeetOverPathsIsSupported(g: Graph)
    requires ValidGraph(g)
    ensures IsSupported(g, MeetOverPaths(g))
  {
    var s := MeetOverPaths(g);
    forall b: nat, i: nat | b < |s| && i in s[b] ensures i in Flow(g, s, b) {
      assert IsPath(g, [b]) && Last([b]) == b;
      assert i in AssignedAfter(g, [b]);
      if Preds(g, b) != {} {
        var a := AssignedIn(g, s, b);
        if i in a {
          TransferBit(g.insts[b], Top(g), a, i);
        } else {
          var q :| q in Preds(g, b) && i !in s[q];
          var p :| IsPath(g, p) && Last(p) == q && i !in AssignedAfter(g, p);
          ExtendPath(g, p, b);
          assert Last(p + [b]) == b;
          TransferBit(g.insts[b], AssignedAfter(g, p), a, i);
        }
      }
    }
  }

  /** The analysis is exact: a bit is set exactly when no path ends with the
      local unassigned. */
  lemma AnalysisIsExact(g: Graph, out: Facts, b: nat, i: nat)
    requires ValidGraph(g) && IsSolution(g, out) && IsGreatest(g, out)
    requires b < |out| && i < g.numLocals
    ensures i in out[b] <==> AssignedOnAllPaths(g, b, i)
  {
    if i in out[b] {
      forall p: seq<nat> | IsPath(g, p) && Last(p) == b ensures i in AssignedAfter(g, p) {
        SolutionIsSafe(g, out, p);
      }
    }
    MeetOverPathsIsSupported(g);
    assert Below(MeetOverPaths(g), out);
  }

  // ----- paths from predecessor-less blocks only -----

  ghost predicate IsRooted(g: Graph, p: seq<nat>)
    requires |g.insts| == |g.children|
  {
    IsPath(g, p) && Preds(g, p[0]) == {}
  }

  ghost predicate Reachable(g: Graph, b: nat)
    requires |g.insts| == |g.children|
  {
    exists p: seq<nat> :: IsRooted(g, p) && Last(p) == b
  }

  ghost predicate AssignedOnRootedPaths(g: Graph, b: nat, i: nat)
    requires |g.insts| == |g.children|
  {
    forall p: seq<nat> :: IsRooted(g, p) && Last(p) == b ==> i in AssignedAfter(g, p)
  }

  /** No block that cannot be reached ends with one of its locals deleted. */
  ghost predicate DeadBlocksDeleteNothing(g: Graph)
    requires |g.insts| == |g.children|
  {
    forall b: nat :: b < |g.insts| && !Reachable(g, b) ==> Transfer(g.insts[b], Top(g)) == Top(g)
  }

  lemma ReachableSuccessor(g: Graph, q: nat, b: nat)
    requires ValidGraph(g) && Reachable(g, q) && q in Preds(g, b)
    ensures Reachable(g, b)
  {
    var p :| IsRooted(g, p) && Last(p) == q;
    ExtendPath(g, p, b);
    assert IsRooted(g, p + [b]) && Last(p + [b]) == b;
  }

  lemma PredlessIsReachable(g: Graph, b: nat)
    requires ValidGraph(g) && b < |g.insts| && Preds(g, b) == {}
    ensures Reachable(g, b)
  {
    assert IsRooted(g, [b]) && Last([b]) == b;
  }

  /** Whatever one path leaves unassigned, a rooted path leaves unassigned. */
  lemma {:induction false} RootedWitness(g: Graph, p: seq<nat>, i: nat) returns (r: seq<nat>)
    requires ValidGraph(g) && DeadBlocksDeleteNothing(g)
    requires IsPath(g, p) && i < g.numLocals && i !in AssignedAfter(g, p)
    ensures IsRooted(g, r) && Last(r) == Last(p) && i !in AssignedAfter(g, r)
    decreases |p|
  {
    var b := Last(p);
    if |p| == 1 && Preds(g, b) == {} {
      return p;
    }
    if |p| > 1 && i !in AssignedAfter(g, p[..|p| - 1]) {
      var q := p[..|p| - 1];
      var r0 := RootedWitness(g, q, i);
      assert Last(q) in Preds(g, b);
      ExtendPath(g, r0, b);
      TransferBit(g.insts[b], AssignedAfter(g, q), AssignedAfter(g, r0), i);
      return r0 + [b];
    }
    TransferBit(g.insts[b], Top(g), if |p| == 1 then Top(g) else AssignedAfter(g, p[..|p| - 1]), i);
    r :| IsRooted(g, r) && Last(r) == b;
    if |r| > 1 {
      var a := AssignedAfter(g, r[..|r| - 1]);
      AssignedAfterInRange(g, r[..|r| - 1]);
      TransferMonotone(g.insts[b], a, Top(g));
    } else {
      TransferMonotone(g.insts[b], ArgsAssigned(g), Top(g));
    }
  }

  lemma AssignedAfterInRange(g: Graph, p: seq<nat>)
    requires ValidGraph(g) && IsPath(g, p)
    ensures AssignedAfter(g, p) <= Top(g)
    decreases |p|
  {
    var b := Last(p);
    if |p| == 1 {
      TransferInRange(g, g.insts[b], if Preds(g, b) == {} then ArgsAssigned(g) else Top(g));
    } else {
      AssignedAfterInRange(g, p[..|p| - 1]);
      TransferInRange(g, g.insts[b], AssignedAfter(g, p[..|p| - 1]));
    }
  }

  /** Exactness over the paths that start at predecessor-less blocks holds for
      exactly the graphs whose unreachable blocks delete nothing. */
  lemma RootedExactness(g: Graph, out: Facts)
    requires ValidGraph(g) && IsSolution(g, out) && IsGreatest(g, out)
    ensures (forall b: nat, i: nat :: b < |out| && i < g.numLocals ==>
               (i in out[b] <==> AssignedOnRootedPaths(g, b, i)))
            <==> DeadBlocksDeleteNothing(g)
  {
    if DeadBlocksDeleteNothing(g) {
      forall b: nat, i: nat | b < |out| && i < g.numLocals
        ensures i in out[b] <==> AssignedOnRootedPaths(g, b, i)
      {
        AnalysisIsExact(g, out, b, i);
        if i !in out[b] {
          var p :| IsPath(g, p) && Last(p) == b && i !in AssignedAfter(g, p);
          var r := RootedWitness(g, p, i);
        }
      }
    }
    if forall b: nat, i: nat :: b < |out| && i < g.numLocals ==>
        (i in out[b] <==> AssignedOnRootedPaths(g, b, i)) {
      forall b: nat | b < |g.insts| && !Reachable(g, b)
        ensures Transfer(g.insts[b], Top(g)) == Top(g)
      {
        UnreachableKeepsTop(g, out, b);
      }
    }
  }

  lemma UnreachableKeepsTop(g: Graph, out: Facts, b: nat)
    requires ValidGraph(g) && IsSolution(g, out) && b < |out| && !Reachable(g, b)
    requires forall c: nat, i: nat :: c < |out| && i < g.numLocals ==>
               (i in out[c] <==> AssignedOnRootedPaths(g, c, i))
    ensures Transfer(g.insts[b], Top(g)) == Top(g)
  {
    if Preds(g, b) == {} { PredlessIsReachable(g, b); }
    forall q | q in Preds(g, b) ensures forall i :: i in Top(g) ==> i in out[q] {
      if Reachable(g, q) { ReachableSuccessor(g, q, b); }
      assert forall i: nat :: AssignedOnRootedPaths(g, q, i);
    }
    assert Meet(g, out, b) == Top(g);
    assert out[b] == Transfer(g.insts[b], Top(g));
    TransferInRange(g, g.insts[b], Top(g));
    assert forall i: nat :: AssignedOnRootedPaths(g, b, i);
  }

  lemma FirstEdge(g: Graph, p: seq<nat>)
    requires |g.insts| == |g.children| && IsPath(g, p)
    ensures |p| > 1 ==> g.children[p[0]] != {}
  {
    if |p| > 1 { assert p[1] in g.children[p[0]]; }
  }

  /** Block 1 is its own only predecessor and deletes local 0: no path from a
      predecessor-less block leaves the local unassigned, yet its bit is cleared. */
  lemma DeadLoopIsNotExact() returns (g: Graph, out: Facts)
    ensures ValidGraph(g) && IsSolution(g, out) && IsGreatest(g, out)
    ensures |out| == 2 && 0 !in out[1] && AssignedOnRootedPaths(g, 1, 0)
  {
    g := Graph([[], [DeleteFast(0)]], [{}, {1}], 0, 1, 0, 1);
    out := [{}, {}];
    assert g.children[0] == {} && Preds(g, 0) == {} && Preds(g, 1) == {1};
    forall p: seq<nat> | IsRooted(g, p) ensures p[0] == 0 && |p| == 1 {
      FirstEdge(g, p);
    }
    forall a: set<nat> ensures Transfer([DeleteFast(0)], a) == a - {0} {
      assert [DeleteFast(0)][1..] == [];
    }
    forall s: Facts, b: nat | |s| == 2 && b < 2 && IsSupported(g, s) ensures s[b] <= out[b] {
      assert s[0] <= Flow(g, s, 0) && s[1] <= Flow(g, s, 1);
    }
  }
}
