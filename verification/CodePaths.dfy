/** Where a local is surely assigned, read off the instructions on the paths, without the
    facts and the transfer function of the analysis. */
module CodePaths {
  import opened FlowGraph
  import opened DefiniteAssignment

  /** After `code`, which starts with local `i` assigned or not, the local is assigned: it was
      stored and not deleted since, or it was assigned from the start and never deleted. */
  ghost predicate LeftAssigned(code: seq<Instr>, start: bool, i: nat) {
    (exists m :: 0 <= m < |code| && code[m] == StoreFast(i) && KeptFrom(code, m + 1, i))
    || (start && KeptFrom(code, 0, i))
  }

  predicate KeptFrom(code: seq<Instr>, n: nat, i: nat) {
    forall m :: n <= m < |code| ==> code[m] != DeleteFast(i)
  }

  /** The instructions on a path. */
  function PathCode(g: Graph, p: seq<nat>): seq<Instr>
    requires forall k :: 0 <= k < |p| ==> p[k] < |g.insts|
  {
    if p == [] then [] else PathCode(g, p[..|p| - 1]) + g.insts[Last(p)]
  }

  /** The instructions on a path that stops before instruction `k` of its last block. */
  function CodeBefore(g: Graph, p: seq<nat>, k: nat): seq<Instr>
    requires |p| > 0 && (forall j :: 0 <= j < |p| ==> p[j] < |g.insts|) && k <= |g.insts[Last(p)]|
  {
    PathCode(g, p[..|p| - 1]) + g.insts[Last(p)][..k]
  }

  /** A path that begins where no block leads to has the parameters assigned, and a path that
      begins elsewhere counts with every local assigned. */
  ghost predicate StartsAssigned(g: Graph, b: nat, i: nat) {
    i < g.argcount || exists q: nat :: q < |g.children| && b in g.children[q]
  }

  /** Every path to instruction `k` of block `b` leaves local `i` assigned there. */
  ghost predicate SurelyAssigned(g: Graph, b: nat, k: nat, i: nat)
    requires |g.insts| == |g.children| && b < |g.insts| && k <= |g.insts[b]|
  {
    forall p: seq<nat> {:trigger IsPath(g, p)} :: IsPath(g, p) && Last(p) == b ==>
      LeftAssigned(CodeBefore(g, p, k), StartsAssigned(g, p[0], i), i)
  }

  // ----- the transfer function does what it says -----

  lemma OneInstr(x: Instr, rest: seq<Instr>, start: bool, i: nat)
    ensures LeftAssigned([x] + rest, start, i)
       <==> LeftAssigned(rest, x == StoreFast(i) || (start && x != DeleteFast(i)), i)
  {
    var code := [x] + rest;
    forall n: nat ensures KeptFrom(code, n + 1, i) <==> KeptFrom(rest, n, i) { KeptInRest(x, rest, n, i); }
    assert KeptFrom(code, 0, i) <==> x != DeleteFast(i) && KeptFrom(code, 1, i) by { assert code[0] == x; }
    assert KeptFrom(code, 0 + 1, i) <==> KeptFrom(rest, 0, i);
    if m :| 0 <= m < |rest| && rest[m] == StoreFast(i) && KeptFrom(rest, m + 1, i) {
      assert code[m + 1] == StoreFast(i) && KeptFrom(code, m + 1 + 1, i);
    }
    if m :| 0 <= m < |code| && code[m] == StoreFast(i) && KeptFrom(code, m + 1, i) {
      if m > 0 { assert rest[m - 1] == StoreFast(i) && KeptFrom(rest, m - 1 + 1, i); }
    }
    if x == StoreFast(i) && KeptFrom(rest, 0, i) { assert code[0] == x; }
  }

  lemma KeptInRest(x: Instr, rest: seq<Instr>, n: nat, i: nat)
    ensures KeptFrom([x] + rest, n + 1, i) <==> KeptFrom(rest, n, i)
  {
    var code := [x] + rest;
    assert forall m :: 0 <= m < |rest| ==> code[m + 1] == rest[m];
    if KeptFrom(code, n + 1, i) {
      forall m | n <= m < |rest| ensures rest[m] != DeleteFast(i) { assert code[m + 1] == rest[m]; }
    }
  }

  lemma {:induction false} TransferLeavesAssigned(code: seq<Instr>, a: set<nat>, i: nat)
    ensures i in Transfer(code, a) <==> LeftAssigned(code, i in a, i)
    decreases |code|
  {
    if code != [] {
      hide LeftAssigned;
      TransferLeavesAssigned(code[1..], Assign(code[0], a), i);
      OneInstr(code[0], code[1..], i in a, i);
      assert code == [code[0]] + code[1..];
    }
  }

  lemma {:induction false} TransferConcat(x: seq<Instr>, y: seq<Instr>, a: set<nat>)
    ensures Transfer(x + y, a) == Transfer(y, Transfer(x, a))
    decreases |x|
  {
    if x == [] {
      assert x + y == y;
    } else {
      assert (x + y)[1..] == x[1..] + y;
      TransferConcat(x[1..], y, Assign(x[0], a));
    }
  }

  /** The facts a path starts with. */
  function StartFacts(g: Graph, b: nat): set<nat> {
    if Preds(g, b) == {} then ArgsAssigned(g) else Top(g)
  }

  lemma {:induction false} AssignedAfterCode(g: Graph, p: seq<nat>)
    requires |g.insts| == |g.children| && IsPath(g, p)
    ensures AssignedAfter(g, p) == Transfer(PathCode(g, p), StartFacts(g, p[0]))
    decreases |p|
  {
    var q := p[..|p| - 1];
    TransferConcat(PathCode(g, q), g.insts[Last(p)], StartFacts(g, p[0]));
    if |p| > 1 { AssignedAfterCode(g, q); }
  }

  lemma StartFactsAssigned(g: Graph, b: nat, i: nat)
    requires ValidGraph(g) && i < g.numLocals
    ensures i in StartFacts(g, b) <==> StartsAssigned(g, b, i)
  {
    if q: nat :| q < |g.children| && b in g.children[q] { assert q in Preds(g, b); }
    if Preds(g, b) != {} {
      var q :| q in Preds(g, b);
    }
  }

  /** What a path hands to its last block. */
  function FactsBefore(g: Graph, p: seq<nat>): set<nat>
    requires |g.insts| == |g.children| && IsPath(g, p)
  {
    if |p| == 1 then StartFacts(g, p[0]) else AssignedAfter(g, p[..|p| - 1])
  }

  lemma CodeBeforeAssigned(g: Graph, p: seq<nat>, k: nat, i: nat)
    requires ValidGraph(g) && IsPath(g, p) && k <= |g.insts[Last(p)]| && i < g.numLocals
    ensures i in Transfer(g.insts[Last(p)][..k], FactsBefore(g, p))
       <==> LeftAssigned(CodeBefore(g, p, k), StartsAssigned(g, p[0], i), i)
  {
    hide LeftAssigned; hide StartsAssigned; hide Transfer;
    var q, start := p[..|p| - 1], StartFacts(g, p[0]);
    if |p| > 1 {
      AssignedAfterCode(g, q);
    } else {
      assert PathCode(g, q) == [] && Transfer([], start) == start by { NoCode(start); }
    }
    TransferConcat(PathCode(g, q), g.insts[Last(p)][..k], start);
    TransferLeavesAssigned(CodeBefore(g, p, k), start, i);
    StartFactsAssigned(g, p[0], i);
  }

  lemma NoCode(a: set<nat>)
    ensures Transfer([], a) == a
  {
  }

  // ----- the facts of the analysis -----

  /** The analysis has a local assigned at the beginning of a block exactly if every path
      hands it over assigned. */
  lemma FactsAtBlock(g: Graph, out: Facts, b: nat, i: nat)
    requires ValidGraph(g) && IsSolution(g, out) && IsGreatest(g, out) && b < |out| && i < g.numLocals
    ensures i in AssignedIn(g, out, b) <==>
      forall p: seq<nat> {:trigger IsPath(g, p)} :: IsPath(g, p) && Last(p) == b ==> i in FactsBefore(g, p)
  {
    assert IsPath(g, [b]) && Last([b]) == b;
    if i in AssignedIn(g, out, b) {
      forall p: seq<nat> | IsPath(g, p) && Last(p) == b ensures i in FactsBefore(g, p) {
        if |p| > 1 {
          var q := p[..|p| - 1];
          assert Last(q) in Preds(g, b);
          AnalysisIsExact(g, out, Last(q), i);
        }
      }
    } else if Preds(g, b) != {} {
      var c :| c in Preds(g, b) && i !in out[c];
      AnalysisIsExact(g, out, c, i);
      var q: seq<nat> :| IsPath(g, q) && Last(q) == c && i !in AssignedAfter(g, q);
      ExtendPath(g, q, b);
      assert (q + [b])[..|q + [b]| - 1] == q && Last(q + [b]) == b;
    }
  }

  lemma AssignedAnyway(code: seq<Instr>, a: set<nat>, a': set<nat>, i: nat)
    requires i in Transfer(code, a) && (i in a ==> i in a')
    ensures i in Transfer(code, a')
  {
    TransferLeavesAssigned(code, a, i);
    TransferLeavesAssigned(code, a', i);
  }

  /** Within the block too. */
  lemma FactsAreSure(g: Graph, out: Facts, b: nat, k: nat, i: nat)
    requires ValidGraph(g) && IsSolution(g, out) && IsGreatest(g, out)
    requires b < |out| && k <= |g.insts[b]| && i < g.numLocals
    ensures i in Transfer(g.insts[b][..k], AssignedIn(g, out, b)) <==> SurelyAssigned(g, b, k, i)
  {
    hide LeftAssigned; hide StartsAssigned; hide IsGreatest; hide AssignedIn; hide FactsBefore;
    hide Transfer;
    FactsAtBlock(g, out, b, i);
    var code, a := g.insts[b][..k], AssignedIn(g, out, b);
    if i in Transfer(code, a) {
      forall p: seq<nat> {:trigger IsPath(g, p)} | IsPath(g, p) && Last(p) == b
        ensures LeftAssigned(CodeBefore(g, p, k), StartsAssigned(g, p[0], i), i)
      {
        AssignedAnyway(code, a, FactsBefore(g, p), i);
        CodeBeforeAssigned(g, p, k, i);
      }
    } else {
      BlockIsPath(g, b);
      var p := [b];
      if i !in a {
        p :| IsPath(g, p) && Last(p) == b && i !in FactsBefore(g, p);
      }
      TransferBit(code, a, FactsBefore(g, p), i);
      CodeBeforeAssigned(g, p, k, i);
    }
  }

  lemma BlockIsPath(g: Graph, b: nat)
    requires ValidGraph(g) && b < |g.insts|
    ensures IsPath(g, [b]) && Last([b]) == b
  {
  }

  // ----- the code that the passes should leave -----

  /** Some instruction loads or deletes the local. */
  ghost predicate Mentioned(g: Graph, i: nat) {
    exists b, k :: 0 <= b < |g.insts| && 0 <= k < |g.insts[b]|
      && (g.insts[b][k] == LoadFast(i) || g.insts[b][k] == DeleteFast(i))
  }

  /** Exactly the stores to locals that nothing mentions are dropped, and nothing if the code
      mentions `locals`. */
  ghost predicate StoresDropped(g: Graph, h: Graph, callsLocals: bool) {
    && h == g.(insts := h.insts) && |h.insts| == |g.insts|
    && forall b :: 0 <= b < |g.insts| ==>
         && |h.insts[b]| == |g.insts[b]|
         && forall k :: 0 <= k < |g.insts[b]| ==> StoreKeptOrDropped(g, g.insts[b][k], h.insts[b][k], callsLocals)
  }

  ghost predicate StoreKeptOrDropped(g: Graph, x: Instr, y: Instr, callsLocals: bool) {
    y == if !callsLocals && x.StoreFast? && !Mentioned(g, x.i) then PopTop else x
  }

  /** A load that every path reaches with its local assigned is unchecked and counts from the
      far end, and no other load is; stores count from the far end; the rest stays. */
  ghost predicate EmittedInstr(g: Graph, b: nat, k: nat, y: Instr)
    requires |g.insts| == |g.children| && b < |g.insts| && k < |g.insts[b]|
  {
    var x := g.insts[b][k];
    if x.LoadFast? && SurelyAssigned(g, b, k, x.i) then
      y.LoadFastReverseUnchecked? && y.r == g.totalLocals - x.i - 1
    else if x.StoreFast? then y.StoreFastReverse? && y.r == g.totalLocals - x.i - 1
    else y == x
  }

  /** A local, no parameter, that is loaded where some path leaves it unassigned. */
  ghost predicate LoadedUnsure(g: Graph, i: nat)
    requires |g.insts| == |g.children|
  {
    i >= g.argcount && exists b: nat, k: nat :: LoadsUnsure(g, b, k, i)
  }

  ghost predicate LoadsUnsure(g: Graph, b: nat, k: nat, i: nat)
    requires |g.insts| == |g.children|
  {
    b < |g.insts| && k < |g.insts[b]| && g.insts[b][k] == LoadFast(i) && !SurelyAssigned(g, b, k, i)
  }

  /** Instructions that unset `unset`, and then those for the block. */
  ghost predicate EmittedBlock(g: Graph, b: nat, unset: seq<nat>, insts: seq<Instr>)
    requires |g.insts| == |g.children| && b < |g.insts|
  {
    && |insts| == |unset| + |g.insts[b]|
    && (forall k :: 0 <= k < |unset| ==>
          insts[k].DeleteFastReverseUnchecked? && insts[k].r == g.totalLocals - unset[k] - 1)
    && forall k :: 0 <= k < |g.insts[b]| ==> EmittedInstr(g, b, k, insts[|unset|..][k])
  }

  /** What the load pass should leave: the entry begins by unsetting each of the locals that
      are loaded unsure once. */
  ghost predicate Emitted(g: Graph, h: Graph, unset: seq<nat>)
    requires |g.insts| == |g.children|
  {
    && h == g.(insts := h.insts) && |h.insts| == |g.insts|
    && (forall j, k :: 0 <= j < k < |unset| ==> unset[j] != unset[k])
    && (forall i: nat :: i in unset <==> LoadedUnsure(g, i))
    && forall b: nat :: b < |g.insts| ==> EmittedBlock(g, b, if b == g.entry then unset else [], h.insts[b])
  }
}
