/** The two local-variable passes preserve the meaning of every path. */
module LocalsMeaning {
  import opened FlowGraph
  import opened DefiniteAssignment
  import opened LocalsOptimizer

  /** What `optimizeStoreFast` can leave: the graph itself when the code mentions
      "locals", and the graph without its dead stores otherwise. */
  ghost predicate AfterStorePass(g: Graph, g1: Graph) {
    g1 == g || g1 == DropDeadStores(g)
  }

  /** `g1` and `h` are `g` after the first and after both passes. */
  ghost predicate Compiled(g: Graph, g1: Graph, out: Facts, unset: seq<nat>, h: Graph) {
    && ValidGraph(g) && ValidGraph(g1) && AfterStorePass(g, g1)
    && Preds(g, g.entry) == {}
    && IsSolution(g1, out)
    && UnsetAtEntry(g1, out, unset)
    && (forall k :: 0 <= k < |unset| ==> unset[k] < g1.totalLocals)
    && h == Optimised(g1, out, unset)
  }

  ghost predicate PathFromEntry(g: Graph, p: seq<nat>)
    requires |g.insts| == |g.children|
  {
    IsPath(g, p) && p[0] == g.entry
  }

  /** Locals whose slot holds no garbage from the entry on: parameters, the ones
      the entry unsets, and those whose slot was clean when the call began. */
  ghost function Known(g: Graph, unset: seq<nat>, clean: set<nat>): (s: set<nat>)
    ensures forall i: nat :: i in s <==> i < g.argcount || i in unset || i in clean
  {
    ArgsAssigned(g) + (set i | i in unset) + clean
  }

  /** `f` is a new frame; `f'` agrees with it on the parameters and on the slots
      in `clean`, and its other slots hold anything. */
  ghost predicate CallBegins(g: Graph, clean: set<nat>, f: Frame, f': Frame) {
    && f.stack == f'.stack
    && |f.locals| == |f'.locals| == g.totalLocals
    && (forall i :: 0 <= i < g.totalLocals ==> (f.locals[i].Bound? <==> i < g.argcount))
    && (forall i: nat :: i < g.totalLocals && (i < g.argcount || i in clean) ==> f'.locals[i] == f.locals[i])
  }

  /** `Guarded` for all blocks of a path, up to where the original code stops. */
  predicate PathGuarded(g: Graph, p: seq<nat>, bound: set<nat>, written: set<nat>)
    requires forall k :: 0 <= k < |p| ==> p[k] < |g.insts|
  {
    p == [] ||
    (var insts := g.insts[p[0]];
     && Guarded(insts, bound, written, g.totalLocals)
     && (Survives(insts, bound) ==>
           PathGuarded(g, p[1..], Transfer(insts, bound), WrittenAfter(insts, written, g.totalLocals))))
  }

  /** The slots that are in `written` or are written along the path. */
  function PathWritten(g: Graph, p: seq<nat>, written: set<nat>): set<nat>
    requires forall k :: 0 <= k < |p| ==> p[k] < |g.insts|
  {
    if p == [] then written
    else PathWritten(g, p[1..], WrittenAfter(g.insts[p[0]], written, g.totalLocals))
  }

  /** No path from the entry comes to the deletion of a local whose slot is not in `known`
      and was not written on the way, unless the code stops before it at an unbound local. */
  ghost predicate DeletesGuarded(g: Graph, known: set<nat>)
    requires |g.insts| == |g.children|
  {
    forall p {:trigger PathFromEntry(g, p)} :: PathFromEntry(g, p) ==> PathGuarded(g, p, ArgsAssigned(g), known)
  }

  // ----- the facts the simulation needs -----

  lemma {:induction false} BlockUsesWithin(blocks: seq<seq<Instr>>, b: nat)
    requires b < |blocks|
    ensures BlockUses(blocks[b]) <= Used(blocks)
    decreases |blocks|
  {
    if b > 0 { BlockUsesWithin(blocks[1..], b - 1); }
  }

  lemma {:induction false} ConditionalLoadsKnown(insts: seq<Instr>, a: set<nat>, argcount: nat, known: set<nat>)
    requires ConditionalLoads(insts, a, argcount) <= known
    requires forall i: nat :: i < argcount ==> i in known
    ensures LoadsKnown(insts, a, known)
    decreases |insts|
  {
    if insts != [] { ConditionalLoadsKnown(insts[1..], Assign(insts[0], a), argcount, known); }
  }

  lemma BlockLoadsKnown(g: Graph, out: Facts, unset: seq<nat>, known: set<nat>, b: nat)
    requires ValidGraph(g) && |out| == |g.children| && b < |out| && UnsetAtEntry(g, out, unset)
    requires forall i: nat :: i < g.argcount || i in unset ==> i in known
    ensures LoadsKnown(g.insts[b], AssignedIn(g, out, b), known)
  {
    forall i | i in ConditionalAt(g, out, b) ensures i in known {
      assert i in unset;
    }
    ConditionalLoadsKnown(g.insts[b], AssignedIn(g, out, b), g.argcount, known);
  }

  /** Only the entry block carries the instructions that unset locals. */
  lemma OptimisedInsts(g: Graph, g1: Graph, out: Facts, unset: seq<nat>, h: Graph, b: nat)
    requires Compiled(g, g1, out, unset, h) && b < |g.insts|
    ensures h.insts[b] == if b == g.entry
                          then Prelude(unset, g.totalLocals) + OptimisedBlock(g1, out, b)
                          else OptimisedBlock(g1, out, b)
  {
    assert [] + OptimisedBlock(g1, out, b) == OptimisedBlock(g1, out, b);
  }

  lemma BlockSimulation(g: Graph, g1: Graph, out: Facts, unset: seq<nat>, h: Graph, known: set<nat>, w: set<nat>,
                        b: nat, f: Frame, f': Frame, effects: Effects, left: nat)
    requires Compiled(g, g1, out, unset, h) && b < |g.insts|
    requires (forall i: nat :: i < g.argcount || i in unset ==> i in known) && known <= w
    requires |f.locals| == g.totalLocals && Related(Used(g.insts), AssignedIn(g1, out, b), w, f, f')
    requires Guarded(g.insts[b], BoundLocals(f), w, g.totalLocals)
    ensures RelatedOutcome(Used(g.insts), out[b], WrittenAfter(g.insts[b], w, g.totalLocals),
                           RunBlock(g.insts[b], f, effects, left),
                           RunBlock(OptimisedBlock(g1, out, b), f', effects, left))
    ensures RunBlock(g.insts[b], f, effects, left).Done? ==>
              BlockBinds(g.insts[b], f, RunBlock(g.insts[b], f, effects, left).frame)
  {
    BlockUsesWithin(g.insts, b);
    BlockLoadsKnown(g1, out, unset, known, b);
    BlockSimulates(g.insts[b], g1.insts[b], Used(g.insts), known, AssignedIn(g1, out, b), w, f, f', effects, left);
  }

  lemma {:induction false} WrittenGrows(insts: seq<Instr>, w: set<nat>, total: nat)
    ensures w <= WrittenAfter(insts, w, total)
    decreases |insts|
  {
    if insts != [] { WrittenGrows(insts[1..], w + SlotsWritten(insts[0], total), total); }
  }

  lemma {:induction false} PathSimulation(
    g: Graph, g1: Graph, out: Facts, unset: seq<nat>, h: Graph, known: set<nat>, w: set<nat>,
    p: seq<nat>, f: Frame, f': Frame, effects: Effects)
    requires Compiled(g, g1, out, unset, h) && IsPath(g, p) && p[0] != g.entry
    requires (forall i: nat :: i < g.argcount || i in unset ==> i in known) && known <= w
    requires |f.locals| == g.totalLocals && Related(Used(g.insts), AssignedIn(g1, out, p[0]), w, f, f')
    requires PathGuarded(g, p, BoundLocals(f), w)
    ensures RelatedOutcome(Used(g.insts), out[Last(p)], PathWritten(g, p, w),
                           RunPath(g, p, f, effects), RunPath(h, p, f', effects))
    decreases |p|
  {
    var b := p[0];
    BlockSimulation(g, g1, out, unset, h, known, w, b, f, f', effects, |p|);
    OptimisedInsts(g, g1, out, unset, h, b);
    var o, o' := RunBlock(g.insts[b], f, effects, |p|), RunBlock(h.insts[b], f', effects, |p|);
    if o.Done? {
      var w1 := WrittenAfter(g.insts[b], w, g.totalLocals);
      WrittenGrows(g.insts[b], w, g.totalLocals);
      PathContinues(g, g1, out, unset, h, known, w1, p, o.frame, o'.frame, effects);
    }
  }

  lemma PathContinues(
    g: Graph, g1: Graph, out: Facts, unset: seq<nat>, h: Graph, known: set<nat>, w: set<nat>,
    p: seq<nat>, f: Frame, f': Frame, effects: Effects)
    requires Compiled(g, g1, out, unset, h) && IsPath(g, p)
    requires (forall i: nat :: i < g.argcount || i in unset ==> i in known) && known <= w
    requires |f.locals| == g.totalLocals && Related(Used(g.insts), out[p[0]], w, f, f')
    requires PathGuarded(g, p[1..], BoundLocals(f), w)
    ensures RelatedOutcome(Used(g.insts), out[Last(p)], PathWritten(g, p[1..], w),
                           RunPath(g, p[1..], f, effects), RunPath(h, p[1..], f', effects))
    decreases |p|, 0
  {
    if |p| > 1 {
      NextBlock(g, g1, out, p);
      PathSimulation(g, g1, out, unset, h, known, w, p[1..], f, f', effects);
    }
  }

  /** What a block ends with is enough for any block after it. */
  lemma NextBlock(g: Graph, g1: Graph, out: Facts, p: seq<nat>)
    requires ValidGraph(g) && IsPath(g, p) && |p| > 1 && g1.children == g.children && Preds(g, g.entry) == {}
    requires |out| == |g.children|
    ensures IsPath(g, p[1..]) && p[1] != g.entry && AssignedIn(g1, out, p[1]) <= out[p[0]]
  {
    assert p[1] in g.children[p[0]];
    assert p[0] in Preds(g1, p[1]) && p[0] in Preds(g, p[1]);
  }

  /** The frame after the entry has unset its locals. */
  function Unset(f: Frame, unset: seq<nat>): Frame
    requires forall k :: 0 <= k < |unset| ==> unset[k] < |f.locals|
  {
    f.(locals := seq(|f.locals|, i requires 0 <= i < |f.locals| => if i in unset then Unbound else f.locals[i]))
  }

  lemma {:induction false} PreludeUnsets(unset: seq<nat>, body: seq<Instr>, f: Frame, effects: Effects, left: nat)
    requires forall k :: 0 <= k < |unset| ==> unset[k] < |f.locals|
    ensures RunBlock(Prelude(unset, |f.locals|) + body, f, effects, left)
         == RunBlock(body, Unset(f, unset), effects, left)
    decreases |unset|
  {
    var n := |f.locals|;
    if unset == [] {
      assert Prelude(unset, n) + body == body;
      assert Unset(f, unset).locals == f.locals;
    } else {
      var f1 := f.(locals := f.locals[unset[0] := Unbound]);
      assert (Prelude(unset, n) + body)[1..] == Prelude(unset[1..], n) + body;
      PreludeUnsets(unset[1..], body, f1, effects, left);
      assert Unset(f1, unset[1..]).locals == Unset(f, unset).locals;
    }
  }

  // ----- the theorems -----

  /** The entry unsets its locals before its first block runs. */
  lemma EntryBegins(g: Graph, g1: Graph, out: Facts, unset: seq<nat>, h: Graph, clean: set<nat>,
                    f: Frame, f': Frame, effects: Effects, left: nat)
    requires Compiled(g, g1, out, unset, h) && CallBegins(g, clean, f, f')
    ensures RunBlock(h.insts[g.entry], f', effects, left)
         == RunBlock(OptimisedBlock(g1, out, g.entry), Unset(f', unset), effects, left)
    ensures Related(Used(g.insts), AssignedIn(g1, out, g.entry), Known(g, unset, clean), f, Unset(f', unset))
    ensures BoundLocals(f) == ArgsAssigned(g)
  {
    assert Preds(g1, g.entry) == Preds(g, g.entry);
    OptimisedInsts(g, g1, out, unset, h, g.entry);
    PreludeUnsets(unset, OptimisedBlock(g1, out, g.entry), f', effects, left);
    forall i: nat | i in unset ensures i >= g.argcount { UnsetAreNotParameters(g1, out, unset, i); }
  }

  /** Along a guarded path from the entry the original and the compiled code have equal
      operand stacks, stop at the same instruction for the same reason, and agree on every
      used local whose slot is clean or was written on the path. All bound locals are
      among these. The slots outside `clean` may start with garbage. */
  lemma CompilationPreservesMeaning(
    g: Graph, g1: Graph, out: Facts, unset: seq<nat>, h: Graph, clean: set<nat>,
    p: seq<nat>, f: Frame, f': Frame, effects: Effects)
    requires Compiled(g, g1, out, unset, h) && PathFromEntry(g, p)
    requires PathGuarded(g, p, ArgsAssigned(g), Known(g, unset, clean))
    requires CallBegins(g, clean, f, f')
    ensures RelatedOutcome(Used(g.insts), out[Last(p)], PathWritten(g, p, Known(g, unset, clean)),
                           RunPath(g, p, f, effects), RunPath(h, p, f', effects))
  {
    var known := Known(g, unset, clean);
    var e := g.entry;
    EntryBegins(g, g1, out, unset, h, clean, f, f', effects, |p|);
    BlockSimulation(g, g1, out, unset, h, known, known, e, f, Unset(f', unset), effects, |p|);
    var o, o' := RunBlock(g.insts[e], f, effects, |p|), RunBlock(h.insts[e], f', effects, |p|);
    if o.Done? {
      var w1 := WrittenAfter(g.insts[e], known, g.totalLocals);
      WrittenGrows(g.insts[e], known, g.totalLocals);
      PathContinues(g, g1, out, unset, h, known, w1, p, o.frame, o'.frame, effects);
    }
  }

  // ----- a path that is not guarded -----

  function PathSize(g: Graph, p: seq<nat>): nat
    requires forall k :: 0 <= k < |p| ==> p[k] < |g.insts|
  {
    if p == [] then 0 else |g.insts[p[0]]| + PathSize(g, p[1..])
  }

  lemma {:induction false} BlocksLeft(g: Graph, p: seq<nat>, f: Frame, effects: Effects)
    requires forall k :: 0 <= k < |p| ==> p[k] < |g.insts|
    ensures RunPath(g, p, f, effects).Stopped? ==> RunPath(g, p, f, effects).blocksLeft <= |p|
    decreases |p|
  {
    if p != [] {
      InstrsLeft(g.insts[p[0]], f, effects, |p|);
      var o := RunBlock(g.insts[p[0]], f, effects, |p|);
      if o.Done? { BlocksLeft(g, p[1..], o.frame, effects); }
    }
  }

  /** From block `p[0]` on, which the compiled code runs as `body`. */
  lemma {:induction false} PathDiverges(
    g: Graph, g1: Graph, out: Facts, unset: seq<nat>, h: Graph, known: set<nat>, w: set<nat>,
    p: seq<nat>, f: Frame, f': Frame, f1: Frame)
    requires Compiled(g, g1, out, unset, h) && IsPath(g, p)
    requires (forall i: nat :: i < g.argcount || i in unset ==> i in known) && known <= w
    requires |f.locals| == g.totalLocals && Related(Used(g.insts), AssignedIn(g1, out, p[0]), w, f, f')
    requires RunBlock(h.insts[p[0]], f1, Quiet(), |p|) == RunBlock(OptimisedBlock(g1, out, p[0]), f', Quiet(), |p|)
    requires Garbage(f', w) && |f.stack| >= PathSize(g, p) && !PathGuarded(g, p, BoundLocals(f), w)
    ensures RunPath(g, p, f, Quiet()).Stopped? && RunPath(h, p, f1, Quiet()) != RunPath(g, p, f, Quiet())
    decreases |p|
  {
    var b, insts := p[0], g.insts[p[0]];
    BlockUsesWithin(g.insts, b);
    BlockLoadsKnown(g1, out, unset, known, b);
    var o, o' := RunBlock(insts, f, Quiet(), |p|), RunBlock(h.insts[b], f1, Quiet(), |p|);
    if Guarded(insts, BoundLocals(f), w, g.totalLocals) {
      BlockFinishes(insts, g1.insts[b], Used(g.insts), known, AssignedIn(g1, out, b), w, f, f', |p|);
      BlockSimulation(g, g1, out, unset, h, known, w, b, f, f', Quiet(), |p|);
      WrittenGrows(insts, w, g.totalLocals);
      NextBlock(g, g1, out, p);
      OptimisedInsts(g, g1, out, unset, h, p[1]);
      PathDiverges(g, g1, out, unset, h, known, WrittenAfter(insts, w, g.totalLocals), p[1..],
                   o.frame, o'.frame, o'.frame);
    } else {
      BlockDiverges(insts, g1.insts[b], Used(g.insts), known, AssignedIn(g1, out, b), w, f, f', |p|);
      if o'.Done? { BlocksLeft(h, p[1..], o'.frame, Quiet()); }
    }
  }

  /** On a path that is not guarded the original code stops at a deletion that the
      compiled code passes, when the slots outside `clean` hold garbage. */
  lemma UnguardedPathDiverges(g: Graph, g1: Graph, out: Facts, unset: seq<nat>, h: Graph, clean: set<nat>,
                              p: seq<nat>, v: Value) returns (f: Frame, f': Frame)
    requires Compiled(g, g1, out, unset, h) && PathFromEntry(g, p)
    requires !PathGuarded(g, p, ArgsAssigned(g), Known(g, unset, clean))
    ensures CallBegins(g, clean, f, f')
    ensures RunPath(g, p, f, Quiet()).Stopped? && RunPath(h, p, f', Quiet()) != RunPath(g, p, f, Quiet())
  {
    var known, n := Known(g, unset, clean), g.totalLocals;
    var stack := seq(PathSize(g, p), _ => v);
    f := Frame(stack, seq(n, i => if i < g.argcount then Bound(v) else Unbound));
    f' := Frame(stack, seq(n, i => if i < g.argcount || i !in clean then Bound(v) else Unbound));
    EntryBegins(g, g1, out, unset, h, clean, f, f', Quiet(), |p|);
    PathDiverges(g, g1, out, unset, h, known, known, p, f, Unset(f', unset), f');
  }

  /** Both codes mean the same on path `p`: they finish in related frames or stop alike. */
  ghost predicate SameRun(g: Graph, h: Graph, known: set<nat>, p: seq<nat>, f: Frame, f': Frame, effects: Effects)
    requires forall k :: 0 <= k < |p| ==> p[k] < |g.insts| && p[k] < |h.insts|
  {
    RelatedOutcome(Used(g.insts), {}, PathWritten(g, p, known), RunPath(g, p, f, effects), RunPath(h, p, f', effects))
  }

  ghost predicate MeaningKept(g: Graph, h: Graph, known: set<nat>, clean: set<nat>)
    requires |g.insts| == |g.children| == |h.insts|
  {
    forall p, f, f', effects: Effects | PathFromEntry(g, p) && CallBegins(g, clean, f, f') ::
      SameRun(g, h, known, p, f, f', effects)
  }

  /** The compiled code means the same as the original on every path, for every effect of
      the other instructions and every garbage, exactly if all deletions are guarded. */
  lemma MeaningKeptIffDeletesGuarded(g: Graph, g1: Graph, out: Facts, unset: seq<nat>, h: Graph,
                                     clean: set<nat>, v: Value)
    requires Compiled(g, g1, out, unset, h)
    ensures MeaningKept(g, h, Known(g, unset, clean), clean) <==> DeletesGuarded(g, Known(g, unset, clean))
  {
    var known := Known(g, unset, clean);
    if DeletesGuarded(g, known) {
      forall p, f, f', effects: Effects | PathFromEntry(g, p) && CallBegins(g, clean, f, f')
        ensures SameRun(g, h, known, p, f, f', effects)
      {
        CompilationPreservesMeaning(g, g1, out, unset, h, clean, p, f, f', effects);
      }
    }
    if !DeletesGuarded(g, known) {
      var p :| PathFromEntry(g, p) && !PathGuarded(g, p, ArgsAssigned(g), known);
      var f, f' := UnguardedPathDiverges(g, g1, out, unset, h, clean, p, v);
      assert !SameRun(g, h, known, p, f, f', Quiet());
    }
  }

  // ----- a check by the analysis's own facts -----

  /** Every local the block deletes where it may be unbound is in `known`. */
  predicate DeletesKnown(insts: seq<Instr>, a: set<nat>, known: set<nat>) {
    insts == [] ||
    (&& (insts[0].DeleteFast? && insts[0].i !in a ==> insts[0].i in known)
     && DeletesKnown(insts[1..], Assign(insts[0], a), known))
  }

  lemma {:induction false} FactsGuardBlock(xs: seq<Instr>, ys: seq<Instr>, used: set<nat>, known: set<nat>,
                                           a: set<nat>, bound: set<nat>, w: set<nat>, n: nat, total: nat)
    requires SourceBlock(xs, n) && BlockUses(xs) <= used && (ys == xs || ys == DropInBlock(xs, used))
    requires DeletesKnown(ys, a, known) && known <= w && a <= bound <= w
    ensures Guarded(xs, bound, w, total)
    ensures Survives(xs, bound) ==> Transfer(ys, a) <= Transfer(xs, bound) <= WrittenAfter(xs, w, total)
    decreases |xs|
  {
    DropInBlockShape(xs, used, n);
    if xs != [] && !Stops(xs[0], bound) {
      FactsGuardBlock(xs[1..], ys[1..], used, known, Assign(ys[0], a), Assign(xs[0], bound),
                      w + SlotsWritten(xs[0], total), n, total);
    }
  }

  lemma {:induction false} FactsGuardPath(g: Graph, g1: Graph, out: Facts, unset: seq<nat>, h: Graph, known: set<nat>,
                                          p: seq<nat>, bound: set<nat>, w: set<nat>)
    requires Compiled(g, g1, out, unset, h) && IsPath(g, p)
    requires forall b: nat :: b < |out| ==> DeletesKnown(g1.insts[b], AssignedIn(g1, out, b), known)
    requires known <= w && AssignedIn(g1, out, p[0]) <= bound <= w
    ensures PathGuarded(g, p, bound, w)
    decreases |p|
  {
    var b, insts := p[0], g.insts[p[0]];
    BlockUsesWithin(g.insts, b);
    FactsGuardBlock(insts, g1.insts[b], Used(g.insts), known, AssignedIn(g1, out, b), bound, w,
                    g.numLocals, g.totalLocals);
    if |p| > 1 && Survives(insts, bound) {
      NextBlock(g, g1, out, p);
      WrittenGrows(insts, w, g.totalLocals);
      FactsGuardPath(g, g1, out, unset, h, known, p[1..], Transfer(insts, bound),
                     WrittenAfter(insts, w, g.totalLocals));
    }
  }

  /** If every local is deleted only where the facts have it assigned, or has a known slot,
      all deletions are guarded. */
  lemma FactsGuardDeletes(g: Graph, g1: Graph, out: Facts, unset: seq<nat>, h: Graph, clean: set<nat>)
    requires Compiled(g, g1, out, unset, h)
    requires forall b: nat :: b < |out| ==> DeletesKnown(g1.insts[b], AssignedIn(g1, out, b), Known(g, unset, clean))
    ensures DeletesGuarded(g, Known(g, unset, clean))
  {
    var known := Known(g, unset, clean);
    assert Preds(g1, g.entry) == Preds(g, g.entry);
    forall p | PathFromEntry(g, p) ensures PathGuarded(g, p, ArgsAssigned(g), known) {
      FactsGuardPath(g, g1, out, unset, h, known, p, ArgsAssigned(g), known);
    }
  }

  lemma UnsetAreNotParameters(g: Graph, out: Facts, unset: seq<nat>, i: nat)
    requires |out| == |g.children| == |g.insts| && UnsetAtEntry(g, out, unset) && i in unset
    ensures i >= g.argcount
  {
    var b: nat :| b < |out| && i in ConditionalAt(g, out, b);
    ConditionalAboveArgs(g.insts[b], AssignedIn(g, out, b), g.argcount);
  }

  lemma {:induction false} ConditionalAboveArgs(insts: seq<Instr>, a: set<nat>, argcount: nat)
    ensures forall i :: i in ConditionalLoads(insts, a, argcount) ==> i >= argcount
    decreases |insts|
  {
    if insts != [] { ConditionalAboveArgs(insts[1..], Assign(insts[0], a), argcount); }
  }

  /** When every slot starts unbound nothing is asked of the deletions, and the
      frames agree on every local that is ever loaded or deleted. */
  lemma CleanFramesPreserveMeaning(
    g: Graph, g1: Graph, out: Facts, unset: seq<nat>, h: Graph,
    p: seq<nat>, f: Frame, effects: Effects)
    requires Compiled(g, g1, out, unset, h) && PathFromEntry(g, p)
    requires CallBegins(g, Top(g), f, f)
    ensures var o, o' := RunPath(g, p, f, effects), RunPath(h, p, f, effects);
            if o.Done? then
              && o'.Done? && o'.frame.stack == o.frame.stack
              && |o'.frame.locals| == |o.frame.locals|
              && forall i :: i in Used(g.insts) && i < |o.frame.locals| ==> o.frame.locals[i] == o'.frame.locals[i]
            else o' == o
  {
    var known := Known(g, unset, Top(g));
    AllKnownIsGuarded(g, p, ArgsAssigned(g), known);
    PathWrittenGrows(g, p, known);
    CompilationPreservesMeaning(g, g1, out, unset, h, Top(g), p, f, f, effects);
    UsedInRange(g.insts, g.numLocals);
  }

  lemma {:induction false} AllKnownIsGuarded(g: Graph, p: seq<nat>, bound: set<nat>, w: set<nat>)
    requires ValidGraph(g) && (forall k :: 0 <= k < |p| ==> p[k] < |g.insts|) && Top(g) <= w
    ensures PathGuarded(g, p, bound, w)
    decreases |p|
  {
    if p != [] {
      var insts := g.insts[p[0]];
      AllKnownIsGuardedInBlock(insts, bound, w, g.numLocals, g.totalLocals);
      WrittenGrows(insts, w, g.totalLocals);
      AllKnownIsGuarded(g, p[1..], Transfer(insts, bound), WrittenAfter(insts, w, g.totalLocals));
    }
  }

  lemma {:induction false} AllKnownIsGuardedInBlock(insts: seq<Instr>, bound: set<nat>, w: set<nat>, n: nat, total: nat)
    requires SourceBlock(insts, n) && forall i: nat :: i < n ==> i in w
    ensures Guarded(insts, bound, w, total)
    decreases |insts|
  {
    if insts != [] {
      AllKnownIsGuardedInBlock(insts[1..], Assign(insts[0], bound), w + SlotsWritten(insts[0], total), n, total);
    }
  }

  lemma {:induction false} PathWrittenGrows(g: Graph, p: seq<nat>, w: set<nat>)
    requires forall k :: 0 <= k < |p| ==> p[k] < |g.insts|
    ensures w <= PathWritten(g, p, w)
    decreases |p|
  {
    if p != [] {
      WrittenGrows(g.insts[p[0]], w, g.totalLocals);
      PathWrittenGrows(g, p[1..], WrittenAfter(g.insts[p[0]], w, g.totalLocals));
    }
  }

  lemma {:induction false} UsedInRange(blocks: seq<seq<Instr>>, n: nat)
    requires forall b :: 0 <= b < |blocks| ==> SourceBlock(blocks[b], n)
    ensures forall i :: i in Used(blocks) ==> i < n
    decreases |blocks|
  {
    if blocks != [] {
      BlockUsesInRange(blocks[0], n);
      UsedInRange(blocks[1..], n);
    }
  }

  lemma {:induction false} BlockUsesInRange(insts: seq<Instr>, n: nat)
    requires SourceBlock(insts, n)
    ensures forall i :: i in BlockUses(insts) ==> i < n
    decreases |insts|
  {
    if insts != [] { BlockUsesInRange(insts[1..], n); }
  }

  // ----- no load reads a slot that was never written -----

  predicate ReadsWritten(x: Instr, written: set<nat>, total: nat) {
    match x
    case LoadFast(i) => i in written
    case LoadFastReverseUnchecked(r) => r < total && Reverse(r, total) in written
    case _ => true
  }

  /** Every load of the block reads a slot that is in `written` or was written
      earlier in the block. */
  predicate LoadsWritten(insts: seq<Instr>, written: set<nat>, total: nat) {
    insts == [] ||
    (&& ReadsWritten(insts[0], written, total)
     && LoadsWritten(insts[1..], written + SlotsWritten(insts[0], total), total))
  }

  predicate PathLoadsWritten(h: Graph, p: seq<nat>, written: set<nat>)
    requires forall k :: 0 <= k < |p| ==> p[k] < |h.insts|
  {
    p == [] ||
    (&& LoadsWritten(h.insts[p[0]], written, h.totalLocals)
     && PathLoadsWritten(h, p[1..], WrittenAfter(h.insts[p[0]], written, h.totalLocals)))
  }

  lemma {:induction false} BlockLoadsWritten(insts: seq<Instr>, a: set<nat>, known: set<nat>,
                                             written: set<nat>, total: nat)
    requires SourceBlock(insts, total) && LoadsKnown(insts, a, known)
    requires a <= written && known <= written
    ensures LoadsWritten(RewriteBlock(insts, a, total), written, total)
    ensures Transfer(insts, a) + known <= WrittenAfter(RewriteBlock(insts, a, total), written, total)
    decreases |insts|
  {
    if insts != [] {
      var z := RewriteInstr(insts[0], a, total);
      var rest := RewriteBlock(insts[1..], Assign(insts[0], a), total);
      assert ([z] + rest)[1..] == rest;
      BlockLoadsWritten(insts[1..], Assign(insts[0], a), known, written + SlotsWritten(z, total), total);
    }
  }

  lemma {:induction false} PreludeWrites(unset: seq<nat>, body: seq<Instr>, written: set<nat>, total: nat)
    requires forall k :: 0 <= k < |unset| ==> unset[k] < total
    ensures LoadsWritten(Prelude(unset, total) + body, written, total)
            == LoadsWritten(body, written + (set i | i in unset), total)
    ensures WrittenAfter(Prelude(unset, total) + body, written, total)
            == WrittenAfter(body, written + (set i | i in unset), total)
    decreases |unset|
  {
    if unset == [] {
      assert Prelude(unset, total) + body == body;
      assert written + (set i | i in unset) == written;
    } else {
      assert (Prelude(unset, total) + body)[1..] == Prelude(unset[1..], total) + body;
      PreludeWrites(unset[1..], body, written + {unset[0]}, total);
      assert written + {unset[0]} + (set i | i in unset[1..]) == written + (set i | i in unset);
    }
  }

  lemma {:induction false} RestLoadsWritten(
    g: Graph, g1: Graph, out: Facts, unset: seq<nat>, h: Graph, p: seq<nat>, written: set<nat>)
    requires Compiled(g, g1, out, unset, h) && IsPath(g, p)
    requires out[p[0]] + Known(g, unset, {}) <= written
    ensures PathLoadsWritten(h, p[1..], written)
    decreases |p|
  {
    if |p| > 1 {
      var q, known := p[1..], Known(g, unset, {});
      var b := q[0];
      assert p[1] in g.children[p[0]];
      assert p[0] in Preds(g1, b) && p[0] in Preds(g, b);
      assert IsPath(g, q);
      OptimisedInsts(g, g1, out, unset, h, b);
      BlockLoadsKnown(g1, out, unset, known, b);
      BlockLoadsWritten(g1.insts[b], AssignedIn(g1, out, b), known, written, g.totalLocals);
      RestLoadsWritten(g, g1, out, unset, h, q, WrittenAfter(h.insts[b], written, g.totalLocals));
    }
  }

  /** Even if every slot but the parameters' starts as garbage, no load on any
      path from the entry reads a slot that was never written. */
  lemma NoLoadReadsGarbage(g: Graph, g1: Graph, out: Facts, unset: seq<nat>, h: Graph, p: seq<nat>)
    requires Compiled(g, g1, out, unset, h) && PathFromEntry(g, p)
    ensures PathLoadsWritten(h, p, ArgsAssigned(g))
  {
    var e, known := g.entry, Known(g, unset, {});
    var body := OptimisedBlock(g1, out, e);
    assert Preds(g1, e) == Preds(g, e);
    OptimisedInsts(g, g1, out, unset, h, e);
    PreludeWrites(unset, body, ArgsAssigned(g), g.totalLocals);
    assert ArgsAssigned(g) + (set i | i in unset) == known;
    BlockLoadsKnown(g1, out, unset, known, e);
    BlockLoadsWritten(g1.insts[e], AssignedIn(g1, out, e), known, known, g.totalLocals);
    RestLoadsWritten(g, g1, out, unset, h, p, WrittenAfter(h.insts[e], ArgsAssigned(g), g.totalLocals));
  }

  /** `if c: x = 1` followed by `del x`: block 0 may skip block 1, the only store. */
  function ConditionalDelete(): Graph {
    Graph([[], [Other(0), StoreFast(0)], [DeleteFast(0)]], [{1, 2}, {2}, {}], 0, 1, 0, 1)
  }

  lemma TransferOne(x: Instr, a: set<nat>)
    ensures Transfer([x], a) == Assign(x, a)
  {
    assert [x][1..] == [];
  }

  lemma ConditionalDeleteFacts()
    ensures IsSolution(ConditionalDelete(), [{}, {0}, {}]) && IsGreatest(ConditionalDelete(), [{}, {0}, {}])
  {
    var g, out: Facts := ConditionalDelete(), [{}, {0}, {}];
    assert Preds(g, 0) == {} && Preds(g, 1) == {0} && Preds(g, 2) == {0, 1};
    forall s: Facts, b: nat | |s| == 3 && b < 3
      ensures var a := AssignedIn(g, s, b);
        Flow(g, s, b) == if b == 1 then a + {0} else if b == 2 then a - {0} else {}
    {
      var a := AssignedIn(g, s, b);
      TransferOne(StoreFast(0), a);
      TransferOne(DeleteFast(0), a);
      assert [Other(0), StoreFast(0)][1..] == [StoreFast(0)];
      assert Transfer([Other(0), StoreFast(0)], a) == Transfer([StoreFast(0)], a);
    }
    forall s: Facts, b: nat | b < |s| && IsSupported(g, s) ensures s[b] <= out[b] {
      assert s[b] <= Flow(g, s, b);
    }
  }

  lemma ConditionalDeleteCode(out: Facts)
    requires |out| == 3
    ensures UnsetAtEntry(ConditionalDelete(), out, [])
    ensures Optimised(ConditionalDelete(), out, []).insts[0] == []
    ensures Optimised(ConditionalDelete(), out, []).insts[2] == [DeleteFast(0)]
  {
    var g := ConditionalDelete();
    forall b: nat | b < 3 ensures ConditionalAt(g, out, b) == {} {
      NoLoadsNoConditional(g.insts[b], AssignedIn(g, out, b), 0);
    }
    var a := AssignedIn(g, out, 2);
    assert RewriteBlock(g.insts[2], a, 1) == [DeleteFast(0)] + RewriteBlock(g.insts[2][1..], a - {0}, 1);
  }

  /** A deletion can read garbage: nothing loads the local, so the entry does not
      unset it. The original code fails at the deletion; the compiled code does
      not when the slot happens to hold an object. */
  lemma DeletionReadsGarbage(v: Value, effects: Effects) returns (g: Graph, out: Facts, h: Graph)
    ensures Compiled(g, g, out, [], h) && IsGreatest(g, out) && PathFromEntry(g, [0, 2])
    ensures CallBegins(g, {}, Frame([], [Unbound]), Frame([], [Bound(v)]))
    ensures RunPath(g, [0, 2], Frame([], [Unbound]), effects) == Stopped(UnboundLocal, 1, 1)
    ensures RunPath(h, [0, 2], Frame([], [Bound(v)]), effects) == Done(Frame([], [Unbound]))
  {
    g, out := ConditionalDelete(), [{}, {0}, {}];
    ConditionalDeleteFacts();
    ConditionalDeleteCode(out);
    h := Optimised(g, out, []);
    DeletePathRuns(g, v, effects);
    DeletePathRuns(h, v, effects);
    assert Preds(g, 0) == {};
  }

  lemma DeletePathRuns(g: Graph, v: Value, effects: Effects)
    requires |g.insts| == 3 && g.insts[0] == [] && g.insts[2] == [DeleteFast(0)]
    ensures RunPath(g, [0, 2], Frame([], [Unbound]), effects) == Stopped(UnboundLocal, 1, 1)
    ensures RunPath(g, [0, 2], Frame([], [Bound(v)]), effects) == Done(Frame([], [Unbound]))
  {
    assert [0, 2][1..] == [2] && [2][1..] == [];
    assert g.insts[2][1..] == [];
    var f := Frame([], [Bound(v)]);
    assert f.locals[0 := Unbound] == [Unbound];
    assert Step(DeleteFast(0), f, effects) == Going(Frame([], [Unbound]));
    assert RunBlock(g.insts[2], f, effects, 1) == RunBlock([], Frame([], [Unbound]), effects, 1);
    assert RunPath(g, [2], Frame([], [Bound(v)]), effects) == Done(Frame([], [Unbound]));
  }

  lemma {:induction false} NoLoadsNoConditional(insts: seq<Instr>, a: set<nat>, argcount: nat)
    requires forall k :: 0 <= k < |insts| ==> !insts[k].LoadFast?
    ensures ConditionalLoads(insts, a, argcount) == {}
    decreases |insts|
  {
    if insts != [] { NoLoadsNoConditional(insts[1..], Assign(insts[0], a), argcount); }
  }
}
