/** The flow graph of `PyroFlowGraph`, and the stack machine that runs it.
    Locals are identified by their position in `varnames`. */
module FlowGraph {

  /** A reference to some object; what the object is does not matter here. */
  type Value(==, !new)

  /** What a local's slot holds: `Unbound` is the runtime's "not found" marker. */
  datatype Slot = Unbound | Bound(value: Value)

  datatype Instr =
    | LoadFast(i: nat)
    | StoreFast(i: nat)
    | DeleteFast(i: nat)
    | PopTop
    | LoadFastReverseUnchecked(r: nat)
    | StoreFastReverse(r: nat)
    | DeleteFastReverseUnchecked(r: nat)
    | Other(op: nat)  // any instruction that leaves the locals alone

  /** Block `b` holds `insts[b]` and may pass control to any block of `children[b]`. */
  datatype Graph = Graph(
    insts: seq<seq<Instr>>,
    children: seq<set<nat>>,
    entry: nat,
    numLocals: nat,
    argcount: nat,
    totalLocals: nat)

  /** Code as the code generator emits it: only forward-indexed instructions. */
  predicate IsSource(x: Instr, numLocals: nat) {
    match x
    case LoadFast(i) => i < numLocals
    case StoreFast(i) => i < numLocals
    case DeleteFast(i) => i < numLocals
    case PopTop => true
    case Other(_) => true
    case _ => false
  }

  predicate SourceBlock(insts: seq<Instr>, numLocals: nat) {
    forall k :: 0 <= k < |insts| ==> IsSource(insts[k], numLocals)
  }

  predicate ValidGraph(g: Graph) {
    && |g.insts| == |g.children|
    && g.entry < |g.insts|
    && g.argcount <= g.numLocals <= g.totalLocals
    && (forall b :: 0 <= b < |g.insts| ==> SourceBlock(g.insts[b], g.numLocals))
    && (forall b, c :: 0 <= b < |g.children| && c in g.children[b] ==> c < |g.insts|)
  }

  function Preds(g: Graph, b: nat): set<nat> {
    set p: nat | p < |g.children| && b in g.children[p]
  }

  /** Blocks `p[0], p[1], ...` joined by `get_children` edges. */
  predicate IsPath(g: Graph, p: seq<nat>)
    requires |g.insts| == |g.children|
  {
    && |p| > 0
    && (forall k :: 0 <= k < |p| ==> p[k] < |g.insts|)
    && (forall k :: 0 < k < |p| ==> p[k] in g.children[p[k - 1]])
  }

  function Last(p: seq<nat>): nat
    requires |p| > 0
  {
    p[|p| - 1]
  }

  // ----- execution -----

  datatype Frame = Frame(stack: seq<Value>, locals: seq<Slot>)

  datatype Failure = UnboundLocal | StackUnderflow | Exception | UncheckedReadOfUnbound

  datatype StackResult = Pushed(stack: seq<Value>) | Raises

  type Effects = (nat, seq<Value>) -> StackResult

  datatype Next = Going(frame: Frame) | Failed(why: Failure)

  /** One instruction. Reverse operands count from the far end of the locals. */
  function Step(x: Instr, f: Frame, effects: Effects): Next {
    var n := |f.locals|;
    match x
    case LoadFast(i) => if i < n then Load(f, i, UnboundLocal) else Failed(Exception)
    case LoadFastReverseUnchecked(r) =>
      if r < n then Load(f, n - 1 - r, UncheckedReadOfUnbound) else Failed(Exception)
    case StoreFast(i) => if i < n then Store(f, i) else Failed(Exception)
    case StoreFastReverse(r) => if r < n then Store(f, n - 1 - r) else Failed(Exception)
    case DeleteFast(i) =>
      if i >= n then Failed(Exception)
      else if f.locals[i].Unbound? then Failed(UnboundLocal)
      else Going(f.(locals := f.locals[i := Unbound]))
    case DeleteFastReverseUnchecked(r) =>
      if r < n then Going(f.(locals := f.locals[n - 1 - r := Unbound])) else Failed(Exception)
    case PopTop => if f.stack == [] then Failed(StackUnderflow) else Going(f.(stack := f.stack[1..]))
    case Other(op) =>
      match effects(op, f.stack)
      case Pushed(s) => Going(f.(stack := s))
      case Raises => Failed(Exception)
  }

  function Load(f: Frame, i: nat, why: Failure): Next
    requires i < |f.locals|
  {
    match f.locals[i]
    case Unbound => Failed(why)
    case Bound(v) => Going(f.(stack := [v] + f.stack))
  }

  function Store(f: Frame, i: nat): Next
    requires i < |f.locals|
  {
    if f.stack == [] then Failed(StackUnderflow)
    else Going(Frame(f.stack[1..], f.locals[i := Bound(f.stack[0])]))
  }

  /** A run stops with the number of blocks and instructions that were still to
      be run, the failing ones included, or reaches the end of the path. */
  datatype Outcome = Done(frame: Frame) | Stopped(why: Failure, instrsLeft: nat, blocksLeft: nat)

  function RunBlock(insts: seq<Instr>, f: Frame, effects: Effects, blocksLeft: nat): Outcome
    decreases |insts|
  {
    if insts == [] then Done(f)
    else match Step(insts[0], f, effects)
      case Going(f') => RunBlock(insts[1..], f', effects, blocksLeft)
      case Failed(why) => Stopped(why, |insts|, blocksLeft)
  }

  function RunPath(g: Graph, p: seq<nat>, f: Frame, effects: Effects): Outcome
    requires forall k :: 0 <= k < |p| ==> p[k] < |g.insts|
  {
    if p == [] then Done(f)
    else match RunBlock(g.insts[p[0]], f, effects, |p|)
      case Done(f') => RunPath(g, p[1..], f', effects)
      case stop => stop
  }
}
