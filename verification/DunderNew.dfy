/** `_make_dunder_new`: the bytecode of a generated `__new__`, which calls its target
    with the class and a tuple of the other arguments. */
module DunderNew {
  import opened Basics

  const EXTENDED_ARG: byte := 144
  const LOAD_CONST: byte := 100
  const LOAD_FAST: byte := 124
  const BUILD_TUPLE: byte := 102
  const CALL_FUNCTION: byte := 131
  const RETURN_VALUE: byte := 83

  const MAX_ARG: nat := 0xFFFF_FFFF

  // ----- the emitter -----

  /** An opcode with its argument: up to three EXTENDED_ARG prefixes carry the upper bytes. */
  function Op(opcode: byte, arg: nat): seq<byte>
    requires arg <= MAX_ARG
  {
    Prefix(arg, 0x100_0000) + (Prefix(arg, 0x1_0000) + (Prefix(arg, 0x100) + [opcode, ByteAt(arg, 1)]))
  }

  /** The prefix for the byte that counts multiples of `unit`, if there are any. */
  function Prefix(arg: nat, unit: nat): seq<byte>
    requires unit > 0
  {
    if arg >= unit then [EXTENDED_ARG, ByteAt(arg, unit)] else []
  }

  /** The byte of `arg` that counts multiples of `unit`. */
  function ByteAt(arg: nat, unit: nat): byte
    requires unit > 0
  {
    (arg / unit % 256) as byte
  }

  /** LOAD_FAST for locals `i` to `n`. */
  function Loads(i: nat, n: nat): seq<byte>
    requires i <= n <= MAX_ARG + 1
    decreases n - i
  {
    if i == n then [] else Op(LOAD_FAST, i) + Loads(i + 1, n)
  }

  /** What follows the loads. */
  function Finish(argcount: nat): seq<byte>
    requires 1 <= argcount <= MAX_ARG + 1
  {
    Op(BUILD_TUPLE, argcount - 1) + (Op(CALL_FUNCTION, 2) + Op(RETURN_VALUE, 0))
  }

  /** `argcount` counts `_cls`. */
  function Code(argcount: nat): seq<byte>
    requires 1 <= argcount <= MAX_ARG + 1
  {
    Op(LOAD_CONST, 0) + (Loads(0, argcount) + Finish(argcount))
  }

  class ByteArray {
    var data: seq<byte>

    constructor ()
      ensures data == []
    {
      data := [];
    }

    method Append(b: byte)
      modifies this
      ensures data == old(data) + [b]
    {
      data := data + [b];
    }
  }

  method EmitPrefix(bytecode: ByteArray, arg: nat, unit: nat)
    requires unit > 0
    modifies bytecode
    ensures bytecode.data == old(bytecode.data) + Prefix(arg, unit)
  {
    if arg > unit - 1 {
      bytecode.Append(EXTENDED_ARG);
      bytecode.Append(ByteAt(arg, unit));
    }
  }

  lemma OpParts(before: seq<byte>, opcode: byte, arg: nat)
    requires arg <= MAX_ARG
    ensures before + Prefix(arg, 0x100_0000) + Prefix(arg, 0x1_0000) + Prefix(arg, 0x100) + [opcode] + [ByteAt(arg, 1)]
         == before + Op(opcode, arg)
  {
    hide Prefix; hide ByteAt;
  }

  /** `_emit_op`; false if its assertion fails. */
  method EmitOp(bytecode: ByteArray, opcode: byte, arg: int) returns (ok: bool)
    modifies bytecode
    ensures ok == (0 <= arg <= MAX_ARG)
    ensures bytecode.data == old(bytecode.data) + if ok then Op(opcode, arg) else []
  {
    if !(0 <= arg <= MAX_ARG) {
      return false;
    }
    hide Prefix; hide ByteAt; hide Op;
    OpParts(bytecode.data, opcode, arg);
    EmitPrefix(bytecode, arg, 0x100_0000);
    EmitPrefix(bytecode, arg, 0x1_0000);
    EmitPrefix(bytecode, arg, 0x100);
    bytecode.Append(opcode);
    bytecode.Append(ByteAt(arg, 1));
    ok := true;
  }

  // ----- a machine -----

  /** What can stand on the stack: the function in the constants, an argument, a tuple of
      arguments, or the result of calling a function. */
  datatype Value = Target | Argument(index: nat) | TupleOf(items: seq<Value>) | CallOf(callee: Value, args: seq<Value>)

  datatype State = Running(stack: seq<Value>) | Returned(value: Value) | Stuck

  /** One instruction with its full argument. `limit` is `co_stacksize`, `n` the number of arguments. */
  function Exec(opcode: byte, arg: nat, stack: seq<Value>, n: nat, limit: nat): State {
    if opcode == LOAD_CONST then Push(stack, Target, arg == 0, limit)
    else if opcode == LOAD_FAST then Push(stack, Argument(arg), arg < n, limit)
    else if opcode == BUILD_TUPLE then
      if arg > |stack| then Stuck
      else Push(stack[..|stack| - arg], TupleOf(stack[|stack| - arg..]), true, limit)
    else if opcode == CALL_FUNCTION then
      if arg + 1 > |stack| then Stuck
      else
        var base := |stack| - arg;
        Push(stack[..base - 1], CallOf(stack[base - 1], stack[base..]), true, limit)
    else if opcode == RETURN_VALUE then
      if |stack| == 1 then Returned(stack[0]) else Stuck
    else Stuck
  }

  function Push(stack: seq<Value>, v: Value, ok: bool, limit: nat): State {
    if ok && |stack| + 1 <= limit then Running(stack + [v]) else Stuck
  }

  /** Fetch, fold EXTENDED_ARG prefixes into `high`, and execute. */
  function Run(code: seq<byte>, high: nat, stack: seq<Value>, n: nat, limit: nat): State
    decreases |code|
  {
    if |code| < 2 then Stuck
    else
      var opcode, arg, rest := code[0], high * 256 + code[1] as nat, code[2..];
      if opcode == EXTENDED_ARG then Run(rest, arg, stack, n, limit)
      else
        var s := Exec(opcode, arg, stack, n, limit);
        if s.Running? then Run(rest, 0, s.stack, n, limit) else s
  }

  /** Prefixes and opcode together run as one instruction with the full argument. */
  lemma OpRuns(opcode: byte, arg: nat, rest: seq<byte>, stack: seq<Value>, n: nat, limit: nat)
    requires opcode != EXTENDED_ARG && arg <= MAX_ARG
    ensures var s := Exec(opcode, arg, stack, n, limit);
      Run(Op(opcode, arg) + rest, 0, stack, n, limit) == if s.Running? then Run(rest, 0, s.stack, n, limit) else s
  {
    hide Exec; hide Run; hide Prefix; hide ByteAt;
    var last := [opcode, ByteAt(arg, 1)];
    var t1 := Prefix(arg, 0x100) + (last + rest);
    var t2 := Prefix(arg, 0x1_0000) + t1;
    assert Op(opcode, arg) + rest == Prefix(arg, 0x100_0000) + t2;
    var h3, h2, h1 := arg / 0x100_0000, arg / 0x1_0000, arg / 0x100;
    PrefixRuns(arg, 0x100_0000, t2, stack, n, limit);
    PrefixRuns(arg, 0x1_0000, t1, stack, n, limit);
    PrefixRuns(arg, 0x100, last + rest, stack, n, limit);
    Quotients(arg);
    Last(opcode, ByteAt(arg, 1), rest, h1, stack, n, limit);
  }

  /** How the parts of an argument build up. */
  lemma Quotients(arg: nat)
    requires arg <= MAX_ARG
    ensures arg / 0x100_0000 / 0x100 == 0 && arg / 0x1_0000 / 0x100 == arg / 0x100_0000
    ensures arg / 0x100 / 0x100 == arg / 0x1_0000 && arg / 0x100 * 256 + ByteAt(arg, 1) as nat == arg
  {
  }

  /** A prefix, or its absence, adds the byte at `unit` to the part of the argument above. */
  lemma PrefixRuns(arg: nat, unit: nat, rest: seq<byte>, stack: seq<Value>, n: nat, limit: nat)
    requires unit > 0
    ensures Run(Prefix(arg, unit) + rest, arg / unit / 0x100, stack, n, limit) == Run(rest, arg / unit, stack, n, limit)
  {
    hide Run; hide ByteAt;
    LowByte(arg, unit);
    if arg >= unit {
      Extend(ByteAt(arg, unit), rest, arg / unit / 0x100, stack, n, limit);
    } else {
      SmallQuotient(arg, unit);
      assert [] + rest == rest;
    }
  }

  lemma Extend(b: byte, rest: seq<byte>, high: nat, stack: seq<Value>, n: nat, limit: nat)
    ensures Run([EXTENDED_ARG, b] + rest, high, stack, n, limit) == Run(rest, high * 256 + b as nat, stack, n, limit)
  {
    assert ([EXTENDED_ARG, b] + rest)[2..] == rest;
  }

  lemma LowByte(arg: nat, unit: nat)
    requires unit > 0
    ensures arg / unit == arg / unit / 0x100 * 256 + ByteAt(arg, unit) as nat
  {
  }

  lemma SmallQuotient(arg: nat, unit: nat)
    requires arg < unit
    ensures arg / unit == 0
  {
  }

  lemma Last(opcode: byte, b: byte, rest: seq<byte>, high: nat, stack: seq<Value>, n: nat, limit: nat)
    requires opcode != EXTENDED_ARG
    ensures var s := Exec(opcode, high * 256 + b as nat, stack, n, limit);
      Run([opcode, b] + rest, high, stack, n, limit) == if s.Running? then Run(rest, 0, s.stack, n, limit) else s
  {
    hide Exec;
    assert ([opcode, b] + rest)[2..] == rest;
  }

  /** Arguments `lo` to `hi`. */
  function Arguments(lo: nat, hi: nat): seq<Value>
    requires lo <= hi
  {
    seq(hi - lo, k requires 0 <= k => Argument(lo + k))
  }

  lemma ArgumentsGrow(i: nat)
    ensures [Target] + Arguments(0, i) + [Argument(i)] == [Target] + Arguments(0, i + 1)
    ensures |[Target] + Arguments(0, i)| == i + 1
  {
  }

  lemma LoadsStep(i: nat, n: nat, rest: seq<byte>)
    requires i < n <= MAX_ARG + 1
    ensures Loads(i, n) + rest == Op(LOAD_FAST, i) + (Loads(i + 1, n) + rest)
  {
    hide Op;
  }

  lemma FastRuns(i: nat, stack: seq<Value>, n: nat, limit: nat)
    requires i < n && |stack| < limit
    ensures Exec(LOAD_FAST, i, stack, n, limit) == Running(stack + [Argument(i)])
  {
  }

  lemma {:induction false} LoadsRun(i: nat, n: nat, rest: seq<byte>, limit: nat)
    requires i <= n <= MAX_ARG + 1 && n + 1 <= limit
    ensures Run(Loads(i, n) + rest, 0, [Target] + Arguments(0, i), n, limit)
         == Run(rest, 0, [Target] + Arguments(0, n), n, limit)
    decreases n - i
  {
    hide Run; hide Op; hide Exec; hide Arguments;
    if i == n {
      assert Loads(i, n) + rest == rest;
    } else {
      hide Loads;
      var stack := [Target] + Arguments(0, i);
      LoadsStep(i, n, rest);
      ArgumentsGrow(i);
      OpRuns(LOAD_FAST, i, Loads(i + 1, n) + rest, stack, n, limit);
      FastRuns(i, stack, n, limit);
      LoadsRun(i + 1, n, rest, limit);
    }
  }

  /** Whatever the number of arguments, the code returns the call of the target with the
      class and the tuple of the others, and the stack never holds more than `co_stacksize`. */
  lemma CallsTarget(argcount: nat)
    requires 1 <= argcount <= MAX_ARG + 1
    ensures Run(Code(argcount), 0, [], argcount, StackSize(argcount))
         == Returned(CallOf(Target, [Argument(0), TupleOf(Arguments(1, argcount))]))
  {
    hide Run; hide Op; hide Loads; hide Exec;
    var limit, n := StackSize(argcount), argcount;
    var build := Finish(argcount);
    OpRuns(LOAD_CONST, 0, Loads(0, n) + build, [], n, limit);
    ConstRuns(n, limit);
    assert [] + [Target] == [Target] + Arguments(0, 0);
    LoadsRun(0, n, build, limit);
    FinishRuns(argcount);
  }

  lemma ConstRuns(n: nat, limit: nat)
    requires limit > 0
    ensures Exec(LOAD_CONST, 0, [], n, limit) == Running([] + [Target])
  {
  }

  lemma TupleRuns(items: seq<Value>, n: nat, limit: nat)
    requires 3 <= limit
    ensures Exec(BUILD_TUPLE, |items|, [Target, Argument(0)] + items, n, limit)
         == Running([Target, Argument(0), TupleOf(items)])
  {
    var stack := [Target, Argument(0)] + items;
    assert stack[..2] == [Target, Argument(0)] && stack[2..] == items;
  }

  lemma CallRuns(tuple: Value, n: nat, limit: nat)
    requires 1 <= limit
    ensures Exec(CALL_FUNCTION, 2, [Target, Argument(0), tuple], n, limit)
         == Running([CallOf(Target, [Argument(0), tuple])])
  {
    var stack := [Target, Argument(0), tuple];
    assert stack[1..] == [Argument(0), tuple] && stack[..0] == [];
  }

  lemma ReturnRuns(result: Value, n: nat, limit: nat)
    ensures Exec(RETURN_VALUE, 0, [result], n, limit) == Returned(result)
  {
  }

  lemma FirstArgument(n: nat)
    requires n >= 1
    ensures |Arguments(1, n)| == n - 1
    ensures [Target] + Arguments(0, n) == [Target, Argument(0)] + Arguments(1, n)
  {
  }

  lemma FinishRuns(argcount: nat)
    requires 1 <= argcount <= MAX_ARG + 1
    ensures Run(Finish(argcount), 0, [Target] + Arguments(0, argcount), argcount, StackSize(argcount))
         == Returned(CallOf(Target, [Argument(0), TupleOf(Arguments(1, argcount))]))
  {
    hide Run; hide Op; hide Exec; hide Arguments;
    var limit, n, items := StackSize(argcount), argcount, Arguments(1, argcount);
    var ret := Op(RETURN_VALUE, 0);
    var call := Op(CALL_FUNCTION, 2) + ret;
    var result := CallOf(Target, [Argument(0), TupleOf(items)]);
    FirstArgument(n);
    OpRuns(BUILD_TUPLE, n - 1, call, [Target, Argument(0)] + items, n, limit);
    TupleRuns(items, n, limit);
    OpRuns(CALL_FUNCTION, 2, ret, [Target, Argument(0), TupleOf(items)], n, limit);
    CallRuns(TupleOf(items), n, limit);
    OpRuns(RETURN_VALUE, 0, [], [result], n, limit);
    ReturnRuns(result, n, limit);
    assert ret + [] == ret;
  }

  /** `nlocals + 1`, where `nlocals` is `argcount + 1` */
  function StackSize(argcount: nat): nat {
    argcount + 2
  }

  lemma {:induction false} LoadsGrow(i: nat, n: nat)
    requires i <= n <= MAX_ARG
    ensures Loads(i, n + 1) == Loads(i, n) + Op(LOAD_FAST, n)
    decreases n - i
  {
    hide Op;
    if i < n {
      LoadsGrow(i + 1, n);
      var first, last := Op(LOAD_FAST, i), Op(LOAD_FAST, n);
      assert first + (Loads(i + 1, n) + last) == first + Loads(i + 1, n) + last;
    } else {
      assert Loads(n + 1, n + 1) == [] && Op(LOAD_FAST, n) + [] == Op(LOAD_FAST, n) == [] + Op(LOAD_FAST, n);
    }
  }

  lemma LoadsNone()
    ensures Loads(0, 0) == []
  {
  }

  lemma Assoc(a: seq<byte>, b: seq<byte>, c: seq<byte>)
    ensures a + b + c == a + (b + c)
  {
  }

  lemma CodeInOrder(n: nat)
    requires 1 <= n <= MAX_ARG + 1
    ensures Code(n)
         == Op(LOAD_CONST, 0) + Loads(0, n) + Op(BUILD_TUPLE, n - 1) + Op(CALL_FUNCTION, 2) + Op(RETURN_VALUE, 0)
  {
    hide Op; hide Loads;
  }

  /** The code for no arguments but the class, and an instruction with three prefixes. */
  lemma LiteralCode()
    ensures Code(1) == [100, 0, 124, 0, 102, 0, 131, 2, 83, 0]
    ensures Op(124, 0x1234_5678) == [144, 0x12, 144, 0x34, 144, 0x56, 124, 0x78]
  {
    LiteralOps();
    assert Loads(1, 1) == [];
    assert Loads(0, 1) == Op(124, 0) + [];
    OpBytes(0x1234_5678);
  }

  lemma LiteralOps()
    ensures Op(100, 0) == [100, 0] && Op(124, 0) == [124, 0] && Op(102, 0) == [102, 0] && Op(131, 2) == [131, 2]
    ensures Op(83, 0) == [83, 0]
  {
  }

  lemma OpBytes(arg: nat)
    requires 0x100_0000 <= arg <= MAX_ARG
    ensures Op(124, arg) == [144, (arg / 0x100_0000) as byte, 144, (arg / 0x1_0000 % 0x100) as byte,
                             144, (arg / 0x100 % 0x100) as byte, 124, (arg % 0x100) as byte]
  {
  }

  /** `_make_dunder_new`, for `args` names besides `_cls`; it fails only on an assertion
      about an argument that does not fit in 32 bits. */
  method MakeDunderNew(args: nat) returns (code: Option<seq<byte>>, nlocals: nat, stacksize: nat)
    ensures code == if args <= MAX_ARG then Some(Code(args + 1)) else None
    ensures code.Some? ==> nlocals == args + 2 && stacksize == args + 3
  {
    hide Op; hide Loads; hide Code;
    var argcount := args + 1;
    nlocals, stacksize := argcount + 1, StackSize(argcount);
    var bytecode := new ByteArray();
    var ok := EmitOp(bytecode, LOAD_CONST, 0);
    assert bytecode.data == Op(LOAD_CONST, 0);
    var i := 0;
    LoadsNone();
    while i < argcount
      invariant i <= argcount && i <= MAX_ARG + 1
      invariant bytecode.data == Op(LOAD_CONST, 0) + Loads(0, i)
    {
      ok := EmitOp(bytecode, LOAD_FAST, i);
      if !ok {
        return None, nlocals, stacksize;
      }
      LoadsGrow(0, i);
      Assoc(Op(LOAD_CONST, 0), Loads(0, i), Op(LOAD_FAST, i));
      i := i + 1;
    }
    var build := EmitOp(bytecode, BUILD_TUPLE, argcount - 1);
    var call := EmitOp(bytecode, CALL_FUNCTION, 2);
    var ret := EmitOp(bytecode, RETURN_VALUE, 0);
    CodeInOrder(argcount);
    code := Some(bytecode.data);
  }
}
