/** The interpreter on the flat frame stack: the dispatch loop and its handlers. Values that the runtime
    computes are parameters. */
module Interpreter {
  import opened Bytecode
  import opened Verifier
  import opened MaxStack
  import opened Frames
  import opened Runs
  import opened Rooms
  import opened Variables

  /** How a handler ends: normally, with the last END, with an exception, by a use of a slot outside of the array,
      which is undefined in the source, or by a store over a word that is no variable of the activation. */
  datatype Signal = Continue | Return | Throw | OutsideArray | Stray

  /** What the runtime answers to an instruction: its value, and how it has moved objects if it allocates. */
  datatype Answer = Answer(result: int, move: int -> int)

  /** A move changes no integer, and no address of the stack or of the code. */
  ghost predicate MoveOk(move: int -> int, stack: FrameStack, size: nat) {
    KeepsIntegers(move) && FixesSaved(move, stack.base, stack.stack_data.Length, stack.code, size)
  }

  /** The instruction has its operands, and its bytes are inside the code. */
  ghost predicate Ready(code: seq<Byte>, s: State) {
    && s.Running? && s.frames != [] && s.pc < |code|
    && InFragment(code[s.pc])
    && s.pc + 1 + 4 * ArgCount(OpOf(code[s.pc])) <= |code|
    && Operands(code, s.pc, OpOf(code[s.pc])) <= |Last(s.frames).cells|
    && (Last(s.frames).ra >= 0 ==> |s.frames| > 1)
    && Last(s.frames).ra >= -1
  }

  // Where a round stops.

  /** What a stop depends on besides the state: the first slot without frames, the strings and the length. */
  datatype Layout = Layout(origin: int, strings: nat, length: nat)

  /** The slot that get_global, get_local and get_arg compute. */
  function VariableSlot(l: Layout, s: State, kind: int, index: nat): int
    requires s.Running? && s.frames != []
  {
    var fp := TopOf(s.frames, l.origin) + |Last(s.frames).cells|;
    if kind == 0 then GlobalSlot(l.length, l.strings, index)
    else if kind == 1 then fp - index
    else fp + 4 + index
  }

  predicate IsSlot(l: Layout, i: int) {
    0 <= i < l.length
  }

  /** The instruction pushes a word before it has popped one; SEXP pushes the tag. */
  predicate Grows(code: seq<Byte>, i: nat, op: Op)
    requires i + 1 + 4 * ArgCount(op) <= |code|
  {
    op == CONST || op == DUP || op == LD || op == SEXP || (Computes(op) && Operands(code, i, op) == 0)
  }

  /** A binary operator that does not exist, or a division or remainder by zero. */
  predicate BadBinop(b: Byte, cells: seq<int>)
    requires cells != []
  {
    var kind := LowBits(b);
    kind == 0 || kind > 13 || ((kind == 4 || kind == 5) && cells[|cells| - 1] / 2 == 0)
  }

  /** The handler throws: FAIL, no room for the packed depth and the locals, or no such operation. */
  ghost predicate Raises(code: seq<Byte>, l: Layout, s: State)
    requires Ready(code, s)
  {
    var op := OpOf(code[s.pc]);
    || op == FAIL
    || ((op == BEGIN || op == CBEGIN)
        && TopOf(s.frames, l.origin) + 1 < MaxStackOf(code, s.pc) + Arg(code, s.pc, 1))
    || (op == BINOP && BadBinop(code[s.pc], Last(s.frames).cells))
    || (op == PATT && LowBits(code[s.pc]) > 6)
  }

  /** A word outside of the array is read or written. */
  ghost predicate Overruns(code: seq<Byte>, l: Layout, s: State)
    requires Ready(code, s)
  {
    var op, top := OpOf(code[s.pc]), TopOf(s.frames, l.origin);
    || (Grows(code, s.pc, op) && top < 0)
    || (op == CALL && top < 2)
    || (Accesses(op) && !IsSlot(l, VariableSlot(l, s, LowBits(code[s.pc]), Arg(code, s.pc, 0))))
  }

  /** A store hits a word of the array that is no variable of the activation: a global or argument that does
      not exist. */
  ghost predicate Strays(code: seq<Byte>, l: Layout, s: State)
    requires Ready(code, s)
  {
    && OpOf(code[s.pc]) == ST
    && var kind, index := LowBits(code[s.pc]), Arg(code, s.pc, 0);
       && IsSlot(l, VariableSlot(l, s, kind, index))
       && ((kind == 0 && index >= |s.globals|) || (kind == 2 && index >= |Last(s.frames).args|))
  }

  /** END of the activation that interpret has made. */
  ghost predicate Leaves(code: seq<Byte>, s: State)
    requires Ready(code, s)
  {
    OpOf(code[s.pc]) == END && Last(s.frames).ra < 0
  }

  /** The round goes on to another one. */
  ghost predicate Proceeds(code: seq<Byte>, l: Layout, s: State) {
    Ready(code, s) && !Raises(code, l, s) && !Overruns(code, l, s) && !Strays(code, l, s) && !Leaves(code, s)
  }

  /** The outcome of a round that starts in the state `s`. */
  ghost predicate OutcomeIs(out: Signal, code: seq<Byte>, l: Layout, s: State)
    requires Ready(code, s)
  {
    match out
    case Throw => Raises(code, l, s)
    case OutsideArray => Overruns(code, l, s)
    case Stray => Strays(code, l, s)
    case Return => Leaves(code, s)
    case Continue => Proceeds(code, l, s)
  }

  /** No state has two outcomes. */
  lemma OneOutcome(code: seq<Byte>, l: Layout, s: State, out: Signal, out': Signal)
    requires Ready(code, s) && OutcomeIs(out, code, l, s) && OutcomeIs(out', code, l, s)
    ensures out == out'
  {
    hide ArgCount, U32, VariableSlot, BadBinop;
  }

  // Every handler is one step.

  lemma ShufflesStep(code: seq<Byte>, origin: int, s: State, s': State)
    requires Ready(code, s) && Moves(OpOf(code[s.pc]))
    requires Shuffles(code, s, s', OpOf(code[s.pc]), s.pc + 1 + 4 * ArgCount(OpOf(code[s.pc])))
    ensures Step(code, origin, s, s')
  {
  }

  lemma SwapCells(cells: seq<int>)
    requires |cells| >= 2
    ensures var n := |cells|;
            cells[..n - 1][..n - 2] + [cells[n - 1]] + [cells[n - 2]] == cells[..n - 2] + [cells[n - 1], cells[n - 2]]
  {
  }

  /** The new state after `k` operands have been replaced by `result`. */
  ghost predicate Replaced(s: State, s': State, k: nat, next: nat, result: int)
    requires s.Running? && s.frames != [] && k <= |Last(s.frames).cells|
  {
    s' == Running(next, WithCells(s.frames, Last(s.frames).cells[..|Last(s.frames).cells| - k] + [result]), s.globals)
  }

  lemma ReplacedReplaces(s: State, s': State, k: nat, next: nat, result: int)
    requires s.Running? && s.frames != [] && k <= |Last(s.frames).cells| && Replaced(s, s', k, next, result)
    ensures Replaces(s, s', k, next, false)
  {
  }

  lemma ComputesStep(code: seq<Byte>, origin: int, s: State, s': State, result: int)
    requires Ready(code, s) && Computes(OpOf(code[s.pc])) && !Allocates(OpOf(code[s.pc]))
    requires Replaced(s, s', Operands(code, s.pc, OpOf(code[s.pc])), s.pc + 1 + 4 * ArgCount(OpOf(code[s.pc])), result)
    ensures Step(code, origin, s, s')
  {
    hide Replaced, Replaces, Operands, ArgCount, OpOf, U32, InFragment;
    var op := OpOf(code[s.pc]);
    ReplacedReplaces(s, s', Operands(code, s.pc, op), s.pc + 1 + 4 * ArgCount(op), result);
    ComputesIsStep(code, origin, s, s');
  }

  lemma ComputesIsStep(code: seq<Byte>, origin: int, s: State, s': State)
    requires Ready(code, s) && Computes(OpOf(code[s.pc]))
    requires var op := OpOf(code[s.pc]);
             Replaces(s, s', Operands(code, s.pc, op), s.pc + 1 + 4 * ArgCount(op), Allocates(op))
    ensures Step(code, origin, s, s')
  {
    hide Replaces, Operands, ArgCount, OpOf, U32, InFragment;
  }

  /** The same for an instruction that allocates: everything that is kept has been moved. */
  lemma AllocatesStep(code: seq<Byte>, origin: int, s: State, s': State, answer: Answer)
    requires Ready(code, s) && Computes(OpOf(code[s.pc])) && Allocates(OpOf(code[s.pc])) && KeepsIntegers(answer.move)
    requires var op := OpOf(code[s.pc]);
             && s'.Running? && s'.pc == s.pc + 1 + 4 * ArgCount(op)
             && ReplacedBy(s, s', Operands(code, s.pc, op), answer.result, answer.move)
    ensures Step(code, origin, s, s')
  {
    hide ReplacedBy, Operands, ArgCount, OpOf, U32, InFragment;
    var op := OpOf(code[s.pc]);
    MovedReplaces(s, s', Operands(code, s.pc, op), answer.result, answer.move);
    ComputesIsStep(code, origin, s, s');
  }

  lemma MovedReplaces(s: State, s': State, k: nat, result: int, f: int -> int)
    requires s.Running? && s'.Running? && s.frames != [] && k <= |Last(s.frames).cells|
    requires ReplacedBy(s, s', k, result, f)
    ensures Replaces(s, s', k, s'.pc, true)
  {
    var last := Last(s'.frames).cells;
    assert last[|last| - 1] == result;
    assert ReplacedBy(s, s', k, last[|last| - 1], f);
  }

  lemma ConstStep(code: seq<Byte>, origin: int, s: State, s': State)
    requires Ready(code, s) && OpOf(code[s.pc]) == CONST && Replaced(s, s', 0, s.pc + 5, Box(Arg(code, s.pc, 0)))
    ensures Step(code, origin, s, s')
  {
  }

  lemma LoadStep(code: seq<Byte>, origin: int, s: State, s': State, value: int)
    requires Ready(code, s) && OpOf(code[s.pc]) == LD && Replaced(s, s', 0, s.pc + 5, value)
    requires VariableHolds(s, LowBits(code[s.pc]), Arg(code, s.pc, 0), value)
    ensures Step(code, origin, s, s')
  {
  }

  /** A variable that exists has the value. */
  ghost predicate VariableHolds(s: State, kind: int, index: nat, value: int)
    requires s.Running? && s.frames != []
  {
    && (kind == 0 && index < |s.globals| ==> value == s.globals[index])
    && (kind == 1 && index < |Last(s.frames).cells| ==> value == Last(s.frames).cells[index])
    && (kind == 2 && index < |Last(s.frames).args| ==> value == Last(s.frames).args[index])
  }

  lemma StoreStep(code: seq<Byte>, origin: int, s: State, s': State)
    requires Ready(code, s) && OpOf(code[s.pc]) == ST && Stores(code, s, s', s.pc + 5)
    ensures Step(code, origin, s, s')
  {
  }

  lemma BeginStep(code: seq<Byte>, origin: int, s: State, s': State)
    requires Ready(code, s) && (OpOf(code[s.pc]) == BEGIN || OpOf(code[s.pc]) == CBEGIN)
    requires Begins(code, origin, s, s', s.pc + 9)
    ensures Step(code, origin, s, s')
  {
  }

  lemma CallStep(code: seq<Byte>, origin: int, s: State, s': State)
    requires Ready(code, s) && OpOf(code[s.pc]) == CALL && Calls(code, s, s', s.pc + 9)
    ensures Step(code, origin, s, s')
  {
  }

  lemma EndStep(code: seq<Byte>, origin: int, s: State, s': State)
    requires Ready(code, s) && OpOf(code[s.pc]) == END && Ends(s, s')
    ensures Step(code, origin, s, s')
  {
  }

  class Machine {
    const code: seq<Byte>
    const stack: FrameStack
    var pc: nat

    ghost function State(): State
      requires stack.Valid()
      reads this, stack, stack.stack_data
    {
      Running(pc, stack.frames, stack.Globals())
    }

    ghost function Shape(): Layout
      reads this, stack
    {
      Layout(stack.origin, stack.strings, stack.stack_data.Length)
    }

    constructor (code: seq<Byte>, stack: FrameStack)
      ensures this.code == code && this.stack == stack && pc == 0
    {
      this.code, this.stack, pc := code, stack, 0;
    }

    /** The instruction at the program counter is `op`, and can be executed. */
    ghost predicate At(op: Op)
      reads this, stack, stack.stack_data
    {
      stack.Valid() && Ready(code, State()) && OpOf(code[pc]) == op
    }

    method StackDrop()
      requires At(DROP)
      modifies this`pc, stack, stack.stack_data
      ensures stack.Valid() && Step(code, stack.origin, old(State()), State())
    {
      hide FrameStack.Valid, Step;
      ghost var s := State();
      stack.PopOps(1);
      pc := pc + 1;
      ShufflesStep(code, stack.origin, s, State());
    }

    method StackDup() returns (out: Signal)
      requires At(DUP)
      modifies this`pc, stack, stack.stack_data
      ensures out == if old(stack.top) < 0 then OutsideArray else Continue
      ensures out.Continue? ==> stack.Valid() && Step(code, stack.origin, old(State()), State())
    {
      hide FrameStack.Valid, Step;
      ghost var s := State();
      if stack.top < 0 {
        return OutsideArray;
      }
      var a := stack.PeekOp(0);
      stack.PushOp(a);
      pc := pc + 1;
      ShufflesStep(code, stack.origin, s, State());
      out := Continue;
    }

    method StackSwap()
      requires At(SWAP)
      modifies this`pc, stack, stack.stack_data
      ensures stack.Valid() && Step(code, stack.origin, old(State()), State())
    {
      hide FrameStack.Valid, Step, WithCells;
      ghost var s, cells := State(), Last(stack.frames).cells;
      ghost var n := |cells|;
      WithCellsTwice(s.frames, cells[..n - 1], cells[..n - 1][..n - 2]);
      WithCellsTwice(s.frames, cells[..n - 1][..n - 2], cells[..n - 1][..n - 2] + [cells[n - 1]]);
      WithCellsTwice(s.frames, cells[..n - 1][..n - 2] + [cells[n - 1]],
                     cells[..n - 1][..n - 2] + [cells[n - 1]] + [cells[n - 2]]);
      SwapCells(cells);
      var a := stack.PeekOp(0);
      stack.PopOps(1);
      var b := stack.PeekOp(0);
      stack.PopOps(1);
      stack.PushOp(a);
      stack.PushOp(b);
      pc := pc + 1;
      ShufflesStep(code, stack.origin, s, State());
    }

    method StackConst() returns (out: Signal)
      requires At(CONST)
      modifies this`pc, stack, stack.stack_data
      ensures out == if old(stack.top) < 0 then OutsideArray else Continue
      ensures out.Continue? ==> stack.Valid() && Step(code, stack.origin, old(State()), State())
    {
      hide FrameStack.Valid, Step, U32;
      ghost var s := State();
      if stack.top < 0 {
        return OutsideArray;
      }
      stack.PushOp(Box(Arg(code, pc, 0)));
      pc := pc + 5;
      assert Last(s.frames).cells[..|Last(s.frames).cells| - 0] == Last(s.frames).cells;
      ConstStep(code, stack.origin, s, State());
      out := Continue;
    }

    /** CALL_WRITE, which leaves its operand, and LINE. */
    method Skip()
      requires At(CALL_WRITE) || At(LINE)
      modifies this`pc
      ensures stack.Valid() && Step(code, stack.origin, old(State()), State())
    {
      hide FrameStack.Valid, Step;
      ghost var s := State();
      pc := pc + if OpOf(code[pc]) == LINE then 5 else 1;
      ShufflesStep(code, stack.origin, s, State());
    }

    method Jump()
      requires At(JMP)
      modifies this`pc
      ensures stack.Valid() && Step(code, stack.origin, old(State()), State())
    {
      hide FrameStack.Valid, Step, U32;
      ghost var s := State();
      pc := Arg(code, pc, 0);
      ShufflesStep(code, stack.origin, s, State());
    }

    /** jump_if_zero and jump_if_not_zero. */
    method JumpIf(op: Op)
      requires At(op) && (op == CJMPz || op == CJMPnz)
      modifies this`pc, stack, stack.stack_data
      ensures stack.Valid() && Step(code, stack.origin, old(State()), State())
    {
      hide FrameStack.Valid, Step, U32;
      ghost var s := State();
      var a := stack.PeekOp(0);
      stack.PopOps(1);
      pc := if (a == ZERO) == (op == CJMPz) then Arg(code, pc, 0) else pc + 5;
      ShufflesStep(code, stack.origin, s, State());
    }

    /** get_global, get_local and get_arg, which only compute an address. */
    method ReadVariable(kind: int, index: nat) returns (ok: bool, value: int)
      requires stack.Valid() && stack.frames != [] && 0 <= kind <= 2
      ensures ok <==> IsSlot(Shape(), VariableSlot(Shape(), State(), kind, index))
      ensures ok ==> value == stack.stack_data[VariableSlot(Shape(), State(), kind, index)]
      ensures ok ==> VariableHolds(State(), kind, index, value)
    {
      hide FrameStack.Valid;
      PointersAre(stack);
      TopIs(stack);
      value := 0;
      var slot := if kind == 0 then GlobalSlot(stack.stack_data.Length, stack.strings, index)
                  else if kind == 1 then stack.fp.index - index
                  else stack.fp.index + 4 + index;
      ok := 0 <= slot < stack.stack_data.Length;
      if ok {
        value := stack.ReadSlot(slot);
        SlotHolds(stack, State(), kind, index, slot);
      }
    }

    /** The slot that a load or store goes to. */
    ghost function Accessed(): int
      requires stack.Valid() && Ready(code, State()) && Accesses(OpOf(code[pc]))
      reads this, stack, stack.stack_data
    {
      VariableSlot(Shape(), State(), LowBits(code[pc]), Arg(code, pc, 0))
    }

    method MemLoad() returns (out: Signal)
      requires At(LD)
      modifies this`pc, stack, stack.stack_data
      ensures out.Continue? || out.OutsideArray?
      ensures out.OutsideArray? <==> old(stack.top) < 0 || !old(IsSlot(Shape(), Accessed()))
      ensures out.Continue? ==> stack.Valid() && Step(code, stack.origin, old(State()), State())
    {
      hide FrameStack.Valid, Step, U32, VariableHolds, VariableSlot;
      ghost var s := State();
      LoadKind(code, s);
      var ok, value := ReadVariable(LowBits(code[pc]), Arg(code, pc, 0));
      if !ok || stack.top < 0 {
        return OutsideArray;
      }
      stack.PushOp(value);
      pc := pc + 5;
      assert Last(s.frames).cells[..|Last(s.frames).cells| - 0] == Last(s.frames).cells;
      LoadStep(code, stack.origin, s, State(), value);
      out := Continue;
    }

    /** A store below the existing locals falls into a free slot. */
    method MemStore() returns (out: Signal)
      requires At(ST)
      modifies this`pc, stack, stack.stack_data
      ensures out.Continue? || out.OutsideArray? || out.Stray?
      ensures out.OutsideArray? <==> !old(IsSlot(Shape(), Accessed()))
      ensures out.Stray? <==> old(Strays(code, Shape(), State()))
      ensures out.Stray? || out.OutsideArray? ==> !InRange(code, old(State()))
      ensures out.Continue? ==> stack.Valid() && Step(code, stack.origin, old(State()), State())
    {
      hide FrameStack.Valid, Step, U32, Stores, VariableSlot, InFragment, Operands;
      ghost var s := State();
      PointersAre(stack);
      TopIs(stack);
      LoadKind(code, s);
      var kind, index := LowBits(code[pc]), Arg(code, pc, 0);
      VariableIsSlot(stack, s, kind, index);
      SlotIs(stack, s, kind, index);
      var slot := if kind == 0 then GlobalSlot(stack.stack_data.Length, stack.strings, index)
                  else if kind == 1 then stack.fp.index - index
                  else stack.fp.index + 4 + index;
      if !(0 <= slot < stack.stack_data.Length) {
        return OutsideArray;
      }
      if (kind == 0 && index >= stack.globals) || (kind == 2 && index >= stack.argSizes[|stack.argSizes| - 1]) {
        return Stray;
      }
      var value := stack.PeekOp(0);
      if kind == 0 {
        stack.SetGlobal(index, value);
      } else if kind == 1 {
        if slot > stack.top {
          stack.SetLocal(index, value);
        } else {
          stack.WriteFree(slot, value);
        }
      } else {
        stack.SetArg(index, value);
      }
      pc := pc + 5;
      StoredAs(code, s, State(), value);
      StoreStep(code, stack.origin, s, State());
      out := Continue;
    }

    /** The instructions whose result is computed by the runtime, without a collection. */
    ghost predicate Unknown(op: Op)
      requires At(op)
      reads this, stack, stack.stack_data
    {
      (op == BINOP && BadBinop(code[pc], Last(stack.frames).cells)) || (op == PATT && LowBits(code[pc]) > 6)
    }

    method Compute(op: Op, result: int) returns (out: Signal)
      requires At(op) && Computes(op) && !Allocates(op)
      modifies this`pc, stack, stack.stack_data
      ensures out.Continue? || out.OutsideArray? || out.Throw?
      ensures out.OutsideArray? <==> old(Operands(code, pc, op) == 0 && stack.top < 0)
      ensures out.Throw? <==> old(Unknown(op))
      ensures out.Continue? ==> stack.Valid() && Step(code, stack.origin, old(State()), State())
    {
      hide FrameStack.Valid, Step, U32, Operands, ArgCount, OpOf, InFragment, Ready, Computes;
      hide Allocates, Replaced, WithCells;
      ReadyOperands(code, State(), op);
      ghost var s := State();
      if op == PATT && LowBits(code[pc]) > 6 {
        return Throw;
      }
      if op == BINOP {
        var last := stack.PeekOp(0);
        var kind := LowBits(code[pc]);
        if kind == 0 || kind > 13 || ((kind == 4 || kind == 5) && last / 2 == 0) {
          return Throw;
        }
      }
      var n := Operands(code, pc, op);
      if n == 0 && stack.top < 0 {
        return OutsideArray;
      }
      stack.PopOps(n);
      stack.PushOp(result);
      pc := pc + 1 + 4 * ArgCount(op);
      PoppedPushed(s, State(), n, pc, result);
      ComputesStep(code, stack.origin, s, State(), result);
      out := Continue;
    }

    /** SEXP and CALL_ARRAY: the operands are on the stack while the object is allocated, and a collection
        rewrites them with everything above them. */
    method Allocate(op: Op, answer: Answer) returns (out: Signal)
      requires At(op) && Computes(op) && Allocates(op)
      requires MoveOk(answer.move, stack, |code|) && ReturnsInside(stack.frames, |code|)
      modifies this`pc, stack, stack.stack_data
      ensures out.Continue? || out.OutsideArray?
      ensures out.OutsideArray? <==> old((op == SEXP || Operands(code, pc, op) == 0) && stack.top < 0)
      ensures out.Continue? ==> stack.Valid() && Step(code, stack.origin, old(State()), State())
    {
      hide FrameStack.Valid, Step, U32, Operands, ArgCount, OpOf, InFragment, Ready, Computes, Allocates;
      hide FixesSaved, ReturnsInside, KeepsIntegers, MapSeq, MapFrames, ReplacedBy, WithCells;
      ReadyOperands(code, State(), op);
      ghost var s := State();
      var n := Operands(code, pc, op);
      if (op == SEXP || n == 0) && stack.top < 0 {
        return OutsideArray;
      }
      stack.MoveObjects(answer.move, |code|);
      MappedSome(answer.move, s.frames, n);
      stack.PopOps(n);
      stack.PushOp(answer.result);
      pc := pc + 1 + 4 * ArgCount(op);
      MappedOperands(answer.move, s, State(), n, answer.result);
      AllocatesStep(code, stack.origin, s, State(), answer);
      out := Continue;
    }

    /** call_stack_begin. */
    method CallStackBegin() returns (out: Signal)
      requires At(BEGIN) || At(CBEGIN)
      modifies this`pc, stack, stack.stack_data
      ensures out.Continue? || out.Throw?
      ensures out.Throw? <==> old(stack.top) + 1 < MaxStackOf(code, old(pc)) + Arg(code, old(pc), 1)
      ensures out.Continue? ==> stack.Valid() && Step(code, stack.origin, old(State()), State())
    {
      hide FrameStack.Valid, Step, U32, InFragment, Operands, WithLast, Begins, OpOf;
      ghost var s := State();
      var locals, max := Arg(code, pc, 1), Arg(code, pc, 0) / 0x10000;
      ReadyBegin(code, s);
      TopIs(stack);
      if stack.top + 1 < max + locals {
        return Throw;
      }
      ghost var junk := stack.ReserveLocals(locals, pc);
      pc := pc + 9;
      BegunAs(code, stack.origin, s, State(), junk);
      BeginStep(code, stack.origin, s, State());
      out := Continue;
    }

    /** call_stack_call; nothing checks that the three words of the new frame fit. */
    method CallStackCall() returns (out: Signal)
      requires At(CALL)
      modifies this`pc, stack, stack.stack_data
      ensures out == if old(stack.top) < 2 then OutsideArray else Continue
      ensures out.Continue? ==> stack.Valid() && Step(code, stack.origin, old(State()), State())
    {
      hide FrameStack.Valid, Step, U32, Called;
      ghost var s := State();
      if stack.top < 2 {
        return OutsideArray;
      }
      stack.PushStackFrame(Arg(code, pc, 1), pc + 9, 0);
      pc := Arg(code, pc, 0);
      CallStep(code, stack.origin, s, State());
      out := Continue;
    }

    /** closures_call, with the offset found in the closure's code word: the closure is the operand under
        the arguments, and becomes the slot above them. */
    method ClosuresCall(jump: nat) returns (out: Signal)
      requires stack.Valid() && stack.frames != [] && pc + 5 <= |code|
      requires Arg(code, pc, 0) + 1 <= |Last(stack.frames).cells|
      modifies this`pc, stack, stack.stack_data
      ensures out == if old(stack.top) < 2 then OutsideArray else Continue
      ensures out.Continue? ==>
                && stack.Valid() && pc == jump
                && stack.frames == Called(old(stack.frames), Arg(code, old(pc), 0), old(pc) + 5, 1)
                && stack.Globals() == old(stack.Globals())
    {
      hide FrameStack.Valid, U32, Called;
      if stack.top < 2 {
        return OutsideArray;
      }
      stack.PushStackFrame(Arg(code, pc, 0), pc + 5, 1);
      pc := jump;
      out := Continue;
    }

    /** call_stack_end. */
    method CallStackEnd() returns (out: Signal)
      requires At(END)
      modifies this`pc, stack, stack.stack_data
      ensures out == if Last(old(stack.frames)).ra < 0 then Return else Continue
      ensures stack.Valid()
      ensures Step(code, stack.origin, old(State()), if out.Return? then Finished else State())
    {
      hide FrameStack.Valid, Step;
      ghost var s := State();
      CodeIs(stack);
      var value := stack.PeekOp(0);
      ghost var outer := s.frames[..|s.frames| - 1];
      var ra := stack.PopStackFrame();
      if ra == 0 {
        EndStep(code, stack.origin, s, Finished);
        return Return;
      }
      pc := ra - stack.code;
      TopIs(stack);
      stack.PushOp(value);
      EndStep(code, stack.origin, s, State());
      out := Continue;
    }

    /** One round of the dispatch loop. */
    method Dispatch(answer: Answer) returns (out: Signal)
      requires stack.Valid() && Ready(code, State())
      requires MoveOk(answer.move, stack, |code|) && ReturnsInside(stack.frames, |code|)
      modifies this`pc, stack, stack.stack_data
      ensures out.Continue? ==> stack.Valid() && Step(code, stack.origin, old(State()), State())
      ensures out.Return? ==> Step(code, stack.origin, old(State()), Finished)
      ensures old(OutcomeIs(out, code, Shape(), State()))
      ensures out.Stray? ==> !InRange(code, old(State()))
    {
      hide FrameStack.Valid, Step, OpOf, Ready, InRange, MoveOk, ReturnsInside, Raises, Overruns, Strays, Leaves;
      hide U32, Operands, ArgCount;
      AtDispatches(this);
      Stops(this);
      var op := OpOf(code[pc]);
      if op == CONST {
        out := StackConst();
      } else if op == JMP {
        Jump();
        out := Continue;
      } else if op == CJMPz || op == CJMPnz {
        JumpIf(op);
        out := Continue;
      } else if op == DROP {
        StackDrop();
        out := Continue;
      } else if op == DUP {
        out := StackDup();
      } else if op == LD {
        out := MemLoad();
      } else if op == ST {
        out := MemStore();
      } else if op == CALL_WRITE || op == LINE {
        Skip();
        out := Continue;
      } else if op == BEGIN || op == CBEGIN {
        out := CallStackBegin();
      } else if op == CALL {
        out := CallStackCall();
      } else if op == END {
        out := CallStackEnd();
      } else if op == SWAP {
        StackSwap();
        out := Continue;
      } else if op == FAIL {
        out := Throw;
      } else if op == SEXP || op == CALL_ARRAY {
        out := Allocate(op, answer);
      } else {
        out := Compute(op, answer.result);
      }
    }

    /** interpret, for as many rounds as there are answers. On sound code every state has the depths that
        the verifier found, and every load and store names a variable that exists. */
    method Interpret(answers: seq<Answer>, ghost entries: seq<int>, ghost v: seq<int>, ghost owner: seq<int>)
      returns (out: Signal, ghost run: seq<State>)
      requires stack.Valid() && stack.frames == [] && pc == 0
      requires Sound(code, entries, v, owner, stack.globals)
      requires forall i: nat :: i < |answers| ==> MoveOk(answers[i].move, stack, |code|)
      modifies this`pc, stack, stack.stack_data
      ensures run != [] ==> Initial(run[0]) && Run(code, stack.origin, run)
      ensures out.Continue? ==>
                run != [] && stack.Valid() && run[|run| - 1] == State() && DepthsRight(v, State())
                    && InRange(code, State())
      ensures out.Continue? ==> |run| == |answers| + 1
      ensures out.Return? ==> run != [] && run[|run| - 1] == Finished
      ensures run == [] <==> old(stack.top) < 2
      ensures run == [] ==> out.OutsideArray?
      ensures forall k: nat :: k + 1 < |run| && run[k + 1].Running? ==> Proceeds(code, old(Shape()), run[k])
      ensures run != [] && !out.Continue? && !out.Return? ==>
                Ready(code, run[|run| - 1]) && OutcomeIs(out, code, old(Shape()), run[|run| - 1])
      ensures !out.Stray?
    {
      hide FrameStack.Valid, Step, Sound, DepthsRight, InRange, Ready, MoveOk, ReturnsInside, Proceeds;
      hide Raises, Overruns, Strays, Leaves;
      if stack.top < 2 {
        return OutsideArray, [];
      }
      stack.PushStackFrame(0, -1, 0);
      run := [State()];
      SoundRun(code, entries, v, owner, stack.globals, stack.origin, run);
      for i := 0 to |answers|
        invariant stack.Valid() && run != [] && Initial(run[0]) && Run(code, stack.origin, run)
        invariant |run[0].globals| == stack.globals && |run| == i + 1
        invariant forall k: nat :: k + 1 < |run| ==> Proceeds(code, Shape(), run[k])
        invariant run[|run| - 1] == State() && DepthsRight(v, State()) && InRange(code, State())
      {
        RightIsReady(code, entries, v, owner, stack.globals, State());
        out := Dispatch(answers[i]);
        if out.Continue? || out.Return? {
          run := run + [if out.Return? then Finished else State()];
          SoundRun(code, entries, v, owner, stack.globals, stack.origin, run);
        }
        if !out.Continue? {
          return;
        }
      }
      out := Continue;
    }
  }

  lemma SoundRun(code: seq<Byte>, entries: seq<int>, v: seq<int>, owner: seq<int>, globals: nat, origin: int,
                 run: seq<State>)
    requires Sound(code, entries, v, owner, globals)
    requires run != [] && Initial(run[0]) && Run(code, origin, run) && |run[0].globals| == globals
    ensures DepthsRight(v, run[|run| - 1]) && InRange(code, run[|run| - 1])
  {
    hide Assignment, Covers, Owned, Supplied, AllExist, IsBegin, InRange, Run, DepthsRight;
    RunRight(code, entries, v, origin, run, |run| - 1);
    RunInRange(code, entries, v, owner, globals, origin, run, |run| - 1);
  }

  lemma ReadyOperands(code: seq<Byte>, s: State, op: Op)
    requires Ready(code, s) && OpOf(code[s.pc]) == op
    ensures s.frames != [] && s.pc + 1 + 4 * ArgCount(op) <= |code|
    ensures op == BINOP || op == PATT ==> Last(s.frames).cells != [] && Operands(code, s.pc, op) > 0
    ensures var n, cells := Operands(code, s.pc, op), Last(s.frames).cells;
            n <= |cells| && WithCells(s.frames, cells[..|cells| - n]) != []
  {
  }

  lemma PoppedPushed(s: State, s': State, n: nat, next: nat, result: int)
    requires s.Running? && s.frames != [] && n <= |Last(s.frames).cells|
    requires var kept := Last(s.frames).cells[..|Last(s.frames).cells| - n];
             var popped := WithCells(s.frames, kept);
             s' == Running(next, WithCells(popped, Last(popped).cells + [result]), s.globals)
    ensures Replaced(s, s', n, next, result)
  {
    var kept := Last(s.frames).cells[..|Last(s.frames).cells| - n];
    WithCellsTwice(s.frames, kept, kept + [result]);
  }

  lemma MappedSome(f: int -> int, frames: seq<Frame>, n: nat)
    requires frames != [] && n <= |Last(frames).cells|
    ensures MapFrames(f, frames) != [] && |Last(MapFrames(f, frames)).cells| == |Last(frames).cells|
    ensures WithCells(MapFrames(f, frames), Last(MapFrames(f, frames)).cells[..|Last(frames).cells| - n]) != []
  {
  }

  lemma MappedOperands(f: int -> int, s: State, s': State, n: nat, result: int)
    requires s.Running? && s'.Running? && s.frames != [] && n <= |Last(s.frames).cells| && KeepsIntegers(f)
    requires |Last(MapFrames(f, s.frames)).cells| == |Last(s.frames).cells|
    requires var moved := MapFrames(f, s.frames);
             var popped := WithCells(moved, Last(moved).cells[..|Last(moved).cells| - n]);
             s'.frames == WithCells(popped, Last(popped).cells + [result]) && s'.globals == MapSeq(f, s.globals)
    ensures ReplacedBy(s, s', n, result, f)
  {
    var cells, moved := Last(s.frames).cells, MapFrames(f, s.frames);
    var kept := Last(moved).cells[..|cells| - n];
    assert kept == MapSeq(f, cells[..|cells| - n]);
    WithCellsTwice(moved, kept, kept + [result]);
  }

  /** Where the round that begins now stops, in terms of the pointers of the stack. */
  lemma Stops(machine: Machine)
    requires machine.stack.Valid() && Ready(machine.code, machine.State())
    ensures var code, s, l, pc := machine.code, machine.State(), machine.Shape(), machine.pc;
            var op, top, cells := OpOf(code[pc]), machine.stack.top, Last(s.frames).cells;
            && (Raises(code, l, s) <==>
                || op == FAIL
                || ((op == BEGIN || op == CBEGIN) && top + 1 < MaxStackOf(code, pc) + Arg(code, pc, 1))
                || (op == BINOP && BadBinop(code[pc], cells))
                || (op == PATT && LowBits(code[pc]) > 6))
            && (Overruns(code, l, s) <==>
                || (Grows(code, pc, op) && top < 0)
                || (op == CALL && top < 2)
                || (Accesses(op) && !IsSlot(l, machine.Accessed())))
            && (op != ST ==> !Strays(code, l, s))
            && (Leaves(code, s) <==> op == END && Last(s.frames).ra < 0)
  {
    hide FrameStack.Valid, U32, OpOf, InFragment, VariableSlot;
    TopIs(machine.stack);
  }

  lemma AtDispatches(machine: Machine)
    requires machine.stack.Valid() && Ready(machine.code, machine.State())
    ensures machine.pc < |machine.code|
    ensures var op := OpOf(machine.code[machine.pc]);
            && machine.At(op)
            && (op == CONST || Moves(op) || op == LD || op == ST || op == BEGIN || op == CBEGIN || op == CALL
                || op == END || op == FAIL
                || Computes(op))
  {
  }

  lemma RightIsReady(code: seq<Byte>, entries: seq<int>, v: seq<int>, owner: seq<int>, globals: nat, s: State)
    requires Sound(code, entries, v, owner, globals) && s.Running? && DepthsRight(v, s)
    ensures Ready(code, s) && ReturnsInside(s.frames, |code|)
  {
    hide Assignment, OpOf, ArgCount, Operands, Owned, Supplied, AllExist, IsBegin;
    CurrentDepth(v, s);
    AssignmentLength(code, entries, v);
    assert DepthRight(v, s, |s.frames| - 1);
    forall k: nat | k < |s.frames| ensures -1 <= s.frames[k].ra < |code| {
      assert DepthRight(v, s, k);
      assert k > 0 ==> DepthRight(v, s, k - 1);
    }
  }

  lemma PointersAre(stack: FrameStack)
    requires stack.Valid() && stack.frames != []
    ensures stack.fp == Slot(stack.top + |Last(stack.frames).cells|) && -1 <= stack.top
    ensures |stack.argSizes| == |stack.frames| && stack.argSizes[|stack.argSizes| - 1] == |Last(stack.frames).args|
    ensures stack.fp.index < stack.stack_data.Length
  {
    hide Stands;
    TopAtLeast(stack.stack_data[..], stack.base, stack.code, stack.origin, stack.top, stack.fp, stack.argSizes,
               stack.frames);
  }

  /** The slot of a variable that exists holds it. */
  lemma SlotHolds(stack: FrameStack, s: State, kind: int, index: nat, slot: int)
    requires stack.Valid() && stack.frames != [] && s.Running? && s.frames == stack.frames
    requires s.globals == stack.Globals() && 0 <= slot < stack.stack_data.Length
    requires slot == VariableSlot(Layout(stack.origin, stack.strings, stack.stack_data.Length), s, kind, index)
    ensures VariableHolds(s, kind, index, stack.stack_data[slot])
  {
    hide Stands;
    PointersAre(stack);
    TopIs(stack);
    var m := stack.stack_data[..];
    if kind == 1 && index < |Last(s.frames).cells| {
      CellOf(m, stack.base, stack.code, stack.origin, stack.top, stack.fp, stack.argSizes, stack.frames, index);
    }
    if kind == 2 && index < |Last(s.frames).args| {
      ArgOf(m, stack.base, stack.code, stack.origin, stack.top, stack.fp, stack.argSizes, stack.frames, index);
    }
  }

  lemma SlotIs(stack: FrameStack, s: State, kind: int, index: nat)
    requires stack.Valid() && stack.frames != [] && s.Running? && s.frames == stack.frames && 0 <= kind <= 2
    ensures stack.fp.Slot?
    ensures VariableSlot(Layout(stack.origin, stack.strings, stack.stack_data.Length), s, kind, index) ==
            (if kind == 0 then GlobalSlot(stack.stack_data.Length, stack.strings, index)
             else if kind == 1 then stack.fp.index - index
             else stack.fp.index + 4 + index)
  {
    hide Stands;
    PointersAre(stack);
    TopIs(stack);
  }

  lemma ReadyBegin(code: seq<Byte>, s: State)
    requires Ready(code, s) && (OpOf(code[s.pc]) == BEGIN || OpOf(code[s.pc]) == CBEGIN)
    ensures s.frames != [] && s.pc + 9 <= |code|
  {
  }

  lemma BegunAs(code: seq<Byte>, origin: int, s: State, s': State, junk: seq<int>)
    requires s.Running? && s'.Running? && s.frames != [] && s.pc + 9 <= |code| && |junk| == Arg(code, s.pc, 1)
    requires TopOf(s.frames, origin) + 1 >= Arg(code, s.pc, 0) / 0x10000 + Arg(code, s.pc, 1)
    requires var f := Last(s.frames);
             s' == Running(s.pc + 9, WithLast(s.frames, f.(cells := f.cells + junk, reserved := f.reserved + |junk|,
                                                           begin := s.pc)), s.globals)
    ensures Begins(code, origin, s, s', s.pc + 9)
  {
    hide U32, TopOf;
    var f := Last(s.frames);
    assert (f.cells + junk)[|f.cells|..] == junk;
  }

  lemma StoredAs(code: seq<Byte>, s: State, s': State, value: int)
    requires Ready(code, s) && OpOf(code[s.pc]) == ST && value == Last(s.frames).cells[|Last(s.frames).cells| - 1]
    requires s'.Running? && s'.pc == s.pc + 5
    requires var kind, index := LowBits(code[s.pc]), Arg(code, s.pc, 0);
             || (kind == 0 && index < |s.globals| && s'.globals == s.globals[index := value] && s'.frames == s.frames)
             || (kind == 1 && s'.globals == s.globals
                 && s'.frames == if index < |Last(s.frames).cells|
                                 then WithCells(s.frames, Last(s.frames).cells[index := value]) else s.frames)
             || (kind == 2 && index < |Last(s.frames).args| && s'.globals == s.globals
                 && s'.frames == WithLast(s.frames,
                                          Last(s.frames).(args := Last(s.frames).args[index := value])))
    ensures Stores(code, s, s', s.pc + 5)
  {
  }

  /** A variable that exists lies in the array. */
  lemma VariableIsSlot(stack: FrameStack, s: State, kind: int, index: nat)
    requires stack.Valid() && stack.frames != [] && s.Running? && s.frames == stack.frames
    requires s.globals == stack.Globals() && 0 <= kind <= 2
    ensures var l := Layout(stack.origin, stack.strings, stack.stack_data.Length);
            && (kind == 0 && index < |s.globals| ==> IsSlot(l, VariableSlot(l, s, kind, index)))
            && (kind == 1 && index < |Last(s.frames).cells| ==> IsSlot(l, VariableSlot(l, s, kind, index)))
            && (kind == 2 && index < |Last(s.frames).args| ==> IsSlot(l, VariableSlot(l, s, kind, index)))
  {
    hide Stands;
    PointersAre(stack);
    TopIs(stack);
    var m := stack.stack_data[..];
    if kind == 1 && index < |Last(s.frames).cells| {
      CellOf(m, stack.base, stack.code, stack.origin, stack.top, stack.fp, stack.argSizes, stack.frames, index);
    }
    if kind == 2 && index < |Last(s.frames).args| {
      ArgOf(m, stack.base, stack.code, stack.origin, stack.top, stack.fp, stack.argSizes, stack.frames, index);
    }
  }

  lemma LoadKind(code: seq<Byte>, s: State)
    requires Ready(code, s) && (OpOf(code[s.pc]) == LD || OpOf(code[s.pc]) == ST)
    ensures s.pc + 5 <= |code| && 0 <= LowBits(code[s.pc]) <= 2
    ensures OpOf(code[s.pc]) == ST ==> Last(s.frames).cells != []
  {
  }

  lemma TopIs(stack: FrameStack)
    requires stack.Valid()
    ensures stack.top == TopOf(stack.frames, stack.origin) >= -1
  {
    TopInside(stack.stack_data[..], stack.base, stack.code, stack.frames, stack.origin);
  }

  lemma CodeIs(stack: FrameStack)
    requires stack.Valid()
    ensures stack.code > 0
  {
  }
}
