/** Runs of the interpreter on lists of frames, and what the verifier's depths say about them. */
module Runs {
  import opened Bytecode
  import opened Verifier
  import opened MaxStack
  import opened Packing
  import opened Frames

  datatype State = Running(pc: nat, frames: seq<Frame>, globals: seq<int>) | Finished

  /** The operands of an activation: its cells without its locals. */
  function OperandDepth(f: Frame): int {
    |f.cells| - f.reserved
  }

  // What an allocation may do: move every value, but no frame.

  predicate SameFrameShape(f: Frame, g: Frame) {
    && g.ra == f.ra && g.reserved == f.reserved && g.begin == f.begin
    && |g.args| == |f.args| && |g.closure| == |f.closure| && |g.cells| == |f.cells|
  }

  predicate SameShape(fs: seq<Frame>, gs: seq<Frame>) {
    |gs| == |fs| && forall k: nat :: k < |fs| ==> SameFrameShape(fs[k], gs[k])
  }

  /** The collector has moved objects: every word is mapped by one function. */
  ghost predicate Renamed(fs: seq<Frame>, gs: seq<Frame>) {
    exists f: int -> int :: KeepsIntegers(f) && gs == MapFrames(f, fs)
  }

  function Unmoved(x: int): int {
    x
  }

  lemma RenamedSelf(fs: seq<Frame>)
    ensures Renamed(fs, fs) && MapFrames(Unmoved, fs) == fs
  {
    forall i | 0 <= i < |fs| ensures MapFrame(Unmoved, fs[i]) == fs[i] {
      UnmovedSeq(fs[i].args);
      UnmovedSeq(fs[i].closure);
      UnmovedSeq(fs[i].cells);
    }
    assert KeepsIntegers(Unmoved) && MapFrames(Unmoved, fs) == fs;
  }

  lemma UnmovedSeq(s: seq<int>)
    ensures MapSeq(Unmoved, s) == s
  {
  }

  function Then(f: int -> int, g: int -> int): int -> int {
    (x: int) => g(f(x))
  }

  lemma SeqTwice(f: int -> int, g: int -> int, s: seq<int>)
    ensures MapSeq(g, MapSeq(f, s)) == MapSeq(Then(f, g), s)
  {
  }

  lemma IntegersTwice(f: int -> int, g: int -> int)
    requires KeepsIntegers(f) && KeepsIntegers(g)
    ensures KeepsIntegers(Then(f, g))
  {
  }

  lemma RenamedTwice(fs: seq<Frame>, gs: seq<Frame>, hs: seq<Frame>)
    requires Renamed(fs, gs) && Renamed(gs, hs)
    ensures Renamed(fs, hs)
  {
    hide KeepsIntegers, Then, MapSeq;
    var f: int -> int :| KeepsIntegers(f) && gs == MapFrames(f, fs);
    var g: int -> int :| KeepsIntegers(g) && hs == MapFrames(g, gs);
    IntegersTwice(f, g);
    forall i | 0 <= i < |fs| ensures hs[i] == MapFrame(Then(f, g), fs[i]) {
      SeqTwice(f, g, fs[i].args);
      SeqTwice(f, g, fs[i].closure);
      SeqTwice(f, g, fs[i].cells);
    }
    assert hs == MapFrames(Then(f, g), fs);
  }

  // Instructions.

  /** Closures, references and the string conversion are outside of the fragment. */
  predicate InFragment(b: Byte) {
    match OpOf(b)
    case CALL_STRING | LDA | STA | STI | CLOSURE | CALLC | RET | UNKNOWN => false
    case LD | ST => LowBits(b) <= 2
    case _ => true
  }

  predicate Allocates(op: Op) {
    op == SEXP || op == CALL_ARRAY
  }

  /** The operands that an instruction reads. */
  function Operands(code: seq<Byte>, i: nat, op: Op): nat
    requires i + 1 + 4 * ArgCount(op) <= |code|
  {
    match op
    case BINOP | ELEM | SWAP => 2
    case SEXP | CALL => Arg(code, i, 1)
    case CALL_ARRAY => Arg(code, i, 0)
    case CJMPz | CJMPnz | DROP | DUP | ST | CALL_WRITE | CALL_LENGTH | END | TAG | ARRAY => 1
    case PATT => if LowBits(code[i]) == 0 then 2 else 1
    case _ => 0
  }

  const ZERO := 1 // box_int(0)

  function Box(n: int): int {
    2 * n + 1
  }

  /** An allocation on the way has mapped every other word by `f`. */
  ghost predicate ReplacedBy(s: State, s': State, k: nat, result: int, f: int -> int)
    requires s.Running? && s'.Running? && s.frames != [] && k <= |Last(s.frames).cells|
  {
    var cells := Last(s.frames).cells;
    && KeepsIntegers(f)
    && s'.frames == WithCells(MapFrames(f, s.frames), MapSeq(f, cells[..|cells| - k]) + [result])
    && s'.globals == MapSeq(f, s.globals)
  }

  /** `k` operands are replaced by one value. */
  ghost predicate Replaces(s: State, s': State, k: nat, next: nat, moves: bool)
    requires s.Running? && s.frames != []
  {
    var cells := Last(s.frames).cells;
    && k <= |cells|
    && s'.Running? && s'.pc == next && s'.frames != [] && Last(s'.frames).cells != []
    && var result := Last(s'.frames).cells[|Last(s'.frames).cells| - 1];
       if moves then exists f: int -> int :: ReplacedBy(s, s', k, result, f)
       else s'.frames == WithCells(s.frames, cells[..|cells| - k] + [result]) && s'.globals == s.globals
  }

  ghost predicate Loads(code: seq<Byte>, s: State, s': State, next: nat)
    requires s.Running? && s.frames != [] && s.pc + 5 <= |code|
  {
    && Replaces(s, s', 0, next, false)
    && var kind, index, f := LowBits(code[s.pc]), Arg(code, s.pc, 0), Last(s.frames);
       var value := Last(s'.frames).cells[|f.cells|];
       && (kind == 0 && index < |s.globals| ==> value == s.globals[index])
       && (kind == 1 && index < |f.cells| ==> value == f.cells[index])
       && (kind == 2 && index < |f.args| ==> value == f.args[index])
  }

  /** A store below the locals that exist writes free slots; one past the arguments or globals is undefined. */
  ghost predicate Stores(code: seq<Byte>, s: State, s': State, next: nat)
    requires s.Running? && s.frames != [] && s.pc + 5 <= |code|
  {
    var kind, index, f := LowBits(code[s.pc]), Arg(code, s.pc, 0), Last(s.frames);
    && f.cells != []
    && var value := f.cells[|f.cells| - 1];
       || (kind == 0 && index < |s.globals| && s' == Running(next, s.frames, s.globals[index := value]))
       || (kind == 1 && index < |f.cells|
           && s' == Running(next, WithCells(s.frames, f.cells[index := value]), s.globals))
       || (kind == 1 && index >= |f.cells| && s' == Running(next, s.frames, s.globals))
       || (kind == 2 && index < |f.args|
           && s' == Running(next, WithLast(s.frames, f.(args := f.args[index := value])), s.globals))
  }

  ghost predicate Begins(code: seq<Byte>, origin: int, s: State, s': State, next: nat)
    requires s.Running? && s.frames != [] && s.pc + 9 <= |code|
  {
    var f, locals := Last(s.frames), Arg(code, s.pc, 1);
    && TopOf(s.frames, origin) + 1 >= Arg(code, s.pc, 0) / 0x10000 + locals
    && s'.Running? && s'.frames != [] && |Last(s'.frames).cells| == |f.cells| + locals
    && s' == Running(next, WithLast(s.frames, f.(cells := f.cells + Last(s'.frames).cells[|f.cells|..],
                                                 reserved := f.reserved + locals, begin := s.pc)), s.globals)
  }

  ghost predicate Ends(s: State, s': State)
    requires s.Running? && s.frames != []
  {
    var f, outer := Last(s.frames), s.frames[..|s.frames| - 1];
    && f.cells != []
    && if f.ra < 0 then s' == Finished
       else
         && outer != []
         && s' == Running(f.ra, WithCells(outer, Last(outer).cells + [f.cells[|f.cells| - 1]]), s.globals)
  }

  /** Instructions that only move operands or the program counter. */
  ghost predicate Shuffles(code: seq<Byte>, s: State, s': State, op: Op, next: nat)
    requires s.Running? && s.frames != [] && (IsBranch(op) ==> s.pc + 5 <= |code|)
  {
    var cells := Last(s.frames).cells;
    var n := |cells|;
    match op
    case DROP => n >= 1 && s' == Running(next, WithCells(s.frames, cells[..n - 1]), s.globals)
    case DUP => n >= 1 && s' == Running(next, WithCells(s.frames, cells + [cells[n - 1]]), s.globals)
    case SWAP => n >= 2 && s' ==
        Running(next, WithCells(s.frames, cells[..n - 2] + [cells[n - 1], cells[n - 2]]), s.globals)
    case CALL_WRITE => n >= 1 && s' == Running(next, s.frames, s.globals)
    case LINE => s' == Running(next, s.frames, s.globals)
    case JMP => s' == Running(Arg(code, s.pc, 0), s.frames, s.globals)
    case CJMPz | CJMPnz =>
      n >= 1 && s' == Running(if (cells[n - 1] == ZERO) == (op == CJMPz) then Arg(code, s.pc, 0) else next,
                              WithCells(s.frames, cells[..n - 1]), s.globals)
    case _ => false
  }

  ghost predicate Calls(code: seq<Byte>, s: State, s': State, next: nat)
    requires s.Running? && s.frames != [] && s.pc + 9 <= |code|
  {
    var n := Arg(code, s.pc, 1);
    n <= |Last(s.frames).cells| && s' == Running(Arg(code, s.pc, 0), Called(s.frames, n, next, 0), s.globals)
  }

  predicate Moves(op: Op) {
    op == DROP || op == DUP || op == SWAP || op == CALL_WRITE || op == LINE || Jumps(op)
  }

  /** Instructions whose one result is computed by the runtime: its value is not modelled. */
  predicate Computes(op: Op) {
    op == BINOP || op == STRING || op == SEXP || op == ELEM || op == TAG || op == ARRAY || op == PATT || op == CALL_READ
    || op == CALL_LENGTH || op == CALL_ARRAY
  }

  /** One round of the dispatch loop that does not throw. */
  ghost predicate Step(code: seq<Byte>, origin: int, s: State, s': State) {
    && s.Running? && s.frames != [] && s.pc < |code|
    && var op := OpOf(code[s.pc]);
       var next := s.pc + 1 + 4 * ArgCount(op);
       && InFragment(code[s.pc])
       && next <= |code|
       && if Moves(op) then Shuffles(code, s, s', op, next)
          else if op == LD then Loads(code, s, s', next)
          else if op == ST then Stores(code, s, s', next)
          else if op == BEGIN || op == CBEGIN then Begins(code, origin, s, s', next)
          else if op == CALL then Calls(code, s, s', next)
          else if op == END then Ends(s, s')
          else if op == CONST then Replaces(s, s', 0, next, false)
              && Last(s'.frames).cells[|Last(s.frames).cells|] == Box(Arg(code, s.pc, 0))
          else Computes(op) && Replaces(s, s', Operands(code, s.pc, op), next, Allocates(op))
  }

  ghost predicate Run(code: seq<Byte>, origin: int, run: seq<State>) {
    forall k: nat :: k + 1 < |run| ==> Step(code, origin, run[k], run[k + 1])
  }

  /** interpret: one frame without a return address, at offset 0. */
  ghost predicate Initial(s: State) {
    s.Running? && s.pc == 0 && s.frames == Called([], 0, -1, 0)
  }

  // Depths over runs.

  ghost predicate Covers(code: seq<Byte>, v: seq<int>) {
    forall i: nat :: i < |code| && Visited(v, i) ==>
      InFragment(code[i]) && i + 1 + 4 * ArgCount(OpOf(code[i])) <= |code| && Operands(code, i, OpOf(code[i])) <= v[i]
  }

  /** Where activation `k` goes on: at the program counter, or where the next one returns to. */
  function Resumes(s: State, k: nat): int
    requires s.Running? && k < |s.frames|
  {
    if k + 1 == |s.frames| then s.pc else s.frames[k + 1].ra
  }

  /** Activation `k` has, or will have when the call that it waits for returns, the depth found for that offset. */
  ghost predicate DepthRight(v: seq<int>, s: State, k: nat)
    requires s.Running? && k < |s.frames|
  {
    var at := Resumes(s, k);
    && 0 <= at < |v|
    && OperandDepth(s.frames[k]) + (if k + 1 == |s.frames| then 0 else 1) == v[at]
    && OperandDepth(s.frames[k]) >= 0
    && (if k == 0 then s.frames[k].ra == -1 else s.frames[k].ra >= 0)
  }

  ghost predicate DepthsRight(v: seq<int>, s: State) {
    s.Running? ==> s.frames != [] && forall k: nat :: k < |s.frames| ==> DepthRight(v, s, k)
  }

  /** The change of depth from an instruction to the one after it. */
  function Change(code: seq<Byte>, i: nat, op: Op): int
    requires i + 1 + 4 * ArgCount(op) <= |code|
  {
    match op
    case BINOP | ELEM | DROP | CJMPz | CJMPnz => -1
    case CONST | DUP | LD | CALL_READ | STRING => 1
    case SEXP | CALL => 1 - Arg(code, i, 1)
    case CALL_ARRAY => 1 - Arg(code, i, 0)
    case PATT => if LowBits(code[i]) == 0 then -1 else 0
    case _ => 0
  }

  predicate FallsThrough(op: Op) {
    op != JMP && op != END && op != FAIL && op != RET
  }

  predicate Jumps(op: Op) {
    op == JMP || op == CJMPz || op == CJMPnz
  }

  /** What an assignment says in terms of what an instruction takes and leaves. */
  lemma Flows(code: seq<Byte>, entries: seq<int>, v: seq<int>, i: nat)
    requires Assignment(code, entries, v) && Covers(code, v) && |code| <= INT32_MAX
    requires i < |code| && Visited(v, i)
    ensures var op := OpOf(code[i]);
            var next := i + 1 + 4 * ArgCount(op);
            && InFragment(code[i]) && next <= |code|
            && Operands(code, i, op) <= v[i] && v[i] + Change(code, i, op) >= 0
            && (FallsThrough(op) ==> Carries(v, (next, v[i] + Change(code, i, op))))
            && (Jumps(op) ==> Carries(v, (Arg(code, i, 0), v[i] + Change(code, i, op))))
            && (op == CALL ==> Carries(v, (Arg(code, i, 0), 0)))
  {
    var op := OpOf(code[i]);
    EdgesCarried(code, entries, v, i);
    hide U32, OpOf, Assignment, Covers, DepthAfter, Change, Carries, Decode;
    var next := i + 1 + 4 * ArgCount(op);
    var d := v[i] + Change(code, i, op);
    if FallsThrough(op) {
      assert (next, d) in Successors(code, i, op, next, d);
    }
    if Jumps(op) {
      assert (Arg(code, i, 0), d) in Successors(code, i, op, next, d);
    }
    if op == CALL {
      assert (Arg(code, i, 0), 0) in Successors(code, i, op, next, d);
    }
  }

  /** In the fragment the depth after an instruction is the one before plus its change. */
  lemma EdgesCarried(code: seq<Byte>, entries: seq<int>, v: seq<int>, i: nat)
    requires Assignment(code, entries, v) && Covers(code, v) && |code| <= INT32_MAX
    requires i < |code| && Visited(v, i)
    ensures var op := OpOf(code[i]);
            var next := i + 1 + 4 * ArgCount(op);
            && InFragment(code[i]) && next <= |code|
            && Operands(code, i, op) <= v[i]
            && v[i] + Change(code, i, op) >= 0
            && forall e :: e in Successors(code, i, op, next, v[i] + Change(code, i, op)) ==> Carries(v, e)
  {
    AssignedHere(code, entries, v, i);
    CoveredHere(code, v, i);
    hide Assignment, Covers, U32, OpOf, Operands, Change, DepthAfter, Successors, Carries, InFragment, Decode;
    hide Consistent, ArgCount;
    FragmentDecodes(code, i);
    ConsistentSays(code, v, i, OpOf(code[i]), i + 1 + 4 * ArgCount(OpOf(code[i])));
    DepthChanges(code, v[i], i, OpOf(code[i]));
  }

  lemma ConsistentSays(code: seq<Byte>, v: seq<int>, i: nat, op: Op, next: nat)
    requires |v| == |code| && Consistent(code, v, i) && Visited(v, i) && Decode(code, i) == Instr(op, next)
    ensures DepthAfter(code, v[i], i, op).Depth? && (IsBranch(op) ==> i + 5 <= |code|)
    ensures forall e :: e in Successors(code, i, op, next, DepthAfter(code, v[i], i, op).d) ==> Carries(v, e)
  {
    hide Decode, DepthAfter, Successors, Carries;
  }

  lemma AssignedHere(code: seq<Byte>, entries: seq<int>, v: seq<int>, i: nat)
    requires Assignment(code, entries, v) && i < |code|
    ensures |v| == |code| && Consistent(code, v, i) && v[i] <= INT32_MAX
  {
    hide Consistent;
  }

  lemma CoveredHere(code: seq<Byte>, v: seq<int>, i: nat)
    requires Covers(code, v) && i < |code| && Visited(v, i)
    ensures InFragment(code[i]) && i + 1 + 4 * ArgCount(OpOf(code[i])) <= |code|
    ensures Operands(code, i, OpOf(code[i])) <= v[i]
  {
    hide InFragment, OpOf, Operands;
  }

  lemma FragmentDecodes(code: seq<Byte>, i: nat)
    requires i < |code| && InFragment(code[i]) && i + 1 + 4 * ArgCount(OpOf(code[i])) <= |code| <= INT32_MAX
    ensures Decode(code, i) == Instr(OpOf(code[i]), i + 1 + 4 * ArgCount(OpOf(code[i])))
  {
    hide OpOf, ArgCount, U32;
  }

  lemma SignedIs(x: nat)
    requires x < UINT32
    ensures Signed(x).Depth? ==> Signed(x).d == x
  {
  }

  lemma ChangeBounds(code: seq<Byte>, cur: nat, i: nat, op: Op)
    requires i < |code| && i + 1 + 4 * ArgCount(op) <= |code| && Operands(code, i, op) <= cur
    ensures 0 <= cur + Change(code, i, op) <= cur + 1
  {
    hide U32;
  }

  lemma TakesAndLeaves(code: seq<Byte>, cur: nat, i: nat, op: Op)
    requires i < |code| && op == OpOf(code[i]) && InFragment(code[i]) && i + 1 + 4 * ArgCount(op) <= |code|
    requires DepthAfter(code, cur, i, op).Depth?
    ensures DepthAfter(code, cur, i, op) == Signed(cur + Change(code, i, op))
  {
    hide U32, OpOf, Signed;
  }

  lemma DepthChanges(code: seq<Byte>, cur: nat, i: nat, op: Op)
    requires i < |code| && op == OpOf(code[i]) && InFragment(code[i]) && i + 1 + 4 * ArgCount(op) <= |code|
    requires cur <= INT32_MAX && Operands(code, i, op) <= cur
    requires DepthAfter(code, cur, i, op).Depth?
    ensures cur + Change(code, i, op) >= 0
    ensures DepthAfter(code, cur, i, op).d == cur + Change(code, i, op)
  {
    hide U32, OpOf, Signed, DepthAfter;
    TakesAndLeaves(code, cur, i, op);
    ChangeBounds(code, cur, i, op);
    hide Change;
    SignedIs(cur + Change(code, i, op));
  }

  /** No activation is entered or left, and the current one has `d` more operands. */
  ghost predicate Advances(s: State, s': State, d: int) {
    && s.Running? && s'.Running? && |s'.frames| == |s.frames| > 0
    && OperandDepth(Last(s'.frames)) == OperandDepth(Last(s.frames)) + d
    && Last(s'.frames).ra == Last(s.frames).ra
    && |Last(s'.frames).args| == |Last(s.frames).args| && |Last(s'.frames).closure| == |Last(s.frames).closure|
    && forall k: nat :: k + 1 < |s.frames| ==> SameFrameShape(s.frames[k], s'.frames[k])
  }

  /** The activations around the current one are untouched, and so is its return address. */
  ghost predicate KeepsOuter(s: State, s': State) {
    && s.Running? && s'.Running? && |s'.frames| == |s.frames| > 0
    && s'.frames[..|s.frames| - 1] == s.frames[..|s.frames| - 1]
    && Last(s'.frames).ra == Last(s.frames).ra
  }

  /** The same, up to a move of objects. */
  ghost predicate MovesOuter(s: State, s': State) {
    && s.Running? && s'.Running? && |s'.frames| == |s.frames| > 0
    && Renamed(s.frames[..|s.frames| - 1], s'.frames[..|s.frames| - 1])
    && Last(s'.frames).ra == Last(s.frames).ra
  }

  ghost predicate SameLocals(s: State, s': State) {
    && s.Running? && s'.Running? && s.frames != [] && s'.frames != []
    && Last(s'.frames).reserved == Last(s.frames).reserved && Last(s'.frames).begin == Last(s.frames).begin
  }

  lemma AdvancesRight(v: seq<int>, s: State, s': State, d: int)
    requires DepthsRight(v, s) && Advances(s, s', d)
    requires s'.pc < |v| && v[s'.pc] == OperandDepth(Last(s'.frames)) >= 0
    ensures DepthsRight(v, s')
  {
    forall k: nat | k < |s'.frames| ensures DepthRight(v, s', k) {
      assert DepthRight(v, s, k);
      if k + 2 == |s.frames| {
        assert DepthRight(v, s, k + 1);
      } else if k + 2 < |s.frames| {
        assert SameFrameShape(s.frames[k + 1], s'.frames[k + 1]);
      }
    }
  }

  lemma ReplacesAdvances(s: State, s': State, k: nat, next: nat, moves: bool)
    requires s.Running? && s.frames != [] && Replaces(s, s', k, next, moves)
    ensures Advances(s, s', 1 - k) && s'.pc == next && SameLocals(s, s') && (!moves ==> KeepsOuter(s, s'))
    ensures (moves ==> MovesOuter(s, s'))
  {
    if moves {
      var cells := Last(s.frames).cells;
      var result := Last(s'.frames).cells[|Last(s'.frames).cells| - 1];
      var f: int -> int :| ReplacedBy(s, s', k, result, f);
      var n := |s.frames| - 1;
      assert s'.frames[..n] == MapFrames(f, s.frames[..n]);
    }
  }

  lemma ShufflesAdvances(code: seq<Byte>, s: State, s': State, op: Op, next: nat)
    requires s.Running? && s.frames != [] && s.pc < |code| && op == OpOf(code[s.pc])
    requires s.pc + 1 + 4 * ArgCount(op) <= |code|
    requires Shuffles(code, s, s', op, next)
    ensures Advances(s, s', Change(code, s.pc, op)) && KeepsOuter(s, s') && SameLocals(s, s')
    ensures s'.pc == next || (Jumps(op) && s'.pc == Arg(code, s.pc, 0))
    ensures op == JMP ==> s'.pc == Arg(code, s.pc, 0)
  {
  }

  lemma StoresAdvances(code: seq<Byte>, s: State, s': State, next: nat)
    requires s.Running? && s.frames != [] && s.pc + 5 <= |code| && Stores(code, s, s', next)
    ensures Advances(s, s', 0) && s'.pc == next && SameLocals(s, s') && KeepsOuter(s, s')
  {
  }

  lemma BeginsAdvances(code: seq<Byte>, origin: int, s: State, s': State, next: nat)
    requires s.Running? && s.frames != [] && s.pc + 9 <= |code| && Begins(code, origin, s, s', next)
    ensures Advances(s, s', 0) && s'.pc == next && KeepsOuter(s, s')
  {
  }

  lemma ComputesOne(code: seq<Byte>, i: nat, op: Op)
    requires i + 1 + 4 * ArgCount(op) <= |code| && (Computes(op) || op == LD || op == CONST)
    ensures Change(code, i, op) == 1 - (if Computes(op) then Operands(code, i, op) else 0) && FallsThrough(op)
  {
  }

  /** What a step is, for every kind of instruction that stays in its activation. */
  lemma StepIs(code: seq<Byte>, origin: int, s: State, s': State)
    requires Step(code, origin, s, s')
    ensures s.Running? && s.frames != [] && s.pc < |code|
    ensures var op := OpOf(code[s.pc]);
            var next := s.pc + 1 + 4 * ArgCount(op);
            && next <= |code|
            && (Moves(op) ==> (IsBranch(op) ==> s.pc + 5 <= |code|) && Shuffles(code, s, s', op, next))
            && (op == ST ==> next == s.pc + 5 && Stores(code, s, s', next))
            && (op == BEGIN || op == CBEGIN ==> next == s.pc + 9 && Begins(code, origin, s, s', next))
            && (op == LD || op == CONST ==> Replaces(s, s', 0, next, false))
            && (Computes(op) ==> Replaces(s, s', Operands(code, s.pc, op), next, Allocates(op)))
            && (op == CALL || op == END || Moves(op) || op == ST || op == BEGIN || op == CBEGIN || op == LD
                || op == CONST || Computes(op))
  {
    hide U32, OpOf, InFragment, Operands, Shuffles, Stores, Replaces, Begins, Calls, Ends;
  }

  /** What a step that stays in its activation does. */
  ghost predicate Stays(code: seq<Byte>, s: State, s': State) {
    && s.Running? && s.pc < |code| && s'.Running?
    && var op := OpOf(code[s.pc]);
       && s.pc + 1 + 4 * ArgCount(op) <= |code|
       && Advances(s, s', Change(code, s.pc, op))
       && (!Allocates(op) ==> KeepsOuter(s, s'))
       && (Allocates(op) ==> MovesOuter(s, s'))
       && (op != BEGIN && op != CBEGIN ==> SameLocals(s, s'))
       && ((FallsThrough(op) && s'.pc == s.pc + 1 + 4 * ArgCount(op)) || (Jumps(op) && s'.pc == Arg(code, s.pc, 0)))
  }

  lemma MovesStay(code: seq<Byte>, s: State, s': State, op: Op)
    requires s.Running? && s.frames != [] && s.pc < |code| && op == OpOf(code[s.pc])
    requires s.pc + 1 + 4 * ArgCount(op) <= |code|
    requires Moves(op) && Shuffles(code, s, s', op, s.pc + 1 + 4 * ArgCount(op))
    ensures Stays(code, s, s')
  {
    ShufflesAdvances(code, s, s', op, s.pc + 1 + 4 * ArgCount(op));
    hide U32, OpOf, Advances, KeepsOuter, MovesOuter, SameLocals, Shuffles, Change;
    assert s'.Running? by { AdvancesDepth(s, s', Change(code, s.pc, op)); }
  }

  lemma StoresStay(code: seq<Byte>, s: State, s': State)
    requires s.Running? && s.frames != [] && s.pc + 5 <= |code| && OpOf(code[s.pc]) == ST
    requires Stores(code, s, s', s.pc + 5)
    ensures Stays(code, s, s')
  {
    StoresAdvances(code, s, s', s.pc + 5);
    hide U32, OpOf, Advances, KeepsOuter, MovesOuter, SameLocals, Stores;
    assert s'.Running? by { AdvancesDepth(s, s', 0); }
  }

  lemma BeginsStay(code: seq<Byte>, origin: int, s: State, s': State)
    requires s.Running? && s.frames != [] && s.pc + 9 <= |code|
    requires (OpOf(code[s.pc]) == BEGIN || OpOf(code[s.pc]) == CBEGIN)
    requires Begins(code, origin, s, s', s.pc + 9)
    ensures Stays(code, s, s')
  {
    BeginsAdvances(code, origin, s, s', s.pc + 9);
    hide U32, OpOf, Advances, KeepsOuter, MovesOuter, SameLocals, Begins;
    assert s'.Running? by { AdvancesDepth(s, s', 0); }
  }

  lemma ReplacesStay(code: seq<Byte>, s: State, s': State, op: Op, k: nat)
    requires s.Running? && s.frames != [] && s.pc < |code| && op == OpOf(code[s.pc])
    requires s.pc + 1 + 4 * ArgCount(op) <= |code|
    requires op == LD || op == CONST || Computes(op)
    requires k == (if Computes(op) then Operands(code, s.pc, op) else 0)
    requires Replaces(s, s', k, s.pc + 1 + 4 * ArgCount(op), Allocates(op))
    ensures Stays(code, s, s')
  {
    hide U32, OpOf, Advances, KeepsOuter, MovesOuter, SameLocals, Replaces, Operands, Change, FallsThrough, ArgCount;
    ComputesOne(code, s.pc, op);
    ReplacesAdvances(s, s', k, s.pc + 1 + 4 * ArgCount(op), Allocates(op));
    assert s'.Running? by { AdvancesDepth(s, s', 1 - k); }
  }

  /** Every instruction of the fragment but CALL and END stays in its activation and changes its depth
      as the verifier says. */
  lemma StepAdvances(code: seq<Byte>, origin: int, s: State, s': State)
    requires Step(code, origin, s, s') && OpOf(code[s.pc]) != CALL && OpOf(code[s.pc]) != END
    ensures Stays(code, s, s')
  {
    hide U32, OpOf, Step, Stays, Replaces, Shuffles, Stores, Begins, Loads, Operands, ArgCount, InFragment, Change;
    StepIs(code, origin, s, s');
    var op := OpOf(code[s.pc]);
    if Moves(op) {
      MovesStay(code, s, s', op);
    } else if op == ST {
      StoresStay(code, s, s');
    } else if op == BEGIN || op == CBEGIN {
      BeginsStay(code, origin, s, s');
    } else if Computes(op) {
      ReplacesStay(code, s, s', op, Operands(code, s.pc, op));
    } else {
      ReplacesStay(code, s, s', op, 0);
    }
  }

  // Calls and ends.

  lemma CallRight(code: seq<Byte>, v: seq<int>, s: State, s': State, next: nat)
    requires s.Running? && s.pc + 9 <= |code| && DepthsRight(v, s) && Calls(code, s, s', next)
    requires Visited(v, s.pc) && Arg(code, s.pc, 1) <= v[s.pc]
    requires Carries(v, (Arg(code, s.pc, 0), 0))
    requires next < |v| && v[next] == v[s.pc] + 1 - Arg(code, s.pc, 1)
    ensures DepthsRight(v, s')
  {
    var n := |s.frames|;
    assert DepthRight(v, s, n - 1);
    forall k: nat | k < |s'.frames| ensures DepthRight(v, s', k) {
      if k < n {
        assert DepthRight(v, s, k);
      }
    }
  }

  lemma EndRight(v: seq<int>, s: State, s': State)
    requires s.Running? && DepthsRight(v, s) && Ends(s, s')
    ensures DepthsRight(v, s')
  {
    var n := |s.frames|;
    assert DepthRight(v, s, n - 1);
    if s'.Running? {
      assert DepthRight(v, s, n - 2);
      forall k: nat | k < |s'.frames| ensures DepthRight(v, s', k) {
        assert DepthRight(v, s, k);
      }
    }
  }

  /** One step keeps the depths right. */
  lemma StepRight(code: seq<Byte>, entries: seq<int>, v: seq<int>, origin: int, s: State, s': State)
    requires Assignment(code, entries, v) && Covers(code, v) && |code| <= INT32_MAX
    requires DepthsRight(v, s) && Step(code, origin, s, s')
    ensures DepthsRight(v, s')
  {
    hide OpOf, Step, Ends, Calls, DepthsRight, Assignment, Covers, Change, ArgCount, Operands;
    CallOrEnd(code, origin, s, s');
    CurrentDepth(v, s);
    var op := OpOf(code[s.pc]);
    if op == CALL {
      CallFlows(code, entries, v, s.pc);
      CallRight(code, v, s, s', s.pc + 9);
    } else if op == END {
      EndRight(v, s, s');
    } else {
      StayingRight(code, entries, v, origin, s, s');
    }
  }

  /** A step that neither enters nor leaves an activation. */
  lemma StayingRight(code: seq<Byte>, entries: seq<int>, v: seq<int>, origin: int, s: State, s': State)
    requires Assignment(code, entries, v) && Covers(code, v) && |code| <= INT32_MAX
    requires DepthsRight(v, s) && Step(code, origin, s, s') && OpOf(code[s.pc]) != CALL && OpOf(code[s.pc]) != END
    ensures DepthsRight(v, s')
  {
    hide OpOf, Step, KeepsOuter, MovesOuter, SameLocals, DepthsRight, Assignment, Covers, Change, ArgCount, Operands;
    hide Advances, Jumps, FallsThrough;
    CallOrEnd(code, origin, s, s');
    CurrentDepth(v, s);
    OperandsCovered(code, entries, v, s.pc);
    StepAdvances(code, origin, s, s');
    AdvancesDepth(s, s', Change(code, s.pc, OpOf(code[s.pc])));
    Reaches(code, entries, v, s.pc, s'.pc);
    AdvancesRight(v, s, s', Change(code, s.pc, OpOf(code[s.pc])));
  }

  lemma Reaches(code: seq<Byte>, entries: seq<int>, v: seq<int>, i: nat, at: nat)
    requires Assignment(code, entries, v) && Covers(code, v) && |code| <= INT32_MAX && i < |code| && Visited(v, i)
    requires var op := OpOf(code[i]);
             && i + 1 + 4 * ArgCount(op) <= |code|
             && ((FallsThrough(op) && at == i + 1 + 4 * ArgCount(op)) || (Jumps(op) && at == Arg(code, i, 0)))
    ensures at < |v| && v[at] == v[i] + Change(code, i, OpOf(code[i])) >= 0
  {
    hide OpOf, Assignment, Covers, Change, Operands, U32;
    Flows(code, entries, v, i);
  }

  lemma CallFlows(code: seq<Byte>, entries: seq<int>, v: seq<int>, i: nat)
    requires Assignment(code, entries, v) && Covers(code, v) && |code| <= INT32_MAX && i < |code| && Visited(v, i)
    requires OpOf(code[i]) == CALL
    ensures i + 9 <= |code| && i + 9 < |v| && Arg(code, i, 1) <= v[i] && v[i + 9] == v[i] + 1 - Arg(code, i, 1)
    ensures Carries(v, (Arg(code, i, 0), 0))
  {
    hide OpOf, Assignment, Covers, U32;
    Flows(code, entries, v, i);
  }

  lemma AdvancesDepth(s: State, s': State, d: int)
    requires Advances(s, s', d)
    ensures s.Running? && s'.Running? && s.frames != [] && s'.frames != []
    ensures OperandDepth(Last(s'.frames)) == OperandDepth(Last(s.frames)) + d
  {
  }

  lemma CurrentDepth(v: seq<int>, s: State)
    requires s.Running? && DepthsRight(v, s)
    ensures s.frames != [] && Visited(v, s.pc) && v[s.pc] == OperandDepth(Last(s.frames))
  {
    assert DepthRight(v, s, |s.frames| - 1);
  }

  lemma InitialRight(code: seq<Byte>, entries: seq<int>, v: seq<int>, s: State)
    requires Assignment(code, entries, v) && 0 in entries && Initial(s)
    ensures DepthsRight(v, s)
  {
    assert Starts(entries, v);
  }

  /** Soundness of the verifier's depths: in every state of every run, the current activation has the
      depth found for the program counter, every suspended one will have the depth found for the offset
      to which its callee returns, and the next instruction reads operands only. */
  lemma {:induction false} RunRight(code: seq<Byte>, entries: seq<int>, v: seq<int>, origin: int, run: seq<State>,
                                    k: nat)
    requires Assignment(code, entries, v) && Covers(code, v) && |code| <= INT32_MAX && 0 in entries
    requires k < |run| && Initial(run[0]) && Run(code, origin, run)
    ensures DepthsRight(v, run[k])
    ensures run[k].Running? ==>
              && run[k].frames != [] && run[k].pc < |code|
              && run[k].pc + 1 + 4 * ArgCount(OpOf(code[run[k].pc])) <= |code|
              && Operands(code, run[k].pc, OpOf(code[run[k].pc])) <= OperandDepth(Last(run[k].frames)) == v[run[k].pc]
  {
    hide Assignment, DepthsRight, Step, Initial, OpOf, Operands, ArgCount;
    if k == 0 {
      InitialRight(code, entries, v, run[0]);
    } else {
      RunRight(code, entries, v, origin, run, k - 1);
      assert Step(code, origin, run[k - 1], run[k - 1 + 1]);
      StepRight(code, entries, v, origin, run[k - 1], run[k]);
    }
    if run[k].Running? {
      CurrentDepth(v, run[k]);
      OperandsCovered(code, entries, v, run[k].pc);
    }
  }

  lemma OperandsCovered(code: seq<Byte>, entries: seq<int>, v: seq<int>, i: nat)
    requires Assignment(code, entries, v) && Covers(code, v) && Visited(v, i)
    ensures i < |code| && i + 1 + 4 * ArgCount(OpOf(code[i])) <= |code| && Operands(code, i, OpOf(code[i])) <= v[i]
  {
  }

  // The packed code is the one that is run.

  lemma CoversPacked(code: seq<Byte>, code': seq<Byte>, v: seq<int>, packed: set<nat>)
    requires |v| == |code| && Covers(code, v) && OnlyPacked(code, code', packed) && PackedBegins(code, v, packed)
    requires NoOverlap(code, code', v, packed)
    ensures Covers(code', v)
  {
    hide SameInstruction, NoOverlap, OnlyPacked, PackedBegins, Operands, InFragment;
    SameIfNoOverlap(code, code', v, packed);
    PackedLength(code, code', packed);
    forall i: nat | i < |code'| && Visited(v, i)
      ensures InFragment(code'[i]) && i + 1 + 4 * ArgCount(OpOf(code'[i])) <= |code'|
      ensures Operands(code', i, OpOf(code'[i])) <= v[i]
    {
      assert SameInstruction(code, code', i);
      SameOpcode(code, code', i);
      SameOperands(code, code', i);
    }
  }

  lemma SameOperands(code: seq<Byte>, code': seq<Byte>, i: nat)
    requires SameInstruction(code, code', i) && i + 1 + 4 * ArgCount(OpOf(code[i])) <= |code|
    ensures Operands(code', i, OpOf(code[i])) == Operands(code, i, OpOf(code[i]))
  {
    hide SameInstruction, OpOf, U32;
    SameOpcode(code, code', i);
    var op := OpOf(code[i]);
    if ArgCount(op) > 0 {
      SameArg(code, code', i, 0);
    }
    if ArgCount(op) > 1 {
      SameArg(code, code', i, 1);
    }
  }

  lemma PackedLength(code: seq<Byte>, code': seq<Byte>, packed: set<nat>)
    requires OnlyPacked(code, code', packed)
    ensures |code'| == |code|
  {
  }

  lemma AssignmentLength(code: seq<Byte>, entries: seq<int>, v: seq<int>)
    requires Assignment(code, entries, v)
    ensures |v| == |code|
  {
  }

  /** What verify accepts runs with the depths that it found. */
  lemma VerifiedRunRight(code: seq<Byte>, code': seq<Byte>, entries: seq<int>, v: seq<int>, packed: set<nat>,
                         origin: int, run: seq<State>, k: nat)
    requires Assignment(code, entries, v) && 0 in entries && |code| <= INT32_MAX
    requires OnlyPacked(code, code', packed) && PackedBegins(code, v, packed)
    requires NoOverlap(code, code', v, packed) && Covers(code, v)
    requires k < |run| && Initial(run[0]) && Run(code', origin, run)
    ensures DepthsRight(v, run[k])
  {
    hide Assignment, OnlyPacked, PackedBegins, NoOverlap, Covers, DepthsRight, Run, Initial;
    AssignmentPacked(code, code', entries, v, packed);
    PackedLength(code, code', packed);
    AssignmentLength(code, entries, v);
    CoversPacked(code, code', v, packed);
    RunRight(code', entries, v, origin, run, k);
  }

  // A BEGIN, a CONST, a BINOP and an END.
  const ONE_OPERAND: seq<Byte> := [0x52, 0, 0, 0, 0, 0, 0, 0, 0, 0x10, 0, 0, 0, 0, 0x01, 0x16]
  const ONE_OPERAND_DEPTHS: seq<int> := [0, -1, -1, -1, -1, -1, -1, -1, -1, 0, -1, -1, -1, -1, 1, 0]

  lemma OneOperandDecodes()
    ensures Decode(ONE_OPERAND, 0) == Instr(BEGIN, 9) && Decode(ONE_OPERAND, 9) == Instr(CONST, 14)
    ensures Decode(ONE_OPERAND, 14) == Instr(BINOP, 15) && Decode(ONE_OPERAND, 15) == Instr(END, 16)
  {
    hide U32;
    assert ONE_OPERAND[0] == 0x52 && ONE_OPERAND[9] == 0x10 && ONE_OPERAND[14] == 0x01 && ONE_OPERAND[15] == 0x16;
    assert OpOf(0x52) == BEGIN && OpOf(0x10) == CONST && OpOf(0x01) == BINOP && OpOf(0x16) == END;
    hide OpOf;
  }

  /** Coverage is not implied: the verifier only looks at the net effect of an instruction with two
      operands. Here BINOP has one. */
  lemma AcceptsUncovered()
    ensures Assignment(ONE_OPERAND, [0], ONE_OPERAND_DEPTHS)
    ensures OpOf(ONE_OPERAND[14]) == BINOP && Operands(ONE_OPERAND, 14, BINOP) == 2 && ONE_OPERAND_DEPTHS[14] == 1
    ensures !Covers(ONE_OPERAND, ONE_OPERAND_DEPTHS)
  {
    OneOperandDecodes();
    hide Decode;
    var code, v := ONE_OPERAND, ONE_OPERAND_DEPTHS;
    assert OpOf(code[14]) == BINOP;
    forall i: nat | i < |v| ensures Consistent(code, v, i) {
      if i == 0 || i == 9 || i == 14 {
        var dec := Decode(code, i);
        assert DepthAfter(code, v[i], i, dec.op) == Depth(v[dec.next]);
      }
    }
    assert Visited(v, 14);
  }

  // Calls and returns.

  /** More than `n` activations are there all the time. */
  ghost predicate Above(run: seq<State>, n: nat) {
    forall k: nat :: k < |run| ==> run[k].Running? && |run[k].frames| > n
  }

  /** Nothing is allocated before step `k`. */
  ghost predicate Quiet(code: seq<Byte>, run: seq<State>, k: nat) {
    forall j: nat :: j < k && j < |run| && run[j].Running? && run[j].pc < |code| ==> !Allocates(OpOf(code[run[j].pc]))
  }

  /** Meanwhile the first `n` are moved as the collector moves their words, and else untouched. */
  lemma {:induction false} RunKeepsOuter(code: seq<Byte>, origin: int, run: seq<State>, n: nat, k: nat)
    requires Run(code, origin, run) && Above(run, n) && k < |run|
    ensures Renamed(run[0].frames[..n], run[k].frames[..n]) && run[k].frames[n].ra == run[0].frames[n].ra
    ensures Quiet(code, run, k) ==> run[k].frames[..n] == run[0].frames[..n]
  {
    hide Renamed, Step, OpOf, Allocates, MapFrames, Quiet;
    RenamedSelf(run[0].frames[..n]);
    if k > 0 {
      RunKeepsOuter(code, origin, run, n, k - 1);
      var s, s' := run[k - 1], run[k - 1 + 1];
      assert Step(code, origin, s, s');
      OuterAfter(code, origin, s, s', n);
      RenamedTwice(run[0].frames[..n], s.frames[..n], s'.frames[..n]);
      QuietBefore(code, run, k);
    }
  }

  lemma QuietBefore(code: seq<Byte>, run: seq<State>, k: nat)
    requires 0 < k <= |run| && run[k - 1].Running? && run[k - 1].pc < |code|
    ensures Quiet(code, run, k) ==> Quiet(code, run, k - 1) && !Allocates(OpOf(code[run[k - 1].pc]))
  {
  }

  lemma CallOuter(code: seq<Byte>, s: State, s': State, next: nat, n: nat)
    requires s.Running? && s.frames != [] && s.pc + 9 <= |code| && Calls(code, s, s', next) && n < |s.frames|
    ensures n < |s'.frames| && s'.frames[..n] == s.frames[..n] && s'.frames[n].ra == s.frames[n].ra
  {
    hide U32;
    assert s'.frames[..|s.frames| - 1] == s.frames[..|s.frames| - 1];
    assert s'.frames[..n] == s'.frames[..|s.frames| - 1][..n];
    assert s.frames[..n] == s.frames[..|s.frames| - 1][..n];
    assert n < |s.frames| - 1 ==> s'.frames[n] == s'.frames[..|s.frames| - 1][n];
  }

  lemma EndOuter(s: State, s': State, n: nat)
    requires s.Running? && s.frames != [] && Ends(s, s') && s'.Running? && n < |s'.frames|
    ensures n < |s.frames| && s'.frames[..n] == s.frames[..n] && s'.frames[n].ra == s.frames[n].ra
  {
    var outer := s.frames[..|s.frames| - 1];
    assert s'.frames[..|outer| - 1] == outer[..|outer| - 1];
    assert s'.frames[..n] == s'.frames[..|outer| - 1][..n];
    assert s.frames[..n] == outer[..|outer| - 1][..n];
    assert n < |outer| - 1 ==> s'.frames[n] == s'.frames[..|outer| - 1][n];
  }

  lemma KeptOuter(s: State, s': State, n: nat)
    requires KeepsOuter(s, s') && n < |s.frames|
    ensures s'.frames[..n] == s.frames[..n] && s'.frames[n].ra == s.frames[n].ra
  {
    assert s'.frames[..n] == s'.frames[..|s.frames| - 1][..n];
    assert s.frames[..n] == s.frames[..|s.frames| - 1][..n];
    assert n < |s.frames| - 1 ==> s'.frames[n] == s'.frames[..|s.frames| - 1][n];
  }

  lemma MovedOuter(s: State, s': State, n: nat)
    requires MovesOuter(s, s') && n < |s.frames|
    ensures Renamed(s.frames[..n], s'.frames[..n]) && s'.frames[n].ra == s.frames[n].ra
  {
    var m := |s.frames| - 1;
    var f: int -> int :| KeepsIntegers(f) && s'.frames[..m] == MapFrames(f, s.frames[..m]);
    assert s'.frames[..n] == s'.frames[..m][..n];
    assert s.frames[..n] == s.frames[..m][..n];
    assert s'.frames[..n] == MapFrames(f, s.frames[..n]);
    assert n < m ==> s'.frames[n] == s'.frames[..m][n];
  }

  lemma OuterAfter(code: seq<Byte>, origin: int, s: State, s': State, n: nat)
    requires Step(code, origin, s, s') && s.Running? && |s.frames| > n && s'.Running? && |s'.frames| > n
    ensures s.pc < |code|
    ensures Renamed(s.frames[..n], s'.frames[..n]) && s'.frames[n].ra == s.frames[n].ra
    ensures !Allocates(OpOf(code[s.pc])) ==> s'.frames[..n] == s.frames[..n]
  {
    hide U32, OpOf, Step, Calls, Ends, Begins, KeepsOuter, MovesOuter, Advances, Change, ArgCount, FallsThrough;
    hide SameLocals, Renamed;
    CallOrEnd(code, origin, s, s');
    RenamedSelf(s.frames[..n]);
    if OpOf(code[s.pc]) == CALL {
      CallOuter(code, s, s', s.pc + 9, n);
    } else if OpOf(code[s.pc]) == END {
      EndOuter(s, s', n);
    } else {
      StepAdvances(code, origin, s, s');
      if Allocates(OpOf(code[s.pc])) {
        MovedOuter(s, s', n);
      } else {
        KeptOuter(s, s', n);
      }
    }
  }

  lemma CallOrEnd(code: seq<Byte>, origin: int, s: State, s': State)
    requires Step(code, origin, s, s')
    ensures s.Running? && s.frames != [] && s.pc < |code|
    ensures OpOf(code[s.pc]) == CALL ==> s.pc + 9 <= |code| && Calls(code, s, s', s.pc + 9)
    ensures OpOf(code[s.pc]) == BEGIN || OpOf(code[s.pc]) == CBEGIN ==>
              s.pc + 9 <= |code| && Begins(code, origin, s, s', s.pc + 9)
    ensures OpOf(code[s.pc]) == END ==> Ends(s, s')
  {
    hide U32, OpOf, InFragment, Operands, Shuffles, Loads, Stores, Replaces, Begins, Calls, Ends;
  }

  /** A call, of a function or of a closure, and the END that leaves its activation: whatever runs between,
      the caller goes on at the return address with its own locals, arguments and remaining operands, and
      the callee's result for the operands that the call took. The collector may have moved what they point
      to; if nothing was allocated they are the same words. */
  lemma CallReturns(code: seq<Byte>, origin: int, frames: seq<Frame>, nargs: nat, ra: nat, isClosure: nat,
                    run: seq<State>, s': State)
    requires frames != [] && nargs + isClosure <= |Last(frames).cells|
    requires run != [] && run[0].Running? && run[0].frames == Called(frames, nargs, ra, isClosure)
    requires Run(code, origin, run) && Above(run, |frames|)
    requires Step(code, origin, run[|run| - 1], s') && s'.Running? && |s'.frames| == |frames|
    ensures var kept := Last(frames).cells[..|Last(frames).cells| - nargs - isClosure];
            && s'.pc == ra
            && Last(run[|run| - 1].frames).cells != []
            && var result := Last(run[|run| - 1].frames).cells[|Last(run[|run| - 1].frames).cells| - 1];
               && (exists f: int -> int ::
                     KeepsIntegers(f) && s'.frames == WithCells(MapFrames(f, frames), MapSeq(f, kept) + [result]))
               && (Quiet(code, run, |run|) ==> s'.frames == WithCells(frames, kept + [result]))
  {
    hide U32, Step;
    var n, last := |frames|, run[|run| - 1];
    var kept := Last(frames).cells[..|Last(frames).cells| - nargs - isClosure];
    RunKeepsOuter(code, origin, run, n, |run| - 1);
    assert |last.frames| > n;
    LeavesByEnd(code, origin, last, s', n);
    CallOrEnd(code, origin, last, s');
    assert Quiet(code, run, |run|) ==> Quiet(code, run, |run| - 1);
    assert run[0].frames[..n] == WithCells(frames, kept) && run[0].frames[n].ra == ra;
    hide Quiet, Run, Above, Called, Ends, KeepsIntegers, MapFrames, MapSeq, WithCells, OpOf, Allocates;
    var f: int -> int :| KeepsIntegers(f) && last.frames[..n] == MapFrames(f, run[0].frames[..n]);
    MapWithCells(f, frames, kept);
    MappedCount(f, frames);
    Returned(last, s', MapFrames(f, frames), MapSeq(f, kept));
    if last.frames[..n] == WithCells(frames, kept) {
      Returned(last, s', frames, kept);
    }
  }

  lemma MappedCount(f: int -> int, frames: seq<Frame>)
    ensures |MapFrames(f, frames)| == |frames|
  {
  }

  /** END in an activation around which the frames `outer` lie, whose last one has the cells `kept`. */
  lemma Returned(s: State, s': State, outer: seq<Frame>, kept: seq<int>)
    requires s.Running? && s'.Running? && outer != [] && |s.frames| == |outer| + 1
    requires s.frames[..|outer|] == WithCells(outer, kept) && Ends(s, s')
    ensures s'.pc == Last(s.frames).ra && Last(s.frames).cells != []
    ensures s'.frames == WithCells(outer, kept + [Last(s.frames).cells[|Last(s.frames).cells| - 1]])
  {
    var result := Last(s.frames).cells[|Last(s.frames).cells| - 1];
    assert s.frames[..|s.frames| - 1] == WithCells(outer, kept);
    WithCellsTwice(outer, kept, kept + [result]);
  }

  lemma MapWithCells(f: int -> int, frames: seq<Frame>, cells: seq<int>)
    requires frames != []
    ensures MapFrames(f, WithCells(frames, cells)) == WithCells(MapFrames(f, frames), MapSeq(f, cells))
  {
  }

  /** Only END leaves an activation. */
  lemma LeavesByEnd(code: seq<Byte>, origin: int, s: State, s': State, n: nat)
    requires Step(code, origin, s, s') && s'.Running? && |s'.frames| <= n < |s.frames|
    ensures OpOf(code[s.pc]) == END && |s.frames| == n + 1
  {
    hide U32, OpOf;
    if OpOf(code[s.pc]) == CALL {
      CallOrEnd(code, origin, s, s');
    } else if OpOf(code[s.pc]) != END {
      StepAdvances(code, origin, s, s');
    } else {
      CallOrEnd(code, origin, s, s');
    }
  }
}
