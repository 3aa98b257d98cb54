/** Code that verify accepts and that still goes wrong: two programs, with the depths that verify finds, what
    it packs, and a run of what it leaves. */
module Accepted {
  import opened Bytecode
  import opened Verifier
  import opened MaxStack
  import opened Packing
  import opened Frames
  import opened Runs
  import opened Variables
  import Interpreter

  /** verify accepts the code, with entry 0. */
  ghost predicate Accepts(code: seq<Byte>, v: seq<int>, globals: nat) {
    Assignment(code, [0], v) && BelowAll(code, [0], v) && Passes(code, v, Trace(code, 0), globals)
  }

  /** What verify makes of it. */
  ghost predicate Leaves(code: seq<Byte>, code': seq<Byte>, v: seq<int>, packed: set<nat>) {
    AllPacked(code, code', v, Trace(code, 0), packed) && OnlyPacked(code, code', packed)
        && PackedBegins(code, v, packed)
  }

  /** There is only one vector that verify can find. */
  lemma LeastIsUnique(code: seq<Byte>, entries: seq<int>, v: seq<int>, w: seq<int>)
    requires Assignment(code, entries, v) && BelowAll(code, entries, v)
    requires Assignment(code, entries, w) && BelowAll(code, entries, w)
    ensures v == w
  {
    hide Consistent;
    assert Below(v, w) && Below(w, v);
    assert forall i: nat :: i < |v| && !Visited(v, i) && !Visited(w, i) ==> v[i] == w[i];
  }

  // One instruction at a time.

  lemma Decodes(code: seq<Byte>, i: nat, op: Op)
    requires i < |code| <= INT32_MAX && OpOf(code[i]) == op && op != UNKNOWN && op != CLOSURE
    ensures Decode(code, i) == Instr(op, i + 1 + 4 * ArgCount(op))
  {
  }

  /** Consistency of an instruction with one successor, */
  lemma OneEdge(code: seq<Byte>, v: seq<int>, i: nat, op: Op, next: nat, d: nat, e: (nat, nat))
    requires |v| == |code| && Visited(v, i) && Decode(code, i) == Instr(op, next)
    requires DepthAfter(code, v[i], i, op) == Depth(d)
    requires (IsBranch(op) ==> i + 5 <= |code|) && Successors(code, i, op, next, d) == [e]
    ensures Consistent(code, v, i) <==> Carries(v, e)
  {
    hide Decode, DepthAfter, Carries, OpOf, U32, Successors;
    assert e in Successors(code, i, op, next, d);
  }

  /** and with two. */
  lemma TwoEdges(code: seq<Byte>, v: seq<int>, i: nat, op: Op, next: nat, d: nat, e: (nat, nat), e': (nat, nat))
    requires |v| == |code| && Visited(v, i) && Decode(code, i) == Instr(op, next)
    requires DepthAfter(code, v[i], i, op) == Depth(d)
    requires (IsBranch(op) ==> i + 5 <= |code|) && Successors(code, i, op, next, d) == [e, e']
    ensures Consistent(code, v, i) <==> Carries(v, e) && Carries(v, e')
  {
    hide Decode, DepthAfter, Carries, OpOf, U32, Successors;
    assert e in Successors(code, i, op, next, d) && e' in Successors(code, i, op, next, d);
  }

  /** The instruction goes on to the next one only. */
  predicate Plain(op: Op) {
    op == BEGIN || op == CONST || op == ST
  }

  function PlainChange(op: Op): nat {
    if op == CONST then 1 else 0
  }

  lemma PlainDepth(code: seq<Byte>, cur: nat, i: nat, op: Op)
    requires i < |code| && Plain(op) && cur < INT32_MAX
    ensures DepthAfter(code, cur, i, op) == Depth(cur + PlainChange(op))
  {
  }

  lemma PlainSuccessors(code: seq<Byte>, i: nat, op: Op, next: nat, d: nat)
    requires Plain(op)
    ensures Successors(code, i, op, next, d) == [(next, d)]
  {
  }

  lemma PlainEdge(code: seq<Byte>, v: seq<int>, i: nat, op: Op)
    requires |v| == |code| <= INT32_MAX && i < |code| && OpOf(code[i]) == op && Plain(op) && 0 <= v[i] < INT32_MAX
    ensures Consistent(code, v, i) <==> Carries(v, (i + 1 + 4 * ArgCount(op), v[i] + PlainChange(op)))
  {
    hide OpOf, U32, DepthAfter, Successors, Consistent, Carries, PlainChange;
    var next, d := i + 1 + 4 * ArgCount(op), v[i] + PlainChange(op);
    Decodes(code, i, op);
    hide Decode;
    PlainDepth(code, v[i], i, op);
    PlainSuccessors(code, i, op, next, d);
    OneEdge(code, v, i, op, next, d, (next, d));
  }

  lemma BeginEdge(code: seq<Byte>, v: seq<int>, i: nat)
    requires |v| == |code| <= INT32_MAX && i < |code| && OpOf(code[i]) == BEGIN && 0 <= v[i] < INT32_MAX
    ensures Consistent(code, v, i) <==> Carries(v, (i + 9, v[i]))
  {
    hide OpOf, Consistent, Carries;
    PlainEdge(code, v, i, BEGIN);
  }

  lemma ConstEdge(code: seq<Byte>, v: seq<int>, i: nat)
    requires |v| == |code| <= INT32_MAX && i < |code| && OpOf(code[i]) == CONST && 0 <= v[i] < INT32_MAX
    ensures Consistent(code, v, i) <==> Carries(v, (i + 5, v[i] + 1))
  {
    hide OpOf, Consistent, Carries;
    PlainEdge(code, v, i, CONST);
  }

  lemma StoreEdge(code: seq<Byte>, v: seq<int>, i: nat)
    requires |v| == |code| <= INT32_MAX && i < |code| && OpOf(code[i]) == ST && 0 <= v[i] < INT32_MAX
    ensures Consistent(code, v, i) <==> Carries(v, (i + 5, v[i]))
  {
    hide OpOf, Consistent, Carries;
    PlainEdge(code, v, i, ST);
  }

  lemma JumpEdge(code: seq<Byte>, v: seq<int>, i: nat)
    requires |v| == |code| <= INT32_MAX && i + 5 <= |code| && OpOf(code[i]) == JMP && 0 <= v[i] <= INT32_MAX
    ensures Consistent(code, v, i) <==> Carries(v, (Arg(code, i, 0), v[i]))
  {
    hide OpOf, U32, Consistent, Carries;
    Decodes(code, i, JMP);
    hide Decode;
    assert DepthAfter(code, v[i], i, JMP) == Depth(v[i]);
    hide DepthAfter;
    OneEdge(code, v, i, JMP, i + 5, v[i], (Arg(code, i, 0), v[i]));
  }

  /** A call without arguments. */
  lemma CallEdge(code: seq<Byte>, v: seq<int>, i: nat)
    requires |v| == |code| <= INT32_MAX && i + 9 <= |code| && OpOf(code[i]) == CALL && Arg(code, i, 1) == 0
    requires 0 <= v[i] < INT32_MAX
    ensures Consistent(code, v, i) <==> Carries(v, (Arg(code, i, 0), 0)) && Carries(v, (i + 9, v[i] + 1))
  {
    hide OpOf, U32, Consistent, Carries;
    Decodes(code, i, CALL);
    hide Decode;
    assert DepthAfter(code, v[i], i, CALL) == Depth(v[i] + 1);
    hide DepthAfter;
    TwoEdges(code, v, i, CALL, i + 9, v[i] + 1, (Arg(code, i, 0), 0), (i + 9, v[i] + 1));
  }

  lemma EndEdge(code: seq<Byte>, v: seq<int>, i: nat)
    requires |v| == |code| <= INT32_MAX && i < |code| && OpOf(code[i]) == END && 0 <= v[i] <= INT32_MAX
    ensures Consistent(code, v, i)
  {
    Decodes(code, i, END);
  }

  lemma TraceStep(code: seq<Byte>, i: nat, next: nat)
    requires i < |code| && code[i] != 0xFF && Decode(code, i).Instr? && Decode(code, i).next == next > i
    ensures Trace(code, i) == [i] + Trace(code, next)
  {
  }

  // The scan, one offset at a time.

  ghost predicate ScanAt(code: seq<Byte>, v: seq<int>, t: seq<nat>, k: nat, begins: seq<nat>, high: int) {
    k <= |t| && OpenBegins(code, v, t[..k]) == begins && HighWater(code, v, t[..k]) == high
  }

  function NextBegins(code: seq<Byte>, v: seq<int>, i: nat, begins: seq<nat>): seq<nat> {
    if IsBegin(code, v, i) then begins + [i] else if IsEnd(code, v, i) && begins != [] then begins[..|begins| - 1]
        else begins
  }

  function NextHigh(code: seq<Byte>, v: seq<int>, i: nat, high: int): int {
    if !Visited(v, i) then high else if IsEnd(code, v, i) then -1 else Max(high, v[i])
  }

  lemma ScanNext(code: seq<Byte>, v: seq<int>, t: seq<nat>, k: nat, begins: seq<nat>, high: int)
    requires k < |t| && ScanAt(code, v, t, k, begins, high)
    ensures ScanAt(code, v, t, k + 1, NextBegins(code, v, t[k], begins), NextHigh(code, v, t[k], high))
  {
    assert t[..k + 1] == t[..k] + [t[k]];
    OneMore(code, v, t[..k], t[k]);
  }

  /** The scan goes past an instruction that it does not check, */
  lemma PlainPasses(code: seq<Byte>, code': seq<Byte>, v: seq<int>, t: seq<nat>, k: nat, i: nat, packed: set<nat>,
                    globals: nat)
    requires k < |t| && t[k] == i < |code| && Decode(code, i).Instr? && Decode(code, i).next > i
    requires Visited(v, i) ==> OpOf(code[i]) != END && !IsVariable(OpOf(code[i])) && OpOf(code[i]) != CLOSURE
    ensures StepPasses(code, v, t, k, globals) && PackedAt(code, code', v, t, k, packed)
  {
    hide Decode, OpOf, OpenBegins, HighWater, VariablesExist;
  }

  /** a load or store with its variable, */
  lemma VariablePasses(code: seq<Byte>, code': seq<Byte>, v: seq<int>, t: seq<nat>, k: nat, i: nat, packed: set<nat>,
                       globals: nat)
    requires k < |t| && t[k] == i < |code| && Decode(code, i).Instr? && Decode(code, i).next > i
    requires IsVariable(OpOf(code[i])) && Checked(code, v, t, k, globals)
    ensures StepPasses(code, v, t, k, globals) && PackedAt(code, code', v, t, k, packed)
  {
    hide Decode, OpOf, OpenBegins, HighWater, VariablesExist, Checked;
  }

  /** and an END, for whose BEGIN at `b` it packs the high-water mark. */
  lemma EndPasses(code: seq<Byte>, code': seq<Byte>, v: seq<int>, t: seq<nat>, k: nat, i: nat, begins: seq<nat>,
                  high: int, b: nat,
                  packed: set<nat>, globals: nat)
    requires k < |t| && t[k] == i < |code| && Decode(code, i).Instr? && Decode(code, i).next > i && OpOf(code[i]) == END
    requires Visited(v, i)
    requires ScanAt(code, v, t, k, begins, high) && begins != [] && begins[|begins| - 1] == b && b in packed
    requires b + 5 <= |code| == |code'|
    requires Packed(code, b) == 0 && Packed(code', b) == Max(high, v[i]) % 0x10000
    ensures StepPasses(code, v, t, k, globals) && PackedAt(code, code', v, t, k, packed)
  {
    hide Decode, OpOf, OpenBegins, HighWater, VariablesExist, Packed;
  }

  // A jump out of a hidden place.

  /** 0 BEGIN 0 0; 9 JMP 18; 14 CONST with the opcode of a JMP as its last byte; 19 BEGIN 0 0; 28 CONST 0; 33 END;
      34 CLOSURE with six values and 73 TAG, not reached; 82 CALL 19 0; 91 END. The JMP at 18 has the first bytes
      of the BEGIN at 19 as its target, which is 82. */
  function OverlapByte(i: nat): Byte {
    if i == 0 || i == 19 then 0x52
    else if i == 9 || i == 18 then 0x15
    else if i == 10 then 18
    else if i == 14 || i == 28 then 0x10
    else if i == 33 || i == 91 then 0x16
    else if i == 34 then 0x54
    else if i == 39 then 6
    else if i == 73 then 0x57
    else if i == 82 then 0x56
    else if i == 83 then 19
    else 0
  }

  ghost predicate IsOverlap(code: seq<Byte>) {
    |code| == 92 && forall i: nat :: i < 92 ==> code[i] == OverlapByte(i)
  }

  function OverlapDepth(i: nat): int {
    if i == 0 || i == 9 || i == 18 || i == 19 || i == 28 || i == 82 then 0 else if i == 33 || i == 91 then 1 else -1
  }

  ghost predicate OverlapDepths(v: seq<int>) {
    |v| == 92 && forall i: nat :: i < 92 ==> v[i] == OverlapDepth(i)
  }

  /** Both BEGINs hold 1 in their upper halves. */
  function OverlapPacked(code: seq<Byte>): (code': seq<Byte>)
    requires |code| == 92
    ensures |code'| == 92
  {
    code[3 := 1][22 := 1]
  }

  lemma OverlapOps(code: seq<Byte>)
    requires IsOverlap(code)
    ensures OpOf(code[0]) == BEGIN && OpOf(code[9]) == JMP && OpOf(code[14]) == CONST && OpOf(code[18]) == JMP
    ensures OpOf(code[19]) == BEGIN && OpOf(code[28]) == CONST && OpOf(code[33]) == END && OpOf(code[34]) == CLOSURE
    ensures OpOf(code[73]) == TAG && OpOf(code[82]) == CALL && OpOf(code[91]) == END
  {
    hide OverlapByte;
    OverlapOpcodes(code);
  }

  lemma OverlapOpcodes(code: seq<Byte>)
    requires IsOverlap(code)
    ensures code[0] == code[19] == 0x52 && code[9] == code[18] == 0x15 && code[14] == code[28] == 0x10
    ensures code[33] == code[91] == 0x16 && code[34] == 0x54 && code[73] == 0x57 && code[82] == 0x56
    ensures forall i: nat :: i < |code| ==> code[i] != 0xFF
  {
  }

  lemma OverlapArgs(code: seq<Byte>)
    requires IsOverlap(code)
    ensures Arg(code, 9, 0) == 18 && Arg(code, 18, 0) == 82 && Arg(code, 82, 0) == 19 && Arg(code, 82, 1) == 0
    ensures U32(code, 39) == 6
  {
  }

  lemma OverlapHalves(code: seq<Byte>)
    requires IsOverlap(code)
    ensures Packed(code, 0) == 0 && Packed(code, 19) == 0
    ensures Packed(OverlapPacked(code), 0) == 1 && Packed(OverlapPacked(code), 19) == 1
    ensures Arg(OverlapPacked(code), 18, 0) == 82 + 0x100_0000
  {
  }

  lemma OverlapDecodes(code: seq<Byte>)
    requires IsOverlap(code)
    ensures Decode(code, 0) == Instr(BEGIN, 9) && Decode(code, 9) == Instr(JMP, 14)
    ensures Decode(code, 14) == Instr(CONST, 19)
    ensures Decode(code, 19) == Instr(BEGIN, 28) && Decode(code, 28) == Instr(CONST, 33)
    ensures Decode(code, 33) == Instr(END, 34)
    ensures Decode(code, 34) == Instr(CLOSURE, 73) && Decode(code, 73) == Instr(TAG, 82)
    ensures Decode(code, 82) == Instr(CALL, 91)
    ensures Decode(code, 91) == Instr(END, 92)
  {
    OverlapOps(code);
    OverlapArgs(code);
    hide OpOf, U32, IsOverlap;
    Decodes(code, 0, BEGIN);
    Decodes(code, 9, JMP);
    Decodes(code, 14, CONST);
    Decodes(code, 19, BEGIN);
    Decodes(code, 28, CONST);
    Decodes(code, 33, END);
    Decodes(code, 73, TAG);
    Decodes(code, 82, CALL);
    Decodes(code, 91, END);
  }

  function OverlapTrace(): seq<nat> {
    [0, 9, 14, 19, 28, 33, 34, 73, 82, 91]
  }

  lemma OverlapTraceIs(t: seq<nat>)
    requires t == OverlapTrace()
    ensures |t| == 10 && t[0] == 0 && t[1] == 9 && t[2] == 14 && t[3] == 19 && t[4] == 28 && t[5] == 33 && t[6] == 34
    ensures t[7] == 73
    ensures t[8] == 82 && t[9] == 91
  {
  }

  lemma OverlapTraced(code: seq<Byte>)
    requires IsOverlap(code)
    ensures Trace(code, 0) == OverlapTrace()
  {
    OverlapOps(code);
    OverlapOpcodes(code);
    OverlapDecodes(code);
    hide OpOf, U32, IsOverlap, Decode;
    assert Trace(code, 92) == [];
    hide Trace;
    TraceStep(code, 91, 92);
    TraceStep(code, 82, 91);
    TraceStep(code, 73, 82);
    TraceStep(code, 34, 73);
    TraceStep(code, 33, 34);
    TraceStep(code, 28, 33);
    TraceStep(code, 19, 28);
    TraceStep(code, 14, 19);
    TraceStep(code, 9, 14);
    TraceStep(code, 0, 9);
  }

  lemma OverlapDepthsAre(v: seq<int>)
    requires OverlapDepths(v)
    ensures |v| == 92 && v[0] == v[9] == v[18] == v[19] == v[28] == v[82] == 0 && v[33] == v[91] == 1
    ensures v[14] == v[34] == v[73] == -1
  {
  }

  lemma OverlapEdges(code: seq<Byte>, v: seq<int>)
    requires IsOverlap(code) && OverlapDepths(v)
    ensures Consistent(code, v, 0) && Consistent(code, v, 9) && Consistent(code, v, 18) && Consistent(code, v, 19)
    ensures Consistent(code, v, 28) && Consistent(code, v, 33) && Consistent(code, v, 82) && Consistent(code, v, 91)
  {
    OverlapOps(code);
    OverlapArgs(code);
    OverlapSize(code);
    OverlapDepthsAre(v);
    hide OpOf, U32, IsOverlap, Consistent, OverlapDepths;
    BeginEdge(code, v, 0);
    JumpEdge(code, v, 9);
    JumpEdge(code, v, 18);
    BeginEdge(code, v, 19);
    ConstEdge(code, v, 28);
    EndEdge(code, v, 33);
    CallEdge(code, v, 82);
    EndEdge(code, v, 91);
  }

  lemma OverlapAssigned(code: seq<Byte>, v: seq<int>)
    requires IsOverlap(code) && OverlapDepths(v)
    ensures Assignment(code, [0], v)
  {
    OverlapEdges(code, v);
    hide IsOverlap, Consistent;
    forall i: nat | i < |v| ensures Consistent(code, v, i) {
      if !Visited(v, i) {
        NotVisited(code, v, i);
      }
    }
  }

  lemma OverlapJumps(code: seq<Byte>, w: seq<int>)
    requires IsOverlap(code) && Assignment(code, [0], w)
    ensures |w| == 92 && w[0] == w[9] == w[18] == w[82] == 0
  {
    OverlapOps(code);
    OverlapArgs(code);
    OverlapSize(code);
    hide OpOf, U32, IsOverlap, Consistent;
    BeginEdge(code, w, 0);
    JumpEdge(code, w, 9);
    JumpEdge(code, w, 18);
  }

  lemma OverlapValues(code: seq<Byte>, w: seq<int>)
    requires IsOverlap(code) && Assignment(code, [0], w)
    ensures |w| == 92 && w[0] == w[9] == w[18] == w[19] == w[28] == w[82] == 0 && w[33] == w[91] == 1
  {
    OverlapJumps(code, w);
    OverlapOps(code);
    OverlapArgs(code);
    OverlapSize(code);
    hide OpOf, U32, IsOverlap, Consistent;
    CallEdge(code, w, 82);
    BeginEdge(code, w, 19);
    ConstEdge(code, w, 28);
  }

  /** Every assignment has these depths. */
  lemma OverlapForced(code: seq<Byte>, v: seq<int>, w: seq<int>)
    requires IsOverlap(code) && OverlapDepths(v) && Assignment(code, [0], w)
    ensures Below(v, w)
  {
    hide IsOverlap, Assignment;
    OverlapValues(code, w);
  }

  lemma ScanStart(code: seq<Byte>, v: seq<int>, t: seq<nat>)
    ensures ScanAt(code, v, t, 0, [], 0)
  {
    assert t[..0] == [];
  }

  /** What the scan finds at every offset: the open BEGINs and the high-water mark. */
  lemma OverlapScan(code: seq<Byte>, v: seq<int>, t: seq<nat>)
    requires IsOverlap(code) && OverlapDepths(v) && t == OverlapTrace()
    ensures ScanAt(code, v, t, 0, [], 0) && ScanAt(code, v, t, 1, [0], 0) && ScanAt(code, v, t, 2, [0], 0)
    ensures ScanAt(code, v, t, 3, [0], 0) && ScanAt(code, v, t, 4, [0, 19], 0) && ScanAt(code, v, t, 5, [0, 19], 0)
    ensures ScanAt(code, v, t, 6, [0], -1) && ScanAt(code, v, t, 7, [0], -1) && ScanAt(code, v, t, 8, [0], -1)
    ensures ScanAt(code, v, t, 9, [0], 0)
  {
    OverlapOps(code);
    OverlapSize(code);
    OverlapDepthsAre(v);
    OverlapTraceIs(t);
    hide OverlapTrace, OverlapDepths, OpOf, IsOverlap, ScanAt;
    ScanStart(code, v, t);
    ScanNext(code, v, t, 0, [], 0);
    ScanNext(code, v, t, 1, [0], 0);
    ScanNext(code, v, t, 2, [0], 0);
    ScanNext(code, v, t, 3, [0], 0);
    ScanNext(code, v, t, 4, [0, 19], 0);
    ScanNext(code, v, t, 5, [0, 19], 0);
    ScanNext(code, v, t, 6, [0], -1);
    ScanNext(code, v, t, 7, [0], -1);
    ScanNext(code, v, t, 8, [0], -1);
  }

  lemma OverlapScannedPlain(code: seq<Byte>, v: seq<int>, t: seq<nat>)
    requires IsOverlap(code) && OverlapDepths(v) && t == OverlapTrace()
    ensures forall k: nat :: k < |t| && k != 5 && k != 9 ==>
              StepPasses(code, v, t, k, 0) && PackedAt(code, OverlapPacked(code), v, t, k, {0, 19})
  {
    OverlapSize(code);
    var code', p := OverlapPacked(code), {0, 19};
    OverlapOps(code);
    OverlapDecodes(code);
    OverlapDepthsAre(v);
    OverlapTraceIs(t);
    hide OverlapTrace, OverlapDepths, OpOf, IsOverlap, Decode, OverlapPacked, StepPasses, PackedAt;
    PlainPasses(code, code', v, t, 0, 0, p, 0);
    PlainPasses(code, code', v, t, 1, 9, p, 0);
    PlainPasses(code, code', v, t, 2, 14, p, 0);
    PlainPasses(code, code', v, t, 3, 19, p, 0);
    PlainPasses(code, code', v, t, 4, 28, p, 0);
    PlainPasses(code, code', v, t, 6, 34, p, 0);
    PlainPasses(code, code', v, t, 7, 73, p, 0);
    PlainPasses(code, code', v, t, 8, 82, p, 0);
  }

  lemma OverlapScannedEnds(code: seq<Byte>, v: seq<int>, t: seq<nat>)
    requires IsOverlap(code) && OverlapDepths(v) && t == OverlapTrace()
    ensures StepPasses(code, v, t, 5, 0) && PackedAt(code, OverlapPacked(code), v, t, 5, {0, 19})
    ensures StepPasses(code, v, t, 9, 0) && PackedAt(code, OverlapPacked(code), v, t, 9, {0, 19})
  {
    OverlapSize(code);
    var code', p := OverlapPacked(code), {0, 19};
    OverlapHalves(code);
    OverlapEnds(code);
    OverlapScan(code, v, t);
    OverlapDepthsAre(v);
    OverlapTraceIs(t);
    hide OverlapTrace, OverlapDepths, OpOf, IsOverlap, ScanAt, Decode, U32, Packed, OverlapPacked, StepPasses, PackedAt;
    EndPasses(code, code', v, t, 5, 33, [0, 19], 0, 19, p, 0);
    EndPasses(code, code', v, t, 9, 91, [0], 0, 0, p, 0);
  }

  lemma OverlapEnds(code: seq<Byte>)
    requires IsOverlap(code)
    ensures |code| == 92 && OpOf(code[33]) == END && OpOf(code[91]) == END
    ensures Decode(code, 33) == Instr(END, 34) && Decode(code, 91) == Instr(END, 92)
  {
    OverlapOps(code);
    OverlapDecodes(code);
    hide OpOf, IsOverlap, Decode;
  }

  lemma OverlapScanned(code: seq<Byte>, v: seq<int>, t: seq<nat>)
    requires IsOverlap(code) && OverlapDepths(v) && t == OverlapTrace()
    ensures Passes(code, v, t, 0) && AllPacked(code, OverlapPacked(code), v, t, {0, 19})
  {
    hide IsOverlap, OverlapDepths, OverlapPacked, StepPasses, PackedAt;
    OverlapScannedPlain(code, v, t);
    OverlapScannedEnds(code, v, t);
  }

  lemma OverlapLeaves(code: seq<Byte>, v: seq<int>)
    requires IsOverlap(code) && OverlapDepths(v)
    ensures Accepts(code, v, 0) && Leaves(code, OverlapPacked(code), v, {0, 19})
  {
    OverlapOps(code);
    OverlapHalves(code);
    OverlapTraced(code);
    OverlapAssigned(code, v);
    OverlapScanned(code, v, OverlapTrace());
    hide OpOf, IsOverlap, U32, Packed, Passes, AllPacked, Assignment, Trace, Below;
    forall w | Assignment(code, [0], w) ensures Below(v, w) {
      OverlapForced(code, v, w);
    }
  }

  lemma OverlapTargets(code: seq<Byte>, v: seq<int>)
    requires IsOverlap(code) && OverlapDepths(v)
    ensures OnlyTargets(code, OverlapPacked(code), v) && !NoOverlap(code, OverlapPacked(code), v, {0, 19})
  {
    OverlapOps(code);
    OverlapHalves(code);
    hide OpOf, IsOverlap, U32, Packed;
    var code' := OverlapPacked(code);
    forall i: nat, x: nat | Visited(v, i) && Reads(code, i, x) && code'[x] != code[x] ensures InTarget(code, i, x) {
      assert x == 3 || x == 22;
    }
    assert Reads(code, 18, 22) && !Spares(code, code', 18, 19);
  }

  /** verify accepts this code, and what it leaves has no depths: packing writes the target of the jump at 18. */
  lemma OverlapDisturbs(code: seq<Byte>, v: seq<int>)
    requires IsOverlap(code) && OverlapDepths(v)
    ensures Accepts(code, v, 0) && Leaves(code, OverlapPacked(code), v, {0, 19})
    ensures NoAssignment(OverlapPacked(code), [0])
  {
    hide IsOverlap, OverlapDepths, OverlapPacked, Assignment, BelowAll, Passes, AllPacked, OnlyPacked, PackedBegins;
    hide OnlyTargets, NoOverlap, NoAssignment;
    OverlapLeaves(code, v);
    OverlapTargets(code, v);
    OverlapSize(code);
    PackedIff(code, OverlapPacked(code), [0], v, {0, 19});
  }

  lemma OverlapSize(code: seq<Byte>)
    requires IsOverlap(code)
    ensures |code| == 92
  {
  }

  lemma OverlapExists() returns (code: seq<Byte>, v: seq<int>)
    ensures IsOverlap(code) && OverlapDepths(v)
  {
    code := seq(92, i requires 0 <= i < 92 => OverlapByte(i));
    v := seq(92, i requires 0 <= i < 92 => OverlapDepth(i));
  }

  // The frames of the first steps of a run.

  function MainFrame(begin: int): Frame {
    Frame(-1, [], [], [], 0, begin)
  }

  /** Its run leaves the code, where no offset has a depth. */
  lemma OverlapEscapes(code: seq<Byte>, origin: int, globals: seq<int>) returns (run: seq<State>)
    requires IsOverlap(code) && origin >= 3
    ensures |run| == 4 && Initial(run[0]) && Run(OverlapPacked(code), origin, run)
    ensures run[3].Running? && run[3].pc >= |code|
  {
    var code' := OverlapPacked(code);
    OverlapOps(code);
    OverlapHalves(code);
    OverlapMain(code);
    var s0, s1 := Running(0, [MainFrame(-1)], globals), Running(9, [MainFrame(0)], globals);
    var s2, s3 := Running(18, [MainFrame(0)], globals), Running(82 + 0x100_0000, [MainFrame(0)], globals);
    hide OpOf, IsOverlap, U32;
    MainBegins(code', origin, globals);
    assert Step(code', origin, s1, s2);
    assert Step(code', origin, s2, s3);
    hide Step;
    run := [s0, s1, s2, s3];
  }

  lemma OverlapMain(code: seq<Byte>)
    requires IsOverlap(code)
    ensures var code' := OverlapPacked(code);
            && code'[0] == code[0] && code'[9] == code[9] && code'[18] == code[18]
            && Arg(code', 0, 0) == 0x10000 && Arg(code', 0, 1) == 0 && Arg(code', 9, 0) == 18
  {
  }

  /** The BEGIN of the first activation, with one operand and no locals. */
  lemma MainBegins(code: seq<Byte>, origin: int, globals: seq<int>)
    requires |code| >= 9 && OpOf(code[0]) == BEGIN && Arg(code, 0, 0) / 0x10000 <= 1 && Arg(code, 0, 1) == 0
    requires origin >= 3
    ensures Step(code, origin, Running(0, [MainFrame(-1)], globals), Running(9, [MainFrame(0)], globals))
  {
    hide U32, OpOf;
    var s, s' := Running(0, [MainFrame(-1)], globals), Running(9, [MainFrame(0)], globals);
    assert TopOf(s.frames, origin) == origin - 3 by { assert s.frames[..0] == []; }
    var f := Last(s.frames);
    assert f.cells + Last(s'.frames).cells[|f.cells|..] == [];
    assert WithLast(s.frames, MainFrame(0)) == [MainFrame(0)];
    assert Begins(code, origin, s, s', 9);
  }

  // A store to an argument that is not there.

  /** 0 BEGIN 0 0; 9 CALL 19 0; 18 END; 19 BEGIN 1 0; 28 CONST 5; 33 ST A(0); 38 END. */
  function MissingByte(i: nat): Byte {
    if i == 0 || i == 19 then 0x52
    else if i == 9 then 0x56
    else if i == 10 then 19
    else if i == 18 || i == 38 then 0x16
    else if i == 20 then 1
    else if i == 28 then 0x10
    else if i == 29 then 5
    else if i == 33 then 0x42
    else 0
  }

  ghost predicate IsMissing(code: seq<Byte>) {
    |code| == 39 && forall i: nat :: i < 39 ==> code[i] == MissingByte(i)
  }

  function MissingDepth(i: nat): int {
    if i == 0 || i == 9 || i == 19 || i == 28 then 0 else if i == 18 || i == 33 || i == 38 then 1 else -1
  }

  ghost predicate MissingDepths(v: seq<int>) {
    |v| == 39 && forall i: nat :: i < 39 ==> v[i] == MissingDepth(i)
  }

  function MissingPacked(code: seq<Byte>): (code': seq<Byte>)
    requires |code| == 39
    ensures |code'| == 39
  {
    code[3 := 1][22 := 1]
  }

  lemma MissingOps(code: seq<Byte>)
    requires IsMissing(code)
    ensures |code| == 39
    ensures OpOf(code[0]) == BEGIN && OpOf(code[9]) == CALL && OpOf(code[18]) == END && OpOf(code[19]) == BEGIN
    ensures OpOf(code[28]) == CONST && OpOf(code[33]) == ST && LowBits(code[33]) == 2 && OpOf(code[38]) == END
    ensures forall i: nat :: i < |code| ==> code[i] != 0xFF
  {
  }

  lemma MissingArgs(code: seq<Byte>)
    requires IsMissing(code)
    ensures Arg(code, 9, 0) == 19 && Arg(code, 9, 1) == 0 && Arg(code, 19, 0) == 1 && Arg(code, 19, 1) == 0
    ensures Arg(code, 28, 0) == 5 && Arg(code, 33, 0) == 0
    ensures Packed(code, 0) == 0 && Packed(code, 19) == 0
    ensures Packed(MissingPacked(code), 0) == 1 && Packed(MissingPacked(code), 19) == 1
  {
  }

  lemma MissingDepthsAre(v: seq<int>)
    requires MissingDepths(v)
    ensures |v| == 39 && v[0] == v[9] == v[19] == v[28] == 0 && v[18] == v[33] == v[38] == 1
  {
  }

  lemma MissingDecodes(code: seq<Byte>)
    requires IsMissing(code)
    ensures Decode(code, 0) == Instr(BEGIN, 9) && Decode(code, 9) == Instr(CALL, 18)
    ensures Decode(code, 18) == Instr(END, 19)
    ensures Decode(code, 19) == Instr(BEGIN, 28) && Decode(code, 28) == Instr(CONST, 33)
    ensures Decode(code, 33) == Instr(ST, 38)
    ensures Decode(code, 38) == Instr(END, 39)
  {
    MissingOps(code);
    hide OpOf, IsMissing;
    Decodes(code, 0, BEGIN);
    Decodes(code, 9, CALL);
    Decodes(code, 18, END);
    Decodes(code, 19, BEGIN);
    Decodes(code, 28, CONST);
    Decodes(code, 33, ST);
    Decodes(code, 38, END);
  }

  function MissingTrace(): seq<nat> {
    [0, 9, 18, 19, 28, 33, 38]
  }

  lemma MissingTraceIs(t: seq<nat>)
    requires t == MissingTrace()
    ensures |t| == 7 && t[0] == 0 && t[1] == 9 && t[2] == 18 && t[3] == 19 && t[4] == 28 && t[5] == 33 && t[6] == 38
  {
  }

  lemma MissingTraced(code: seq<Byte>)
    requires IsMissing(code)
    ensures Trace(code, 0) == MissingTrace()
  {
    MissingOps(code);
    MissingDecodes(code);
    hide OpOf, IsMissing, Decode;
    assert Trace(code, 39) == [];
    hide Trace;
    TraceStep(code, 38, 39);
    TraceStep(code, 33, 38);
    TraceStep(code, 28, 33);
    TraceStep(code, 19, 28);
    TraceStep(code, 18, 19);
    TraceStep(code, 9, 18);
    TraceStep(code, 0, 9);
  }

  lemma MissingEdges(code: seq<Byte>, v: seq<int>)
    requires IsMissing(code) && MissingDepths(v)
    ensures Consistent(code, v, 0) && Consistent(code, v, 9) && Consistent(code, v, 18) && Consistent(code, v, 19)
    ensures Consistent(code, v, 28) && Consistent(code, v, 33) && Consistent(code, v, 38)
  {
    MissingOps(code);
    MissingArgs(code);
    MissingDepthsAre(v);
    hide OpOf, U32, IsMissing, Consistent, MissingDepths, Packed, MissingPacked;
    BeginEdge(code, v, 0);
    CallEdge(code, v, 9);
    EndEdge(code, v, 18);
    BeginEdge(code, v, 19);
    ConstEdge(code, v, 28);
    StoreEdge(code, v, 33);
    EndEdge(code, v, 38);
  }

  lemma MissingAssigned(code: seq<Byte>, v: seq<int>)
    requires IsMissing(code) && MissingDepths(v)
    ensures Assignment(code, [0], v)
  {
    MissingEdges(code, v);
    hide IsMissing, Consistent;
    forall i: nat | i < |v| ensures Consistent(code, v, i) {
      if !Visited(v, i) {
        NotVisited(code, v, i);
      }
    }
  }

  lemma MissingValues(code: seq<Byte>, w: seq<int>)
    requires IsMissing(code) && Assignment(code, [0], w)
    ensures |w| == 39 && w[0] == w[9] == w[19] == w[28] == 0 && w[18] == w[33] == w[38] == 1
  {
    MissingOps(code);
    MissingArgs(code);
    hide OpOf, U32, IsMissing, Consistent, Packed, MissingPacked;
    BeginEdge(code, w, 0);
    CallEdge(code, w, 9);
    BeginEdge(code, w, 19);
    ConstEdge(code, w, 28);
    StoreEdge(code, w, 33);
  }

  lemma MissingForced(code: seq<Byte>, v: seq<int>, w: seq<int>)
    requires IsMissing(code) && MissingDepths(v) && Assignment(code, [0], w)
    ensures Below(v, w)
  {
    hide IsMissing, Assignment;
    MissingValues(code, w);
  }

  lemma MissingScan(code: seq<Byte>, v: seq<int>, t: seq<nat>)
    requires IsMissing(code) && MissingDepths(v) && t == MissingTrace()
    ensures ScanAt(code, v, t, 0, [], 0) && ScanAt(code, v, t, 1, [0], 0) && ScanAt(code, v, t, 2, [0], 0)
    ensures ScanAt(code, v, t, 3, [], -1) && ScanAt(code, v, t, 4, [19], 0) && ScanAt(code, v, t, 5, [19], 0)
    ensures ScanAt(code, v, t, 6, [19], 1)
  {
    MissingOps(code);
    MissingDepthsAre(v);
    MissingTraceIs(t);
    hide MissingTrace, OpOf, IsMissing, ScanAt, MissingDepths;
    ScanStart(code, v, t);
    ScanNext(code, v, t, 0, [], 0);
    ScanNext(code, v, t, 1, [0], 0);
    ScanNext(code, v, t, 2, [0], 0);
    ScanNext(code, v, t, 3, [], -1);
    ScanNext(code, v, t, 4, [19], 0);
    ScanNext(code, v, t, 5, [19], 0);
  }

  /** The argument exists as far as verify can tell: its function declares one. */
  lemma MissingChecked(code: seq<Byte>, v: seq<int>, t: seq<nat>)
    requires IsMissing(code) && MissingDepths(v) && t == MissingTrace()
    ensures Checked(code, v, t, 5, 0)
  {
    MissingOps(code);
    MissingArgs(code);
    MissingScan(code, v, t);
    hide OpOf, IsMissing, U32, Packed, MissingPacked;
  }

  lemma MissingScannedPlain(code: seq<Byte>, v: seq<int>, t: seq<nat>)
    requires IsMissing(code) && MissingDepths(v) && t == MissingTrace()
    ensures |code| == 39
    ensures forall k: nat :: k < |t| && k != 2 && k != 6 ==>
              StepPasses(code, v, t, k, 0) && PackedAt(code, MissingPacked(code), v, t, k, {0, 19})
  {
    MissingOps(code);
    var code', p := MissingPacked(code), {0, 19};
    MissingDecodes(code);
    MissingChecked(code, v, t);
    MissingDepthsAre(v);
    MissingTraceIs(t);
    hide MissingTrace, MissingDepths, OpOf, IsMissing, Decode, MissingPacked, StepPasses, PackedAt, Checked;
    PlainPasses(code, code', v, t, 0, 0, p, 0);
    PlainPasses(code, code', v, t, 1, 9, p, 0);
    PlainPasses(code, code', v, t, 3, 19, p, 0);
    PlainPasses(code, code', v, t, 4, 28, p, 0);
    VariablePasses(code, code', v, t, 5, 33, p, 0);
  }

  lemma MissingScannedEnds(code: seq<Byte>, v: seq<int>, t: seq<nat>)
    requires IsMissing(code) && MissingDepths(v) && t == MissingTrace()
    ensures |code| == 39
    ensures StepPasses(code, v, t, 2, 0) && PackedAt(code, MissingPacked(code), v, t, 2, {0, 19})
    ensures StepPasses(code, v, t, 6, 0) && PackedAt(code, MissingPacked(code), v, t, 6, {0, 19})
  {
    MissingOps(code);
    var code', p := MissingPacked(code), {0, 19};
    MissingArgs(code);
    MissingDecodes(code);
    MissingScan(code, v, t);
    MissingDepthsAre(v);
    MissingTraceIs(t);
    hide MissingTrace, MissingDepths, OpOf, IsMissing, ScanAt, Decode, U32, Packed, MissingPacked, StepPasses, PackedAt;
    EndPasses(code, code', v, t, 2, 18, [0], 0, 0, p, 0);
    EndPasses(code, code', v, t, 6, 38, [19], 1, 19, p, 0);
  }

  lemma MissingScanned(code: seq<Byte>, v: seq<int>, t: seq<nat>)
    requires IsMissing(code) && MissingDepths(v) && t == MissingTrace()
    ensures Passes(code, v, t, 0) && AllPacked(code, MissingPacked(code), v, t, {0, 19})
  {
    hide IsMissing, MissingDepths, MissingPacked, StepPasses, PackedAt;
    MissingScannedPlain(code, v, t);
    MissingScannedEnds(code, v, t);
  }

  lemma MissingLeaves(code: seq<Byte>, v: seq<int>)
    requires IsMissing(code) && MissingDepths(v)
    ensures Accepts(code, v, 0) && Leaves(code, MissingPacked(code), v, {0, 19})
  {
    MissingOps(code);
    MissingArgs(code);
    MissingTraced(code);
    MissingAssigned(code, v);
    MissingScanned(code, v, MissingTrace());
    hide OpOf, IsMissing, U32, Packed, Passes, AllPacked, Assignment, Trace, Below;
    forall w | Assignment(code, [0], w) ensures Below(v, w) {
      MissingForced(code, v, w);
    }
  }

  function MissingState(pc: nat, callee: seq<Frame>, globals: seq<int>): State {
    Running(pc, [MainFrame(0)] + callee, globals)
  }

  function Callee(begin: int, cells: seq<int>): seq<Frame> {
    [Frame(18, [], [], cells, 0, begin)]
  }

  /** verify accepts this code too. What it leaves runs up to the store at 33, whose argument was not passed: the
      store is no step, as it would write the saved words of the caller. */
  lemma ArgumentMissing(code: seq<Byte>, v: seq<int>, origin: int, globals: seq<int>) returns (run: seq<State>)
    requires IsMissing(code) && MissingDepths(v) && origin >= 7
    ensures Accepts(code, v, 0) && Leaves(code, MissingPacked(code), v, {0, 19})
    ensures AllSame(code, MissingPacked(code), v)
    ensures |run| == 5 && Initial(run[0]) && Run(MissingPacked(code), origin, run)
    ensures !InRange(MissingPacked(code), run[4])
    ensures forall s' :: !Step(MissingPacked(code), origin, run[4], s')
  {
    MissingLeaves(code, v);
    MissingSame(code, v);
    run := MissingRun(code, origin, globals);
    MissingStuck(code, origin, globals);
    hide IsMissing, Step, InRange, AllSame, MissingPacked, Accepts, Leaves;
  }

  lemma MissingSame(code: seq<Byte>, v: seq<int>)
    requires IsMissing(code) && MissingDepths(v)
    ensures AllSame(code, MissingPacked(code), v)
  {
    MissingOps(code);
    hide OpOf, IsMissing;
    var code' := MissingPacked(code);
    forall i: nat | i < |code| && Visited(v, i) ensures SameInstruction(code, code', i) {
    }
  }

  lemma MissingBytes(code: seq<Byte>)
    requires IsMissing(code)
    ensures var code' := MissingPacked(code);
            && code'[0] == code[0] && code'[9] == code[9] && code'[19] == code[19] && code'[28] == code[28]
                && code'[33] == code[33]
            && Arg(code', 0, 0) == 0x10000 && Arg(code', 0, 1) == 0 && Arg(code', 9, 0) == 19 && Arg(code', 9, 1) == 0
            && Arg(code', 19, 0) == 0x10001 && Arg(code', 19, 1) == 0 && Arg(code', 28, 0) == 5
                && Arg(code', 33, 0) == 0
  {
  }

  lemma MissingRun(code: seq<Byte>, origin: int, globals: seq<int>) returns (run: seq<State>)
    requires IsMissing(code) && origin >= 7
    ensures |run| == 5 && Initial(run[0]) && Run(MissingPacked(code), origin, run)
    ensures run[4] == MissingState(33, Callee(19, [Box(5)]), globals)
  {
    var code' := MissingPacked(code);
    MissingOps(code);
    MissingBytes(code);
    hide OpOf, IsMissing, U32, MissingPacked;
    MainBegins(code', origin, globals);
    MissingCall(code', origin, globals);
    MissingBegins(code', origin, globals);
    MissingConst(code', origin, globals);
    hide Step;
    run := [Running(0, [MainFrame(-1)], globals), Running(9, [MainFrame(0)], globals),
            MissingState(19, Callee(-1, []), globals),
            MissingState(28, Callee(19, []), globals), MissingState(33, Callee(19, [Box(5)]), globals)];
  }

  /** A call without arguments from an activation without operands. */
  lemma BareCall(frames: seq<Frame>, ra: int)
    requires frames != [] && Last(frames).cells == []
    ensures Called(frames, 0, ra, 0) == frames + [Frame(ra, [], [], [], 0, -1)]
  {
    var cells := Last(frames).cells;
    assert cells[..|cells| - 0 - 0] == [] && cells[|cells|..] == [];
    assert WithCells(frames, []) == frames;
  }

  lemma BareCallSteps(code: seq<Byte>, origin: int, s: State, s': State)
    requires s.Running? && s.frames != [] && Last(s.frames).cells == [] && Last(s.frames).ra == -1
    requires s.pc + 9 <= |code| && OpOf(code[s.pc]) == CALL && Arg(code, s.pc, 1) == 0
    requires s' == Running(Arg(code, s.pc, 0), s.frames + [Frame(s.pc + 9, [], [], [], 0, -1)], s.globals)
    ensures Step(code, origin, s, s')
  {
    hide U32, OpOf, Step, Called;
    BareCall(s.frames, s.pc + 9);
    Interpreter.CallStep(code, origin, s, s');
  }

  lemma MissingCall(code: seq<Byte>, origin: int, globals: seq<int>)
    requires |code| == 39 && OpOf(code[9]) == CALL && Arg(code, 9, 0) == 19 && Arg(code, 9, 1) == 0
    ensures Step(code, origin, Running(9, [MainFrame(0)], globals), MissingState(19, Callee(-1, []), globals))
  {
    hide U32, OpOf, Step;
    BareCallSteps(code, origin, Running(9, [MainFrame(0)], globals), MissingState(19, Callee(-1, []), globals));
  }

  lemma MissingBegins(code: seq<Byte>, origin: int, globals: seq<int>)
    requires |code| == 39 && OpOf(code[19]) == BEGIN && Arg(code, 19, 0) / 0x10000 <= 1 && Arg(code, 19, 1) == 0
    requires origin >= 7
    ensures Step(code, origin, MissingState(19, Callee(-1, []), globals), MissingState(28, Callee(19, []), globals))
  {
    hide U32, OpOf;
    var s, s' := MissingState(19, Callee(-1, []), globals), MissingState(28, Callee(19, []), globals);
    assert s.frames[..1] == [MainFrame(0)];
    assert TopOf([MainFrame(0)], origin) == origin - 3 by { assert [MainFrame(0)][..0] == []; }
    assert TopOf(s.frames, origin) == origin - 6;
    var f := Last(s.frames);
    assert f.cells + Last(s'.frames).cells[|f.cells|..] == [];
    assert WithLast(s.frames, Last(s'.frames)) == s'.frames;
    assert Begins(code, origin, s, s', 28);
  }

  lemma MissingConst(code: seq<Byte>, origin: int, globals: seq<int>)
    requires |code| == 39 && OpOf(code[28]) == CONST && Arg(code, 28, 0) == 5
    ensures Step(code, origin, MissingState(28, Callee(19, []), globals),
                 MissingState(33, Callee(19, [Box(5)]), globals))
  {
    hide U32, OpOf;
    var s, s' := MissingState(28, Callee(19, []), globals), MissingState(33, Callee(19, [Box(5)]), globals);
    var cells := Last(s.frames).cells;
    assert cells[..|cells| - 0] + [Box(5)] == [Box(5)];
    assert WithCells(s.frames, [Box(5)]) == s'.frames;
    assert Replaces(s, s', 0, 33, false);
  }

  lemma MissingStuck(code: seq<Byte>, origin: int, globals: seq<int>)
    requires IsMissing(code)
    ensures var s := MissingState(33, Callee(19, [Box(5)]), globals);
            !InRange(MissingPacked(code), s) && forall s' :: !Step(MissingPacked(code), origin, s, s')
  {
    MissingOps(code);
    MissingBytes(code);
    hide OpOf, IsMissing, U32, MissingPacked, Step;
    ArgumentStoreSteps(MissingPacked(code), origin, MissingState(33, Callee(19, [Box(5)]), globals));
  }

  lemma MissingExists() returns (code: seq<Byte>, v: seq<int>)
    ensures IsMissing(code) && MissingDepths(v)
  {
    code := seq(39, i requires 0 <= i < 39 => MissingByte(i));
    v := seq(39, i requires 0 <= i < 39 => MissingDepth(i));
  }
}
