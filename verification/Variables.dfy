/** Variables over whole runs: what verify checks against the declared numbers, and what calls must pass. */
module Variables {
  import opened Bytecode
  import opened Verifier
  import opened MaxStack
  import opened Packing
  import opened Frames
  import opened Runs
  import opened Rooms

  predicate Accesses(op: Op) {
    op == LD || op == ST
  }

  /** The variable of a load or store exists in the current activation. */
  ghost predicate InRange(code: seq<Byte>, s: State) {
    s.Running? && s.frames != [] && s.pc + 5 <= |code| && Accesses(OpOf(code[s.pc])) ==>
      var index := Arg(code, s.pc, 0);
      match LowBits(code[s.pc])
      case 0 => index < |s.globals|
      case 1 => index < |Last(s.frames).cells|
      case 2 => index < |Last(s.frames).args|
      case _ => true
  }

  // What can be read off the code.

  /** The instruction at `i` loads or stores an argument. */
  predicate UsesArgument(code: seq<Byte>, i: nat) {
    i + 5 <= |code| && Accesses(OpOf(code[i])) && LowBits(code[i]) == 2
  }

  /** The function at `b` uses only arguments below `n`. */
  ghost predicate UsesBelow(code: seq<Byte>, v: seq<int>, owner: seq<int>, b: int, n: int)
    requires |owner| == |code|
  {
    forall i: nat :: Visited(v, i) && UsesArgument(code, i) && owner[i] == b ==> Arg(code, i, 0) < n
  }

  ghost predicate SuppliedAt(code: seq<Byte>, v: seq<int>, owner: seq<int>, i: nat)
    requires |owner| == |code|
  {
    i + 9 <= |code| && OpOf(code[i]) == CALL ==> UsesBelow(code, v, owner, Arg(code, i, 0), Arg(code, i, 1))
  }

  /** Every call passes the arguments that its function uses; the first activation is passed none. */
  ghost predicate Supplied(code: seq<Byte>, v: seq<int>, owner: seq<int>)
    requires |owner| == |code|
  {
    UsesBelow(code, v, owner, 0, 0) && forall i: nat :: Visited(v, i) ==> SuppliedAt(code, v, owner, i)
  }

  /** The global or local of the load or store at `i` exists. */
  ghost predicate ExistsAt(code: seq<Byte>, owner: seq<int>, globals: nat, i: nat)
    requires |owner| == |code|
  {
    i + 5 <= |code| && Accesses(OpOf(code[i])) ==>
      && (LowBits(code[i]) == 0 ==> Arg(code, i, 0) < globals)
      && (LowBits(code[i]) == 1 ==> 0 <= owner[i] && owner[i] + 9 <= |code| && Arg(code, i, 0) < Arg(code, owner[i], 1))
  }

  ghost predicate AllExist(code: seq<Byte>, v: seq<int>, owner: seq<int>, globals: nat)
    requires |owner| == |code|
  {
    forall i: nat :: Visited(v, i) ==> ExistsAt(code, owner, globals, i)
  }

  /** What the scan of verify has checked at a load or store, against the BEGIN of its function. */
  lemma CheckedVariable(code: seq<Byte>, v: seq<int>, t: seq<nat>, owner: seq<int>, globals: nat, i: nat)
    requires |owner| == |code| && Passes(code, v, t, globals) && AllBelong(code, v, t, owner)
    requires i < |code| && Visited(v, i) && Accesses(OpOf(code[i]))
    ensures owner[i] >= 0 && VariablesExist(code, i, owner[i], globals) && IsBegin(code, v, owner[i])
  {
    hide AllBelong, VariablesExist;
    var first, last, k := PlaceOf(code, v, t, owner, i);
    assert k != first;
    OpenInside(code, v, t, first, last, k);
    assert StepPasses(code, v, t, k, globals);
    assert Checked(code, v, t, k, globals);
  }

  lemma AllChecked(code: seq<Byte>, v: seq<int>, t: seq<nat>, owner: seq<int>, globals: nat)
    requires |owner| == |code| == |v| && Passes(code, v, t, globals) && AllBelong(code, v, t, owner)
    ensures AllExist(code, v, owner, globals)
  {
    hide AllBelong, Passes, U32;
    forall i: nat | Visited(v, i) ensures ExistsAt(code, owner, globals, i) {
      if Accesses(OpOf(code[i])) {
        CheckedVariable(code, v, t, owner, globals, i);
      }
    }
  }

  /** The call at `i` passes at least the arguments that its function declares. */
  ghost predicate PassesDeclared(code: seq<Byte>, i: nat) {
    i + 9 <= |code| && OpOf(code[i]) == CALL ==>
      Arg(code, i, 0) + 9 <= |code| && Arg(code, Arg(code, i, 0), 0) <= Arg(code, i, 1)
  }

  /** On code that verify accepts it is enough to pass as many arguments as are declared. */
  lemma DeclaredSupplied(code: seq<Byte>, v: seq<int>, t: seq<nat>, owner: seq<int>, globals: nat)
    requires |owner| == |code| == |v| && Passes(code, v, t, globals) && AllBelong(code, v, t, owner)
    requires UsesBelow(code, v, owner, 0, 0) && forall i: nat :: Visited(v, i) ==> PassesDeclared(code, i)
    ensures Supplied(code, v, owner)
  {
    hide AllBelong, Passes, U32, OpOf, UsesBelow;
    forall i: nat | Visited(v, i) ensures SuppliedAt(code, v, owner, i) {
      assert PassesDeclared(code, i);
      if i + 9 <= |code| && OpOf(code[i]) == CALL {
        DeclaredAbove(code, v, t, owner, globals, Arg(code, i, 0), Arg(code, i, 1));
      }
    }
  }

  lemma DeclaredAbove(code: seq<Byte>, v: seq<int>, t: seq<nat>, owner: seq<int>, globals: nat, b: nat, n: nat)
    requires |owner| == |code| == |v| && Passes(code, v, t, globals) && AllBelong(code, v, t, owner)
    requires b + 9 <= |code| && Arg(code, b, 0) <= n
    ensures UsesBelow(code, v, owner, b, n)
  {
    hide AllBelong, Passes, U32, OpOf;
    forall i: nat | Visited(v, i) && UsesArgument(code, i) && owner[i] == b ensures Arg(code, i, 0) < n {
      CheckedVariable(code, v, t, owner, globals, i);
    }
  }

  // Packing does not matter.

  lemma UsesPacked(code: seq<Byte>, code': seq<Byte>, v: seq<int>, owner: seq<int>, b: int, n: int)
    requires |owner| == |code| == |code'| == |v| && AllSame(code, code', v) && UsesBelow(code, v, owner, b, n)
    ensures UsesBelow(code', v, owner, b, n)
  {
    hide U32, OpOf, SameInstruction;
    forall i: nat | Visited(v, i) && UsesArgument(code', i) && owner[i] == b ensures Arg(code', i, 0) < n {
      assert SameInstruction(code, code', i);
      SameOpcode(code, code', i);
      SameArg(code, code', i, 0);
    }
  }

  lemma SuppliedPacked(code: seq<Byte>, code': seq<Byte>, v: seq<int>, owner: seq<int>)
    requires |owner| == |code| == |code'| == |v| && AllSame(code, code', v) && Supplied(code, v, owner)
    ensures Supplied(code', v, owner)
  {
    hide U32, OpOf, SameInstruction, UsesBelow, AllSame;
    UsesPacked(code, code', v, owner, 0, 0);
    forall i: nat | Visited(v, i) ensures SuppliedAt(code', v, owner, i) {
      assert SuppliedAt(code, v, owner, i);
      SameAt(code, code', v, i);
      SameOpcode(code, code', i);
      if i + 9 <= |code| && OpOf(code[i]) == CALL {
        SameArg(code, code', i, 0);
        SameArg(code, code', i, 1);
        UsesPacked(code, code', v, owner, Arg(code, i, 0), Arg(code, i, 1));
      }
    }
  }

  lemma SameAt(code: seq<Byte>, code': seq<Byte>, v: seq<int>, i: nat)
    requires |code| == |v| && AllSame(code, code', v) && Visited(v, i)
    ensures SameInstruction(code, code', i)
  {
  }

  /** The owner of every visited offset is a visited BEGIN. */
  ghost predicate OwnersBegin(code: seq<Byte>, v: seq<int>, owner: seq<int>)
    requires |owner| == |code|
  {
    forall i: nat :: i < |code| && Visited(v, i) ==> owner[i] >= 0 && IsBegin(code, v, owner[i])
  }

  lemma BelongBegin(code: seq<Byte>, v: seq<int>, t: seq<nat>, owner: seq<int>)
    requires |owner| == |code| && AllBelong(code, v, t, owner)
    ensures OwnersBegin(code, v, owner)
  {
    hide AllBelong, IsBegin;
    forall i: nat | i < |code| && Visited(v, i) ensures owner[i] >= 0 && IsBegin(code, v, owner[i]) {
      var first, last, k := PlaceOf(code, v, t, owner, i);
    }
  }

  lemma ExistPacked(code: seq<Byte>, code': seq<Byte>, v: seq<int>, owner: seq<int>, globals: nat)
    requires |owner| == |code| == |code'| == |v| && AllSame(code, code', v) && AllExist(code, v, owner, globals)
    requires OwnersBegin(code, v, owner)
    ensures AllExist(code', v, owner, globals)
  {
    hide SameInstruction, AllSame, ExistsAt, IsBegin;
    forall i: nat | Visited(v, i) ensures ExistsAt(code', owner, globals, i) {
      assert ExistsAt(code, owner, globals, i);
      SameAt(code, code', v, i);
      assert owner[i] >= 0 && IsBegin(code, v, owner[i]);
      BeginVisited(code, v, owner[i]);
      SameAt(code, code', v, owner[i]);
      ExistsPacked(code, code', owner, globals, i);
    }
  }

  lemma BeginVisited(code: seq<Byte>, v: seq<int>, b: nat)
    requires IsBegin(code, v, b)
    ensures Visited(v, b) && ArgCount(OpOf(code[b])) == 2
  {
  }

  lemma ExistsPacked(code: seq<Byte>, code': seq<Byte>, owner: seq<int>, globals: nat, i: nat)
    requires |owner| == |code| && ExistsAt(code, owner, globals, i) && SameInstruction(code, code', i)
    requires owner[i] >= 0 && SameInstruction(code, code', owner[i]) && ArgCount(OpOf(code[owner[i]])) == 2
    ensures |code'| == |code| && ExistsAt(code', owner, globals, i)
  {
    SameOpcode(code, code', i);
    hide U32, OpOf, SameInstruction;
    if i + 5 <= |code| && Accesses(OpOf(code[i])) {
      SameArg(code, code', i, 0);
      if owner[i] + 9 <= |code| {
        SameArg(code, code', owner[i], 1);
      }
    }
  }

  // Over runs.

  /** The function that activation `k` executes, or is about to enter. */
  function FunctionOf(s: State, k: nat): int
    requires s.Running? && k < |s.frames|
  {
    if s.frames[k].begin < 0 then Resumes(s, k) else s.frames[k].begin
  }

  /** An activation has the locals that its BEGIN declares and the arguments that its function uses. */
  ghost predicate HasVariables(code: seq<Byte>, v: seq<int>, owner: seq<int>, s: State, k: nat)
    requires s.Running? && k < |s.frames| && |owner| == |code|
  {
    var f := s.frames[k];
    && f.reserved == (if 0 <= f.begin && f.begin + 9 <= |code| then Arg(code, f.begin, 1) else 0)
    && UsesBelow(code, v, owner, FunctionOf(s, k), |f.args|)
  }

  ghost predicate AllHaveVariables(code: seq<Byte>, v: seq<int>, owner: seq<int>, globals: nat, s: State)
    requires |owner| == |code|
  {
    s.Running? ==> |s.globals| == globals && forall k: nat :: k < |s.frames| ==> HasVariables(code, v, owner, s, k)
  }

  lemma StepGlobals(code: seq<Byte>, origin: int, s: State, s': State)
    requires Step(code, origin, s, s')
    ensures s.Running? && (s'.Running? ==> |s'.globals| == |s.globals|)
  {
    hide U32, OpOf, InFragment, Operands, WithCells, WithLast, Called, MapFrames;
  }

  /** Which function the activations of `s` execute: only the current one can be about to enter one. */
  lemma Entered(code: seq<Byte>, v: seq<int>, owner: seq<int>, origin: int, s: State, k: nat)
    requires |owner| == |code| && AllHaveRoom(code, v, owner, origin, s) && s.Running? && k < |s.frames|
    ensures s.frames[k].begin < 0 ==> k + 1 == |s.frames| && IsBegin(code, v, s.pc)
    ensures s.frames[k].begin >= 0 && k + 1 == |s.frames| ==>
              !IsBegin(code, v, s.pc) && s.pc < |code| && owner[s.pc] == s.frames[k].begin
  {
    assert HasRoom(code, v, owner, origin, s, k);
  }

  lemma AdvancesVariables(code: seq<Byte>, v: seq<int>, owner: seq<int>, globals: nat, origin: int, s: State, s': State,
                          d: int)
    requires |owner| == |code| && AllHaveRoom(code, v, owner, origin, s) && AllHaveVariables(code, v, owner, globals, s)
    requires Advances(s, s', d) && SameLocals(s, s') && !IsBegin(code, v, s.pc)
    requires s'.Running? ==> |s'.globals| == |s.globals|
    ensures AllHaveVariables(code, v, owner, globals, s')
  {
    hide UsesBelow, IsBegin, AllHaveRoom, U32;
    forall k: nat | k < |s'.frames| ensures HasVariables(code, v, owner, s', k) {
      assert HasVariables(code, v, owner, s, k);
      Entered(code, v, owner, origin, s, k);
      if k + 1 < |s.frames| {
        assert SameFrameShape(s.frames[k], s'.frames[k]);
      }
    }
  }

  lemma BeginsVariables(code: seq<Byte>, v: seq<int>, owner: seq<int>, globals: nat, origin: int, s: State, s': State)
    requires |owner| == |code| && AllHaveRoom(code, v, owner, origin, s) && AllHaveVariables(code, v, owner, globals, s)
    requires s.Running? && s.frames != [] && s.pc + 9 <= |code| && Begins(code, origin, s, s', s.pc + 9)
    requires IsBegin(code, v, s.pc)
    ensures AllHaveVariables(code, v, owner, globals, s')
  {
    hide UsesBelow, IsBegin, AllHaveRoom, U32, TopOf;
    forall k: nat | k < |s'.frames| ensures HasVariables(code, v, owner, s', k) {
      assert HasVariables(code, v, owner, s, k);
      Entered(code, v, owner, origin, s, k);
    }
  }

  lemma CallVariables(code: seq<Byte>, v: seq<int>, owner: seq<int>, globals: nat, origin: int, s: State, s': State)
    requires |owner| == |code| && AllHaveRoom(code, v, owner, origin, s) && AllHaveVariables(code, v, owner, globals, s)
    requires s.Running? && s.frames != [] && s.pc + 9 <= |code| && Calls(code, s, s', s.pc + 9)
    requires !IsBegin(code, v, s.pc)
    requires UsesBelow(code, v, owner, Arg(code, s.pc, 0), Arg(code, s.pc, 1))
    ensures AllHaveVariables(code, v, owner, globals, s')
  {
    hide UsesBelow, IsBegin, AllHaveRoom, U32;
    var n := |s.frames|;
    forall k: nat | k < |s'.frames| ensures HasVariables(code, v, owner, s', k) {
      if k < n {
        assert HasVariables(code, v, owner, s, k);
        Entered(code, v, owner, origin, s, k);
      }
    }
  }

  lemma EndVariables(code: seq<Byte>, v: seq<int>, owner: seq<int>, globals: nat, origin: int, s: State, s': State)
    requires |owner| == |code| && AllHaveRoom(code, v, owner, origin, s) && AllHaveVariables(code, v, owner, globals, s)
    requires s.Running? && s.frames != [] && Ends(s, s')
    ensures AllHaveVariables(code, v, owner, globals, s')
  {
    hide UsesBelow, IsBegin, AllHaveRoom, U32;
    if s'.Running? {
      forall k: nat | k < |s'.frames| ensures HasVariables(code, v, owner, s', k) {
        assert HasVariables(code, v, owner, s, k);
        Entered(code, v, owner, origin, s, k);
      }
    }
  }

  lemma SuppliedCall(code: seq<Byte>, v: seq<int>, owner: seq<int>, i: nat)
    requires |owner| == |code| && Supplied(code, v, owner) && Visited(v, i)
    ensures SuppliedAt(code, v, owner, i)
  {
  }

  lemma StepVariables(code: seq<Byte>, entries: seq<int>, v: seq<int>, owner: seq<int>, globals: nat, origin: int,
                      s: State, s': State)
    requires Assignment(code, entries, v) && Covers(code, v) && |code| <= INT32_MAX && Owned(code, v, owner)
    requires Supplied(code, v, owner)
    requires DepthsRight(v, s) && AllHaveRoom(code, v, owner, origin, s) && AllHaveVariables(code, v, owner, globals, s)
    requires Step(code, origin, s, s')
    ensures AllHaveVariables(code, v, owner, globals, s')
  {
    hide U32, OpOf, ArgCount, Step, Owned, OwnerRight, Change, Advances, KeepsOuter, MovesOuter, SameLocals, Begins;
    hide Ends, Calls;
    hide DepthsRight, Assignment, Covers, AllHaveRoom, InBody, AllHaveVariables, UsesBelow, IsBegin, Supplied;
    CallOrEnd(code, origin, s, s');
    StepGlobals(code, origin, s, s');
    CurrentDepth(v, s);
    Flows(code, entries, v, s.pc);
    OwnerFacts(code, v, owner, s.pc);
    var op := OpOf(code[s.pc]);
    if op == CALL {
      SuppliedCall(code, v, owner, s.pc);
      CallVariables(code, v, owner, globals, origin, s, s');
    } else if op == END {
      EndVariables(code, v, owner, globals, origin, s, s');
    } else if op == BEGIN || op == CBEGIN {
      BeginsVariables(code, v, owner, globals, origin, s, s');
    } else {
      StepAdvances(code, origin, s, s');
      AdvancesVariables(code, v, owner, globals, origin, s, s', Change(code, s.pc, op));
    }
  }

  /** What the code must be like: nothing in it is about runs. */
  ghost predicate Sound(code: seq<Byte>, entries: seq<int>, v: seq<int>, owner: seq<int>, globals: nat) {
    && |code| <= INT32_MAX && 0 in entries
    && Assignment(code, entries, v) && Covers(code, v)
    && Owned(code, v, owner) && IsBegin(code, v, 0)
    && Supplied(code, v, owner) && AllExist(code, v, owner, globals)
  }

  lemma {:induction false} RunVariables(code: seq<Byte>, entries: seq<int>, v: seq<int>, owner: seq<int>, globals: nat,
                                        origin: int,
                                        run: seq<State>, k: nat)
    requires Sound(code, entries, v, owner, globals)
    requires k < |run| && Initial(run[0]) && Run(code, origin, run) && |run[0].globals| == globals
    ensures AllHaveVariables(code, v, owner, globals, run[k])
  {
    hide Assignment, DepthsRight, Step, Covers, OwnerRight, UsesBelow, IsBegin, AllExist;
    if k > 0 {
      RunVariables(code, entries, v, owner, globals, origin, run, k - 1);
      RunRight(code, entries, v, origin, run, k - 1);
      RunRoom(code, entries, v, owner, origin, run, k - 1);
      assert Step(code, origin, run[k - 1], run[k - 1 + 1]);
      StepVariables(code, entries, v, owner, globals, origin, run[k - 1], run[k]);
    }
  }

  /** Every load and store of every run names a variable that exists. */
  lemma RunInRange(code: seq<Byte>, entries: seq<int>, v: seq<int>, owner: seq<int>, globals: nat, origin: int,
                   run: seq<State>, k: nat)
    requires Sound(code, entries, v, owner, globals)
    requires k < |run| && Initial(run[0]) && Run(code, origin, run) && |run[0].globals| == globals
    ensures InRange(code, run[k])
  {
    hide Assignment, DepthsRight, Step, Covers, OwnerRight, Supplied, UsesBelow, IsBegin, AllExist, AllHaveRoom;
    hide AllHaveVariables, InRange, Run;
    RunVariables(code, entries, v, owner, globals, origin, run, k);
    RunRight(code, entries, v, origin, run, k);
    RunRoom(code, entries, v, owner, origin, run, k);
    StateInRange(code, v, owner, globals, origin, run[k]);
  }

  lemma StateInRange(code: seq<Byte>, v: seq<int>, owner: seq<int>, globals: nat, origin: int, s: State)
    requires |owner| == |code| && AllExist(code, v, owner, globals) && DepthsRight(v, s)
    requires AllHaveRoom(code, v, owner, origin, s) && AllHaveVariables(code, v, owner, globals, s)
    ensures InRange(code, s)
  {
    hide U32, AllHaveRoom;
    if s.Running? && s.pc + 5 <= |code| && Accesses(OpOf(code[s.pc])) {
      var n := |s.frames|;
      CurrentDepth(v, s);
      Entered(code, v, owner, origin, s, n - 1);
      assert HasVariables(code, v, owner, s, n - 1);
      assert ExistsAt(code, owner, globals, s.pc);
    }
  }

  /** What verify leaves is sound in this sense, if the depths cover the operands, functions are entered by calls
      only, calls pass what is used, and packing changes no visited instruction. */
  lemma VerifiedSound(code: seq<Byte>, code': seq<Byte>, entries: seq<int>, v: seq<int>, packed: set<nat>,
                      owner: seq<int>, globals: nat)
    requires Assignment(code, entries, v) && 0 in entries && |code| <= INT32_MAX
    requires Passes(code, v, Trace(code, 0), globals)
    requires OnlyPacked(code, code', packed) && PackedBegins(code, v, packed) && NoOverlap(code, code', v, packed)
    requires Covers(code, v) && IsBegin(code, v, 0)
    requires AllBelong(code, v, Trace(code, 0), owner) && Owned(code, v, owner) && Supplied(code, v, owner)
    ensures Sound(code', entries, v, owner, globals)
  {
    hide Assignment, Covers, NoOverlap, OnlyPacked, AllBelong, IsBegin, PackedBegins, Owned, Passes, Supplied, AllExist;
    hide AllSame;
    AssignmentLength(code, entries, v);
    PackedLength(code, code', packed);
    OwnedPacked(code, code', v, packed, owner);
    AssignmentPacked(code, code', entries, v, packed);
    CoversPacked(code, code', v, packed);
    SuppliedPacked(code, code', v, owner);
    AllChecked(code, v, Trace(code, 0), owner, globals);
    BelongBegin(code, v, Trace(code, 0), owner);
    ExistPacked(code, code', v, owner, globals);
  }

  // A store past the arguments.

  /** A store to an argument is a step exactly if the argument was passed. */
  lemma ArgumentStoreSteps(code: seq<Byte>, origin: int, s: State)
    requires s.Running? && s.frames != [] && s.pc + 5 <= |code| && Last(s.frames).cells != []
    requires OpOf(code[s.pc]) == ST && LowBits(code[s.pc]) == 2
    ensures (exists s' :: Step(code, origin, s, s')) <==> InRange(code, s)
  {
    hide U32;
    var index, f := Arg(code, s.pc, 0), Last(s.frames);
    if index < |f.args| {
      var s' := Running(s.pc + 5, WithLast(s.frames, f.(args := f.args[index := f.cells[|f.cells| - 1]])), s.globals);
      assert Stores(code, s, s', s.pc + 5);
      assert Step(code, origin, s, s');
    }
  }
}
