/** Room for operands over whole runs, and what the packed depths say about it. */
module Rooms {
  import opened Bytecode
  import opened Verifier
  import opened MaxStack
  import opened Packing
  import opened Frames
  import opened Runs

  /** The upper half of the first argument of a BEGIN, as BEGIN reads it. */
  function MaxStackOf(code: seq<Byte>, b: int): int {
    if 0 <= b && b + 9 <= |code| then Arg(code, b, 0) / 0x10000 else 0
  }

  lemma MaxStackIsPacked(code: seq<Byte>, b: nat)
    requires b + 9 <= |code|
    ensures MaxStackOf(code, b) == Packed(code, b)
  {
    var low, high := code[b + 1] as int + 0x100 * code[b + 2] as int, Packed(code, b);
    assert Arg(code, b, 0) == low + 0x10000 * high && 0 <= low < 0x10000;
  }

  /** What verify packs is the room that is needed: the depth at `t[k]`, in the function from `t[first]` to `t[last]`.
      */
  lemma PackedSuffices(code: seq<Byte>, code': seq<Byte>, v: seq<int>, t: seq<nat>, first: nat, last: nat,
                       packed: set<nat>, k: nat)
    requires OneFunction(code, v, t, first, last) && HighWater(code, v, t[..first]) <= 0
    requires AllPacked(code, code', v, t, packed) && t[first] + 9 <= |code'|
    requires Bounded(v, t, first, last, 0xFFFF) && first <= k <= last && Visited(v, t[k])
    ensures v[t[k]] <= MaxStackOf(code', t[first])
  {
    PackedBounds(code, code', v, t, first, last, packed);
    MaxStackIsPacked(code', t[first]);
  }

  ghost predicate InBody(code: seq<Byte>, v: seq<int>, owner: seq<int>, i: nat, j: nat) {
    i < |owner| && j < |owner| && owner[j] == owner[i] && !IsBegin(code, v, j)
  }

  /** `owner` gives every visited offset the BEGIN of its function: functions are only entered by calls
      at their BEGIN, and only left by calls and END. */
  ghost predicate OwnerRight(code: seq<Byte>, v: seq<int>, owner: seq<int>, i: nat)
    requires i < |code| == |owner|
  {
    var op := OpOf(code[i]);
    var next := i + 1 + 4 * ArgCount(op);
    Visited(v, i) && next <= |code| ==>
      && (IsBegin(code, v, i) ==> owner[i] == i)
      && (FallsThrough(op) ==> InBody(code, v, owner, i, next))
      && (Jumps(op) ==> InBody(code, v, owner, i, Arg(code, i, 0)))
      && (op == CALL ==> IsBegin(code, v, Arg(code, i, 0)))
  }

  ghost predicate Owned(code: seq<Byte>, v: seq<int>, owner: seq<int>) {
    |owner| == |code| == |v| && forall i: nat :: i < |code| ==> OwnerRight(code, v, owner, i)
  }

  /** Every depth is at most what the BEGIN of its function says. */
  ghost predicate Fits(code: seq<Byte>, v: seq<int>, owner: seq<int>) {
    |owner| == |code| && forall i: nat :: i < |code| && Visited(v, i) ==> v[i] <= MaxStackOf(code, owner[i])
  }

  /** The frame pointer of activation `k`. */
  function FramePointer(frames: seq<Frame>, origin: int, k: nat): int
    requires k < |frames|
  {
    TopOf(frames[..k], origin) - |frames[k].args| - |frames[k].closure| - 3
  }

  /** An activation is about to execute its BEGIN, or has room for the greatest depth of its function. */
  ghost predicate HasRoom(code: seq<Byte>, v: seq<int>, owner: seq<int>, origin: int, s: State, k: nat)
    requires s.Running? && k < |s.frames| && |owner| == |code|
  {
    var f, at := s.frames[k], Resumes(s, k);
    && 0 <= at < |code|
    && if f.begin < 0 then k + 1 == |s.frames| && IsBegin(code, v, at)
       else
         && !IsBegin(code, v, at)
         && owner[at] == f.begin
         && FramePointer(s.frames, origin, k) - f.reserved + 1 >= MaxStackOf(code, f.begin)
  }

  ghost predicate AllHaveRoom(code: seq<Byte>, v: seq<int>, owner: seq<int>, origin: int, s: State)
    requires |owner| == |code|
  {
    s.Running? ==> s.frames != [] && forall k: nat :: k < |s.frames| ==> HasRoom(code, v, owner, origin, s, k)
  }

  lemma {:induction false} TopOfShape(fs: seq<Frame>, gs: seq<Frame>, origin: int)
    requires SameShape(fs, gs)
    ensures TopOf(gs, origin) == TopOf(fs, origin)
  {
    if fs != [] {
      var n := |fs| - 1;
      assert SameFrameShape(fs[n], gs[n]);
      assert SameShape(fs[..n], gs[..n]) by {
        forall k: nat | k < n ensures SameFrameShape(fs[..n][k], gs[..n][k]) {
          assert SameFrameShape(fs[k], gs[k]);
        }
      }
      TopOfShape(fs[..n], gs[..n], origin);
    }
  }

  lemma AdvancesPointers(s: State, s': State, d: int, origin: int, k: nat)
    requires Advances(s, s', d) && k < |s.frames|
    ensures FramePointer(s'.frames, origin, k) == FramePointer(s.frames, origin, k)
  {
    assert SameShape(s.frames[..k], s'.frames[..k]) by {
      forall j: nat | j < k ensures SameFrameShape(s.frames[..k][j], s'.frames[..k][j]) {
        assert SameFrameShape(s.frames[j], s'.frames[j]);
      }
    }
    TopOfShape(s.frames[..k], s'.frames[..k], origin);
    if k + 1 < |s.frames| {
      assert SameFrameShape(s.frames[k], s'.frames[k]);
    }
  }

  /** A step inside of a body that is not its BEGIN. */
  lemma AdvancesRoom(code: seq<Byte>, v: seq<int>, owner: seq<int>, origin: int, s: State, s': State, d: int)
    requires |owner| == |code| && AllHaveRoom(code, v, owner, origin, s)
    requires Advances(s, s', d) && SameLocals(s, s') && !IsBegin(code, v, s.pc) && InBody(code, v, owner, s.pc, s'.pc)
    ensures AllHaveRoom(code, v, owner, origin, s')
  {
    hide FramePointer, IsBegin, MaxStackOf;
    var n := |s.frames|;
    assert HasRoom(code, v, owner, origin, s, n - 1);
    forall k: nat | k < n ensures HasRoom(code, v, owner, origin, s', k) {
      assert HasRoom(code, v, owner, origin, s, k);
      AdvancesPointers(s, s', d, origin, k);
      if k + 1 < n {
        assert SameFrameShape(s.frames[k], s'.frames[k]);
      }
      if k + 2 < n {
        assert SameFrameShape(s.frames[k + 1], s'.frames[k + 1]);
      }
    }
  }

  lemma BeginsRoom(code: seq<Byte>, v: seq<int>, owner: seq<int>, origin: int, s: State, s': State)
    requires |owner| == |code| && AllHaveRoom(code, v, owner, origin, s) && DepthsRight(v, s)
    requires s.Running? && s.frames != [] && s.pc + 9 <= |code| && Begins(code, origin, s, s', s.pc + 9)
    requires owner[s.pc] == s.pc && InBody(code, v, owner, s.pc, s.pc + 9)
    ensures AllHaveRoom(code, v, owner, origin, s')
  {
    hide IsBegin, DepthsRight, Begins, U32;
    var n := |s.frames|;
    BeginsAdvances(code, origin, s, s', s.pc + 9);
    CurrentDepth(v, s);
    forall k: nat | k < n ensures HasRoom(code, v, owner, origin, s', k) {
      assert HasRoom(code, v, owner, origin, s, k);
      AdvancesPointers(s, s', 0, origin, k);
      if k + 1 < n {
        assert SameFrameShape(s.frames[k], s'.frames[k]);
      } else {
        BeginChecked(code, origin, s, s');
      }
      if k + 2 < n {
        assert SameFrameShape(s.frames[k + 1], s'.frames[k + 1]);
      }
    }
  }

  /** What the check of BEGIN leaves for the operands of the body. */
  lemma BeginChecked(code: seq<Byte>, origin: int, s: State, s': State)
    requires s.Running? && s.frames != [] && s.pc + 9 <= |code| && Begins(code, origin, s, s', s.pc + 9)
    requires OperandDepth(Last(s.frames)) >= 0
    ensures Last(s'.frames).begin == s.pc
    ensures FramePointer(s.frames, origin, |s.frames| - 1) - Last(s'.frames).reserved + 1 >= MaxStackOf(code, s.pc)
  {
  }

  lemma CallRoom(code: seq<Byte>, v: seq<int>, owner: seq<int>, origin: int, s: State, s': State)
    requires |owner| == |code| && AllHaveRoom(code, v, owner, origin, s)
    requires s.Running? && s.frames != [] && s.pc + 9 <= |code| && Calls(code, s, s', s.pc + 9)
    requires InBody(code, v, owner, s.pc, s.pc + 9) && !IsBegin(code, v, s.pc) && IsBegin(code, v, Arg(code, s.pc, 0))
    ensures AllHaveRoom(code, v, owner, origin, s')
  {
    hide TopOf, U32;
    var n := |s.frames|;
    forall k: nat | k < n + 1 ensures HasRoom(code, v, owner, origin, s', k) {
      if k < n {
        assert HasRoom(code, v, owner, origin, s, k);
        assert s'.frames[..k] == s.frames[..k];
      }
    }
  }

  lemma EndRoom(code: seq<Byte>, v: seq<int>, owner: seq<int>, origin: int, s: State, s': State)
    requires |owner| == |code| && AllHaveRoom(code, v, owner, origin, s)
    requires s.Running? && s.frames != [] && Ends(s, s')
    ensures AllHaveRoom(code, v, owner, origin, s')
  {
    hide TopOf, IsBegin;
    if s'.Running? {
      forall k: nat | k < |s'.frames| ensures HasRoom(code, v, owner, origin, s', k) {
        assert HasRoom(code, v, owner, origin, s, k);
        assert s'.frames[..k] == s.frames[..k];
      }
    }
  }

  lemma OwnerFacts(code: seq<Byte>, v: seq<int>, owner: seq<int>, i: nat)
    requires Owned(code, v, owner) && Visited(v, i) && i + 1 + 4 * ArgCount(OpOf(code[i])) <= |code|
    ensures |owner| == |code|
    ensures var op := OpOf(code[i]);
            && (IsBegin(code, v, i) <==> op == BEGIN || op == CBEGIN)
            && (IsBegin(code, v, i) ==> owner[i] == i)
            && (FallsThrough(op) ==> InBody(code, v, owner, i, i + 1 + 4 * ArgCount(op)))
            && (Jumps(op) ==> InBody(code, v, owner, i, Arg(code, i, 0)))
            && (op == CALL ==> IsBegin(code, v, Arg(code, i, 0)))
            && (op == CALL || op == BEGIN || op == CBEGIN ==> FallsThrough(op) && ArgCount(op) == 2)
  {
    assert OwnerRight(code, v, owner, i);
  }

  lemma StepRoom(code: seq<Byte>, entries: seq<int>, v: seq<int>, owner: seq<int>, origin: int, s: State, s': State)
    requires Assignment(code, entries, v) && Covers(code, v) && |code| <= INT32_MAX && Owned(code, v, owner)
    requires DepthsRight(v, s) && AllHaveRoom(code, v, owner, origin, s) && Step(code, origin, s, s')
    ensures AllHaveRoom(code, v, owner, origin, s')
  {
    hide U32, OpOf, ArgCount, Step, Owned, OwnerRight, Change, Advances, KeepsOuter, MovesOuter, SameLocals, Begins;
    hide Ends, Calls, DepthsRight, Assignment, Covers, AllHaveRoom, InBody;
    CallOrEnd(code, origin, s, s');
    CurrentDepth(v, s);
    Flows(code, entries, v, s.pc);
    OwnerFacts(code, v, owner, s.pc);
    var op := OpOf(code[s.pc]);
    if op == CALL {
      CallRoom(code, v, owner, origin, s, s');
    } else if op == END {
      EndRoom(code, v, owner, origin, s, s');
    } else if op == BEGIN || op == CBEGIN {
      BeginsRoom(code, v, owner, origin, s, s');
    } else {
      StepAdvances(code, origin, s, s');
      AdvancesRoom(code, v, owner, origin, s, s', Change(code, s.pc, op));
    }
  }

  /** In every state of every run an activation past its BEGIN is in the function of that BEGIN, with the room
      that the BEGIN asked for. */
  lemma {:induction false} RunRoom(code: seq<Byte>, entries: seq<int>, v: seq<int>, owner: seq<int>, origin: int,
                                   run: seq<State>, k: nat)
    requires Assignment(code, entries, v) && Covers(code, v) && |code| <= INT32_MAX && 0 in entries
    requires Owned(code, v, owner) && IsBegin(code, v, 0)
    requires k < |run| && Initial(run[0]) && Run(code, origin, run)
    ensures AllHaveRoom(code, v, owner, origin, run[k])
  {
    hide Assignment, DepthsRight, Step, Covers, OwnerRight;
    if k > 0 {
      RunRoom(code, entries, v, owner, origin, run, k - 1);
      RunRight(code, entries, v, origin, run, k - 1);
      assert Step(code, origin, run[k - 1], run[k - 1 + 1]);
      StepRoom(code, entries, v, owner, origin, run[k - 1], run[k]);
    }
  }

  /** In every state of every run the current activation, once past its BEGIN, leaves its operands inside
      the array: the first free slot is at least the one below it. */
  lemma RunFits(code: seq<Byte>, entries: seq<int>, v: seq<int>, owner: seq<int>, origin: int, run: seq<State>, k: nat)
    requires Assignment(code, entries, v) && Covers(code, v) && |code| <= INT32_MAX && 0 in entries
    requires Owned(code, v, owner) && Fits(code, v, owner) && IsBegin(code, v, 0)
    requires k < |run| && Initial(run[0]) && Run(code, origin, run)
    ensures run[k].Running? ==>
              run[k].frames != [] && (Last(run[k].frames).begin >= 0 ==> TopOf(run[k].frames, origin) >= -1)
  {
    hide Assignment, DepthsRight, Step, Covers, Owned, IsBegin, MaxStackOf, Run, Initial;
    RunRight(code, entries, v, origin, run, k);
    RunRoom(code, entries, v, owner, origin, run, k);
    if run[k].Running? {
      CurrentDepth(v, run[k]);
      assert HasRoom(code, v, owner, origin, run[k], |run[k].frames| - 1);
    }
  }

  // What verify leaves.

  /** Offset `i` is in a function of the trace whose BEGIN is its owner. */
  ghost predicate Belongs(code: seq<Byte>, v: seq<int>, t: seq<nat>, owner: seq<int>, i: nat, first: nat, last: nat,
                          k: nat) {
    && i < |owner|
    && OneFunction(code, v, t, first, last)
    && first <= k <= last && t[k] == i && owner[i] == t[first]
  }

  ghost predicate AllBelong(code: seq<Byte>, v: seq<int>, t: seq<nat>, owner: seq<int>) {
    forall i: nat :: i < |code| && Visited(v, i) ==>
        exists first: nat, last: nat, k: nat :: Belongs(code, v, t, owner, i, first, last, k)
  }

  ghost predicate Ascends(t: seq<nat>) {
    forall j: nat, k: nat :: j < k < |t| ==> t[j] < t[k]
  }

  lemma {:induction false} TraceFrom(code: seq<Byte>, off: nat, k: nat)
    requires k < |Trace(code, off)|
    ensures off <= Trace(code, off)[k] < |code|
    decreases k
  {
    if k > 0 {
      TraceFrom(code, Decode(code, off).next, k - 1);
    }
  }

  lemma {:induction false} TraceOrdered(code: seq<Byte>, off: nat, j: nat, k: nat)
    requires j < k < |Trace(code, off)|
    ensures Trace(code, off)[j] < Trace(code, off)[k]
    decreases k
  {
    if j == 0 {
      TraceFrom(code, Decode(code, off).next, k - 1);
    } else {
      TraceOrdered(code, Decode(code, off).next, j - 1, k - 1);
    }
  }

  lemma TraceAscends(code: seq<Byte>)
    ensures Ascends(Trace(code, 0))
  {
    forall j: nat, k: nat | j < k < |Trace(code, 0)| ensures Trace(code, 0)[j] < Trace(code, 0)[k] {
      TraceOrdered(code, 0, j, k);
    }
  }

  ghost predicate SkippedBetween(v: seq<int>, t: seq<nat>, lo: nat, hi: nat)
    requires hi <= |t|
  {
    forall x: nat :: lo <= x < hi ==> !Visited(v, t[x])
  }

  lemma PlaceOf(code: seq<Byte>, v: seq<int>, t: seq<nat>, owner: seq<int>, i: nat)
    returns (first: nat, last: nat, k: nat)
    requires AllBelong(code, v, t, owner) && i < |code| && Visited(v, i)
    ensures Belongs(code, v, t, owner, i, first, last, k) && first <= k <= last && first < last < |t|
  {
    first, last, k :| Belongs(code, v, t, owner, i, first, last, k);
  }

  /** Before a function the high-water mark is clear, as no visited offset lies between functions. */
  lemma {:induction false} ClearBefore(code: seq<Byte>, v: seq<int>, t: seq<nat>, owner: seq<int>, first: nat,
                                       last: nat, j: nat)
    requires Ascends(t) && AllBelong(code, v, t, owner) && OneFunction(code, v, t, first, last) && j <= first < |t|
    requires forall x: nat :: x < |t| ==> t[x] < |code|
    requires SkippedBetween(v, t, j, first)
    ensures HighWater(code, v, t[..j]) <= 0
    decreases j
  {
    hide AllBelong, Ascends, OneFunction;
    if j > 0 {
      var x := j - 1;
      assert t[..j] == t[..x] + [t[x]];
      OneMore(code, v, t[..x], t[x]);
      if Visited(v, t[x]) {
        EndsBefore(code, v, t, owner, first, last, x);
      } else {
        ClearBefore(code, v, t, owner, first, last, x);
      }
    }
  }

  /** The last visited offset before a function is an END. */
  lemma EndsBefore(code: seq<Byte>, v: seq<int>, t: seq<nat>, owner: seq<int>, first: nat, last: nat, x: nat)
    requires Ascends(t) && AllBelong(code, v, t, owner) && OneFunction(code, v, t, first, last)
    requires x < first < |t| && Visited(v, t[x]) && t[x] < |code| && SkippedBetween(v, t, x + 1, first)
    ensures IsEnd(code, v, t[x])
  {
    hide OpOf, AllBelong, Visited;
    var first', last', k := PlaceOf(code, v, t, owner, t[x]);
    SameIndex(t, k, x);
    if last' != x {
      EndVisited(code, v, t[last']);
      assert last' >= first;
      BeginNotEnd(code, v, t[first]);
      assert false;
    }
  }

  lemma SameIndex(t: seq<nat>, k: nat, x: nat)
    requires Ascends(t) && k < |t| && x < |t| && t[k] == t[x]
    ensures k == x
  {
  }

  lemma EndVisited(code: seq<Byte>, v: seq<int>, i: nat)
    ensures IsEnd(code, v, i) ==> Visited(v, i)
  {
  }

  lemma BeginNotEnd(code: seq<Byte>, v: seq<int>, i: nat)
    ensures IsBegin(code, v, i) ==> !IsEnd(code, v, i)
  {
  }

  lemma OwnerPacked(code: seq<Byte>, code': seq<Byte>, v: seq<int>, owner: seq<int>, i: nat)
    requires |v| == |code| == |code'| == |owner| && i < |code| && OwnerRight(code, v, owner, i)
    requires AllSame(code, code', v)
    ensures OwnerRight(code', v, owner, i)
  {
    hide U32, SameInstruction, OpOf;
    forall j: nat ensures IsBegin(code', v, j) <==> IsBegin(code, v, j) {
      if Visited(v, j) {
        assert SameInstruction(code, code', j);
        SameOpcode(code, code', j);
      }
    }
    if Visited(v, i) {
      assert SameInstruction(code, code', i);
      SameOpcode(code, code', i);
      if i + 1 + 4 * ArgCount(OpOf(code[i])) <= |code| && ArgCount(OpOf(code[i])) > 0 {
        SameArg(code, code', i, 0);
      }
    }
  }

  lemma OwnedPacked(code: seq<Byte>, code': seq<Byte>, v: seq<int>, packed: set<nat>, owner: seq<int>)
    requires Owned(code, v, owner) && IsBegin(code, v, 0)
    requires OnlyPacked(code, code', packed) && PackedBegins(code, v, packed) && NoOverlap(code, code', v, packed)
    ensures |owner| == |code| && AllSame(code, code', v) && Owned(code', v, owner) && IsBegin(code', v, 0)
  {
    hide OwnerRight, OnlyPacked, NoOverlap, PackedBegins, SameInstruction;
    SameIfNoOverlap(code, code', v, packed);
    PackedLength(code, code', packed);
    assert SameInstruction(code, code', 0);
    SameOpcode(code, code', 0);
    forall i: nat | i < |code'| ensures OwnerRight(code', v, owner, i) {
      OwnerPacked(code, code', v, owner, i);
    }
  }

  ghost predicate DepthsFit(v: seq<int>) {
    forall i: nat :: Visited(v, i) ==> v[i] <= 0xFFFF
  }

  /** What verify packs is enough room for every run of the code that it leaves: if every visited offset is in
      one function of the trace, entered by calls only, and depths fit 16 bits, no operand of an activation
      past its BEGIN is ever outside of the array. */
  lemma VerifiedRunFits(code: seq<Byte>, code': seq<Byte>, entries: seq<int>, v: seq<int>, packed: set<nat>,
                        owner: seq<int>,
                        origin: int, run: seq<State>, k: nat)
    requires Assignment(code, entries, v) && 0 in entries && |code| <= INT32_MAX
    requires AllPacked(code, code', v, Trace(code, 0), packed) && OnlyPacked(code, code', packed)
    requires PackedBegins(code, v, packed)
    requires NoOverlap(code, code', v, packed) && Covers(code, v) && IsBegin(code, v, 0)
    requires AllBelong(code, v, Trace(code, 0), owner) && Owned(code, v, owner) && DepthsFit(v)
    requires k < |run| && Initial(run[0]) && Run(code', origin, run)
    ensures run[k].Running? ==>
              run[k].frames != [] && (Last(run[k].frames).begin >= 0 ==> TopOf(run[k].frames, origin) >= -1)
  {
    hide Assignment, Covers, Run, Initial, Fits, NoOverlap, OnlyPacked, AllPacked, AllBelong, IsBegin, PackedBegins;
    hide DepthsFit, Owned;
    AssignmentLength(code, entries, v);
    PackedLength(code, code', packed);
    OwnedPacked(code, code', v, packed, owner);
    FitsPacked(code, code', v, packed, owner);
    AssignmentPacked(code, code', entries, v, packed);
    CoversPacked(code, code', v, packed);
    RunFits(code', entries, v, owner, origin, run, k);
  }

  lemma FitsPacked(code: seq<Byte>, code': seq<Byte>, v: seq<int>, packed: set<nat>, owner: seq<int>)
    requires |v| == |code| == |code'| == |owner|
    requires AllPacked(code, code', v, Trace(code, 0), packed) && PackedBegins(code, v, packed)
    requires AllBelong(code, v, Trace(code, 0), owner) && DepthsFit(v)
    ensures Fits(code', v, owner)
  {
    hide AllPacked, AllBelong, MaxStackOf, Trace, DepthsFit, PackedBegins;
    forall i: nat | i < |code'| && Visited(v, i) ensures v[i] <= MaxStackOf(code', owner[i]) {
      OwnerSuffices(code, code', v, packed, owner, i);
    }
  }

  lemma OwnerSuffices(code: seq<Byte>, code': seq<Byte>, v: seq<int>, packed: set<nat>, owner: seq<int>, i: nat)
    requires AllPacked(code, code', v, Trace(code, 0), packed) && AllBelong(code, v, Trace(code, 0), owner)
    requires |owner| == |code| == |code'|
    requires PackedBegins(code, v, packed) && DepthsFit(v)
    requires i < |code| && Visited(v, i)
    ensures v[i] <= MaxStackOf(code', owner[i])
  {
    hide MaxStackOf, OneFunction, HighWater, Trace;
    var t := Trace(code, 0);
    var first: nat, last: nat, k: nat :| Belongs(code, v, t, owner, i, first, last, k);
    assert OneFunction(code, v, t, first, last);
    OneFunctionInside(code, v, t, first, last);
    TraceAscends(code);
    forall x: nat | x < |t| ensures t[x] < |code| {
      TraceFrom(code, 0, x);
    }
    ClearBefore(code, v, t, owner, first, last, first);
    PackedBounds(code, code', v, t, first, last, packed);
    PackedSuffices(code, code', v, t, first, last, packed, k);
  }

  lemma OneFunctionInside(code: seq<Byte>, v: seq<int>, t: seq<nat>, first: nat, last: nat)
    requires OneFunction(code, v, t, first, last)
    ensures first < last < |t|
  {
  }
}
