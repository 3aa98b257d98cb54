/** The instructions outside of the fragment: the depth that the verifier computes for them, against what their
    handlers do to the cells of the current frame. */
module Depths {
  import opened Bytecode
  import opened Verifier
  import opened Frames
  import opened Runs

  /** The operands of the last frame. */
  function DepthOf(frames: seq<Frame>): int
    requires frames != []
  {
    OperandDepth(Last(frames))
  }

  // CALLC.

  /** A callee is at its END: around it are the frames that closures_call or call_stack_call left, and any
      collection since has only moved values. */
  ghost predicate Returning(s: State, frames: seq<Frame>, nargs: nat, ra: nat, isClosure: nat)
    requires frames != [] && nargs + isClosure <= |Last(frames).cells|
  {
    && s.Running? && |s.frames| == |frames| + 1
    && SameShape(Called(frames, nargs, ra, isClosure)[..|frames|], s.frames[..|frames|])
    && Last(s.frames).ra == ra
  }

  /** After the call of a closure the caller goes on after the CALLC, at the depth of the verifier: the
      arguments and the closure are gone, and the result is there. */
  lemma ClosureCallDepth(code: seq<Byte>, i: nat, frames: seq<Frame>, s: State, s': State)
    requires i + 5 <= |code| && OpOf(code[i]) == CALLC && frames != []
    requires Arg(code, i, 0) + 1 <= |Last(frames).cells| && Arg(code, i, 0) <= DepthOf(frames) <= INT32_MAX
    requires Returning(s, frames, Arg(code, i, 0), i + 5, 1) && Ends(s, s')
    ensures s'.Running? && s'.frames != [] && s'.pc == i + 5
    ensures DepthAfter(code, DepthOf(frames), i, CALLC) == Depth(DepthOf(s'.frames))
    ensures i + 5 < UINT32 ==> Decode(code, i) == Instr(CALLC, s'.pc)
  {
    var n := Arg(code, i, 0);
    CallerCells(frames, n, i + 5, 1);
    var outer := s.frames[..|frames|];
    assert s.frames[..|s.frames| - 1] == outer;
    assert SameFrameShape(Called(frames, n, i + 5, 1)[..|frames|][|frames| - 1], outer[|frames| - 1]);
  }

  lemma CallerCells(frames: seq<Frame>, nargs: nat, ra: nat, isClosure: nat)
    requires frames != [] && nargs + isClosure <= |Last(frames).cells|
    ensures |Called(frames, nargs, ra, isClosure)| == |frames| + 1
    ensures var caller := Called(frames, nargs, ra, isClosure)[|frames| - 1];
            && |caller.cells| == |Last(frames).cells| - nargs - isClosure
            && caller.reserved == Last(frames).reserved
  {
  }

  /** The verifier asks for the arguments only: with exactly so many operands it accepts a CALLC whose closure
      would be the topmost local, and finds depth zero. */
  lemma ClosureNotCounted(code: seq<Byte>, i: nat, d: nat)
    requires i + 5 <= |code| && OpOf(code[i]) == CALLC && Arg(code, i, 0) == d <= INT32_MAX
    ensures DepthAfter(code, d, i, CALLC) == Depth(0)
  {
    hide U32, OpOf;
  }

  // LDA, STI, STA and CALL_STRING: the cells that a handler leaves, whatever it writes elsewhere.

  /** stack_lda pushes the address of a variable. */
  function LdaLeaves(cells: seq<int>, link: int): seq<int> {
    cells + [link]
  }

  /** stack_sti pops a value and an address, and pushes the value; it throws if the address is an integer. */
  function StiLeaves(cells: seq<int>): seq<int>
    requires |cells| >= 2
  {
    var n := |cells|;
    cells[..n - 2] + [cells[n - 1]]
  }

  /** stack_sta pops a value and an index, and the container if the index is an integer; else the index is
      an address. It pushes the value. */
  function StaLeaves(cells: seq<int>): seq<int>
    requires |cells| >= 3
  {
    var n := |cells|;
    (if cells[n - 2] % 2 == 1 then cells[..n - 3] else cells[..n - 2]) + [cells[n - 1]]
  }

  /** call_string replaces the topmost operand. */
  function CallStringLeaves(cells: seq<int>, result: int): seq<int>
    requires cells != []
  {
    cells[..|cells| - 1] + [result]
  }

  /** The depth after a handler that leaves `cells` is the one of the verifier. */
  predicate Agrees(code: seq<Byte>, i: nat, op: Op, f: Frame, cells: seq<int>)
    requires i < |code| && OperandDepth(f) >= 0
  {
    |cells| >= f.reserved && DepthAfter(code, OperandDepth(f), i, op) == Depth(|cells| - f.reserved)
  }

  lemma LdaDepth(code: seq<Byte>, i: nat, f: Frame, link: int)
    requires i < |code| && 0 <= OperandDepth(f) < INT32_MAX
    ensures Agrees(code, i, LDA, f, LdaLeaves(f.cells, link))
  {
  }

  /** With one operand the verifier accepts an STI whose address would be the topmost local. */
  lemma StiDepth(code: seq<Byte>, i: nat, f: Frame)
    requires i < |code| && 0 <= OperandDepth(f) <= INT32_MAX
    ensures OperandDepth(f) >= 2 ==> Agrees(code, i, STI, f, StiLeaves(f.cells))
    ensures DepthAfter(code, OperandDepth(f), i, STI).Depth? <==> OperandDepth(f) >= 1
  {
  }

  /** The verifier counts three operands and one result: right for an element, one too few for a reference. */
  lemma StaDepth(code: seq<Byte>, i: nat, f: Frame)
    requires i < |code| && 3 <= OperandDepth(f) <= INT32_MAX
    ensures var cells := f.cells;
            Agrees(code, i, STA, f, StaLeaves(cells)) <==> cells[|cells| - 2] % 2 == 1
    ensures f.cells[|f.cells| - 2] % 2 == 0 ==>
              DepthAfter(code, OperandDepth(f), i, STA) == Depth(|StaLeaves(f.cells)| - f.reserved - 1)
  {
  }

  /** The verifier counts no operand for CALL_STRING, so it finds one more than the handler leaves. */
  lemma CallStringDepth(code: seq<Byte>, i: nat, f: Frame, result: int)
    requires i < |code| && 1 <= OperandDepth(f) < INT32_MAX
    ensures !Agrees(code, i, CALL_STRING, f, CallStringLeaves(f.cells, result))
    ensures DepthAfter(code, OperandDepth(f), i, CALL_STRING) ==
            Depth(|CallStringLeaves(f.cells, result)| - f.reserved + 1)
  {
  }
}
