/** The frame stack: one flat array that grows downwards, with a frame pointer and a first free slot,
    against the list of frames that it stands for. */
module Frames {

  /** One activation. `cells` are the locals and operands in push order; `reserved` of them are locals.
      `closure` has the closure that was called, if the call was one. `begin` is the offset of the BEGIN
      that reserved the locals, or -1. `ra` is the offset to return to, or -1 for none. */
  datatype Frame = Frame(ra: int, args: seq<int>, closure: seq<int>, cells: seq<int>, reserved: nat, begin: int)

  // The layout.

  /** The slots of a frame: cells, saved top, saved frame pointer, return address, arguments, closure. */
  function Extent(f: Frame): nat {
    |f.cells| + 3 + |f.args| + |f.closure|
  }

  /** The first free slot above which the frames lie; `origin` is the one without frames. */
  function TopOf(frames: seq<Frame>, origin: int): int {
    if frames == [] then origin
    else TopOf(frames[..|frames| - 1], origin) - Extent(frames[|frames| - 1])
  }

  datatype Pointer = Null | Slot(index: int)

  function FpOf(frames: seq<Frame>, origin: int): Pointer {
    if frames == [] then Null
    else Slot(TopOf(frames, origin) + |frames[|frames| - 1].cells|)
  }

  /** A pointer as a word: slot `i` of the array has the address `base + 8 * i`. */
  function Encode(base: int, p: Pointer): int {
    match p
    case Null => 0
    case Slot(i) => base + 8 * i
  }

  function DecodePointer(base: int, w: int): Pointer {
    if w == 0 then Null else Slot((w - base) / 8)
  }

  lemma EncodeDecode(base: int, p: Pointer)
    requires base > 8 && (p.Slot? ==> p.index >= -1)
    ensures DecodePointer(base, Encode(base, p)) == p
  {
  }

  /** Code pointers: the bytecode starts at the address `code`. */
  function EncodeCode(code: int, ra: int): int {
    if ra == -1 then 0 else code + ra
  }

  ghost predicate Holds(m: seq<int>, i: int, w: int) {
    0 <= i < |m| && m[i] == w
  }

  ghost predicate ArgAt(m: seq<int>, fp: int, i: int, w: int) {
    Holds(m, fp + 4 + i, w)
  }

  ghost predicate ArgsAt(m: seq<int>, fp: int, args: seq<int>) {
    forall i: nat :: i < |args| ==> ArgAt(m, fp, i, args[i])
  }

  ghost predicate CellAt(m: seq<int>, fp: int, i: int, w: int) {
    Holds(m, fp - i, w)
  }

  /** One frame in memory, with its frame pointer at slot `fp` and the frames `outer` around it. */
  ghost predicate FrameLaid(m: seq<int>, base: int, code: int, f: Frame, outer: seq<Frame>, origin: int, fp: int) {
    && fp == TopOf(outer, origin) - |f.args| - |f.closure| - 3
    && -1 <= fp - |f.cells|
    && TopOf(outer, origin) < |m|
    && Holds(m, fp + 1, Encode(base, Slot(TopOf(outer, origin))))
    && Holds(m, fp + 2, Encode(base, FpOf(outer, origin)))
    && Holds(m, fp + 3, EncodeCode(code, f.ra))
    && ArgsAt(m, fp, f.args)
    && |f.closure| <= 1
    && (f.closure != [] ==> ArgAt(m, fp, |f.args|, f.closure[0]))
    && forall i: nat :: i < |f.cells| ==> CellAt(m, fp, i, f.cells[i])
  }

  ghost predicate Laid(m: seq<int>, base: int, code: int, frames: seq<Frame>, origin: int) {
    frames != [] ==>
      var n := |frames| - 1;
      && FrameLaid(m, base, code, frames[n], frames[..n], origin, TopOf(frames, origin) + |frames[n].cells|)
      && Laid(m, base, code, frames[..n], origin)
  }

  lemma Snoc(m: seq<int>, base: int, code: int, outer: seq<Frame>, f: Frame, origin: int)
    ensures TopOf(outer + [f], origin) == TopOf(outer, origin) - Extent(f)
    ensures FpOf(outer + [f], origin) == Slot(TopOf(outer, origin) - |f.args| - |f.closure| - 3)
    ensures Laid(m, base, code, outer + [f], origin) <==>
            Laid(m, base, code, outer, origin)
            && FrameLaid(m, base, code, f, outer, origin, TopOf(outer, origin) - |f.args| - |f.closure| - 3)
  {
    assert (outer + [f])[..|outer|] == outer;
  }

  lemma {:induction false} TopInside(m: seq<int>, base: int, code: int, frames: seq<Frame>, origin: int)
    requires Laid(m, base, code, frames, origin) && -1 <= origin < |m|
    ensures -1 <= TopOf(frames, origin) <= origin
  {
    if frames != [] {
      TopInside(m, base, code, frames[..|frames| - 1], origin);
    }
  }

  ghost predicate SameAbove(m: seq<int>, m': seq<int>, lo: int, hi: int) {
    |m'| == |m| && forall i: nat :: lo < i <= hi && i < |m| ==> m'[i] == m[i]
  }

  /** A frame does not see what is below the cells that it keeps. */
  lemma FrameAbove(m: seq<int>, m': seq<int>, base: int, code: int, f: Frame, outer: seq<Frame>, origin: int, fp: int,
                   keep: nat)
    requires FrameLaid(m, base, code, f, outer, origin, fp) && keep <= |f.cells|
    requires SameAbove(m, m', fp - keep, TopOf(outer, origin))
    ensures FrameLaid(m', base, code, f.(cells := f.cells[..keep]), outer, origin, fp)
  {
    hide TopOf, FpOf;
    forall i: nat | i < |f.args| ensures ArgAt(m', fp, i, f.args[i]) {
      assert ArgAt(m, fp, i, f.args[i]);
    }
    forall i: nat | i < keep ensures CellAt(m', fp, i, f.cells[i]) {
      assert CellAt(m, fp, i, f.cells[i]);
    }
  }

  /** Frames do not see what is at or below their first free slot. */
  lemma {:induction false} LaidAbove(m: seq<int>, m': seq<int>, base: int, code: int, frames: seq<Frame>, origin: int)
    requires Laid(m, base, code, frames, origin) && -1 <= origin < |m|
    requires SameAbove(m, m', TopOf(frames, origin), origin)
    ensures Laid(m', base, code, frames, origin)
  {
    if frames != [] {
      var n := |frames| - 1;
      var f := frames[n];
      TopInside(m, base, code, frames[..n], origin);
      LaidAbove(m, m', base, code, frames[..n], origin);
      FrameAbove(m, m', base, code, f, frames[..n], origin, TopOf(frames, origin) + |f.cells|, |f.cells|);
      assert f.cells[..|f.cells|] == f.cells;
    }
  }

  // What the operations do to the list of frames.

  function Last(frames: seq<Frame>): Frame
    requires frames != []
  {
    frames[|frames| - 1]
  }

  function WithLast(frames: seq<Frame>, f: Frame): seq<Frame>
    requires frames != []
  {
    frames[..|frames| - 1] + [f]
  }

  function WithCells(frames: seq<Frame>, cells: seq<int>): seq<Frame>
    requires frames != []
  {
    WithLast(frames, Last(frames).(cells := cells))
  }

  lemma WithCellsTwice(frames: seq<Frame>, a: seq<int>, b: seq<int>)
    requires frames != []
    ensures WithCells(frames, a) != [] && Last(WithCells(frames, a)).cells == a
    ensures WithCells(WithCells(frames, a), b) == WithCells(frames, b)
  {
    assert WithCells(frames, a)[..|frames| - 1] == frames[..|frames| - 1];
  }

  /** A call takes the arguments, and the closure below them, off the operands of the caller. */
  function Called(frames: seq<Frame>, nargs: nat, ra: int, isClosure: nat): seq<Frame>
    requires frames == [] ==> nargs == 0 && isClosure == 0
    requires frames != [] ==> nargs + isClosure <= |Last(frames).cells|
  {
    if frames == [] then [Frame(ra, [], [], [], 0, -1)]
    else
      var cells := Last(frames).cells;
      var keep := |cells| - nargs - isClosure;
      var callee := Frame(ra, cells[keep + isClosure..], cells[keep..keep + isClosure], [], 0, -1);
      WithCells(frames, cells[..keep]) + [callee]
  }

  function ArgSizes(frames: seq<Frame>): (sizes: seq<nat>)
    ensures |sizes| == |frames| && forall k :: 0 <= k < |frames| ==> sizes[k] == |frames[k].args|
  {
    seq(|frames|, k requires 0 <= k < |frames| => |frames[k].args|)
  }

  /** Std::reverse on a part of an array. */
  ghost predicate ReversedPart(m: seq<int>, m': seq<int>, lo: int, hi: int)
    requires 0 <= lo <= hi <= |m| == |m'|
  {
    && (forall i :: 0 <= i < lo ==> m'[i] == m[i])
    && (forall i :: hi <= i < |m| ==> m'[i] == m[i])
    && forall i :: lo <= i < hi ==> m'[i] == m[lo + hi - 1 - i]
  }

  method Reverse(a: array<int>, lo: nat, hi: nat)
    requires lo <= hi <= a.Length
    modifies a
    ensures ReversedPart(old(a[..]), a[..], lo, hi)
  {
    var i, j := lo, hi;
    while i + 1 < j
      invariant lo <= i && j <= hi && i + j == lo + hi && i <= j + 1
      invariant forall k :: 0 <= k < a.Length && !(lo <= k < i) && !(j <= k < hi) ==> a[k] == old(a[k])
      invariant forall k :: lo <= k < i || j <= k < hi ==> a[k] == old(a[lo + hi - 1 - k])
    {
      j := j - 1;
      a[i], a[j] := a[j], a[i];
      i := i + 1;
    }
  }

  // The call in memory.

  /** The caller without the operands that the call takes. */
  lemma CallerLays(m: seq<int>, m2: seq<int>, base: int, code: int, outer: seq<Frame>, f: Frame, origin: int, keep: nat)
    requires Laid(m, base, code, outer + [f], origin) && -1 <= origin < |m|
    requires keep <= |f.cells|
    requires SameAbove(m, m2, TopOf(outer + [f], origin) + |f.cells| - keep, origin)
    ensures Laid(m2, base, code, outer + [f.(cells := f.cells[..keep])], origin)
  {
    hide Laid, TopOf, FpOf, FrameLaid;
    var fp := TopOf(outer, origin) - |f.args| - |f.closure| - 3;
    Snoc(m, base, code, outer, f, origin);
    Snoc(m2, base, code, outer, f.(cells := f.cells[..keep]), origin);
    TopInside(m, base, code, outer, origin);
    LaidAbove(m, m2, base, code, outer, origin);
    FrameAbove(m, m2, base, code, f, outer, origin, fp, keep);
  }

  ghost predicate ReversedArg(m: seq<int>, m': seq<int>, top: int, nargs: nat, i: nat) {
    0 <= top + nargs - i < |m| && Holds(m', top + 1 + i, m[top + nargs - i])
  }

  /** What push_stack_frame makes of the memory: the arguments are reversed and three words written. */
  ghost predicate CallWritten(m: seq<int>, m': seq<int>, base: int, code: int, top: int, fp: Pointer, nargs: nat,
                              ra: int, isClosure: nat) {
    && 2 <= top && top + nargs < |m| == |m'|
    && (forall i: nat :: i < nargs ==> ReversedArg(m, m', top, nargs, i))
    && SameAbove(m, m', top + nargs, |m|)
    && Holds(m', top, EncodeCode(code, ra))
    && Holds(m', top - 1, Encode(base, fp))
    && Holds(m', top - 2, Encode(base, Slot(top + nargs + isClosure)))
  }

  /** Argument `i` is the operand that was pushed `i`-th of the last `nargs`, and the closure lies above them. */
  lemma ArgsInOrder(m: seq<int>, m': seq<int>, base: int, code: int, f: Frame, outer: seq<Frame>, origin: int, fp: int,
                    nargs: nat, ra: int, isClosure: nat)
    requires FrameLaid(m, base, code, f, outer, origin, fp) && isClosure <= 1 && nargs + isClosure <= |f.cells|
    requires CallWritten(m, m', base, code, fp - |f.cells|, Slot(fp), nargs, ra, isClosure)
    ensures ArgsAt(m', fp - |f.cells| - 3, f.cells[|f.cells| - nargs..])
    ensures isClosure == 1 ==> ArgAt(m', fp - |f.cells| - 3, nargs, f.cells[|f.cells| - nargs - 1])
  {
    hide TopOf, FpOf, Encode, EncodeCode;
    var n, top := |f.cells|, fp - |f.cells|;
    var args := f.cells[n - nargs..];
    forall i: nat | i < nargs ensures ArgAt(m', top - 3, i, args[i]) {
      var j := n - nargs + i;
      assert CellAt(m, fp, j, f.cells[j]);
      assert ReversedArg(m, m', top, nargs, i);
    }
    if isClosure == 1 {
      assert CellAt(m, fp, n - nargs - 1, f.cells[n - nargs - 1]);
    }
  }

  /** They lay out the new frame. */
  lemma CallLays(m: seq<int>, m': seq<int>, base: int, code: int, outer: seq<Frame>, f: Frame, origin: int, nargs: nat,
                 ra: int, isClosure: nat)
    requires Laid(m, base, code, outer + [f], origin) && -1 <= origin < |m|
    requires isClosure <= 1 && nargs + isClosure <= |f.cells|
    requires CallWritten(m, m', base, code, TopOf(outer + [f], origin), FpOf(outer + [f], origin), nargs, ra, isClosure)
    ensures Laid(m', base, code, Called(outer + [f], nargs, ra, isClosure), origin)
    ensures TopOf(Called(outer + [f], nargs, ra, isClosure), origin) == TopOf(outer + [f], origin) - 3
    ensures FpOf(Called(outer + [f], nargs, ra, isClosure), origin) == Slot(TopOf(outer + [f], origin) - 3)
  {
    hide Laid, TopOf, FpOf;
    var top, fp := TopOf(outer + [f], origin), TopOf(outer, origin) - |f.args| - |f.closure| - 3;
    var keep := |f.cells| - nargs - isClosure;
    var caller := f.(cells := f.cells[..keep]);
    var g := Frame(ra, f.cells[keep + isClosure..], f.cells[keep..keep + isClosure], [], 0, -1);
    assert Called(outer + [f], nargs, ra, isClosure) == outer + [caller] + [g];
    Snoc(m, base, code, outer, f, origin);
    TopInside(m, base, code, outer, origin);
    assert SameAbove(m, m', top + nargs + isClosure, origin);
    CallerLays(m, m', base, code, outer, f, origin, keep);
    Snoc(m', base, code, outer, caller, origin);
    Snoc(m', base, code, outer + [caller], g, origin);
    NewFrameLays(m, m', base, code, outer, f, origin, nargs, ra, isClosure);
  }

  lemma NewFrameLays(m: seq<int>, m': seq<int>, base: int, code: int, outer: seq<Frame>, f: Frame, origin: int,
                     nargs: nat, ra: int, isClosure: nat)
    requires var fp := TopOf(outer, origin) - |f.args| - |f.closure| - 3;
             && FrameLaid(m, base, code, f, outer, origin, fp) && isClosure <= 1 && nargs + isClosure <= |f.cells|
             && CallWritten(m, m', base, code, fp - |f.cells|, Slot(fp), nargs, ra, isClosure)
    ensures var keep := |f.cells| - nargs - isClosure;
            FrameLaid(m', base, code,
                      Frame(ra, f.cells[keep + isClosure..], f.cells[keep..keep + isClosure], [], 0, -1),
                      outer + [f.(cells := f.cells[..keep])], origin,
                          TopOf(outer, origin) - |f.args| - |f.closure| - 6 - |f.cells|)
  {
    hide TopOf, FpOf, ReversedArg;
    var fp := TopOf(outer, origin) - |f.args| - |f.closure| - 3;
    ArgsInOrder(m, m', base, code, f, outer, origin, fp, nargs, ra, isClosure);
    Snoc(m', base, code, outer, f.(cells := f.cells[..|f.cells| - nargs - isClosure]), origin);
  }

  /** The first frame, pushed before the run. */
  lemma FirstCallLays(m: seq<int>, m': seq<int>, base: int, code: int, origin: int, ra: int)
    requires 2 <= origin < |m| && CallWritten(m, m', base, code, origin, Null, 0, ra, 0)
    ensures Laid(m', base, code, Called([], 0, ra, 0), origin)
    ensures TopOf(Called([], 0, ra, 0), origin) == origin - 3
  {
    var g := Frame(ra, [], [], [], 0, -1);
    assert Called([], 0, ra, 0) == [] + [g];
    Snoc(m', base, code, [], g, origin);
  }

  /** Pushing, and anything else that changes the first slots below a frame. */
  lemma CellsLay(m: seq<int>, m': seq<int>, base: int, code: int, outer: seq<Frame>, f: Frame, origin: int, keep: nat,
                 more: seq<int>, f': Frame)
    requires Laid(m, base, code, outer + [f], origin) && -1 <= origin < |m| && keep <= |f.cells|
    requires var fp := TopOf(outer, origin) - |f.args| - |f.closure| - 3;
             && SameAbove(m, m', fp - keep, origin)
             && -1 <= fp - keep - |more|
             && forall i: nat :: i < |more| ==> CellAt(m', fp, keep + i, more[i])
    requires f' == f.(cells := f.cells[..keep] + more, reserved := f'.reserved, begin := f'.begin)
    ensures Laid(m', base, code, outer + [f'], origin)
    ensures TopOf(outer + [f'], origin) == TopOf(outer + [f], origin) + |f.cells| - keep - |more|
    ensures FpOf(outer + [f'], origin) == FpOf(outer + [f], origin)
  {
    hide Laid, TopOf, FpOf;
    var fp := TopOf(outer, origin) - |f.args| - |f.closure| - 3;
    Snoc(m, base, code, outer, f, origin);
    CallerLays(m, m', base, code, outer, f, origin, keep);
    Snoc(m', base, code, outer, f.(cells := f.cells[..keep]), origin);
    Snoc(m', base, code, outer, f', origin);
    forall i: nat | i < |f'.cells| ensures CellAt(m', fp, i, f'.cells[i]) {
      if i < keep {
        assert CellAt(m', fp, i, f.cells[..keep][i]);
      } else {
        assert CellAt(m', fp, keep + (i - keep), more[i - keep]);
      }
    }
  }

  /** Where global variable `index` lies, with the strings above the globals. */
  function GlobalSlot(size: nat, strings: nat, index: nat): int {
    size - index - 1 - strings
  }

  /** The globals are clear of the first free slot exactly when some string of the table is not empty
      (a string takes a slot for itself and the table has its bytes and their ends), or there are none. */
  lemma GlobalsClear(size: nat, strings: nat, stringBytes: nat, globals: nat)
    requires strings <= stringBytes
    ensures (forall i: nat :: i < globals ==> GlobalSlot(size, strings, i) > size - stringBytes - globals)
            <==> (globals == 0 || strings < stringBytes)
  {
    if globals > 0 {
      assert GlobalSlot(size, strings, globals - 1) == size - globals - strings;
    }
  }

  /** The memory and the pointers stand for the list of frames. */
  ghost predicate Stands(m: seq<int>, base: int, code: int, origin: int, top: int, fp: Pointer, sizes: seq<nat>,
                         frames: seq<Frame>) {
    && base > 8 && code > 0
    && -1 <= origin < |m|
    && top == TopOf(frames, origin)
    && fp == FpOf(frames, origin)
    && sizes == ArgSizes(frames)
    && Laid(m, base, code, frames, origin)
  }

  /** The cells from `keep` on are replaced. */
  lemma StandsCells(m: seq<int>, m': seq<int>, base: int, code: int, origin: int, top: int, fp: Pointer,
                    sizes: seq<nat>, frames: seq<Frame>,
                    keep: nat, more: seq<int>, f': Frame)
    requires Stands(m, base, code, origin, top, fp, sizes, frames) && frames != [] && keep <= |Last(frames).cells|
    requires var up := top + |Last(frames).cells| - keep;
             && SameAbove(m, m', up, |m|) && -1 <= up - |more|
             && forall i: nat :: i < |more| ==> Holds(m', up - i, more[i])
    requires f' == Last(frames).(cells := Last(frames).cells[..keep] + more, reserved := f'.reserved, begin := f'.begin)
    ensures Stands(m', base, code, origin, top + |Last(frames).cells| - keep - |more|, fp, sizes, WithLast(frames, f'))
  {
    hide Laid;
    var f, outer := Last(frames), frames[..|frames| - 1];
    assert frames == outer + [f];
    Snoc(m, base, code, outer, f, origin);
    forall i: nat | i < |more| ensures CellAt(m', top + |f.cells|, keep + i, more[i]) {
      assert Holds(m', top + |f.cells| - keep - i, more[i]);
    }
    TopInside(m, base, code, outer, origin) by { assert Laid(m, base, code, outer, origin); }
    CellsLay(m, m', base, code, outer, f, origin, keep, more, f');
    assert ArgSizes(outer + [f']) == sizes;
  }

  lemma CellOf(m: seq<int>, base: int, code: int, origin: int, top: int, fp: Pointer, sizes: seq<nat>,
               frames: seq<Frame>, i: nat)
    requires Stands(m, base, code, origin, top, fp, sizes, frames) && frames != [] && i < |Last(frames).cells|
    ensures Holds(m, top + |Last(frames).cells| - i, Last(frames).cells[i])
  {
    assert CellAt(m, top + |Last(frames).cells|, i, Last(frames).cells[i]);
  }

  lemma ArgOf(m: seq<int>, base: int, code: int, origin: int, top: int, fp: Pointer, sizes: seq<nat>,
              frames: seq<Frame>, i: nat)
    requires Stands(m, base, code, origin, top, fp, sizes, frames) && frames != [] && i < |Last(frames).args|
    ensures fp == Slot(top + |Last(frames).cells|) && Holds(m, fp.index + 4 + i, Last(frames).args[i])
  {
    assert ArgAt(m, top + |Last(frames).cells|, i, Last(frames).args[i]);
  }

  /** One cell is replaced. */
  lemma StandsCell(m: seq<int>, m': seq<int>, base: int, code: int, origin: int, top: int, fp: Pointer, sizes: seq<nat>,
                   frames: seq<Frame>,
                   index: nat, value: int)
    requires Stands(m, base, code, origin, top, fp, sizes, frames) && frames != [] && index < |Last(frames).cells|
    requires 0 <= top + |Last(frames).cells| - index < |m|
    requires m' == m[top + |Last(frames).cells| - index := value]
    ensures Stands(m', base, code, origin, top, fp, sizes, WithCells(frames, Last(frames).cells[index := value]))
  {
    hide Laid, TopOf, FpOf, Stands, FrameLaid;
    var cells := Last(frames).cells;
    var more := [value] + cells[index + 1..];
    forall i: nat | i < |more| ensures Holds(m', top + |cells| - index - i, more[i]) {
      CellOf(m, base, code, origin, top, fp, sizes, frames, index + i);
    }
    assert cells[..index] + more == cells[index := value];
    TopAtLeast(m, base, code, origin, top, fp, sizes, frames);
    StandsCells(m, m', base, code, origin, top, fp, sizes, frames, index, more,
                Last(frames).(cells := cells[index := value]));
  }

  lemma TopAtLeast(m: seq<int>, base: int, code: int, origin: int, top: int, fp: Pointer, sizes: seq<nat>,
                   frames: seq<Frame>)
    requires Stands(m, base, code, origin, top, fp, sizes, frames)
    ensures -1 <= top <= origin < |m|
    ensures frames != [] ==>
              fp == Slot(top + |Last(frames).cells|) && top + Extent(Last(frames)) <= origin
                  && |Last(frames).closure| <= 1
    ensures |sizes| == |frames| && (frames != [] ==> sizes[|sizes| - 1] == |Last(frames).args|)
  {
    TopInside(m, base, code, frames, origin);
    if frames != [] {
      TopInside(m, base, code, frames[..|frames| - 1], origin);
    }
  }

  /** One argument is replaced. */
  lemma StandsArg(m: seq<int>, m': seq<int>, base: int, code: int, origin: int, top: int, fp: Pointer, sizes: seq<nat>,
                  frames: seq<Frame>,
                  index: nat, value: int)
    requires Stands(m, base, code, origin, top, fp, sizes, frames) && frames != [] && index < |Last(frames).args|
    requires fp.Slot? && 0 <= fp.index + 4 + index < |m| && m' == m[fp.index + 4 + index := value]
    ensures Stands(m', base, code, origin, top, fp, sizes,
                   WithLast(frames, Last(frames).(args := Last(frames).args[index := value])))
  {
    hide Laid, TopOf, FpOf;
    var f, outer := Last(frames), frames[..|frames| - 1];
    var f' := f.(args := f.args[index := value]);
    assert frames == outer + [f];
    Snoc(m, base, code, outer, f, origin);
    Snoc(m', base, code, outer, f', origin);
    LaidAbove(m, m', base, code, outer, origin);
    assert ArgSizes(outer + [f']) == sizes;
    forall i: nat | i < |f.args| ensures ArgAt(m', fp.index, i, f'.args[i]) {
      assert ArgAt(m, fp.index, i, f.args[i]);
    }
    forall i: nat | i < |f.cells| ensures CellAt(m', fp.index, i, f.cells[i]) {
      assert CellAt(m, fp.index, i, f.cells[i]);
    }
    TopInside(m, base, code, outer, origin);
  }

  lemma StandsCall(m: seq<int>, m': seq<int>, base: int, code: int, origin: int, top: int, fp: Pointer, sizes: seq<nat>,
                   frames: seq<Frame>,
                   nargs: nat, ra: int, isClosure: nat)
    requires Stands(m, base, code, origin, top, fp, sizes, frames) && isClosure <= 1
    requires frames == [] ==> nargs == 0 && isClosure == 0
    requires frames != [] ==> nargs + isClosure <= |Last(frames).cells|
    requires CallWritten(m, m', base, code, top, fp, nargs, ra, isClosure)
    ensures Stands(m', base, code, origin, top - 3, Slot(top - 3), sizes + [nargs],
                   Called(frames, nargs, ra, isClosure))
  {
    if frames == [] {
      FirstCallLays(m, m', base, code, origin, ra);
    } else {
      StandsInnerCall(m, m', base, code, origin, top, fp, sizes, frames, nargs, ra, isClosure);
    }
  }

  lemma StandsInnerCall(m: seq<int>, m': seq<int>, base: int, code: int, origin: int, top: int, fp: Pointer,
                        sizes: seq<nat>, frames: seq<Frame>,
                        nargs: nat, ra: int, isClosure: nat)
    requires Stands(m, base, code, origin, top, fp, sizes, frames) && isClosure <= 1
    requires frames != [] && nargs + isClosure <= |Last(frames).cells|
    requires CallWritten(m, m', base, code, top, fp, nargs, ra, isClosure)
    ensures Stands(m', base, code, origin, top - 3, Slot(top - 3), sizes + [nargs],
                   Called(frames, nargs, ra, isClosure))
  {
    hide Laid, TopOf, FpOf, FrameLaid;
    assert frames == frames[..|frames| - 1] + [Last(frames)];
    assert |m'| == |m|;
    CallLays(m, m', base, code, frames[..|frames| - 1], Last(frames), origin, nargs, ra, isClosure);
    assert ArgSizes(Called(frames, nargs, ra, isClosure)) == sizes + [nargs];
  }

  // A collection scans the stack and rewrites it word by word.

  function MapSeq(f: int -> int, s: seq<int>): (t: seq<int>)
    ensures |t| == |s| && forall i :: 0 <= i < |s| ==> t[i] == f(s[i])
  {
    seq(|s|, i requires 0 <= i < |s| => f(s[i]))
  }

  function MapFrame(f: int -> int, frame: Frame): Frame {
    frame.(args := MapSeq(f, frame.args), closure := MapSeq(f, frame.closure), cells := MapSeq(f, frame.cells))
  }

  function MapFrames(f: int -> int, frames: seq<Frame>): (t: seq<Frame>)
    ensures |t| == |frames| && forall i :: 0 <= i < |frames| ==> t[i] == MapFrame(f, frames[i])
  {
    seq(|frames|, i requires 0 <= i < |frames| => MapFrame(f, frames[i]))
  }

  /** Odd words, the integers, are never moved. */
  ghost predicate KeepsIntegers(f: int -> int) {
    forall x: int :: x % 2 != 0 ==> f(x) == x
  }

  lemma {:induction false} TopOfMapped(f: int -> int, frames: seq<Frame>, origin: int)
    ensures TopOf(MapFrames(f, frames), origin) == TopOf(frames, origin)
    ensures FpOf(MapFrames(f, frames), origin) == FpOf(frames, origin)
  {
    if frames != [] {
      var n := |frames| - 1;
      TopOfMapped(f, frames[..n], origin);
      assert MapFrames(f, frames)[..n] == MapFrames(f, frames[..n]);
    }
  }

  /** Every word above `top` is mapped. */
  ghost predicate MappedAbove(f: int -> int, m: seq<int>, m': seq<int>, top: int) {
    |m'| == |m| && forall i: nat :: top < i < |m| ==> m'[i] == f(m[i])
  }

  /** `f` moves no integer, no address of a slot, and no address of the `size` bytes of code. */
  ghost predicate FixesSaved(f: int -> int, base: int, slots: nat, code: int, size: nat) {
    && f(0) == 0
    && (forall i :: -1 <= i < slots ==> f(Encode(base, Slot(i))) == Encode(base, Slot(i)))
    && forall ra: nat :: ra < size ==> f(EncodeCode(code, ra)) == EncodeCode(code, ra)
  }

  /** Every activation returns into the code, or not at all. */
  ghost predicate ReturnsInside(frames: seq<Frame>, size: nat) {
    forall k: nat :: k < |frames| ==> -1 <= frames[k].ra < size
  }

  lemma FrameMapped(f: int -> int, m: seq<int>, m': seq<int>, base: int, code: int, size: nat, g: Frame,
                    outer: seq<Frame>, origin: int, fp: int)
    requires FrameLaid(m, base, code, g, outer, origin, fp) && Laid(m, base, code, outer, origin) && -1 <= origin < |m|
    requires FixesSaved(f, base, |m|, code, size) && -1 <= g.ra < size
    requires MappedAbove(f, m, m', fp - |g.cells|)
    ensures FrameLaid(m', base, code, MapFrame(f, g), MapFrames(f, outer), origin, fp)
  {
    hide TopOf, FpOf, Laid;
    TopOfMapped(f, outer, origin);
    TopInside(m, base, code, outer, origin);
    SavedFixed(f, m, base, code, size, outer, origin);
    forall i: nat | i < |g.args| ensures ArgAt(m', fp, i, f(g.args[i])) {
      assert ArgAt(m, fp, i, g.args[i]);
    }
    forall i: nat | i < |g.cells| ensures CellAt(m', fp, i, f(g.cells[i])) {
      assert CellAt(m, fp, i, g.cells[i]);
    }
  }

  /** The two addresses that a frame saves. */
  lemma SavedFixed(f: int -> int, m: seq<int>, base: int, code: int, size: nat, outer: seq<Frame>, origin: int)
    requires Laid(m, base, code, outer, origin) && -1 <= origin < |m|
    requires FixesSaved(f, base, |m|, code, size)
    ensures f(Encode(base, Slot(TopOf(outer, origin)))) == Encode(base, Slot(TopOf(outer, origin)))
    ensures f(Encode(base, FpOf(outer, origin))) == Encode(base, FpOf(outer, origin))
  {
    TopInside(m, base, code, outer, origin);
    if outer != [] {
      TopInside(m, base, code, outer[..|outer| - 1], origin);
    }
  }

  lemma {:induction false} LaidMapped(f: int -> int, m: seq<int>, m': seq<int>, base: int, code: int, size: nat,
                                      frames: seq<Frame>, origin: int)
    requires Laid(m, base, code, frames, origin) && -1 <= origin < |m|
    requires FixesSaved(f, base, |m|, code, size) && ReturnsInside(frames, size)
    requires MappedAbove(f, m, m', TopOf(frames, origin))
    ensures Laid(m', base, code, MapFrames(f, frames), origin)
  {
    hide FixesSaved, FrameLaid;
    if frames != [] {
      var n := |frames| - 1;
      LaidMapped(f, m, m', base, code, size, frames[..n], origin);
      FrameMapped(f, m, m', base, code, size, frames[n], frames[..n], origin,
                  TopOf(frames, origin) + |frames[n].cells|);
      assert MapFrames(f, frames)[..n] == MapFrames(f, frames[..n]);
      TopOfMapped(f, frames, origin);
    }
  }

  /** If every word above the top is mapped by a function that fixes integers and the addresses that
      frames save, the stack stands for the same frames with mapped operands, locals, arguments and
      closures: the same top, frame pointers and return addresses. */
  lemma StandsMoved(f: int -> int, m: seq<int>, m': seq<int>, base: int, code: int, origin: int, top: int, fp: Pointer,
                    sizes: seq<nat>,
                    frames: seq<Frame>, size: nat)
    requires Stands(m, base, code, origin, top, fp, sizes, frames)
    requires FixesSaved(f, base, |m|, code, size) && ReturnsInside(frames, size)
    requires MappedAbove(f, m, m', top)
    ensures Stands(m', base, code, origin, top, fp, sizes, MapFrames(f, frames))
  {
    hide Laid, FixesSaved, TopOf, FpOf;
    LaidMapped(f, m, m', base, code, size, frames, origin);
    TopOfMapped(f, frames, origin);
    assert ArgSizes(MapFrames(f, frames)) == sizes;
  }

  // What the memory says about the frames.

  /** Two memories for the same frames agree on every word of them. */
  lemma {:induction false} LaidDetermines(m: seq<int>, m': seq<int>, base: int, code: int, frames: seq<Frame>,
                                          origin: int, i: nat)
    requires Laid(m, base, code, frames, origin) && Laid(m', base, code, frames, origin)
    requires TopOf(frames, origin) < i <= origin
    ensures i < |m| && i < |m'| && m'[i] == m[i]
  {
    hide FpOf, Encode, EncodeCode;
    var n := |frames| - 1;
    if i > TopOf(frames[..n], origin) {
      LaidDetermines(m, m', base, code, frames[..n], origin, i);
    } else {
      FrameDetermines(m, m', base, code, frames[n], frames[..n], origin, TopOf(frames, origin) + |frames[n].cells|, i);
    }
  }

  lemma FrameDetermines(m: seq<int>, m': seq<int>, base: int, code: int, f: Frame, outer: seq<Frame>, origin: int,
                        fp: int, i: nat)
    requires FrameLaid(m, base, code, f, outer, origin, fp) && FrameLaid(m', base, code, f, outer, origin, fp)
    requires fp - |f.cells| < i <= TopOf(outer, origin)
    ensures i < |m| && i < |m'| && m'[i] == m[i]
  {
    hide TopOf, FpOf, Encode, EncodeCode;
    if i <= fp {
      assert CellAt(m, fp, fp - i, f.cells[fp - i]) && CellAt(m', fp, fp - i, f.cells[fp - i]);
    } else if fp + 4 <= i < fp + 4 + |f.args| {
      assert ArgAt(m, fp, i - fp - 4, f.args[i - fp - 4]) && ArgAt(m', fp, i - fp - 4, f.args[i - fp - 4]);
    }
  }

  /** A store to an argument that was not passed: where it falls into the frames around the current one, they
      are still there if and only if the word did not change. */
  lemma StrayArgument(m: seq<int>, base: int, code: int, origin: int, top: int, fp: Pointer, sizes: seq<nat>,
                      frames: seq<Frame>,
                      index: nat, value: int)
    requires Stands(m, base, code, origin, top, fp, sizes, frames) && frames != []
    requires index >= |Last(frames).args| + |Last(frames).closure|
    requires fp.Slot? && 0 <= fp.index + 4 + index <= origin
    ensures Laid(m[fp.index + 4 + index := value], base, code, frames[..|frames| - 1], origin) <==>
              m[fp.index + 4 + index] == value
  {
    var slot, outer := fp.index + 4 + index, frames[..|frames| - 1];
    var m' := m[slot := value];
    if Laid(m', base, code, outer, origin) {
      LaidDetermines(m, m', base, code, outer, origin, slot);
    }
    if m[slot] == value {
      assert m' == m;
    }
  }

  /** A return finds the caller as the call left it. */
  lemma StandsReturn(m: seq<int>, base: int, code: int, origin: int, top: int, fp: Pointer, sizes: seq<nat>,
                     frames: seq<Frame>)
    requires Stands(m, base, code, origin, top, fp, sizes, frames) && frames != []
    ensures fp.Slot?
    ensures var outer := frames[..|frames| - 1];
            && Holds(m, fp.index + 3, EncodeCode(code, Last(frames).ra))
            && 0 <= fp.index + 1 && fp.index + 2 < |m|
            && DecodePointer(base, m[fp.index + 1]).Slot?
            && Stands(m, base, code, origin, DecodePointer(base, m[fp.index + 1]).index,
                      DecodePointer(base, m[fp.index + 2]),
                      sizes[..|sizes| - 1], outer)
            && DecodePointer(base, m[fp.index + 1]).index == top + Extent(Last(frames))
  {
    hide Laid, TopOf;
    var f, outer := Last(frames), frames[..|frames| - 1];
    assert frames == outer + [f];
    Snoc(m, base, code, outer, f, origin);
    TopInside(m, base, code, outer, origin);
    EncodeDecode(base, Slot(TopOf(outer, origin)));
    EncodeDecode(base, FpOf(outer, origin));
    assert ArgSizes(outer) == sizes[..|sizes| - 1];
  }

  // The globals.

  function GlobalsIn(m: seq<int>, strings: nat, globals: nat): (values: seq<int>)
    requires strings + globals <= |m|
    ensures |values| == globals && forall i :: 0 <= i < globals ==> values[i] == m[GlobalSlot(|m|, strings, i)]
  {
    seq(globals, i requires 0 <= i < globals => m[GlobalSlot(|m|, strings, i)])
  }

  lemma GlobalsKept(m: seq<int>, m': seq<int>, origin: int, strings: nat, globals: nat)
    requires strings + globals <= |m| == |m'| && origin < |m| - strings - globals && SameAbove(m, m', origin, |m|)
    ensures GlobalsIn(m', strings, globals) == GlobalsIn(m, strings, globals)
  {
  }

  lemma GlobalsMapped(f: int -> int, m: seq<int>, m': seq<int>, top: int, strings: nat, globals: nat)
    requires strings + globals <= |m| && top < |m| - strings - globals && MappedAbove(f, m, m', top)
    ensures GlobalsIn(m', strings, globals) == MapSeq(f, GlobalsIn(m, strings, globals))
  {
  }

  class FrameStack {
    const base: int
    const code: int
    const strings: nat
    const globals: nat
    const origin: int
    const stack_data: array<int>
    var top: int
    var fp: Pointer
    var argSizes: seq<nat>
    ghost var frames: seq<Frame>

    ghost predicate Valid()
      reads this, stack_data
    {
      && strings + globals <= stack_data.Length
      && origin < stack_data.Length - strings - globals
      && Stands(stack_data[..], base, code, origin, top, fp, argSizes, frames)
    }

    ghost function Globals(): seq<int>
      requires strings + globals <= stack_data.Length
      reads stack_data
    {
      GlobalsIn(stack_data[..], strings, globals)
    }

    /** The array, without the values of the string table; some string in it is not empty. */
    constructor (size: nat, base: int, code: int, strings: nat, stringBytes: nat, globals: nat)
      requires base > 8 && code > 0
      requires strings < stringBytes && stringBytes + globals <= size
      ensures Valid() && frames == [] && fresh(stack_data)
      ensures stack_data.Length == size && this.globals == globals && this.code == code
    {
      this.base, this.code, this.strings, this.globals := base, code, strings, globals;
      stack_data := new int[size];
      origin := size - stringBytes - globals;
      top, fp, argSizes, frames := size - stringBytes - globals, Null, [], [];
    }

    method PushOp(value: int)
      requires Valid() && frames != [] && top >= 0
      modifies this`top, this`frames, stack_data
      ensures Valid() && frames == WithCells(old(frames), Last(old(frames)).cells + [value])
      ensures top == old(top) - 1 && Globals() == old(Globals())
    {
      hide Stands, Laid, TopOf, FpOf;
      ghost var m, f := stack_data[..], Last(frames);
      TopAtLeast(m, base, code, origin, top, fp, argSizes, frames);
      stack_data[top] := value;
      ghost var m' := stack_data[..];
      ghost var f' := f.(cells := f.cells + [value]);
      assert f.cells[..|f.cells|] + [value] == f'.cells;
      StandsCells(m, m', base, code, origin, top, fp, argSizes, frames, |f.cells|, [value], f');
      GlobalsKept(m, m', origin, strings, globals);
      top, frames := top - 1, WithLast(frames, f');
    }

    /** The operand `below` places under the top one; peek_op() is at 0. */
    method PeekOp(below: nat) returns (value: int)
      requires Valid() && frames != [] && below < |Last(frames).cells|
      ensures value == Last(frames).cells[|Last(frames).cells| - 1 - below]
    {
      hide Stands;
      CellOf(stack_data[..], base, code, origin, top, fp, argSizes, frames, |Last(frames).cells| - 1 - below);
      value := stack_data[top + 1 + below];
    }

    method PopOps(n: nat)
      requires Valid() && frames != [] && n <= |Last(frames).cells|
      modifies this`top, this`frames
      ensures Valid() && frames == WithCells(old(frames), Last(old(frames)).cells[..|Last(old(frames)).cells| - n])
      ensures top == old(top) + n >= n - 1
    {
      hide Stands, Laid, TopOf, FpOf;
      ghost var m, f := stack_data[..], Last(frames);
      ghost var keep := |f.cells| - n;
      TopAtLeast(m, base, code, origin, top, fp, argSizes, frames);
      assert f.cells[..keep] + [] == f.cells[..keep];
      StandsCells(m, m, base, code, origin, top, fp, argSizes, frames, keep, [], f.(cells := f.cells[..keep]));
      top, frames := top + n, WithCells(frames, f.cells[..keep]);
    }

    method GetArg(index: nat) returns (value: int)
      requires Valid() && frames != [] && index < |Last(frames).args|
      ensures value == Last(frames).args[index]
    {
      hide Stands;
      ArgOf(stack_data[..], base, code, origin, top, fp, argSizes, frames, index);
      value := stack_data[fp.index + 4 + index];
    }

    method SetArg(index: nat, value: int)
      requires Valid() && frames != [] && index < |Last(frames).args|
      modifies this`frames, stack_data
      ensures Valid()
      ensures frames == WithLast(old(frames), Last(old(frames)).(args := Last(old(frames)).args[index := value]))
      ensures Globals() == old(Globals())
    {
      hide Stands;
      ghost var m, f := stack_data[..], Last(frames);
      ArgOf(m, base, code, origin, top, fp, argSizes, frames, index);
      TopAtLeast(m, base, code, origin, top, fp, argSizes, frames);
      stack_data[fp.index + 4 + index] := value;
      ghost var m' := stack_data[..];
      assert m' == m[fp.index + 4 + index := value];
      StandsArg(m, m', base, code, origin, top, fp, argSizes, frames, index, value);
      GlobalsKept(m, m', origin, strings, globals);
      frames := WithLast(frames, f.(args := f.args[index := value]));
    }

    method GetLocal(index: nat) returns (value: int)
      requires Valid() && frames != [] && index < |Last(frames).cells|
      ensures value == Last(frames).cells[index]
    {
      hide Stands;
      CellOf(stack_data[..], base, code, origin, top, fp, argSizes, frames, index);
      TopAtLeast(stack_data[..], base, code, origin, top, fp, argSizes, frames);
      value := stack_data[fp.index - index];
    }

    method SetLocal(index: nat, value: int)
      requires Valid() && frames != [] && index < |Last(frames).cells|
      modifies this`frames, stack_data
      ensures Valid() && frames == WithCells(old(frames), Last(old(frames)).cells[index := value])
      ensures Globals() == old(Globals())
    {
      hide Stands;
      ghost var m, f := stack_data[..], Last(frames);
      CellOf(m, base, code, origin, top, fp, argSizes, frames, index);
      TopAtLeast(m, base, code, origin, top, fp, argSizes, frames);
      stack_data[fp.index - index] := value;
      ghost var m' := stack_data[..];
      assert m' == m[top + |f.cells| - index := value];
      StandsCell(m, m', base, code, origin, top, fp, argSizes, frames, index, value);
      GlobalsKept(m, m', origin, strings, globals);
      frames := WithCells(frames, f.cells[index := value]);
    }

    method GetGlobal(index: nat) returns (value: int)
      requires Valid() && index < globals
      ensures value == Globals()[index]
    {
      value := stack_data[GlobalSlot(stack_data.Length, strings, index)];
    }

    method SetGlobal(index: nat, value: int)
      requires Valid() && index < globals
      modifies stack_data
      ensures Valid() && Globals() == old(Globals())[index := value]
    {
      hide Stands;
      ghost var m := stack_data[..];
      stack_data[GlobalSlot(stack_data.Length, strings, index)] := value;
      StandsGlobal(m, stack_data[..], base, code, origin, top, fp, argSizes, frames);
    }

    /** Any slot of the array. */
    method ReadSlot(i: int) returns (value: int)
      requires Valid() && 0 <= i < stack_data.Length
      ensures value == stack_data[i]
    {
      value := stack_data[i];
    }

    /** A store into a free slot is seen by no frame. */
    method WriteFree(i: int, value: int)
      requires Valid() && 0 <= i <= top
      modifies stack_data
      ensures Valid() && Globals() == old(Globals())
    {
      hide Stands;
      ghost var m := stack_data[..];
      TopAtLeast(m, base, code, origin, top, fp, argSizes, frames);
      stack_data[i] := value;
      ghost var m' := stack_data[..];
      StandsAbove(m, m', base, code, origin, top, fp, argSizes, frames);
      GlobalsKept(m, m', origin, strings, globals);
    }

    /** The closure that was called: the slot above the arguments. */
    method GetClosure() returns (value: int)
      requires Valid() && frames != [] && Last(frames).closure != []
      ensures value == Last(frames).closure[0]
    {
      assert ArgAt(stack_data[..], top + |Last(frames).cells|, |Last(frames).args|, Last(frames).closure[0]);
      value := stack_data[fp.index + 4 + argSizes[|argSizes| - 1]];
    }

    method ReserveLocals(n: nat, ghost begin: int) returns (ghost junk: seq<int>)
      requires Valid() && frames != [] && n <= top + 1
      modifies this`top, this`frames
      ensures Valid() && |junk| == n && top == old(top) - n
      ensures var f := Last(old(frames));
              frames == WithLast(old(frames), f.(cells := f.cells + junk, reserved := f.reserved + n, begin := begin))
    {
      hide Stands, Laid, TopOf, FpOf;
      ghost var m, f := stack_data[..], Last(frames);
      TopAtLeast(m, base, code, origin, top, fp, argSizes, frames);
      ghost var top0 := top;
      junk := seq(n, i requires 0 <= i < n => m[top0 - i]);
      ghost var f' := f.(cells := f.cells + junk, reserved := f.reserved + n, begin := begin);
      assert f.cells[..|f.cells|] + junk == f'.cells;
      StandsCells(m, m, base, code, origin, top, fp, argSizes, frames, |f.cells|, junk, f');
      top, frames := top - n, WithLast(frames, f');
    }

    /** The words of push_stack_frame: the arguments reversed, and the three saved words. */
    method WriteCall(nargs: nat, ra: int, isClosure: nat)
      requires 2 <= top && top + nargs < stack_data.Length
      modifies stack_data
      ensures CallWritten(old(stack_data[..]), stack_data[..], base, code, top, fp, nargs, ra, isClosure)
      ensures forall i :: top + nargs < i < stack_data.Length ==> stack_data[i] == old(stack_data[i])
    {
      hide CallWritten;
      ghost var m := stack_data[..];
      if nargs > 1 {
        Reverse(stack_data, top + 1, top + nargs + 1);
      }
      ghost var m1 := stack_data[..];
      stack_data[top] := EncodeCode(code, ra);
      stack_data[top - 1] := Encode(base, fp);
      stack_data[top - 2] := Encode(base, Slot(top + nargs + isClosure));
      Written(m, m1, stack_data[..], base, code, top, fp, nargs, ra, isClosure);
    }

    method PushStackFrame(nargs: nat, ra: int, isClosure: nat)
      requires Valid() && isClosure <= 1 && top >= 2
      requires frames == [] ==> nargs == 0 && isClosure == 0
      requires frames != [] ==> nargs + isClosure <= |Last(frames).cells|
      modifies this`top, this`fp, this`argSizes, this`frames, stack_data
      ensures Valid() && frames == Called(old(frames), nargs, ra, isClosure)
      ensures top == old(top) - 3 && Globals() == old(Globals())
    {
      hide Stands, Laid, TopOf, FpOf, Called, ArgSizes, CallWritten, GlobalsIn;
      ghost var m := stack_data[..];
      TopAtLeast(m, base, code, origin, top, fp, argSizes, frames);
      argSizes := argSizes + [nargs];
      WriteCall(nargs, ra, isClosure);
      ghost var m' := stack_data[..];
      StandsCall(m, m', base, code, origin, top, fp, old(argSizes), frames, nargs, ra, isClosure);
      GlobalsKept(m, m', origin, strings, globals);
      top := top - 3;
      fp := Slot(top);
      frames := Called(frames, nargs, ra, isClosure);
    }

    /** What a collection makes of this array: every word above the top is rewritten. */
    method MoveObjects(move: int -> int, ghost size: nat)
      requires Valid() && FixesSaved(move, base, stack_data.Length, code, size) && ReturnsInside(frames, size)
      modifies this`frames, stack_data
      ensures Valid() && frames == MapFrames(move, old(frames)) && Globals() == MapSeq(move, old(Globals()))
    {
      hide Stands, FixesSaved, ReturnsInside;
      ghost var m := stack_data[..];
      TopAtLeast(m, base, code, origin, top, fp, argSizes, frames);
      for i := top + 1 to stack_data.Length
        invariant frames == old(frames)
        invariant forall k :: top < k < i ==> stack_data[k] == move(m[k])
        invariant forall k :: i <= k < stack_data.Length ==> stack_data[k] == m[k]
      {
        stack_data[i] := move(stack_data[i]);
      }
      ghost var m' := stack_data[..];
      StandsMoved(move, m, m', base, code, origin, top, fp, argSizes, frames, size);
      GlobalsMapped(move, m, m', top, strings, globals);
      frames := MapFrames(move, frames);
    }

    method PopStackFrame() returns (ra: int)
      requires Valid() && frames != []
      modifies this`top, this`fp, this`argSizes, this`frames
      ensures Valid() && frames == old(frames)[..|old(frames)| - 1]
      ensures ra == EncodeCode(code, Last(old(frames)).ra) && top == old(top) + Extent(Last(old(frames))) >= 2
    {
      hide Stands;
      ghost var m := stack_data[..];
      TopAtLeast(m, base, code, origin, top, fp, argSizes, frames);
      StandsReturn(m, base, code, origin, top, fp, argSizes, frames);
      argSizes := argSizes[..|argSizes| - 1];
      var prevFp := fp.index;
      fp := DecodePointer(base, stack_data[prevFp + 2]);
      top := DecodePointer(base, stack_data[prevFp + 1]).index;
      ra := stack_data[prevFp + 3];
      frames := frames[..|frames| - 1];
    }
  }

  lemma Written(m: seq<int>, m1: seq<int>, m': seq<int>, base: int, code: int, top: int, fp: Pointer, nargs: nat,
                ra: int, isClosure: nat)
    requires 2 <= top && top + nargs < |m| == |m1|
    requires if nargs > 1 then ReversedPart(m, m1, top + 1, top + nargs + 1) else m1 == m
    requires m' == m1[top := EncodeCode(code, ra)][top - 1 := Encode(base, fp)]
                     [top - 2 := Encode(base, Slot(top + nargs + isClosure))]
    ensures CallWritten(m, m', base, code, top, fp, nargs, ra, isClosure)
  {
    forall i: nat | i < nargs ensures ReversedArg(m, m', top, nargs, i) {
    }
  }

  lemma StandsAbove(m: seq<int>, m': seq<int>, base: int, code: int, origin: int, top: int, fp: Pointer,
                    sizes: seq<nat>, frames: seq<Frame>)
    requires Stands(m, base, code, origin, top, fp, sizes, frames) && SameAbove(m, m', top, |m|)
    ensures Stands(m', base, code, origin, top, fp, sizes, frames)
  {
    LaidAbove(m, m', base, code, frames, origin);
  }

  lemma StandsGlobal(m: seq<int>, m': seq<int>, base: int, code: int, origin: int, top: int, fp: Pointer,
                     sizes: seq<nat>, frames: seq<Frame>)
    requires Stands(m, base, code, origin, top, fp, sizes, frames) && |m'| == |m|
    requires forall i: nat :: i <= origin ==> m'[i] == m[i]
    ensures Stands(m', base, code, origin, top, fp, sizes, frames)
  {
    LaidAbove(m, m', base, code, frames, origin);
  }
}
