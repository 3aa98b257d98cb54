/** CLOSURE on the collector's memory: what the verifier has checked of a designation is enough to read it, and
    the closure captures the variables of the frame. */
module Closures {
  import opened Words
  import opened HeapLayout
  import opened Graphs
  import opened Collector
  import opened Values
  import opened Bytecode
  import opened Frames
  import opened Moves
  import Builtins
  import MaxStack
  import Runs
  import Verifier

  /** The byte that says where a designated variable is. */
  function MemVarOf(kind: int): Builtins.MemVar {
    if kind == 0 then Builtins.Global
    else if kind == 1 then Builtins.Local
    else if kind == 2 then Builtins.Argument
    else Builtins.Captured
  }

  /** Designation `j` of the CLOSURE at `i`: five bytes each, after two arguments. */
  function DesignationAt(code: seq<Byte>, i: nat, j: nat): Builtins.Designation
    requires i + 14 + 5 * j <= |code|
  {
    Builtins.Designation(MemVarOf(code[i + 9 + 5 * j]), U32(code, i + 10 + 5 * j))
  }

  function Designations(code: seq<Byte>, i: nat, n: nat): (ds: seq<Builtins.Designation>)
    requires i + 9 + 5 * n <= |code|
    ensures |ds| == n && forall j: nat :: j < n ==> ds[j] == DesignationAt(code, i, j)
  {
    seq(n, j requires 0 <= j < n => DesignationAt(code, i, j))
  }

  /** The frame has the variables that its BEGIN at `b` declares. */
  predicate Declares(code: seq<Byte>, b: nat, f: Frame) {
    b + 9 <= |code| && Arg(code, b, 0) <= |f.args| && Arg(code, b, 1) <= |f.cells|
  }

  /** A designated local or argument is one of the frame. */
  predicate InFrame(f: Frame, d: Builtins.Designation) {
    match d.memVar
    case Local => d.index < |f.cells|
    case Argument => d.index < |f.args|
    case Global => true
    case Captured => true
  }

  /** The variable that a designation names. */
  function Variable(f: Frame, d: Builtins.Designation): int
    requires (d.memVar.Local? || d.memVar.Argument?) && InFrame(f, d)
  {
    if d.memVar.Local? then f.cells[d.index] else f.args[d.index]
  }

  /** What verify has checked. */
  lemma CheckedInFrame(code: seq<Byte>, i: nat, b: nat, globals: nat, f: Frame, j: nat)
    requires MaxStack.VariablesExist(code, i, b, globals) && OpOf(code[i]) == CLOSURE && Declares(code, b, f)
    requires j < Arg(code, i, 1)
    ensures i + 14 + 5 * j <= |code| && InFrame(f, DesignationAt(code, i, j))
  {
    hide U32, OpOf;
    assert MaxStack.DesignationOk(code, i, j, Arg(code, b, 0), Arg(code, b, 1), globals);
  }

  lemma AllInside(code: seq<Byte>, i: nat, b: nat, globals: nat, f: Frame)
    requires MaxStack.VariablesExist(code, i, b, globals) && OpOf(code[i]) == CLOSURE && Declares(code, b, f)
    ensures i + 9 <= |code| && i + 9 + 5 * Arg(code, i, 1) <= |code|
    ensures forall j: nat :: j < Arg(code, i, 1) ==> InFrame(f, DesignationAt(code, i, j))
  {
    hide U32, OpOf, DesignationAt, InFrame, Declares, MaxStack.DesignationOk;
    var n := Arg(code, i, 1);
    if n > 0 {
      CheckedInFrame(code, i, b, globals, f, n - 1);
    }
    forall j: nat | j < n ensures InFrame(f, DesignationAt(code, i, j)) {
      CheckedInFrame(code, i, b, globals, f, j);
    }
  }

  /** A variable of the frame can be designated, and stands for itself. */
  lemma InFrameDesignable(g: Heap, mem: map<nat, Word>, p: Place, top: nat, fp: Pointer, sizes: seq<nat>,
                          frames: seq<Frame>, fpAddr: nat, nargs: nat, bottom: nat, d: Builtins.Designation)
    requires StackIs(mem, p, top, fp, sizes, frames) && frames != [] && bottom == p.first + p.slots
    requires fp.Slot? && fpAddr == p.first + fp.index
    requires (d.memVar.Local? || d.memVar.Argument?) && InFrame(Last(frames), d)
    ensures Builtins.Designable(g, mem, top, bottom, fpAddr, nargs, d)
    ensures Number(Builtins.DesignatedValue(g, mem, top, bottom, fpAddr, nargs, d)) == Variable(Last(frames), d)
  {
    hide Stands;
    var m := Image(mem, p);
    TopAtLeast(m, p.Base(), p.code, p.origin, top - p.first, fp, sizes, frames);
    if d.memVar.Local? {
      CellOf(m, p.Base(), p.code, p.origin, top - p.first, fp, sizes, frames, d.index);
      assert m[fp.index - d.index] == Number(mem[p.first + (fp.index - d.index)]);
    } else {
      ArgOf(m, p.Base(), p.code, p.origin, top - p.first, fp, sizes, frames, d.index);
      assert m[fp.index + 4 + d.index] == Number(mem[p.first + (fp.index + 4 + d.index)]);
    }
  }

  /** Captured values are not checked by the verifier: they have to be in the closure that runs. */
  ghost predicate CapturedExist(g: Heap, mem: map<nat, Word>, top: nat, bottom: nat, fpAddr: nat, nargs: nat,
                                ds: seq<Builtins.Designation>) {
    forall j :: 0 <= j < |ds| && ds[j].memVar.Captured? ==>
      Builtins.Designable(g, mem, top, bottom, fpAddr, nargs, ds[j])
  }

  ghost predicate AllInFrame(f: Frame, ds: seq<Builtins.Designation>) {
    forall j :: 0 <= j < |ds| ==> InFrame(f, ds[j])
  }

  lemma FrameDesignable(g: Heap, mem: map<nat, Word>, p: Place, top: nat, fp: Pointer, sizes: seq<nat>,
                        frames: seq<Frame>, fpAddr: nat, nargs: nat, bottom: nat, ds: seq<Builtins.Designation>)
    requires StackIs(mem, p, top, fp, sizes, frames) && frames != [] && bottom == p.first + p.slots
    requires fp.Slot? && fpAddr == p.first + fp.index && AllInFrame(Last(frames), ds)
    requires CapturedExist(g, mem, top, bottom, fpAddr, nargs, ds)
    ensures Builtins.AllDesignable(g, mem, top, bottom, fpAddr, nargs, ds)
  {
    hide StackIs, Builtins.Designable, InFrame;
    forall j | 0 <= j < |ds| ensures Builtins.Designable(g, mem, top, bottom, fpAddr, nargs, ds[j]) {
      if ds[j].memVar.Local? || ds[j].memVar.Argument? {
        InFrameDesignable(g, mem, p, top, fp, sizes, frames, fpAddr, nargs, bottom, ds[j]);
      } else if ds[j].memVar.Global? {
        GlobalDesignable(g, mem, top, bottom, fpAddr, nargs, ds[j]);
      }
    }
  }

  lemma GlobalDesignable(g: Heap, mem: map<nat, Word>, top: nat, bottom: nat, fpAddr: nat, nargs: nat,
                         d: Builtins.Designation)
    requires d.memVar.Global?
    ensures Builtins.Designable(g, mem, top, bottom, fpAddr, nargs, d)
  {
  }

  /** The closure on top of the stack holds the code offset and, moved by `f`, the designated variables. */
  ghost predicate Captures(g: Heap, obj: Word, target: nat, frame: Frame, ds: seq<Builtins.Designation>,
                           f: int -> int)
  {
    && 0 <= obj.hi - g.base < |g.words|
    && Unboxing(g.words[obj.hi - g.base]) == target
    && forall j: nat :: j < |ds| ==> CapturesOne(g, obj, frame, ds[j], j, f)
  }

  ghost predicate CapturesOne(g: Heap, obj: Word, frame: Frame, d: Builtins.Designation, j: nat, f: int -> int) {
    && 0 <= obj.hi - g.base + 1 + j < |g.words|
    && (d.memVar.Local? || d.memVar.Argument? ==>
          InFrame(frame, d) && Number(g.words[obj.hi - g.base + 1 + j]) == f(Variable(frame, d)))
  }

  lemma CapturedValue(gc: Gc, foreign: iset<nat>, g0: Heap, mem0: map<nat, Word>, top0: nat, vals: seq<Word>,
                      ren: map<nat, nat>, h: Word, p: Place, fp: Pointer, sizes: seq<nat>, frames: seq<Frame>,
                      fpAddr: nat, nargs: nat, bottom: nat, ds: seq<Builtins.Designation>, j: nat)
    requires Builtins.BuiltFrom(gc, foreign, g0, mem0, top0, vals, ren, h, 1) && g0.Tiles() && |gc.starts| > 0
    requires StackIs(mem0, p, top0, fp, sizes, frames) && frames != [] && bottom == p.first + p.slots
    requires fp.Slot? && fpAddr == p.first + fp.index && j < |ds| == |vals| && InFrame(Last(frames), ds[j])
    requires ds[j].memVar.Local? || ds[j].memVar.Argument? ==>
               && Builtins.Designable(g0, mem0, top0, bottom, fpAddr, nargs, ds[j])
               && vals[j] == Builtins.DesignatedValue(g0, mem0, top0, bottom, fpAddr, nargs, ds[j])
    ensures CapturesOne(gc.Snapshot(), gc.memory[gc.top + 1], Last(frames), ds[j], j, MoveOf(g0, gc.Snapshot(), ren))
  {
    hide StackIs, Builtins.Ready, Preserved, IsNewest, Builtins.Designable, Builtins.DesignatedValue, InFrame;
    hide MoveOf, WordRenamed, Variable;
    var obj := gc.memory[gc.top + 1];
    assert Builtins.ContentIs(g0, vals[j], gc.Snapshot(), ren, obj, 1 + j);
    RenamedIsMoved(g0, gc.Snapshot(), ren, vals[j], gc.words[obj.hi - gc.begin + 1 + j]);
    if ds[j].memVar.Local? || ds[j].memVar.Argument? {
      InFrameDesignable(g0, mem0, p, top0, fp, sizes, frames, fpAddr, nargs, bottom, ds[j]);
    }
  }

  /** The round of CLOSURE: it fails only at a designated global or where the pool of extra roots is too small;
      else there is one more operand, a closure that captures the designated variables, everything else on the
      stack has been moved by the collector, and the depth is the one that the verifier computes. */
  method ClosureRound(gc: Gc, code: seq<Byte>, pc: nat, fpAddr: nat, nargs: nat, place: nat -> nat,
                      ghost foreign: iset<nat>, ghost p: Place, ghost fp: Pointer, ghost sizes: seq<nat>,
                      ghost frames: seq<Frame>, ghost b: nat, ghost globals: nat)
    returns (ok: bool, ghost f: int -> int, ghost frames': seq<Frame>)
    requires pc < |code| && OpOf(code[pc]) == CLOSURE && MaxStack.VariablesExist(code, pc, b, globals)
    requires Round(gc, foreign, p, fp, sizes, frames, 0) && Declares(code, b, Last(frames))
    requires fp.Slot? && fpAddr == p.first + fp.index && nargs == |Last(frames).args|
    requires pc + 9 <= |code| && pc + 9 + 5 * Arg(code, pc, 1) <= |code|
    requires CapturedExist(gc.Snapshot(), gc.memory, gc.top, gc.bottom, fpAddr, nargs,
                           Designations(code, pc, Arg(code, pc, 1)))
    requires gc.top >= p.first + Arg(code, pc, 1) && gc.FreshPlace(place, foreign)
    modifies gc, gc.words
    ensures ok <==> Builtins.NoGlobals(Designations(code, pc, Arg(code, pc, 1)))
                    && Arg(code, pc, 1) <= MAX_EXTRA_ROOTS_NUMBER
    ensures ok ==> Builtins.Ready(gc, foreign, 1) && StackIs(gc.memory, p, gc.top, fp, sizes, frames')
    ensures ok ==> gc.top + 1 in gc.memory && KeepsIntegers(f)
                   && frames' == WithCells(MapFrames(f, frames),
                                           MapSeq(f, Last(frames).cells) + [Number(gc.memory[gc.top + 1])])
    ensures ok ==> gc.top + 1 in gc.memory
                   && Captures(gc.Snapshot(), gc.memory[gc.top + 1], Arg(code, pc, 0), Last(frames),
                               Designations(code, pc, Arg(code, pc, 1)), f)
    ensures ok ==> PushesOne(code, pc, frames, frames')
  {
    hide Builtins.Ready, Builtins.ContentsAre, Builtins.BuiltFrom, StackIs, KeepsIntegers, AddressesForeign;
    hide ReturnsInside, U32, OpOf, InMemory, Preserved, Gc.FreshPlace, Stands, CapturedExist, Builtins.Designable;
    hide Builtins.DesignatedValue, Builtins.DesignatedValues, MaxStack.VariablesExist, Declares, Captures, InFrame;
    hide Builtins.FirstWordIs;
    ghost var g0, mem0, top0, cap, bottom0 := gc.Snapshot(), gc.memory, gc.top, gc.words.Length, gc.bottom;
    var n := Arg(code, pc, 1);
    var ds := Designations(code, pc, n);
    AllInside(code, pc, b, globals, Last(frames));
    RoundInside(gc, foreign, p, fp, sizes, frames, 0);
    RoundRoom(gc, foreign, p, fp, sizes, frames, n + 1);
    FrameDesignable(g0, mem0, p, top0, fp, sizes, frames, fpAddr, nargs, bottom0, ds);
    f, frames' := x => x, [];
    ghost var ren := map[];
    ghost var vals := if Builtins.NoGlobals(ds)
                      then Builtins.DesignatedValues(g0, mem0, top0, bottom0, fpAddr, nargs, ds) else [];
    var ip := WordFrom(2 * Arg(code, pc, 0) + 1);
    ok, ren := Builtins.CreateClosure(gc, ip, fpAddr, nargs, ds, place, foreign);
    if ok {
      var h := MakeHeader(Closure, n + 1);
      BuiltFrames(gc, foreign, g0, cap, mem0, top0, vals, ren, h, 1, p, fp, sizes, frames, 0);
      f := MoveOf(g0, gc.Snapshot(), ren);
      frames' := PushedFrames(gc, foreign, g0, mem0, top0, vals, ren, h, p, fp, sizes, frames, code, pc);
      CapturesAll(gc, foreign, g0, mem0, top0, vals, ren, h, p, fp, sizes, frames, fpAddr, nargs, bottom0, ds,
                  Arg(code, pc, 0), ip);
    }
  }

  /** One operand more, as the verifier says. */
  ghost predicate PushesOne(code: seq<Byte>, pc: nat, frames: seq<Frame>, frames': seq<Frame>)
    requires pc < |code|
  {
    && frames != [] && frames' != []
    && var d := Runs.OperandDepth(Last(frames));
       && Runs.OperandDepth(Last(frames')) == d + 1
       && (0 <= d < INT32_MAX ==> Verifier.DepthAfter(code, d, pc, CLOSURE) == Verifier.Depth.Depth(d + 1))
  }

  lemma PushedFrames(gc: Gc, foreign: iset<nat>, g0: Heap, mem0: map<nat, Word>, top0: nat, vals: seq<Word>,
                     ren: map<nat, nat>, h: Word, p: Place, fp: Pointer, sizes: seq<nat>, frames: seq<Frame>,
                     code: seq<Byte>, pc: nat)
    returns (frames': seq<Frame>)
    requires Builtins.BuiltFrom(gc, foreign, g0, mem0, top0, vals, ren, h, 1) && pc < |code|
    requires |g0.starts| > 0 && |gc.starts| > 0
    requires RoundDone(gc, p, fp, sizes, frames, 0, MoveOf(g0, gc.Snapshot(), ren))
    ensures Builtins.Ready(gc, foreign, 1) && StackIs(gc.memory, p, gc.top, fp, sizes, frames')
    ensures frames' == WithCells(MapFrames(MoveOf(g0, gc.Snapshot(), ren), frames),
                                 MapSeq(MoveOf(g0, gc.Snapshot(), ren), Last(frames).cells)
                                 + [Number(gc.memory[gc.top + 1])])
    ensures PushesOne(code, pc, frames, frames')
  {
    hide StackIs, Builtins.Ready, Preserved, IsNewest, Builtins.ContentsAre, MoveOf;
    var f, cells := MoveOf(g0, gc.Snapshot(), ren), Last(frames).cells;
    assert cells[..|cells| - 0] == cells;
    frames' := WithCells(MapFrames(f, frames), MapSeq(f, cells) + [Number(gc.memory[gc.top + 1])]);
  }

  lemma CapturesAll(gc: Gc, foreign: iset<nat>, g0: Heap, mem0: map<nat, Word>, top0: nat, vals: seq<Word>,
                    ren: map<nat, nat>, h: Word, p: Place, fp: Pointer, sizes: seq<nat>, frames: seq<Frame>,
                    fpAddr: nat, nargs: nat, bottom: nat, ds: seq<Builtins.Designation>, target: nat, ip: Word)
    requires Builtins.BuiltFrom(gc, foreign, g0, mem0, top0, vals, ren, h, 1) && g0.Tiles() && |gc.starts| > 0
    requires StackIs(mem0, p, top0, fp, sizes, frames) && frames != [] && bottom == p.first + p.slots
    requires fp.Slot? && fpAddr == p.first + fp.index && AllInFrame(Last(frames), ds) && Builtins.NoGlobals(ds)
    requires Builtins.AllDesignable(g0, mem0, top0, bottom, fpAddr, nargs, ds)
    requires vals == Builtins.DesignatedValues(g0, mem0, top0, bottom, fpAddr, nargs, ds)
    requires target < UINT32 && ip == WordFrom(2 * target + 1)
    requires Builtins.FirstWordIs(gc.Snapshot(), gc.memory[gc.top + 1], ip)
    ensures Captures(gc.Snapshot(), gc.memory[gc.top + 1], target, Last(frames), ds, MoveOf(g0, gc.Snapshot(), ren))
  {
    hide StackIs, Builtins.Ready, Builtins.ContentsAre, Preserved, IsNewest, WordRenamed;
    hide Builtins.Designable, Builtins.DesignatedValue, InFrame, CapturesOne, MoveOf;
    BoxedUnboxes(ip, target);
    forall j: nat | j < |ds|
      ensures CapturesOne(gc.Snapshot(), gc.memory[gc.top + 1], Last(frames), ds[j], j,
                          MoveOf(g0, gc.Snapshot(), ren))
    {
      CapturedValue(gc, foreign, g0, mem0, top0, vals, ren, h, p, fp, sizes, frames, fpAddr, nargs, bottom, ds, j);
    }
  }

  lemma RoundRoom(gc: Gc, foreign: iset<nat>, p: Place, fp: Pointer, sizes: seq<nat>, frames: seq<Frame>, n: nat)
    requires Round(gc, foreign, p, fp, sizes, frames, 0) && gc.top + 1 >= p.first + n
    ensures Builtins.Room(gc.memory, gc.top, n) && gc.top >= p.first - 1
  {
    hide Stands;
    TopAtLeast(Image(gc.memory, p), p.Base(), p.code, p.origin, gc.top - p.first, fp, sizes, frames);
  }
}
