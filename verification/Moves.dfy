/** The collector and the frame stack on the same array: a collection that scans the stack rewrites operands,
    locals, arguments and globals, and leaves the words that frames save. */
module Moves {
  import opened Words
  import opened HeapLayout
  import opened Graphs
  import opened Collector
  import opened Values
  import opened Bytecode
  import opened Frames
  import Builtins
  import Runs
  import Interpreter

  // What a collection does to a word, as a function of the word.

  ghost predicate Named(g: Heap, g': Heap, ren: map<nat, nat>, w: Word, k: nat)
    requires |g.starts| > 0 && |g'.starts| > 0
  {
    g.PointsTo(w, k) && k in ren && ren[k] < Count(g'.starts)
  }

  /** The pointer to an object becomes the pointer to its new place; any other word is left alone. */
  ghost function MovedWord(g: Heap, g': Heap, ren: map<nat, nat>, w: Word): Word
    requires |g.starts| > 0 && |g'.starts| > 0
  {
    if exists k: nat :: Named(g, g', ren, w, k) then
      var k: nat :| Named(g, g', ren, w, k);
      ContentPtr(g'.base, g'.starts[ren[k]])
    else w
  }

  ghost function Moved(g: Heap, g': Heap, ren: map<nat, nat>, x: int): int
    requires |g.starts| > 0 && |g'.starts| > 0
  {
    if x < 0 then x else Number(MovedWord(g, g', ren, WordFrom(x)))
  }

  ghost function MoveOf(g: Heap, g': Heap, ren: map<nat, nat>): int -> int
    requires |g.starts| > 0 && |g'.starts| > 0
  {
    x => Moved(g, g', ren, x)
  }

  lemma RenamedIsMoved(g: Heap, g': Heap, ren: map<nat, nat>, w: Word, w': Word)
    requires |g.starts| > 0 && |g'.starts| > 0 && g.Tiles() && WordRenamed(g, g', ren, w, w')
    ensures MoveOf(g, g', ren)(Number(w)) == Number(w')
  {
    WordOfNumber(w);
    if exists k: nat :: Named(g, g', ren, w, k) {
      var k: nat :| Named(g, g', ren, w, k) && MovedWord(g, g', ren, w) == ContentPtr(g'.base, g'.starts[ren[k]]);
      assert g'.PointsTo(w', ren[k]);
    } else {
      forall k: nat ensures !g.PointsTo(w, k) {
        assert !Named(g, g', ren, w, k);
      }
    }
  }

  lemma UnnamedStays(g: Heap, g': Heap, ren: map<nat, nat>, x: int)
    requires |g.starts| > 0 && |g'.starts| > 0
    requires x >= 0 ==> forall k: nat :: !g.PointsTo(WordFrom(x), k)
    ensures MoveOf(g, g', ren)(x) == x
  {
  }

  lemma MoveKeepsIntegers(g: Heap, g': Heap, ren: map<nat, nat>)
    requires |g.starts| > 0 && |g'.starts| > 0
    ensures KeepsIntegers(MoveOf(g, g', ren))
  {
    forall x: int | x % 2 != 0 ensures MoveOf(g, g', ren)(x) == x {
      UnnamedStays(g, g', ren, x);
    }
  }

  /** The array of the frame stack, by word addresses and by the places of its parts. */
  datatype Place = Place(first: nat, slots: nat, code: int, size: nat, origin: int, strings: nat, globals: nat)
  {
    function Base(): int { 8 * first }
  }

  /** No address that a frame saves is in the heap. */
  ghost predicate AddressesForeign(foreign: iset<nat>, p: Place) {
    && p.code > 0 && p.first >= 2
    && 0 in foreign
    && (forall a: nat :: p.first - 1 <= a < p.first + p.slots ==> a in foreign)
    && forall a: nat :: p.code <= a < p.code + p.size ==> a / 8 in foreign
  }

  lemma ForeignStays(g: Heap, g': Heap, ren: map<nat, nat>, foreign: iset<nat>, cap: nat, x: nat)
    requires |g.starts| > 0 && |g'.starts| > 0 && g.Tiles() && ForeignApart(foreign, g.base, cap)
    requires Used(g.starts) <= cap
    requires x / 8 in foreign
    ensures MoveOf(g, g', ren)(x) == x
  {
    PlainOutside(g, foreign, cap, WordFrom(x));
    UnnamedStays(g, g', ren, x);
  }

  lemma MoveFixesSaved(g: Heap, g': Heap, ren: map<nat, nat>, foreign: iset<nat>, cap: nat, p: Place)
    requires |g.starts| > 0 && |g'.starts| > 0 && g.Tiles() && ForeignApart(foreign, g.base, cap)
    requires Used(g.starts) <= cap
    requires AddressesForeign(foreign, p)
    ensures FixesSaved(MoveOf(g, g', ren), p.Base(), p.slots, p.code, p.size)
  {
    hide ForeignApart;
    var f := MoveOf(g, g', ren);
    ForeignStays(g, g', ren, foreign, cap, 0);
    forall i | -1 <= i < p.slots ensures f(Encode(p.Base(), Pointer.Slot(i))) == Encode(p.Base(), Pointer.Slot(i)) {
      assert p.first + i in foreign;
      ForeignStays(g, g', ren, foreign, cap, p.Base() + 8 * i);
    }
    forall ra: nat | ra < p.size ensures f(EncodeCode(p.code, ra)) == EncodeCode(p.code, ra) {
      ForeignStays(g, g', ren, foreign, cap, p.code + ra);
    }
  }

  // The stack in the collector's memory.

  ghost predicate InMemory(mem: map<nat, Word>, p: Place) {
    forall a: nat :: p.first <= a < p.first + p.slots ==> a in mem
  }

  ghost function Image(mem: map<nat, Word>, p: Place): (m: seq<int>)
    requires InMemory(mem, p)
    ensures |m| == p.slots && forall i: nat :: i < p.slots ==> m[i] == Number(mem[p.first + i])
  {
    seq(p.slots, i requires 0 <= i < p.slots => Number(mem[p.first + i]))
  }

  /** The words at the place stand for the frames, under the top at address `top`. */
  ghost predicate StackIs(mem: map<nat, Word>, p: Place, top: nat, fp: Pointer, sizes: seq<nat>, frames: seq<Frame>) {
    && InMemory(mem, p)
    && p.strings + p.globals <= p.slots && p.origin < p.slots - p.strings - p.globals
    && Stands(Image(mem, p), p.Base(), p.code, p.origin, top - p.first, fp, sizes, frames)
  }

  ghost function StateOf(mem: map<nat, Word>, p: Place, pc: nat, frames: seq<Frame>): Runs.State
    requires InMemory(mem, p) && p.strings + p.globals <= p.slots
  {
    Runs.State.Running(pc, frames, GlobalsIn(Image(mem, p), p.strings, p.globals))
  }

  /** The words between two addresses have been renamed by a collection. */
  ghost predicate RenamedAbove(g: Heap, g': Heap, ren: map<nat, nat>, mem: map<nat, Word>, mem': map<nat, Word>,
                               low: nat, high: nat)
    requires |g.starts| > 0 && |g'.starts| > 0
  {
    forall p :: low < p < high && p in mem ==> p in mem' && WordRenamed(g, g', ren, mem[p], mem'[p])
  }

  lemma ImageMapped(g: Heap, g': Heap, ren: map<nat, nat>, mem: map<nat, Word>, mem': map<nat, Word>, p: Place,
                    low: nat)
    requires |g.starts| > 0 && |g'.starts| > 0 && g.Tiles() && mem'.Keys == mem.Keys && InMemory(mem, p)
    requires p.first <= low + 1
    requires RenamedAbove(g, g', ren, mem, mem', low, p.first + p.slots)
    ensures InMemory(mem', p) && MappedAbove(MoveOf(g, g', ren), Image(mem, p), Image(mem', p), low - p.first)
  {
    assert InMemory(mem', p) by {
      forall a: nat | p.first <= a < p.first + p.slots ensures a in mem' {
        assert a in mem.Keys;
      }
    }
    forall i: nat | low - p.first < i < p.slots ensures Image(mem', p)[i] == MoveOf(g, g', ren)(Image(mem, p)[i]) {
      RenamedIsMoved(g, g', ren, mem[p.first + i], mem'[p.first + i]);
    }
  }

  /** A collection that fixes every word of the stack leaves the frame stack in order: the same top, frame
      pointers and return addresses, and every other word of a frame mapped. */
  lemma CollectionKeepsFrames(g: Heap, g': Heap, ren: map<nat, nat>, foreign: iset<nat>, cap: nat, mem: map<nat, Word>,
                              mem': map<nat, Word>,
                              p: Place, top: nat, fp: Pointer, sizes: seq<nat>, frames: seq<Frame>)
    requires |g.starts| > 0 && |g'.starts| > 0 && g.Tiles() && ForeignApart(foreign, g.base, cap)
    requires Used(g.starts) <= cap
    requires AddressesForeign(foreign, p) && ReturnsInside(frames, p.size) && StackIs(mem, p, top, fp, sizes, frames)
    requires mem'.Keys == mem.Keys && RenamedAbove(g, g', ren, mem, mem', top, p.first + p.slots)
    ensures KeepsIntegers(MoveOf(g, g', ren))
    ensures StackIs(mem', p, top, fp, sizes, MapFrames(MoveOf(g, g', ren), frames))
    ensures GlobalsIn(Image(mem', p), p.strings, p.globals) ==
            MapSeq(MoveOf(g, g', ren), GlobalsIn(Image(mem, p), p.strings, p.globals))
  {
    hide Stands, FixesSaved, RenamedAbove, MappedAbove, KeepsIntegers, AddressesForeign, ReturnsInside;
    var f, m := MoveOf(g, g', ren), Image(mem, p);
    TopAtLeast(m, p.Base(), p.code, p.origin, top - p.first, fp, sizes, frames);
    ImageMapped(g, g', ren, mem, mem', p, top);
    MoveKeepsIntegers(g, g', ren);
    MoveFixesSaved(g, g', ren, foreign, cap, p);
    StandsMoved(f, m, Image(mem', p), p.Base(), p.code, p.origin, top - p.first, fp, sizes, frames, p.size);
    GlobalsMapped(f, m, Image(mem', p), top - p.first, p.strings, p.globals);
  }

  // The rounds of the dispatch loop that allocate.

  /** Between two instructions, with `n` operands to be taken, on the collector's memory. */
  ghost predicate Round(gc: Gc, foreign: iset<nat>, p: Place, fp: Pointer, sizes: seq<nat>, frames: seq<Frame>, n: nat)
    reads gc, gc.words
  {
    && Builtins.Ready(gc, foreign, n)
    && gc.bottom == p.first + p.slots
    && StackIs(gc.memory, p, gc.top, fp, sizes, frames)
    && AddressesForeign(foreign, p) && ReturnsInside(frames, p.size)
    && frames != [] && n <= |Last(frames).cells|
  }

  /** The state after an instruction that has replaced `n` operands by an object. */
  ghost predicate RoundDone(gc: Gc, p: Place, fp: Pointer, sizes: seq<nat>, frames: seq<Frame>, n: nat, f: int -> int)
    reads gc, gc.words
  {
    && gc.bottom == p.first + p.slots && gc.top + 1 in gc.memory && frames != [] && n <= |Last(frames).cells|
    && var cells := Last(frames).cells;
       var result := Number(gc.memory[gc.top + 1]);
       StackIs(gc.memory, p, gc.top, fp, sizes,
               WithCells(MapFrames(f, frames), MapSeq(f, cells[..|cells| - n]) + [result]))
  }

  /** The frames without the operands that are taken. */
  lemma PoppedStands(mem: map<nat, Word>, p: Place, top: nat, fp: Pointer, sizes: seq<nat>, frames: seq<Frame>, n: nat)
    requires StackIs(mem, p, top, fp, sizes, frames) && frames != [] && n <= |Last(frames).cells|
    ensures StackIs(mem, p, top + n, fp, sizes, WithCells(frames, Last(frames).cells[..|Last(frames).cells| - n]))
  {
    hide Stands;
    var m, f := Image(mem, p), Last(frames);
    var keep := |f.cells| - n;
    assert f.cells[..keep] + [] == f.cells[..keep];
    TopAtLeast(m, p.Base(), p.code, p.origin, top - p.first, fp, sizes, frames);
    StandsCells(m, m, p.Base(), p.code, p.origin, top - p.first, fp, sizes, frames, keep, [],
                f.(cells := f.cells[..keep]));
  }

  /** The frames with one more operand, which lies at the top. */
  lemma PushedStands(mem: map<nat, Word>, p: Place, top: nat, fp: Pointer, sizes: seq<nat>, frames: seq<Frame>)
    requires StackIs(mem, p, top, fp, sizes, frames) && frames != [] && top >= p.first && top in mem && top >= 1
    ensures StackIs(mem, p, top - 1, fp, sizes, WithCells(frames, Last(frames).cells + [Number(mem[top])]))
  {
    hide Stands;
    var m, f := Image(mem, p), Last(frames);
    var more := [Number(mem[top])];
    TopAtLeast(m, p.Base(), p.code, p.origin, top - p.first, fp, sizes, frames);
    assert f.cells[..|f.cells|] + more == f.cells + more;
    StandsCells(m, m, p.Base(), p.code, p.origin, top - p.first, fp, sizes, frames, |f.cells|, more,
                f.(cells := f.cells + more));
  }

  /** What a builtin leaves, read as frames: the operands are gone, everything else on the stack is mapped,
      and the object is on top. */
  lemma BuiltFrames(gc: Gc, foreign: iset<nat>, g0: Heap, cap: nat, mem0: map<nat, Word>, top0: nat, vals: seq<Word>,
                    ren: map<nat, nat>, h: Word,
                    first: nat, p: Place, fp: Pointer, sizes: seq<nat>, frames: seq<Frame>, n: nat)
    requires Builtins.BuiltFrom(gc, foreign, g0, mem0, top0 + n, vals, ren, h, first)
    requires gc.bottom == p.first + p.slots && top0 + n >= p.first
    requires |g0.starts| > 0 && g0.Tiles() && ForeignApart(foreign, g0.base, cap) && Used(g0.starts) <= cap
    requires AddressesForeign(foreign, p) && ReturnsInside(frames, p.size) && StackIs(mem0, p, top0, fp, sizes, frames)
    requires frames != [] && n <= |Last(frames).cells|
    ensures |gc.starts| > 0 && InMemory(mem0, p) && InMemory(gc.memory, p) && p.strings + p.globals <= p.slots
    ensures var f := MoveOf(g0, gc.Snapshot(), ren);
            && KeepsIntegers(f) && RoundDone(gc, p, fp, sizes, frames, n, f)
            && GlobalsIn(Image(gc.memory, p), p.strings, p.globals) ==
                MapSeq(f, GlobalsIn(Image(mem0, p), p.strings, p.globals))
  {
    hide Stands, AddressesForeign, KeepsIntegers, Builtins.ContentsAre, Builtins.Ready;
    var f := MoveOf(g0, gc.Snapshot(), ren);
    var kept := Last(frames).cells[..|Last(frames).cells| - n];
    PoppedStands(mem0, p, top0, fp, sizes, frames, n);
    CollectionKeepsFrames(g0, gc.Snapshot(), ren, foreign, cap, mem0, gc.memory, p, top0 + n, fp, sizes,
                          WithCells(frames, kept));
    PushedStands(gc.memory, p, top0 + n, fp, sizes, MapFrames(f, WithCells(frames, kept)));
    Runs.MapWithCells(f, frames, kept);
    WithCellsTwice(MapFrames(f, frames), MapSeq(f, kept), MapSeq(f, kept) + [Number(gc.memory[top0 + n])]);
  }

  /** The round of SEXP or CALL_ARRAY on the frames. */
  lemma RoundSteps(code: seq<Byte>, origin: int, pc: nat, frames: seq<Frame>, globals: seq<int>, frames': seq<Frame>,
                   globals': seq<int>,
                   n: nat, result: int, f: int -> int)
    requires Interpreter.Ready(code, Runs.State.Running(pc, frames, globals))
    requires Runs.Allocates(OpOf(code[pc])) && n == Runs.Operands(code, pc, OpOf(code[pc])) && KeepsIntegers(f)
    requires frames' == WithCells(MapFrames(f, frames),
                                  MapSeq(f, Last(frames).cells[..|Last(frames).cells| - n]) + [result])
    requires globals' == MapSeq(f, globals)
    ensures Runs.Step(code, origin, Runs.State.Running(pc, frames, globals),
                      Runs.State.Running(pc + 1 + 4 * ArgCount(OpOf(code[pc])), frames', globals'))
  {
    hide Runs.Step, KeepsIntegers, OpOf, Runs.Operands, ArgCount, Runs.InFragment;
    var s := Runs.State.Running(pc, frames, globals);
    var s' := Runs.State.Running(pc + 1 + 4 * ArgCount(OpOf(code[pc])), frames', globals');
    assert Runs.ReplacedBy(s, s', n, result, f);
    Interpreter.AllocatesStep(code, origin, s, s', Interpreter.Answer(result, f));
  }

  lemma RoundInside(gc: Gc, foreign: iset<nat>, p: Place, fp: Pointer, sizes: seq<nat>, frames: seq<Frame>, n: nat)
    requires Round(gc, foreign, p, fp, sizes, frames, n) && gc.top + n >= p.first
    ensures gc.top + n >= 1 && gc.top + n in gc.memory && Builtins.OnStack(gc.memory, gc.top, n)
    ensures |gc.starts| > 0 && gc.Snapshot().Tiles() && ForeignApart(foreign, gc.begin, gc.words.Length)
    ensures Used(gc.starts) <= gc.words.Length
    ensures p.first <= gc.top + 1
  {
    hide Stands;
    TopAtLeast(Image(gc.memory, p), p.Base(), p.code, p.origin, gc.top - p.first, fp, sizes, frames);
  }

  /** The round of CALL_ARRAY on the collector's own memory is the step of CALL_ARRAY on the frames that the
      stack stands for, whether or not a collection ran: it fails only where the pool of extra roots is too small. */
  method CallArrayRound(gc: Gc, code: seq<Byte>, pc: nat, place: nat -> nat, ghost foreign: iset<nat>,
                        ghost p: Place, ghost fp: Pointer, ghost sizes: seq<nat>, ghost frames: seq<Frame>)
    returns (ok: bool, ghost frames': seq<Frame>)
    requires pc + 5 <= |code| && OpOf(code[pc]) == CALL_ARRAY
    requires Round(gc, foreign, p, fp, sizes, frames, Arg(code, pc, 0)) && gc.top + Arg(code, pc, 0) >= p.first
    requires Interpreter.Ready(code, StateOf(gc.memory, p, pc, frames)) && gc.FreshPlace(place, foreign)
    modifies gc, gc.words
    ensures ok <==> Arg(code, pc, 0) <= MAX_EXTRA_ROOTS_NUMBER
    ensures ok ==>
              Builtins.Ready(gc, foreign, 1) && gc.bottom == old(gc.bottom)
                  && StackIs(gc.memory, p, gc.top, fp, sizes, frames')
    ensures ok ==>
              Runs.Step(code, p.origin, old(StateOf(gc.memory, p, pc, frames)), StateOf(gc.memory, p, pc + 5, frames'))
  {
    hide Builtins.Ready, Builtins.ContentsAre, Builtins.BuiltFrom, StackIs, Runs.Step, KeepsIntegers, AddressesForeign;
    hide ReturnsInside;
    hide Interpreter.Ready, U32, OpOf, InMemory, Preserved, Gc.FreshPlace, Stands;
    ghost var g0, mem0, top0, cap := gc.Snapshot(), gc.memory, gc.top, gc.words.Length;
    var n := Arg(code, pc, 0);
    RoundInside(gc, foreign, p, fp, sizes, frames, n);
    ghost var vals, ren := Builtins.Operands(mem0, top0, n), map[];
    frames' := [];
    ok, ren := Builtins.CallArray(gc, n, place, foreign);
    if ok {
      BuiltFrames(gc, foreign, g0, cap, mem0, top0, vals, ren, MakeHeader(Array, n), 0, p, fp, sizes, frames, n);
      frames' := AfterRound(gc, foreign, g0, mem0, top0, vals, ren, MakeHeader(Array, n), 0, p, fp, sizes, frames, n,
                            code, pc);
    }
  }

  /** The frames after the round, and that it was a step. */
  lemma AfterRound(gc: Gc, foreign: iset<nat>, g0: Heap, mem0: map<nat, Word>, top0: nat, vals: seq<Word>,
                   ren: map<nat, nat>, h: Word,
                   first: nat, p: Place, fp: Pointer, sizes: seq<nat>, frames: seq<Frame>, n: nat, code: seq<Byte>,
                       pc: nat)
    returns (frames': seq<Frame>)
    requires Builtins.BuiltFrom(gc, foreign, g0, mem0, top0 + n, vals, ren, h, first)
    requires |g0.starts| > 0 && |gc.starts| > 0 && InMemory(mem0, p) && InMemory(gc.memory, p)
    requires p.strings + p.globals <= p.slots
    requires var f := MoveOf(g0, gc.Snapshot(), ren);
             && KeepsIntegers(f) && RoundDone(gc, p, fp, sizes, frames, n, f)
             && GlobalsIn(Image(gc.memory, p), p.strings, p.globals) ==
                 MapSeq(f, GlobalsIn(Image(mem0, p), p.strings, p.globals))
    requires Interpreter.Ready(code, StateOf(mem0, p, pc, frames))
    requires Runs.Allocates(OpOf(code[pc])) && n == Runs.Operands(code, pc, OpOf(code[pc]))
    ensures Builtins.Ready(gc, foreign, 1) && StackIs(gc.memory, p, gc.top, fp, sizes, frames')
    ensures Runs.Step(code, p.origin, StateOf(mem0, p, pc, frames),
                      StateOf(gc.memory, p, pc + 1 + 4 * ArgCount(OpOf(code[pc])), frames'))
  {
    hide Stands, StackIs, KeepsIntegers, Runs.Step, Runs.Operands, OpOf, ArgCount, Interpreter.Ready;
    var f, cells := MoveOf(g0, gc.Snapshot(), ren), Last(frames).cells;
    var result := Number(gc.memory[gc.top + 1]);
    frames' := WithCells(MapFrames(f, frames), MapSeq(f, cells[..|cells| - n]) + [result]);
    RoundSteps(code, p.origin, pc, frames, GlobalsIn(Image(mem0, p), p.strings, p.globals), frames',
               GlobalsIn(Image(gc.memory, p), p.strings, p.globals), n, result, f);
  }

  /** The same for SEXP, which has the tag on the stack while it allocates. */
  method SexpRound(gc: Gc, code: seq<Byte>, pc: nat, tag: Word, place: nat -> nat, ghost foreign: iset<nat>,
                   ghost p: Place, ghost fp: Pointer, ghost sizes: seq<nat>, ghost frames: seq<Frame>)
    returns (ok: bool, ghost frames': seq<Frame>)
    requires pc + 9 <= |code| && OpOf(code[pc]) == SEXP && Unboxed(tag)
    requires Round(gc, foreign, p, fp, sizes, frames, Arg(code, pc, 1)) && gc.top >= p.first
    requires Interpreter.Ready(code, StateOf(gc.memory, p, pc, frames)) && gc.FreshPlace(place, foreign)
    modifies gc, gc.words
    ensures ok <==> Arg(code, pc, 1) <= MAX_EXTRA_ROOTS_NUMBER
    ensures ok ==>
              Builtins.Ready(gc, foreign, 1) && gc.bottom == old(gc.bottom)
                  && StackIs(gc.memory, p, gc.top, fp, sizes, frames')
    ensures ok ==>
              Runs.Step(code, p.origin, old(StateOf(gc.memory, p, pc, frames)), StateOf(gc.memory, p, pc + 9, frames'))
  {
    hide Builtins.Ready, Builtins.ContentsAre, Builtins.BuiltFrom, StackIs, Runs.Step, KeepsIntegers, AddressesForeign;
    hide ReturnsInside;
    hide Interpreter.Ready, U32, OpOf, InMemory, Preserved, Gc.FreshPlace, Stands;
    ghost var g0, mem0, top0, cap := gc.Snapshot(), gc.memory, gc.top, gc.words.Length;
    var n := Arg(code, pc, 1);
    RoundInside(gc, foreign, p, fp, sizes, frames, n);
    RoundInside0(gc, foreign, p, fp, sizes, frames, n);
    ghost var vals, ren := Builtins.Operands(mem0, top0, n), map[];
    frames' := [];
    ok, ren := Builtins.BoxingSexp(gc, tag, n, place, foreign);
    if ok {
      BuiltFrames(gc, foreign, g0, cap, mem0, top0, vals, ren, MakeHeader(Sexp, n), 1, p, fp, sizes, frames, n);
      frames' := AfterRound(gc, foreign, g0, mem0, top0, vals, ren, MakeHeader(Sexp, n), 1, p, fp, sizes, frames, n,
                            code, pc);
    }
  }

  lemma RoundInside0(gc: Gc, foreign: iset<nat>, p: Place, fp: Pointer, sizes: seq<nat>, frames: seq<Frame>, n: nat)
    requires Round(gc, foreign, p, fp, sizes, frames, n) && gc.top >= p.first
    ensures gc.top >= 1 && gc.top in gc.memory
  {
  }
}
