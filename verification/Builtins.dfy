/** The instructions that build heap objects from the operand stack: CALL_ARRAY, SEXP and CLOSURE.
    The stack is the part of the collector's root memory above `top`. */
module Builtins {
  import opened Words
  import opened HeapLayout
  import opened Graphs
  import opened Collector
  import opened Runtime
  import opened Values

  /** Between two instructions: heap and roots in order, nothing left in the pool of extra roots, and
      `n` operands on the stack. */
  ghost predicate Ready(gc: Gc, foreign: iset<nat>, n: nat)
    reads gc, gc.words
  {
    && gc.Valid(foreign) && gc.RootsValued(foreign)
    && gc.extraRoots == []
    && gc.top + n < gc.bottom
  }

  /** The operands are roots, and hold values. */
  lemma OperandsHold(gc: Gc, foreign: iset<nat>, n: nat)
    requires Ready(gc, foreign, n)
    ensures ArgsHold(gc, foreign, gc.top + 1, n)
    ensures forall p: nat :: gc.top + 1 <= p < gc.top + 1 + n ==> p in gc.memory
    ensures Region(gc.top + 1, gc.top + 1 + n) <= gc.RootAddrs()
    ensures Region(gc.top + 1, gc.bottom) <= gc.FixedAddrs()
  {
    forall p: nat | gc.top + 1 <= p < gc.top + 1 + n ensures p in gc.memory {
      assert p in gc.FixedAddrs();
    }
  }

  /** The word at `p` comes from the other end of the `n` words at `lo`. */
  ghost predicate TurnedAt(mem: map<nat, Word>, mem': map<nat, Word>, lo: nat, n: nat, p: nat) {
    var q := 2 * lo + n - 1 - p;
    q >= 0 && q in mem && p in mem' && mem'[p] == mem[q]
  }

  /** The same words, but the `n` words at `lo` in reverse order. */
  ghost predicate Turned(mem: map<nat, Word>, mem': map<nat, Word>, lo: nat, n: nat) {
    && mem'.Keys == mem.Keys
    && (forall p: nat :: lo <= p < lo + n ==> TurnedAt(mem, mem', lo, n, p))
    && (forall p: nat :: p in mem && !(lo <= p < lo + n) ==> mem'[p] == mem[p])
  }

  lemma TurnedOutside(mem: map<nat, Word>, mem': map<nat, Word>, lo: nat, n: nat)
    requires Turned(mem, mem', lo, n)
    ensures mem'.Keys == mem.Keys
    ensures forall p :: lo + n <= p && p in mem ==> mem'[p] == mem[p]
  {
  }

  /** std::reverse on `n` stack words. */
  method Reverse(gc: Gc, lo: nat, n: nat)
    requires forall p: nat :: lo <= p < lo + n ==> p in gc.memory
    modifies gc`memory
    ensures Turned(old(gc.memory), gc.memory, lo, n)
  {
    ghost var mem := gc.memory;
    var i, j := lo, lo + n;
    while i < j && i < j - 1
      invariant lo <= i <= j <= lo + n && i - lo == lo + n - j
      invariant gc.memory.Keys == mem.Keys
      invariant forall p: nat :: lo <= p < i || j <= p < lo + n ==> TurnedAt(mem, gc.memory, lo, n, p)
      invariant forall p: nat :: p in mem && !(lo <= p < i || j <= p < lo + n) ==> gc.memory[p] == mem[p]
    {
      j := j - 1;
      var u, v := gc.memory[i], gc.memory[j];
      ghost var before := gc.memory;
      gc.memory := gc.memory[i := v][j := u];
      forall p: nat | lo <= p < i + 1 || j <= p < lo + n ensures TurnedAt(mem, gc.memory, lo, n, p) {
        assert lo <= p < i || j + 1 <= p < lo + n ==> TurnedAt(mem, before, lo, n, p);
      }
      i := i + 1;
    }
  }

  ghost predicate OnStack(mem: map<nat, Word>, top: nat, n: nat) {
    forall p: nat :: top < p <= top + n ==> p in mem
  }

  /** The `n` operands on a stack with top `top`, in the order in which they were pushed. */
  ghost function Operands(mem: map<nat, Word>, top: nat, n: nat): (vals: seq<Word>)
    requires OnStack(mem, top, n)
    ensures |vals| == n
  {
    seq(n, i requires 0 <= i < n => mem[top + n - i])
  }

  /** The contents of `obj`, from word `first` on, are the values `vals` of heap `g0`. */
  ghost predicate ContentsAre(g0: Heap, vals: seq<Word>, g: Heap, ren: map<nat, nat>, obj: Word, first: nat)
    requires |g0.starts| > 0 && |g.starts| > 0
  {
    forall i: nat :: i < |vals| ==> ContentIs(g0, vals[i], g, ren, obj, first + i)
  }

  ghost predicate ContentIs(g0: Heap, val: Word, g: Heap, ren: map<nat, nat>, obj: Word, i: nat)
    requires |g0.starts| > 0 && |g.starts| > 0
  {
    && 0 <= obj.hi - g.base + i < |g.words|
    && WordRenamed(g0, g, ren, val, g.words[obj.hi - g.base + i])
  }

  /** An object that holds the argument words of a builtin holds the values those words had before. */
  lemma ArgumentsAreContents(g0: Heap, vals: seq<Word>, mem1: map<nat, Word>, mem: map<nat, Word>, lo: nat, n: nat,
                             reversed: bool,
                             g: Heap, ren: map<nat, nat>, obj: Word, first: nat, addrs: set<nat>)
    requires |g0.starts| > 0 && |g.starts| > 0 && |vals| == n
    requires RootsRenamed(g0, g, ren, mem1, mem, addrs) && Region(lo, lo + n) <= addrs
    requires Contains(g, obj, first, mem, lo, n, reversed)
    requires ArgumentsAre(mem1, vals, lo, n, reversed)
    ensures ContentsAre(g0, vals, g, ren, obj, first)
  {
    forall i: nat | i < n ensures ContentIs(g0, vals[i], g, ren, obj, first + i) {
      assert ArgumentIs(mem1, vals, lo, n, reversed, i);
      var p := if reversed then lo + (n - 1 - i) else lo + i;
      assert p in Region(lo, lo + n);
      assert Slot(obj.hi - g.base + first, lo, n, reversed, p) == obj.hi - g.base + first + i;
      assert mem[p] == g.words[obj.hi - g.base + first + i];
    }
  }

  lemma BuiltHolds(gc: Gc, foreign: iset<nat>, g0: Heap, vals: seq<Word>, mem1: map<nat, Word>, lo: nat, n: nat,
                   reversed: bool,
                   ren: map<nat, nat>, obj: Word, h: Word, first: nat, addrs: set<nat>)
    requires Built(gc, foreign, g0, mem1, addrs, ren, obj, h) && |vals| == n
    requires Region(lo, lo + n) <= addrs
    requires Contains(gc.Snapshot(), obj, first, gc.memory, lo, n, reversed)
    requires ArgumentsAre(mem1, vals, lo, n, reversed)
    ensures |g0.starts| > 0 && |gc.starts| > 0
    ensures ContentsAre(g0, vals, gc.Snapshot(), ren, obj, first)
  {
    ArgumentsAreContents(g0, vals, mem1, gc.memory, lo, n, reversed, gc.Snapshot(), ren, obj, first, addrs);
  }

  /** The argument word that goes to place `i` holds vals[i]. */
  ghost predicate ArgumentIs(mem: map<nat, Word>, vals: seq<Word>, lo: nat, n: nat, reversed: bool, i: nat)
    requires |vals| == n && i < n
  {
    var p := if reversed then lo + (n - 1 - i) else lo + i;
    p in mem && mem[p] == vals[i]
  }

  ghost predicate ArgumentsAre(mem: map<nat, Word>, vals: seq<Word>, lo: nat, n: nat, reversed: bool)
    requires |vals| == n
  {
    forall i: nat :: i < n ==> ArgumentIs(mem, vals, lo, n, reversed, i)
  }

  lemma TurnedArguments(mem0: map<nat, Word>, mem1: map<nat, Word>, top: nat, n: nat)
    requires OnStack(mem0, top, n) && Turned(mem0, mem1, top + 1, n)
    ensures ArgumentsAre(mem1, Operands(mem0, top, n), top + 1, n, false)
  {
    var lo, vals := top + 1, Operands(mem0, top, n);
    forall i: nat | i < n ensures ArgumentIs(mem1, vals, lo, n, false, i) {
      assert TurnedAt(mem0, mem1, lo, n, lo + i);
    }
  }

  /** Reversing stack words keeps the roots in order. */
  lemma TurnedRootsHold(g: Heap, foreign: iset<nat>, mem: map<nat, Word>, mem': map<nat, Word>, lo: nat, n: nat,
                        roots: set<nat>, fixed: set<nat>)
    requires |g.starts| > 0 && RootsHold(g, foreign, mem, roots, fixed)
    requires Turned(mem, mem', lo, n) && Region(lo, lo + n) <= roots
    ensures RootsHold(g, foreign, mem', roots, fixed)
  {
    forall p | p in fixed
      ensures p in mem' && if p in roots then Valued(g, foreign, mem'[p]) else Plain(mem'[p], foreign)
    {
      assert p in mem.Keys;
      if lo <= p < lo + n {
        assert TurnedAt(mem, mem', lo, n, p);
        assert 2 * lo + n - 1 - p in Region(lo, lo + n);
      }
    }
  }

  /** Pops `n` operands and pushes the address of a new object. */
  method Replace(gc: Gc, n: nat, obj: Word, ghost foreign: iset<nat>)
    requires Ready(gc, foreign, n) && gc.top + n >= 1 && gc.top + n in gc.memory
    requires Valued(gc.Snapshot(), foreign, obj)
    modifies gc`top, gc`memory
    ensures Ready(gc, foreign, 1)
    ensures gc.top == old(gc.top) + n - 1
    ensures gc.memory == old(gc.memory)[gc.top + 1 := obj]
  {
    hide Valued, Plain, Gc.Valid, RootsHold;
    ghost var mem, roots, fixed := gc.memory, gc.RootAddrs(), gc.FixedAddrs();
    gc.top := gc.top + n;
    gc.memory := gc.memory[gc.top := obj];
    gc.top := gc.top - 1;
    ReplacedRoots(gc.Snapshot(), foreign, mem, gc.top + 1, obj, roots, fixed, gc.RootAddrs(), gc.FixedAddrs());
  }

  lemma ReplacedRoots(g: Heap, foreign: iset<nat>, mem: map<nat, Word>, at: nat, obj: Word, roots: set<nat>,
                      fixed: set<nat>, roots': set<nat>, fixed': set<nat>)
    requires |g.starts| > 0 && RootsHold(g, foreign, mem, roots, fixed) && Valued(g, foreign, obj)
    requires roots' <= fixed' && at in roots'
    requires forall p :: p in fixed' && p != at ==> p in fixed && (p in roots' <==> p in roots)
    ensures RootsHold(g, foreign, mem[at := obj], roots', fixed')
  {
    hide Valued, Plain;
  }

  /** What an instruction that builds an object does: the operands above address `keep` are replaced by
      the object, whose contents from word `first` on are the values `vals`; the rest of the stack and
      everything it reaches is carried over, whether or not the collector ran. */
  ghost predicate BuiltFrom(gc: Gc, foreign: iset<nat>, g0: Heap, mem0: map<nat, Word>, keep: nat, vals: seq<Word>,
                            ren: map<nat, nat>, h: Word, first: nat)
    reads gc, gc.words
  {
    && Ready(gc, foreign, 1)
    && gc.top + 1 == keep
    && gc.top + 1 in gc.memory && |g0.starts| > 0
    && var obj := gc.memory[gc.top + 1];
       && IsNewest(gc.Snapshot(), obj, h)
       && ContentsAre(g0, vals, gc.Snapshot(), ren, obj, first)
       && Preserved(g0, gc.Snapshot(), ren)
       && gc.memory.Keys == mem0.Keys
       && forall p :: keep < p < gc.bottom && p in mem0 ==> WordRenamed(g0, gc.Snapshot(), ren, mem0[p], gc.memory[p])
  }

  lemma NewestValued(g: Heap, foreign: iset<nat>, obj: Word, h: Word)
    requires IsNewest(g, obj, h)
    ensures Valued(g, foreign, obj)
  {
    assert g.PointsTo(obj, Count(g.starts) - 1);
  }

  /** The end of such an instruction; `mem1` is the stack when the builtin was called. */
  method ReplaceByObject(gc: Gc, pops: nat, obj: Word, ghost foreign: iset<nat>, ghost g0: Heap,
                         ghost mem0: map<nat, Word>,
                         ghost mem1: map<nat, Word>, ghost vals: seq<Word>, ghost ren: map<nat, nat>, ghost h: Word,
                         ghost first: nat, ghost addrs: set<nat>)
    requires gc.extraRoots == [] && gc.top + pops < gc.bottom
    requires gc.top + pops >= 1 && gc.top + pops in gc.memory && |g0.starts| > 0 && |gc.starts| > 0
    requires Built(gc, foreign, g0, mem1, addrs, ren, obj, h)
    requires mem1.Keys == mem0.Keys && forall p :: gc.top + pops < p < gc.bottom && p in mem0 ==> mem1[p] == mem0[p]
    requires Region(gc.top + 1, gc.bottom) <= addrs
    requires ContentsAre(g0, vals, gc.Snapshot(), ren, obj, first)
    modifies gc`top, gc`memory
    ensures gc.top + 1 in gc.memory && gc.memory[gc.top + 1] == obj
    ensures BuiltFrom(gc, foreign, g0, mem0, old(gc.top) + pops, vals, ren, h, first)
  {
    hide Preserved, ContentsAre, RootsHold, IsNewest;
    ghost var mem, top0 := gc.memory, gc.top;
    NewestValued(gc.Snapshot(), foreign, obj, h);
    Replace(gc, pops, obj, foreign);
    assert gc.memory.Keys == mem.Keys;
    forall p | top0 + pops < p < gc.bottom
        && p in mem0 ensures WordRenamed(g0, gc.Snapshot(), ren, mem0[p], gc.memory[p]) {
      assert p in Region(top0 + 1, gc.bottom);
      assert p in mem1.Keys;
    }
  }

  /** The reversal of the operands at the start of call_array. */
  method ReverseOperands(gc: Gc, n: nat, ghost foreign: iset<nat>)
    requires Ready(gc, foreign, n)
    modifies gc`memory
    ensures Ready(gc, foreign, n)
    ensures Turned(old(gc.memory), gc.memory, gc.top + 1, n)
    ensures gc.memory.Keys == old(gc.memory.Keys)
    ensures forall p :: gc.top + n < p < gc.bottom && p in old(gc.memory) ==> gc.memory[p] == old(gc.memory)[p]
  {
    hide RootsHold, Turned, ArgsHold, Gc.Valid, Region;
    ghost var g0, mem0 := gc.Snapshot(), gc.memory;
    OperandsHold(gc, foreign, n);
    Reverse(gc, gc.top + 1, n);
    TurnedRootsHold(g0, foreign, mem0, gc.memory, gc.top + 1, n, gc.RootAddrs(), gc.FixedAddrs());
    TurnedOutside(mem0, gc.memory, gc.top + 1, n);
  }

  /** call_array: the elements in push order. It fails when there are more of them than the pool of
      extra roots has room for. */
  method CallArray(gc: Gc, n: nat, place: nat -> nat, ghost foreign: iset<nat>)
    returns (ok: bool, ghost ren: map<nat, nat>)
    requires Ready(gc, foreign, n) && gc.FreshPlace(place, foreign)
    requires gc.top + n >= 1 && gc.top + n in gc.memory && OnStack(gc.memory, gc.top, n)
    modifies gc, gc.words
    ensures ok <==> n <= MAX_EXTRA_ROOTS_NUMBER
    ensures ok ==> gc.bottom == old(gc.bottom)
    ensures ok ==> BuiltFrom(gc, foreign, old(gc.Snapshot()), old(gc.memory), old(gc.top) + n,
                             old(Operands(gc.memory, gc.top, n)), ren, MakeHeader(Array, n), 0)
  {
    hide Preserved, ContentsAre, RootsHold, Contains, Gc.Valid, Gc.FreshPlace, Built, BuiltFrom, RootsRenamed, ArgsHold;
    hide IsNewest;
    hide Turned, Region, Gc.RootsValued, Operands, OnStack, ArgumentsAre;
    ghost var g0, mem0, top0, addrs := gc.Snapshot(), gc.memory, gc.top,
        gc.FixedAddrs() + Region(gc.top + 1, gc.top + 1 + n);
    ghost var vals := Operands(mem0, top0, n);
    OperandsHold(gc, foreign, n);
    ReverseOperands(gc, n, foreign);
    ghost var mem1 := gc.memory;
    OperandsHold(gc, foreign, n);
    TurnedArguments(mem0, mem1, top0, n);
    var obj;
    ok, obj, ren := Barray(gc, gc.top + 1, n, place, foreign);
    if ok {
      BuiltHolds(gc, foreign, g0, vals, mem1, top0 + 1, n, false, ren, obj, MakeHeader(Array, n), 0, addrs);
      ReplaceByObject(gc, n, obj, foreign, g0, mem0, mem1, vals, ren, MakeHeader(Array, n), 0, addrs);
    }
  }

  /** push_op. */
  method Push(gc: Gc, w: Word, ghost n: nat, ghost foreign: iset<nat>)
    requires Ready(gc, foreign, n) && gc.top >= 1 && gc.top in gc.memory
    requires Valued(gc.Snapshot(), foreign, w)
    modifies gc`top, gc`memory
    ensures Ready(gc, foreign, n + 1)
    ensures gc.top == old(gc.top) - 1 && gc.memory == old(gc.memory)[old(gc.top) := w]
  {
    gc.memory := gc.memory[gc.top := w];
    gc.top := gc.top - 1;
    forall p | p in gc.FixedAddrs()
      ensures p in gc.memory
      ensures if p in gc.RootAddrs() then Valued(gc.Snapshot(), foreign, gc.memory[p]) else Plain(gc.memory[p], foreign)
    {
      if p != gc.top + 1 {
        assert p in old(gc.FixedAddrs());
      }
    }
  }

  lemma ReversedArguments(mem0: map<nat, Word>, mem1: map<nat, Word>, top: nat, n: nat)
    requires OnStack(mem0, top, n)
    requires forall p: nat :: top < p <= top + n ==> p in mem1 && p in mem0 && mem1[p] == mem0[p]
    ensures ArgumentsAre(mem1, Operands(mem0, top, n), top + 1, n, true)
  {
  }

  /** boxing_sexp: the tag is pushed for the time of the call; the operands in push order. */
  method BoxingSexp(gc: Gc, tag: Word, n: nat, place: nat -> nat, ghost foreign: iset<nat>)
    returns (ok: bool, ghost ren: map<nat, nat>)
    requires Ready(gc, foreign, n) && gc.FreshPlace(place, foreign) && Unboxed(tag)
    requires gc.top >= 1 && gc.top in gc.memory && OnStack(gc.memory, gc.top, n)
    modifies gc, gc.words
    ensures ok <==> n <= MAX_EXTRA_ROOTS_NUMBER
    ensures ok ==> gc.bottom == old(gc.bottom)
    ensures ok ==> BuiltFrom(gc, foreign, old(gc.Snapshot()), old(gc.memory), old(gc.top) + n,
                             old(Operands(gc.memory, gc.top, n)), ren, MakeHeader(Sexp, n), 1)
    ensures ok ==> FirstWordIs(gc.Snapshot(), gc.memory[gc.top + 1], Unbox(tag))
    ensures ok ==> FirstNumberIs(gc.Snapshot(), gc.memory[gc.top + 1], Number(tag) / 2)
  {
    hide Preserved, ContentsAre, RootsHold, Gc.Valid, Gc.FreshPlace, BuiltFrom, ArgsHold;
    hide Gc.RootsValued, Region, Operands, ArgumentsAre, FirstWordIs;
    ghost var g0, mem0, top0 := gc.Snapshot(), gc.memory, gc.top;
    ghost var vals := Operands(mem0, top0, n);
    Push(gc, tag, n, foreign);
    ReversedArguments(mem0, gc.memory, top0, n);
    ok, ren := BuildSexp(gc, tag, n, place, foreign, g0, mem0, vals);
    if ok {
      FirstNumber(gc.Snapshot(), gc.memory[gc.top + 1], tag);
    }
  }

  /** Bsexp on the tag and the operands above it, and their replacement by the s-expression. */
  method BuildSexp(gc: Gc, tag: Word, n: nat, place: nat -> nat, ghost foreign: iset<nat>,
                   ghost g0: Heap, ghost mem0: map<nat, Word>, ghost vals: seq<Word>)
    returns (ok: bool, ghost ren: map<nat, nat>)
    requires Ready(gc, foreign, n + 1) && gc.FreshPlace(place, foreign) && Unboxed(tag)
    requires g0 == gc.Snapshot() && SameAbove(mem0, gc.memory, gc.top + n + 1)
    requires gc.top + n + 1 in gc.memory
    requires gc.top + 1 in gc.memory && gc.memory[gc.top + 1] == tag
    requires |vals| == n && ArgumentsAre(gc.memory, vals, gc.top + 2, n, true)
    modifies gc, gc.words
    ensures ok <==> n <= MAX_EXTRA_ROOTS_NUMBER
    ensures ok ==> gc.bottom == old(gc.bottom)
    ensures ok ==> BuiltFrom(gc, foreign, g0, mem0, old(gc.top) + n + 1, vals, ren, MakeHeader(Sexp, n), 1)
    ensures ok ==> gc.top + 1 in gc.memory && FirstWordIs(gc.Snapshot(), gc.memory[gc.top + 1], Unbox(tag))
  {
    hide Preserved, ContentsAre, RootsHold, Contains, Gc.Valid, Gc.FreshPlace, Built, BuiltFrom, RootsRenamed, ArgsHold;
    hide IsNewest;
    hide Region, Gc.RootsValued, ArgumentsAre, FirstWordIs, Gc.FixedAddrs, Gc.RootAddrs, Gc.Fresh;
    ghost var mem1, addrs := gc.memory, gc.FixedAddrs() + Region(gc.top + 2, gc.top + 2 + n);
    OperandsHold(gc, foreign, n + 1);
    FieldOperands(gc, foreign, n);
    var obj;
    ok, obj, ren := Bsexp(gc, gc.top + 1, n, place, foreign);
    if ok {
      BuiltHolds(gc, foreign, g0, vals, mem1, gc.top + 2, n, true, ren, obj, MakeHeader(Sexp, n), 1, addrs);
      TagKept(gc, foreign, g0, mem1, addrs, ren, obj, MakeHeader(Sexp, n), tag);
      ReplaceByObject(gc, n + 1, obj, foreign, g0, mem0, mem1, vals, ren, MakeHeader(Sexp, n), 1, addrs);
    }
  }

  lemma FieldOperands(gc: Gc, foreign: iset<nat>, n: nat)
    requires Ready(gc, foreign, n + 1)
    ensures ArgsHold(gc, foreign, gc.top + 2, n) && gc.top + 1 in gc.memory
  {
    assert gc.top + 1 in gc.FixedAddrs();
  }

  // CLOSURE.

  datatype MemVar = Global | Local | Argument | Captured

  datatype Designation = Designation(memVar: MemVar, index: nat)

  /** The address of the closure of the frame at `fp`, above its `nargs` arguments. */
  function ClosureAddr(fp: nat, nargs: nat): nat {
    fp + 4 + nargs
  }

  /** A designation names a live stack word, or a captured value of the closure that is running. */
  ghost predicate Designable(g: Heap, mem: map<nat, Word>, top: nat, bottom: nat, fp: nat, nargs: nat, d: Designation) {
    match d.memVar
    case Global => true
    case Local => d.index <= fp && top < fp - d.index < bottom && fp - d.index in mem
    case Argument => top < fp + 4 + d.index < bottom && fp + 4 + d.index in mem
    case Captured =>
      && top < ClosureAddr(fp, nargs) && ClosureAddr(fp, nargs) in mem && |g.starts| > 0
      && exists k: nat :: IsClosure(g, mem[ClosureAddr(fp, nargs)], k, d.index)
  }

  ghost predicate IsClosure(g: Heap, w: Word, k: nat, index: nat)
    requires |g.starts| > 0
  {
    && g.PointsTo(w, k) && g.starts[k] < |g.words|
    && KindOf(g.HeaderOf(k)).Closure? && index + 1 < g.HeaderOf(k).hi
    && g.starts[k] + 3 + index < |g.words|
  }

  /** What a designation stands for: a local counts down from fp, an argument up from fp + 4, and a
      captured value is the word after the code word and the earlier captured values. */
  ghost function DesignatedValue(g: Heap, mem: map<nat, Word>, top: nat, bottom: nat, fp: nat, nargs: nat,
                                 d: Designation): Word
    requires !d.memVar.Global? && Designable(g, mem, top, bottom, fp, nargs, d)
  {
    match d.memVar
    case Local => mem[fp - d.index]
    case Argument => mem[fp + 4 + d.index]
    case Captured =>
      var k: nat :| IsClosure(g, mem[ClosureAddr(fp, nargs)], k, d.index);
      g.words[mem[ClosureAddr(fp, nargs)].hi - g.base + d.index + 1]
  }

  lemma DesignatedValued(gc: Gc, foreign: iset<nat>, n: nat, fp: nat, nargs: nat, d: Designation, w: Word)
    requires Ready(gc, foreign, n) && !d.memVar.Global?
    requires Designable(gc.Snapshot(), gc.memory, gc.top, gc.bottom, fp, nargs, d)
    requires w == DesignatedValue(gc.Snapshot(), gc.memory, gc.top, gc.bottom, fp, nargs, d)
    ensures Valued(gc.Snapshot(), foreign, w)
  {
    var g := gc.Snapshot();
    match d.memVar
    case Local => assert fp - d.index in gc.RootAddrs();
    case Argument => assert fp + 4 + d.index in gc.RootAddrs();
    case Captured =>
      var k: nat :| IsClosure(g, gc.memory[ClosureAddr(fp, nargs)], k, d.index);
      ObjectBounds(g.words, g.starts, k);
      assert FieldAt(g.words, g.starts, k, g.starts[k] + 3 + d.index);
  }

  /** The words above address `top` are as they were. */
  ghost predicate SameAbove(mem0: map<nat, Word>, mem: map<nat, Word>, top: nat) {
    mem.Keys == mem0.Keys && forall p :: p in mem0 && p > top ==> mem[p] == mem0[p]
  }

  /** One round of the pushing loop of closures_create. */
  method PushDesignated(gc: Gc, fp: nat, nargs: nat, d: Designation, ghost n: nat, ghost foreign: iset<nat>,
                        ghost mem0: map<nat, Word>, ghost top0: nat)
    requires Ready(gc, foreign, n) && gc.top >= 1 && gc.top in gc.memory
    requires gc.top <= top0 && SameAbove(mem0, gc.memory, top0)
    requires !d.memVar.Global? && Designable(gc.Snapshot(), mem0, top0, gc.bottom, fp, nargs, d)
    modifies gc`top, gc`memory
    ensures Ready(gc, foreign, n + 1) && gc.top == old(gc.top) - 1
    ensures gc.memory == old(gc.memory)
                         [gc.top + 1 := DesignatedValue(gc.Snapshot(), mem0, top0, gc.bottom, fp, nargs, d)]
  {
    hide Gc.Valid, Gc.RootsValued, IsClosure;
    var w := ReadDesignated(gc, fp, nargs, d, mem0, top0);
    SameDesignated(gc.Snapshot(), mem0, gc.memory, top0, gc.top, gc.bottom, fp, nargs, d);
    DesignatedValued(gc, foreign, n, fp, nargs, d, w);
    Push(gc, w, n, foreign);
  }

  /** get_local, get_arg and get_closure. */
  method ReadDesignated(gc: Gc, fp: nat, nargs: nat, d: Designation, ghost mem0: map<nat, Word>,
                        ghost top0: nat) returns (w: Word)
    requires SameAbove(mem0, gc.memory, top0)
    requires !d.memVar.Global? && Designable(gc.Snapshot(), mem0, top0, gc.bottom, fp, nargs, d)
    ensures w == DesignatedValue(gc.Snapshot(), mem0, top0, gc.bottom, fp, nargs, d)
  {
    match d.memVar {
      case Local => w := gc.memory[fp - d.index];
      case Argument => w := gc.memory[fp + 4 + d.index];
      case Captured =>
        var closure := gc.memory[ClosureAddr(fp, nargs)];
        w := gc.words[closure.hi - gc.begin + d.index + 1];
    }
  }

  /** Pushing words does not change what a designation stands for. */
  lemma SameDesignated(g: Heap, mem0: map<nat, Word>, mem: map<nat, Word>, top0: nat, top: nat, bottom: nat,
                       fp: nat, nargs: nat, d: Designation)
    requires top <= top0 && SameAbove(mem0, mem, top0)
    requires !d.memVar.Global? && Designable(g, mem0, top0, bottom, fp, nargs, d)
    ensures Designable(g, mem, top, bottom, fp, nargs, d)
    ensures DesignatedValue(g, mem, top, bottom, fp, nargs, d) == DesignatedValue(g, mem0, top0, bottom, fp, nargs, d)
  {
  }

  ghost predicate AllDesignable(g: Heap, mem: map<nat, Word>, top: nat, bottom: nat, fp: nat, nargs: nat,
                                ds: seq<Designation>) {
    forall i :: 0 <= i < |ds| ==> Designable(g, mem, top, bottom, fp, nargs, ds[i])
  }

  predicate NoGlobals(ds: seq<Designation>) {
    forall i :: 0 <= i < |ds| ==> !ds[i].memVar.Global?
  }

  ghost function DesignatedValues(g: Heap, mem: map<nat, Word>, top: nat, bottom: nat, fp: nat, nargs: nat,
                                  ds: seq<Designation>): (vals: seq<Word>)
    requires AllDesignable(g, mem, top, bottom, fp, nargs, ds) && NoGlobals(ds)
    ensures |vals| == |ds|
    ensures forall i :: 0 <= i < |ds| ==> vals[i] == DesignatedValue(g, mem, top, bottom, fp, nargs, ds[i])
  {
    seq(|ds|, i requires 0 <= i < |ds| => DesignatedValue(g, mem, top, bottom, fp, nargs, ds[i]))
  }

  /** The stack has room for `n` more words. */
  ghost predicate Room(mem: map<nat, Word>, top: nat, n: nat) {
    top >= n && forall p: nat :: top - n < p <= top ==> p in mem
  }

  /** Pushes the designated values, the last one first; fails at a global variable. */
  method PushDesignations(gc: Gc, fp: nat, nargs: nat, ds: seq<Designation>, ghost n: nat,
                          ghost foreign: iset<nat>) returns (ok: bool)
    requires Ready(gc, foreign, n) && Room(gc.memory, gc.top, |ds|)
    requires AllDesignable(gc.Snapshot(), gc.memory, gc.top, gc.bottom, fp, nargs, ds)
    modifies gc`top, gc`memory
    ensures ok <==> NoGlobals(ds)
    ensures ok ==>
              Ready(gc, foreign, n + |ds|) && gc.top == old(gc.top) - |ds|
                  && SameAbove(old(gc.memory), gc.memory, old(gc.top))
    ensures ok ==>
              ArgumentsAre(gc.memory, old(DesignatedValues(gc.Snapshot(), gc.memory, gc.top, gc.bottom, fp, nargs, ds)),
                           gc.top + 1, |ds|, false)
  {
    hide Gc.Valid, Gc.RootsValued, Designable, DesignatedValue;
    ghost var g, mem0, top0 := gc.Snapshot(), gc.memory, gc.top;
    for i := |ds| downto 0
      invariant gc.Snapshot() == g && gc.top == top0 - (|ds| - i)
      invariant Ready(gc, foreign, n + (|ds| - i))
      invariant SameAbove(mem0, gc.memory, top0)
      invariant forall j :: i <= j < |ds| ==> !ds[j].memVar.Global?
      invariant forall j :: i <= j < |ds| ==>
                  && top0 - |ds| + 1 + j in gc.memory
                  && gc.memory[top0 - |ds| + 1 + j] == DesignatedValue(g, mem0, top0, gc.bottom, fp, nargs, ds[j])
    {
      if ds[i].memVar.Global? {
        return false;
      }
      PushDesignated(gc, fp, nargs, ds[i], n + (|ds| - 1 - i), foreign, mem0, top0);
    }
    return true;
  }

  /** closures_create: the captured values in the order of the designations, after the code address.
      It fails when a global is designated, or when there are more values than the pool of extra roots
      has room for. */
  method CreateClosure(gc: Gc, ip: Word, fp: nat, nargs: nat, ds: seq<Designation>, place: nat -> nat,
                       ghost foreign: iset<nat>)
    returns (ok: bool, ghost ren: map<nat, nat>)
    requires Ready(gc, foreign, 0) && gc.FreshPlace(place, foreign) && Unboxed(ip)
    requires Room(gc.memory, gc.top, |ds| + 1)
    requires AllDesignable(gc.Snapshot(), gc.memory, gc.top, gc.bottom, fp, nargs, ds)
    modifies gc, gc.words
    ensures ok <==> NoGlobals(ds) && |ds| <= MAX_EXTRA_ROOTS_NUMBER
    ensures ok ==> gc.bottom == old(gc.bottom)
    ensures ok ==> BuiltFrom(gc, foreign, old(gc.Snapshot()), old(gc.memory), old(gc.top),
                             old(DesignatedValues(gc.Snapshot(), gc.memory, gc.top, gc.bottom, fp, nargs, ds)), ren,
                             MakeHeader(Closure, |ds| + 1), 1)
    ensures ok ==> FirstWordIs(gc.Snapshot(), gc.memory[gc.top + 1], ip)
  {
    hide Preserved, ContentsAre, RootsHold, Contains, Gc.Valid, Gc.FreshPlace, Built, BuiltFrom, RootsRenamed, ArgsHold;
    hide IsNewest;
    hide Region, Gc.RootsValued, ArgumentsAre, DesignatedValue, Designable, FirstWordIs, DesignatedValues;
    hide AllDesignable;
    ghost var g0, mem0, top0 := gc.Snapshot(), gc.memory, gc.top;
    ren := map[];
    ok := PrepareClosure(gc, ip, fp, nargs, ds, foreign);
    if !ok {
      return;
    }
    ghost var vals := DesignatedValues(g0, mem0, top0, gc.bottom, fp, nargs, ds);
    ok, ren := BuildClosure(gc, ip, |ds|, place, foreign, g0, mem0, vals);
  }

  /** The operands of Bclosure: the code address above the captured values. */
  method PrepareClosure(gc: Gc, ip: Word, fp: nat, nargs: nat, ds: seq<Designation>,
                        ghost foreign: iset<nat>) returns (ok: bool)
    requires Ready(gc, foreign, 0) && Unboxed(ip) && Room(gc.memory, gc.top, |ds| + 1)
    requires AllDesignable(gc.Snapshot(), gc.memory, gc.top, gc.bottom, fp, nargs, ds)
    modifies gc`top, gc`memory
    ensures ok <==> NoGlobals(ds)
    ensures ok ==>
              Ready(gc, foreign, |ds| + 1) && gc.top == old(gc.top) - |ds| - 1
                  && SameAbove(old(gc.memory), gc.memory, old(gc.top))
    ensures ok ==> gc.top + 1 in gc.memory && gc.memory[gc.top + 1] == ip
    ensures ok ==>
              ArgumentsAre(gc.memory, old(DesignatedValues(gc.Snapshot(), gc.memory, gc.top, gc.bottom, fp, nargs, ds)),
                           gc.top + 2, |ds|, false)
  {
    hide Gc.Valid, Gc.RootsValued, ArgumentsAre, DesignatedValue, Designable, AllDesignable;
    ghost var vals := if NoGlobals(ds) then DesignatedValues(gc.Snapshot(), gc.memory, gc.top, gc.bottom, fp, nargs, ds)
        else [];
    ok := PushDesignations(gc, fp, nargs, ds, 0, foreign);
    if ok {
      ghost var mem2 := gc.memory;
      Push(gc, ip, |ds|, foreign);
      ArgumentsAbove(mem2, gc.memory, vals, gc.top + 2, |ds|);
    }
  }

  /** Bclosure on those operands, and their replacement by the closure. */
  method BuildClosure(gc: Gc, ip: Word, n: nat, place: nat -> nat, ghost foreign: iset<nat>,
                      ghost g0: Heap, ghost mem0: map<nat, Word>, ghost vals: seq<Word>)
    returns (ok: bool, ghost ren: map<nat, nat>)
    requires Ready(gc, foreign, n + 1) && gc.FreshPlace(place, foreign) && Unboxed(ip)
    requires g0 == gc.Snapshot() && SameAbove(mem0, gc.memory, gc.top + n + 1)
    requires gc.top + n + 1 in gc.memory
    requires gc.top + 1 in gc.memory && gc.memory[gc.top + 1] == ip
    requires |vals| == n && ArgumentsAre(gc.memory, vals, gc.top + 2, n, false)
    modifies gc, gc.words
    ensures ok <==> n <= MAX_EXTRA_ROOTS_NUMBER
    ensures ok ==> gc.bottom == old(gc.bottom)
    ensures ok ==> BuiltFrom(gc, foreign, g0, mem0, old(gc.top) + n + 1, vals, ren, MakeHeader(Closure, n + 1), 1)
    ensures ok ==> gc.top + 1 in gc.memory && FirstWordIs(gc.Snapshot(), gc.memory[gc.top + 1], ip)
  {
    hide Preserved, ContentsAre, RootsHold, Contains, Gc.Valid, Gc.FreshPlace, Built, BuiltFrom, RootsRenamed, ArgsHold;
    hide IsNewest;
    hide Region, Gc.RootsValued, ArgumentsAre, FirstWordIs, Gc.FixedAddrs, Gc.RootAddrs, Gc.Fresh;
    ghost var mem1, addrs := gc.memory, gc.FixedAddrs() + Region(gc.top + 2, gc.top + 2 + n);
    OperandsHold(gc, foreign, n + 1);
    FieldOperands(gc, foreign, n);
    var obj;
    ok, obj, ren := Bclosure(gc, gc.top + 1, n, place, foreign);
    if ok {
      BuiltHolds(gc, foreign, g0, vals, mem1, gc.top + 2, n, false, ren, obj, MakeHeader(Closure, n + 1), 1, addrs);
      CodeWordKept(gc, foreign, g0, mem1, addrs, ren, obj, MakeHeader(Closure, n + 1), ip);
      ReplaceByObject(gc, n + 1, obj, foreign, g0, mem0, mem1, vals, ren, MakeHeader(Closure, n + 1), 1, addrs);
    }
  }

  ghost predicate FirstWordIs(g: Heap, obj: Word, w: Word) {
    0 <= obj.hi - g.base < |g.words| && g.words[obj.hi - g.base] == w
  }

  /** The first word as a number. */
  ghost predicate FirstNumberIs(g: Heap, obj: Word, n: int) {
    0 <= obj.hi - g.base < |g.words| && Number(g.words[obj.hi - g.base]) == n
  }

  lemma FirstNumber(g: Heap, obj: Word, tag: Word)
    requires FirstWordIs(g, obj, Unbox(tag))
    ensures FirstNumberIs(g, obj, Number(tag) / 2)
  {
    UnboxNumber(tag);
  }

  /** The code word is an integer, so no collection changes it. */
  lemma CodeWordKept(gc: Gc, foreign: iset<nat>, g0: Heap, mem1: map<nat, Word>, addrs: set<nat>, ren: map<nat, nat>,
                     obj: Word, h: Word, ip: Word)
    requires Built(gc, foreign, g0, mem1, addrs, ren, obj, h)
    requires Unboxed(ip) && gc.top + 1 in mem1 && mem1[gc.top + 1] == ip
    requires Contains(gc.Snapshot(), obj, 0, gc.memory, gc.top + 1, 1, false)
    ensures FirstWordIs(gc.Snapshot(), obj, ip)
  {
    assert gc.memory[gc.top + 1] == ip;
    assert Slot(obj.hi - gc.begin, gc.top + 1, 1, false, gc.top + 1) == obj.hi - gc.begin;
  }

  /** So is the hash of a tag. */
  lemma TagKept(gc: Gc, foreign: iset<nat>, g0: Heap, mem1: map<nat, Word>, addrs: set<nat>, ren: map<nat, nat>,
                obj: Word, h: Word, tag: Word)
    requires Built(gc, foreign, g0, mem1, addrs, ren, obj, h)
    requires Unboxed(tag) && gc.top + 1 in mem1 && mem1[gc.top + 1] == tag && gc.top + 1 in gc.memory
    requires 0 <= obj.hi - gc.begin < gc.words.Length && gc.words[obj.hi - gc.begin] == Unbox(gc.memory[gc.top + 1])
    ensures FirstWordIs(gc.Snapshot(), obj, Unbox(tag))
  {
    assert gc.memory[gc.top + 1] == tag;
  }

  lemma ArgumentsAbove(mem2: map<nat, Word>, mem1: map<nat, Word>, vals: seq<Word>, lo: nat, n: nat)
    requires |vals| == n && ArgumentsAre(mem2, vals, lo, n, false)
    requires forall p :: p in mem2 && p >= lo ==> p in mem1 && mem1[p] == mem2[p]
    ensures ArgumentsAre(mem1, vals, lo, n, false)
  {
    forall i: nat | i < n ensures ArgumentIs(mem1, vals, lo, n, false, i) {
      assert ArgumentIs(mem2, vals, lo, n, false, i);
    }
  }
}
