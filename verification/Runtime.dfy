/** The allocating builtins of runtime.c. Each registers its arguments as extra roots, allocates,
    which may move every object, and fills the new object from the arguments. */
module Runtime {
  import opened Words
  import opened HeapLayout
  import opened Marking
  import opened Graphs
  import opened Collector

  /** The addresses of `n` consecutive words. */
  function AddrSeq(lo: nat, n: nat): seq<nat> {
    seq(n, i => lo + i)
  }

  /** The `n` argument words at `lo` hold values, and a collection will fix them. */
  ghost predicate ArgsHold(gc: Gc, foreign: iset<nat>, lo: nat, n: nat)
    reads gc, gc.words
  {
    && |gc.starts| > 0
    && forall p :: p in Region(lo, lo + n) ==>
         && p in gc.memory && Valued(gc.Snapshot(), foreign, gc.memory[p])
         && (p in gc.FixedAddrs() || !gc.Skipped(p))
  }

  /** The loops of push_extra_root over arguments. */
  method PushArgs(gc: Gc, lo: nat, n: nat) returns (ok: bool)
    modifies gc`extraRoots
    ensures ok <==> |old(gc.extraRoots)| + n <= MAX_EXTRA_ROOTS_NUMBER || n == 0
    ensures ok ==> gc.extraRoots == old(gc.extraRoots) + AddrSeq(lo, n)
  {
    ok := true;
    assert AddrSeq(lo, 0) == [];
    for i := 0 to n
      invariant gc.extraRoots == old(gc.extraRoots) + AddrSeq(lo, i)
      invariant i > 0 ==> |old(gc.extraRoots)| + i <= MAX_EXTRA_ROOTS_NUMBER
    {
      ok := gc.PushExtraRoot(lo + i);
      if !ok {
        return;
      }
      assert AddrSeq(lo, i + 1) == AddrSeq(lo, i) + [lo + i];
    }
  }

  /** The loops of pop_extra_root over arguments: the check of the pool never fires. */
  method PopArgs(gc: Gc, lo: nat, n: nat, ghost before: seq<nat>)
    requires gc.extraRoots == before + AddrSeq(lo, n)
    modifies gc`extraRoots
    ensures gc.extraRoots == before
  {
    for i := n downto 0
      invariant gc.extraRoots == before + AddrSeq(lo, i)
    {
      assert AddrSeq(lo, i + 1) == AddrSeq(lo, i) + [lo + i];
      var ok := gc.PopExtraRoot(lo + i);
      assert ok;
    }
  }

  /** Registered arguments are roots like any other. */
  lemma PushedRootsHold(gc: Gc, foreign: iset<nat>, lo: nat, n: nat, before: seq<nat>,
                        roots: set<nat>, fixed: set<nat>)
    requires |gc.starts| > 0 && gc.extraRoots == before + AddrSeq(lo, n)
    requires roots == gc.StackAddrs() + Elements(before) + gc.GlobalAddrs()
    requires fixed == Region(gc.top + 1, gc.bottom + 1)
                      + Unskipped(before, gc.top, gc.bottom, gc.globalStart, gc.globalStop) + gc.GlobalAddrs()
    requires RootsHold(gc.Snapshot(), foreign, gc.memory, roots, fixed)
    requires forall p :: p in Region(lo, lo + n) ==>
               p in gc.memory && Valued(gc.Snapshot(), foreign, gc.memory[p]) && (p in fixed || !gc.Skipped(p))
    ensures gc.RootsValued(foreign)
    ensures gc.FixedAddrs() == fixed + Region(lo, lo + n)
  {
    PushedAddrs(gc, lo, n, before);
    forall p | p in gc.FixedAddrs()
      ensures p in gc.memory
      ensures if p in gc.RootAddrs() then Valued(gc.Snapshot(), foreign, gc.memory[p]) else Plain(gc.memory[p], foreign)
    {
      if p in roots && p !in Region(lo, lo + n) {
        assert p in fixed;
      }
    }
  }

  lemma PushedAddrs(gc: Gc, lo: nat, n: nat, before: seq<nat>)
    requires gc.extraRoots == before + AddrSeq(lo, n)
    ensures gc.RootAddrs() == gc.StackAddrs() + Elements(before) + gc.GlobalAddrs() + Region(lo, lo + n)
    ensures gc.FixedAddrs() ==
            Region(gc.top + 1, gc.bottom + 1) + Unskipped(before, gc.top, gc.bottom, gc.globalStart,
                                                          gc.globalStop) + gc.GlobalAddrs()
                               + (set p | p in Region(lo, lo + n) && !gc.Skipped(p))
  {
    assert forall p: nat :: p in gc.extraRoots <==> p in before || p in AddrSeq(lo, n);
    forall p: nat ensures p in AddrSeq(lo, n) <==> p in Region(lo, lo + n) {
      if p in Region(lo, lo + n) {
        assert AddrSeq(lo, n)[p - lo] == p;
      }
    }
  }

  /** The words at `addrs` hold values. */
  ghost predicate AllValued(g: Heap, foreign: iset<nat>, mem: map<nat, Word>, addrs: set<nat>)
    requires |g.starts| > 0
  {
    forall p :: p in addrs ==> p in mem && Valued(g, foreign, mem[p])
  }

  /** Heap `g0` and the words `mem0` outside it have become `g` and `mem`: the graph and the words at
      `addrs` are carried over, and the roots of the caller still hold values. */
  ghost predicate Carried(foreign: iset<nat>, g0: Heap, mem0: map<nat, Word>, g: Heap, mem: map<nat, Word>,
                          ren: map<nat, nat>, roots: set<nat>, fixed: set<nat>, addrs: set<nat>)
  {
    && Preserved(g0, g, ren)
    && RootsRenamed(g0, g, ren, mem0, mem, addrs)
    && RootsHold(g, foreign, mem, roots, fixed)
  }

  /** Registers `n` arguments, which then are roots. */
  method RegisterArgs(gc: Gc, lo: nat, n: nat, ghost foreign: iset<nat>) returns (ok: bool)
    requires gc.Valid(foreign) && gc.RootsValued(foreign) && ArgsHold(gc, foreign, lo, n)
    modifies gc`extraRoots
    ensures ok <==> |old(gc.extraRoots)| + n <= MAX_EXTRA_ROOTS_NUMBER || n == 0
    ensures ok ==> gc.extraRoots == old(gc.extraRoots) + AddrSeq(lo, n)
    ensures ok ==> gc.Valid(foreign) && gc.RootsValued(foreign)
    ensures ok ==> gc.FixedAddrs() == old(gc.FixedAddrs()) + Region(lo, lo + n)
    ensures ok ==> AllValued(gc.Snapshot(), foreign, gc.memory, Region(lo, lo + n))
    ensures RootsHold(gc.Snapshot(), foreign, gc.memory, old(gc.RootAddrs()), old(gc.FixedAddrs()))
  {
    hide RootsHold, Gc.Valid, AddrSeq, Valued;
    ghost var before, roots0, fixed0 := gc.extraRoots, gc.RootAddrs(), gc.FixedAddrs();
    ok := PushArgs(gc, lo, n);
    if ok {
      PushedRootsHold(gc, foreign, lo, n, before, roots0, fixed0);
    }
  }

  /** Registers `n` arguments and allocates; fails exactly when the pool has no room for them. */
  method AllocWithArgs(gc: Gc, lo: nat, n: nat, kind: Kind, len: nat, place: nat -> nat, ghost foreign: iset<nat>)
    returns (ok: bool, at: nat, ghost ren: map<nat, nat>, ghost g: Heap)
    requires gc.Valid(foreign) && gc.RootsValued(foreign) && gc.FreshPlace(place, foreign)
    requires ArgsHold(gc, foreign, lo, n)
    modifies gc, gc.words
    ensures gc.words == old(gc.words) || fresh(gc.words)
    ensures ok <==> |old(gc.extraRoots)| + n <= MAX_EXTRA_ROOTS_NUMBER || n == 0
    ensures ok ==> gc.top == old(gc.top) && gc.bottom == old(gc.bottom)
    ensures ok ==> gc.extraRoots == old(gc.extraRoots) + AddrSeq(lo, n)
    ensures gc.memory.Keys == old(gc.memory.Keys)
    ensures ok ==> gc.Fresh(foreign, g, at, MakeHeader(kind, len))
    ensures ok ==> forall i :: at + 2 <= i < gc.current && i < gc.words.Length ==> gc.words[i] == ZERO
    ensures ok ==> AllValued(g, foreign, gc.memory, Region(lo, lo + n))
    ensures ok ==> Carried(foreign, old(gc.Snapshot()), old(gc.memory), g, gc.memory, ren,
                           old(gc.RootAddrs()), old(gc.FixedAddrs()), old(gc.FixedAddrs()) + Region(lo, lo + n))
  {
    hide Preserved, RootsRenamed, RootsHold, AllValued, Carried, ArgsHold, AddrSeq, Region, Gc.FixedAddrs, Gc.RootAddrs;
    ghost var g0, mem0 := gc.Snapshot(), gc.memory;
    ghost var roots0, fixed0, cap := gc.RootAddrs(), gc.FixedAddrs(), gc.words.Length;
    at, ren, g := 0, map[], g0;
    ok := RegisterArgs(gc, lo, n, foreign);
    if !ok {
      return;
    }
    at, ren, g := gc.AllocObject(kind, len, place, foreign);
    RenamedKeys(g0, g, ren, mem0, gc.memory, fixed0 + Region(lo, lo + n));
    CarryOver(foreign, g0, mem0, g, gc.memory, ren, roots0, fixed0, Region(lo, lo + n), cap);
  }

  lemma RenamedKeys(g0: Heap, g: Heap, ren: map<nat, nat>, mem0: map<nat, Word>, mem: map<nat, Word>, addrs: set<nat>)
    requires |g0.starts| > 0 && |g.starts| > 0 && RootsRenamed(g0, g, ren, mem0, mem, addrs)
    ensures mem.Keys == mem0.Keys
  {
  }

  lemma CarryOver(foreign: iset<nat>, g0: Heap, mem0: map<nat, Word>, g: Heap, mem: map<nat, Word>,
                  ren: map<nat, nat>, roots: set<nat>, fixed: set<nat>, args: set<nat>, cap: nat)
    requires g0.Tiles() && ForeignApart(foreign, g0.base, cap) && Used(g0.starts) <= cap
    requires RootsHold(g0, foreign, mem0, roots, fixed) && AllValued(g0, foreign, mem0, args)
    requires Preserved(g0, g, ren) && RootsRenamed(g0, g, ren, mem0, mem, fixed + args)
    ensures Carried(foreign, g0, mem0, g, mem, ren, roots, fixed, fixed + args)
    ensures AllValued(g, foreign, mem, args)
  {
    RenamedRootsHold(g0, g, ren, foreign, cap, mem0, mem, roots, fixed);
    forall p | p in args ensures p in mem && Valued(g, foreign, mem[p]) {
      assert p in mem0.Keys;
      RenamedIsValued(g0, g, ren, foreign, mem0[p], mem[p]);
    }
  }

  /** The offset, among `n` words that start at `first`, of the word for the argument at address `p`. */
  function Slot(first: int, lo: nat, n: nat, reversed: bool, p: nat): int {
    if reversed then first + (n - 1 - (p - lo)) else first + (p - lo)
  }

  /** The words of `g` at offset `first` and on are the `n` words at address `lo` outside it, in the
      same or in reverse order. */
  ghost predicate HoldsRun(g: Heap, first: int, mem: map<nat, Word>, lo: nat, n: nat, reversed: bool) {
    && 0 <= first && first + n <= |g.words|
    && forall p: nat :: lo <= p < lo + n ==> p in mem && g.words[Slot(first, lo, n, reversed, p)] == mem[p]
  }

  /** The contents of `obj`, from word `i` on, are the `n` words at address `lo`. */
  ghost predicate Contains(g: Heap, obj: Word, i: nat, mem: map<nat, Word>, lo: nat, n: nat, reversed: bool) {
    HoldsRun(g, obj.hi - g.base + i, mem, lo, n, reversed)
  }

  /** Copies `n` argument words into the object under construction. */
  method FillWords(gc: Gc, dst: nat, lo: nat, n: nat)
    requires dst + n <= gc.words.Length
    requires forall p: nat :: lo <= p < lo + n ==> p in gc.memory
    modifies gc.words
    ensures HoldsRun(gc.Snapshot(), dst, gc.memory, lo, n, false)
    ensures forall j :: 0 <= j < gc.words.Length && !(dst <= j < dst + n) ==> gc.words[j] == old(gc.words[j])
  {
    for i := 0 to n
      invariant forall p: nat :: lo <= p < lo + i ==> gc.words[Slot(dst, lo, n, false, p)] == gc.memory[p]
      invariant forall j :: 0 <= j < gc.words.Length && !(dst <= j < dst + i) ==> gc.words[j] == old(gc.words[j])
    {
      gc.words[dst + i] := gc.memory[lo + i];
    }
  }

  /** The same with the last argument first. */
  method FillWordsReversed(gc: Gc, dst: nat, lo: nat, n: nat)
    requires dst + n <= gc.words.Length
    requires forall p: nat :: lo <= p < lo + n ==> p in gc.memory
    modifies gc.words
    ensures HoldsRun(gc.Snapshot(), dst, gc.memory, lo, n, true)
    ensures forall j :: 0 <= j < gc.words.Length && !(dst <= j < dst + n) ==> gc.words[j] == old(gc.words[j])
  {
    for i := 1 to n + 1
      invariant forall p: nat :: lo <= p < lo + i - 1 ==> gc.words[Slot(dst, lo, n, true, p)] == gc.memory[p]
      invariant forall j :: 0 <= j < gc.words.Length && !(dst <= j < dst + n) ==> gc.words[j] == old(gc.words[j])
    {
      gc.words[dst + (n - i)] := gc.memory[lo + (i - 1)];
    }
  }

  /** What a finished builtin owes its caller: a heap in order, the pool of extra roots as it was, the
      graph and all root and argument words carried over, and the new object last in the heap. */
  ghost predicate Built(gc: Gc, foreign: iset<nat>, g0: Heap, mem0: map<nat, Word>, addrs: set<nat>,
                        ren: map<nat, nat>, obj: Word, h: Word)
    reads gc, gc.words
  {
    && gc.Valid(foreign) && gc.RootsValued(foreign)
    && Preserved(g0, gc.Snapshot(), ren)
    && RootsRenamed(g0, gc.Snapshot(), ren, mem0, gc.memory, addrs)
    && IsNewest(gc.Snapshot(), obj, h)
    && Count(gc.starts) - 1 !in ren.Values
  }

  /** The fields of the last object hold values. */
  ghost predicate LastValued(foreign: iset<nat>, g: Heap, g': Heap, at: nat, h: Word)
    requires |g.starts| > 0
  {
    forall j :: at + FirstField(h) <= j < |g'.words| && j < at + Size(h) ==> Valued(g, foreign, g'.words[j])
  }

  lemma FinishBuilding(gc: Gc, foreign: iset<nat>, g0: Heap, mem0: map<nat, Word>, g: Heap, ren: map<nat, nat>,
                       addrs: set<nat>, at: nat, h: Word)
    requires gc.Fresh(foreign, g, at, h)
    requires Carried(foreign, g0, mem0, g, gc.memory, ren, gc.RootAddrs(), gc.FixedAddrs(), addrs)
    requires LastValued(foreign, g, gc.Snapshot(), at, h)
    ensures Built(gc, foreign, g0, mem0, addrs, ren, ContentPtr(gc.begin, at), h)
  {
    gc.ObjectDone(foreign, g0, g, ren, mem0, addrs, at, h);
    assert gc.starts[Count(g.starts)] == gc.starts[..|g.starts|][Count(g.starts)];
  }

  lemma FieldsFilled(foreign: iset<nat>, g: Heap, g1: Heap, g2: Heap, mem: map<nat, Word>, at: nat, h: Word,
                     lo: nat, n: nat, reversed: bool)
    requires NewLast(foreign, g, g1, at, h) && AllValued(g, foreign, mem, Region(lo, lo + n))
    requires Size(h) == FirstField(h) + n
    requires g2.base == g1.base && g2.starts == g1.starts && |g2.words| == |g1.words|
    requires forall i :: 0 <= i < at + 2 ==> g2.words[i] == g1.words[i]
    requires HoldsRun(g2, at + FirstField(h), mem, lo, n, reversed)
    ensures NewLast(foreign, g, g2, at, h) && LastValued(foreign, g, g2, at, h)
  {
    FilledIn(foreign, g, g1, g2, at, h);
    forall j | at + FirstField(h) <= j < |g2.words| && j < at + Size(h) ensures Valued(g, foreign, g2.words[j]) {
      var i := j - (at + FirstField(h));
      var p := lo + (if reversed then n - 1 - i else i);
      assert p in Region(lo, lo + n);
      assert g2.words[Slot(at + FirstField(h), lo, n, reversed, p)] == mem[p];
    }
  }

  lemma RunInObject(g: Heap, obj: Word, i: nat, first: nat, mem: map<nat, Word>, lo: nat, n: nat, reversed: bool)
    requires HoldsRun(g, first, mem, lo, n, reversed) && first == obj.hi - g.base + i
    ensures Contains(g, obj, i, mem, lo, n, reversed)
  {
  }

  /** The loops that copy the registered arguments into the fields. */
  method FillFields(gc: Gc, at: nat, lo: nat, n: nat, reversed: bool, ghost foreign: iset<nat>, ghost g: Heap,
                    ghost h: Word)
    requires gc.Fresh(foreign, g, at, h) && AllValued(g, foreign, gc.memory, Region(lo, lo + n))
    requires Size(h) == FirstField(h) + n && !KindOf(h).Str?
    modifies gc.words
    ensures gc.Fresh(foreign, g, at, h) && LastValued(foreign, g, gc.Snapshot(), at, h)
    ensures forall j :: 0 <= j < gc.words.Length && j < at + FirstField(h) ==> gc.words[j] == old(gc.words[j])
    ensures Contains(gc.Snapshot(), ContentPtr(gc.begin, at), FirstField(h) - 2, gc.memory, lo, n, reversed)
  {
    ghost var g1 := gc.Snapshot();
    var first := at + FirstField(gc.words[at]);
    if reversed {
      FillWordsReversed(gc, first, lo, n);
    } else {
      FillWords(gc, first, lo, n);
    }
    FieldsFilled(foreign, g, g1, gc.Snapshot(), gc.memory, at, h, lo, n, reversed);
    RunInObject(gc.Snapshot(), ContentPtr(gc.begin, at), FirstField(h) - 2, first, gc.memory, lo, n, reversed);
  }

  /** The second half of a builtin: fills the fields from the registered arguments and takes those off
      the pool again. */
  method FillAndPop(gc: Gc, at: nat, lo: nat, n: nat, reversed: bool,
                    ghost foreign: iset<nat>, ghost g0: Heap, ghost mem0: map<nat, Word>,
                    ghost g: Heap, ghost ren: map<nat, nat>, ghost before: seq<nat>, ghost addrs: set<nat>,
                        ghost h: Word)
    returns (obj: Word)
    requires gc.Fresh(foreign, g, at, h) && AllValued(g, foreign, gc.memory, Region(lo, lo + n))
    requires Size(h) == FirstField(h) + n && !KindOf(h).Str?
    requires gc.extraRoots == before + AddrSeq(lo, n)
    requires Carried(foreign, g0, mem0, g, gc.memory, ren, gc.StackAddrs() + Elements(before) + gc.GlobalAddrs(),
                     gc.FixedWith(before), addrs)
    modifies gc.words, gc`extraRoots
    ensures gc.extraRoots == before
    ensures Built(gc, foreign, g0, mem0, addrs, ren, obj, h)
    ensures obj == ContentPtr(gc.begin, at)
    ensures forall j :: 0 <= j < gc.words.Length && j < at + FirstField(h) ==> gc.words[j] == old(gc.words[j])
    ensures Contains(gc.Snapshot(), obj, FirstField(h) - 2, gc.memory, lo, n, reversed)
  {
    hide Preserved, RootsRenamed, RootsHold, Contains, NewLast, Carried, Built, AllValued, LastValued, Unskipped;
    hide Elements, Region;
    FillFields(gc, at, lo, n, reversed, foreign, g, h);
    PopArgs(gc, lo, n, before);
    obj := ContentPtr(gc.begin, at);
    FinishBuilding(gc, foreign, g0, mem0, g, ren, addrs, at, h);
  }

  /** Barray: the elements in argument order. */
  method Barray(gc: Gc, args: nat, n: nat, place: nat -> nat, ghost foreign: iset<nat>)
    returns (ok: bool, obj: Word, ghost ren: map<nat, nat>)
    requires gc.Valid(foreign) && gc.RootsValued(foreign) && gc.FreshPlace(place, foreign)
    requires ArgsHold(gc, foreign, args, n)
    modifies gc, gc.words
    ensures gc.words == old(gc.words) || fresh(gc.words)
    ensures ok <==> |old(gc.extraRoots)| + n <= MAX_EXTRA_ROOTS_NUMBER || n == 0
    ensures ok ==> gc.top == old(gc.top) && gc.bottom == old(gc.bottom) && gc.extraRoots == old(gc.extraRoots)
    ensures ok ==> Built(gc, foreign, old(gc.Snapshot()), old(gc.memory), old(gc.FixedAddrs()) + Region(args, args + n),
                         ren, obj, MakeHeader(Array, n))
    ensures ok ==> Contains(gc.Snapshot(), obj, 0, gc.memory, args, n, false)
    ensures gc.memory.Keys == old(gc.memory.Keys)
  {
    hide Preserved, RootsRenamed, RootsHold, NewLast, Carried, AllValued, Contains, HoldsRun, Built, LastValued;
    hide Gc.Valid, Gc.RootsValued, Gc.FreshPlace, ArgsHold, Region, Elements, Unskipped, Gc.Fresh;
    ghost var g0, mem0, before, fixed := gc.Snapshot(), gc.memory, gc.extraRoots, gc.FixedAddrs();
    var at;
    ghost var g;
    obj := ZERO;
    ok, at, ren, g := AllocWithArgs(gc, args, n, Array, n, place, foreign);
    if ok {
      obj := FillAndPop(gc, at, args, n, false, foreign, g0, mem0, g, ren, before, fixed + Region(args, args + n),
                        MakeHeader(Array, n));
    }
  }

  lemma OneWord(g: Heap, obj: Word, mem: map<nat, Word>, p: nat)
    requires p in mem && 0 <= obj.hi - g.base < |g.words| && g.words[obj.hi - g.base] == mem[p]
    ensures Contains(g, obj, 0, mem, p, 1, false)
  {
  }

  /** Stores the first word of the contents: a tag or a code address, which is not a field. */
  method StoreFirst(gc: Gc, at: nat, w: Word, ghost foreign: iset<nat>, ghost g: Heap, ghost h: Word)
    requires gc.Fresh(foreign, g, at, h) && FirstField(h) == 3 && Size(h) >= 3
    modifies gc.words
    ensures gc.Fresh(foreign, g, at, h) && at + 2 < gc.words.Length && gc.words[at + 2] == w
  {
    ghost var g1 := gc.Snapshot();
    gc.words[at + 2] := w;
    FilledIn(foreign, g, g1, gc.Snapshot(), at, h);
  }

  /** Bclosure: the code word, which is the first argument, and then the captured values in order. */
  method Bclosure(gc: Gc, args: nat, n: nat, place: nat -> nat, ghost foreign: iset<nat>)
    returns (ok: bool, obj: Word, ghost ren: map<nat, nat>)
    requires gc.Valid(foreign) && gc.RootsValued(foreign) && gc.FreshPlace(place, foreign)
    requires ArgsHold(gc, foreign, args + 1, n) && args in gc.memory
    modifies gc, gc.words
    ensures gc.words == old(gc.words) || fresh(gc.words)
    ensures ok <==> |old(gc.extraRoots)| + n <= MAX_EXTRA_ROOTS_NUMBER || n == 0
    ensures ok ==> gc.top == old(gc.top) && gc.bottom == old(gc.bottom) && gc.extraRoots == old(gc.extraRoots)
    ensures ok ==>
              Built(gc, foreign, old(gc.Snapshot()), old(gc.memory),
                    old(gc.FixedAddrs()) + Region(args + 1, args + 1 + n),
                         ren, obj, MakeHeader(Closure, n + 1))
    ensures ok ==> Contains(gc.Snapshot(), obj, 0, gc.memory, args, 1, false)
    ensures ok ==> Contains(gc.Snapshot(), obj, 1, gc.memory, args + 1, n, false)
    ensures gc.memory.Keys == old(gc.memory.Keys)
  {
    hide Preserved, RootsRenamed, RootsHold, NewLast, Carried, AllValued, Contains, HoldsRun, Built, LastValued;
    hide Gc.Valid, Gc.RootsValued, Gc.FreshPlace, ArgsHold, Region, Elements, Unskipped, Gc.Fresh;
    ghost var g0, mem0, before, fixed := gc.Snapshot(), gc.memory, gc.extraRoots, gc.FixedAddrs();
    var at;
    ghost var g;
    obj := ZERO;
    ok, at, ren, g := AllocWithArgs(gc, args + 1, n, Closure, n + 1, place, foreign);
    if ok {
      StoreFirst(gc, at, gc.memory[args], foreign, g, MakeHeader(Closure, n + 1));
      obj := FillAndPop(gc, at, args + 1, n, false, foreign, g0, mem0, g, ren, before,
                        fixed + Region(args + 1, args + 1 + n),
                        MakeHeader(Closure, n + 1));
      OneWord(gc.Snapshot(), obj, gc.memory, args);
    }
  }

  /** Bsexp: the tag, which is the first argument, and then the other arguments in reverse. */
  method Bsexp(gc: Gc, args: nat, n: nat, place: nat -> nat, ghost foreign: iset<nat>)
    returns (ok: bool, obj: Word, ghost ren: map<nat, nat>)
    requires gc.Valid(foreign) && gc.RootsValued(foreign) && gc.FreshPlace(place, foreign)
    requires ArgsHold(gc, foreign, args + 1, n) && args in gc.memory
    modifies gc, gc.words
    ensures gc.words == old(gc.words) || fresh(gc.words)
    ensures ok <==> |old(gc.extraRoots)| + n <= MAX_EXTRA_ROOTS_NUMBER || n == 0
    ensures ok ==> gc.top == old(gc.top) && gc.bottom == old(gc.bottom) && gc.extraRoots == old(gc.extraRoots)
    ensures ok ==>
              Built(gc, foreign, old(gc.Snapshot()), old(gc.memory),
                    old(gc.FixedAddrs()) + Region(args + 1, args + 1 + n),
                         ren, obj, MakeHeader(Sexp, n))
    ensures ok ==>
              args in gc.memory && 0 <= obj.hi - gc.begin < gc.words.Length
                  && gc.words[obj.hi - gc.begin] == Unbox(gc.memory[args])
    ensures ok ==> Contains(gc.Snapshot(), obj, 1, gc.memory, args + 1, n, true)
    ensures gc.memory.Keys == old(gc.memory.Keys)
  {
    hide Preserved, RootsRenamed, RootsHold, NewLast, Carried, AllValued, Contains, HoldsRun, Built, LastValued;
    hide Gc.Valid, Gc.RootsValued, Gc.FreshPlace, ArgsHold, Region, Elements, Unskipped, Gc.Fresh;
    ghost var g0, mem0, before, fixed := gc.Snapshot(), gc.memory, gc.extraRoots, gc.FixedAddrs();
    var at;
    ghost var g;
    obj := ZERO;
    ok, at, ren, g := AllocWithArgs(gc, args + 1, n, Sexp, n, place, foreign);
    if ok {
      StoreFirst(gc, at, Unbox(gc.memory[args]), foreign, g, MakeHeader(Sexp, n));
      obj := FillAndPop(gc, at, args + 1, n, true, foreign, g0, mem0, g, ren, before,
                        fixed + Region(args + 1, args + 1 + n),
                        MakeHeader(Sexp, n));
    }
  }

  /** Bsta on an array, closure or s-expression: one field changes, and the heap stays in order. */
  method Bsta(gc: Gc, x: Word, i: nat, v: Word, ghost k: nat, ghost foreign: iset<nat>)
    requires gc.Valid(foreign) && gc.RootsValued(foreign) && Valued(gc.Snapshot(), foreign, v)
    requires gc.Snapshot().PointsTo(x, k)
    requires FieldAt(gc.words[..], gc.starts, k, FieldOffset(gc.Snapshot(), x, i))
    modifies gc.words
    ensures gc.Valid(foreign) && gc.RootsValued(foreign)
    ensures gc.words[..] == old(gc.words[..][FieldOffset(gc.Snapshot(), x, i) := v])
  {
    ghost var g := gc.Snapshot();
    ObjectBounds(gc.words[..], gc.starts, k);
    var header := gc.words[x.hi - gc.begin - HEADER_WORDS];
    var j := x.hi - gc.begin + i + (if KindOf(header).Sexp? then 1 else 0);
    gc.words[j] := v;
    assert gc.words[..] == g.words[j := v];
    StoreKeepsFields(g, gc.Snapshot(), foreign, k, j, v);
    forall p | p in gc.RootAddrs() ensures p in gc.memory && Valued(gc.Snapshot(), foreign, gc.memory[p]) {
      SameStartsValued(g, gc.Snapshot(), foreign, gc.memory[p]);
    }
  }

  /** Element `i` of an s-expression comes after the tag; that of an array or closure is word `i`. */
  function FieldOffset(g: Heap, x: Word, i: nat): int {
    x.hi - g.base + i + (if 0 <= x.hi - g.base - HEADER_WORDS < |g.words|
                         && KindOf(g.words[x.hi - g.base - HEADER_WORDS]).Sexp? then 1 else 0)
  }

  /** Element `i`, as the runtime counts, is a word that the collector scans exactly if it is inside of the
      object, and not the code word of a closure. */
  lemma ElementsAreFields(g: Heap, x: Word, k: nat, i: nat)
    requires |g.starts| > 0 && g.Tiles() && g.PointsTo(x, k) && g.starts[k] < |g.words|
    requires !KindOf(g.HeaderOf(k)).Str?
    ensures FieldAt(g.words, g.starts, k, FieldOffset(g, x, i)) <==>
            i < g.HeaderOf(k).hi && (KindOf(g.HeaderOf(k)).Closure? ==> i > 0)
  {
    ObjectBounds(g.words, g.starts, k);
    FieldPlaces(g.words, g.starts, k, FieldOffset(g, x, i));
  }

  /** The contents of two objects agree word for word. */
  ghost predicate SameContents(g: Heap, obj: Word, other: Word, n: nat) {
    && g.base <= obj.hi && obj.hi - g.base + n <= |g.words|
    && g.base <= other.hi && other.hi - g.base + n <= |g.words|
    && forall i :: obj.hi - g.base <= i < obj.hi - g.base + n ==> g.words[i] == g.words[i - obj.hi + other.hi]
  }

  /** Lclone of an array, closure or s-expression: a new object with the same header and contents. */
  method CloneFields(gc: Gc, args: nat, place: nat -> nat, ghost k: nat, ghost foreign: iset<nat>)
    returns (ok: bool, obj: Word, ghost ren: map<nat, nat>)
    requires gc.Valid(foreign) && gc.RootsValued(foreign) && gc.FreshPlace(place, foreign)
    requires ArgsHold(gc, foreign, args, 1) && args in gc.memory && gc.Snapshot().PointsTo(gc.memory[args], k)
    requires gc.starts[k] < gc.words.Length && !KindOf(gc.words[gc.starts[k]]).Str?
    modifies gc, gc.words
    ensures gc.words == old(gc.words) || fresh(gc.words)
    ensures ok <==> |old(gc.extraRoots)| < MAX_EXTRA_ROOTS_NUMBER
    ensures ok ==> gc.top == old(gc.top) && gc.bottom == old(gc.bottom) && gc.extraRoots == old(gc.extraRoots)
    ensures ok ==> Built(gc, foreign, old(gc.Snapshot()), old(gc.memory), old(gc.FixedAddrs()) + Region(args, args + 1),
                         ren, obj, old(gc.words[gc.starts[k]]))
    ensures ok ==> args in gc.memory && k in ren && gc.Snapshot().PointsTo(gc.memory[args], ren[k])
    ensures ok ==> SameContents(gc.Snapshot(), obj, gc.memory[args], old(Size(gc.words[gc.starts[k]])) - 2)
  {
    hide Gc.FreshPlace, ArgsHold, Unskipped, Elements, Gc.Valid, Gc.RootsValued, NewLast, AllValued, Built;
    hide SameContents, Region;
    hide Carried, Preserved, RootsRenamed;
    ghost var g0, mem0, before, fixed := gc.Snapshot(), gc.memory, gc.extraRoots, gc.FixedAddrs();
    ghost var roots := gc.RootAddrs();
    var header := ReadHeader(gc, gc.memory[args], k, foreign);
    var at;
    ghost var g;
    obj := ZERO;
    ok, at, ren, g := AllocWithArgs(gc, args, 1, KindOf(header), header.hi, place, foreign);
    if ok {
      CloneTarget(foreign, g0, mem0, g, gc.memory, ren, args, k, roots, fixed);
      obj := CopyAndPop(gc, at, args, k, foreign, g0, mem0, g, ren, before, fixed + Region(args, args + 1), header);
    }
  }

  /** TAG and LEN of the header of an object determine the header. */
  method ReadHeader(gc: Gc, x: Word, ghost k: nat, ghost foreign: iset<nat>) returns (h: Word)
    requires gc.Valid(foreign) && gc.Snapshot().PointsTo(x, k)
    ensures gc.starts[k] < gc.words.Length && h == gc.words[gc.starts[k]]
    ensures MakeHeader(KindOf(h), h.hi) == h
  {
    ObjectBounds(gc.words[..], gc.starts, k);
    h := gc.words[x.hi - gc.begin - HEADER_WORDS];
  }

  /** The registered argument still points to the object to be copied. */
  lemma CloneTarget(foreign: iset<nat>, g0: Heap, mem0: map<nat, Word>, g: Heap, mem: map<nat, Word>,
                    ren: map<nat, nat>,
                    args: nat, k: nat, roots: set<nat>, fixed: set<nat>)
    requires Carried(foreign, g0, mem0, g, mem, ren, roots, fixed, fixed + Region(args, args + 1)) && |g0.starts| > 0
    requires args in mem0 && args in mem && g0.PointsTo(mem0[args], k)
    ensures k in ren && g.PointsTo(mem[args], ren[k]) && g.starts[ren[k]] < |g.words|
    ensures g0.starts[k] < |g0.words| && g.HeaderOf(ren[k]) == g0.HeaderOf(k)
  {
    assert args in Region(args, args + 1);
    assert WordRenamed(g0, g, ren, mem0[args], mem[args]);
    assert ObjectKept(g0, g, ren, k);
  }

  /** The memcpy of Lclone, and the release of the registered argument. */
  method CopyAndPop(gc: Gc, at: nat, args: nat, ghost k: nat, ghost foreign: iset<nat>, ghost g0: Heap,
                    ghost mem0: map<nat, Word>,
                    ghost g: Heap, ghost ren: map<nat, nat>, ghost before: seq<nat>, ghost addrs: set<nat>,
                        ghost h: Word)
    returns (obj: Word)
    requires gc.Fresh(foreign, g, at, h) && !KindOf(h).Str?
    requires args in gc.memory && k in ren && g.PointsTo(gc.memory[args], ren[k])
    requires g.starts[ren[k]] < |g.words| && g.HeaderOf(ren[k]) == h
    requires gc.extraRoots == before + AddrSeq(args, 1)
    requires Carried(foreign, g0, mem0, g, gc.memory, ren, gc.StackAddrs() + Elements(before) + gc.GlobalAddrs(),
                     gc.FixedWith(before), addrs)
    modifies gc.words, gc`extraRoots
    ensures gc.extraRoots == before
    ensures Built(gc, foreign, g0, mem0, addrs, ren, obj, h)
    ensures gc.Snapshot().PointsTo(gc.memory[args], ren[k])
    ensures SameContents(gc.Snapshot(), obj, gc.memory[args], Size(h) - 2)
  {
    hide Carried, Built, Unskipped, Elements;
    CopyObject(gc, at, gc.memory[args], ren[k], foreign, g, h);
    PopArgs(gc, args, 1, before);
    obj := ContentPtr(gc.begin, at);
    FinishBuilding(gc, foreign, g0, mem0, g, ren, addrs, at, h);
    ExtendedPoints(g, gc.Snapshot(), gc.memory[args], ren[k]);
  }

  /** memcpy of words to a place above them. */
  method CopyWords(gc: Gc, to: nat, from: nat, n: nat)
    requires from + n <= to && to + n <= gc.words.Length
    modifies gc.words
    ensures forall j :: 0 <= j < gc.words.Length && !(to <= j < to + n) ==> gc.words[j] == old(gc.words[j])
    ensures forall j :: to <= j < to + n ==> gc.words[j] == old(gc.words[j - to + from])
  {
    for i := 0 to n
      invariant forall j :: 0 <= j < gc.words.Length && !(to <= j < to + i) ==> gc.words[j] == old(gc.words[j])
      invariant forall j :: to <= j < to + i ==> gc.words[j] == old(gc.words[j - to + from])
    {
      gc.words[to + i] := gc.words[from + i];
    }
  }

  /** memcpy of an object of `g` onto the new last object: header, forward word and contents. */
  method CopyObject(gc: Gc, at: nat, x: Word, ghost k: nat, ghost foreign: iset<nat>, ghost g: Heap, ghost h: Word)
    requires gc.Fresh(foreign, g, at, h) && !KindOf(h).Str?
    requires g.PointsTo(x, k) && g.starts[k] < |g.words| && g.HeaderOf(k) == h
    modifies gc.words
    ensures gc.Fresh(foreign, g, at, h) && LastValued(foreign, g, gc.Snapshot(), at, h)
    ensures SameContents(gc.Snapshot(), ContentPtr(gc.begin, at), x, Size(h) - 2)
  {
    hide NewLast, LastValued, SameContents;
    ghost var g1 := gc.Snapshot();
    CloneBounds(foreign, g, g1, at, h, k);
    CopyWords(gc, at, x.hi - gc.begin - HEADER_WORDS, SizeInWords(gc.words[at]));
    Cloned(foreign, g, g1, gc.Snapshot(), at, h, x, k);
  }

  lemma CloneBounds(foreign: iset<nat>, g: Heap, g1: Heap, at: nat, h: Word, k: nat)
    requires NewLast(foreign, g, g1, at, h) && k < Count(g.starts)
    requires g.starts[k] < |g.words| && g.HeaderOf(k) == h
    ensures g1.base == g.base && g.starts[k] + Size(h) <= at && at + Size(h) <= |g1.words|
    ensures g1.words[at] == h && g1.starts != [] && Used(g1.starts) == at + Size(h)
  {
    ObjectBounds(g.words, g.starts, k);
    ObjectBounds(g1.words, g1.starts, Count(g.starts));
  }

  lemma Cloned(foreign: iset<nat>, g: Heap, g1: Heap, g2: Heap, at: nat, h: Word, x: Word, k: nat)
    requires NewLast(foreign, g, g1, at, h) && !KindOf(h).Str?
    requires g.PointsTo(x, k) && g.starts[k] < |g.words| && g.HeaderOf(k) == h
    requires g2.base == g1.base && g2.starts == g1.starts && |g2.words| == |g1.words|
    requires at + Size(h) <= |g1.words| && g.starts[k] + Size(h) <= at
    requires forall j :: 0 <= j < |g2.words| && !(at <= j < at + Size(h)) ==> g2.words[j] == g1.words[j]
    requires forall j :: at <= j < at + Size(h) ==> g2.words[j] == g1.words[j - at + g.starts[k]]
    ensures NewLast(foreign, g, g2, at, h) && LastValued(foreign, g, g2, at, h)
    ensures SameContents(g2, ContentPtr(g2.base, at), x, Size(h) - 2)
  {
    ObjectBounds(g.words, g.starts, k);
    assert !Marked(g.words, g.starts, k) && !Enqueued(g.words, g.starts, k);
    FilledIn(foreign, g, g1, g2, at, h);
    CopiedValued(foreign, g, g2, at, h, k);
  }

  /** The fields of a copied object hold values. */
  lemma CopiedValued(foreign: iset<nat>, g: Heap, g': Heap, at: nat, h: Word, k: nat)
    requires g.Tiles() && FieldsValued(g, foreign) && k < Count(g.starts)
    requires g.starts[k] < |g.words| && g.HeaderOf(k) == h
    requires forall j :: at <= j < at + Size(h) && j < |g'.words| && 0 <= j - at + g.starts[k] < |g.words| ==>
               g'.words[j] == g.words[j - at + g.starts[k]]
    ensures LastValued(foreign, g, g', at, h)
  {
    ObjectBounds(g.words, g.starts, k);
    forall j | at + FirstField(h) <= j < |g'.words| && j < at + Size(h) ensures Valued(g, foreign, g'.words[j]) {
      assert FieldAt(g.words, g.starts, k, j - at + g.starts[k]);
    }
  }
}
