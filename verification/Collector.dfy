/** The mark-compact collector: the state of gc.c and its procedures. */
module Collector {
  import opened Words
  import opened HeapLayout
  import opened Marking
  import opened Compaction
  import opened Graphs

  const EXTRA_ROOM_HEAP_COEFFICIENT := 2
  const MINIMUM_HEAP_CAPACITY := 64
  const MAX_EXTRA_ROOTS_NUMBER := 32

  ghost function Elements(addrs: seq<nat>): set<nat> {
    set p | p in addrs
  }

  /** Extra roots on the stack or in the global area are left to the region scans. */
  predicate SkippedRoot(p: nat, top: nat, bottom: nat, globalStart: nat, globalStop: nat) {
    (top <= p < bottom) || (globalStart <= p <= globalStop)
  }

  ghost function Unskipped(addrs: seq<nat>, top: nat, bottom: nat, globalStart: nat, globalStop: nat): set<nat> {
    set p | p in addrs && !SkippedRoot(p, top, bottom, globalStart, globalStop)
  }

  class Gc {
    // The heap chunk. `words` is the whole chunk, `current` the offset of heap.current.
    var begin: nat
    var words: array<Word>
    var current: nat

    // The memory outside the heap that holds roots, by word address: the stack, the words
    // registered as extra roots, the global area.
    var memory: map<nat, Word>

    // The stack occupies the words above `top` and below `bottom`.
    var top: nat
    var bottom: nat

    // The pool of extra roots: addresses of words.
    var extraRoots: seq<nat>

    // The global area, a range of words.
    const globalStart: nat
    const globalStop: nat

    // The offsets of the objects of the heap, in order, and the offset of heap.current.
    ghost var starts: seq<nat>

    /** __init: an empty chunk of the least size. */
    constructor (place: nat -> nat, mem: map<nat, Word>, stackTop: nat, stackBottom: nat,
                 start: nat, stop: nat, ghost foreign: iset<nat>)
      requires ForeignApart(foreign, place(MINIMUM_HEAP_CAPACITY), MINIMUM_HEAP_CAPACITY)
      ensures Valid(foreign) && words.Length == MINIMUM_HEAP_CAPACITY && current == 0
      ensures extraRoots == [] && memory == mem && top == stackTop && bottom == stackBottom
      ensures globalStart == start && globalStop == stop
    {
      begin := place(MINIMUM_HEAP_CAPACITY);
      words := new Word[MINIMUM_HEAP_CAPACITY](_ => ZERO);
      current := 0;
      memory := mem;
      top, bottom, extraRoots := stackTop, stackBottom, [];
      globalStart, globalStop := start, stop;
      starts := [0];
    }

    ghost predicate WellShaped()
      reads this, words
    {
      && Tiled(words[..], starts)
      && current == Used(starts)
      && FieldsAimed(words[..], starts, begin)
    }

    // Accessors of an object through the address of its contents.

    function ForwardIndex(obj: Word): int
      reads this`begin
    {
      obj.hi - begin - 1
    }

    /** heap_next_obj_iterator. */
    method NextObject(it: nat, ghost k: nat) returns (next: nat)
      requires Tiled(words[..], starts) && k < Count(starts) && it == starts[k]
      ensures next == starts[k + 1]
    {
      assert ObjAt(words[..], starts, k);
      next := it + SizeInWords(words[it]);
    }

    /** obj_next_ptr_field_iterator. */
    method NextPtrField(field: nat, end: nat) returns (next: nat)
      requires end <= words.Length
      ensures next > field
      ensures forall j :: field < j < next && j < end ==> Unboxed(words[j])
      ensures next < end ==> !Unboxed(words[next])
    {
      next := field + 1;
      while next < end && Unboxed(words[next])
        invariant next > field
        invariant forall j :: field < j < next && j < end ==> Unboxed(words[j])
      {
        next := next + 1;
      }
    }

    /** ptr_field_begin_iterator. */
    method FirstPtrField(header: nat, end: nat) returns (field: nat)
      requires header < words.Length && end <= words.Length
      ensures field >= header + FirstField(words[header])
      ensures forall j :: header + FirstField(words[header]) <= j < field && j < end ==> Unboxed(words[j])
      ensures field < end ==> !Unboxed(words[field])
    {
      field := header + FirstField(words[header]);
      if field < end && Unboxed(words[field]) {
        field := NextPtrField(field, end);
      }
    }

    /** queue_enqueue: writes the object into the forward word of the tail object. */
    method QueueEnqueue(tail: nat, obj: Word,
                        ghost m0: seq<Word>, ghost order: seq<nat>, ghost head: nat, ghost y: nat)
      returns (tail': nat)
      requires WellShaped() && Queue(m0, words[..], starts, begin, order, head)
      requires Points(obj, begin, starts, y) && !Seen(m0, starts, order, y)
      requires |order| < |starts| && tail == starts[|order|]
      modifies words
      ensures WellShaped() && Queue(m0, words[..], starts, begin, order + [y], head)
      ensures |order| + 1 < |starts| && tail' == starts[|order| + 1]
    {
      ghost var m := words[..];
      RoomInQueue(m0, m, starts, begin, order, head, y);
      TiledPair(m, starts, y, |starts| - 1);
      EnqueueKeepsQueue(m0, m, starts, begin, order, head, y);
      words[tail + 1] := SetForwardAddress(words[tail + 1], obj);
      words[ForwardIndex(obj)] := MakeEnqueued(words[ForwardIndex(obj)]);
      assert words[..] == AfterEnqueue(m, tail + 1, starts[y] + 1, obj);
      ShapeKept(m0, m, words[..]);
      tail' := NextObject(tail, |order|);
    }

    /** Forward words do not matter for the shape of the heap. */
    lemma ShapeKept(m0: seq<Word>, m: seq<Word>, m': seq<Word>)
      requires |starts| > 0
      requires Tiled(m, starts) && FieldsAimed(m, starts, begin)
      requires SameButForwards(m0, m, starts) && SameButForwards(m0, m', starts)
      ensures Tiled(m', starts) && FieldsAimed(m', starts, begin)
    {
      assert SameButForwards(m, m', starts);
      TilingIgnoresForwards(m, m', starts);
      AimedIgnoresForwards(m, m', starts, begin);
    }

    /** queue_dequeue followed by mark_object: the oldest waiting object. */
    method QueueDequeue(head: nat, ghost m0: seq<Word>, ghost order: seq<nat>, ghost h: nat)
      returns (head': nat, obj: Word)
      requires WellShaped() && Queue(m0, words[..], starts, begin, order, h)
      requires h < |order| && h < Count(starts) && head == starts[h]
      modifies words
      ensures WellShaped() && Queue(m0, words[..], starts, begin, order, h + 1)
      ensures head' == starts[h + 1]
      ensures Points(obj, begin, starts, order[h])
    {
      ghost var m := words[..];
      TiledPair(m, starts, h, |starts| - 1);
      TiledPair(m, starts, order[h], |starts| - 1);
      DequeueKeepsQueue(m0, m, starts, begin, order, h);
      obj := GetForwardAddress(words[head + 1]);
      words[ForwardIndex(obj)] := MakeDequeued(words[ForwardIndex(obj)]);
      words[ForwardIndex(obj)] := SetMarkBit(words[ForwardIndex(obj)]);
      assert words[..] == AfterDequeue(m, starts[order[h]] + 1);
      ShapeKept(m0, m, words[..]);
      head' := NextObject(head, h);
    }

    /** One round of the loop of mark over pointer fields: enqueues the target of a field, unless
        it is not in the heap or has been seen. */
    method EnqueueField(field: nat, tail: nat,
                        ghost m0: seq<Word>, ghost order: seq<nat>, ghost head: nat, ghost x: nat)
      returns (tail': nat, ghost order': seq<nat>)
      requires WellShaped() && Queue(m0, words[..], starts, begin, order, head)
      requires FieldAt(m0, starts, x, field) && field < words.Length && words[field] == m0[field]
      requires |order| < |starts| && tail == starts[|order|]
      modifies words
      ensures WellShaped() && Queue(m0, words[..], starts, begin, order', head)
      ensures |order'| < |starts| && tail' == starts[|order'|]
      ensures order <= order'
      ensures Aimed(m0[field], begin, starts)
      ensures InRange(m0[field], begin, current) ==> Seen(m0, starts, order', TargetOf(m0[field], begin, starts))
      ensures forall a :: |order| <= a < |order'| ==> Edge(m0, starts, begin, x, order'[a])
    {
      tail', order' := tail, order;
      var value := words[field];
      FieldsIgnoreForwards(m0, words[..], starts, x, field);
      if InRange(value, begin, current) {
        ghost var y := TargetOf(value, begin, starts);
        TiledPair(m0, starts, y, |starts| - 1);
        assert Edge(m0, starts, begin, x, y);
        FlagsOfSeen(m0, words[..], starts, begin, order, head, y);
        if !GetMarkBit(words[ForwardIndex(value)]) && !IsEnqueued(words[ForwardIndex(value)]) {
          tail' := QueueEnqueue(tail', value, m0, order, head, y);
          order' := order + [y];
        }
      }
    }

    /** The loop of mark over the pointer fields of one object. */
    method EnqueueFields(obj: Word, tail: nat,
                         ghost m0: seq<Word>, ghost order: seq<nat>, ghost head: nat, ghost x: nat)
      returns (tail': nat, ghost order': seq<nat>)
      requires WellShaped() && Queue(m0, words[..], starts, begin, order, head)
      requires Points(obj, begin, starts, x)
      requires |order| < |starts| && tail == starts[|order|]
      modifies words
      ensures WellShaped() && Queue(m0, words[..], starts, begin, order', head)
      ensures |order'| < |starts| && tail' == starts[|order'|]
      ensures order <= order'
      ensures forall l: nat :: Edge(m0, starts, begin, x, l) ==> Seen(m0, starts, order', l)
      ensures forall a :: |order| <= a < |order'| ==> Edge(m0, starts, begin, x, order'[a])
    {
      var header := obj.hi - begin - HEADER_WORDS;
      tail', order' := tail, order;
      TilingIgnoresForwards(m0, words[..], starts);
      HeaderNotForward(m0, starts, x);
      ObjectBounds(m0, starts, x);
      var end := header + SizeInWords(words[header]);
      var field := FirstPtrField(header, end);
      FieldsMatch(m0, words[..], x);
      SkipUnboxed(m0, starts, begin, order', x, header, field);
      while field < end
        invariant WellShaped() && Queue(m0, words[..], starts, begin, order', head)
        invariant header + FirstField(m0[header]) <= field
        invariant field < end ==> !Unboxed(words[field])
        invariant |order'| < |starts| && tail' == starts[|order'|]
        invariant order <= order'
        invariant FieldsDone(m0, starts, begin, order', x, field)
        invariant forall a :: |order| <= a < |order'| ==> Edge(m0, starts, begin, x, order'[a])
        decreases end - field
      {
        assert FieldAt(m0, starts, x, field);
        FieldsMatch(m0, words[..], x);
        ghost var f, before := field, order';
        tail', order' := EnqueueField(field, tail', m0, order', head, x);
        OneFieldDone(m0, starts, begin, before, order', x, f);
        FieldsMatch(m0, words[..], x);
        field := NextPtrField(field, end);
        SkipUnboxed(m0, starts, begin, order', x, f + 1, field);
      }
    }

    /** The fields of object x are as they were before marking. */
    lemma FieldsMatch(m0: seq<Word>, m: seq<Word>, x: nat)
      requires Tiled(m0, starts) && SameButForwards(m0, m, starts)
      ensures forall j :: FieldAt(m0, starts, x, j) ==> m[j] == m0[j]
    {
      forall j | FieldAt(m0, starts, x, j) ensures m[j] == m0[j] {
        FieldsIgnoreForwards(m0, m, starts, x, j);
      }
    }

    /** mark: marks the object and all that it reaches, breadth first, with the queue kept in the
        forward words of the first objects of the heap. */
    method Mark(obj: Word, ghost roots: set<nat>)
      requires WellShaped() && MarkState(words[..], starts, begin, roots)
      requires Aimed(obj, begin, starts)
      requires forall k: nat :: Points(obj, begin, starts, k) ==> k in roots
      modifies words
      ensures WellShaped() && MarkState(words[..], starts, begin, roots)
      ensures SameButForwards(old(words[..]), words[..], starts)
      ensures MarksGrow(old(words[..]), words[..], starts)
      ensures forall k: nat :: Points(obj, begin, starts, k) ==> Marked(words[..], starts, k)
    {
      if !InRange(obj, begin, current) {
        NotInRange(words[..], obj);
        return;
      }
      ghost var root := TargetOf(obj, begin, starts);
      ObjectBounds(words[..], starts, root);
      OnlyTarget(words[..], obj, root);
      if GetMarkBit(words[ForwardIndex(obj)]) {
        return;
      }
      ReachRoot(words[..], starts, begin, roots, root);
      MarkFrom(obj, roots, root);
    }

    /** The breadth-first loop of mark. */
    method MarkFrom(obj: Word, ghost roots: set<nat>, ghost root: nat)
      requires WellShaped() && MarkState(words[..], starts, begin, roots)
      requires Points(obj, begin, starts, root) && Reachable(words[..], starts, begin, roots, root)
      requires !Marked(words[..], starts, root)
      modifies words
      ensures WellShaped() && MarkState(words[..], starts, begin, roots)
      ensures SameButForwards(old(words[..]), words[..], starts)
      ensures MarksGrow(old(words[..]), words[..], starts)
      ensures Marked(words[..], starts, root)
    {
      hide Tiled, FieldsAimed, Queue, Draining, MarkState, MarksGrow, SameButForwards, Reachable;
      ghost var m0 := words[..];
      MarkingStarts(m0, roots, root);
      var head, tail := 0, 0;
      tail := QueueEnqueue(tail, obj, m0, [], 0, root);
      DrainingStarts(m0, words[..], roots, root);
      ghost var order := Drain(head, tail, m0, roots, [root]);
      assert order[0] == root;
      DrainingEnds(m0, words[..], roots, order);
    }

    lemma MarkingStarts(m0: seq<Word>, roots: set<nat>, root: nat)
      requires MarkState(m0, starts, begin, roots) && !Marked(m0, starts, root)
      ensures Tiled(m0, starts) && |starts| > 0 && starts[0] == 0 && Queue(m0, m0, starts, begin, [], 0)
      ensures !Seen(m0, starts, [], root)
    {
      EmptyQueue(m0, starts, begin);
    }

    lemma DrainingStarts(m0: seq<Word>, m: seq<Word>, roots: set<nat>, root: nat)
      requires Queue(m0, m, starts, begin, [] + [root], 0) && Reachable(m0, starts, begin, roots, root)
      ensures Draining(m0, m, starts, begin, roots, [root], 0)
    {
      assert [] + [root] == [root];
    }

    lemma DrainingEnds(m0: seq<Word>, m: seq<Word>, roots: set<nat>, order: seq<nat>)
      requires MarkState(m0, starts, begin, roots) && Draining(m0, m, starts, begin, roots, order, |order|)
      requires Tiled(m, starts) && FieldsAimed(m, starts, begin)
      ensures MarkState(m, starts, begin, roots) && SameButForwards(m0, m, starts) && MarksGrow(m0, m, starts)
      ensures forall x :: x in order ==> Marked(m, starts, x)
    {
      MarkingDone(m0, m, starts, begin, roots, order);
    }

    /** Takes objects from the queue until it is empty. */
    method Drain(head0: nat, tail0: nat, ghost m0: seq<Word>, ghost roots: set<nat>, ghost order0: seq<nat>)
      returns (ghost order: seq<nat>)
      requires WellShaped() && Draining(m0, words[..], starts, begin, roots, order0, 0)
      requires |order0| < |starts| && head0 == starts[0] && tail0 == starts[|order0|]
      modifies words
      ensures WellShaped() && Draining(m0, words[..], starts, begin, roots, order, |order|)
      ensures order0 <= order
    {
      var head, tail := head0, tail0;
      ghost var h := 0;
      order := order0;
      while head != tail
        invariant WellShaped() && Draining(m0, words[..], starts, begin, roots, order, h)
        invariant |order| < |starts| && head == starts[h] && tail == starts[|order|]
        invariant order0 <= order
        decreases Count(starts) - h
      {
        head, tail, order := MarkNext(head, tail, m0, roots, order, h);
        h := h + 1;
      }
      SameBoundary(words[..], h, |order|);
    }

    /** Marks the oldest waiting object and enqueues what it points to. */
    method MarkNext(head: nat, tail: nat, ghost m0: seq<Word>, ghost roots: set<nat>, ghost order: seq<nat>,
                    ghost h: nat)
      returns (head': nat, tail': nat, ghost order': seq<nat>)
      requires WellShaped() && Draining(m0, words[..], starts, begin, roots, order, h)
      requires |order| < |starts| && head == starts[h] && tail == starts[|order|] && head != tail
      modifies words
      ensures WellShaped() && Draining(m0, words[..], starts, begin, roots, order', h + 1)
      ensures order <= order'
      ensures |order'| < |starts| && head' == starts[h + 1] && tail' == starts[|order'|]
    {
      var x;
      head', x := QueueDequeue(head, m0, order, h);
      tail', order' := EnqueueFields(x, tail, m0, order, h + 1, order[h]);
      ScannedOne(m0, roots, order, order', h);
    }

    lemma SameBoundary(m: seq<Word>, a: nat, b: nat)
      requires Tiled(m, starts) && a <= b < |starts| && starts[a] == starts[b]
      ensures a == b
    {
      TiledAscending(m, starts);
    }

    lemma NotInRange(m: seq<Word>, obj: Word)
      requires Tiled(m, starts) && !InRange(obj, begin, Used(starts))
      ensures forall k: nat :: !Points(obj, begin, starts, k)
    {
      forall k: nat | Points(obj, begin, starts, k) ensures false {
        PointerInRange(m, starts, begin, obj, k);
      }
    }

    lemma OnlyTarget(m: seq<Word>, obj: Word, k: nat)
      requires Tiled(m, starts) && Points(obj, begin, starts, k)
      ensures forall l: nat :: Points(obj, begin, starts, l) ==> l == k
    {
      TiledAscending(m, starts);
    }

    lemma ScannedOne(m0: seq<Word>, roots: set<nat>, before: seq<nat>, order: seq<nat>, h: nat)
      requires |starts| > 0 && h < |before| && before <= order
      requires Followed(m0, starts, begin, before, h)
      requires AllReachable(m0, starts, begin, roots, before)
      requires forall l: nat :: Edge(m0, starts, begin, before[h], l) ==> Seen(m0, starts, order, l)
      requires forall a :: |before| <= a < |order| ==> Edge(m0, starts, begin, before[h], order[a])
      ensures Followed(m0, starts, begin, order, h + 1)
      ensures AllReachable(m0, starts, begin, roots, order)
    {
      forall a: nat, l: nat | 0 <= a < h + 1 && a < |order| && Edge(m0, starts, begin, order[a], l)
        ensures Seen(m0, starts, order, l)
      {
        if a < h {
          assert Edge(m0, starts, begin, before[a], l);
          assert Seen(m0, starts, before, l);
        }
      }
      forall a | 0 <= a < |order| ensures Reachable(m0, starts, begin, roots, order[a]) {
        if a < |before| {
          assert Reachable(m0, starts, begin, roots, before[a]);
        } else {
          ReachStep(m0, starts, begin, roots, before[h], order[a]);
        }
      }
    }

    // mark_phase and its three scans.

    ghost function StackAddrs(): set<nat>
      reads this`top, this`bottom
    {
      Region(top + 1, bottom)
    }

    ghost function GlobalAddrs(): set<nat> {
      Region(globalStart, globalStop)
    }

    ghost function ExtraAddrs(): set<nat>
      reads this`extraRoots
    {
      Elements(extraRoots)
    }

    /** Every word that mark_phase reads as a root. */
    ghost function RootAddrs(): set<nat>
      reads this`top, this`bottom, this`extraRoots
    {
      StackAddrs() + ExtraAddrs() + GlobalAddrs()
    }

    /** Marks from one root word. */
    method MarkRoot(p: nat, ghost addrs: set<nat>, ghost roots: set<nat>, ghost done: set<nat>)
      requires WellShaped() && MarkState(words[..], starts, begin, roots)
      requires RootsAimed(memory, addrs, begin, starts) && Targets(memory, addrs, begin, starts) == roots
      requires p in addrs && TargetsMarked(words[..], memory, done, begin, starts)
      modifies words
      ensures WellShaped() && MarkState(words[..], starts, begin, roots)
      ensures SameButForwards(old(words[..]), words[..], starts)
      ensures TargetsMarked(words[..], memory, done + {p}, begin, starts)
    {
      ghost var m := words[..];
      Mark(memory[p], roots);
      OneMoreRoot(m, words[..], memory, done, p, begin, starts);
    }

    /** gc_root_scan_stack and scan_global_area: marks from the words of a region. */
    method MarkRegion(lo: nat, hi: nat, ghost addrs: set<nat>, ghost roots: set<nat>, ghost done: set<nat>)
      requires WellShaped() && MarkState(words[..], starts, begin, roots)
      requires RootsAimed(memory, addrs, begin, starts) && Targets(memory, addrs, begin, starts) == roots
      requires Region(lo, hi) <= addrs && TargetsMarked(words[..], memory, done, begin, starts)
      modifies words
      ensures WellShaped() && MarkState(words[..], starts, begin, roots)
      ensures SameButForwards(old(words[..]), words[..], starts)
      ensures TargetsMarked(words[..], memory, done + Region(lo, hi), begin, starts)
    {
      var p := lo;
      while p < hi
        invariant lo <= p && (p <= hi || p == lo)
        invariant WellShaped() && MarkState(words[..], starts, begin, roots)
        invariant SameButForwards(old(words[..]), words[..], starts)
        invariant TargetsMarked(words[..], memory, done + Region(lo, p), begin, starts)
      {
        MarkRoot(p, addrs, roots, done + Region(lo, p));
        assert done + Region(lo, p) + {p} == done + Region(lo, p + 1);
        p := p + 1;
      }
    }

    /** scan_extra_roots. */
    method MarkExtraRoots(ghost addrs: set<nat>, ghost roots: set<nat>, ghost done: set<nat>)
      requires WellShaped() && MarkState(words[..], starts, begin, roots)
      requires RootsAimed(memory, addrs, begin, starts) && Targets(memory, addrs, begin, starts) == roots
      requires ExtraAddrs() <= addrs && TargetsMarked(words[..], memory, done, begin, starts)
      modifies words
      ensures WellShaped() && MarkState(words[..], starts, begin, roots)
      ensures SameButForwards(old(words[..]), words[..], starts)
      ensures TargetsMarked(words[..], memory, done + ExtraAddrs(), begin, starts)
    {
      ghost var seen := {};
      for i := 0 to |extraRoots|
        invariant WellShaped() && MarkState(words[..], starts, begin, roots)
        invariant SameButForwards(old(words[..]), words[..], starts)
        invariant forall j :: 0 <= j < i ==> extraRoots[j] in seen
        invariant TargetsMarked(words[..], memory, done + seen, begin, starts)
      {
        assert extraRoots[i] in ExtraAddrs();
        MarkRoot(extraRoots[i], addrs, roots, done + seen);
        assert done + seen + {extraRoots[i]} == done + (seen + {extraRoots[i]});
        seen := seen + {extraRoots[i]};
      }
      assert ExtraAddrs() <= seen;
    }

    /** mark_phase: afterwards exactly the objects reachable from the roots are marked. */
    method MarkPhase()
      requires WellShaped() && NoneEnqueued(words[..], starts)
      requires forall k: nat :: !Marked(words[..], starts, k)
      requires RootsAimed(memory, RootAddrs(), begin, starts)
      modifies words
      ensures WellShaped() && SameButForwards(old(words[..]), words[..], starts)
      ensures MarkState(words[..], starts, begin, Targets(memory, RootAddrs(), begin, starts))
      ensures forall k: nat :: Marked(words[..], starts, k) <==>
                Reachable(old(words[..]), starts, begin, Targets(memory, RootAddrs(), begin, starts), k)
    {
      hide Reachable;
      ghost var m0 := words[..];
      ghost var addrs := RootAddrs();
      ghost var roots := Targets(memory, addrs, begin, starts);
      MarkRegion(top + 1, bottom, addrs, roots, {});
      MarkExtraRoots(addrs, roots, {} + StackAddrs());
      MarkRegion(globalStart, globalStop, addrs, roots, {} + StackAddrs() + ExtraAddrs());
      assert {} + StackAddrs() + ExtraAddrs() + GlobalAddrs() == addrs;
      forall k: nat
        ensures Marked(words[..], starts, k) <==> Reachable(m0, starts, begin, roots, k)
      {
        MarksExact(m0, words[..], starts, begin, roots, k);
      }
    }

    // compact_phase.

    /** compute_locations: returns the number of live words. */
    method ComputeLocations() returns (live: nat)
      requires Tiled(words[..], starts) && current == Used(starts)
      modifies words
      ensures Located(old(words[..]), words[..], starts, begin, Count(starts))
      ensures live == LiveBefore(old(words[..]), starts, Count(starts))
    {
      ghost var mm := words[..];
      ghost var k := 0;
      var free, scan := 0, 0;
      while scan < current
        invariant k <= Count(starts) && scan == starts[k]
        invariant Located(mm, words[..], starts, begin, k)
        invariant free == LiveBefore(mm, starts, k)
        decreases Count(starts) - k
      {
        TiledAscending(mm, starts);
        free := LocateObject(scan, free, mm, k);
        TilingIgnoresForwards(mm, words[..], starts);
        scan := NextObject(scan, k);
        k := k + 1;
      }
      if k < Count(starts) {
        TiledPair(mm, starts, k, Count(starts));
      }
      live := free;
    }

    /** The loop body of compute_locations: gives a marked object the next free place. */
    method LocateObject(scan: nat, free: nat, ghost mm: seq<Word>, ghost k: nat) returns (free': nat)
      requires Tiled(mm, starts) && k < Count(starts) && scan == starts[k]
      requires Located(mm, words[..], starts, begin, k) && free == LiveBefore(mm, starts, k)
      modifies words
      ensures Located(mm, words[..], starts, begin, k + 1) && free' == LiveBefore(mm, starts, k + 1)
    {
      ObjectBounds(mm, starts, k);
      HeaderNotForward(mm, starts, k);
      assert LocatedAt(mm, words[..], starts, begin, k, k);
      ghost var m := words[..];
      free' := free;
      if GetMarkBit(words[scan + 1]) {
        words[scan + 1] := SetForwardAddress(words[scan + 1], Addr(begin + free));
        free' := free + SizeInWords(words[scan]);
      }
      LocateNext(mm, m, words[..], starts, begin, k);
    }

    /** The new value of a pointer into the old heap, computed from the forward word of its target. */
    method Redirected(w: Word, oldBegin: nat, ghost mm: seq<Word>) returns (w': Word)
      requires Tiled(mm, starts) && Forwarded(mm, words[..], starts, oldBegin)
      requires Aimed(w, oldBegin, starts) && InRange(w, oldBegin, Used(starts))
      requires Marked(mm, starts, TargetOf(w, oldBegin, starts))
      ensures w' == NewWord(mm, starts, oldBegin, begin, w)
    {
      RebasedIsNew(mm, words[..], starts, oldBegin, begin, w);
      w' := Rebased(GetForwardAddress(words[w.hi - oldBegin - 1]), oldBegin, begin);
    }

    /** The loop of update_references over the pointer fields of one object. */
    method UpdateFields(header: nat, oldBegin: nat, ghost mm: seq<Word>, ghost k: nat)
      requires Tiled(mm, starts) && FieldsAimed(mm, starts, oldBegin) && MarksClosed(mm, starts, oldBegin)
      requires current == Used(starts)
      requires Marked(mm, starts, k) && header == starts[k]
      requires Updated(mm, words[..], starts, oldBegin, begin, header)
      modifies words
      ensures Updated(mm, words[..], starts, oldBegin, begin, starts[k + 1])
    {
      ObjectBounds(mm, starts, k);
      assert ForwardedAt(mm, words[..], starts, oldBegin, k);
      var end := header + SizeInWords(words[header]);
      var field := FirstPtrField(header, end);
      UpdateSkipTo(mm, words[..], oldBegin, k, header, field);
      while field < end
        invariant header + FirstField(mm[header]) <= field
        invariant field < end ==> !Unboxed(words[field])
        invariant Updated(mm, words[..], starts, oldBegin, begin, if field < end then field else end)
        decreases end - field
      {
        ghost var f := field;
        UpdateOneField(field, oldBegin, mm, k);
        field := NextPtrField(field, end);
        UpdateSkipTo(mm, words[..], oldBegin, k, f + 1, field);
      }
    }

    /** One round of that loop. */
    method UpdateOneField(field: nat, oldBegin: nat, ghost mm: seq<Word>, ghost k: nat)
      requires Tiled(mm, starts) && FieldsAimed(mm, starts, oldBegin) && MarksClosed(mm, starts, oldBegin)
      requires current == Used(starts)
      requires Marked(mm, starts, k) && FieldAt(mm, starts, k, field) && field < words.Length
      requires Updated(mm, words[..], starts, oldBegin, begin, field) && !Unboxed(words[field])
      modifies words
      ensures Updated(mm, words[..], starts, oldBegin, begin, field + 1)
    {
      ghost var m := words[..];
      var value := words[field];
      FieldInContents(mm, starts, k, field);
      assert value == mm[field];
      UpdateField(mm, m, m[field := NewWord(mm, starts, oldBegin, begin, value)], starts, oldBegin, begin, k, field);
      if InRange(value, oldBegin, current) {
        assert Edge(mm, starts, oldBegin, k, TargetOf(value, oldBegin, starts));
        var value' := Redirected(value, oldBegin, mm);
        words[field] := value';
        assert words[..] == m[field := value'];
      } else {
        assert m == m[field := value];
      }
    }

    /** Words that are skipped between pointer fields of object `k` need no update. */
    lemma UpdateSkipTo(mm: seq<Word>, m: seq<Word>, oldBegin: nat, k: nat, f: nat, f': nat)
      requires Tiled(mm, starts) && Updated(mm, m, starts, oldBegin, begin, f)
      requires k < Count(starts) && starts[k] <= f <= starts[k + 1] && f <= f'
      requires forall j :: FieldAt(mm, starts, k, j) && f <= j < f' && j < |m| ==> Unboxed(m[j])
      ensures Updated(mm, m, starts, oldBegin, begin, if f' < starts[k + 1] then f' else starts[k + 1])
    {
      var f2 := if f' < starts[k + 1] then f' else starts[k + 1];
      forall l: nat, j: nat | f <= j < f2 && SafeField(mm, starts, oldBegin, l, j)
        ensures !InRange(mm[j], oldBegin, Used(starts))
      {
        FieldInContents(mm, starts, l, j);
        OneOwner(mm, starts, k, l, j);
        assert InContents(starts, k, j);
      }
      UpdateSkip(mm, m, starts, oldBegin, begin, f, f2);
    }

    /** An object that is not marked needs no update. */
    lemma UpdateSkipObject(mm: seq<Word>, m: seq<Word>, oldBegin: nat, k: nat)
      requires Tiled(mm, starts) && k < Count(starts) && !Marked(mm, starts, k)
      requires Updated(mm, m, starts, oldBegin, begin, starts[k])
      ensures Updated(mm, m, starts, oldBegin, begin, starts[k + 1])
    {
      ObjectBounds(mm, starts, k);
      forall l: nat, j: nat | starts[k] <= j < starts[k + 1] && SafeField(mm, starts, oldBegin, l, j)
        ensures false
      {
        FieldInContents(mm, starts, l, j);
        OneOwner(mm, starts, k, l, j);
      }
      UpdateSkip(mm, m, starts, oldBegin, begin, starts[k], starts[k + 1]);
    }

    /** The heap part of update_references. */
    method UpdateHeap(oldBegin: nat, ghost mm: seq<Word>)
      requires Tiled(mm, starts) && FieldsAimed(mm, starts, oldBegin) && MarksClosed(mm, starts, oldBegin)
      requires current == Used(starts)
      requires Updated(mm, words[..], starts, oldBegin, begin, 0)
      modifies words
      ensures Updated(mm, words[..], starts, oldBegin, begin, current)
    {
      ghost var k := 0;
      var it := 0;
      while it < current
        invariant k <= Count(starts) && it == starts[k]
        invariant Updated(mm, words[..], starts, oldBegin, begin, it)
        decreases Count(starts) - k
      {
        TiledAscending(mm, starts);
        ObjectBounds(mm, starts, k);
        assert ForwardedAt(mm, words[..], starts, oldBegin, k);
        if GetMarkBit(words[it + 1]) {
          UpdateFields(it, oldBegin, mm, k);
        } else {
          UpdateSkipObject(mm, words[..], oldBegin, k);
        }
        UpdatedHeaders(mm, words[..], starts, oldBegin, begin, starts[k + 1]);
        it := NextObject(it, k);
        k := k + 1;
      }
      if k < Count(starts) {
        TiledPair(mm, starts, k, Count(starts));
      }
    }

    // The roots, in update_references.

    ghost predicate RootsSafe(mm: seq<Word>, oldBegin: nat, mem: map<nat, Word>, addrs: set<nat>)
      reads this`starts
    {
      && |starts| > 0
      && forall p :: p in addrs ==> p in mem && SafeWord(mm, starts, oldBegin, mem[p])
    }

    /** What holds while roots are being fixed: the roots fixed so far are `fixed`. */
    ghost predicate Fixing(mm: seq<Word>, oldBegin: nat, oldSize: nat, mem: map<nat, Word>, fixed: set<nat>)
      reads this, words
    {
      && Tiled(mm, starts) && current == Used(starts) && current <= oldSize
      && Forwarded(mm, words[..], starts, oldBegin)
      && ChunksDisjoint(oldBegin, oldSize, begin, words.Length)
      && words.Length >= 2 * LiveBefore(mm, starts, Count(starts))
      && Fixed(mm, starts, oldBegin, begin, mem, memory, fixed)
    }

    /** Fixes one root word that points into the old heap. */
    method FixWord(p: nat, oldBegin: nat, ghost oldSize: nat, ghost mm: seq<Word>, ghost mem: map<nat, Word>,
                   ghost fixed: set<nat>)
      requires Fixing(mm, oldBegin, oldSize, mem, fixed) && RootsSafe(mm, oldBegin, mem, {p})
      modifies this`memory
      ensures Fixing(mm, oldBegin, oldSize, mem, fixed + {p})
    {
      ghost var m1 := memory;
      var value := memory[p];
      FixOne(mm, starts, oldBegin, oldSize, begin, words.Length, mem, m1,
             if Aimed(value, oldBegin, starts) then m1[p := NewWord(mm, starts, oldBegin, begin, value)]
                 else m1, fixed, p);
      if InRange(value, oldBegin, current) {
        var value' := Redirected(value, oldBegin, mm);
        memory := memory[p := value'];
      } else {
        assert m1 == m1[p := value];
      }
    }

    /** scan_and_fix_region. */
    method FixRegion(lo: nat, hi: nat, oldBegin: nat, ghost oldSize: nat, ghost mm: seq<Word>,
                     ghost mem: map<nat, Word>, ghost fixed: set<nat>, ghost fixed': set<nat>)
      requires Fixing(mm, oldBegin, oldSize, mem, fixed) && RootsSafe(mm, oldBegin, mem, Region(lo, hi))
      requires fixed' == fixed + Region(lo, hi)
      modifies this`memory
      ensures Fixing(mm, oldBegin, oldSize, mem, fixed')
    {
      var p := lo;
      assert fixed + Region(lo, lo) == fixed;
      while p < hi
        invariant lo <= p && (p <= hi || p == lo)
        invariant Fixing(mm, oldBegin, oldSize, mem, fixed + Region(lo, p))
      {
        FixWord(p, oldBegin, oldSize, mm, mem, fixed + Region(lo, p));
        assert fixed + Region(lo, p) + {p} == fixed + Region(lo, p + 1);
        p := p + 1;
      }
      assert fixed + Region(lo, p) == fixed + Region(lo, hi);
    }

    predicate Skipped(p: nat)
      reads this`top, this`bottom
    {
      SkippedRoot(p, top, bottom, globalStart, globalStop)
    }

    ghost function FixedExtraAddrs(): set<nat>
      reads this`top, this`bottom, this`extraRoots
    {
      Unskipped(extraRoots, top, bottom, globalStart, globalStop)
    }

    /** scan_and_fix_region_roots. A word that is registered several times is fixed once. */
    method FixExtraRoots(oldBegin: nat, ghost oldSize: nat, ghost mm: seq<Word>, ghost mem: map<nat, Word>,
                         ghost fixed: set<nat>, ghost fixed': set<nat>)
      requires Fixing(mm, oldBegin, oldSize, mem, fixed) && RootsSafe(mm, oldBegin, mem, FixedExtraAddrs())
      requires fixed' == fixed + FixedExtraAddrs()
      modifies this`memory
      ensures Fixing(mm, oldBegin, oldSize, mem, fixed')
    {
      ghost var done := {};
      assert fixed + done == fixed;
      for i := 0 to |extraRoots|
        invariant done <= FixedExtraAddrs()
        invariant forall j :: 0 <= j < i && !Skipped(extraRoots[j]) ==> extraRoots[j] in done
        invariant Fixing(mm, oldBegin, oldSize, mem, fixed + done)
      {
        var p := extraRoots[i];
        if !Skipped(p) {
          assert p in FixedExtraAddrs();
          FixWord(p, oldBegin, oldSize, mm, mem, fixed + done);
          assert fixed + done + {p} == fixed + (done + {p});
          done := done + {p};
        }
      }
      assert done == FixedExtraAddrs();
    }

    /** Every word outside the heap that update_references fixes. The stack scan reaches one word
        further than the stack. */
    ghost function FixedAddrs(): set<nat>
      reads this`top, this`bottom, this`extraRoots
    {
      FixedWith(extraRoots)
    }

    ghost function FixedWith(extra: seq<nat>): set<nat>
      reads this`top, this`bottom
    {
      Region(top + 1, bottom + 1) + Unskipped(extra, top, bottom, globalStart, globalStop) + GlobalAddrs()
    }

    /** The roots in update_references. */
    method FixRoots(oldBegin: nat, ghost oldSize: nat, ghost mm: seq<Word>, ghost mem: map<nat, Word>)
      requires Fixing(mm, oldBegin, oldSize, mem, {}) && RootsSafe(mm, oldBegin, mem, FixedAddrs())
      modifies this`memory
      ensures Fixing(mm, oldBegin, oldSize, mem, FixedAddrs())
    {
      ghost var first, second := Region(top + 1, bottom + 1), Region(top + 1, bottom + 1) + FixedExtraAddrs();
      FixRegion(top + 1, bottom + 1, oldBegin, oldSize, mm, mem, {}, first);
      FixExtraRoots(oldBegin, oldSize, mm, mem, first, second);
      FixRegion(globalStart, globalStop, oldBegin, oldSize, mm, mem, second, FixedAddrs());
    }

    /** update_references. */
    method UpdateReferences(oldBegin: nat, ghost oldSize: nat, ghost mm: seq<Word>)
      requires Tiled(mm, starts) && FieldsAimed(mm, starts, oldBegin) && MarksClosed(mm, starts, oldBegin)
      requires Updated(mm, words[..], starts, oldBegin, begin, 0)
      requires Fixing(mm, oldBegin, oldSize, memory, {}) && RootsSafe(mm, oldBegin, memory, FixedAddrs())
      modifies words, this`memory
      ensures Updated(mm, words[..], starts, oldBegin, begin, current)
      ensures Fixed(mm, starts, oldBegin, begin, old(memory), memory, FixedAddrs())
    {
      UpdateHeap(oldBegin, mm);
      FixRoots(oldBegin, oldSize, mm, memory);
    }

    /** The words that are marked from are all fixed, unless an extra root sits just below the stack
        or just past the global area and in neither region. */
    lemma RootsCoveredIff()
      ensures RootAddrs() <= FixedAddrs() <==>
              forall p :: p in extraRoots ==>
                (p == top ==> p in GlobalAddrs() || !Skipped(p))
                    && (p == globalStop ==> p in Region(top + 1, bottom + 1) || !Skipped(p))
    {
      if RootAddrs() <= FixedAddrs() {
        forall p | p in extraRoots
          ensures (p == top ==> p in GlobalAddrs() || !Skipped(p))
          ensures (p == globalStop ==> p in Region(top + 1, bottom + 1) || !Skipped(p))
        {
          assert p in RootAddrs();
          assert p in FixedAddrs();
        }
      }
    }

    /** memmove of whole words to a place that is not above them. */
    method MoveWords(to: nat, from: nat, n: nat)
      requires to <= from && from + n <= words.Length
      modifies words
      ensures forall q :: to <= q < to + n ==> words[q] == old(words[from + (q - to)])
      ensures forall j :: 0 <= j < words.Length && !(to <= j < to + n) ==> words[j] == old(words[j])
    {
      ghost var m := words[..];
      var i := 0;
      while i < n
        invariant 0 <= i <= n
        invariant forall q :: to <= q < to + i ==> words[q] == m[from + (q - to)]
        invariant forall j :: 0 <= j < words.Length && !(to <= j < to + i) ==> words[j] == m[j]
      {
        words[to + i] := words[from + i];
        i := i + 1;
      }
    }

    /** memmove of one object: whole words, then for a string the bytes that end in the last word. */
    method MoveObject(to: nat, from: nat)
      requires from < words.Length && IsHeader(words[from])
      requires to <= from && from + Size(words[from]) <= words.Length
      modifies words
      ensures MovedBlock(old(words[..]), words[..], to, from, old(words[from]))
    {
      ghost var m := words[..];
      var header := words[from];
      var bytes := ByteSize(KindOf(header), header.hi);
      var whole, tail := bytes / 8, bytes % 8;
      BytesOfObject(header);
      MoveWords(to, from, whole);
      if tail != 0 {
        words[to + whole] := MixLow(words[from + whole], words[to + whole], tail);
      }
      forall j: nat | j < Size(header) ensures CopiedAt(header, m, from, words[..], to, j) {
        assert j < whole ==> words[to + j] == m[from + j];
      }
    }

    /** The bytes of an object fill its words, but for the tail of a string. */
    lemma BytesOfObject(h: Word)
      ensures var bytes := ByteSize(KindOf(h), h.hi);
              && Size(h) == (if bytes % 8 == 0 then bytes / 8 else bytes / 8 + 1)
              && (if KindOf(h).Str? then h.hi % 8 + 1 == (if bytes % 8 == 0 then 8 else bytes % 8) else bytes % 8 == 0)
    {
    }

    /** The loop body of physically_relocate. */
    method RelocateObject(from: nat, oldBegin: nat, ghost mm: seq<Word>, ghost mu: seq<Word>, ghost k: nat)
      requires Tiled(mm, starts) && Tiled(mu, starts) && SameHeaders(mm, mu, starts)
      requires k < Count(starts) && from == starts[k]
      requires Forwarded(mm, mu, starts, oldBegin)
      requires Slid(mm, mu, words[..], starts, k)
      modifies words
      ensures Slid(mm, mu, words[..], starts, k + 1)
    {
      ObjectBounds(mm, starts, k);
      ObjectBounds(mu, starts, k);
      assert ForwardedAt(mm, mu, starts, oldBegin, k);
      assert words[from] == mu[from] && words[from + 1] == mu[from + 1];
      if GetMarkBit(words[from + 1]) {
        var to := GetForwardAddress(words[from + 1]).hi - oldBegin;
        LiveBelow(mm, starts, k);
        ghost var m := words[..];
        MoveObject(to, from);
        ghost var m1 := words[..];
        words[to + 1] := ResetMarkBit(words[to + 1]);
        SlideOne(mm, mu, m, m1, words[..], starts, k);
      } else {
        SlideSkip(mm, mu, words[..], starts, k);
      }
    }

    /** physically_relocate: slides the live objects down, lowest first, and unmarks them. */
    method PhysicallyRelocate(oldBegin: nat, ghost mm: seq<Word>)
      requires Tiled(mm, starts) && current == Used(starts)
      requires Updated(mm, words[..], starts, oldBegin, begin, current)
      modifies words
      ensures Slid(mm, old(words[..]), words[..], starts, Count(starts))
    {
      ghost var mu := words[..];
      ghost var k := 0;
      var from := 0;
      UpdatedHeaders(mm, mu, starts, oldBegin, begin, current);
      while from < current
        invariant k <= Count(starts) && from == starts[k]
        invariant Slid(mm, mu, words[..], starts, k)
        decreases Count(starts) - k
      {
        TiledAscending(mm, starts);
        ObjectBounds(mu, starts, k);
        var next := from + SizeInWords(words[from]);
        RelocateObject(from, oldBegin, mm, mu, k);
        from := next;
        k := k + 1;
      }
      if k < Count(starts) {
        TiledPair(mm, starts, k, Count(starts));
      }
    }

    ghost function Snapshot(): Heap
      reads this`begin, this`words, this`starts, words
    {
      Heap(begin, words[..], starts)
    }

    /** Where a new chunk may be mapped: clear of the old chunk and of foreign addresses. */
    ghost predicate FreshPlace(place: nat -> nat, foreign: iset<nat>)
      reads this`begin, this`words
    {
      forall n :: ChunksDisjoint(begin, words.Length, place(n), n) && ForeignApart(foreign, place(n), n)
    }

    /** compact_phase. `g0` is the heap before marking. */
    method CompactPhase(additional: nat, place: nat -> nat, ghost g0: Heap, ghost roots: set<nat>,
                        ghost foreign: iset<nat>)
      requires MarkState(words[..], starts, begin, roots) && current == Used(starts)
      requires g0.base == begin && g0.starts == starts && g0.Tiles() && SameButForwards(g0.words, words[..], starts)
      requires RootsSafe(words[..], begin, memory, FixedAddrs())
      requires FreshPlace(place, foreign)
      modifies this, words
      ensures fresh(words) && top == old(top) && bottom == old(bottom) && extraRoots == old(extraRoots)
      ensures starts == NewTiling(old(words[..]), old(starts)) && current == Used(starts)
      ensures ForeignApart(foreign, begin, words.Length)
      ensures Preserved(g0, Snapshot(), Renaming(old(words[..]), old(starts)))
      ensures NoFlags()
      ensures Fixed(old(words[..]), old(starts), old(begin), begin, old(memory), memory, FixedAddrs())
      ensures words.Length >= old(words.Length) && words.Length >= MINIMUM_HEAP_CAPACITY
      ensures words.Length >= EXTRA_ROOM_HEAP_COEFFICIENT * current + additional
    {
      ghost var mm := words[..];
      var oldBegin, oldSize := begin, words.Length;
      var live := PlanAndSwitch(additional, place, foreign);
      ghost var mu := UpdateAndSlide(oldBegin, oldSize, mm, roots);
      Finish(live, mm, mu, g0, roots);
    }

    /** The end of compact_phase: heap.current moves down to the end of the live objects. */
    method Finish(live: nat, ghost mm: seq<Word>, ghost mu: seq<Word>, ghost g0: Heap, ghost roots: set<nat>)
      requires MarkState(mm, g0.starts, g0.base, roots)
      requires g0.Tiles() && SameButForwards(g0.words, mm, g0.starts)
      requires Updated(mm, mu, g0.starts, g0.base, begin, Used(g0.starts))
      requires Slid(mm, mu, words[..], g0.starts, Count(g0.starts))
      requires live == LiveBefore(mm, g0.starts, Count(g0.starts))
      modifies this`current, this`starts
      ensures starts == NewTiling(mm, g0.starts) && current == Used(starts) == live
      ensures Preserved(g0, Snapshot(), Renaming(mm, g0.starts))
      ensures NoFlags()
    {
      current := live;
      starts := NewTiling(mm, g0.starts);
      FinishCompaction(mm, mu, g0, roots);
    }

    /** compute_locations, and the switch to a chunk of the size it calls for. */
    method PlanAndSwitch(additional: nat, place: nat -> nat, ghost foreign: iset<nat>) returns (live: nat)
      requires Tiled(words[..], starts) && current == Used(starts)
      requires FreshPlace(place, foreign)
      modifies this`words, this`begin, words
      ensures fresh(words) && begin == place(words.Length)
      ensures live == LiveBefore(old(words[..]), starts, Count(starts))
      ensures words.Length == NextSize(live, additional, old(words.Length))
      ensures ChunksDisjoint(old(begin), old(words.Length), begin, words.Length)
      ensures ForeignApart(foreign, begin, words.Length)
      ensures Updated(old(words[..]), words[..], starts, old(begin), begin, 0)
    {
      ghost var mm := words[..];
      live := ComputeLocations();
      SwitchChunk(NextSize(live, additional, words.Length), place, mm);
    }

    /** The size of the next chunk. */
    function NextSize(live: nat, additional: nat, size: nat): (next: nat)
      ensures next >= size && next >= MINIMUM_HEAP_CAPACITY
      ensures next >= EXTRA_ROOM_HEAP_COEFFICIENT * live + additional
      ensures next == size || next == MINIMUM_HEAP_CAPACITY || next == EXTRA_ROOM_HEAP_COEFFICIENT * live + additional
    {
      var wanted := EXTRA_ROOM_HEAP_COEFFICIENT * live + additional;
      var nextHeapSize := if wanted > MINIMUM_HEAP_CAPACITY then wanted else MINIMUM_HEAP_CAPACITY;
      if nextHeapSize > size then nextHeapSize else size
    }

    /** Maps the next chunk and copies the old one into it. */
    method SwitchChunk(size: nat, place: nat -> nat, ghost mm: seq<Word>)
      requires Tiled(mm, starts) && Located(mm, words[..], starts, begin, Count(starts))
      requires size >= words.Length
      modifies this`words, this`begin
      ensures fresh(words) && words.Length == size && begin == place(size)
      ensures Updated(mm, words[..], starts, old(begin), begin, 0)
    {
      ghost var ml := words[..];
      var chunk := Map(size, words);
      assert chunk[..words.Length] == chunk[..][..|ml|];
      CopyIsUpdated(mm, ml, chunk[..], starts, begin, place(size));
      words := chunk;
      begin := place(size);
    }

    /** update_references and physically_relocate in the new chunk. */
    method UpdateAndSlide(oldBegin: nat, ghost oldSize: nat, ghost mm: seq<Word>,
                          ghost roots: set<nat>) returns (ghost mu: seq<Word>)
      requires MarkState(mm, starts, oldBegin, roots)
      requires current == Used(starts) && current <= oldSize
      requires Updated(mm, words[..], starts, oldBegin, begin, 0)
      requires ChunksDisjoint(oldBegin, oldSize, begin, words.Length)
      requires words.Length >= 2 * LiveBefore(mm, starts, Count(starts))
      requires RootsSafe(mm, oldBegin, memory, FixedAddrs())
      modifies words, this`memory
      ensures Updated(mm, mu, starts, oldBegin, begin, current)
      ensures Slid(mm, mu, words[..], starts, Count(starts))
      ensures Fixed(mm, starts, oldBegin, begin, old(memory), memory, FixedAddrs())
    {
      UpdateReferences(oldBegin, oldSize, mm);
      mu := words[..];
      PhysicallyRelocate(oldBegin, mm);
    }

    /** mmap of a zeroed chunk and memcpy of the old one into its beginning. */
    method Map(size: nat, old_: array<Word>) returns (chunk: array<Word>)
      requires old_.Length <= size
      ensures fresh(chunk) && chunk.Length == size
      ensures chunk[..old_.Length] == old_[..]
      ensures forall i :: old_.Length <= i < size ==> chunk[i] == ZERO
    {
      chunk := new Word[size](_ => ZERO);
      forall i | 0 <= i < old_.Length {
        chunk[i] := old_[i];
      }
    }

    lemma FinishCompaction(mm: seq<Word>, mu: seq<Word>, g0: Heap, roots: set<nat>)
      requires MarkState(mm, g0.starts, g0.base, roots)
      requires g0.Tiles() && SameButForwards(g0.words, mm, g0.starts)
      requires Updated(mm, mu, g0.starts, g0.base, begin, Used(g0.starts))
      requires Slid(mm, mu, words[..], g0.starts, Count(g0.starts))
      requires starts == NewTiling(mm, g0.starts)
      ensures Preserved(g0, Snapshot(), Renaming(mm, g0.starts))
      ensures Used(starts) == LiveBefore(mm, g0.starts, Count(g0.starts))
      ensures NoFlags()
    {
      CompactedTiles(mm, mu, words[..], g0.starts, g0.base, begin);
      CompactionPreserves(mm, mu, g0, Snapshot());
      forall r: nat ensures !Marked(words[..], starts, r) && !Enqueued(words[..], starts, r) {
        CompactedFlagsClear(mm, mu, words[..], g0.starts, g0.base, begin, r);
      }
    }

    ghost predicate NoFlags()
      reads this`words, this`starts, words
    {
      |starts| > 0 && forall r: nat :: !Marked(words[..], starts, r) && !Enqueued(words[..], starts, r)
    }

    // Allocation.

    /** What holds between any two operations of the program. `foreign` are the addresses of memory
        that is not the heap's. */
    ghost predicate Valid(foreign: iset<nat>)
      reads this`begin, this`words, this`starts, this`current, words
    {
      && Snapshot().Tiles() && current == Used(starts)
      && FieldsValued(Snapshot(), foreign)
      && ForeignApart(foreign, begin, words.Length)
      && NoFlags()
    }

    /** Every root word holds a value, all roots are among the words that a collection fixes, and the
        word past the stack, which is fixed but not marked from, holds no pointer. */
    ghost predicate RootsValued(foreign: iset<nat>)
      reads this`begin, this`words, this`starts, words, this`memory, this`top, this`bottom, this`extraRoots
    {
      |starts| > 0 && RootsHold(Snapshot(), foreign, memory, RootAddrs(), FixedAddrs())
    }

    lemma StartMarking(foreign: iset<nat>)
      requires Valid(foreign) && RootsValued(foreign)
      ensures WellShaped() && NoneEnqueued(words[..], starts)
      ensures forall k: nat :: !Marked(words[..], starts, k)
      ensures RootsAimed(memory, RootAddrs(), begin, starts)
    {
      FieldsValuedAimed(Snapshot(), foreign, words.Length);
      forall p | p in RootAddrs() ensures p in memory && Aimed(memory[p], begin, starts) {
        ValuedIsAimed(Snapshot(), foreign, memory[p], words.Length);
      }
    }

    lemma RootsAreSafe(g: Heap, mm: seq<Word>, foreign: iset<nat>, cap: nat)
      requires g.starts == starts && g.base == begin
      requires g.Tiles() && ForeignApart(foreign, g.base, cap) && Used(g.starts) <= cap
      requires RootsHold(g, foreign, memory, RootAddrs(), FixedAddrs())
      requires forall k: nat ::
                 Reachable(g.words, g.starts, g.base, Targets(memory, RootAddrs(), g.base, g.starts), k) ==>
                     Marked(mm, g.starts, k)
      ensures RootsSafe(mm, begin, memory, FixedAddrs())
    {
      forall p | p in FixedAddrs()
        ensures p in memory && SafeWord(mm, starts, begin, memory[p])
      {
        RootSafe(g, mm, foreign, cap, memory, RootAddrs(), FixedAddrs(), p);
      }
    }

    lemma AfterCompaction(g: Heap, mm: seq<Word>, foreign: iset<nat>, cap: nat, mem: map<nat, Word>)
      requires g.Tiles() && FieldsValued(g, foreign) && ForeignApart(foreign, g.base, cap) && Used(g.starts) <= cap
      requires Tiled(mm, g.starts) && starts == NewTiling(mm, g.starts)
      requires Preserved(g, Snapshot(), Renaming(mm, g.starts))
      requires Fixed(mm, g.starts, g.base, begin, mem, memory, FixedAddrs())
      requires RootsHold(g, foreign, mem, RootAddrs(), FixedAddrs())
      requires forall p :: p in FixedAddrs() ==> p in mem && SafeWord(mm, g.starts, g.base, mem[p])
      ensures FieldsValued(Snapshot(), foreign)
      ensures forall r: nat :: r < Count(starts) ==> r in Renaming(mm, g.starts).Values
      ensures RootsRenamed(g, Snapshot(), Renaming(mm, g.starts), mem, memory, FixedAddrs())
      ensures RootsValued(foreign)
    {
      var ren := Renaming(mm, g.starts);
      forall r: nat | r < Count(starts) ensures r in ren.Values {
        RenamingOnto(mm, g.starts, r);
      }
      PreservedValued(g, Snapshot(), ren, foreign);
      FixedIsRenamed(g, Snapshot(), mm, mem, memory, FixedAddrs());
      RenamedRootsHold(g, Snapshot(), ren, foreign, cap, mem, memory, RootAddrs(), FixedAddrs());
    }

    /** mark_phase on a heap between two operations. */
    method MarkFromRoots(ghost foreign: iset<nat>)
      requires Valid(foreign) && RootsValued(foreign)
      modifies words
      ensures MarkState(words[..], starts, begin, Targets(memory, RootAddrs(), begin, starts))
      ensures SameButForwards(old(words[..]), words[..], starts)
      ensures forall k: nat :: Marked(words[..], starts, k) <==>
                Reachable(old(words[..]), starts, begin, Targets(memory, RootAddrs(), begin, starts), k)
      ensures RootsSafe(words[..], begin, memory, FixedAddrs())
    {
      ghost var g := Snapshot();
      StartMarking(foreign);
      MarkPhase();
      RootsAreSafe(g, words[..], foreign, words.Length);
    }

    /** gc_alloc without the allocation: a whole collection. Exactly the objects reachable from the
        roots survive, as the same graph; every root keeps its value. */
    method Collect(additional: nat, place: nat -> nat, ghost foreign: iset<nat>) returns (ghost ren: map<nat, nat>)
      requires Valid(foreign) && RootsValued(foreign) && FreshPlace(place, foreign)
      modifies this, words
      ensures Valid(foreign) && RootsValued(foreign)
      ensures fresh(words) && top == old(top) && bottom == old(bottom) && extraRoots == old(extraRoots)
      ensures Preserved(old(Snapshot()), Snapshot(), ren)
      ensures forall k: nat :: k in ren <==>
                old(Reachable(words[..], starts, begin, Targets(memory, RootAddrs(), begin, starts), k))
      ensures forall r: nat :: r < Count(starts) ==> r in ren.Values
      ensures RootsRenamed(old(Snapshot()), Snapshot(), ren, old(memory), memory, FixedAddrs())
      ensures words.Length >= old(words.Length) && words.Length >= MINIMUM_HEAP_CAPACITY
      ensures words.Length >= EXTRA_ROOM_HEAP_COEFFICIENT * current + additional
    {
      ghost var g := Snapshot();
      MarkFromRoots(foreign);
      ghost var mm := words[..];
      CompactMarked(additional, place, foreign, g, Targets(memory, RootAddrs(), begin, starts));
      ren := Renaming(mm, g.starts);
    }

    /** compact_phase on a heap `g` whose reachable objects have been marked. */
    method CompactMarked(additional: nat, place: nat -> nat, ghost foreign: iset<nat>, ghost g: Heap,
                         ghost roots: set<nat>)
      requires g.Tiles() && g.base == begin && g.starts == starts && current == Used(starts)
      requires FieldsValued(g, foreign) && ForeignApart(foreign, begin, words.Length)
      requires RootsHold(g, foreign, memory, RootAddrs(), FixedAddrs()) && FreshPlace(place, foreign)
      requires MarkState(words[..], starts, begin, roots) && SameButForwards(g.words, words[..], starts)
      requires RootsSafe(words[..], begin, memory, FixedAddrs())
      modifies this, words
      ensures Valid(foreign) && RootsValued(foreign)
      ensures fresh(words) && top == old(top) && bottom == old(bottom) && extraRoots == old(extraRoots)
      ensures Preserved(g, Snapshot(), Renaming(old(words[..]), g.starts))
      ensures forall r: nat :: r < Count(starts) ==> r in Renaming(old(words[..]), g.starts).Values
      ensures RootsRenamed(g, Snapshot(), Renaming(old(words[..]), g.starts), old(memory), memory, FixedAddrs())
      ensures words.Length >= old(words.Length) && words.Length >= MINIMUM_HEAP_CAPACITY
      ensures words.Length >= EXTRA_ROOM_HEAP_COEFFICIENT * current + additional
    {
      ghost var mm, mem, cap := words[..], memory, words.Length;
      CompactPhase(additional, place, g, roots, foreign);
      AfterCompaction(g, mm, foreign, cap, mem);
    }

    /** The state after a reservation of `size` zeroed words at `at`: no object is there yet. */
    ghost predicate Reserved(foreign: iset<nat>, at: nat, size: nat)
      reads this`begin, this`words, this`starts, this`current, words
    {
      && Snapshot().Tiles() && at == Used(starts) && current == at + size <= words.Length
      && FieldsValued(Snapshot(), foreign)
      && ForeignApart(foreign, begin, words.Length)
      && NoFlags()
      && forall i :: at <= i < current ==> words[i] == ZERO
    }

    /** gc_alloc_on_existing_heap. */
    method AllocOnExistingHeap(size: nat, ghost foreign: iset<nat>) returns (ok: bool, at: nat)
      requires Valid(foreign)
      modifies this`current, words
      ensures ok <==> old(current) + size <= words.Length
      ensures ok ==> Reserved(foreign, at, size)
      ensures SameUsed(old(Snapshot()), Snapshot())
      ensures !ok ==> Valid(foreign) && words[..] == old(words[..]) && current == old(current)
    {
      ok, at := current + size <= words.Length, current;
      if ok {
        ghost var g := Snapshot();
        current := current + size;
        forall i | at <= i < at + size {
          words[i] := ZERO;
        }
        SameUsedTiles(g, Snapshot());
        SameUsedFields(g, Snapshot(), foreign);
        forall k: nat ensures !Marked(words[..], starts, k) && !Enqueued(words[..], starts, k) {
          SameUsedFlags(g, Snapshot(), k);
        }
      }
    }

    /** alloc: reserves words, after a collection if the chunk is full. Every root keeps its value and
        what it reaches keeps its graph. After a collection at least as many words stay free as are live. */
    method Alloc(size: nat, place: nat -> nat, ghost foreign: iset<nat>) returns (at: nat, ghost ren: map<nat, nat>)
      requires Valid(foreign) && RootsValued(foreign) && FreshPlace(place, foreign)
      modifies this, words
      ensures Reserved(foreign, at, size) && RootsValued(foreign)
      ensures words == old(words) || fresh(words)
      ensures top == old(top) && bottom == old(bottom) && extraRoots == old(extraRoots)
      ensures Preserved(old(Snapshot()), Snapshot(), ren)
      ensures RootsRenamed(old(Snapshot()), Snapshot(), ren, old(memory), memory, FixedAddrs())
      ensures words.Length >= old(words.Length)
      ensures old(current) + size <= old(words.Length) ==>
                words == old(words) && memory == old(memory) && ren == Identity(old(Snapshot()))
      ensures old(current) + size > old(words.Length) ==>
                && words.Length >= MINIMUM_HEAP_CAPACITY && words.Length - current >= at
                && forall k: nat :: k in ren <==>
                     old(Reachable(words[..], starts, begin, Targets(memory, RootAddrs(), begin, starts), k))
    {
      hide Preserved, RootsRenamed, RootsHold, Reachable;
      ghost var g0 := Snapshot();
      var ok;
      ok, at := AllocOnExistingHeap(size, foreign);
      if ok {
        ren := Identity(g0);
        SettleInPlace(g0, foreign);
      } else {
        at, ren := GcAlloc(size, place, foreign);
      }
    }

    /** gc_alloc: a collection, after which the allocation succeeds. */
    method GcAlloc(size: nat, place: nat -> nat, ghost foreign: iset<nat>) returns (at: nat, ghost ren: map<nat, nat>)
      requires Valid(foreign) && RootsValued(foreign) && FreshPlace(place, foreign)
      modifies this, words
      ensures Reserved(foreign, at, size) && RootsValued(foreign)
      ensures fresh(words) && top == old(top) && bottom == old(bottom) && extraRoots == old(extraRoots)
      ensures Preserved(old(Snapshot()), Snapshot(), ren)
      ensures RootsRenamed(old(Snapshot()), Snapshot(), ren, old(memory), memory, FixedAddrs())
      ensures words.Length >= old(words.Length) && words.Length >= MINIMUM_HEAP_CAPACITY && words.Length - current >= at
      ensures forall k: nat :: k in ren <==>
                old(Reachable(words[..], starts, begin, Targets(memory, RootAddrs(), begin, starts), k))
    {
      hide Preserved, RootsRenamed, RootsHold, Reachable;
      ghost var g0, mem := Snapshot(), memory;
      ren := Collect(size, place, foreign);
      ghost var g := Snapshot();
      var ok;
      ok, at := AllocOnExistingHeap(size, foreign);
      Settle(g0, g, ren, mem, foreign);
    }

    lemma SettleInPlace(g0: Heap, foreign: iset<nat>)
      requires SameUsed(g0, Snapshot())
      requires RootsHold(g0, foreign, memory, RootAddrs(), FixedAddrs())
      ensures Preserved(g0, Snapshot(), Identity(g0))
      ensures RootsRenamed(g0, Snapshot(), Identity(g0), memory, memory, FixedAddrs())
      ensures RootsValued(foreign)
    {
      IdentityPreserves(g0, memory, FixedAddrs());
      Settle(g0, g0, Identity(g0), memory, foreign);
    }

    /** Reserving words changes nothing below them. */
    lemma Settle(g0: Heap, g: Heap, ren: map<nat, nat>, mem: map<nat, Word>, foreign: iset<nat>)
      requires SameUsed(g, Snapshot()) && Preserved(g0, g, ren)
      requires RootsRenamed(g0, g, ren, mem, memory, FixedAddrs())
      requires RootsHold(g, foreign, memory, RootAddrs(), FixedAddrs())
      ensures Preserved(g0, Snapshot(), ren)
      ensures RootsRenamed(g0, Snapshot(), ren, mem, memory, FixedAddrs())
      ensures RootsValued(foreign)
    {
      SameUsedKeeps(g0, g, Snapshot(), ren);
      SameUsedRoots(g0, g, Snapshot(), ren, mem, memory, FixedAddrs());
      SameUsedHold(g, Snapshot(), foreign, memory, RootAddrs(), FixedAddrs());
    }

    // Objects.

    /** `g` is the heap without its last object, which has header `h` and has been allocated at
        `at`; the fields of that object are still to be filled in. */
    ghost predicate Fresh(foreign: iset<nat>, g: Heap, at: nat, h: Word)
      reads this`begin, this`words, this`starts, this`current, words
    {
      NewLast(foreign, g, Snapshot(), at, h) && current == Used(starts)
    }

    /** alloc_string, alloc_array, alloc_sexp and alloc_closure. */
    method AllocObject(kind: Kind, len: nat, place: nat -> nat, ghost foreign: iset<nat>)
      returns (at: nat, ghost ren: map<nat, nat>, ghost g: Heap)
      requires Valid(foreign) && RootsValued(foreign) && FreshPlace(place, foreign)
      modifies this, words
      ensures words == old(words) || fresh(words)
      ensures top == old(top) && bottom == old(bottom) && extraRoots == old(extraRoots)
      ensures Fresh(foreign, g, at, MakeHeader(kind, len))
      ensures forall i :: at + 2 <= i < current ==> words[i] == ZERO
      ensures Preserved(old(Snapshot()), g, ren)
      ensures RootsRenamed(old(Snapshot()), g, ren, old(memory), memory, FixedAddrs())
      ensures RootsHold(g, foreign, memory, RootAddrs(), FixedAddrs())
    {
      hide Preserved, RootsRenamed, RootsHold, NewLast;
      var header := MakeHeader(kind, len);
      at, ren := Alloc(SizeInWords(header), place, foreign);
      g := Snapshot();
      PutHeader(at, header, foreign);
    }

    /** Turns reserved words into an object with zeroed contents. */
    method PutHeader(at: nat, header: Word, ghost foreign: iset<nat>)
      requires Reserved(foreign, at, Size(header)) && IsHeader(header)
      modifies this`starts, words
      ensures Fresh(foreign, old(Snapshot()), at, header)
      ensures forall i :: at + 2 <= i < current ==> words[i] == ZERO
    {
      ghost var g := Snapshot();
      words[at] := header;
      words[at + 1] := ZERO;
      starts := starts + [current];
      forall k: nat | k < Count(starts) ensures ObjAt(words[..], starts, k) {
        if k < Count(g.starts) {
          ObjectBounds(g.words, g.starts, k);
          assert starts[k] == g.starts[k] && starts[k + 1] == g.starts[k + 1];
        }
      }
    }

    /** The new object is finished: the heap is valid again, and roots and graph are what they were. */
    lemma ObjectDone(foreign: iset<nat>, g0: Heap, g: Heap, ren: map<nat, nat>, mem: map<nat, Word>, addrs: set<nat>,
                     at: nat, h: Word)
      requires Fresh(foreign, g, at, h)
      requires forall j :: at + FirstField(h) <= j < current ==> Valued(g, foreign, words[..][j])
      requires Preserved(g0, g, ren) && RootsRenamed(g0, g, ren, mem, memory, addrs)
      requires RootsHold(g, foreign, memory, RootAddrs(), FixedAddrs())
      ensures Valid(foreign) && RootsValued(foreign)
      ensures Preserved(g0, Snapshot(), ren)
      ensures RootsRenamed(g0, Snapshot(), ren, mem, memory, addrs)
      ensures Points(ContentPtr(begin, at), begin, starts, Count(starts) - 1)
      ensures Count(starts) - 1 !in ren.Values
    {
      LastFieldsValued(foreign, g, Snapshot(), at, h);
      forall k | k in ren ensures ren[k] < Count(g.starts) {
        assert ObjectKept(g0, g, ren, k);
      }
      ExtendedKeeps(g0, g, Snapshot(), ren);
      ExtendedRoots(g0, g, Snapshot(), ren, mem, memory, addrs);
      ExtendedHold(g, Snapshot(), foreign, memory, RootAddrs(), FixedAddrs());
    }

    // The pool of extra roots.

    /** push_extra_root: fails when the pool is full. */
    method PushExtraRoot(p: nat) returns (ok: bool)
      modifies this`extraRoots
      ensures ok <==> |old(extraRoots)| < MAX_EXTRA_ROOTS_NUMBER
      ensures extraRoots == if ok then old(extraRoots) + [p] else old(extraRoots)
    {
      ok := |extraRoots| < MAX_EXTRA_ROOTS_NUMBER;
      if ok {
        extraRoots := extraRoots + [p];
      }
    }

    /** pop_extra_root: fails unless `p` was the last one pushed. */
    method PopExtraRoot(p: nat) returns (ok: bool)
      modifies this`extraRoots
      ensures ok <==> old(extraRoots) != [] && old(extraRoots)[|old(extraRoots)| - 1] == p
      ensures old(extraRoots) != [] ==> extraRoots == old(extraRoots)[..|old(extraRoots)| - 1]
      ensures old(extraRoots) == [] ==> extraRoots == []
    {
      if extraRoots == [] {
        return false;
      }
      ok := extraRoots[|extraRoots| - 1] == p;
      extraRoots := extraRoots[..|extraRoots| - 1];
    }
  }
}
