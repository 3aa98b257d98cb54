/** The object graph, reachability, and the in-heap mark queue. */
module Marking {
  import opened Words
  import opened HeapLayout

  /** Some scanned field of object `k` points to object `l`. */
  ghost predicate Edge(m: seq<Word>, s: seq<nat>, base: nat, k: nat, l: nat)
    requires |s| > 0
  {
    exists j :: FieldAt(m, s, k, j) && Points(m[j], base, s, l)
  }

  /** Object `k` can be reached from one of `roots` along `d` pointer fields. */
  ghost predicate ReachIn(m: seq<Word>, s: seq<nat>, base: nat, roots: set<nat>, k: nat, d: nat)
    requires |s| > 0
    decreases d
  {
    if d == 0 then k in roots && k < Count(s)
    else exists x: nat :: ReachIn(m, s, base, roots, x, d - 1) && Edge(m, s, base, x, k)
  }

  ghost predicate Reachable(m: seq<Word>, s: seq<nat>, base: nat, roots: set<nat>, k: nat)
    requires |s| > 0
  {
    exists d: nat :: ReachIn(m, s, base, roots, k, d)
  }

  lemma ReachStep(m: seq<Word>, s: seq<nat>, base: nat, roots: set<nat>, x: nat, k: nat)
    requires |s| > 0 && Reachable(m, s, base, roots, x) && Edge(m, s, base, x, k)
    ensures Reachable(m, s, base, roots, k)
  {
    var d: nat :| ReachIn(m, s, base, roots, x, d);
    assert ReachIn(m, s, base, roots, k, d + 1);
  }

  lemma ReachRoot(m: seq<Word>, s: seq<nat>, base: nat, roots: set<nat>, k: nat)
    requires |s| > 0 && k in roots && k < Count(s)
    ensures Reachable(m, s, base, roots, k)
  {
    assert ReachIn(m, s, base, roots, k, 0);
  }

  lemma EdgesIgnoreForwards(m: seq<Word>, m': seq<Word>, s: seq<nat>, base: nat, k: nat, l: nat)
    requires Tiled(m, s) && SameButForwards(m, m', s)
    ensures Edge(m, s, base, k, l) <==> Edge(m', s, base, k, l)
  {
    forall j { FieldsIgnoreForwards(m, m', s, k, j); }
  }

  // The flags of object k.

  ghost predicate Marked(m: seq<Word>, s: seq<nat>, k: nat)
    requires |s| > 0
  {
    k < Count(s) && s[k] + 1 < |m| && GetMarkBit(m[s[k] + 1])
  }

  ghost predicate Enqueued(m: seq<Word>, s: seq<nat>, k: nat)
    requires |s| > 0
  {
    k < Count(s) && s[k] + 1 < |m| && IsEnqueued(m[s[k] + 1])
  }

  /** Whatever a marked object points to is marked. */
  ghost predicate MarksClosed(m: seq<Word>, s: seq<nat>, base: nat)
    requires |s| > 0
  {
    forall k: nat, l: nat :: Marked(m, s, k) && Edge(m, s, base, k, l) ==> Marked(m, s, l)
  }

  ghost predicate MarksReachable(m: seq<Word>, s: seq<nat>, base: nat, roots: set<nat>)
    requires |s| > 0
  {
    forall k: nat :: Marked(m, s, k) ==> Reachable(m, s, base, roots, k)
  }

  ghost predicate NoneEnqueued(m: seq<Word>, s: seq<nat>)
    requires |s| > 0
  {
    forall k: nat :: !Enqueued(m, s, k)
  }

  /** A closed set of marks that holds the roots holds everything reachable. */
  lemma {:induction false} ClosedHoldsReachable(m: seq<Word>, s: seq<nat>, base: nat, roots: set<nat>, k: nat, d: nat)
    requires |s| > 0 && MarksClosed(m, s, base)
    requires forall r: nat :: r in roots && r < Count(s) ==> Marked(m, s, r)
    requires ReachIn(m, s, base, roots, k, d)
    ensures Marked(m, s, k)
    decreases d
  {
    hide Marked, Edge;
    if d > 0 {
      var x: nat :| ReachIn(m, s, base, roots, x, d - 1) && Edge(m, s, base, x, k);
      ClosedHoldsReachable(m, s, base, roots, x, d - 1);
    }
  }

  // The queue of one call of mark. `order` lists the objects enqueued so far, by tiling index;
  // the entry order[k] is written in the forward word of object k.

  ghost predicate Distinct(order: seq<nat>, n: nat) {
    && (forall a :: 0 <= a < |order| ==> order[a] < n)
    && (forall a, b :: 0 <= a < b < |order| ==> order[a] != order[b])
  }

  lemma {:induction false} Pigeonhole(order: seq<nat>, n: nat)
    requires Distinct(order, n)
    ensures |order| <= n
    decreases n
  {
    if order == [] {
    } else if i :| 0 <= i < |order| && order[i] == n - 1 {
      var rest := order[..i] + order[i + 1..];
      assert forall a :: 0 <= a < |rest| ==> rest[a] == if a < i then order[a] else order[a + 1];
      Pigeonhole(rest, n - 1);
    } else {
      assert order[0] < n;
      Pigeonhole(order, n - 1);
    }
  }

  ghost predicate Seen(m0: seq<Word>, s: seq<nat>, order: seq<nat>, l: nat)
    requires |s| > 0
  {
    Marked(m0, s, l) || l in order
  }

  /** Memory `m` holds the queue: `m0` is the memory before the call, the entries before `head`
      have been taken out and marked, the others wait in the forward words head, head + 1, ... */
  ghost predicate Queue(m0: seq<Word>, m: seq<Word>, s: seq<nat>, base: nat, order: seq<nat>, head: nat) {
    && Tiled(m0, s)
    && SameButForwards(m0, m, s)
    && head <= |order|
    && Distinct(order, Count(s))
    && (forall a :: 0 <= a < |order| ==> !Marked(m0, s, order[a]))
    && (forall k :: head <= k < |order| && k < Count(s) && s[k] + 1 < |m| ==>
          GetForwardAddress(m[s[k] + 1]) == ContentPtr(base, s[order[k]]))
    && (forall x: nat :: Marked(m, s, x) <==> Marked(m0, s, x) || x in order[..head])
    && (forall x: nat :: Enqueued(m, s, x) <==> x in order[head..])
  }

  lemma EmptyQueue(m: seq<Word>, s: seq<nat>, base: nat)
    requires Tiled(m, s) && NoneEnqueued(m, s)
    ensures Queue(m, m, s, base, [], 0)
  {
  }

  /** There is a free slot for an object not seen before. */
  lemma RoomInQueue(m0: seq<Word>, m: seq<Word>, s: seq<nat>, base: nat, order: seq<nat>, head: nat, y: nat)
    requires Queue(m0, m, s, base, order, head)
    requires y < Count(s) && y !in order
    ensures |order| < Count(s)
    ensures s[|order|] + 1 < |m|
  {
    Pigeonhole(order + [y], Count(s));
    TiledPair(m0, s, |order|, |s| - 1);
  }

  function AfterEnqueue(m: seq<Word>, tail: nat, obj: nat, ptr: Word): seq<Word>
    requires tail < |m| && obj < |m|
  {
    var m1 := m[tail := SetForwardAddress(m[tail], ptr)];
    m1[obj := MakeEnqueued(m1[obj])]
  }

  lemma EnqueueFlags(m: seq<Word>, m': seq<Word>, s: seq<nat>, t: nat, y: nat, ptr: Word, x: nat)
    requires Tiled(m, s) && t < Count(s) && y < Count(s)
    requires s[t] + 1 < |m| && s[y] + 1 < |m|
    requires !ptr.b1 && !ptr.b0
    requires m' == AfterEnqueue(m, s[t] + 1, s[y] + 1, ptr)
    ensures Marked(m', s, x) <==> Marked(m, s, x)
    ensures Enqueued(m', s, x) <==> Enqueued(m, s, x) || x == y
  {
    TiledAscending(m, s);
  }

  /** The forward words after an enqueue. */
  lemma EnqueueSlot(m: seq<Word>, s: seq<nat>, t: nat, y: nat, ptr: Word, k: nat)
    requires |s| > 0 && Ascending(s) && t < Count(s) && y < Count(s) && k <= t && s[k] + 1 < |m|
    requires s[t] + 1 < |m| && s[y] + 1 < |m| && !ptr.b1 && !ptr.b0
    ensures GetForwardAddress(AfterEnqueue(m, s[t] + 1, s[y] + 1, ptr)[s[k] + 1]) == if k == t then ptr
            else GetForwardAddress(m[s[k] + 1])
  {
    if k < t {
      assert s[k] + 2 <= s[t];
    }
  }

  lemma EnqueueSame(m0: seq<Word>, m: seq<Word>, s: seq<nat>, t: nat, y: nat, ptr: Word)
    requires |s| > 0 && SameButForwards(m0, m, s) && t < Count(s) && y < Count(s) && s[t] + 1 < |m| && s[y] + 1 < |m|
    ensures SameButForwards(m0, AfterEnqueue(m, s[t] + 1, s[y] + 1, ptr), s)
  {
    assert s[t] + 1 in Forwards(s) && s[y] + 1 in Forwards(s);
  }

  /** Enqueueing an object not seen before appends it: no waiting entry is overwritten. */
  lemma EnqueueKeepsQueue(m0: seq<Word>, m: seq<Word>, s: seq<nat>, base: nat, order: seq<nat>, head: nat, y: nat)
    requires Queue(m0, m, s, base, order, head)
    requires y < Count(s) && !Seen(m0, s, order, y)
    requires |order| < Count(s) && s[|order|] + 1 < |m| && s[y] + 1 < |m|
    ensures Queue(m0, AfterEnqueue(m, s[|order|] + 1, s[y] + 1, ContentPtr(base, s[y])), s, base, order + [y], head)
  {
    hide Marked, Enqueued, AfterEnqueue, Tiled, SameButForwards, GetForwardAddress;
    var t := |order|;
    var ptr := ContentPtr(base, s[y]);
    var m' := AfterEnqueue(m, s[t] + 1, s[y] + 1, ptr);
    var order' := order + [y];
    TilingIgnoresForwards(m0, m, s);
    TiledAscending(m0, s);
    EnqueueSame(m0, m, s, t, y, ptr);
    forall x: nat
      ensures Marked(m', s, x) <==> Marked(m, s, x)
      ensures Enqueued(m', s, x) <==> Enqueued(m, s, x) || x == y
    {
      EnqueueFlags(m, m', s, t, y, ptr, x);
    }
    assert order'[..head] == order[..head];
    assert order'[head..] == order[head..] + [y];
    forall k | head <= k < |order'| && k < Count(s) && s[k] + 1 < |m'|
      ensures GetForwardAddress(m'[s[k] + 1]) == ContentPtr(base, s[order'[k]])
    {
      EnqueueSlot(m, s, t, y, ptr, k);
    }
  }

  function AfterDequeue(m: seq<Word>, obj: nat): seq<Word>
    requires obj < |m|
  {
    m[obj := SetMarkBit(MakeDequeued(m[obj]))]
  }

  /** Its flags, and nobody else's, change. */
  lemma DequeueFlags(m: seq<Word>, s: seq<nat>, y: nat, x: nat)
    requires |s| > 0 && Ascending(s) && y < Count(s) && s[y] + 1 < |m|
    ensures Marked(AfterDequeue(m, s[y] + 1), s, x) <==> Marked(m, s, x) || x == y
    ensures Enqueued(AfterDequeue(m, s[y] + 1), s, x) <==> Enqueued(m, s, x) && x != y
  {
  }

  /** Taking the oldest entry out and marking it. */
  lemma DequeueKeepsQueue(m0: seq<Word>, m: seq<Word>, s: seq<nat>, base: nat, order: seq<nat>, head: nat)
    requires Queue(m0, m, s, base, order, head)
    requires head < |order| && s[order[head]] + 1 < |m|
    ensures Queue(m0, AfterDequeue(m, s[order[head]] + 1), s, base, order, head + 1)
  {
    var y := order[head];
    var m' := AfterDequeue(m, s[y] + 1);
    TiledAscending(m0, s);
    assert order[..head + 1] == order[..head] + [y];
    assert order[head..] == [y] + order[head + 1..];
    assert y !in order[head + 1..];
    assert s[y] + 1 in Forwards(s);
    forall k | head + 1 <= k < |order| && k < Count(s) && s[k] + 1 < |m'|
      ensures GetForwardAddress(m'[s[k] + 1]) == ContentPtr(base, s[order[k]])
    {
    }
    hide Marked, Enqueued, AfterDequeue, Tiled;
    forall x: nat
      ensures Marked(m', s, x) <==> Marked(m, s, x) || x == y
      ensures Enqueued(m', s, x) <==> Enqueued(m, s, x) && x != y
    {
      DequeueFlags(m, s, y, x);
    }
  }

  /** The flag bits say exactly which objects have been seen. */
  lemma FlagsOfSeen(m0: seq<Word>, m: seq<Word>, s: seq<nat>, base: nat, order: seq<nat>, head: nat, y: nat)
    requires Queue(m0, m, s, base, order, head)
    ensures Seen(m0, s, order, y) <==> Marked(m, s, y) || Enqueued(m, s, y)
  {
    assert order == order[..head] + order[head..];
  }

  /** The objects that fields of `x` before offset `f` point to have been seen. */
  ghost predicate FieldsDone(m0: seq<Word>, s: seq<nat>, base: nat, order: seq<nat>, x: nat, f: nat)
    requires |s| > 0
  {
    forall j: int, l: nat :: FieldAt(m0, s, x, j) && j < f && Points(m0[j], base, s, l) ==> Seen(m0, s, order, l)
  }

  lemma SkipUnboxed(m0: seq<Word>, s: seq<nat>, base: nat, order: seq<nat>, x: nat, f: nat, f': nat)
    requires |s| > 0 && FieldsDone(m0, s, base, order, x, f)
    requires forall j :: FieldAt(m0, s, x, j) && f <= j < f' ==> Unboxed(m0[j])
    ensures FieldsDone(m0, s, base, order, x, f')
  {
  }

  lemma OneFieldDone(m0: seq<Word>, s: seq<nat>, base: nat, order: seq<nat>, order': seq<nat>, x: nat, f: nat)
    requires Tiled(m0, s) && FieldsDone(m0, s, base, order, x, f) && order <= order'
    requires FieldAt(m0, s, x, f) && Aimed(m0[f], base, s)
    requires InRange(m0[f], base, Used(s)) ==> Seen(m0, s, order', TargetOf(m0[f], base, s))
    ensures FieldsDone(m0, s, base, order', x, f + 1)
  {
    forall j: int, l: nat | FieldAt(m0, s, x, j) && j < f + 1 && Points(m0[j], base, s, l)
      ensures Seen(m0, s, order', l)
    {
      if j < f {
        assert Seen(m0, s, order, l);
      } else {
        PointerInRange(m0, s, base, m0[f], l);
        PointsUnique(m0, s, base, m0[f], l, TargetOf(m0[f], base, s));
      }
    }
  }

  /** The first `n` objects taken from the queue have had all their fields followed. */
  ghost predicate Followed(m0: seq<Word>, s: seq<nat>, base: nat, order: seq<nat>, n: nat)
    requires |s| > 0
  {
    forall a: nat, l: nat :: 0 <= a < n && a < |order| && Edge(m0, s, base, order[a], l) ==> Seen(m0, s, order, l)
  }

  ghost predicate AllReachable(m0: seq<Word>, s: seq<nat>, base: nat, roots: set<nat>, order: seq<nat>)
    requires |s| > 0
  {
    forall a :: 0 <= a < |order| ==> Reachable(m0, s, base, roots, order[a])
  }

  /** What holds each time round the loop of mark. */
  ghost predicate Draining(m0: seq<Word>, m: seq<Word>, s: seq<nat>, base: nat, roots: set<nat>, order: seq<nat>,
                           h: nat) {
    && Queue(m0, m, s, base, order, h)
    && Followed(m0, s, base, order, h)
    && AllReachable(m0, s, base, roots, order)
  }

  lemma {:induction false} ReachIgnoresForwards(m: seq<Word>, m': seq<Word>, s: seq<nat>, base: nat, roots: set<nat>,
                                                k: nat, d: nat)
    requires Tiled(m, s) && SameButForwards(m, m', s)
    requires ReachIn(m, s, base, roots, k, d)
    ensures ReachIn(m', s, base, roots, k, d)
    decreases d
  {
    if d > 0 {
      var x: nat :| ReachIn(m, s, base, roots, x, d - 1) && Edge(m, s, base, x, k);
      ReachIgnoresForwards(m, m', s, base, roots, x, d - 1);
      EdgesIgnoreForwards(m, m', s, base, x, k);
    }
  }

  /** An emptied queue leaves a closed set of reachable marks and no enqueued bit. */
  lemma MarkingDone(m0: seq<Word>, m: seq<Word>, s: seq<nat>, base: nat, roots: set<nat>, order: seq<nat>)
    requires Queue(m0, m, s, base, order, |order|)
    requires Followed(m0, s, base, order, |order|)
    requires AllReachable(m0, s, base, roots, order)
    requires MarksClosed(m0, s, base) && MarksReachable(m0, s, base, roots)
    ensures MarksClosed(m, s, base) && MarksReachable(m, s, base, roots) && NoneEnqueued(m, s)
    ensures forall k: nat :: Marked(m, s, k) <==> Marked(m0, s, k) || k in order
  {
    assert order[..|order|] == order;
    assert order[|order|..] == [];
    forall k: nat, l: nat | Marked(m, s, k) && Edge(m, s, base, k, l) ensures Marked(m, s, l) {
      EdgesIgnoreForwards(m0, m, s, base, k, l);
      TiledPair(m0, s, l, |s| - 1);
      assert Marked(m0, s, k) || k in order;
      if k in order {
        var a :| 0 <= a < |order| && order[a] == k;
        assert Edge(m0, s, base, order[a], l);
      }
      assert Seen(m0, s, order, l);
    }
    forall k: nat | Marked(m, s, k) ensures Reachable(m, s, base, roots, k) {
      var d: nat :| ReachIn(m0, s, base, roots, k, d);
      ReachIgnoresForwards(m0, m, s, base, roots, k, d);
    }
  }

  ghost predicate MarksGrow(m: seq<Word>, m': seq<Word>, s: seq<nat>)
    requires |s| > 0
  {
    forall k: nat :: Marked(m, s, k) ==> Marked(m', s, k)
  }

  // The roots.

  ghost predicate HasRoot(memory: map<nat, Word>, addrs: set<nat>, base: nat, s: seq<nat>, k: nat)
    requires |s| > 0
  {
    exists p :: p in addrs && p in memory && Points(memory[p], base, s, k)
  }

  /** The objects that the words at `addrs` point to. */
  ghost function Targets(memory: map<nat, Word>, addrs: set<nat>, base: nat, s: seq<nat>): set<nat>
    requires |s| > 0
  {
    set k | 0 <= k < Count(s) && HasRoot(memory, addrs, base, s, k)
  }

  ghost predicate RootsAimed(memory: map<nat, Word>, addrs: set<nat>, base: nat, s: seq<nat>)
    requires |s| > 0
  {
    forall p :: p in addrs ==> p in memory && Aimed(memory[p], base, s)
  }

  /** The objects that the words at `addrs` point to are marked. */
  ghost predicate TargetsMarked(m: seq<Word>, memory: map<nat, Word>, addrs: set<nat>, base: nat, s: seq<nat>)
    requires |s| > 0
  {
    forall k: nat :: k in Targets(memory, addrs, base, s) ==> Marked(m, s, k)
  }

  lemma OneMoreRoot(m: seq<Word>, m': seq<Word>, memory: map<nat, Word>, addrs: set<nat>, p: nat, base: nat,
                    s: seq<nat>)
    requires Tiled(m, s) && p in memory
    requires TargetsMarked(m, memory, addrs, base, s) && MarksGrow(m, m', s)
    requires forall k: nat :: Points(memory[p], base, s, k) ==> Marked(m', s, k)
    ensures TargetsMarked(m', memory, addrs + {p}, base, s)
  {
  }

  /** The state between two calls of mark. */
  ghost predicate MarkState(m: seq<Word>, s: seq<nat>, base: nat, roots: set<nat>) {
    && Tiled(m, s)
    && FieldsAimed(m, s, base)
    && MarksClosed(m, s, base)
    && MarksReachable(m, s, base, roots)
    && NoneEnqueued(m, s)
  }

  /** Once the roots are marked, the marks are exactly the reachable objects. */
  lemma MarksExact(m0: seq<Word>, m: seq<Word>, s: seq<nat>, base: nat, roots: set<nat>, k: nat)
    requires Tiled(m0, s) && SameButForwards(m0, m, s) && MarkState(m, s, base, roots)
    requires forall r: nat :: r in roots && r < Count(s) ==> Marked(m, s, r)
    ensures Marked(m, s, k) <==> Reachable(m0, s, base, roots, k)
  {
    if Marked(m, s, k) {
      var d: nat :| ReachIn(m, s, base, roots, k, d);
      ReachIgnoresForwards(m, m0, s, base, roots, k, d);
    }
    if Reachable(m0, s, base, roots, k) {
      var d: nat :| ReachIn(m0, s, base, roots, k, d);
      ReachIgnoresForwards(m0, m, s, base, roots, k, d);
      ClosedHoldsReachable(m, s, base, roots, k, d);
    }
  }
}
