/** The analyzer's traversal: two searches of the code with three flag bits per offset. */
module Analyzer {
  import opened Bytecode
  import opened Counting
  import opened Verifier

  /** The bits 1, 2 and 4: taken by analyze, a label, found by collect_marks. */
  datatype Flags = Flags(taken: bool, labelled: bool, marked: bool)

  predicate HasTarget(op: Op) {
    op == JMP || op == CJMPz || op == CJMPnz || op == CALL || op == CLOSURE
  }

  predicate Falls(op: Op) {
    op != RET && op != END && op != JMP && op != FAIL
  }

  predicate FallsTo(code: seq<Byte>, i: nat, x: nat) {
    Decode(code, i).Instr? && Falls(Decode(code, i).op) && Decode(code, i).next == x
  }

  predicate Targets(code: seq<Byte>, i: nat, x: nat) {
    Decode(code, i).Instr? && HasTarget(Decode(code, i).op) && i + 5 <= |code| && Arg(code, i, 0) == x
  }

  predicate Edge(code: seq<Byte>, i: nat, x: nat) {
    FallsTo(code, i, x) || Targets(code, i, x)
  }

  /** A set of offsets that has the public symbols and everything that its instructions lead to. */
  ghost predicate Closed(code: seq<Byte>, publics: seq<int>, s: iset<nat>) {
    && (forall e: nat :: e in publics ==> e in s)
    && forall i: nat, x: nat :: i in s && Edge(code, i, x) ==> x in s
  }

  /** The offsets reachable from the public symbols. */
  ghost predicate Reachable(code: seq<Byte>, publics: seq<int>, i: nat) {
    forall s: iset<nat> :: Closed(code, publics, s) ==> i in s
  }

  // collect_marks.

  /** Everything that a marked offset leads to is marked, and a target is a label. collect_marks goes on
      after every instruction but JMP, up to a byte 0xFF. */
  ghost predicate Followed(code: seq<Byte>, f: seq<Flags>, i: nat)
    requires i < |f| == |code|
  {
    code[i] != 0xFF ==>
      var dec := Decode(code, i);
      && dec.Instr?
      && (HasTarget(dec.op) ==> i + 5 <= |code| && Arg(code, i, 0) < |f| && f[Arg(code, i, 0)].labelled)
      && (dec.op != JMP ==> dec.next < |f| && f[dec.next].marked)
  }

  ghost predicate Clean(f: seq<Flags>) {
    forall i: nat :: i < |f| ==> !f[i].taken && (f[i].labelled ==> f[i].marked)
  }

  ghost predicate PublicsMarked(publics: seq<int>, f: seq<Flags>) {
    forall e :: e in publics ==> 0 <= e < |f| && f[e].labelled
  }

  ghost predicate Marking(code: seq<Byte>, f: seq<Flags>, q: seq<nat>) {
    && |f| == |code|
    && Clean(f)
    && (forall i :: i in q ==> i < |f| && f[i].marked)
    && forall i: nat :: i < |f| && f[i].marked && i !in q ==> Followed(code, f, i)
  }

  /** What collect_marks establishes. */
  ghost predicate Marks(code: seq<Byte>, publics: seq<int>, f: seq<Flags>) {
    Marking(code, f, []) && PublicsMarked(publics, f)
  }

  function ClearBits(f: seq<Flags>): nat {
    if f == [] then 0
    else ClearBits(f[..|f| - 1]) + (if f[|f| - 1].labelled then 0 else 1) + (if f[|f| - 1].marked then 0 else 1)
  }

  function Bits(g: Flags): nat {
    (if g.labelled then 0 else 1) + (if g.marked then 0 else 1)
  }

  lemma {:induction false} ClearOne(f: seq<Flags>, i: nat, g: Flags)
    requires i < |f|
    ensures ClearBits(f[i := g]) + Bits(f[i]) == ClearBits(f) + Bits(g)
  {
    var n := |f| - 1;
    if i < n {
      assert f[i := g][..n] == f[..n][i := g];
      ClearOne(f[..n], i, g);
    } else {
      assert f[i := g][..n] == f[..n];
    }
  }

  /** `g` has every bit that `f` has. */
  ghost predicate MoreMarks(f: seq<Flags>, g: seq<Flags>) {
    |g| == |f| && forall i: nat :: i < |f| ==> (f[i].labelled ==> g[i].labelled) && (f[i].marked ==> g[i].marked)
  }

  lemma FollowedGrows(code: seq<Byte>, f: seq<Flags>, g: seq<Flags>, i: nat)
    requires i < |f| == |code| && MoreMarks(f, g) && Followed(code, f, i)
    ensures Followed(code, g, i)
  {
  }

  /** Setting bits at an offset that joins the queue. */
  lemma MarkOne(code: seq<Byte>, f: seq<Flags>, q: seq<nat>, x: nat, isLabel: bool)
    requires Marking(code, f, q) && x < |f|
    ensures Marking(code, f[x := f[x].(labelled := isLabel || f[x].labelled, marked := true)], q + [x])
    ensures MoreMarks(f, f[x := f[x].(labelled := isLabel || f[x].labelled, marked := true)])
  {
    var g := f[x := f[x].(labelled := isLabel || f[x].labelled, marked := true)];
    forall i: nat | i < |g| && g[i].marked && i !in q + [x] ensures Followed(code, g, i) {
      FollowedGrows(code, f, g, i);
    }
  }

  lemma MarkedDone(code: seq<Byte>, f: seq<Flags>, i: nat, q: seq<nat>)
    requires Marking(code, f, [i] + q) && i < |f| && Followed(code, f, i)
    ensures Marking(code, f, q)
  {
    forall j: nat | j < |f| && f[j].marked && j !in q ensures Followed(code, f, j) {
      if j != i {
        assert j !in [i] + q;
      }
    }
    forall j | j in q ensures j < |f| && f[j].marked {
      assert j in [i] + q;
    }
  }

  /** What collect_marks goes to from the instruction at `i`. */
  predicate MarkEdge(code: seq<Byte>, i: nat, x: nat) {
    && i < |code| && code[i] != 0xFF && Decode(code, i).Instr?
    && var dec := Decode(code, i);
       (HasTarget(dec.op) && i + 5 <= |code| && Arg(code, i, 0) == x) || (dec.op != JMP && dec.next == x)
  }

  ghost predicate MarkClosed(code: seq<Byte>, publics: seq<int>, s: iset<nat>) {
    && (forall e: nat :: e in publics ==> e in s)
    && forall i: nat, x: nat :: i in s && MarkEdge(code, i, x) ==> x in s
  }

  /** The offsets that collect_marks is led to from the public symbols. */
  ghost predicate Led(code: seq<Byte>, publics: seq<int>, i: nat) {
    forall s: iset<nat> :: MarkClosed(code, publics, s) ==> i in s
  }

  ghost predicate OnlyLed(code: seq<Byte>, publics: seq<int>, f: seq<Flags>) {
    forall i: nat :: i < |f| && f[i].marked ==> Led(code, publics, i)
  }

  /** collect_marks gets past the offset: it is the marker 0xFF, or an instruction whose bytes and target are
      inside of the code. */
  predicate Walkable(code: seq<Byte>, i: nat) {
    && i < |code|
    && (code[i] != 0xFF ==>
          var dec := Decode(code, i);
          dec.Instr? && (HasTarget(dec.op) ==> i + 5 <= |code| && Arg(code, i, 0) < |code|))
  }

  ghost predicate PublicsInside(code: seq<Byte>, publics: seq<int>) {
    forall e :: e in publics ==> 0 <= e < |code|
  }

  /** Every offset that the search is led to can be walked over. */
  ghost predicate AllWalkable(code: seq<Byte>, publics: seq<int>) {
    PublicsInside(code, publics) && forall i: nat :: Led(code, publics, i) ==> Walkable(code, i)
  }

  /** The search is led to a byte that is no instruction. */
  ghost predicate LedToUnknown(code: seq<Byte>, publics: seq<int>) {
    exists i: nat :: Led(code, publics, i) && IsUnknown(code, i)
  }

  predicate IsUnknown(code: seq<Byte>, i: nat) {
    i < |code| && code[i] != 0xFF && OpOf(code[i]) == UNKNOWN
  }

  lemma PublicLed(code: seq<Byte>, publics: seq<int>, e: nat)
    requires e in publics
    ensures Led(code, publics, e)
  {
  }

  /** An offset that is left outside of the code, or that does not decode. */
  lemma NotWalkable(code: seq<Byte>, publics: seq<int>, i: nat)
    requires Led(code, publics, i) && !Walkable(code, i)
    ensures !AllWalkable(code, publics)
  {
    hide Led, Walkable;
  }

  lemma LedTargetOutside(code: seq<Byte>, publics: seq<int>, i: nat)
    requires Led(code, publics, i) && i < |code| && code[i] != 0xFF && Decode(code, i).Instr?
    requires HasTarget(Decode(code, i).op)
    requires i + 5 > |code| || Arg(code, i, 0) >= |code|
    ensures !AllWalkable(code, publics)
  {
    hide Led;
    NotWalkable(code, publics, i);
  }

  lemma LedNextOutside(code: seq<Byte>, publics: seq<int>, i: nat)
    requires Led(code, publics, i) && i < |code| && code[i] != 0xFF && Decode(code, i).Instr?
    requires Decode(code, i).op != JMP && Decode(code, i).next >= |code|
    ensures !AllWalkable(code, publics)
  {
    hide Led;
    LedNext(code, publics, i);
    NotWalkable(code, publics, Decode(code, i).next);
  }

  lemma Undecoded(code: seq<Byte>, publics: seq<int>, i: nat)
    requires Led(code, publics, i) && i < |code| && code[i] != 0xFF && !Decode(code, i).Instr?
    ensures !AllWalkable(code, publics)
    ensures Decode(code, i).BadOpcode? ==> LedToUnknown(code, publics)
  {
    hide Led;
    NotWalkable(code, publics, i);
    if Decode(code, i).BadOpcode? {
      assert IsUnknown(code, i);
    }
  }

  lemma LedOn(code: seq<Byte>, publics: seq<int>, i: nat, x: nat)
    requires Led(code, publics, i) && MarkEdge(code, i, x)
    ensures Led(code, publics, x)
  {
    forall s: iset<nat> | MarkClosed(code, publics, s) ensures x in s {
      assert i in s;
    }
  }

  lemma LedTarget(code: seq<Byte>, publics: seq<int>, i: nat)
    requires Led(code, publics, i) && i + 5 <= |code| && code[i] != 0xFF && Decode(code, i).Instr?
    requires HasTarget(Decode(code, i).op)
    ensures Led(code, publics, Arg(code, i, 0))
  {
    hide Led, U32, Decode;
    LedOn(code, publics, i, Arg(code, i, 0));
  }

  lemma LedNext(code: seq<Byte>, publics: seq<int>, i: nat)
    requires Led(code, publics, i) && i < |code| && code[i] != 0xFF && Decode(code, i).Instr?
    requires Decode(code, i).op != JMP
    ensures Led(code, publics, Decode(code, i).next)
  {
    hide Led, U32, Decode;
    LedOn(code, publics, i, Decode(code, i).next);
  }

  lemma FollowedHere(code: seq<Byte>, f: seq<Flags>, i: nat)
    requires i < |f| == |code|
    requires code[i] != 0xFF ==>
               var dec := Decode(code, i);
               && dec.Instr?
               && (HasTarget(dec.op) ==> i + 5 <= |code| && Arg(code, i, 0) < |f| && f[Arg(code, i, 0)].labelled)
               && (dec.op != JMP ==> dec.next < |f| && f[dec.next].marked)
    ensures Followed(code, f, i)
  {
    hide Decode, U32;
  }

  /** Marked are exactly those. */
  lemma MarkedIfLed(code: seq<Byte>, publics: seq<int>, f: seq<Flags>)
    requires Marks(code, publics, f) && OnlyLed(code, publics, f)
    ensures forall i: nat :: i < |f| && f[i].marked <==> Led(code, publics, i)
    ensures AllWalkable(code, publics)
  {
    MarkedAreLed(code, publics, f);
    forall i: nat | Led(code, publics, i) ensures Walkable(code, i) {
      assert i < |f| && f[i].marked;
      assert Followed(code, f, i);
    }
  }

  lemma MarkedAreLed(code: seq<Byte>, publics: seq<int>, f: seq<Flags>)
    requires Marks(code, publics, f) && OnlyLed(code, publics, f)
    ensures forall i: nat :: i < |f| && f[i].marked <==> Led(code, publics, i)
  {
    var s := iset i: nat | i < |f| && f[i].marked;
    assert MarkClosed(code, publics, s) by {
      forall i: nat, x: nat | i in s && MarkEdge(code, i, x) ensures x in s {
        assert Followed(code, f, i);
      }
    }
  }

  // analyze.

  /** The lists without duplicates. */
  ghost predicate Distinct(s: seq<nat>) {
    forall j, k :: 0 <= j < k < |s| ==> s[j] != s[k]
  }

  lemma {:induction false} DistinctBound(s: seq<nat>, n: nat)
    requires Distinct(s) && forall x :: x in s ==> x < n
    ensures |s| <= n
    decreases n
  {
    if s != [] {
      assert s[0] in s;
      var m: nat := n - 1;
      if m in s {
        var k :| 0 <= k < |s| && s[k] == m;
        var t := s[..k] + s[k + 1..];
        forall x | x in t ensures x < m {
          assert x in s && x != m;
        }
        DistinctBound(t, m);
      } else {
        DistinctBound(s, m);
      }
    }
  }

  /** No two collected instructions fall through to the same offset, unless it is a label. */
  ghost predicate NoClash(code: seq<Byte>, f: seq<Flags>, single: seq<nat>) {
    forall i, j, x: nat ::
      i in single && j in single && FallsTo(code, i, x) && FallsTo(code, j, x) && x < |f| && !f[x].labelled ==> i == j
  }

  ghost predicate EdgesTaken(code: seq<Byte>, f: seq<Flags>, i: nat) {
    Decode(code, i).Instr? && forall x: nat :: Edge(code, i, x) ==> x < |f| && f[x].taken
  }

  ghost predicate Entered(code: seq<Byte>, single: seq<nat>, x: nat) {
    exists i :: i in single && FallsTo(code, i, x)
  }

  /** `single` has the offsets that have been added and `pending` the other ones that are taken. The
      instruction at `busy` has been added, but what it leads to may not be taken yet. */
  ghost predicate Taking(code: seq<Byte>, publics: seq<int>, f: seq<Flags>, single: seq<nat>, pending: seq<nat>,
                         busy: int) {
    && Marks(code, publics, Untaken(f))
    && Distinct(single + pending)
    && (forall i: nat :: i < |f| ==> (f[i].taken <==> i in single || i in pending))
    && (forall i :: i in single + pending ==> i < |f| && f[i].marked && Reachable(code, publics, i))
    && (forall i :: i in single && i != busy ==> EdgesTaken(code, f, i))
    && forall x: nat :: x < |f| && f[x].taken && !f[x].labelled ==> Entered(code, single, x)
  }

  /** The flags before analyze. */
  ghost function Untaken(f: seq<Flags>): (g: seq<Flags>)
    ensures |g| == |f| && forall i :: 0 <= i < |f| ==> g[i] == f[i].(taken := false)
  {
    seq(|f|, i requires 0 <= i < |f| => f[i].(taken := false))
  }

  /** The pairs: added, followed in the code by an added instruction without a label, and no two of them by the
      same one; all of them, if no two added instructions fall through to the same one. */
  ghost predicate Pairing(code: seq<Byte>, f: seq<Flags>, single: seq<nat>, pairs: seq<nat>) {
    && PairsRight(code, f, single, pairs)
    && (NoClash(code, f, single) ==> PairsAll(code, f, single, pairs))
  }

  ghost predicate PairsRight(code: seq<Byte>, f: seq<Flags>, single: seq<nat>, pairs: seq<nat>) {
    && Distinct(pairs)
    && (forall i :: i in pairs ==> i in single && Enters(code, f, single, i))
    && forall i, j, x: nat :: i in pairs && j in pairs && FallsTo(code, i, x) && FallsTo(code, j, x) ==> i == j
  }

  ghost predicate PairsAll(code: seq<Byte>, f: seq<Flags>, single: seq<nat>, pairs: seq<nat>) {
    forall i, x: nat :: i in single && x in single && x < |f| && FallsTo(code, i, x) && !f[x].labelled ==> i in pairs
  }

  ghost predicate Enters(code: seq<Byte>, f: seq<Flags>, single: seq<nat>, i: nat) {
    exists x: nat :: x in single && x < |f| && FallsTo(code, i, x) && !f[x].labelled
  }

  /** The instruction that was added last leads to the one that is next, unless that one is a label. */
  ghost predicate Linked(code: seq<Byte>, f: seq<Flags>, single: seq<nat>, cur: nat, prev: nat, prevInitialized: bool)
  {
    && cur < |f|
    && (!f[cur].labelled ==> prevInitialized)
    && (prevInitialized ==> prev in single && FallsTo(code, prev, cur))
  }

  lemma ReachableEdge(code: seq<Byte>, publics: seq<int>, i: nat, x: nat)
    requires Reachable(code, publics, i) && Edge(code, i, x)
    ensures Reachable(code, publics, x)
  {
    forall s: iset<nat> | Closed(code, publics, s) ensures x in s {
      assert i in s;
    }
  }

  /** add_instruction. */
  lemma AddOne(code: seq<Byte>, publics: seq<int>, f: seq<Flags>, single: seq<nat>, cur: nat, rest: seq<nat>)
    requires Taking(code, publics, f, single, [cur] + rest, -1)
    ensures Taking(code, publics, f, single + [cur], rest, cur)
    ensures cur < |f| && cur !in single && f[cur].marked
  {
    assert single + ([cur] + rest) == single + [cur] + rest;
    forall x: nat | x < |f| && f[x].taken && !f[x].labelled ensures Entered(code, single + [cur], x) {
      var i :| i in single && FallsTo(code, i, x);
      assert i in single + [cur];
    }
    assert cur in single + ([cur] + rest);
    var all := single + ([cur] + rest);
    forall k | 0 <= k < |single| ensures single[k] != cur {
      assert all[k] != all[|single|];
    }
  }

  ghost function Taken(f: seq<Flags>, x: nat): seq<Flags>
    requires x < |f|
  {
    f[x := f[x].(taken := true)]
  }

  /** check_label and check_nxt on an offset that is not taken yet. */
  lemma TakeOne(code: seq<Byte>, publics: seq<int>, f: seq<Flags>, single: seq<nat>, pending: seq<nat>, busy: int,
                x: nat)
    requires Taking(code, publics, f, single, pending, busy)
    requires x < |f| && !f[x].taken && f[x].marked && Reachable(code, publics, x)
    requires f[x].labelled || Entered(code, single, x)
    ensures Taking(code, publics, Taken(f, x), single, pending + [x], busy)
  {
    var g := Taken(f, x);
    assert Untaken(g) == Untaken(f);
    assert single + (pending + [x]) == single + pending + [x];
    assert x !in single + pending;
    forall i | i in single && i != busy ensures EdgesTaken(code, g, i) {
      assert EdgesTaken(code, f, i);
    }
  }

  /** The same offsets in another order. */
  lemma TakingMoves(code: seq<Byte>, publics: seq<int>, f: seq<Flags>, single: seq<nat>, pending: seq<nat>, busy: int,
                    x: nat)
    requires Taking(code, publics, f, single, pending + [x], busy)
    ensures Taking(code, publics, f, single, [x] + pending, busy)
  {
    var all, all' := single + (pending + [x]), single + ([x] + pending);
    var n, m := |single|, |pending|;
    forall i ensures i in all' <==> i in all {
    }
    forall j, k | 0 <= j < k < |all'| ensures all'[j] != all'[k] {
      var j' := if j < n then j else if j == n then n + m else j - 1;
      var k' := if k < n then k else if k == n then n + m else k - 1;
      assert all'[j] == all[j'] && all'[k] == all[k'] && j' != k';
    }
  }

  lemma TakingDone(code: seq<Byte>, publics: seq<int>, f: seq<Flags>, single: seq<nat>, pending: seq<nat>, busy: nat)
    requires Taking(code, publics, f, single, pending, busy) && EdgesTaken(code, f, busy)
    ensures Taking(code, publics, f, single, pending, -1)
  {
  }

  /** The pairs after add_instruction: the previous instruction joins them unless the new one is a label. */
  lemma PairOne(code: seq<Byte>, f: seq<Flags>, single: seq<nat>, pairs: seq<nat>, cur: nat, prev: nat,
                prevInitialized: bool)
    requires Pairing(code, f, single, pairs) && Linked(code, f, single, cur, prev, prevInitialized) && cur !in single
    requires forall x: nat :: x < |f| && f[x].taken && !f[x].labelled ==> Entered(code, single, x)
    requires forall i: nat :: i < |f| && (i in single || i == cur) ==> f[i].taken
    ensures Pairing(code, f, single + [cur], if f[cur].labelled then pairs else pairs + [prev])
  {
    hide FallsTo, PairsRight, PairsAll, NoClash, Entered;
    PairJoins(code, f, single, pairs, cur, prev, prevInitialized);
    if NoClash(code, f, single + [cur]) {
      NoClashBefore(code, f, single, cur);
      PairsStayAll(code, f, single, pairs, cur, prev);
    }
  }

  lemma PairJoins(code: seq<Byte>, f: seq<Flags>, single: seq<nat>, pairs: seq<nat>, cur: nat, prev: nat,
                  prevInitialized: bool)
    requires PairsRight(code, f, single, pairs) && Linked(code, f, single, cur, prev, prevInitialized) && cur !in single
    ensures PairsRight(code, f, single + [cur], if f[cur].labelled then pairs else pairs + [prev])
  {
    var single' := single + [cur];
    var pairs' := if f[cur].labelled then pairs else pairs + [prev];
    forall i | i in pairs ensures !FallsTo(code, i, cur) {
      var x: nat :| x in single && x < |f| && FallsTo(code, i, x) && !f[x].labelled;
    }
    hide FallsTo;
    forall i | i in pairs' ensures i in single' && Enters(code, f, single', i) {
      if i in pairs {
        var x: nat :| x in single && x < |f| && FallsTo(code, i, x) && !f[x].labelled;
        assert x in single';
      } else {
        assert cur in single' && FallsTo(code, i, cur);
      }
    }
  }

  lemma PairsStayAll(code: seq<Byte>, f: seq<Flags>, single: seq<nat>, pairs: seq<nat>, cur: nat, prev: nat)
    requires PairsAll(code, f, single, pairs) && NoClash(code, f, single + [cur])
    requires cur < |f| && (!f[cur].labelled ==> prev in single && FallsTo(code, prev, cur))
    requires forall x: nat :: x < |f| && f[x].taken && !f[x].labelled ==> Entered(code, single, x)
    requires forall i: nat :: i < |f| && (i in single || i == cur) ==> f[i].taken
    ensures PairsAll(code, f, single + [cur], if f[cur].labelled then pairs else pairs + [prev])
  {
    hide FallsTo;
    var single' := single + [cur];
    forall i, x: nat | i in single' && x in single' && x < |f| && FallsTo(code, i, x) && !f[x].labelled
      ensures i in if f[cur].labelled then pairs else pairs + [prev]
    {
      assert Entered(code, single, x);
      var j :| j in single && FallsTo(code, j, x);
      assert i in single + [cur] && j in single + [cur];
      assert i == j;
      if x == cur {
        assert prev in single + [cur];
        assert i == prev;
      }
    }
  }

  lemma NoClashBefore(code: seq<Byte>, f: seq<Flags>, single: seq<nat>, cur: nat)
    requires NoClash(code, f, single + [cur])
    ensures NoClash(code, f, single)
  {
    forall i, j, x: nat | i in single && j in single && FallsTo(code, i, x) && FallsTo(code, j, x) && x < |f|
        && !f[x].labelled ensures i == j {
      assert i in single + [cur] && j in single + [cur];
    }
  }

  class Analyzer {
    const code: seq<Byte>
    const visited: array<Flags>
    var labels: seq<nat>
    var collectSingle: seq<nat>
    var collectPairs: seq<nat>
    var prev: nat
    var prevInitialized: bool

    constructor (code: seq<Byte>)
      ensures this.code == code && visited.Length == |code| && fresh(visited)
      ensures forall i :: 0 <= i < |code| ==> visited[i] == Flags(false, false, false)
      ensures labels == [] && collectSingle == [] && collectPairs == []
    {
      this.code := code;
      visited := new Flags[|code|](_ => Flags(false, false, false));
      labels, collectSingle, collectPairs, prevInitialized := [], [], [], false;
    }

    /** Sets bits 2 and 4, or bit 4 only, and pushes. */
    method Push(q: seq<nat>, x: nat, isLabel: bool) returns (q': seq<nat>)
      requires Marking(code, visited[..], q) && x < visited.Length
      requires Bits(visited[x]) > Bits(visited[x].(labelled := isLabel || visited[x].labelled, marked := true))
      modifies visited
      ensures Marking(code, visited[..], q') && MoreMarks(old(visited[..]), visited[..])
      ensures visited[x].marked && (isLabel ==> visited[x].labelled)
      ensures forall i: nat :: i < visited.Length && i != x ==> visited[i] == old(visited[i])
      ensures q' == q + [x] && ClearBits(visited[..]) < ClearBits(old(visited[..]))
    {
      ghost var f := visited[..];
      MarkOne(code, f, q, x, isLabel);
      ClearOne(f, x, f[x].(labelled := isLabel || f[x].labelled, marked := true));
      visited[x] := visited[x].(labelled := isLabel || visited[x].labelled, marked := true);
      assert visited[..] == f[x := f[x].(labelled := isLabel || f[x].labelled, marked := true)];
      q' := q + [x];
    }

    /** The first loop of collect_marks. */
    method MarkPublics(publics: seq<int>) returns (out: Outcome, q: seq<nat>)
      requires visited.Length == |code| && forall i :: 0 <= i < |code| ==> visited[i] == Flags(false, false, false)
      modifies visited
      ensures out.Accepted? || out.OutOfBounds?
      ensures out.Accepted? <==> PublicsInside(code, publics)
      ensures out.Accepted? ==>
                Marking(code, visited[..], q) && PublicsMarked(publics, visited[..])
                    && OnlyLed(code, publics, visited[..])
    {
      q := [];
      for k := 0 to |publics|
        invariant Marking(code, visited[..], q)
        invariant forall i :: 0 <= i < visited.Length && visited[i].marked ==> visited[i].labelled
        invariant PublicsMarked(publics[..k], visited[..]) && OnlyLed(code, publics, visited[..])
      {
        var x := publics[k];
        assert x in publics;
        if !(0 <= x < visited.Length) {
          return OutOfBounds, q;
        }
        ghost var f := visited[..];
        if !visited[x].marked {
          ghost var g := f[x].(labelled := true, marked := true);
          MarkOne(code, f, q, x, true);
          q := q + [x];
          visited[x] := visited[x].(labelled := true, marked := true);
          assert visited[..] == f[x := g];
        }
        assert publics[..k + 1] == publics[..k] + [x];
      }
      assert publics[..|publics|] == publics;
      out := Accepted;
    }

    /** One round of collect_marks on an offset taken off the queue. */
    method FollowOne(idx: nat, rest: seq<nat>, ghost publics: seq<int>) returns (out: Outcome, q: seq<nat>)
      requires Marking(code, visited[..], [idx] + rest) && idx < visited.Length == |code|
      requires OnlyLed(code, publics, visited[..]) && visited[idx].marked
      modifies visited
      ensures MoreMarks(old(visited[..]), visited[..])
      ensures OnlyLed(code, publics, visited[..])
      ensures out.Accepted? || out.Exception? || out.OutOfBounds?
      ensures !out.Accepted? ==> !AllWalkable(code, publics)
      ensures out.Exception? ==> LedToUnknown(code, publics)
      ensures out.Accepted? ==> Marking(code, visited[..], q)
      ensures out.Accepted? ==> ClearBits(visited[..]) + |q| <= ClearBits(old(visited[..])) + |rest|
    {
      hide Led, MarkEdge, U32, Decode, OpOf, Marking, ClearBits, AllWalkable, LedToUnknown;
      q := [idx] + rest;
      if code[idx] == 0xFF {
        FollowedHere(code, visited[..], idx);
        MarkedDone(code, visited[..], idx, rest);
        return Accepted, rest;
      }
      var dec := Decode(code, idx);
      if !dec.Instr? {
        Undecoded(code, publics, idx);
        return if dec.BadOpcode? then Exception else OutOfBounds, q;
      }
      if HasTarget(dec.op) {
        if idx + 5 > |code| || Arg(code, idx, 0) >= visited.Length {
          LedTargetOutside(code, publics, idx);
          return OutOfBounds, q;
        }
        var arg := Arg(code, idx, 0);
        if !visited[arg].labelled {
          LedTarget(code, publics, idx);
          q := Push(q, arg, true);
        }
      }
      ghost var f1 := visited[..];
      if dec.op != JMP {
        if dec.next >= visited.Length {
          LedNextOutside(code, publics, idx);
          return OutOfBounds, q;
        }
        if !visited[dec.next].marked {
          LedNext(code, publics, idx);
          q := Push(q, dec.next, HasTarget(dec.op));
        }
      }
      FollowedHere(code, visited[..], idx);
      assert q == [idx] + q[1..];
      MarkedDone(code, visited[..], idx, q[1..]);
      q := q[1..];
      out := Accepted;
    }

    /** collect_marks. */
    method CollectMarks(publics: seq<int>) returns (out: Outcome)
      requires visited.Length == |code| && forall i :: 0 <= i < |code| ==> visited[i] == Flags(false, false, false)
      modifies visited
      ensures out.Accepted? || out.Exception? || out.OutOfBounds?
      ensures out.Accepted? <==> AllWalkable(code, publics)
      ensures out.Exception? ==> LedToUnknown(code, publics)
      ensures out.Accepted? ==> Marks(code, publics, visited[..])
      ensures out.Accepted? ==> forall i: nat :: i < visited.Length && visited[i].marked <==> Led(code, publics, i)
    {
      hide MarkEdge, Led, Followed, Walkable;
      var q;
      out, q := MarkPublics(publics);
      if !out.Accepted? {
        return;
      }
      while q != []
        invariant Marking(code, visited[..], q) && PublicsMarked(publics, visited[..])
        invariant OnlyLed(code, publics, visited[..])
        decreases ClearBits(visited[..]) + |q|
      {
        assert q == [q[0]] + q[1..] && q[0] in q;
        out, q := FollowOne(q[0], q[1..], publics);
        if !out.Accepted? {
          return;
        }
      }
      MarkedIfLed(code, publics, visited[..]);
      out := Accepted;
    }
  
    ghost predicate State(publics: seq<int>, pending: seq<nat>, busy: int)
      reads visited, `collectSingle, `collectPairs
    {
      && Taking(code, publics, visited[..], collectSingle, pending, busy)
      && Pairing(code, visited[..], collectSingle, collectPairs)
    }

    method AddInstruction(cur: nat, ghost publics: seq<int>, ghost rest: seq<nat>)
      requires State(publics, [cur] + rest, -1) && Linked(code, visited[..], collectSingle, cur, prev, prevInitialized)
      requires visited[cur].labelled ==> !prevInitialized
      modifies `collectSingle, `collectPairs, `prev, `prevInitialized
      ensures State(publics, rest, cur) && prevInitialized && prev == cur
      ensures collectSingle == old(collectSingle) + [cur] && cur !in old(collectSingle) && visited[cur].marked
    {
      hide Pairing;
      ghost var f := visited[..];
      AddOne(code, publics, f, collectSingle, cur, rest);
      AddedFlags(code, publics, f, collectSingle + [cur], rest, cur);
      PairOne(code, f, collectSingle, collectPairs, cur, prev, prevInitialized);
      collectSingle := collectSingle + [cur];
      if prevInitialized {
        collectPairs := collectPairs + [prev];
      }
      prevInitialized := true;
      prev := cur;
    }

    method CheckLabel(x: nat, ghost publics: seq<int>, ghost busy: int) returns (out: Outcome)
      requires State(publics, labels, busy) && AllLabelled(visited[..], labels)
      requires x < visited.Length ==> visited[x].marked && visited[x].labelled && Reachable(code, publics, x)
      modifies visited, `labels
      ensures out.Accepted? <==> x < visited.Length
      ensures State(publics, labels, busy) && AllLabelled(visited[..], labels)
      ensures x < visited.Length ==> visited[x].taken
      ensures TakesMore(old(visited[..]), visited[..])
    {
      hide PairsRight, PairsAll, NoClash, Entered, EdgesTaken, Reachable;
      if x >= visited.Length {
        return OutOfBounds;
      }
      ghost var f := visited[..];
      if !visited[x].taken {
        TakeOne(code, publics, f, collectSingle, labels, busy, x);
        PairingTakes(code, f, Taken(f, x), collectSingle, collectPairs);
        labels := labels + [x];
        visited[x] := visited[x].(taken := true);
        assert visited[..] == Taken(f, x);
      }
      out := Accepted;
    }

    /** check_nxt; when the traversal goes on, `x` is pending before the labels. */
    method CheckNxt(x: nat, ghost publics: seq<int>, ghost busy: nat) returns (out: Outcome, traverse: bool)
      requires State(publics, labels, busy) && AllLabelled(visited[..], labels)
      requires busy in collectSingle && FallsTo(code, busy, x) && Reachable(code, publics, x)
      requires x < visited.Length ==> visited[x].marked
      modifies visited
      ensures out.Accepted? <==> x < visited.Length
      ensures out.Accepted? ==> visited[x].taken && State(publics, if traverse then [x] + labels else labels, busy)
      ensures AllLabelled(visited[..], labels) && TakesMore(old(visited[..]), visited[..])
    {
      hide PairsRight, PairsAll, NoClash, EdgesTaken, Reachable, FallsTo;
      traverse := false;
      if x >= visited.Length {
        return OutOfBounds, traverse;
      }
      ghost var f := visited[..];
      if !visited[x].taken {
        TakeOne(code, publics, f, collectSingle, labels, busy, x);
        PairingTakes(code, f, Taken(f, x), collectSingle, collectPairs);
        visited[x] := visited[x].(taken := true);
        assert visited[..] == Taken(f, x);
        TakingMoves(code, publics, visited[..], collectSingle, labels, busy, x);
        traverse := true;
      }
      out := Accepted;
    }

    /** One round of process_label: the instruction at `cur` is added, and what it leads to is taken. */
    method TraverseOne(cur: nat, ghost publics: seq<int>) returns (out: Outcome, traverse: bool, nxt: nat)
      requires State(publics, [cur] + labels, -1) && AllLabelled(visited[..], labels)
      requires Linked(code, visited[..], collectSingle, cur, prev, prevInitialized)
      modifies this, visited
      ensures TakesMore(old(visited[..]), visited[..])
      ensures out.Accepted? ==> |collectSingle| == |old(collectSingle)| + 1 && AllLabelled(visited[..], labels)
      ensures out.Accepted? ==> State(publics, if traverse then [nxt] + labels else labels, -1)
      ensures out.Accepted? && traverse ==> Linked(code, visited[..], collectSingle, nxt, prev, prevInitialized)
      ensures !out.Accepted? ==> ReachesMarker(code, publics)
    {
      hide Pairing, Taking;
      traverse, nxt := false, 0;
      var dec := Decode(code, cur);
      MarkedFollowed(code, publics, visited[..], collectSingle, [cur] + labels, -1, cur);
      if !dec.Instr? {
        return if dec.BadOpcode? then Exception else OutOfBounds, traverse, nxt;
      }
      if visited[cur].labelled {
        prevInitialized := false;
      }
      AddInstruction(cur, publics, labels);
      nxt := dec.next;
      out := Accepted;
      if HasTarget(dec.op) {
        ReachableEdge(code, publics, cur, Arg(code, cur, 0));
        out := CheckLabel(Arg(code, cur, 0), publics, cur);
      }
      if Falls(dec.op) {
        ReachableEdge(code, publics, cur, nxt);
        out, traverse := CheckNxt(nxt, publics, cur);
      }
      TakingDone(code, publics, visited[..], collectSingle, if traverse then [nxt] + labels else labels, cur);
    }

    method ProcessLabel(first: nat, ghost publics: seq<int>) returns (out: Outcome)
      requires State(publics, [first] + labels, -1) && AllLabelled(visited[..], [first] + labels)
      modifies this, visited
      ensures TakesMore(old(visited[..]), visited[..])
      ensures out.Accepted? ==> State(publics, labels, -1) && AllLabelled(visited[..], labels)
      ensures out.Accepted? ==> |collectSingle| > |old(collectSingle)|
      ensures !out.Accepted? ==> ReachesMarker(code, publics)
    {
      hide Pairing, Taking;
      prevInitialized := false;
      var cur, traverse := first, true;
      ghost var n := |collectSingle|;
      assert first in [first] + labels;
      assert forall x :: x in labels ==> x in [first] + labels;
      while traverse
        invariant State(publics, if traverse then [cur] + labels else labels, -1) && AllLabelled(visited[..], labels)
        invariant traverse ==> Linked(code, visited[..], collectSingle, cur, prev, prevInitialized)
        invariant TakesMore(old(visited[..]), visited[..])
        invariant |collectSingle| >= n && (!traverse ==> |collectSingle| > n)
        decreases |code| - |collectSingle|, traverse
      {
        ghost var f := visited[..];
        RoomForOne(code, publics, f, collectSingle, cur, labels);
        out, traverse, cur := TraverseOne(cur, publics);
        TakesMoreTwice(old(visited[..]), f, visited[..]);
        if !out.Accepted? {
          return;
        }
      }
      out := Accepted;
    }

    /** analyze, up to the sorting: the instructions that are collected are exactly the reachable ones, each
        once; the pairs are those that fall through to an instruction without a label. */
    method Analyze(publics: seq<int>) returns (out: Outcome)
      requires Marks(code, publics, visited[..])
      requires labels == [] && collectSingle == [] && collectPairs == []
      modifies this, visited
      ensures TakesMore(old(visited[..]), visited[..])
      ensures out.Accepted? <==> !ReachesMarker(code, publics)
      ensures out.Accepted? ==> Distinct(collectSingle) && Distinct(collectPairs)
      ensures out.Accepted? ==> forall i: nat :: i in collectSingle <==> Reachable(code, publics, i)
      ensures out.Accepted? ==> forall i: nat :: PairAt(code, visited[..], collectSingle, i) <== i in collectPairs
      ensures out.Accepted? ==>
                (NoClash(code, visited[..], collectSingle) <==>
                 AllPaired(code, visited[..], collectSingle, collectPairs))
      ensures out.Accepted? ==>
                forall i: nat, x: nat :: Reachable(code, publics, i) && Targets(code, i, x) ==>
                    x < |code| && visited[x].labelled
    {
      hide Pairing, Taking;
      StateStarts(code, publics, visited[..]);
      for k := 0 to |publics|
        invariant State(publics, labels, -1) && AllLabelled(visited[..], labels)
        invariant TakesMore(old(visited[..]), visited[..])
        invariant collectSingle == []
        invariant forall j :: 0 <= j < k ==> 0 <= publics[j] < visited.Length && visited[publics[j]].taken
      {
        PublicReachable(code, publics, visited[..], collectSingle, labels, -1, publics[k]);
        ghost var f := visited[..];
        out := CheckLabel(publics[k], publics, -1);
        TakesMoreTwice(old(visited[..]), f, visited[..]);
        // Bit 2 is set again here; it is set already.
      }
      while labels != []
        invariant State(publics, labels, -1) && AllLabelled(visited[..], labels)
        invariant TakesMore(old(visited[..]), visited[..])
        invariant forall e :: e in publics ==> 0 <= e < visited.Length && visited[e].taken
        decreases |code| - |collectSingle|
      {
        var first := labels[0];
        ghost var f := visited[..];
        assert labels == [first] + labels[1..];
        RoomForOne(code, publics, f, collectSingle, first, labels[1..]);
        labels := labels[1..];
        out := ProcessLabel(first, publics);
        TakesMoreTwice(old(visited[..]), f, visited[..]);
        if !out.Accepted? {
          return;
        }
      }
      Analyzed(code, publics, visited[..], collectSingle, collectPairs);
      out := Accepted;
    }
  }

  /** A byte 0xFF is reachable, which is no instruction. */
  ghost predicate ReachesMarker(code: seq<Byte>, publics: seq<int>) {
    exists i: nat :: i < |code| && code[i] == 0xFF && Reachable(code, publics, i)
  }

  /** The pair at `i`: its instruction is collected and falls through to one without a label. */
  ghost predicate PairAt(code: seq<Byte>, f: seq<Flags>, single: seq<nat>, i: nat) {
    i in single && exists x: nat :: x < |f| && FallsTo(code, i, x) && !f[x].labelled
  }

  ghost predicate AllPaired(code: seq<Byte>, f: seq<Flags>, single: seq<nat>, pairs: seq<nat>) {
    forall i: nat :: PairAt(code, f, single, i) ==> i in pairs
  }

  lemma MarkedFollowed(code: seq<Byte>, publics: seq<int>, f: seq<Flags>, single: seq<nat>, pending: seq<nat>,
                       busy: int, i: nat)
    requires Taking(code, publics, f, single, pending, busy) && i in pending
    ensures |f| == |code| && i < |f| && Reachable(code, publics, i)
    ensures code[i] != 0xFF ==> Decode(code, i).Instr?
    ensures code[i] == 0xFF ==> !Decode(code, i).Instr?
    ensures var dec := Decode(code, i);
            dec.Instr? ==>
              && (HasTarget(dec.op) ==>
                  i + 5 <= |code| && Arg(code, i, 0) < |f| && f[Arg(code, i, 0)].labelled && f[Arg(code, i, 0)].marked)
              && (dec.op != JMP ==> dec.next < |f| && f[dec.next].marked)
  {
    assert i in single + pending;
    assert Followed(code, Untaken(f), i);
  }

  lemma RoomForOne(code: seq<Byte>, publics: seq<int>, f: seq<Flags>, single: seq<nat>, cur: nat, rest: seq<nat>)
    requires Taking(code, publics, f, single, [cur] + rest, -1)
    ensures |single| < |code|
  {
    AddOne(code, publics, f, single, cur, rest);
    AddedFlags(code, publics, f, single + [cur], rest, cur);
    var s := single + [cur];
    assert Distinct(s) by {
      forall j, k | 0 <= j < k < |s| ensures s[j] != s[k] {
        assert (s + rest)[j] != (s + rest)[k];
      }
    }
    DistinctBound(s, |code|);
  }

  lemma TakesMoreTwice(f: seq<Flags>, g: seq<Flags>, h: seq<Flags>)
    requires TakesMore(f, g) && TakesMore(g, h)
    ensures TakesMore(f, h)
  {
  }

  lemma StateStarts(code: seq<Byte>, publics: seq<int>, f: seq<Flags>)
    requires Marks(code, publics, f)
    ensures Taking(code, publics, f, [], [], -1) && Pairing(code, f, [], [])
  {
    assert Untaken(f) == f;
  }

  lemma PublicReachable(code: seq<Byte>, publics: seq<int>, f: seq<Flags>, single: seq<nat>, pending: seq<nat>,
                        busy: int, e: int)
    requires Taking(code, publics, f, single, pending, busy) && e in publics
    ensures 0 <= e < |f| && f[e].labelled && f[e].marked && Reachable(code, publics, e)
  {
    var g := Untaken(f);
    assert PublicsMarked(publics, g) && Clean(g);
  }

  lemma CollectedReachable(code: seq<Byte>, publics: seq<int>, f: seq<Flags>, single: seq<nat>)
    requires Taking(code, publics, f, single, [], -1)
    requires forall e :: e in publics ==> 0 <= e < |f| && f[e].taken
    ensures forall i: nat :: i in single <==> Reachable(code, publics, i)
  {
    assert single + [] == single;
    var s := iset i: nat | i in single;
    assert Closed(code, publics, s) by {
      forall i: nat, x: nat | i in s && Edge(code, i, x) ensures x in s {
        assert EdgesTaken(code, f, i);
      }
    }
  }

  lemma CollectedFacts(code: seq<Byte>, publics: seq<int>, f: seq<Flags>, single: seq<nat>, i: nat, x: nat)
    requires Taking(code, publics, f, single, [], -1) && i in single
    ensures i < |f| == |code| && code[i] != 0xFF && Distinct(single)
    ensures Edge(code, i, x) ==> x in single && x < |f|
    ensures Targets(code, i, x) ==> f[x].labelled
  {
    hide Reachable, Entered, U32, Falls;
    assert single + [] == single;
    assert EdgesTaken(code, f, i);
    NotMarker(code, i);
    assert Followed(code, Untaken(f), i);
  }

  lemma NotMarker(code: seq<Byte>, i: nat)
    requires Decode(code, i).Instr?
    ensures i < |code| && code[i] != 0xFF
  {
  }

  lemma Analyzed(code: seq<Byte>, publics: seq<int>, f: seq<Flags>, single: seq<nat>, pairs: seq<nat>)
    requires Taking(code, publics, f, single, [], -1) && Pairing(code, f, single, pairs)
    requires forall e :: e in publics ==> 0 <= e < |f| && f[e].taken
    ensures Distinct(single) && Distinct(pairs) && !ReachesMarker(code, publics)
    ensures forall i: nat :: i in single <==> Reachable(code, publics, i)
    ensures forall i: nat :: i in pairs ==> PairAt(code, f, single, i)
    ensures NoClash(code, f, single) <==> AllPaired(code, f, single, pairs)
    ensures forall i: nat, x: nat :: Reachable(code, publics, i) && Targets(code, i, x) ==> x < |code| && f[x].labelled
  {
    hide Reachable, Pairing, NoClash, AllPaired, PairAt;
    assert Distinct(single) by { assert single + [] == single; }
    CollectedReachable(code, publics, f, single);
    forall i: nat, x: nat | i in single
      ensures i < |f| == |code| && code[i] != 0xFF
      ensures Edge(code, i, x) ==> x in single && x < |f|
      ensures Targets(code, i, x) ==> f[x].labelled
    {
      CollectedFacts(code, publics, f, single, i, x);
    }
    hide Taking, Edge, Targets, FallsTo, Pairing, NoClash, AllPaired, PairAt, Distinct, ReachesMarker;
    forall i: nat, x: nat | i in single && FallsTo(code, i, x) ensures x in single {
      FallsIsEdge(code, i, x);
    }
    PairsComplete(code, f, single, pairs);
  }

  /** The pairs are complete exactly if nothing clashes. */
  lemma PairsComplete(code: seq<Byte>, f: seq<Flags>, single: seq<nat>, pairs: seq<nat>)
    requires Pairing(code, f, single, pairs)
    requires forall i: nat, x: nat :: i in single && FallsTo(code, i, x) ==> x in single
    ensures NoClash(code, f, single) <==> AllPaired(code, f, single, pairs)
    ensures Distinct(pairs) && forall i: nat :: i in pairs ==> PairAt(code, f, single, i)
  {
    hide FallsTo;
    if AllPaired(code, f, single, pairs) {
      forall i, j, x: nat | i in single && j in single && FallsTo(code, i, x) && FallsTo(code, j, x) && x < |f|
          && !f[x].labelled ensures i == j {
        assert PairAt(code, f, single, i) && PairAt(code, f, single, j);
      }
    }
  }

  lemma FallsIsEdge(code: seq<Byte>, i: nat, x: nat)
    requires FallsTo(code, i, x)
    ensures Edge(code, i, x)
  {
  }

  /** What is collected can be compared by its bytes, if no instruction runs round the 32-bit offsets. */
  lemma CollectedHasIdiom(code: seq<Byte>, publics: seq<int>, f: seq<Flags>, single: seq<nat>, i: nat, pair: bool)
    requires Taking(code, publics, f, single, [], -1) && i in single
    requires forall j: nat :: j in single && Decode(code, j).Instr? ==> j <= Decode(code, j).next <= |code|
    requires pair ==> PairAt(code, f, single, i)
    ensures HasIdiom(code, i, pair)
  {
    hide Decode;
    assert single + [] == single;
    assert EdgesTaken(code, f, i);
    if pair {
      var x: nat :| x < |f| && FallsTo(code, i, x) && !f[x].labelled;
      assert Edge(code, i, x);
      assert x in single && EdgesTaken(code, f, x);
    }
  }

  ghost predicate AllLabelled(f: seq<Flags>, labels: seq<nat>) {
    forall x :: x in labels ==> x < |f| && f[x].labelled
  }

  /** More offsets are taken, and nothing else changes. */
  ghost predicate TakesMore(f: seq<Flags>, g: seq<Flags>) {
    |g| == |f| && forall i: nat :: i < |f| ==>
        (f[i].taken ==> g[i].taken) && g[i].labelled == f[i].labelled && g[i].marked == f[i].marked
  }

  lemma AddedFlags(code: seq<Byte>, publics: seq<int>, f: seq<Flags>, single: seq<nat>, pending: seq<nat>, busy: int)
    requires Taking(code, publics, f, single, pending, busy)
    ensures forall i :: i in single ==> i < |f| && f[i].marked && f[i].taken
  {
    forall i | i in single ensures i < |f| && f[i].marked && f[i].taken {
      assert i in single + pending;
    }
  }

  lemma PairingTakes(code: seq<Byte>, f: seq<Flags>, g: seq<Flags>, single: seq<nat>, pairs: seq<nat>)
    requires Pairing(code, f, single, pairs) && TakesMore(f, g)
    ensures Pairing(code, g, single, pairs)
  {
    hide FallsTo;
    forall i | i in pairs ensures Enters(code, g, single, i) {
      var x: nat :| x in single && x < |f| && FallsTo(code, i, x) && !f[x].labelled;
    }
    if NoClash(code, g, single) {
      assert NoClash(code, f, single);
    }
  }
}
