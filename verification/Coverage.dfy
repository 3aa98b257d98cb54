/** The verifier's search against the analyzer's: what a run executes is among the instructions that the
    analyzer collects. */
module Coverage {
  import opened Bytecode
  import opened Verifier
  import opened Runs
  import A = Analyzer
  import MaxStack
  import Packing

  /** Where the verifier goes from an instruction. */
  ghost predicate GoesTo(code: seq<Byte>, i: nat, d: nat, x: nat)
    requires Decode(code, i).Instr? && (IsBranch(Decode(code, i).op) ==> i + 5 <= |code|)
  {
    exists e :: e in Successors(code, i, Decode(code, i).op, Decode(code, i).next, d) && e.0 == x
  }

  /** The two searches go from an instruction to the same offsets, but for the function of a CLOSURE, which the
      analyzer visits and the verifier does not. */
  lemma SearchesAgree(code: seq<Byte>, i: nat, d: nat, x: nat)
    requires Decode(code, i).Instr? && (IsBranch(Decode(code, i).op) ==> i + 5 <= |code|)
    ensures GoesTo(code, i, d, x) <==>
            A.FallsTo(code, i, x) || (A.Targets(code, i, x) && Decode(code, i).op != CLOSURE)
  {
    hide U32, Decode;
    var dec := Decode(code, i);
    var edges := Successors(code, i, dec.op, dec.next, d);
    if A.FallsTo(code, i, x) {
      assert edges != [] && edges[|edges| - 1].0 == x;
      assert edges[|edges| - 1] in edges;
    }
    if A.Targets(code, i, x) && dec.op != CLOSURE {
      assert edges != [] && edges[0].0 == x;
      assert edges[0] in edges;
    }
  }

  ghost predicate EntriesPublic(entries: seq<int>, publics: seq<int>) {
    forall e :: e in entries ==> e in publics
  }

  /** The depths at the offsets that the analyzer reaches. */
  ghost function Restricted(code: seq<Byte>, publics: seq<int>, v: seq<int>): (w: seq<int>)
    ensures |w| == |v|
    ensures forall i: nat :: i < |v| ==> w[i] == if A.Reachable(code, publics, i) then v[i] else -1
  {
    seq(|v|, i requires 0 <= i < |v| => if A.Reachable(code, publics, i) then v[i] else -1)
  }

  lemma ReachableOn(code: seq<Byte>, publics: seq<int>, i: nat, d: nat, x: nat)
    requires Decode(code, i).Instr? && (IsBranch(Decode(code, i).op) ==> i + 5 <= |code|)
    requires A.Reachable(code, publics, i) && GoesTo(code, i, d, x)
    ensures A.Reachable(code, publics, x)
  {
    SearchesAgree(code, i, d, x);
    hide GoesTo;
    assert A.Edge(code, i, x);
    forall s: iset<nat> | A.Closed(code, publics, s) ensures x in s {
      assert i in s;
    }
  }

  lemma RestrictedConsistent(code: seq<Byte>, publics: seq<int>, v: seq<int>, i: nat)
    requires |v| == |code| && i < |v| && Consistent(code, v, i)
    ensures Consistent(code, Restricted(code, publics, v), i)
  {
    hide A.Reachable, U32, DepthAfter, Decode, Successors;
    var w := Restricted(code, publics, v);
    if Visited(w, i) {
      var dec := Decode(code, i);
      var after := DepthAfter(code, v[i], i, dec.op);
      forall e | e in Successors(code, i, dec.op, dec.next, after.d) ensures Carries(w, e) {
        assert GoesTo(code, i, after.d, e.0);
        ReachableOn(code, publics, i, after.d, e.0);
        assert Carries(v, e);
      }
    }
  }

  /** Every offset that the verifier visits is reached by the analyzer, if the symbols named main are public. */
  lemma VisitedReachable(code: seq<Byte>, entries: seq<int>, publics: seq<int>, v: seq<int>, i: nat)
    requires Assignment(code, entries, v) && BelowAll(code, entries, v) && EntriesPublic(entries, publics)
    requires Visited(v, i)
    ensures A.Reachable(code, publics, i)
  {
    hide A.Reachable, Consistent;
    var w := Restricted(code, publics, v);
    forall e | e in entries ensures 0 <= e < |w| && w[e] == 0 {
      EntryReachable(code, publics, e);
    }
    forall k: nat | k < |w| ensures Consistent(code, w, k) {
      RestrictedConsistent(code, publics, v, k);
    }
    assert Assignment(code, entries, w);
    assert Below(v, w);
  }

  lemma EntryReachable(code: seq<Byte>, publics: seq<int>, e: nat)
    requires e in publics
    ensures A.Reachable(code, publics, e)
  {
  }

  /** What the analyzer has collected contains every instruction that a run of the packed code executes, and every
      one that it returns to. */
  lemma RunCollected(code: seq<Byte>, code': seq<Byte>, entries: seq<int>, publics: seq<int>, v: seq<int>,
                     packed: set<nat>, origin: int, run: seq<State>, k: nat, single: seq<nat>)
    requires Assignment(code, entries, v) && BelowAll(code, entries, v) && 0 in entries && |code| <= INT32_MAX
    requires EntriesPublic(entries, publics)
    requires MaxStack.OnlyPacked(code, code', packed) && MaxStack.PackedBegins(code, v, packed)
    requires Packing.NoOverlap(code, code', v, packed) && Covers(code, v)
    requires k < |run| && Initial(run[0]) && Run(code', origin, run)
    requires forall i: nat :: i in single <==> A.Reachable(code, publics, i)
    ensures run[k].Running? ==> run[k].pc in single
    ensures run[k].Running? ==> forall j: nat :: j < |run[k].frames| && run[k].frames[j].ra >= 0 ==>
              run[k].frames[j].ra in single
  {
    hide Assignment, BelowAll, MaxStack.OnlyPacked, MaxStack.PackedBegins, Packing.NoOverlap, Covers, Run, A.Reachable;
    hide Initial, EntriesPublic;
    VerifiedRunRight(code, code', entries, v, packed, origin, run, k);
    var s := run[k];
    if s.Running? {
      assert DepthRight(v, s, |s.frames| - 1);
      VisitedReachable(code, entries, publics, v, s.pc);
      forall j: nat | j < |s.frames| && s.frames[j].ra >= 0 ensures s.frames[j].ra in single {
        assert j > 0 by { assert DepthRight(v, s, j); }
        assert DepthRight(v, s, j - 1);
        VisitedReachable(code, entries, publics, v, s.frames[j].ra);
      }
    }
  }
}
