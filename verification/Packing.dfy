/** What packing does to the instructions: when the code that is run is still the code that was checked. */
module Packing {
  import opened Bytecode
  import opened Verifier
  import opened MaxStack

  predicate OpensFunction(b: Byte) {
    OpOf(b) == BEGIN || OpOf(b) == CBEGIN
  }

  /** Byte `x` is one of those of the instruction at `i`, without the upper half of a BEGIN's first argument. */
  predicate Reads(code: seq<Byte>, i: nat, x: nat) {
    && i < |code| && x < |code|
    && i <= x < i + 1 + 4 * ArgCount(OpOf(code[i]))
    && !(OpensFunction(code[i]) && (x == i + 3 || x == i + 4))
  }

  /** The instruction at `i` has the bytes that it had. */
  ghost predicate SameInstruction(code: seq<Byte>, code': seq<Byte>, i: nat) {
    i < |code| == |code'| && forall x: nat :: Reads(code, i, x) ==> code'[x] == code[x]
  }

  ghost predicate AllSame(code: seq<Byte>, code': seq<Byte>, v: seq<int>) {
    forall i: nat :: i < |code| && Visited(v, i) ==> SameInstruction(code, code', i)
  }

  /** What is packed into the BEGIN at `b` writes no byte of the instruction at `i`, but for a zero. */
  ghost predicate Spares(code: seq<Byte>, code': seq<Byte>, i: nat, b: nat)
    requires b + 5 <= |code'|
  {
    && (Reads(code, i, b + 3) ==> Packed(code', b) % 0x100 == 0)
    && (Reads(code, i, b + 4) ==> Packed(code', b) / 0x100 == 0)
  }

  ghost predicate NoOverlap(code: seq<Byte>, code': seq<Byte>, v: seq<int>, packed: set<nat>) {
    forall i: nat, b: nat :: i < |code| && Visited(v, i) && b in packed ==>
        b + 5 <= |code'| && Spares(code, code', i, b)
  }

  /** Every visited instruction keeps its bytes exactly when no nonzero byte is packed into one of them. */
  lemma SameIfNoOverlap(code: seq<Byte>, code': seq<Byte>, v: seq<int>, packed: set<nat>)
    requires OnlyPacked(code, code', packed) && PackedBegins(code, v, packed)
    ensures AllSame(code, code', v) <==> NoOverlap(code, code', v, packed)
  {
    hide Reads, OpOf;
    if AllSame(code, code', v) {
      forall i: nat, b: nat | i < |code| && Visited(v, i) && b in packed ensures b + 5 <= |code'|
          && Spares(code, code', i, b) {
        assert SameInstruction(code, code', i);
      }
    }
    if NoOverlap(code, code', v, packed) {
      forall i: nat | i < |code| && Visited(v, i) ensures SameInstruction(code, code', i) {
        SpareBytes(code, code', v, packed, i);
      }
    }
  }

  lemma SpareBytes(code: seq<Byte>, code': seq<Byte>, v: seq<int>, packed: set<nat>, i: nat)
    requires OnlyPacked(code, code', packed) && PackedBegins(code, v, packed) && NoOverlap(code, code', v, packed)
    requires i < |code| && Visited(v, i)
    ensures SameInstruction(code, code', i)
  {
    hide Reads, OpOf;
    forall x: nat | x < |code| && Reads(code, i, x) ensures code'[x] == code[x] {
      if x >= 3 && x - 3 in packed {
        assert Spares(code, code', i, x - 3);
      } else if x >= 4 && x - 4 in packed {
        assert Spares(code, code', i, x - 4);
      } else {
        assert !InHalf(packed, x);
      }
    }
    ReadsInside(code, i);
  }

  lemma ReadsInside(code: seq<Byte>, i: nat)
    ensures forall x: nat :: Reads(code, i, x) ==> x < |code|
  {
  }

  lemma SameArg(code: seq<Byte>, code': seq<Byte>, i: nat, k: nat)
    requires SameInstruction(code, code', i) && i + 5 + 4 * k <= |code| && k < ArgCount(OpOf(code[i]))
    ensures (OpensFunction(code[i]) && k == 0) || Arg(code', i, k) == Arg(code, i, k)
  {
    hide OpOf, ArgCount;
    assert forall x: nat :: i + 1 + 4 * k <= x < i + 5 + 4 * k && !(OpensFunction(code[i]) && k == 0) ==>
             Reads(code, i, x);
  }

  lemma SameDecoding(code: seq<Byte>, code': seq<Byte>, cur: nat, i: nat)
    requires SameInstruction(code, code', i)
    ensures Decode(code', i) == Decode(code, i)
    ensures DepthAfter(code', cur, i, OpOf(code[i])) == DepthAfter(code, cur, i, OpOf(code[i]))
    ensures IsBranch(OpOf(code[i])) && i + 5 <= |code| ==> Arg(code', i, 0) == Arg(code, i, 0)
  {
    hide U32, OpOf, Signed, SameInstruction;
    SameOpcode(code, code', i);
    var op := OpOf(code[i]);
    if i + 5 <= |code| && ArgCount(op) > 0 {
      SameArg(code, code', i, 0);
    }
    if i + 9 <= |code| && ArgCount(op) > 1 {
      SameArg(code, code', i, 1);
    }
    assert NewStack(code', cur, i, op) == NewStack(code, cur, i, op);
  }

  lemma SameOpcode(code: seq<Byte>, code': seq<Byte>, i: nat)
    requires SameInstruction(code, code', i)
    ensures i < |code| == |code'| && code'[i] == code[i]
  {
    assert Reads(code, i, i);
  }

  lemma SameConsistency(code: seq<Byte>, code': seq<Byte>, v: seq<int>, i: nat)
    requires |v| == |code| && SameInstruction(code, code', i) && Consistent(code, v, i)
    ensures Consistent(code', v, i)
  {
    hide SameInstruction, NewStack, U32, OpOf, Signed;
    if Visited(v, i) {
      SameDecoding(code, code', v[i], i);
      SameOpcode(code, code', i);
    }
  }

  /** The depths found for the code are right for the packed code too, which is the one that is run. */
  lemma AssignmentPacked(code: seq<Byte>, code': seq<Byte>, entries: seq<int>, v: seq<int>, packed: set<nat>)
    requires Assignment(code, entries, v)
    requires OnlyPacked(code, code', packed) && PackedBegins(code, v, packed) && NoOverlap(code, code', v, packed)
    ensures Assignment(code', entries, v)
  {
    hide SameInstruction, Consistent, NoOverlap;
    SameIfNoOverlap(code, code', v, packed);
    forall i: nat | i < |v| ensures Consistent(code', v, i) {
      if Visited(v, i) {
        assert SameInstruction(code, code', i);
        SameConsistency(code, code', v, i);
      } else {
        NotVisited(code', v, i);
      }
    }
  }

  lemma NotVisited(code: seq<Byte>, v: seq<int>, i: nat)
    requires |v| == |code| && !Visited(v, i)
    ensures Consistent(code, v, i)
  {
  }

  // When the packed code has no depths.

  /** Whatever depths the other offsets have, the instruction at `i` fails at the depth that `v` has. */
  ghost predicate Breaks(code: seq<Byte>, v: seq<int>, i: nat) {
    forall w: seq<int> :: |w| == |code| && Visited(w, i) && i < |v| && w[i] == v[i] ==> !Consistent(code, w, i)
  }

  /** Code in which packing has left every visited instruction as it was, or broken it. */
  ghost predicate SameOrBroken(code: seq<Byte>, code': seq<Byte>, v: seq<int>, i: nat) {
    SameInstruction(code, code', i) || Breaks(code', v, i)
  }

  /** The offsets to which both give the same depth. */
  function Agreement(v: seq<int>, w: seq<int>): (u: seq<int>)
    requires |v| == |w|
    ensures |u| == |v| && forall i: nat :: i < |u| ==> u[i] == if v[i] == w[i] then v[i] else -1
  {
    seq(|v|, i requires 0 <= i < |v| => if v[i] == w[i] then v[i] else -1)
  }

  /** Depths of the packed code that agree with `v` somewhere agree with it on everything that is reached from there. */
  lemma AgreementConsistent(code: seq<Byte>, code': seq<Byte>, v: seq<int>, w: seq<int>, i: nat)
    requires |v| == |w| == |code| == |code'| && Consistent(code, v, i) && Consistent(code', w, i)
    requires Visited(v, i) ==> SameOrBroken(code, code', v, i)
    ensures Consistent(code, Agreement(v, w), i)
  {
    hide SameInstruction, NewStack, U32, OpOf, Signed, DepthAfter, Decode;
    var u := Agreement(v, w);
    if Visited(u, i) {
      assert Visited(w, i) && w[i] == v[i];
      assert SameInstruction(code, code', i);
      SameDecoding(code, code', v[i], i);
      SameOpcode(code, code', i);
      SameEdges(code, code', v, w, i);
    }
  }

  lemma SameEdges(code: seq<Byte>, code': seq<Byte>, v: seq<int>, w: seq<int>, i: nat)
    requires |v| == |w| == |code| == |code'| && Consistent(code, v, i) && Consistent(code', w, i)
    requires Visited(v, i) && w[i] == v[i] && SameInstruction(code, code', i)
    ensures Decode(code, i).Instr?
    ensures var dec := Decode(code, i);
            && DepthAfter(code, v[i], i, dec.op).Depth? && (IsBranch(dec.op) ==> i + 5 <= |code|)
            && forall e :: e in Successors(code, i, dec.op, dec.next, DepthAfter(code, v[i], i, dec.op).d) ==>
                Carries(Agreement(v, w), e)
  {
    hide SameInstruction, NewStack, U32, OpOf, Signed;
    SameDecoding(code, code', v[i], i);
    SameOpcode(code, code', i);
    var dec := Decode(code, i);
    var d := DepthAfter(code, v[i], i, dec.op).d;
    assert Successors(code', i, dec.op, dec.next, d) == Successors(code, i, dec.op, dec.next, d);
    forall e | e in Successors(code, i, dec.op, dec.next, d) ensures Carries(Agreement(v, w), e) {
      assert Carries(v, e) && Carries(w, e);
    }
  }

  /** If packing has broken a visited instruction, and every other one is the same or broken too, then the
      packed code has no depths at all: the reason is that `v` reaches no more than it must. */
  lemma BrokenHasNone(code: seq<Byte>, code': seq<Byte>, entries: seq<int>, v: seq<int>, broken: nat)
    requires Assignment(code, entries, v) && BelowAll(code, entries, v) && |code'| == |code|
    requires forall i: nat :: Visited(v, i) ==> SameOrBroken(code, code', v, i)
    requires Visited(v, broken) && Breaks(code', v, broken)
    ensures NoAssignment(code', entries)
  {
    hide Consistent, SameOrBroken, Below;
    forall w ensures !Assignment(code', entries, w) {
      if Assignment(code', entries, w) {
        AgreementAssigned(code, code', entries, v, w);
        BelowAgreement(code, entries, v, w);
        BreaksAt(code', v, w, broken);
      }
    }
  }

  lemma BreaksAt(code: seq<Byte>, v: seq<int>, w: seq<int>, i: nat)
    requires Breaks(code, v, i) && |w| == |code| && Visited(w, i) && i < |v| && w[i] == v[i]
    ensures !Consistent(code, w, i)
  {
  }

  lemma AgreementAssigned(code: seq<Byte>, code': seq<Byte>, entries: seq<int>, v: seq<int>, w: seq<int>)
    requires Assignment(code, entries, v) && Assignment(code', entries, w) && |code'| == |code|
    requires forall i: nat :: Visited(v, i) ==> SameOrBroken(code, code', v, i)
    ensures |w| == |v| && Assignment(code, entries, Agreement(v, w))
  {
    hide Consistent, SameOrBroken;
    forall i: nat | i < |v| ensures Consistent(code, Agreement(v, w), i) {
      AgreementConsistent(code, code', v, w, i);
    }
  }

  lemma BelowAgreement(code: seq<Byte>, entries: seq<int>, v: seq<int>, w: seq<int>)
    requires |v| == |w| && BelowAll(code, entries, v) && Assignment(code, entries, Agreement(v, w))
    ensures forall i: nat :: Visited(v, i) ==> w[i] == v[i]
  {
    hide Assignment;
    assert Below(v, Agreement(v, w));
  }

  // Overlapped targets.

  /** Byte `x` is in the upper half of the target of the branch at `i`. */
  predicate InTarget(code: seq<Byte>, i: nat, x: nat) {
    i < |code| && IsBranch(OpOf(code[i])) && (x == i + 3 || x == i + 4)
  }

  /** In code of at most 2^16 bytes a target with a changed upper half lies outside of the code. */
  lemma TargetBreaks(code: seq<Byte>, code': seq<Byte>, v: seq<int>, i: nat, x: nat)
    requires |v| == |code| == |code'| <= 0x10000 && Consistent(code, v, i) && Visited(v, i)
    requires InTarget(code, i, x) && x < |code| && code'[x] != code[x] && code'[i] == code[i]
    ensures Breaks(code', v, i)
  {
    hide OpOf, DepthAfter;
    var op := OpOf(code[i]);
    TargetInside(code, v, i);
    HighTarget(code, code', i, x);
    forall w: seq<int> | |w| == |code'| && Visited(w, i) && w[i] == v[i] ensures !Consistent(code', w, i) {
      if Consistent(code', w, i) {
        TargetInside(code', w, i);
        assert false;
      }
    }
  }

  lemma TargetInside(code: seq<Byte>, v: seq<int>, i: nat)
    requires |v| == |code| && Consistent(code, v, i) && Visited(v, i) && IsBranch(OpOf(code[i]))
    ensures i + 5 <= |code| && Arg(code, i, 0) < |code|
  {
    hide OpOf, DepthAfter, U32;
    var dec := Decode(code, i);
    assert Carries(v, Successors(code, i, dec.op, dec.next, DepthAfter(code, v[i], i, dec.op).d)[0]);
  }

  lemma HighTarget(code: seq<Byte>, code': seq<Byte>, i: nat, x: nat)
    requires i + 5 <= |code| == |code'| && (x == i + 3 || x == i + 4)
    requires Arg(code, i, 0) < 0x10000 && code'[x] != code[x]
    ensures Arg(code', i, 0) >= 0x10000
  {
    assert code[i + 3] == 0 && code[i + 4] == 0;
  }

  /** Of the bytes of visited instructions, only upper halves of targets are changed. */
  ghost predicate OnlyTargets(code: seq<Byte>, code': seq<Byte>, v: seq<int>) {
    |code'| == |code| && forall i: nat, x: nat :: Visited(v, i) && Reads(code, i, x) && code'[x] != code[x] ==>
        InTarget(code, i, x)
  }

  lemma SameOrTarget(code: seq<Byte>, code': seq<Byte>, v: seq<int>, i: nat)
    requires |v| == |code| <= 0x10000 && Consistent(code, v, i) && Visited(v, i) && OnlyTargets(code, code', v)
    ensures SameInstruction(code, code', i) || Breaks(code', v, i)
  {
    hide OpOf, Consistent, Breaks;
    if !SameInstruction(code, code', i) {
      var x: nat :| Reads(code, i, x) && code'[x] != code[x];
      assert InTarget(code, i, x);
      assert Reads(code, i, i) && !InTarget(code, i, i);
      TargetBreaks(code, code', v, i, x);
    }
  }

  /** In code of at most 2^16 bytes in which packing overlaps at most the upper halves of targets, the packed
      code has depths if and only if nothing is overlapped: then it has the same ones, and else none. */
  lemma PackedIff(code: seq<Byte>, code': seq<Byte>, entries: seq<int>, v: seq<int>, packed: set<nat>)
    requires Assignment(code, entries, v) && BelowAll(code, entries, v) && |code| <= 0x10000
    requires OnlyPacked(code, code', packed) && PackedBegins(code, v, packed) && OnlyTargets(code, code', v)
    ensures NoAssignment(code', entries) <==> !NoOverlap(code, code', v, packed)
    ensures Assignment(code', entries, v) <==> NoOverlap(code, code', v, packed)
  {
    hide Consistent, SameInstruction, NoOverlap, OnlyTargets, Breaks, BelowAll, PackedBegins;
    if NoOverlap(code, code', v, packed) {
      AssignmentPacked(code, code', entries, v, packed);
    } else {
      SameIfNoOverlap(code, code', v, packed);
      var broken: nat :| broken < |code| && Visited(v, broken) && !SameInstruction(code, code', broken);
      forall i: nat | Visited(v, i) ensures SameOrBroken(code, code', v, i) {
        SameOrTarget(code, code', v, i);
      }
      BrokenHasNone(code, code', entries, v, broken);
    }
  }
}
