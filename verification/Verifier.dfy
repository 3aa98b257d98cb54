/** The bytecode verifier: collect_marks assigns one operand depth to every offset that is reached. */
module Verifier {
  import opened Bytecode

  /** What the verifier computes for one instruction: the depth after it, an exception, or a read
      outside the code, which is undefined in the source. */
  datatype Depth = Depth(d: nat) | Throws | OutsideCode

  function Wrap32(x: int): (u: nat)
    ensures u < UINT32
  {
    x % UINT32
  }

  /** get_new_stack, an unsigned 32-bit result that is stored in a signed variable; a negative one is
      an exhausted stack. */
  function Signed(x: int): (r: Depth)
    ensures r.Depth? ==> r.d <= INT32_MAX
  {
    var u := Wrap32(x);
    if u <= INT32_MAX then Depth(u) else Throws
  }

  function NewStack(code: seq<Byte>, cur: nat, i: nat, op: Op): (r: Depth)
    requires i < |code|
    ensures r.Depth? ==> r.d <= INT32_MAX
  {
    match op
    case BINOP | CJMPz | CJMPnz | DROP | ELEM | STI => Signed(cur - 1)
    case CONST | DUP | LD | CALL_READ | CALL_STRING | STRING | LDA | CLOSURE => Signed(cur + 1)
    case JMP | ST | CALL_WRITE | CALL_LENGTH | CBEGIN | BEGIN | END | TAG | ARRAY | FAIL | LINE | SWAP => Signed(cur)
    case SEXP | CALL => if i + 9 > |code| then OutsideCode else Signed(cur + 1 - Arg(code, i, 1))
    case CALL_ARRAY => if i + 5 > |code| then OutsideCode else Signed(cur + 1 - Arg(code, i, 0))
    case CALLC => if i + 5 > |code| then OutsideCode else Signed(cur - Arg(code, i, 0))
    case STA => Signed(cur - 2)
    case PATT =>
      var kind := LowBits(code[i]);
      if kind == 0 then Signed(cur - 1) else if kind <= 6 then Signed(cur) else Throws
    case RET | UNKNOWN => Throws
  }

  /** The operand-count check before get_new_stack: CALLC, ARRAY, SEXP and CALL only. */
  function DepthAfter(code: seq<Byte>, cur: nat, i: nat, op: Op): (r: Depth)
    requires i < |code|
    ensures r.Depth? ==> r.d <= INT32_MAX
  {
    if op == CALLC || op == ARRAY then
      if i + 5 > |code| then OutsideCode
      else if Arg(code, i, 0) > cur then Throws
      else NewStack(code, cur, i, op)
    else if op == SEXP || op == CALL then
      if i + 9 > |code| then OutsideCode
      else if Arg(code, i, 1) > cur then Throws
      else NewStack(code, cur, i, op)
    else NewStack(code, cur, i, op)
  }

  predicate IsBranch(op: Op) {
    op == CJMPz || op == CJMPnz || op == CALL || op == JMP
  }

  /** The offsets that must carry a depth after the instruction at `i`, in the order in which
      collect_marks visits them: branch and call targets, then the next instruction. */
  function Successors(code: seq<Byte>, i: nat, op: Op, next: nat, d: nat): seq<(nat, nat)>
    requires IsBranch(op) ==> i + 5 <= |code|
  {
    match op
    case CJMPz | CJMPnz => [(Arg(code, i, 0), d), (next, d)]
    case CALL => [(Arg(code, i, 0), 0), (next, d)]
    case JMP => [(Arg(code, i, 0), d)]
    case END | FAIL | RET => []
    case _ => [(next, d)]
  }

  /** visited: -1 for an offset not reached. */
  predicate Visited(v: seq<int>, i: nat) {
    i < |v| && v[i] >= 0
  }

  predicate Carries(v: seq<int>, edge: (nat, nat)) {
    edge.0 < |v| && v[edge.0] == edge.1
  }

  /** The instruction at `i` decodes, does not exhaust the stack, and every successor carries exactly
      the depth that results. */
  ghost predicate Consistent(code: seq<Byte>, v: seq<int>, i: nat)
    requires |v| == |code|
  {
    Visited(v, i) ==>
      var dec := Decode(code, i);
      && dec.Instr?
      && var after := DepthAfter(code, v[i], i, dec.op);
         && after.Depth?
         && (IsBranch(dec.op) ==> i + 5 <= |code|)
         && forall e :: e in Successors(code, i, dec.op, dec.next, after.d) ==> Carries(v, e)
  }

  /** The vector has 32-bit signed integers. */
  ghost predicate Ranged(v: seq<int>) {
    forall i: nat :: i < |v| ==> -1 <= v[i] <= INT32_MAX
  }

  /** Every entry has depth 0. */
  ghost predicate Starts(entries: seq<int>, v: seq<int>) {
    forall e :: e in entries ==> 0 <= e < |v| && v[e] == 0
  }

  /** A depth for every offset reached from `entries`, which have depth 0. */
  ghost predicate Assignment(code: seq<Byte>, entries: seq<int>, v: seq<int>) {
    && |v| == |code|
    && Starts(entries, v)
    && Ranged(v)
    && forall i: nat :: i < |v| ==> Consistent(code, v, i)
  }

  /** `w` gives every offset that `v` reaches the same depth. */
  ghost predicate Below(v: seq<int>, w: seq<int>) {
    |v| == |w| && forall i: nat :: Visited(v, i) ==> v[i] == w[i]
  }

  ghost predicate BelowAll(code: seq<Byte>, entries: seq<int>, v: seq<int>) {
    forall w :: Assignment(code, entries, w) ==> Below(v, w)
  }

  /** How the verifier ends: normally, with an exception, by leaving the bounds of an array, or where
      an instruction runs past the end of 32-bit offsets. */
  datatype Outcome = Accepted | Exception | OutOfBounds | Wrapped

  function Unvisited(v: seq<int>): nat {
    if v == [] then 0 else Unvisited(v[..|v| - 1]) + if v[|v| - 1] == -1 then 1 else 0
  }

  lemma {:induction false} VisitOne(v: seq<int>, i: nat, d: nat)
    requires i < |v| && v[i] == -1
    ensures Unvisited(v[i := d]) + 1 == Unvisited(v)
  {
    var n := |v| - 1;
    if i < n {
      assert v[i := d][..n] == v[..n][i := d];
      VisitOne(v[..n], i, d);
    } else {
      assert v[i := d][..n] == v[..n];
    }
  }

  lemma UnvisitedOfAll(v: seq<int>)
    ensures Unvisited(v) <= |v|
  {
    if v != [] {
      UnvisitedOfAll(v[..|v| - 1]);
    }
  }

  // One step of the search.

  /** `v'` has everything that `v` has. */
  ghost predicate Extends(v: seq<int>, v': seq<int>) {
    |v'| == |v| && forall i: nat :: Visited(v, i) ==> v'[i] == v[i]
  }

  lemma ConsistentGrows(code: seq<Byte>, v: seq<int>, v': seq<int>, i: nat)
    requires |v| == |code| && Extends(v, v') && Visited(v, i) && Consistent(code, v, i)
    ensures Consistent(code, v', i)
  {
    var dec := Decode(code, i);
    var after := DepthAfter(code, v[i], i, dec.op);
    forall e | e in Successors(code, i, dec.op, dec.next, after.d) ensures Carries(v', e) {
      assert Carries(v, e);
      assert Visited(v, e.0);
    }
  }

  /** The work that is left: every visited offset is consistent or pending, and no depth was ever a
      matter of choice. */
  ghost predicate Searching(code: seq<Byte>, entries: seq<int>, v: seq<int>, pending: seq<nat>) {
    && |v| == |code|
    && Ranged(v)
    && (forall i: nat :: i < |v| && i !in pending ==> Consistent(code, v, i))
    && (forall i :: i in pending ==> Visited(v, i))
    && BelowAll(code, entries, v)
  }

  /** Every assignment has this edge. */
  ghost predicate Forced(code: seq<Byte>, entries: seq<int>, edge: (nat, nat)) {
    forall w :: Assignment(code, entries, w) ==> Carries(w, edge)
  }

  ghost predicate NoAssignment(code: seq<Byte>, entries: seq<int>) {
    forall w :: !Assignment(code, entries, w)
  }

  /** If the instruction at a visited offset fails, there is no assignment; otherwise its successors
      are forced. */
  lemma StepForced(code: seq<Byte>, entries: seq<int>, v: seq<int>, i: nat)
    requires |v| == |code| && BelowAll(code, entries, v) && Visited(v, i)
    ensures var dec := Decode(code, i);
            if !dec.Instr? || !DepthAfter(code, v[i], i, dec.op).Depth? || (IsBranch(dec.op) && i + 5 > |code|)
            then NoAssignment(code, entries)
            else forall e :: e in Successors(code, i, dec.op, dec.next, DepthAfter(code, v[i], i, dec.op).d) ==>
                Forced(code, entries, e)
  {
    forall w | Assignment(code, entries, w) ensures Visited(w, i) && w[i] == v[i] && Consistent(code, w, i) {
      assert Below(v, w);
    }
  }

  lemma ForcedMark(code: seq<Byte>, entries: seq<int>, v: seq<int>, pending: seq<nat>, edge: (nat, nat))
    requires Searching(code, entries, v, pending) && Forced(code, entries, edge)
    requires edge.0 < |v| && v[edge.0] == -1 && edge.1 <= INT32_MAX
    ensures Searching(code, entries, v[edge.0 := edge.1], pending + [edge.0])
  {
    var v' := v[edge.0 := edge.1];
    assert Extends(v, v');
    forall i: nat | i < |v'| && i !in pending + [edge.0] ensures Consistent(code, v', i) {
      if Visited(v, i) {
        ConsistentGrows(code, v, v', i);
      }
    }
    forall w | Assignment(code, entries, w) ensures Below(v', w) {
      assert Below(v, w) && Carries(w, edge);
    }
  }

  lemma ForcedClash(code: seq<Byte>, entries: seq<int>, v: seq<int>, edge: (nat, nat))
    requires |v| == |code| && BelowAll(code, entries, v) && Forced(code, entries, edge)
    requires edge.0 >= |v| || (Visited(v, edge.0) && v[edge.0] != edge.1)
    ensures NoAssignment(code, entries)
  {
    forall w ensures !Assignment(code, entries, w) {
      assert Assignment(code, entries, w) ==> Below(v, w);
      assert Assignment(code, entries, w) ==> Carries(w, edge);
    }
  }

  // How the search fails.

  /** The instruction at a visited offset asks for this depth. */
  ghost predicate Leads(code: seq<Byte>, v: seq<int>, i: nat, edge: (nat, nat))
    requires |v| == |code|
  {
    && Visited(v, i)
    && var dec := Decode(code, i);
       && dec.Instr? && (IsBranch(dec.op) ==> i + 5 <= |code|)
       && var after := DepthAfter(code, v[i], i, dec.op);
          after.Depth? && edge in Successors(code, i, dec.op, dec.next, after.d)
  }

  /** A visited instruction is none, exhausts the stack, or asks for a depth other than the one found. */
  ghost predicate Rejects(code: seq<Byte>, v: seq<int>, i: nat)
    requires |v| == |code|
  {
    && Visited(v, i)
    && var dec := Decode(code, i);
       || dec.BadOpcode?
       || (dec.Instr? && DepthAfter(code, v[i], i, dec.op).Throws?)
       || exists e: (nat, nat) :: Leads(code, v, i, e) && Visited(v, e.0) && v[e.0] != e.1
  }

  /** A visited instruction runs over the end of the code, or leads out of it. */
  ghost predicate Escapes(code: seq<Byte>, v: seq<int>, i: nat)
    requires |v| == |code|
  {
    && Visited(v, i)
    && var dec := Decode(code, i);
       || dec.OutOfCode?
       || (dec.Instr? && DepthAfter(code, v[i], i, dec.op).OutsideCode?)
       || (dec.Instr? && IsBranch(dec.op) && i + 5 > |code|)
       || exists e: (nat, nat) :: Leads(code, v, i, e) && e.0 >= |v|
  }

  /** A failing outcome is the one of the instruction at `i`. */
  ghost predicate FailsAt(out: Outcome, code: seq<Byte>, v: seq<int>, i: nat)
    requires |v| == |code|
  {
    match out
    case Accepted => false
    case Exception => Rejects(code, v, i)
    case OutOfBounds => Escapes(code, v, i)
    case Wrapped => false
  }

  ghost predicate FailsSomewhere(out: Outcome, code: seq<Byte>, v: seq<int>)
    requires |v| == |code|
  {
    exists i: nat :: FailsAt(out, code, v, i)
  }

  lemma LeadsGrows(code: seq<Byte>, v: seq<int>, v': seq<int>, i: nat, edge: (nat, nat))
    requires |v| == |code| && Extends(v, v') && Leads(code, v, i, edge)
    ensures Leads(code, v', i, edge)
  {
  }

  /** perform_step. */
  method PerformStep(ghost code: seq<Byte>, ghost entries: seq<int>, visited: array<int>, labels: seq<nat>, target: nat,
                     stack: nat,
                     ghost current: nat)
    returns (out: Outcome, labels': seq<nat>)
    requires Searching(code, entries, visited[..], [current] + labels)
    requires Forced(code, entries, (target, stack)) && stack <= INT32_MAX
    requires Leads(code, visited[..], current, (target, stack))
    modifies visited
    ensures Extends(old(visited[..]), visited[..])
    ensures !out.Accepted? ==> NoAssignment(code, entries) && FailsAt(out, code, visited[..], current)
    ensures out.Accepted? ==>
              Searching(code, entries, visited[..], [current] + labels') && Carries(visited[..], (target, stack))
    ensures out.Accepted? ==> Unvisited(visited[..]) + |labels'| == Unvisited(old(visited[..])) + |labels|
  {
    labels' := labels;
    if target >= visited.Length {
      ForcedClash(code, entries, visited[..], (target, stack));
      return OutOfBounds, labels';
    }
    if visited[target] == -1 {
      ghost var v := visited[..];
      ForcedMark(code, entries, v, [current] + labels, (target, stack));
      VisitOne(v, target, stack);
      visited[target] := stack;
      labels' := labels + [target];
      assert visited[..] == v[target := stack];
      assert [current] + labels' == [current] + labels + [target];
    } else if visited[target] != stack {
      ForcedClash(code, entries, visited[..], (target, stack));
      return Exception, labels';
    }
    out := Accepted;
  }

  /** When the depths after the instruction at `current` are all carried, it is no longer pending. */
  lemma CurrentDone(code: seq<Byte>, entries: seq<int>, v: seq<int>, current: nat, labels: seq<nat>)
    requires Searching(code, entries, v, [current] + labels) && Consistent(code, v, current)
    ensures Searching(code, entries, v, labels)
  {
    forall i: nat | i < |v| && i !in labels ensures Consistent(code, v, i) {
      if i != current {
        assert i !in [current] + labels;
      }
    }
    forall i | i in labels ensures Visited(v, i) {
      assert i in [current] + labels;
    }
  }

  lemma CarriesGrows(v: seq<int>, v': seq<int>, edge: (nat, nat))
    requires Extends(v, v') && Carries(v, edge)
    ensures Carries(v', edge)
  {
    assert Visited(v, edge.0);
  }

  /** The part of the inner loop that ends in perform_step: conditional jumps, calls and jumps. */
  method Branch(code: seq<Byte>, ghost entries: seq<int>, visited: array<int>, labels: seq<nat>, i: nat, op: Op,
                next: nat, d: nat)
    returns (out: Outcome, labels': seq<nat>)
    requires Searching(code, entries, visited[..], [i] + labels) && i < visited.Length
    requires Decode(code, i) == Instr(op, next) && IsBranch(op)
    requires visited[i] >= 0 && DepthAfter(code, visited[i], i, op) == Depth(d)
    modifies visited
    ensures Extends(old(visited[..]), visited[..])
    ensures !out.Accepted? ==> NoAssignment(code, entries) && FailsAt(out, code, visited[..], i)
    ensures out.Accepted? ==> Searching(code, entries, visited[..], labels')
    ensures out.Accepted? ==> Unvisited(visited[..]) + |labels'| == Unvisited(old(visited[..])) + |labels|
  {
    ghost var v := visited[..];
    StepForced(code, entries, v, i);
    labels' := labels;
    if i + 5 > |code| {
      return OutOfBounds, labels';
    }
    var target := Arg(code, i, 0);
    ghost var edges := Successors(code, i, op, next, d);
    var stack := if op == CALL then 0 else d;
    assert (target, stack) == edges[0];
    assert Leads(code, v, i, edges[0]);
    out, labels' := PerformStep(code, entries, visited, labels, target, stack, i);
    if out.Accepted? && op != JMP {
      ghost var v1 := visited[..];
      assert (next, d) == edges[1];
      assert Leads(code, v, i, edges[1]);
      LeadsGrows(code, v, v1, i, edges[1]);
      out, labels' := PerformStep(code, entries, visited, labels', next, d, i);
      if out.Accepted? {
        CarriesGrows(v1, visited[..], edges[0]);
      }
    }
    if out.Accepted? {
      assert Visited(v, i);
      CurrentDone(code, entries, visited[..], i, labels');
    }
  }

  /** One round of the inner loop of collect_marks on the instruction at `i`; `next` is where it goes
      on, if it does. */
  method Follow(code: seq<Byte>, ghost entries: seq<int>, visited: array<int>, labels: seq<nat>, i: nat)
    returns (out: Outcome, labels': seq<nat>, goOn: bool, next: nat)
    requires Searching(code, entries, visited[..], [i] + labels) && i < visited.Length && visited[i] >= 0
    modifies visited
    ensures Extends(old(visited[..]), visited[..])
    ensures !out.Accepted? ==> NoAssignment(code, entries) && FailsAt(out, code, visited[..], i)
    ensures out.Accepted? && !goOn ==> Searching(code, entries, visited[..], labels')
    ensures out.Accepted? && goOn ==>
              Searching(code, entries, visited[..], [next] + labels') && next < visited.Length && visited[next] >= 0
    ensures out.Accepted? ==>
              Unvisited(visited[..]) + |labels'| + (if goOn then 1 else 0) == Unvisited(old(visited[..])) + |labels|
  {
    labels', goOn, next := labels, false, 0;
    ghost var v := visited[..];
    StepForced(code, entries, v, i);
    var dec := Decode(code, i);
    if !dec.Instr? {
      return if dec.BadOpcode? then Exception else OutOfBounds, labels', goOn, next;
    }
    var after := DepthAfter(code, visited[i], i, dec.op);
    if !after.Depth? {
      return if after.Throws? then Exception else OutOfBounds, labels', goOn, next;
    }
    if IsBranch(dec.op) {
      out, labels' := Branch(code, entries, visited, labels, i, dec.op, dec.next, after.d);
    } else if dec.op == END || dec.op == FAIL || dec.op == RET {
      CurrentDone(code, entries, v, i, labels);
      out := Accepted;
    } else {
      assert Successors(code, i, dec.op, dec.next, after.d) == [(dec.next, after.d)];
      out, goOn := FallThrough(code, entries, visited, labels, i, dec.op, dec.next, after.d);
      next := dec.next;
    }
  }

  /** The end of the inner loop: the next instruction is taken at once if it is new. */
  method FallThrough(code: seq<Byte>, ghost entries: seq<int>, visited: array<int>, labels: seq<nat>, i: nat,
                     ghost op: Op, next: nat, d: nat)
    returns (out: Outcome, goOn: bool)
    requires Searching(code, entries, visited[..], [i] + labels) && i < visited.Length && visited[i] >= 0
    requires Decode(code, i) == Instr(op, next) && DepthAfter(code, visited[i], i, op) == Depth(d) && !IsBranch(op)
    requires Successors(code, i, op, next, d) == [(next, d)]
    modifies visited
    ensures Extends(old(visited[..]), visited[..])
    ensures !out.Accepted? ==> NoAssignment(code, entries) && FailsAt(out, code, visited[..], i)
    ensures out.Accepted? && !goOn ==> Searching(code, entries, visited[..], labels)
    ensures out.Accepted? && goOn ==>
              Searching(code, entries, visited[..], [next] + labels) && next < visited.Length && visited[next] >= 0
    ensures out.Accepted? ==>
              Unvisited(visited[..]) + (if goOn then 1 else 0) == Unvisited(old(visited[..]))
  {
    ghost var v := visited[..];
    StepForced(code, entries, v, i);
    goOn := false;
    ghost var edge := (next, d);
    assert edge in Successors(code, i, op, next, d);
    assert Leads(code, v, i, edge);
    if next >= visited.Length {
      ForcedClash(code, entries, v, edge);
      return OutOfBounds, goOn;
    }
    if visited[next] == -1 {
      ForcedMark(code, entries, v, [i] + labels, edge);
      VisitOne(v, next, d);
      visited[next] := d;
      goOn := true;
      assert visited[..] == v[next := d];
      CurrentDone(code, entries, visited[..], i, labels + [next]);
      SameElements(code, entries, visited[..], labels, next);
    } else if visited[next] != d {
      ForcedClash(code, entries, v, edge);
      return Exception, goOn;
    } else {
      CurrentDone(code, entries, v, i, labels);
    }
    out := Accepted;
  }

  lemma SameElements(code: seq<Byte>, entries: seq<int>, v: seq<int>, labels: seq<nat>, next: nat)
    requires Searching(code, entries, v, labels + [next])
    ensures Searching(code, entries, v, [next] + labels)
  {
    forall i ensures i in [next] + labels <==> i in labels + [next] {
    }
  }

  /** The entries: offsets of public symbols with the name "main". */
  function Entries(publics: seq<(string, int)>): (entries: seq<int>)
  {
    if publics == [] then []
    else if publics[0].0 == "main" then [publics[0].1] + Entries(publics[1..])
    else Entries(publics[1..])
  }

  lemma {:induction false} EntriesAreMains(publics: seq<(string, int)>, e: int)
    ensures e in Entries(publics) <==> ("main", e) in publics
  {
    if publics != [] {
      EntriesAreMains(publics[1..], e);
      assert publics == [publics[0]] + publics[1..];
    }
  }

  /** The first loop of collect_marks. */
  method MarkEntries(code: seq<Byte>, publics: seq<(string, int)>, visited: array<int>)
    returns (out: Outcome, labels: seq<nat>)
    requires visited.Length == |code| && forall i :: 0 <= i < visited.Length ==> visited[i] == -1
    modifies visited
    ensures !out.Accepted? ==> NoAssignment(code, Entries(publics))
    ensures !out.Accepted? ==> out.OutOfBounds? && exists e :: e in Entries(publics) && !(0 <= e < |code|)
    ensures out.Accepted? ==> Searching(code, Entries(publics), visited[..], labels)
    ensures out.Accepted? ==> Starts(Entries(publics), visited[..])
    ensures out.Accepted? ==> Unvisited(visited[..]) + |labels| <= |code|
  {
    labels := [];
    ghost var entries := Entries(publics);
    UnvisitedOfAll(visited[..]);
    for k := 0 to |publics|
      invariant Searching(code, entries, visited[..], labels)
      invariant forall i :: 0 <= i < visited.Length ==> visited[i] == -1 || visited[i] == 0
      invariant forall j :: 0 <= j < k && publics[j].0 == "main" ==>
                  0 <= publics[j].1 < visited.Length && visited[publics[j].1] == 0
      invariant Unvisited(visited[..]) + |labels| <= |code|
    {
      var symbol := publics[k];
      if symbol.0 == "main" {
        EntriesAreMains(publics, symbol.1);
        if !(0 <= symbol.1 < visited.Length) {
          return OutOfBounds, labels;
        }
        if visited[symbol.1] == -1 {
          ghost var v := visited[..];
          EntryForced(code, entries, symbol.1);
          ForcedMark(code, entries, v, labels, (symbol.1, 0));
          VisitOne(v, symbol.1, 0);
          labels := labels + [symbol.1];
          visited[symbol.1] := 0;
          assert visited[..] == v[symbol.1 := 0];
        }
      }
    }
    forall e | e in entries ensures 0 <= e < visited.Length && visited[e] == 0 {
      EntriesAreMains(publics, e);
    }
    out := Accepted;
  }

  lemma EntryForced(code: seq<Byte>, entries: seq<int>, e: nat)
    requires e in entries
    ensures Forced(code, entries, (e, 0))
  {
  }

  /** collect_marks. It is accepted exactly when a consistent assignment of depths exists, and then
      `visited` is the least one: it agrees with every other on all offsets that it reaches. */
  method CollectMarks(code: seq<Byte>, publics: seq<(string, int)>, visited: array<int>) returns (out: Outcome)
    requires visited.Length == |code| && forall i :: 0 <= i < visited.Length ==> visited[i] == -1
    modifies visited
    ensures out.Accepted? ==>
              Assignment(code, Entries(publics), visited[..]) && BelowAll(code, Entries(publics), visited[..])
    ensures !out.Accepted? ==> NoAssignment(code, Entries(publics))
    ensures !out.Accepted? ==>
              || FailsSomewhere(out, code, visited[..])
              || (out.OutOfBounds? && exists e :: e in Entries(publics) && !(0 <= e < |code|))
  {
    ghost var entries := Entries(publics);
    var labels;
    out, labels := MarkEntries(code, publics, visited);
    if !out.Accepted? {
      return;
    }
    while labels != []
      invariant Searching(code, entries, visited[..], labels)
      invariant Starts(entries, visited[..])
      decreases Unvisited(visited[..]) + |labels|
    {
      var i := labels[0];
      ghost var v := visited[..];
      ghost var work := Unvisited(v) + |labels|;
      assert [i] + labels[1..] == labels;
      labels := labels[1..];
      var goOn := true;
      while goOn
        invariant Extends(v, visited[..])
        invariant Searching(code, entries, visited[..], if goOn then [i] + labels else labels)
        invariant goOn ==> Visited(visited[..], i)
        invariant Unvisited(visited[..]) + |labels| + (if goOn then 1 else 0) <= work
        invariant !goOn ==> Unvisited(visited[..]) + |labels| < work
        decreases Unvisited(visited[..]) + |labels| + (if goOn then 1 else 0), goOn
      {
        out, labels, goOn, i := Follow(code, entries, visited, labels, i);
        if !out.Accepted? {
          return;
        }
      }
      StartsGrow(entries, v, visited[..]);
    }
    out := Accepted;
  }

  lemma StartsGrow(entries: seq<int>, v: seq<int>, v': seq<int>)
    requires Starts(entries, v) && Extends(v, v')
    ensures Starts(entries, v')
  {
    forall e | e in entries ensures 0 <= e < |v'| && v'[e] == 0 {
      assert Visited(v, e);
    }
  }
}
