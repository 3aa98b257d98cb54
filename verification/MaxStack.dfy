/** The second half of the verifier: verify scans the code once, checks variables and jump targets, and
    packs the greatest depth of a function into the upper half of the first argument of its BEGIN. */
module MaxStack {
  import opened Bytecode
  import opened Verifier

  /** The offsets that the scan visits from `i` on, up to the end marker 0xFF. */
  function Trace(code: seq<Byte>, i: nat): seq<nat>
    decreases |code| - i
  {
    if i >= |code| || code[i] == 0xFF then []
    else
      var dec := Decode(code, i);
      [i] + if dec.Instr? && dec.next > i then Trace(code, dec.next) else []
  }

  predicate IsEnd(code: seq<Byte>, v: seq<int>, i: nat) {
    i < |code| && Visited(v, i) && OpOf(code[i]) == END
  }

  predicate IsBegin(code: seq<Byte>, v: seq<int>, i: nat) {
    i < |code| && Visited(v, i) && (OpOf(code[i]) == BEGIN || OpOf(code[i]) == CBEGIN)
  }

  /** begin_offsets after the offsets in `done`: every END closes the latest BEGIN that is open. */
  function OpenBegins(code: seq<Byte>, v: seq<int>, done: seq<nat>): seq<nat> {
    if done == [] then []
    else
      var rest, i := OpenBegins(code, v, done[..|done| - 1]), done[|done| - 1];
      if IsBegin(code, v, i) then rest + [i]
      else if IsEnd(code, v, i) && rest != [] then rest[..|rest| - 1]
      else rest
  }

  function Max(a: int, b: int): int {
    if a >= b then a else b
  }

  /** max_stack after the offsets in `done`. */
  function HighWater(code: seq<Byte>, v: seq<int>, done: seq<nat>): (h: int)
    ensures h >= -1
  {
    if done == [] then 0
    else
      var rest, i := HighWater(code, v, done[..|done| - 1]), done[|done| - 1];
      if !Visited(v, i) then rest
      else if IsEnd(code, v, i) then -1
      else Max(rest, v[i])
  }

  lemma OneMore(code: seq<Byte>, v: seq<int>, t: seq<nat>, i: nat)
    ensures (t + [i])[..|t|] == t
    ensures IsBegin(code, v, i) ==> OpenBegins(code, v, t + [i]) == OpenBegins(code, v, t) + [i]
    ensures IsEnd(code, v, i) && OpenBegins(code, v, t) != [] ==>
              OpenBegins(code, v, t + [i]) == OpenBegins(code, v, t)[..|OpenBegins(code, v, t)| - 1]
    ensures !IsBegin(code, v, i) && !IsEnd(code, v, i) ==> OpenBegins(code, v, t + [i]) == OpenBegins(code, v, t)
    ensures HighWater(code, v, t + [i]) ==
            if !Visited(v, i) then HighWater(code, v, t) else if IsEnd(code, v, i) then -1
                else Max(HighWater(code, v, t), v[i])
  {
    assert (t + [i])[..|t|] == t;
  }

  // Checks.

  /** validate_variable does not throw. */
  predicate VariableOk(kind: int, index: nat, args: nat, locals: nat, globals: nat) {
    (kind == 0 && index < globals) || (kind == 1 && index < locals) || (kind == 2 && index < args) || kind == 3
  }

  /** The designations of a CLOSURE. */
  predicate DesignationOk(code: seq<Byte>, i: nat, j: nat, args: nat, locals: nat, globals: nat) {
    i + 14 + 5 * j <= |code| && VariableOk(code[i + 9 + 5 * j], U32(code, i + 10 + 5 * j), args, locals, globals)
  }

  predicate IsVariable(op: Op) {
    op == LD || op == ST || op == LDA
  }

  /** The instruction at `i`, in the function that starts at `b`, refers only to variables that exist. */
  ghost predicate VariablesExist(code: seq<Byte>, i: nat, b: nat, globals: nat)
  {
    && i < |code|
    && b + 9 <= |code|
    && (IsVariable(OpOf(code[i])) ==>
          i + 5 <= |code| && VariableOk(LowBits(code[i]), Arg(code, i, 0), Arg(code, b, 0), Arg(code, b, 1), globals))
    && (OpOf(code[i]) == CLOSURE ==>
          i + 9 <= |code| && forall j: nat :: j < Arg(code, i, 1) ==>
              DesignationOk(code, i, j, Arg(code, b, 0), Arg(code, b, 1), globals))
  }

  /** What the scan has found at the offset `t[k]`. */
  ghost predicate Checked(code: seq<Byte>, v: seq<int>, t: seq<nat>, k: nat, globals: nat)
    requires k < |t|
  {
    t[k] < |code| && Visited(v, t[k]) && (IsVariable(OpOf(code[t[k]])) || OpOf(code[t[k]]) == CLOSURE) ==>
      var begins := OpenBegins(code, v, t[..k]);
      begins != [] && VariablesExist(code, t[k], begins[|begins| - 1], globals)
  }

  /** The upper half of the first argument of the BEGIN at `b`. */
  function Packed(code: seq<Byte>, b: nat): int
    requires b + 5 <= |code|
  {
    code[b + 3] as int + 0x100 * code[b + 4] as int
  }

  /** The END at `t[k]` closes a BEGIN whose upper half is clear. */
  ghost predicate Closes(code: seq<Byte>, v: seq<int>, t: seq<nat>, k: nat)
    requires k < |t|
  {
    IsEnd(code, v, t[k]) ==>
      var begins := OpenBegins(code, v, t[..k]);
      && begins != []
      && begins[|begins| - 1] + 5 <= |code|
      && Packed(code, begins[|begins| - 1]) == 0
  }

  /** The scan goes past the offset `t[k]`. */
  ghost predicate StepPasses(code: seq<Byte>, v: seq<int>, t: seq<nat>, k: nat, globals: nat)
    requires k < |t|
  {
    && Decode(code, t[k]).Instr?
    && Decode(code, t[k]).next > t[k]
    && Closes(code, v, t, k)
    && Checked(code, v, t, k, globals)
  }

  ghost predicate Passes(code: seq<Byte>, v: seq<int>, t: seq<nat>, globals: nat) {
    forall k: nat :: k < |t| ==> StepPasses(code, v, t, k, globals)
  }

  /** The BEGIN that the END at `t[k]` closes holds the depth, cut to 16 bits. */
  ghost predicate PackedAt(code: seq<Byte>, code': seq<Byte>, v: seq<int>, t: seq<nat>, k: nat, packed: set<nat>)
    requires k < |t|
  {
    IsEnd(code, v, t[k]) ==>
      var begins := OpenBegins(code, v, t[..k]);
      && begins != []
      && var b := begins[|begins| - 1];
         && b in packed
         && b + 5 <= |code'|
         && Packed(code', b) == Max(HighWater(code, v, t[..k]), v[t[k]]) % 0x10000
  }

  ghost predicate AllPacked(code: seq<Byte>, code': seq<Byte>, v: seq<int>, t: seq<nat>, packed: set<nat>) {
    forall k: nat :: k < |t| ==> PackedAt(code, code', v, t, k, packed)
  }

  /** `code'` is `code` but for the upper halves at `packed`. */
  ghost predicate OnlyPacked(code: seq<Byte>, code': seq<Byte>, packed: set<nat>) {
    |code'| == |code| && forall x: nat :: x < |code| && code'[x] != code[x] ==> InHalf(packed, x)
  }

  ghost predicate InHalf(packed: set<nat>, x: nat) {
    (x >= 3 && x - 3 in packed) || (x >= 4 && x - 4 in packed)
  }

  /** The BEGINs that are packed lie inside of the code and had clear upper halves. */
  ghost predicate PackedBegins(code: seq<Byte>, v: seq<int>, packed: set<nat>) {
    forall b :: b in packed ==> IsBegin(code, v, b) && b + 9 <= |code| && Packed(code, b) == 0
  }

  // The state of the scan.

  ghost predicate AllBegins(code: seq<Byte>, v: seq<int>, begins: seq<nat>, packed: set<nat>) {
    && (forall b :: b in begins ==> IsBegin(code, v, b))
    && forall b :: b in packed ==> IsBegin(code, v, b)
  }

  /** The upper halves at `packed` were clear. */
  ghost predicate Cleared(code: seq<Byte>, packed: set<nat>) {
    forall b :: b in packed ==> b + 5 <= |code| && Packed(code, b) == 0
  }

  ghost predicate Apart(b: nat, c: nat) {
    b + 9 <= c || c + 9 <= b
  }

  ghost predicate Spaced(begins: seq<nat>, packed: set<nat>, off: nat, size: nat) {
    && (forall j: nat, k: nat :: j < k < |begins| ==> Apart(begins[j], begins[k]))
    && (forall b :: b in begins ==> b + 9 <= off && b + 9 <= size)
    && (forall b :: b in packed ==> b + 9 <= off && b + 9 <= size)
    && forall b, c :: b in packed && c in begins ==> Apart(b, c)
  }

  ghost predicate Scan(code: seq<Byte>, code': seq<Byte>, v: seq<int>, t: seq<nat>, off: nat, begins: seq<nat>,
                       packed: set<nat>) {
    && |code'| == |code|
    && t + Trace(code, off) == Trace(code, 0)
    && begins == OpenBegins(code, v, t)
    && OnlyPacked(code, code', packed)
    && AllBegins(code, v, begins, packed)
    && Spaced(begins, packed, off, |code|)
    && Cleared(code, packed)
    && AllPacked(code, code', v, t, packed)
  }

  /** Nothing from the current offset on has been changed, nor anything in a BEGIN that is open. */
  lemma Ahead(code: seq<Byte>, code': seq<Byte>, begins: seq<nat>, packed: set<nat>, off: nat)
    requires OnlyPacked(code, code', packed) && Spaced(begins, packed, off, |code|)
    ensures forall x: nat :: off <= x < |code| ==> code'[x] == code[x]
    ensures Decode(code', off) == Decode(code, off)
  {
    forall x: nat | off <= x < |code| ensures code'[x] == code[x] {
      assert !InHalf(packed, x);
    }
  }

  lemma OpenIntact(code: seq<Byte>, code': seq<Byte>, begins: seq<nat>, packed: set<nat>, off: nat, b: nat)
    requires OnlyPacked(code, code', packed) && Spaced(begins, packed, off, |code|) && b in begins
    ensures b + 9 <= |code| && forall x: nat :: b <= x < b + 9 ==> code'[x] == code[x]
  {
    forall x: nat | b <= x < b + 9 ensures code'[x] == code[x] {
      assert !InHalf(packed, x);
    }
  }

  lemma NextTrace(code: seq<Byte>, t: seq<nat>, off: nat)
    requires t + Trace(code, off) == Trace(code, 0)
    requires off < |code| && code[off] != 0xFF && Decode(code, off).Instr? && Decode(code, off).next > off
    ensures t + [off] + Trace(code, Decode(code, off).next) == Trace(code, 0)
  {
  }

  /** A step that fails at the end of a prefix fails in the whole trace. */
  lemma PrefixFails(code: seq<Byte>, v: seq<int>, t: seq<nat>, rest: seq<nat>, k: nat, globals: nat)
    requires k < |t| && !StepPasses(code, v, t, k, globals)
    ensures !Passes(code, v, t + rest, globals)
  {
    assert (t + rest)[..k] == t[..k];
    assert !StepPasses(code, v, t + rest, k, globals);
  }

  lemma PassesOneMore(code: seq<Byte>, v: seq<int>, t: seq<nat>, i: nat, globals: nat)
    requires Passes(code, v, t, globals) && StepPasses(code, v, t + [i], |t|, globals)
    ensures Passes(code, v, t + [i], globals)
  {
    forall k: nat | k < |t + [i]| ensures StepPasses(code, v, t + [i], k, globals) {
      if k < |t| {
        assert StepPasses(code, v, t, k, globals);
        assert (t + [i])[..k] == t[..k];
      }
    }
  }

  lemma PackedOneMore(code: seq<Byte>, code': seq<Byte>, v: seq<int>, t: seq<nat>, i: nat, packed: set<nat>)
    requires AllPacked(code, code', v, t, packed) && PackedAt(code, code', v, t + [i], |t|, packed)
    ensures AllPacked(code, code', v, t + [i], packed)
  {
    forall k: nat | k < |t + [i]| ensures PackedAt(code, code', v, t + [i], k, packed) {
      if k < |t| {
        assert PackedAt(code, code', v, t, k, packed);
        assert (t + [i])[..k] == t[..k];
      }
    }
  }

  /** Any instruction but a visited BEGIN or END. */
  lemma ScanOther(code: seq<Byte>, code': seq<Byte>, v: seq<int>, t: seq<nat>, off: nat, begins: seq<nat>,
                  packed: set<nat>)
    requires Scan(code, code', v, t, off, begins, packed)
    requires off < |code| && code[off] != 0xFF && Decode(code, off).Instr? && Decode(code, off).next > off
    requires !IsBegin(code, v, off) && !IsEnd(code, v, off)
    ensures Scan(code, code', v, t + [off], Decode(code, off).next, begins, packed)
  {
    NextTrace(code, t, off);
    OneMore(code, v, t, off);
    PackedOneMore(code, code', v, t, off, packed);
  }

  lemma SpacedPush(begins: seq<nat>, packed: set<nat>, off: nat, size: nat)
    requires Spaced(begins, packed, off, size) && off + 9 <= size
    ensures Spaced(begins + [off], packed, off + 9, size)
  {
    var begins' := begins + [off];
    forall b | b in begins' ensures b + 9 <= off + 9 && b + 9 <= size {
      assert b in begins || b == off;
    }
    forall b, c | b in packed && c in begins' ensures Apart(b, c) {
      assert c in begins || c == off;
    }
    forall j: nat, k: nat | j < k < |begins'| ensures Apart(begins'[j], begins'[k]) {
      assert begins[j] in begins;
    }
  }

  lemma SpacedPop(begins: seq<nat>, packed: set<nat>, off: nat, next: nat, size: nat)
    requires Spaced(begins, packed, off, size) && begins != [] && off <= next
    ensures Spaced(begins[..|begins| - 1], packed + {begins[|begins| - 1]}, next, size)
    ensures forall b :: b in packed ==> Apart(b, begins[|begins| - 1])
  {
    var n := |begins| - 1;
    assert begins[n] in begins;
    forall b | b in begins[..n] ensures b in begins {
    }
    forall b, c | b in packed + {begins[n]} && c in begins[..n] ensures Apart(b, c) {
      assert c in begins;
      if b == begins[n] {
          var j: nat :| j < n && begins[j] == c;
        assert Apart(begins[j], begins[n]);
      }
    }
    forall j: nat, k: nat | j < k < n ensures Apart(begins[..n][j], begins[..n][k]) {
      assert Apart(begins[j], begins[k]);
    }
  }

  lemma ScanBegin(code: seq<Byte>, code': seq<Byte>, v: seq<int>, t: seq<nat>, off: nat, begins: seq<nat>,
                  packed: set<nat>)
    requires Scan(code, code', v, t, off, begins, packed)
    requires off < |code| && code[off] != 0xFF && Decode(code, off).Instr? && off < Decode(code, off).next < |code|
    requires IsBegin(code, v, off)
    ensures Scan(code, code', v, t + [off], Decode(code, off).next, begins + [off], packed)
  {
    hide PackedAt, HighWater, OpenBegins, Spaced, Trace, OnlyPacked, InHalf;
    NextTrace(code, t, off);
    OneMore(code, v, t, off);
    PackedOneMore(code, code', v, t, off, packed);
    SpacedPush(begins, packed, off, |code|);
    forall b | b in begins + [off] ensures IsBegin(code, v, b) {
      assert b in begins || b == off;
    }
  }

  /** Writing the upper half of the latest open BEGIN keeps the other halves. */
  lemma KeepPacked(code: seq<Byte>, code': seq<Byte>, code'': seq<Byte>, v: seq<int>, t: seq<nat>, b: nat,
                   packed: set<nat>)
    requires AllPacked(code, code', v, t, packed) && |code''| == |code'|
    requires forall x: nat :: x < |code'| && x != b + 3 && x != b + 4 ==> code''[x] == code'[x]
    requires forall c :: c in packed ==> Apart(c, b)
    ensures AllPacked(code, code'', v, t, packed + {b})
  {
    forall k: nat | k < |t| ensures PackedAt(code, code'', v, t, k, packed + {b}) {
      assert PackedAt(code, code', v, t, k, packed);
    }
  }

  lemma ScanEnd(code: seq<Byte>, code': seq<Byte>, code'': seq<Byte>, v: seq<int>, t: seq<nat>, off: nat,
                begins: seq<nat>, packed: set<nat>)
    requires Scan(code, code', v, t, off, begins, packed)
    requires off < |code| && code[off] != 0xFF && Decode(code, off).Instr? && Decode(code, off).next > off
    requires IsEnd(code, v, off) && begins != [] && |code''| == |code|
    requires begins[|begins| - 1] + 5 <= |code| && Packed(code, begins[|begins| - 1]) == 0
    requires var b := begins[|begins| - 1];
             b + 5 <= |code| && Packed(code'', b) == Max(HighWater(code, v, t), v[off]) % 0x10000
             && forall x: nat :: x < |code'| && x != b + 3 && x != b + 4 ==> code''[x] == code'[x]
    ensures Scan(code, code'', v, t + [off], Decode(code, off).next, begins[..|begins| - 1],
                 packed + {begins[|begins| - 1]})
  {
    hide Trace, Spaced, Decode, OpenBegins, HighWater, OpOf, Max, Packed, AllPacked, PackedAt, OnlyPacked, AllBegins;
    hide Cleared;
    var b := begins[|begins| - 1];
    NextTrace(code, t, off);
    OneMore(code, v, t, off);
    SpacedPop(begins, packed, off, Decode(code, off).next, |code|);
    KeepPacked(code, code', code'', v, t, b, packed);
    EndPacks(code, code'', v, t, off, begins, packed + {b});
    PackedOneMore(code, code'', v, t, off, packed + {b});
    BeginsPop(code, v, begins, packed);
    OnlyOneMore(code, code', code'', packed, b);
  }

  lemma EndPacks(code: seq<Byte>, code'': seq<Byte>, v: seq<int>, t: seq<nat>, off: nat, begins: seq<nat>,
                 packed: set<nat>)
    requires begins == OpenBegins(code, v, t) && begins != [] && begins[|begins| - 1] in packed
    requires begins[|begins| - 1] + 5 <= |code''|
    requires off < |code| && Visited(v, off)
    requires Packed(code'', begins[|begins| - 1]) == Max(HighWater(code, v, t), v[off]) % 0x10000
    ensures PackedAt(code, code'', v, t + [off], |t|, packed)
  {
    hide OpenBegins, HighWater, OpOf, Max, Packed;
    assert (t + [off])[..|t|] == t;
  }

  lemma BeginsPop(code: seq<Byte>, v: seq<int>, begins: seq<nat>, packed: set<nat>)
    requires AllBegins(code, v, begins, packed) && Cleared(code, packed) && begins != []
    requires begins[|begins| - 1] + 5 <= |code| && Packed(code, begins[|begins| - 1]) == 0
    ensures AllBegins(code, v, begins[..|begins| - 1], packed + {begins[|begins| - 1]})
    ensures Cleared(code, packed + {begins[|begins| - 1]})
  {
    hide IsBegin, Packed;
    assert begins[|begins| - 1] in begins;
  }

  lemma OnlyOneMore(code: seq<Byte>, code': seq<Byte>, code'': seq<Byte>, packed: set<nat>, b: nat)
    requires OnlyPacked(code, code', packed) && |code''| == |code|
    requires forall x: nat :: x < |code'| && x != b + 3 && x != b + 4 ==> code''[x] == code'[x]
    ensures OnlyPacked(code, code'', packed + {b})
  {
    forall x: nat | x < |code| && code''[x] != code[x] ensures InHalf(packed + {b}, x) {
      if x != b + 3 && x != b + 4 {
        assert InHalf(packed, x);
      }
    }
  }

  /** What the branches of the scan use of its state. */
  lemma ScanFacts(code: seq<Byte>, code': seq<Byte>, v: seq<int>, t: seq<nat>, off: nat, begins: seq<nat>,
                  packed: set<nat>)
    requires Scan(code, code', v, t, off, begins, packed)
    ensures |code'| == |code| && begins == OpenBegins(code, v, t)
    ensures t + Trace(code, off) == Trace(code, 0)
    ensures Decode(code', off) == Decode(code, off)
    ensures forall x: nat :: off <= x < |code| ==> code'[x] == code[x]
    ensures begins != [] ==> Intact(code, code', begins[|begins| - 1])
  {
    hide AllPacked, OpenBegins, Trace, U32;
    Ahead(code, code', begins, packed, off);
    if begins != [] {
      OpenIntact(code, code', begins, packed, off, begins[|begins| - 1]);
    }
  }

  ghost predicate Intact(code: seq<Byte>, code': seq<Byte>, b: nat) {
    b + 9 <= |code| == |code'| && forall x: nat :: b <= x < b + 9 ==> code'[x] == code[x]
  }

  lemma SameU32(code: seq<Byte>, code': seq<Byte>, i: nat)
    requires i + 4 <= |code| == |code'| && forall x: nat :: i <= x < i + 4 ==> code'[x] == code[x]
    ensures U32(code', i) == U32(code, i)
  {
  }

  lemma IntactArgs(code: seq<Byte>, code': seq<Byte>, b: nat)
    requires Intact(code, code', b)
    ensures Arg(code', b, 0) == Arg(code, b, 0) && Arg(code', b, 1) == Arg(code, b, 1)
  {
  }

  // The scan itself.

  lemma HalfWritten(code: seq<Byte>, b: nat, max: nat, lo: Byte, hi: Byte)
    requires b + 9 <= |code| && lo == max % 0x100 && hi == max / 0x100 % 0x100
    ensures var code' := code[b + 3 := lo][b + 4 := hi];
            && Packed(code', b) == max % 0x10000
            && forall x: nat :: x < |code| && x != b + 3 && x != b + 4 ==> code'[x] == code[x]
  {
  }

  /** The END branch: the depth goes into the upper half of the BEGIN that is closed. */
  method PackEnd(code: array<Byte>, ghost code0: seq<Byte>, ghost v: seq<int>, ghost t: seq<nat>, off: nat,
                 begins: seq<nat>,
                 ghost packed: set<nat>, max: nat)
    returns (out: Outcome)
    requires Scan(code0, code[..], v, t, off, begins, packed)
    requires off < |code0| && code0[off] != 0xFF && Decode(code0, off).Instr? && Decode(code0, off).next > off
    requires IsEnd(code0, v, off) && max == Max(HighWater(code0, v, t), v[off])
    modifies code
    ensures out.Accepted? <==> Closes(code0, v, t + [off], |t|)
    ensures !out.Accepted? ==> out == if begins == [] then OutOfBounds else Exception
    ensures out.Accepted? ==>
              begins != [] && Scan(code0, code[..], v, t + [off], Decode(code0, off).next, begins[..|begins| - 1],
                                   packed + {begins[|begins| - 1]})
    ensures !out.Accepted? ==> code[..] == old(code[..])
  {
    hide Scan, HighWater, OpenBegins, IsEnd, Decode, Trace, Max;
    OneMore(code0, v, t, off);
    ScanFacts(code0, code[..], v, t, off, begins, packed);
    if begins == [] {
      return OutOfBounds;
    }
    var b := begins[|begins| - 1];
    ghost var code': seq<Byte> := code[..];
    if code[b + 3] != 0 || code[b + 4] != 0 {
      assert Packed(code0, b) != 0;
      return Exception;
    }
    var lo: Byte, hi: Byte := max % 0x100, max / 0x100 % 0x100;
    HalfWritten(code', b, max, lo, hi);
    code[b + 3], code[b + 4] := lo, hi;
    assert code[..] == code'[b + 3 := lo][b + 4 := hi];
    ScanEnd(code0, code', code[..], v, t, off, begins, packed);
    out := Accepted;
  }

  /** The branch of LD, ST and LDA. */
  method CheckVariable(code: array<Byte>, ghost code0: seq<Byte>, ghost v: seq<int>, ghost t: seq<nat>, off: nat,
                       begins: seq<nat>,
                       ghost packed: set<nat>, globals: nat)
    returns (out: Outcome)
    requires Scan(code0, code[..], v, t, off, begins, packed)
    requires off + 5 <= |code0| && Visited(v, off) && IsVariable(OpOf(code0[off]))
    ensures out.Accepted? <==> Checked(code0, v, t + [off], |t|, globals)
    ensures !out.Accepted? ==> out == if begins == [] then OutOfBounds else Exception
  {
    hide Scan, HighWater, OpenBegins, IsEnd, IsBegin, Decode, U32, OpOf, Trace;
    var bytes: seq<Byte> := code[..];
    OneMore(code0, v, t, off);
    ScanFacts(code0, bytes, v, t, off, begins, packed);
    if begins == [] {
      return OutOfBounds;
    }
    var b := begins[|begins| - 1];
    IntactArgs(code0, bytes, b);
    var args, locals, index := Arg(bytes, b, 0), Arg(bytes, b, 1), Arg(bytes, off, 0);
    SameU32(code0, bytes, off + 1);
    out := if VariableOk(LowBits(bytes[off]), index, args, locals, globals) then Accepted else Exception;
  }

  /** The branch of CLOSURE. */
  method CheckDesignations(code: array<Byte>, ghost code0: seq<Byte>, ghost v: seq<int>, ghost t: seq<nat>, off: nat,
                           begins: seq<nat>,
                           ghost packed: set<nat>, globals: nat)
    returns (out: Outcome)
    requires Scan(code0, code[..], v, t, off, begins, packed)
    requires off + 9 <= |code0| && Visited(v, off) && OpOf(code0[off]) == CLOSURE
    ensures out.Accepted? <==> Checked(code0, v, t + [off], |t|, globals)
    ensures !out.Wrapped? && (begins == [] ==> out.OutOfBounds?)
  {
    hide Scan, HighWater, OpenBegins, IsEnd, IsBegin, Decode, U32, OpOf, Trace;
    var bytes: seq<Byte> := code[..];
    OneMore(code0, v, t, off);
    ScanFacts(code0, bytes, v, t, off, begins, packed);
    if begins == [] {
      return OutOfBounds;
    }
    var b := begins[|begins| - 1];
    IntactArgs(code0, bytes, b);
    var args, locals, n := Arg(bytes, b, 0), Arg(bytes, b, 1), Arg(bytes, off, 1);
    SameU32(code0, bytes, off + 5);
    for j := 0 to n
      invariant forall i: nat :: i < j ==> DesignationOk(code0, off, i, args, locals, globals)
    {
      var p := off + 9 + 5 * j;
      if p + 5 > |bytes| {
        assert !DesignationOk(code0, off, j, args, locals, globals);
        return OutOfBounds;
      }
      SameU32(code0, bytes, p + 1);
      if !VariableOk(bytes[p], U32(bytes, p + 1), args, locals, globals) {
        assert !DesignationOk(code0, off, j, args, locals, globals);
        return Exception;
      }
      assert DesignationOk(code0, off, j, args, locals, globals);
    }
    out := Accepted;
  }

  lemma ScanStarts(code: seq<Byte>, v: seq<int>, globals: nat)
    ensures Passes(code, v, [], globals)
    ensures Scan(code, code, v, [], 0, [], {}) && HighWater(code, v, []) == 0
  {
  }

  lemma TraceHead(code: seq<Byte>, off: nat)
    ensures if off < |code| && code[off] != 0xFF then Trace(code, off) != [] && Trace(code, off)[0] == off
            else Trace(code, off) == []
  {
  }

  /** The facts about a visited instruction that come from the assignment of depths. */
  lemma VisitedInside(code: seq<Byte>, v: seq<int>, off: nat)
    requires |v| == |code| && Consistent(code, v, off) && Visited(v, off)
    requires Decode(code, off).Instr? && Decode(code, off).next > off
    ensures OpOf(code[off]) == BEGIN || OpOf(code[off]) == CBEGIN ==> Decode(code, off).next < |code|
    ensures IsVariable(OpOf(code[off])) ==> off + 5 <= |code|
    ensures OpOf(code[off]) == CLOSURE ==> off + 9 <= |code|
    ensures IsBranch(OpOf(code[off])) ==> off + 5 <= |code| && Arg(code, off, 0) < |code|
  {
    var dec := Decode(code, off);
    var d := DepthAfter(code, v[off], off, dec.op).d;
    if IsBranch(dec.op) {
      assert Carries(v, Successors(code, off, dec.op, dec.next, d)[0]);
    } else if dec.op != END && dec.op != FAIL && dec.op != RET {
      assert Carries(v, Successors(code, off, dec.op, dec.next, d)[0]);
    }
  }

  /** The branches that only check. */
  method CheckOther(code: array<Byte>, ghost code0: seq<Byte>, ghost v: seq<int>, ghost t: seq<nat>, off: nat,
                    begins: seq<nat>,
                    ghost packed: set<nat>, globals: nat, op: Op)
    returns (out: Outcome)
    requires Scan(code0, code[..], v, t, off, begins, packed)
    requires off < |code0| && Visited(v, off) && op == OpOf(code0[off])
    requires |v| == |code0| && Consistent(code0, v, off) && Decode(code0, off).Instr? && Decode(code0, off).next > off
    requires op != END && op != BEGIN && op != CBEGIN
    ensures out.Accepted? <==> Closes(code0, v, t + [off], |t|) && Checked(code0, v, t + [off], |t|, globals)
    ensures !out.Wrapped?
  {
    hide Scan, HighWater, OpenBegins, Consistent, Successors, U32;
    VisitedInside(code0, v, off);
    out := Accepted;
    if IsVariable(op) {
      out := CheckVariable(code, code0, v, t, off, begins, packed, globals);
    } else if op == CLOSURE {
      out := CheckDesignations(code, code0, v, t, off, begins, packed, globals);
    } else if IsBranch(op) {
      // The test of the target never fails: the depths already put it inside the code.
      ScanFacts(code0, code[..], v, t, off, begins, packed);
      SameU32(code0, code[..], off + 1);
      assert Arg(code[..], off, 0) < code.Length;
    }
  }

  lemma ScanUnvisited(code: seq<Byte>, code': seq<Byte>, v: seq<int>, t: seq<nat>, off: nat, begins: seq<nat>,
                      packed: set<nat>, globals: nat)
    requires Scan(code, code', v, t, off, begins, packed)
    requires off < |code| && code[off] != 0xFF && Decode(code, off).Instr? && Decode(code, off).next > off
    requires !Visited(v, off)
    ensures Scan(code, code', v, t + [off], Decode(code, off).next, begins, packed)
    ensures StepPasses(code, v, t + [off], |t|, globals)
  {
    ScanOther(code, code', v, t, off, begins, packed);
  }

  lemma AcceptedBegins(code: seq<Byte>, code': seq<Byte>, v: seq<int>, t: seq<nat>, off: nat, begins: seq<nat>,
                       packed: set<nat>)
    requires Scan(code, code', v, t, off, begins, packed)
    requires off < |code| ==> code'[off] == 0xFF
    ensures t == Trace(code, 0) && AllPacked(code, code', v, t, packed) && OnlyPacked(code, code', packed)
    ensures PackedBegins(code, v, packed)
  {
    Ahead(code, code', begins, packed, off);
  }

  /** One round of the scan at an offset with a depth. */
  method ScanVisited(code: array<Byte>, ghost code0: seq<Byte>, ghost v: seq<int>, ghost t: seq<nat>, off: nat,
                     begins: seq<nat>,
                     ghost packed: set<nat>, globals: nat, op: Op, max: nat)
    returns (out: Outcome, begins': seq<nat>, ghost packed': set<nat>, max': int)
    requires Scan(code0, code[..], v, t, off, begins, packed)
    requires off < |code0| && code0[off] != 0xFF && Visited(v, off) && op == OpOf(code0[off])
    requires |v| == |code0| && Consistent(code0, v, off) && Decode(code0, off).Instr? && Decode(code0, off).next > off
    requires max == Max(HighWater(code0, v, t), v[off])
    modifies code
    ensures out.Accepted? <==> StepPasses(code0, v, t + [off], |t|, globals)
    ensures !out.Wrapped?
    ensures out.Accepted? ==> Scan(code0, code[..], v, t + [off], Decode(code0, off).next, begins', packed')
    ensures out.Accepted? ==> max' == HighWater(code0, v, t + [off])
  {
    hide Scan, OpenBegins, HighWater, Trace, Decode, OpOf, Consistent;
    begins', packed', max' := begins, packed, max;
    OneMore(code0, v, t, off);
    VisitedInside(code0, v, off);
    if op == END {
      out := PackEnd(code, code0, v, t, off, begins, packed, max);
      if out.Accepted? {
        packed' := packed + {begins[|begins| - 1]};
        begins' := begins[..|begins| - 1];
        max' := -1;
      }
    } else if op == BEGIN || op == CBEGIN {
      ScanBegin(code0, code[..], v, t, off, begins, packed);
      begins' := begins + [off];
      out := Accepted;
    } else {
      out := CheckOther(code, code0, v, t, off, begins, packed, globals, op);
      if out.Accepted? {
        ScanOther(code0, code[..], v, t, off, begins, packed);
      }
    }
  }

  lemma TraceRest(code: seq<Byte>, code': seq<Byte>, v: seq<int>, t: seq<nat>, off: nat, begins: seq<nat>,
                  packed: set<nat>)
    returns (rest: seq<nat>)
    requires Scan(code, code', v, t, off, begins, packed) && off < |code'| && code'[off] != 0xFF
    ensures t + [off] + rest == Trace(code, 0)
  {
    Ahead(code, code', begins, packed, off);
    TraceHead(code, off);
    rest := Trace(code, off)[1..];
    assert t + Trace(code, off) == t + [off] + rest;
  }

  /** One round of the scan. */
  method ScanOne(code: array<Byte>, ghost code0: seq<Byte>, visited: array<int>, ghost t: seq<nat>, off: nat,
                 begins: seq<nat>,
                 ghost packed: set<nat>, globals: nat, max: int)
    returns (out: Outcome, begins': seq<nat>, ghost packed': set<nat>, max': int, next: nat)
    requires Scan(code0, code[..], visited[..], t, off, begins, packed)
    requires off < code.Length == |code0| == visited.Length && code[off] != 0xFF
    requires Consistent(code0, visited[..], off) && visited[off] >= -1
    requires max == HighWater(code0, visited[..], t)
    modifies code
    ensures visited[..] == old(visited[..])
    ensures out.Accepted? <==> StepPasses(code0, visited[..], t + [off], |t|, globals)
    ensures out.Wrapped? <==> Decode(code0, off).Instr? && Decode(code0, off).next <= off
    ensures out.Accepted? ==> Scan(code0, code[..], visited[..], t + [off], next, begins', packed') && next > off
    ensures out.Accepted? ==> max' == HighWater(code0, visited[..], t + [off])
  {
    hide Scan, Trace, HighWater, OpenBegins, Consistent, StepPasses, OpOf, IsEnd, IsBegin, Decode;
    begins', packed', max', next := begins, packed, max, 0;
    ghost var v := visited[..];
    var bytes: seq<Byte> := code[..];
    ScanFacts(code0, bytes, v, t, off, begins, packed);
    OneMore(code0, v, t, off);
    var dec := Decode(bytes, off);
    if !dec.Instr? || dec.next <= off {
      StepStuck(code0, v, t + [off], |t|, globals);
      out := if dec.BadOpcode? then Exception else if dec.OutOfCode? then OutOfBounds else Wrapped;
      return;
    }
    next := dec.next;
    if visited[off] == -1 {
      ScanUnvisited(code0, bytes, v, t, off, begins, packed, globals);
      out := Accepted;
    } else {
      out, begins', packed',
          max' := ScanVisited(code, code0, v, t, off, begins, packed, globals, dec.op, Max(max, visited[off]));
    }
  }

  lemma StepStuck(code: seq<Byte>, v: seq<int>, t: seq<nat>, k: nat, globals: nat)
    requires k < |t| && (!Decode(code, t[k]).Instr? || Decode(code, t[k]).next <= t[k])
    ensures !StepPasses(code, v, t, k, globals)
  {
  }

  lemma AssignmentAt(code: seq<Byte>, entries: seq<int>, v: seq<int>)
    requires Assignment(code, entries, v)
    ensures |v| == |code| && forall i: nat :: i < |v| ==> Consistent(code, v, i) && v[i] >= -1
  {
  }

  /** The instruction ends at or before its own offset, as offsets have 32 bits. */
  predicate WrapsAt(code: seq<Byte>, off: nat) {
    off in Trace(code, 0) && Decode(code, off).Instr? && Decode(code, off).next <= off
  }

  /** verify. With the depths that collect_marks finds it accepts exactly the code on whose trace every
      step passes, and then every BEGIN that an END closes holds the greatest depth in its upper half,
      and nothing else is changed. */
  method Verify(code: array<Byte>, publics: seq<(string, int)>, globals: nat)
    returns (out: Outcome, ghost v: seq<int>, ghost packed: set<nat>)
    modifies code
    ensures !out.Accepted? ==>
              NoAssignment(old(code[..]), Entries(publics)) || (
                && Assignment(old(code[..]), Entries(publics), v)
                && BelowAll(old(code[..]), Entries(publics), v)
                && !Passes(old(code[..]), v, Trace(old(code[..]), 0), globals))
    ensures out.Wrapped? ==> exists off: nat :: WrapsAt(old(code[..]), off)
    ensures out.Accepted? ==>
              && Assignment(old(code[..]), Entries(publics), v)
              && BelowAll(old(code[..]), Entries(publics), v)
              && Passes(old(code[..]), v, Trace(old(code[..]), 0), globals)
              && AllPacked(old(code[..]), code[..], v, Trace(old(code[..]), 0), packed)
              && OnlyPacked(old(code[..]), code[..], packed)
              && PackedBegins(old(code[..]), v, packed)
  {
    hide StepPasses, Assignment, Scan, Trace, OnlyPacked, AllPacked, HighWater, OpenBegins, Consistent, Checked, Closes,
        Below, BelowAll, NoAssignment, Passes,
         OpOf, IsEnd, IsBegin, Decode, Starts, Entries;
    ghost var code0 := code[..];
    var visited := new int[code.Length](_ => -1);
    out := CollectMarks(code[..], publics, visited);
    v, packed := visited[..], {};
    if !out.Accepted? {
      return;
    }
    AssignmentAt(code0, Entries(publics), v);
    var off: nat, max: int, begins: seq<nat> := 0, 0, [];
    ghost var t: seq<nat> := [];
    ScanStarts(code0, v, globals);
    while off < code.Length && code[off] != 0xFF
      invariant code.Length == |code0| && visited[..] == v
      invariant Scan(code0, code[..], v, t, off, begins, packed)
      invariant Passes(code0, v, t, globals)
      invariant max == HighWater(code0, v, t)
      decreases code.Length - off
    {
      ghost var rest := TraceRest(code0, code[..], v, t, off, begins, packed);
      var next;
      out, begins, packed, max, next := ScanOne(code, code0, visited, t, off, begins, packed, globals, max);
      if !out.Accepted? {
        PrefixFails(code0, v, t + [off], rest, |t|, globals);
        if out.Wrapped? {
          assert off in t + [off] + rest;
          assert WrapsAt(code0, off);
        }
        return;
      }
      PassesOneMore(code0, v, t, off, globals);
      t := t + [off];
      off := next;
    }
    AcceptedBegins(code0, code[..], v, t, off, begins, packed);
    out := Accepted;
  }

  // What the packed depth is good for.

  /** The code of one function on the trace: from a BEGIN to the first END after it, no other BEGIN between. */
  ghost predicate OneFunction(code: seq<Byte>, v: seq<int>, t: seq<nat>, first: nat, last: nat) {
    && first < last < |t|
    && IsBegin(code, v, t[first])
    && IsEnd(code, v, t[last])
    && forall k: nat :: first < k < last ==> !IsBegin(code, v, t[k]) && !IsEnd(code, v, t[k])
  }

  lemma {:induction false} OpenInside(code: seq<Byte>, v: seq<int>, t: seq<nat>, first: nat, last: nat, k: nat)
    requires OneFunction(code, v, t, first, last) && first < k <= last
    ensures OpenBegins(code, v, t[..k]) == OpenBegins(code, v, t[..first]) + [t[first]]
    decreases k
  {
    assert t[..k] == t[..k - 1] + [t[k - 1]];
    OneMore(code, v, t[..k - 1], t[k - 1]);
    if k - 1 > first {
      OpenInside(code, v, t, first, last, k - 1);
    }
  }

  /** The high-water mark is the greatest depth since the function began, or what it was before. */
  lemma {:induction false} HighWaterInside(code: seq<Byte>, v: seq<int>, t: seq<nat>, first: nat, last: nat, k: nat)
    requires OneFunction(code, v, t, first, last) && first <= k <= last
    ensures forall j: nat :: first <= j < k && Visited(v, t[j]) ==> v[t[j]] <= HighWater(code, v, t[..k])
    ensures HighWater(code, v, t[..k]) == HighWater(code, v, t[..first])
            || exists j: nat :: first <= j < k && Visited(v, t[j]) && v[t[j]] == HighWater(code, v, t[..k])
    decreases k
  {
    hide OpenBegins, HighWater, OpOf;
    if k > first {
      HighWaterInside(code, v, t, first, last, k - 1);
      assert t[..k] == t[..k - 1] + [t[k - 1]];
      OneMore(code, v, t[..k - 1], t[k - 1]);
    }
  }

  /** The depth at every instruction of the function is at most `d`. */
  ghost predicate Bounded(v: seq<int>, t: seq<nat>, first: nat, last: nat, d: int)
    requires first <= last < |t|
  {
    forall k: nat :: first <= k <= last && Visited(v, t[k]) ==> v[t[k]] <= d
  }

  /** The value packed into a BEGIN bounds the depth at every instruction of its function, exactly when
      the greatest depth fits 16 bits. */
  lemma PackedBounds(code: seq<Byte>, code': seq<Byte>, v: seq<int>, t: seq<nat>, first: nat, last: nat,
                     packed: set<nat>)
    requires OneFunction(code, v, t, first, last) && HighWater(code, v, t[..first]) <= 0
    requires AllPacked(code, code', v, t, packed)
    ensures t[first] in packed && t[first] + 5 <= |code'|
    ensures Bounded(v, t, first, last, Packed(code', t[first])) <==> Bounded(v, t, first, last, 0xFFFF)
    ensures Bounded(v, t, first, last, 0xFFFF) ==>
              exists k: nat :: first <= k <= last && Visited(v, t[k]) && v[t[k]] == Packed(code', t[first])
  {
    OpenInside(code, v, t, first, last, last);
    HighWaterInside(code, v, t, first, last, last);
    assert PackedAt(code, code', v, t, last, packed);
    var top := Max(HighWater(code, v, t[..last]), v[t[last]]);
    assert Bounded(v, t, first, last, top);
    assert exists k: nat :: first <= k <= last && Visited(v, t[k]) && v[t[k]] == top by {
      if v[t[last]] != top {
        assert HighWater(code, v, t[..last]) == top;
      }
    }
  }
}
