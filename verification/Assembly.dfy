/** Bytecode written out and read back: the layouts of the decoders, and the round trip over whole programs. */
module Assembly {
  import opened Bytecode
  import opened MaxStack

  /** An instruction: its low bits if they mean something, and its arguments. */
  datatype Instruction =
    | NoArgs(op: Op, low: nat)
    | OneArg(op: Op, low: nat, a: nat)
    | TwoArgs(op: Op, a: nat, b: nat)
    | Capture(target: nat, designations: seq<(Byte, nat)>)

  /** InstructionType. */
  function Opcode(op: Op): int {
    match op
    case BINOP => 0x00 case CONST => 0x10 case STRING => 0x11 case SEXP => 0x12 case STI => 0x13 case STA => 0x14
    case JMP => 0x15 case END => 0x16 case RET => 0x17 case DROP => 0x18 case DUP => 0x19 case SWAP => 0x1A
    case ELEM => 0x1B case LD => 0x20 case LDA => 0x30 case ST => 0x40 case CJMPz => 0x50 case CJMPnz => 0x51
    case BEGIN => 0x52 case CBEGIN => 0x53 case CLOSURE => 0x54 case CALLC => 0x55 case CALL => 0x56 case TAG => 0x57
    case ARRAY => 0x58 case FAIL => 0x59 case LINE => 0x5A case PATT => 0x60 case CALL_READ => 0x70
    case CALL_WRITE => 0x71 case CALL_LENGTH => 0x72 case CALL_STRING => 0x73 case CALL_ARRAY => 0x74
    case UNKNOWN => 0xFF
  }

  predicate HasLowBits(op: Op) {
    op == BINOP || op == LD || op == LDA || op == ST || op == PATT
  }

  predicate Word32(n: nat) {
    n < UINT32
  }

  predicate LowOk(op: Op, low: nat) {
    low < 16 && (low != 0 ==> HasLowBits(op))
  }

  /** The instruction exists, with arguments of 32 bits. */
  predicate Proper(x: Instruction) {
    match x
    case NoArgs(op, low) =>
      && LowOk(op, low)
      && op in {BINOP, STI, STA, END, RET, DROP, DUP, SWAP, ELEM, PATT, CALL_READ, CALL_WRITE, CALL_LENGTH, CALL_STRING}
    case OneArg(op, low, a) =>
      && LowOk(op, low) && Word32(a)
      && op in {CONST, STRING, JMP, LD, LDA, ST, CJMPz, CJMPnz, CALLC, ARRAY, LINE, CALL_ARRAY}
    case TwoArgs(op, a, b) =>
      Word32(a) && Word32(b) && op in {SEXP, BEGIN, CBEGIN, CALL, TAG, FAIL}
    case Capture(target, ds) =>
      Word32(target) && Word32(|ds|) && forall j :: 0 <= j < |ds| ==> Word32(ds[j].1)
  }

  function First(op: Op, low: nat): (b: Byte)
    requires LowOk(op, low)
  {
    if op == UNKNOWN then 0xFF else LowWithin(op, low); Opcode(op) + low
  }

  lemma LowWithin(op: Op, low: nat)
    requires LowOk(op, low) && op != UNKNOWN
    ensures 0 <= Opcode(op) + low < 256
  {
  }

  /** A 32-bit argument, the least significant byte first. */
  function Bytes32(n: nat): (bytes: seq<Byte>)
    requires Word32(n)
    ensures |bytes| == 4
  {
    var m := n / 0x100;
    var k := m / 0x100;
    [n % 0x100, m % 0x100, k % 0x100, k / 0x100]
  }

  function DesignationBytes(ds: seq<(Byte, nat)>): (bytes: seq<Byte>)
    requires forall j :: 0 <= j < |ds| ==> Word32(ds[j].1)
    ensures |bytes| == 5 * |ds|
  {
    if ds == [] then []
    else DesignationBytes(ds[..|ds| - 1]) + [ds[|ds| - 1].0] + Bytes32(ds[|ds| - 1].1)
  }

  function Encode(x: Instruction): (bytes: seq<Byte>)
    requires Proper(x)
    ensures bytes != []
  {
    match x
    case NoArgs(op, low) => [First(op, low)]
    case OneArg(op, low, a) => [First(op, low)] + Bytes32(a)
    case TwoArgs(op, a, b) => [First(op, 0)] + Bytes32(a) + Bytes32(b)
    case Capture(target, ds) => [0x54] + Bytes32(target) + Bytes32(|ds|) + DesignationBytes(ds)
  }

  // Reading.

  lemma FirstReads(op: Op, low: nat)
    requires LowOk(op, low) && op != UNKNOWN
    ensures OpOf(First(op, low)) == op && (HasLowBits(op) ==> LowBits(First(op, low)) == low)
  {
    if HasLowBits(op) {
      GroupReads(op, low);
    } else {
      PlainReads(op);
    }
  }

  lemma GroupReads(op: Op, low: nat)
    requires low < 16 && HasLowBits(op)
    ensures OpOf(First(op, low)) == op && LowBits(First(op, low)) == low
  {
    hide RawOp;
  }

  lemma PlainReads(op: Op)
    requires !HasLowBits(op) && op != UNKNOWN
    ensures OpOf(First(op, 0)) == op
  {
    assert HighBits(First(op, 0)) in {0x10, 0x50, 0x70};
  }

  ghost predicate Has(code: seq<Byte>, i: nat, bytes: seq<Byte>) {
    i + |bytes| <= |code| && code[i..i + |bytes|] == bytes
  }

  lemma HasParts(code: seq<Byte>, i: nat, a: seq<Byte>, b: seq<Byte>)
    ensures Has(code, i, a + b) <==> Has(code, i, a) && Has(code, i + |a|, b)
  {
    if Has(code, i, a + b) {
      assert code[i..i + |a|] == (a + b)[..|a|] == a;
      assert code[i + |a|..i + |a| + |b|] == (a + b)[|a|..] == b;
    }
    if Has(code, i, a) && Has(code, i + |a|, b) {
      assert code[i..i + |a + b|] == code[i..i + |a|] + code[i + |a|..i + |a| + |b|];
    }
  }

  lemma Bytes32Read(code: seq<Byte>, i: nat, n: nat)
    requires Word32(n) && Has(code, i, Bytes32(n))
    ensures i + 4 <= |code| && U32(code, i) == n
  {
    var bytes := Bytes32(n);
    assert code[i] == bytes[0] && code[i + 1] == bytes[1] && code[i + 2] == bytes[2] && code[i + 3] == bytes[3];
  }

  /** The instruction `x` is what the decoders read at `i`. */
  ghost predicate Reads(code: seq<Byte>, i: nat, x: Instruction)
    requires Proper(x)
  {
    && i < |code|
    && Decode(code, i) == Instr(if x.Capture? then CLOSURE else x.op, (i + |Encode(x)|) % UINT32)
    && match x
       case NoArgs(op, low) => HasLowBits(op) ==> LowBits(code[i]) == low
       case OneArg(op, low, a) =>
         (HasLowBits(op) ==> LowBits(code[i]) == low) && i + 5 <= |code| && Arg(code, i, 0) == a
       case TwoArgs(op, a, b) => i + 9 <= |code| && Arg(code, i, 0) == a && Arg(code, i, 1) == b
       case Capture(target, ds) =>
         && i + 9 + 5 * |ds| <= |code| && Arg(code, i, 0) == target && Arg(code, i, 1) == |ds|
         && forall j: nat :: j < |ds| ==> DesignationReads(code, i, ds, j)
  }

  ghost predicate DesignationReads(code: seq<Byte>, i: nat, ds: seq<(Byte, nat)>, j: nat) {
    && j < |ds| && i + 14 + 5 * j <= |code|
    && code[i + 9 + 5 * j] == ds[j].0 && U32(code, i + 10 + 5 * j) == ds[j].1
  }

  lemma {:induction false} DesignationsRead(code: seq<Byte>, i: nat, ds: seq<(Byte, nat)>, j: nat)
    requires j < |ds| && forall k :: 0 <= k < |ds| ==> Word32(ds[k].1)
    requires Has(code, i + 9, DesignationBytes(ds))
    ensures DesignationReads(code, i, ds, j)
  {
    hide U32, Bytes32, Has;
    var n := |ds| - 1;
    var rest, last := DesignationBytes(ds[..n]), [ds[n].0] + Bytes32(ds[n].1);
    assert DesignationBytes(ds) == rest + last;
    HasParts(code, i + 9, rest, last);
    if j < n {
      DesignationsRead(code, i, ds[..n], j);
    } else {
      HasParts(code, i + 9 + 5 * n, [ds[n].0], Bytes32(ds[n].1));
      Bytes32Read(code, i + 10 + 5 * n, ds[n].1);
      OneByte(code, i + 9 + 5 * n, ds[n].0);
    }
  }

  lemma OneByte(code: seq<Byte>, i: nat, b: Byte)
    requires Has(code, i, [b])
    ensures i < |code| && code[i] == b
  {
    assert code[i..i + 1][0] == b;
  }

  lemma NoArgsReads(code: seq<Byte>, i: nat, op: Op, low: nat)
    requires Proper(NoArgs(op, low)) && Has(code, i, Encode(NoArgs(op, low)))
    ensures Reads(code, i, NoArgs(op, low))
  {
    hide OpOf, LowBits, First, Has;
    OneByte(code, i, First(op, low));
    FirstReads(op, low);
  }

  lemma OneArgReads(code: seq<Byte>, i: nat, op: Op, low: nat, a: nat)
    requires Proper(OneArg(op, low, a)) && Has(code, i, Encode(OneArg(op, low, a)))
    ensures Reads(code, i, OneArg(op, low, a))
  {
    hide U32, Bytes32, OpOf, LowBits, First, Has;
    HasParts(code, i, [First(op, low)], Bytes32(a));
    OneByte(code, i, First(op, low));
    FirstReads(op, low);
    Bytes32Read(code, i + 1, a);
  }

  lemma TwoArgsReads(code: seq<Byte>, i: nat, op: Op, a: nat, b: nat)
    requires Proper(TwoArgs(op, a, b)) && Has(code, i, Encode(TwoArgs(op, a, b)))
    ensures Reads(code, i, TwoArgs(op, a, b))
  {
    hide U32, Bytes32, OpOf, LowBits, First, Has;
    HasParts(code, i, [First(op, 0)] + Bytes32(a), Bytes32(b));
    HasParts(code, i, [First(op, 0)], Bytes32(a));
    OneByte(code, i, First(op, 0));
    FirstReads(op, 0);
    Bytes32Read(code, i + 1, a);
    Bytes32Read(code, i + 5, b);
  }

  /** What Encode writes is read back, wherever it stands. */
  lemma EncodedReads(code: seq<Byte>, i: nat, x: Instruction)
    requires Proper(x) && Has(code, i, Encode(x))
    ensures Reads(code, i, x)
  {
    match x
    case NoArgs(op, low) => NoArgsReads(code, i, op, low);
    case OneArg(op, low, a) => OneArgReads(code, i, op, low, a);
    case TwoArgs(op, a, b) => TwoArgsReads(code, i, op, a, b);
    case Capture(target, ds) => CaptureReads(code, i, target, ds);
  }

  lemma CaptureReads(code: seq<Byte>, i: nat, target: nat, ds: seq<(Byte, nat)>)
    requires Proper(Capture(target, ds)) && Has(code, i, Encode(Capture(target, ds)))
    ensures Reads(code, i, Capture(target, ds))
  {
    hide U32, Bytes32, DesignationBytes, LowBits, Has, DesignationReads;
    HasParts(code, i, [0x54] + Bytes32(target) + Bytes32(|ds|), DesignationBytes(ds));
    HasParts(code, i, [0x54] + Bytes32(target), Bytes32(|ds|));
    HasParts(code, i, [0x54], Bytes32(target));
    OneByte(code, i, 0x54);
    Bytes32Read(code, i + 1, target);
    Bytes32Read(code, i + 5, |ds|);
    AllDesignationsRead(code, i, ds);
  }

  lemma AllDesignationsRead(code: seq<Byte>, i: nat, ds: seq<(Byte, nat)>)
    requires forall k :: 0 <= k < |ds| ==> Word32(ds[k].1)
    requires Has(code, i + 9, DesignationBytes(ds))
    ensures i + 9 + 5 * |ds| <= |code|
    ensures forall j: nat :: j < |ds| ==> DesignationReads(code, i, ds, j)
  {
    hide DesignationBytes, DesignationReads;
    forall j: nat | j < |ds| ensures DesignationReads(code, i, ds, j) {
      DesignationsRead(code, i, ds, j);
    }
  }

  // Programs.

  function Assemble(p: seq<Instruction>): seq<Byte>
    requires forall x :: x in p ==> Proper(x)
  {
    if p == [] then [] else Encode(p[0]) + Assemble(p[1..])
  }

  /** Where the instructions of a program stand that starts at `i`. */
  function Offsets(p: seq<Instruction>, i: nat): (t: seq<nat>)
    requires forall x :: x in p ==> Proper(x)
    ensures |t| == |p|
  {
    if p == [] then [] else [i] + Offsets(p[1..], i + |Encode(p[0])|)
  }

  lemma NotMarker(x: Instruction)
    requires Proper(x)
    ensures Encode(x)[0] != 0xFF
  {
  }

  /** A program stands at `i`, up to the marker. */
  ghost predicate Stands(code: seq<Byte>, i: nat, p: seq<Instruction>) {
    (forall x :: x in p ==> Proper(x)) && Has(code, i, Assemble(p) + [0xFF]) && |code| < UINT32
  }

  lemma ProgramHead(code: seq<Byte>, i: nat, p: seq<Instruction>)
    requires Stands(code, i, p) && p != []
    ensures Proper(p[0]) && Reads(code, i, p[0]) && Stands(code, i + |Encode(p[0])|, p[1..])
    ensures Trace(code, i) == [i] + Trace(code, i + |Encode(p[0])|)
  {
    hide Encode, Decode, Reads, Has, Proper;
    assert p[0] in p;
    var head, rest := Encode(p[0]), Assemble(p[1..]) + [0xFF];
    assert Assemble(p) + [0xFF] == head + rest;
    HasParts(code, i, head, rest);
    EncodedReads(code, i, p[0]);
    NotMarker(p[0]);
    StepReads(code, i, p[0]);
  }

  lemma ProgramEnd(code: seq<Byte>, i: nat)
    requires Stands(code, i, [])
    ensures Trace(code, i) == []
  {
    assert Assemble([]) + [0xFF] == [0xFF];
    OneByte(code, i, 0xFF);
  }

  /** The scan of the verifier visits the instructions of a program one by one up to the marker, and the decoders
      read each of them back. */
  lemma {:induction false} ProgramReads(code: seq<Byte>, i: nat, p: seq<Instruction>)
    requires Stands(code, i, p)
    ensures Trace(code, i) == Offsets(p, i)
    ensures forall k: nat :: k < |p| ==> Reads(code, Offsets(p, i)[k], p[k])
    decreases |p|
  {
    hide Proper, Encode, Trace, Reads, Has, Assemble;
    if p == [] {
      ProgramEnd(code, i);
    } else {
      ProgramHead(code, i, p);
      var next := i + |Encode(p[0])|;
      ProgramReads(code, next, p[1..]);
      forall k: nat | k < |p| ensures Reads(code, Offsets(p, i)[k], p[k]) {
        assert k > 0 ==> Offsets(p, i)[k] == Offsets(p[1..], next)[k - 1] && p[k] == p[1..][k - 1];
      }
    }
  }

  lemma StepReads(code: seq<Byte>, i: nat, x: Instruction)
    requires Proper(x) && Has(code, i, Encode(x)) && Reads(code, i, x) && |code| < UINT32
    requires Encode(x)[0] != 0xFF
    ensures i < |code| && code[i] != 0xFF && Decode(code, i).Instr? && Decode(code, i).next == i + |Encode(x)| > i
  {
    hide Encode, Decode, Proper;
    assert code[i..i + |Encode(x)|][0] == Encode(x)[0];
  }
}
