/** Bytecode: bytes, instruction types, and the decoding shared by the verifier, the analyzer and
    the interpreter. */
module Bytecode {

  type Byte = x: int | 0 <= x < 256

  const UINT32 := 0x1_0000_0000
  const INT32_MAX := 0x7fff_ffff

  datatype Op =
    | BINOP | CONST | STRING | SEXP | STI | STA | JMP | END | RET | DROP | DUP | SWAP | ELEM
    | LD | LDA | ST | CJMPz | CJMPnz | BEGIN | CBEGIN | CLOSURE | CALLC | CALL | TAG | ARRAY | FAIL | LINE
    | PATT | CALL_READ | CALL_WRITE | CALL_LENGTH | CALL_STRING | CALL_ARRAY
    | UNKNOWN

  function HighBits(b: Byte): int {
    b / 16 * 16
  }

  function LowBits(b: Byte): int {
    b % 16
  }

  /** get_instruction_type and next_instruction_type: five groups ignore the low bits. */
  function OpOf(b: Byte): Op {
    var h := HighBits(b);
    if h == 0x00 then BINOP
    else if h == 0x20 then LD
    else if h == 0x30 then LDA
    else if h == 0x40 then ST
    else if h == 0x60 then PATT
    else RawOp(b)
  }

  function RawOp(b: Byte): Op {
    if b == 0x10 then CONST
    else if b == 0x11 then STRING
    else if b == 0x12 then SEXP
    else if b == 0x13 then STI
    else if b == 0x14 then STA
    else if b == 0x15 then JMP
    else if b == 0x16 then END
    else if b == 0x17 then RET
    else if b == 0x18 then DROP
    else if b == 0x19 then DUP
    else if b == 0x1A then SWAP
    else if b == 0x1B then ELEM
    else if b == 0x50 then CJMPz
    else if b == 0x51 then CJMPnz
    else if b == 0x52 then BEGIN
    else if b == 0x53 then CBEGIN
    else if b == 0x54 then CLOSURE
    else if b == 0x55 then CALLC
    else if b == 0x56 then CALL
    else if b == 0x57 then TAG
    else if b == 0x58 then ARRAY
    else if b == 0x59 then FAIL
    else if b == 0x5A then LINE
    else if b == 0x70 then CALL_READ
    else if b == 0x71 then CALL_WRITE
    else if b == 0x72 then CALL_LENGTH
    else if b == 0x73 then CALL_STRING
    else if b == 0x74 then CALL_ARRAY
    else UNKNOWN
  }

  /** Four bytes, the least significant first. */
  function U32(code: seq<Byte>, i: nat): (u: nat)
    requires i + 4 <= |code|
    ensures u < UINT32
  {
    code[i] as int + 0x100 * code[i + 1] as int + 0x1_0000 * code[i + 2] as int + 0x100_0000 * code[i + 3] as int
  }

  /** The number of 32-bit arguments after the opcode; CLOSURE has designations after its two. */
  function ArgCount(op: Op): nat {
    match op
    case JMP | CJMPz | CJMPnz | CONST | CALL_ARRAY | ARRAY | STRING | CALLC | LD | ST | LDA | LINE => 1
    case CLOSURE | CALL | SEXP | TAG | BEGIN | CBEGIN | FAIL => 2
    case _ => 0
  }

  /** What decoding at an offset gives. Reading past the code is undefined in the source. */
  datatype Decoded = Instr(op: Op, next: nat) | BadOpcode | OutOfCode

  /** general_byterun: the instruction at `i` and the offset after it. Only CLOSURE has an argument
      that decoding reads. */
  function Decode(code: seq<Byte>, i: nat): (d: Decoded)
    ensures d.Instr? ==> i < |code| && d.op == OpOf(code[i]) && d.op != UNKNOWN
  {
    if i >= |code| then OutOfCode
    else
      var op := OpOf(code[i]);
      if op == UNKNOWN then BadOpcode
      else if op == CLOSURE then
        if i + 9 > |code| then OutOfCode else Instr(op, (i + 9 + 5 * U32(code, i + 5)) % UINT32)
      else Instr(op, (i + 1 + 4 * ArgCount(op)) % UINT32)
  }

  /** Argument `k` of the instruction at `i`. */
  function Arg(code: seq<Byte>, i: nat, k: nat): (u: nat)
    requires i + 5 + 4 * k <= |code|
    ensures u < UINT32
  {
    U32(code, i + 1 + 4 * k)
  }
}
