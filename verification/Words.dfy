/** 64-bit machine words, split the way the runtime splits them.
    A word with value v is kept as v / 8 and the three low bits of v, so that
    the length of a header (LEN), the word address of an aligned pointer, and
    the tag, mark and enqueued bits are all fields. */
module Words {

  datatype Word = Word(hi: nat, b2: bool, b1: bool, b0: bool)

  /** The aligned address of the machine word number `a`. */
  function Addr(a: nat): Word {
    Word(a, false, false, false)
  }

  const ZERO := Addr(0)

  /** UNBOXED: an odd word is an integer, never a pointer. */
  predicate Unboxed(w: Word) {
    w.b0
  }

  /** A char is signed. */
  function SignedChar(b: nat): int {
    if b < 128 then b else b - 256
  }

  // The macros of gc.h, on the split form.

  predicate GetMarkBit(w: Word) { w.b0 }

  function SetMarkBit(w: Word): Word { w.(b0 := true) }

  function ResetMarkBit(w: Word): Word { w.(b0 := false) }

  predicate IsEnqueued(w: Word) { w.b1 }

  function MakeEnqueued(w: Word): Word { w.(b1 := true) }

  function MakeDequeued(w: Word): Word { w.(b1 := false) }

  function GetForwardAddress(w: Word): Word { w.(b1 := false, b0 := false) }

  function SetForwardAddress(w: Word, addr: Word): Word {
    Word(addr.hi, addr.b2, w.b1 || addr.b1, w.b0 || addr.b0)
  }

  /** UNBOX of a word that is not negative: a shift. */
  function Unbox(w: Word): Word {
    Word(w.hi / 2, w.hi % 2 == 1, w.b2, w.b1)
  }

  // The same macros on raw 64-bit words, and the proof that the split form computes them.

  function High(x: bv64): nat {
    (x >> 3) as nat
  }

  function Split(x: bv64): Word {
    Word(High(x), x & 4 != 0, x & 2 != 0, x & 1 != 0)
  }

  lemma BitsOfMark(x: bv64)
    ensures (x | 1) >> 3 == x >> 3 && (x | 1) & 4 == x & 4 && (x | 1) & 2 == x & 2 && (x | 1) & 1 != 0
    ensures (x & !1) >> 3 == x >> 3 && (x & !1) & 4 == x & 4 && (x & !1) & 2 == x & 2 && (x & !1) & 1 == 0
  {
  }

  lemma BitsOfEnqueue(x: bv64)
    ensures (x | 2) >> 3 == x >> 3 && (x | 2) & 4 == x & 4 && (x | 2) & 2 != 0 && (x | 2) & 1 == x & 1
    ensures (x & !2) >> 3 == x >> 3 && (x & !2) & 4 == x & 4 && (x & !2) & 2 == 0 && (x & !2) & 1 == x & 1
  {
  }

  lemma BitsOfGet(x: bv64)
    ensures (x & !3) >> 3 == x >> 3 && (x & !3) & 4 == x & 4 && (x & !3) & 2 == 0 && (x & !3) & 1 == 0
  {
  }

  lemma BitsOfSet(x: bv64, addr: bv64)
    ensures ((x & 3) | addr) >> 3 == addr >> 3 && ((x & 3) | addr) & 4 == addr & 4
    ensures ((x & 3) | addr) & 2 != 0 <==> x & 2 != 0 || addr & 2 != 0
    ensures ((x & 3) | addr) & 1 != 0 <==> x & 1 != 0 || addr & 1 != 0
  {
  }

  lemma MarkByParts(y: bv64, x: bv64, marked: bool)
    requires y >> 3 == x >> 3 && y & 4 == x & 4 && y & 2 == x & 2 && (y & 1 != 0 <==> marked)
    ensures Split(y) == Split(x).(b0 := marked)
  {
  }

  lemma EnqueuedByParts(y: bv64, x: bv64, enqueued: bool)
    requires y >> 3 == x >> 3 && y & 4 == x & 4 && (y & 2 != 0 <==> enqueued) && y & 1 == x & 1
    ensures Split(y) == Split(x).(b1 := enqueued)
  {
  }

  lemma AddressByParts(y: bv64, x: bv64)
    requires y >> 3 == x >> 3 && y & 4 == x & 4 && y & 2 == 0 && y & 1 == 0
    ensures Split(y) == GetForwardAddress(Split(x))
  {
  }

  lemma SetMarkOnBits(x: bv64)
    ensures Split(x | 1) == SetMarkBit(Split(x))
  {
    hide Split;
    BitsOfMark(x);
    MarkByParts(x | 1, x, true);
  }

  lemma ResetMarkOnBits(x: bv64)
    ensures Split(x & !1) == ResetMarkBit(Split(x))
  {
    hide Split;
    BitsOfMark(x);
    MarkByParts(x & !1, x, false);
  }

  lemma MakeEnqueuedOnBits(x: bv64)
    ensures Split(x | 2) == MakeEnqueued(Split(x))
  {
    hide Split;
    BitsOfEnqueue(x);
    EnqueuedByParts(x | 2, x, true);
  }

  lemma MakeDequeuedOnBits(x: bv64)
    ensures Split(x & !2) == MakeDequeued(Split(x))
  {
    hide Split;
    BitsOfEnqueue(x);
    EnqueuedByParts(x & !2, x, false);
  }

  lemma GetForwardOnBits(x: bv64)
    ensures Split(x & !3) == GetForwardAddress(Split(x))
  {
    hide Split, GetForwardAddress;
    BitsOfGet(x);
    AddressByParts(x & !3, x);
  }

  lemma SetForwardByParts(y: bv64, x: bv64, addr: bv64)
    requires y >> 3 == addr >> 3 && y & 4 == addr & 4
    requires y & 2 != 0 <==> x & 2 != 0 || addr & 2 != 0
    requires y & 1 != 0 <==> x & 1 != 0 || addr & 1 != 0
    ensures Split(y) == SetForwardAddress(Split(x), Split(addr))
  {
  }

  lemma SetForwardOnBits(x: bv64, addr: bv64)
    ensures Split((x & 3) | addr) == SetForwardAddress(Split(x), Split(addr))
  {
    hide Split, SetForwardAddress;
    BitsOfSet(x, addr);
    SetForwardByParts((x & 3) | addr, x, addr);
  }

  /** An aligned address survives being stored in and read back from a forward word, and the two
      flags of that word survive the store. */
  lemma ForwardRoundTrip(w: Word, a: nat)
    ensures GetForwardAddress(SetForwardAddress(w, Addr(a))) == Addr(a)
    ensures GetMarkBit(SetForwardAddress(w, Addr(a))) == GetMarkBit(w)
    ensures IsEnqueued(SetForwardAddress(w, Addr(a))) == IsEnqueued(w)
  {
  }
}
