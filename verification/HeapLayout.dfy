/** Objects in the collector's heap chunk: headers, sizes, and the tiling of the used part
    of the chunk by objects. Offsets are in words from the beginning of the chunk. */
module HeapLayout {
  import opened Words

  datatype Kind = Array | Closure | Str | Sexp

  const DATA_HEADER_SZ := 16
  const MEMBER_SIZE := 8

  /** Words between the header of an object and its contents. */
  const HEADER_WORDS := 2

  /** The header tags 1, 3, 5 and 7 are the odd ones; any other tag is a fatal error in the source. */
  predicate IsHeader(h: Word) {
    h.b0
  }

  function KindOf(h: Word): Kind {
    if h.b2 then (if h.b1 then Closure else Sexp) else (if h.b1 then Array else Str)
  }

  function MakeHeader(kind: Kind, len: nat): Word {
    Word(len, kind.Closure? || kind.Sexp?, kind.Closure? || kind.Array?, true)
  }

  function ByteSize(kind: Kind, len: nat): nat {
    match kind
    case Array => DATA_HEADER_SZ + MEMBER_SIZE * len
    case Str => DATA_HEADER_SZ + len + 1
    case Closure => DATA_HEADER_SZ + MEMBER_SIZE * len
    case Sexp => DATA_HEADER_SZ + MEMBER_SIZE * (len + 1)
  }

  function BytesToWords(bytes: nat): nat
    requires bytes > 0
  {
    (bytes - 1) / 8 + 1
  }

  /** Size of an object in whole words. */
  function Size(h: Word): nat {
    match KindOf(h)
    case Array => 2 + h.hi
    case Closure => 2 + h.hi
    case Sexp => 3 + h.hi
    case Str => 3 + h.hi / 8
  }

  /** obj_size_header_ptr, rounded up to words. */
  function SizeInWords(h: Word): (n: nat)
    ensures n == Size(h)
  {
    BytesToWords(ByteSize(KindOf(h), h.hi))
  }

  /** The first word, counted from the header, that is scanned for pointers. The word before
      it in a closure or an s-expression is the code word or the tag. */
  function FirstField(h: Word): nat {
    match KindOf(h)
    case Array => 2
    case Closure => 3
    case Sexp => 3
    case Str => Size(h)
  }

  /** Object `k` of the tiling `s` starts at s[k] and ends where object `k + 1` starts. */
  predicate ObjAt(m: seq<Word>, s: seq<nat>, k: int)
    requires 0 <= k < |s| - 1
  {
    s[k] < |m| && IsHeader(m[s[k]]) && s[k + 1] == s[k] + Size(m[s[k]])
  }

  /** Objects lie one after another from the beginning of the chunk; the last element of `s` is
      the offset of heap.current. */
  ghost predicate Tiled(m: seq<Word>, s: seq<nat>) {
    && |s| > 0
    && s[0] == 0
    && s[|s| - 1] <= |m|
    && forall k :: 0 <= k < |s| - 1 ==> ObjAt(m, s, k)
  }

  function Count(s: seq<nat>): nat
    requires |s| > 0
  {
    |s| - 1
  }

  function Used(s: seq<nat>): nat
    requires |s| > 0
  {
    s[|s| - 1]
  }

  predicate Between(p: nat, lo: nat, hi: nat) {
    lo <= p < hi
  }

  /** The word addresses from `lo` up to, not including, `hi`. */
  ghost function Region(lo: nat, hi: nat): set<nat> {
    set p: nat | lo <= p < hi && Between(p, lo, hi)
  }

  /** The boundaries increase by at least a header each. */
  ghost predicate Ascending(s: seq<nat>) {
    forall a, b :: 0 <= a < b < |s| ==> s[a] + 2 <= s[b]
  }

  lemma {:induction false} TiledPair(m: seq<Word>, s: seq<nat>, a: int, b: int)
    requires Tiled(m, s)
    requires 0 <= a < b < |s|
    ensures s[a] + 2 <= s[b]
    decreases b - a
  {
    assert ObjAt(m, s, b - 1);
    if a < b - 1 {
      TiledPair(m, s, a, b - 1);
    }
  }

  lemma TiledAscending(m: seq<Word>, s: seq<nat>)
    requires Tiled(m, s)
    ensures Ascending(s)
  {
    forall a, b | 0 <= a < b < |s| ensures s[a] + 2 <= s[b] {
      TiledPair(m, s, a, b);
    }
  }

  /** Offsets of the forward words. */
  ghost function Forwards(s: seq<nat>): set<nat>
    requires |s| > 0
  {
    set k | 0 <= k < Count(s) :: s[k] + 1
  }

  /** The two memories differ at most in forward words of objects. */
  ghost predicate SameButForwards(m: seq<Word>, m': seq<Word>, s: seq<nat>)
    requires |s| > 0
  {
    && |m| == |m'|
    && forall i :: 0 <= i < |m| && i !in Forwards(s) ==> m'[i] == m[i]
  }

  lemma HeaderNotForward(m: seq<Word>, s: seq<nat>, k: nat)
    requires Tiled(m, s) && k < Count(s)
    ensures s[k] !in Forwards(s)
  {
    TiledAscending(m, s);
  }

  /** Word `i` lies in the contents of object `k`. */
  predicate InContents(s: seq<nat>, k: nat, i: int)
    requires |s| > 0
  {
    k < Count(s) && s[k] + 2 <= i < s[k + 1]
  }

  lemma ContentsNotForward(m: seq<Word>, s: seq<nat>, k: nat, i: int)
    requires Tiled(m, s) && InContents(s, k, i)
    ensures i !in Forwards(s)
  {
    TiledAscending(m, s);
    forall l | 0 <= l < Count(s) ensures s[l] + 1 != i {
      if l < k {
        assert s[l] + 2 <= s[k];
      } else if l > k + 1 {
        assert s[k + 1] + 2 <= s[l];
      }
    }
  }

  lemma ObjectBounds(m: seq<Word>, s: seq<nat>, k: nat)
    requires Tiled(m, s) && k < Count(s)
    ensures ObjAt(m, s, k)
    ensures s[k] + 2 <= s[k + 1] <= Used(s) <= |m|
  {
    assert ObjAt(m, s, k);
    if k + 1 < |s| - 1 {
      TiledPair(m, s, k + 1, |s| - 1);
    }
  }

  /** Forward words do not matter for the tiling. */
  lemma TilingIgnoresForwards(m: seq<Word>, m': seq<Word>, s: seq<nat>)
    requires Tiled(m, s) && SameButForwards(m, m', s)
    ensures Tiled(m', s)
  {
    forall k | 0 <= k < |s| - 1 ensures ObjAt(m', s, k) {
      assert ObjAt(m, s, k);
      HeaderNotForward(m, s, k);
    }
  }

  /** Word `j` is a scanned field of object `k`. */
  predicate FieldAt(m: seq<Word>, s: seq<nat>, k: nat, j: int)
    requires |s| > 0
  {
    && k < Count(s)
    && s[k] < |m|
    && s[k] + FirstField(m[s[k]]) <= j < s[k + 1] <= |m|
  }

  /** The fields of an array are all its elements, those of a closure all but the code word, those of an
      s-expression all elements after the tag; a string has none. */
  lemma FieldPlaces(m: seq<Word>, s: seq<nat>, k: nat, j: int)
    requires Tiled(m, s) && k < Count(s)
    ensures s[k] < |m|
    ensures FieldAt(m, s, k, j) <==>
            match KindOf(m[s[k]])
            case Array => s[k] + 2 <= j < s[k] + 2 + m[s[k]].hi
            case Closure => s[k] + 3 <= j < s[k] + 2 + m[s[k]].hi
            case Sexp => s[k] + 3 <= j < s[k] + 3 + m[s[k]].hi
            case Str => false
  {
    assert ObjAt(m, s, k);
    TiledAscending(m, s);
  }

  lemma FieldInContents(m: seq<Word>, s: seq<nat>, k: nat, j: int)
    requires Tiled(m, s) && FieldAt(m, s, k, j)
    ensures InContents(s, k, j)
    ensures s[k + 1] <= Used(s)
  {
    assert ObjAt(m, s, k);
    if k + 1 < |s| - 1 {
      TiledPair(m, s, k + 1, |s| - 1);
    }
  }

  /** The pointer to an object is the address of its contents. */
  function ContentPtr(base: nat, start: nat): Word {
    Addr(base + start + HEADER_WORDS)
  }

  predicate Points(w: Word, base: nat, s: seq<nat>, k: nat)
    requires |s| > 0
  {
    k < Count(s) && w == ContentPtr(base, s[k])
  }

  lemma PointsUnique(m: seq<Word>, s: seq<nat>, base: nat, w: Word, k: nat, l: nat)
    requires Tiled(m, s) && Points(w, base, s, k) && Points(w, base, s, l)
    ensures k == l
  {
    TiledAscending(m, s);
  }

  /** is_valid_heap_pointer: even, and between heap.begin and heap.current, both included. */
  predicate InRange(w: Word, base: nat, used: nat) {
    !Unboxed(w) && base <= w.hi && (w.hi < base + used || w == Addr(base + used))
  }

  /** The content pointer of an object is in range, also when it is an empty array that ends
      the heap and its content pointer is heap.current. */
  lemma PointerInRange(m: seq<Word>, s: seq<nat>, base: nat, w: Word, k: nat)
    requires Tiled(m, s) && Points(w, base, s, k)
    ensures InRange(w, base, Used(s))
  {
    TiledPair(m, s, k, |s| - 1);
  }

  /** A word in the range of the heap is the pointer of some object. */
  ghost predicate Aimed(w: Word, base: nat, s: seq<nat>)
    requires |s| > 0
  {
    InRange(w, base, Used(s)) ==> exists k: nat :: Points(w, base, s, k)
  }

  ghost function TargetOf(w: Word, base: nat, s: seq<nat>): (k: nat)
    requires |s| > 0 && Aimed(w, base, s) && InRange(w, base, Used(s))
    ensures Points(w, base, s, k)
  {
    var k: nat :| Points(w, base, s, k);
    k
  }

  /** Every scanned field of every object is an integer, a pointer to an object, or outside the heap. */
  ghost predicate FieldsAimed(m: seq<Word>, s: seq<nat>, base: nat)
    requires |s| > 0
  {
    forall k: nat, j: int :: FieldAt(m, s, k, j) ==> Aimed(m[j], base, s)
  }

  lemma FieldsIgnoreForwards(m: seq<Word>, m': seq<Word>, s: seq<nat>, k: nat, j: int)
    requires Tiled(m, s) && SameButForwards(m, m', s)
    ensures FieldAt(m, s, k, j) <==> FieldAt(m', s, k, j)
    ensures FieldAt(m, s, k, j) ==> m[j] == m'[j]
  {
    if k < Count(s) {
      HeaderNotForward(m, s, k);
      assert ObjAt(m, s, k);
      if FieldAt(m, s, k, j) {
        FieldInContents(m, s, k, j);
        ContentsNotForward(m, s, k, j);
      }
    }
  }

  lemma AimedIgnoresForwards(m: seq<Word>, m': seq<Word>, s: seq<nat>, base: nat)
    requires Tiled(m, s) && SameButForwards(m, m', s) && FieldsAimed(m, s, base)
    ensures FieldsAimed(m', s, base)
  {
    forall k: nat, j: int | FieldAt(m', s, k, j) ensures Aimed(m'[j], base, s) {
      FieldsIgnoreForwards(m, m', s, k, j);
    }
  }
}
