/** The builtins that make strings: Lsubstring, concatenation and Bstring. */
module Strings {
  import opened Words
  import opened HeapLayout
  import opened Graphs
  import opened Collector
  import opened Runtime
  import opened Values

  // Bytes in the words of the heap.

  function WithByte(n: nat, i: nat, b: nat): nat
    requires b < 256
  {
    if i == 0 then n / 256 * 256 + b else WithByte(n / 256, i - 1, b) * 256 + n % 256
  }

  lemma {:induction false} WithByteAt(n: nat, i: nat, b: nat, j: nat)
    requires b < 256
    ensures ByteAt(WithByte(n, i, b), j) == if j == i then b else ByteAt(n, j)
  {
    if i > 0 && j > 0 {
      WithByteAt(n / 256, i - 1, b, j - 1);
    }
  }

  /** The `n` bytes from byte `b` on. */
  function TextBytes(ws: seq<Word>, b: nat, n: nat): (bytes: seq<nat>)
    requires b + n <= 8 * |ws|
    ensures |bytes| == n && forall i: nat :: i < n ==> bytes[i] == ByteIn(ws, b + i)
  {
    if n == 0 then [] else TextBytes(ws, b, n - 1) + [ByteIn(ws, b + n - 1)]
  }

  method PutByte(gc: Gc, b: nat, v: nat)
    requires b < 8 * gc.words.Length && v < 256
    modifies gc.words
    ensures forall c: nat :: c < 8 * gc.words.Length ==>
              ByteIn(gc.words[..], c) == if c == b then v else ByteIn(old(gc.words[..]), c)
    ensures forall j :: 0 <= j < gc.words.Length && j != b / 8 ==> gc.words[j] == old(gc.words[j])
  {
    ghost var ws := gc.words[..];
    gc.words[b / 8] := WordFrom(WithByte(Number(gc.words[b / 8]), b % 8, v));
    forall c: nat | c < 8 * gc.words.Length ensures ByteIn(gc.words[..], c) == if c == b then v else ByteIn(ws, c) {
      if c / 8 == b / 8 {
        WithByteAt(Number(ws[b / 8]), b % 8, v, c % 8);
      }
    }
  }

  /** What strncpy leaves of `src`: its bytes up to the first NUL, and then NULs. */
  function Copied(src: seq<nat>): (dst: seq<nat>)
    ensures |dst| == |src|
  {
    if src == [] then []
    else if src[0] == 0 then seq(|src|, _ => 0)
    else [src[0]] + Copied(src[1..])
  }

  predicate HasNul(src: seq<nat>) {
    exists i :: 0 <= i < |src| && src[i] == 0
  }

  lemma {:induction false} CopiedAt(src: seq<nat>, i: nat)
    requires i < |src|
    ensures Copied(src)[i] == if HasNul(src[..i + 1]) then 0 else src[i]
  {
    if src[0] == 0 {
      assert src[..i + 1][0] == 0;
    } else if i > 0 {
      CopiedAt(src[1..], i - 1);
      assert src[1..][..i] == src[..i + 1][1..];
      assert HasNul(src[..i + 1]) <==> HasNul(src[..i + 1][1..]);
    }
  }

  /** A string without NUL is copied whole. */
  lemma {:induction false} CopiedWhole(src: seq<nat>)
    requires !HasNul(src)
    ensures Copied(src) == src
  {
    if src != [] {
      assert src[0] != 0;
      forall i | 0 <= i < |src[1..]| ensures src[1..][i] != 0 {
        assert src[i + 1] != 0;
      }
      CopiedWhole(src[1..]);
    }
  }

  /** The state of the copy after `i` bytes: `text` is what was at the source. */
  ghost predicate Copying(ws: seq<Word>, ws': seq<Word>, dst: nat, text: seq<nat>, i: nat)
    requires dst + |text| <= 8 * |ws| == 8 * |ws'| && i <= |text|
  {
    && (forall c: nat :: c < i ==> CopiedByte(ws', dst, text, c))
    && (forall c: nat :: c < 8 * |ws'| && !(dst <= c < dst + i) ==> ByteIn(ws', c) == ByteIn(ws, c))
    && forall j :: 0 <= j < |ws'| && (8 * j + 8 <= dst || dst + |text| <= 8 * j) ==> ws'[j] == ws[j]
  }

  ghost predicate CopiedByte(ws': seq<Word>, dst: nat, text: seq<nat>, c: nat)
  {
    dst + c < 8 * |ws'| && c < |text| && ByteIn(ws', dst + c) == Copied(text)[c]
  }

  lemma CopyingDone(ws: seq<Word>, ws': seq<Word>, dst: nat, text: seq<nat>)
    requires dst + |text| <= 8 * |ws| == 8 * |ws'| && Copying(ws, ws', dst, text, |text|)
    ensures TextBytes(ws', dst, |text|) == Copied(text)
  {
    forall i: nat | i < |text| ensures TextBytes(ws', dst, |text|)[i] == Copied(text)[i] {
      assert CopiedByte(ws', dst, text, i);
    }
  }

  lemma CopiedByteKept(ws1: seq<Word>, ws2: seq<Word>, dst: nat, text: seq<nat>, i: nat, c: nat)
    requires dst + |text| <= 8 * |ws1| == 8 * |ws2| && c < i < |text| && CopiedByte(ws1, dst, text, c)
    requires forall c: nat :: c < 8 * |ws1| && c != dst + i ==> ByteIn(ws2, c) == ByteIn(ws1, c)
    ensures CopiedByte(ws2, dst, text, c)
  {
    hide ByteIn, Copied;
  }

  lemma CopyingNext(ws: seq<Word>, ws1: seq<Word>, ws2: seq<Word>, dst: nat, text: seq<nat>, i: nat)
    requires dst + |text| <= 8 * |ws| == 8 * |ws1| == 8 * |ws2| && i < |text| && Copying(ws, ws1, dst, text, i)
    requires CopiedByte(ws2, dst, text, i)
    requires forall c: nat :: c < 8 * |ws1| && c != dst + i ==> ByteIn(ws2, c) == ByteIn(ws1, c)
    requires forall j :: 0 <= j < |ws1| && j != (dst + i) / 8 ==> ws2[j] == ws1[j]
    ensures Copying(ws, ws2, dst, text, i + 1)
  {
    hide ByteIn, Copied, CopiedByte;
    forall c: nat | c < i + 1 ensures CopiedByte(ws2, dst, text, c) {
      if c < i {
        CopiedByteKept(ws1, ws2, dst, text, i, c);
      }
    }
    forall j | 0 <= j < |ws2| && (8 * j + 8 <= dst || dst + |text| <= 8 * j) ensures ws2[j] == ws[j] {
      OtherWord(dst, i, j, |text|);
    }
  }

  lemma OtherWord(dst: nat, i: nat, j: nat, n: nat)
    requires i < n && (8 * j + 8 <= dst || dst + n <= 8 * j)
    ensures j != (dst + i) / 8
  {
  }

  method StrNCpy(gc: Gc, dst: nat, src: nat, n: nat)
    requires dst + n <= 8 * gc.words.Length && src + n <= 8 * gc.words.Length
    requires src + n <= dst || dst + n <= src
    modifies gc.words
    ensures TextBytes(gc.words[..], dst, n) == Copied(TextBytes(old(gc.words[..]), src, n))
    ensures forall c: nat :: c < 8 * gc.words.Length && !(dst <= c < dst + n) ==>
              ByteIn(gc.words[..], c) == ByteIn(old(gc.words[..]), c)
    ensures forall j :: 0 <= j < gc.words.Length && (8 * j + 8 <= dst || dst + n <= 8 * j) ==>
              gc.words[j] == old(gc.words[j])
  {
    hide TextBytes, Copied, ByteIn, HasNul;
    ghost var ws, text := gc.words[..], TextBytes(gc.words[..], src, n);
    var ended := false;
    assert !HasNul(text[..0]) by { EmptyHasNoNul(); assert text[..0] == []; }
    for i := 0 to n
      invariant ended <==> HasNul(text[..i])
      invariant Copying(ws, gc.words[..], dst, text, i)
    {
      ghost var ws1 := gc.words[..];
      var b := ByteIn(gc.words[..], src + i);
      assert b == text[i];
      CopiedAt(text, i);
      NulOneMore(text, i);
      ended := ended || b == 0;
      PutByte(gc, dst + i, if ended then 0 else b);
      CopyingNext(ws, ws1, gc.words[..], dst, text, i);
    }
    CopyingDone(ws, gc.words[..], dst, text);
  }

  /** strncpy of a text that lies outside of the heap. */
  method StrNCpyText(gc: Gc, dst: nat, text: seq<nat>)
    requires dst + |text| <= 8 * gc.words.Length && forall i :: 0 <= i < |text| ==> text[i] < 256
    modifies gc.words
    ensures TextBytes(gc.words[..], dst, |text|) == Copied(text)
    ensures forall c: nat :: c < 8 * gc.words.Length && !(dst <= c < dst + |text|) ==>
              ByteIn(gc.words[..], c) == ByteIn(old(gc.words[..]), c)
    ensures forall j :: 0 <= j < gc.words.Length && (8 * j + 8 <= dst || dst + |text| <= 8 * j) ==>
              gc.words[j] == old(gc.words[j])
  {
    hide TextBytes, Copied, ByteIn, HasNul;
    ghost var ws := gc.words[..];
    var ended := false;
    assert !HasNul(text[..0]) by { EmptyHasNoNul(); assert text[..0] == []; }
    for i := 0 to |text|
      invariant ended <==> HasNul(text[..i])
      invariant Copying(ws, gc.words[..], dst, text, i)
    {
      ghost var ws1 := gc.words[..];
      CopiedAt(text, i);
      NulOneMore(text, i);
      ended := ended || text[i] == 0;
      PutByte(gc, dst + i, if ended then 0 else text[i]);
      CopyingNext(ws, ws1, gc.words[..], dst, text, i);
    }
    CopyingDone(ws, gc.words[..], dst, text);
  }

  lemma EmptyHasNoNul()
    ensures !HasNul([])
  {
  }

  lemma NulOneMore(text: seq<nat>, i: nat)
    requires i < |text|
    ensures HasNul(text[..i + 1]) <==> HasNul(text[..i]) || text[i] == 0
  {
    var t, t' := text[..i], text[..i + 1];
    if k :| 0 <= k < |t'| && t'[k] == 0 {
      assert k < i ==> t[k] == 0;
    }
    if k :| 0 <= k < |t| && t[k] == 0 {
      assert t'[k] == 0;
    }
    if text[i] == 0 {
      assert t'[i] == 0;
    }
  }

  // Strings as objects.

  /** The byte at which the contents of the object at word `s` start. */
  function FirstByte(s: nat): nat {
    8 * (s + HEADER_WORDS)
  }

  /** The `n` bytes from byte `b` of object `k` on. */
  ghost function StringBytes(g: Heap, k: nat, b: nat, n: nat): seq<nat>
    requires |g.starts| > 0 && k < Count(g.starts) && FirstByte(g.starts[k]) + b + n <= 8 * |g.words|
  {
    TextBytes(g.words, FirstByte(g.starts[k]) + b, n)
  }

  ghost predicate IsString(g: Heap, w: Word, k: nat) {
    && g.Tiles() && g.PointsTo(w, k) && g.starts[k] < |g.words| && KindOf(g.HeaderOf(k)).Str?
  }

  /** The bytes of a string and its end are inside of its object. */
  lemma StringInside(g: Heap, w: Word, k: nat)
    requires IsString(g, w, k)
    ensures FirstByte(g.starts[k]) + g.HeaderOf(k).hi + 1 <= 8 * g.starts[k + 1] <= 8 * Used(g.starts) <= 8 * |g.words|
    ensures w.hi == g.base + g.starts[k] + HEADER_WORDS
  {
    ObjectBounds(g.words, g.starts, k);
  }

  /** A collection keeps the bytes of a string. */
  lemma BytesKept(g: Heap, g': Heap, ren: map<nat, nat>, k: nat, b: nat, n: nat)
    requires Preserved(g, g', ren) && k in ren && k < Count(g.starts) && g.starts[k] < |g.words|
    requires KindOf(g.HeaderOf(k)).Str?
    requires b + n <= g.HeaderOf(k).hi + 1
    ensures ren[k] < Count(g'.starts) && g'.starts[ren[k]] < |g'.words| && g'.HeaderOf(ren[k]) == g.HeaderOf(k)
    ensures FirstByte(g.starts[k]) + b + n <= 8 * |g.words| && FirstByte(g'.starts[ren[k]]) + b + n <= 8 * |g'.words|
    ensures StringBytes(g', ren[k], b, n) == StringBytes(g, k, b, n)
  {
    hide ByteIn;
    KeptBounds(g, g', ren, k);
    SizeAtLeast(g.HeaderOf(k));
    var bytes, bytes' := StringBytes(g, k, b, n), StringBytes(g', ren[k], b, n);
    forall i | 0 <= i < n ensures bytes[i] == bytes'[i] {
      ByteKept(g, g', ren, k, b + i);
    }
  }

  /** A string object under construction: only its contents are written. */
  lemma StringFilled(foreign: iset<nat>, g: Heap, g1: Heap, g2: Heap, at: nat, len: nat)
    requires NewLast(foreign, g, g1, at, MakeHeader(Str, len))
    requires g2.base == g1.base && g2.starts == g1.starts && |g2.words| == |g1.words|
    requires forall i :: 0 <= i < at + 2 ==> g2.words[i] == g1.words[i]
    ensures NewLast(foreign, g, g2, at, MakeHeader(Str, len)) && LastValued(foreign, g, g2, at, MakeHeader(Str, len))
  {
    FilledIn(foreign, g, g1, g2, at, MakeHeader(Str, len));
  }

  /** The bytes from byte `b` of the new object on. */
  ghost function NewBytes(g: Heap, obj: Word, b: nat, n: nat): seq<nat>
    requires g.base <= obj.hi && 8 * (obj.hi - g.base) + b + n <= 8 * |g.words|
  {
    TextBytes(g.words, 8 * (obj.hi - g.base) + b, n)
  }

  /** Where the new string of a builtin lies, and the string object `k` of the heap without it. */
  lemma StringPlaces(foreign: iset<nat>, g: Heap, g1: Heap, at: nat, len: nat, w: Word, k: nat)
    requires NewLast(foreign, g, g1, at, MakeHeader(Str, len)) && IsString(g, w, k)
    ensures FirstByte(at) + len + 1 <= 8 * Used(g1.starts) <= 8 * |g1.words|
    ensures g1.base == g.base && w.hi == g.base + g.starts[k] + HEADER_WORDS
    ensures FirstByte(g.starts[k]) + g.HeaderOf(k).hi + 1 <= 8 * at
    ensures forall b: nat, n: nat :: b + n <= g.HeaderOf(k).hi + 1 ==>
              TextBytes(g1.words, FirstByte(g.starts[k]) + b, n) == StringBytes(g, k, b, n)
  {
    hide TextBytes, ByteIn;
    StringInside(g, w, k);
    ObjectBounds(g1.words, g1.starts, Count(g1.starts) - 1);
    SizeAtLeast(MakeHeader(Str, len));
    forall b: nat, n: nat | b + n <= g.HeaderOf(k).hi + 1
      ensures TextBytes(g1.words, FirstByte(g.starts[k]) + b, n) == StringBytes(g, k, b, n)
    {
      SameBytes(g.words, g1.words, FirstByte(g.starts[k]) + b, n);
    }
  }

  lemma SameBytes(ws: seq<Word>, ws': seq<Word>, b: nat, n: nat)
    requires b + n <= 8 * |ws| && b + n <= 8 * |ws'|
    requires forall j: nat :: 8 * j < b + n && j < |ws| && j < |ws'| ==> ws'[j] == ws[j]
    ensures TextBytes(ws', b, n) == TextBytes(ws, b, n)
  {
    var t, t' := TextBytes(ws, b, n), TextBytes(ws', b, n);
    forall i: nat | i < n ensures t'[i] == t[i] {
      assert ws'[(b + i) / 8] == ws[(b + i) / 8];
    }
  }

  /** strncpy of `n` bytes into the new string, from byte `off` of it on; the source lies below it. */
  method FillString(gc: Gc, at: nat, off: nat, src: nat, n: nat, ghost foreign: iset<nat>, ghost g: Heap,
                    ghost len: nat)
    requires gc.Fresh(foreign, g, at, MakeHeader(Str, len))
    requires LastValued(foreign, g, gc.Snapshot(), at, MakeHeader(Str, len))
    requires FirstByte(at) + len + 1 <= 8 * gc.words.Length && off + n <= len && src + n <= 8 * at
    modifies gc.words
    ensures gc.Fresh(foreign, g, at, MakeHeader(Str, len))
    ensures LastValued(foreign, g, gc.Snapshot(), at, MakeHeader(Str, len))
    ensures TextBytes(gc.words[..], FirstByte(at) + off, n) == Copied(TextBytes(old(gc.words[..]), src, n))
    ensures forall c: nat :: c < 8 * gc.words.Length && !(FirstByte(at) + off <= c < FirstByte(at) + off + n) ==>
              ByteIn(gc.words[..], c) == ByteIn(old(gc.words[..]), c)
    ensures forall j :: 0 <= j < gc.words.Length && j < at + 2 ==> gc.words[j] == old(gc.words[j])
  {
    hide NewLast, LastValued, TextBytes, Copied, ByteIn;
    ghost var g1 := gc.Snapshot();
    StrNCpy(gc, FirstByte(at) + off, src, n);
    StringFilled(foreign, g, g1, gc.Snapshot(), at, len);
  }

  /** Before anything is copied. */
  lemma StringStarts(foreign: iset<nat>, g: Heap, g1: Heap, at: nat, len: nat)
    requires NewLast(foreign, g, g1, at, MakeHeader(Str, len))
    ensures LastValued(foreign, g, g1, at, MakeHeader(Str, len))
  {
  }

  lemma ZeroByte(ws: seq<Word>, c: nat)
    requires c < 8 * |ws| && ws[c / 8] == ZERO
    ensures ByteIn(ws, c) == 0
  {
    ByteOfZero(c % 8);
  }

  lemma {:induction false} ByteOfZero(i: nat)
    ensures ByteAt(0, i) == 0
  {
    if i > 0 {
      ByteOfZero(i - 1);
    }
  }

  /** The two halves of a string builtin meet: the bytes that were copied are those of the argument before
      the allocation. */
  lemma SourceBytes(foreign: iset<nat>, g0: Heap, g: Heap, g1: Heap, ren: map<nat, nat>, at: nat, len: nat, w: Word,
                    k: nat, b: nat, n: nat)
    requires Preserved(g0, g, ren) && k in ren && k < Count(g0.starts) && g0.starts[k] < |g0.words|
    requires KindOf(g0.HeaderOf(k)).Str?
    requires NewLast(foreign, g, g1, at, MakeHeader(Str, len)) && ren[k] < Count(g.starts) && g.PointsTo(w, ren[k])
    requires b + n <= g0.HeaderOf(k).hi + 1
    ensures g1.base <= w.hi && 8 * (w.hi - g1.base) + b + n <= 8 * at <= 8 * |g1.words|
    ensures FirstByte(g0.starts[k]) + b + n <= 8 * |g0.words|
    ensures TextBytes(g1.words, 8 * (w.hi - g1.base) + b, n) == StringBytes(g0, k, b, n)
  {
    hide TextBytes, ByteIn;
    BytesKept(g0, g, ren, k, b, n);
    StringPlaces(foreign, g, g1, at, len, w, ren[k]);
  }

  // Lsubstring.

  /** The bounds test of Lsubstring: a signed sum against an unsigned length. */
  predicate SubstringAccepts(pp: int, ll: int, len: nat) {
    (pp + ll) % TWO64 <= len
  }

  /** UNBOX of a word. */
  predicate Unboxable(x: int) {
    -0x4000_0000_0000_0000 <= x < 0x4000_0000_0000_0000
  }

  /** The test accepts every position and length with a sum between 0 and the length of the string. What it
      accepts is inside of the string if and only if neither is negative. */
  lemma SubstringInside(pp: int, ll: int, len: nat)
    requires Unboxable(pp) && Unboxable(ll) && len < TWO63
    ensures SubstringAccepts(pp, ll, len) <==> 0 <= pp + ll <= len
    ensures SubstringAccepts(pp, ll, len) ==> ((0 <= pp && 0 <= ll && pp + ll <= len) <==> (0 <= pp && 0 <= ll))
  {
  }

  /** Byte `i` of the eight before the contents of object `k` is that of its forward word. */
  ghost predicate ForwardByte(g: Heap, k: nat, i: nat) {
    && k < |g.starts| && i < 8 && g.starts[k] + 2 <= |g.words|
    && TextBytes(g.words, 8 * (g.starts[k] + 1), 8)[i] == ByteAt(Number(g.words[g.starts[k] + 1]), i)
  }

  /** Position -8 and length 8 are accepted for every string, and stand for its forward word. */
  lemma ForwardWordAccepted(g: Heap, w: Word, k: nat)
    requires IsString(g, w, k)
    ensures SubstringAccepts(-8, 8, g.HeaderOf(k).hi)
    ensures 8 * (w.hi - g.base) - 8 == 8 * (g.starts[k] + 1) && 8 * (g.starts[k] + 2) <= 8 * |g.words|
    ensures forall i: nat :: i < 8 ==> ForwardByte(g, k, i)
  {
    StringInside(g, w, k);
  }

  /** How Lsubstring ends: with a string, with its failure, with that of the pool of extra roots, or outside of
      what is modelled: a negative length, or bytes from before the heap. */
  datatype Substring = Made | OutOfBounds | PoolFull | Stray

  /** A new string with `ll` bytes, up to a NUL in them, from position `pp` of the subject on: from where the subject
      lies now, and in the subject those that it had. */
  ghost predicate SubstringMade(gc: Gc, foreign: iset<nat>, g0: Heap, mem0: map<nat, Word>, addrs: set<nat>,
                                ren: map<nat, nat>, obj: Word,
                                args: nat, k: nat, pp: int, ll: int)
    reads gc, gc.words
  {
    && ll >= 0 && Built(gc, foreign, g0, mem0, addrs, ren, obj, MakeHeader(Str, ll))
    && gc.begin <= obj.hi && 8 * (obj.hi - gc.begin) + ll + 1 <= 8 * gc.words.Length
    && NewBytes(gc.Snapshot(), obj, ll, 1) == [0]
    && args in gc.memory
    && var src := 8 * (gc.memory[args].hi - gc.begin) + pp;
       && 0 <= src && src + ll <= 8 * gc.words.Length
       && NewBytes(gc.Snapshot(), obj, 0, ll) == Copied(TextBytes(gc.words[..], src, ll))
       && (pp >= 0 ==>
             && |g0.starts| > 0 && k < Count(g0.starts) && FirstByte(g0.starts[k]) + pp + ll <= 8 * |g0.words|
             && NewBytes(gc.Snapshot(), obj, 0, ll) == Copied(StringBytes(g0, k, pp, ll)))
  }

  /** Lsubstring: `ll` bytes from position `pp` of the subject on, up to a NUL in them. */
  method Lsubstring(gc: Gc, args: nat, pp: int, ll: int, place: nat -> nat, ghost k: nat, ghost foreign: iset<nat>)
    returns (out: Substring, obj: Word, ghost ren: map<nat, nat>)
    requires gc.Valid(foreign) && gc.RootsValued(foreign) && gc.FreshPlace(place, foreign)
    requires ArgsHold(gc, foreign, args, 1) && args in gc.memory && IsString(gc.Snapshot(), gc.memory[args], k)
    requires Unboxable(pp) && Unboxable(ll) && gc.Snapshot().HeaderOf(k).hi < TWO63
    modifies gc, gc.words
    ensures out.OutOfBounds? <==> !SubstringAccepts(pp, ll, old(gc.Snapshot().HeaderOf(k).hi))
    ensures out.PoolFull? <==>
              SubstringAccepts(pp, ll, old(gc.Snapshot().HeaderOf(k).hi))
                  && |old(gc.extraRoots)| >= MAX_EXTRA_ROOTS_NUMBER
    ensures out.Stray? ==> ll < 0 || (args in gc.memory && 8 * (gc.memory[args].hi - gc.begin) + pp < 0)
    ensures out.Stray? ==> ll < 0 || pp < -16
    ensures out.Made? ==> gc.top == old(gc.top) && gc.bottom == old(gc.bottom) && gc.extraRoots == old(gc.extraRoots)
    ensures out.Made? ==>
              SubstringMade(gc, foreign, old(gc.Snapshot()), old(gc.memory),
                            old(gc.FixedAddrs()) + Region(args, args + 1),
                                        ren, obj, args, k, pp, ll)
  {
    hide Gc.FreshPlace, ArgsHold, Unskipped, Elements, Gc.Valid, Gc.RootsValued, NewLast, AllValued, Built, Region;
    hide Carried, Preserved, RootsRenamed, TextBytes, ByteIn, Copied, LastValued, Sound, SubstringMade;
    ghost var g0, mem0, before, fixed, roots := gc.Snapshot(), gc.memory, gc.extraRoots, gc.FixedAddrs(),
        gc.RootAddrs();
    StringInside(g0, gc.memory[args], k);
    obj, ren := ZERO, map[];
    var len := gc.words[gc.memory[args].hi - gc.begin - HEADER_WORDS].hi;
    if !SubstringAccepts(pp, ll, len) {
      return OutOfBounds, obj, ren;
    }
    SubstringInside(pp, ll, len);
    if ll < 0 {
      return if |gc.extraRoots| >= MAX_EXTRA_ROOTS_NUMBER then PoolFull else Stray, obj, ren;
    }
    var ok, at;
    ghost var g;
    ok, at, ren, g := AllocWithArgs(gc, args, 1, Str, ll, place, foreign);
    if !ok {
      return PoolFull, obj, ren;
    }
    CloneTarget(foreign, g0, mem0, g, gc.memory, ren, args, k, roots, fixed);
    out, obj := CopySubstring(gc, at, args, pp, ll, k, foreign, g0, mem0, g, ren, before,
                              fixed + Region(args, args + 1));
  }

  /** The strncpy of Lsubstring, if it starts inside of the heap. */
  method CopySubstring(gc: Gc, at: nat, args: nat, pp: int, ll: nat, ghost k: nat, ghost foreign: iset<nat>,
                       ghost g0: Heap, ghost mem0: map<nat, Word>,
                       ghost g: Heap, ghost ren: map<nat, nat>, ghost before: seq<nat>, ghost addrs: set<nat>)
    returns (out: Substring, obj: Word)
    requires gc.Fresh(foreign, g, at, MakeHeader(Str, ll)) && |g0.starts| > 0 && |g.starts| > 0
    requires forall i :: at + 2 <= i < gc.current && i < gc.words.Length ==> gc.words[i] == ZERO
    requires args in gc.memory && k in ren && k < Count(g0.starts) && ren[k] < Count(g.starts)
    requires g.PointsTo(gc.memory[args], ren[k])
    requires g0.starts[k] < |g0.words| && KindOf(g0.HeaderOf(k)).Str? && pp + ll <= g0.HeaderOf(k).hi
    requires gc.extraRoots == before + AddrSeq(args, 1)
    requires Carried(foreign, g0, mem0, g, gc.memory, ren, gc.StackAddrs() + Elements(before) + gc.GlobalAddrs(),
                     gc.FixedWith(before), addrs)
    modifies gc.words, gc`extraRoots
    ensures out.Made? || (out.Stray? && pp < -16)
    ensures out.Stray? ==> args in gc.memory && 8 * (gc.memory[args].hi - gc.begin) + pp < 0
    ensures out.Made? ==>
              gc.extraRoots == before && SubstringMade(gc, foreign, g0, mem0, addrs, ren, obj, args, k, pp, ll)
  {
    hide Carried, Built, Unskipped, Elements, NewLast, LastValued, TextBytes, ByteIn, Copied, Preserved, NewBytes;
    hide Region;
    CarriedPreserved(foreign, g0, mem0, g, gc.memory, ren, gc.StackAddrs() + Elements(before) + gc.GlobalAddrs(),
                     gc.FixedWith(before), addrs);
    SubjectBelow(foreign, g0, g, gc.Snapshot(), ren, at, ll, gc.memory[args], k, pp);
    obj := ZERO;
    var src := 8 * (gc.memory[args].hi - gc.begin) + pp;
    if src < 0 {
      return Stray, obj;
    }
    ghost var ws := gc.words[..];
    obj := CopyPart(gc, at, args, src, ll, foreign, g0, mem0, g, ren, before, addrs);
    SameBytes(ws, gc.words[..], src, ll);
    out := Made;
  }

  /** The bytes that are copied lie below the new string; from a position in the subject on they are the
      bytes of the subject before the allocation. */
  lemma ContentsAfterHeader(foreign: iset<nat>, g: Heap, g1: Heap, at: nat, ll: nat, w: Word, k: nat)
    requires NewLast(foreign, g, g1, at, MakeHeader(Str, ll)) && |g.starts| > 0 && g.PointsTo(w, k)
    ensures w.hi - g1.base >= HEADER_WORDS
  {
  }

  lemma SubjectBelow(foreign: iset<nat>, g0: Heap, g: Heap, g1: Heap, ren: map<nat, nat>, at: nat, ll: nat, w: Word,
                     k: nat, pp: int)
    requires Preserved(g0, g, ren) && k in ren && k < Count(g0.starts) && g0.starts[k] < |g0.words|
    requires KindOf(g0.HeaderOf(k)).Str?
    requires NewLast(foreign, g, g1, at, MakeHeader(Str, ll)) && ren[k] < Count(g.starts) && g.PointsTo(w, ren[k])
    requires pp + ll <= g0.HeaderOf(k).hi
    ensures at <= |g1.words| && 8 * (w.hi - g1.base) + pp + ll <= 8 * at
    ensures w.hi - g1.base >= HEADER_WORDS
    ensures pp >= 0 ==>
              && 8 * (w.hi - g1.base) + pp >= 0
              && FirstByte(g0.starts[k]) + pp + ll <= 8 * |g0.words|
              && TextBytes(g1.words, 8 * (w.hi - g1.base) + pp, ll) == StringBytes(g0, k, pp, ll)
  {
    hide TextBytes, ByteIn, NewLast, Preserved;
    ContentsAfterHeader(foreign, g, g1, at, ll, w, ren[k]);
    SourceBytes(foreign, g0, g, g1, ren, at, ll, w, k, 0, 0);
    SourceBytes(foreign, g0, g, g1, ren, at, ll, w, k, 0, if pp + ll >= 0 then pp + ll else 0);
    if pp >= 0 {
      SourceBytes(foreign, g0, g, g1, ren, at, ll, w, k, pp, ll);
    }
  }

  /** The strncpy of a string builtin with one argument, and the release of that argument. */
  method CopyPart(gc: Gc, at: nat, args: nat, src: nat, n: nat, ghost foreign: iset<nat>, ghost g0: Heap,
                  ghost mem0: map<nat, Word>,
                  ghost g: Heap, ghost ren: map<nat, nat>, ghost before: seq<nat>, ghost addrs: set<nat>)
    returns (obj: Word)
    requires gc.Fresh(foreign, g, at, MakeHeader(Str, n)) && |g0.starts| > 0 && |g.starts| > 0
    requires forall i :: at + 2 <= i < gc.current && i < gc.words.Length ==> gc.words[i] == ZERO
    requires src + n <= 8 * at && at <= gc.words.Length
    requires gc.extraRoots == before + AddrSeq(args, 1)
    requires Carried(foreign, g0, mem0, g, gc.memory, ren, gc.StackAddrs() + Elements(before) + gc.GlobalAddrs(),
                     gc.FixedWith(before), addrs)
    modifies gc.words, gc`extraRoots
    ensures gc.extraRoots == before
    ensures Built(gc, foreign, g0, mem0, addrs, ren, obj, MakeHeader(Str, n))
    ensures gc.begin <= obj.hi && 8 * (obj.hi - gc.begin) + n + 1 <= 8 * gc.words.Length
    ensures NewBytes(gc.Snapshot(), obj, 0, n) == Copied(TextBytes(old(gc.words[..]), src, n))
    ensures NewBytes(gc.Snapshot(), obj, n, 1) == [0]
    ensures forall j :: 0 <= j < at ==> gc.words[j] == old(gc.words[j])
  {
    hide Carried, Built, Unskipped, Elements, NewLast, LastValued, TextBytes, ByteIn, Copied, Preserved;
    ghost var ws := gc.words[..];
    NewPlace(foreign, g, gc.Snapshot(), at, n);
    StringStarts(foreign, g, gc.Snapshot(), at, n);
    ZeroByte(ws, FirstByte(at) + n);
    FillString(gc, at, 0, src, n, foreign, g, n);
    OneByte(gc.words[..], FirstByte(at) + n);
    PopArgs(gc, args, 1, before);
    obj := ContentPtr(gc.begin, at);
    FinishBuilding(gc, foreign, g0, mem0, g, ren, addrs, at, MakeHeader(Str, n));
  }

  lemma CarriedPreserved(foreign: iset<nat>, g0: Heap, mem0: map<nat, Word>, g: Heap, mem: map<nat, Word>,
                         ren: map<nat, nat>, roots: set<nat>, fixed: set<nat>, addrs: set<nat>)
    requires Carried(foreign, g0, mem0, g, mem, ren, roots, fixed, addrs)
    ensures Preserved(g0, g, ren) && |g0.starts| > 0 && |g.starts| > 0
  {
  }

  lemma NewPlace(foreign: iset<nat>, g: Heap, g1: Heap, at: nat, len: nat)
    requires NewLast(foreign, g, g1, at, MakeHeader(Str, len))
    ensures g1.starts != [] && FirstByte(at) + len + 1 <= 8 * Used(g1.starts) <= 8 * |g1.words|
  {
    ObjectBounds(g1.words, g1.starts, Count(g1.starts) - 1);
    SizeAtLeast(MakeHeader(Str, len));
  }

  lemma OneByte(ws: seq<Word>, c: nat)
    requires c < 8 * |ws|
    ensures TextBytes(ws, c, 1) == [ByteIn(ws, c)]
  {
    assert TextBytes(ws, c, 0) == [];
  }

  /** strlen. */
  method Strlen(gc: Gc, b: nat, ghost limit: nat) returns (n: nat)
    requires b + limit <= 8 * gc.words.Length && HasNul(TextBytes(gc.words[..], b, limit))
    ensures n < limit && ByteIn(gc.words[..], b + n) == 0 && !HasNul(TextBytes(gc.words[..], b, n))
  {
    hide ByteIn;
    ghost var i :| 0 <= i < limit && TextBytes(gc.words[..], b, limit)[i] == 0;
    n := 0;
    while ByteIn(gc.words[..], b + n) != 0
      invariant n <= i
      invariant !HasNul(TextBytes(gc.words[..], b, n))
      decreases i - n
    {
      assert TextBytes(gc.words[..], b, limit)[i] == ByteIn(gc.words[..], b + i);
      n := n + 1;
      assert TextBytes(gc.words[..], b, n) == TextBytes(gc.words[..], b, n - 1) + [ByteIn(gc.words[..], b + n - 1)];
    }
  }

  /** `n` is the length that strlen finds in string `k`. */
  ghost predicate CLength(g: Heap, k: nat, n: nat)
    requires |g.starts| > 0 && k < Count(g.starts) && g.starts[k] < |g.words|
    requires FirstByte(g.starts[k]) + g.HeaderOf(k).hi + 1 <= 8 * |g.words|
  {
    n <= g.HeaderOf(k).hi && !HasNul(StringBytes(g, k, 0, n)) && StringBytes(g, k, n, 1) == [0]
  }

  /** `obj` has the first `n` bytes of string `k` of the heap before, and a NUL. */
  ghost predicate TextHere(g: Heap, g0: Heap, obj: Word, k: nat, n: nat) {
    && g.base <= obj.hi && 8 * (obj.hi - g.base) + n + 1 <= 8 * |g.words|
    && |g0.starts| > 0 && k < Count(g0.starts) && FirstByte(g0.starts[k]) + n <= 8 * |g0.words|
    && NewBytes(g, obj, 0, n) == StringBytes(g0, k, 0, n)
    && NewBytes(g, obj, n, 1) == [0]
  }

  /** A new string with them. */
  ghost predicate TextCloned(gc: Gc, foreign: iset<nat>, g0: Heap, mem0: map<nat, Word>, addrs: set<nat>,
                             ren: map<nat, nat>, obj: Word,
                             k: nat, n: nat)
    reads gc, gc.words
  {
    Built(gc, foreign, g0, mem0, addrs, ren, obj, MakeHeader(Str, n)) && TextHere(gc.Snapshot(), g0, obj, k, n)
  }

  /** Bstring, of a C string in the heap: a string of its length with its bytes. The NUL that strncpy
      copies too is in the new string already. */
  method Bstring(gc: Gc, args: nat, place: nat -> nat, ghost k: nat, ghost foreign: iset<nat>)
    returns (ok: bool, obj: Word, n: nat, ghost ren: map<nat, nat>)
    requires gc.Valid(foreign) && gc.RootsValued(foreign) && gc.FreshPlace(place, foreign)
    requires ArgsHold(gc, foreign, args, 1) && args in gc.memory && IsString(gc.Snapshot(), gc.memory[args], k)
    requires FirstByte(gc.starts[k]) + gc.Snapshot().HeaderOf(k).hi + 1 <= 8 * gc.words.Length
    requires HasNul(StringBytes(gc.Snapshot(), k, 0, gc.Snapshot().HeaderOf(k).hi + 1))
    modifies gc, gc.words
    ensures gc.words == old(gc.words) || fresh(gc.words)
    ensures ok <==> |old(gc.extraRoots)| < MAX_EXTRA_ROOTS_NUMBER
    ensures CLength(old(gc.Snapshot()), k, n)
    ensures ok ==> gc.top == old(gc.top) && gc.bottom == old(gc.bottom) && gc.extraRoots == old(gc.extraRoots)
    ensures ok ==>
              TextCloned(gc, foreign, old(gc.Snapshot()), old(gc.memory), old(gc.FixedAddrs()) + Region(args, args + 1),
                         ren, obj, k, n)
  {
    hide Gc.FreshPlace, ArgsHold, Unskipped, Elements, Gc.Valid, Gc.RootsValued, NewLast, AllValued, Built, Region;
    hide Carried, Preserved, RootsRenamed, ByteIn, Copied, LastValued, Sound, TextBytes, HasNul;
    ghost var g0, mem0, before, fixed, roots := gc.Snapshot(), gc.memory, gc.extraRoots, gc.FixedAddrs(),
        gc.RootAddrs();
    StringInside(g0, gc.memory[args], k);
    obj := ZERO;
    n := Strlen(gc, 8 * (gc.memory[args].hi - gc.begin), g0.HeaderOf(k).hi + 1);
    OneByte(g0.words, FirstByte(g0.starts[k]) + n);
    var at;
    ghost var g;
    ok, at, ren, g := AllocWithArgs(gc, args, 1, Str, n, place, foreign);
    if ok {
      CloneTarget(foreign, g0, mem0, g, gc.memory, ren, args, k, roots, fixed);
      var out;
      out, obj := CopySubstring(gc, at, args, 0, n, k, foreign, g0, mem0, g, ren, before,
                                fixed + Region(args, args + 1));
      CopiedWhole(StringBytes(g0, k, 0, n));
    }
  }

  /** Bstring, of a C string outside of the heap, with the bytes `text` and then a NUL. */
  method BstringOutside(gc: Gc, args: nat, text: seq<nat>, place: nat -> nat, ghost foreign: iset<nat>)
    returns (ok: bool, obj: Word, ghost ren: map<nat, nat>)
    requires gc.Valid(foreign) && gc.RootsValued(foreign) && gc.FreshPlace(place, foreign)
    requires ArgsHold(gc, foreign, args, 1)
    requires !HasNul(text) && forall i :: 0 <= i < |text| ==> text[i] < 256
    modifies gc, gc.words
    ensures gc.words == old(gc.words) || fresh(gc.words)
    ensures ok <==> |old(gc.extraRoots)| < MAX_EXTRA_ROOTS_NUMBER
    ensures ok ==> gc.top == old(gc.top) && gc.bottom == old(gc.bottom) && gc.extraRoots == old(gc.extraRoots)
    ensures ok ==> Built(gc, foreign, old(gc.Snapshot()), old(gc.memory), old(gc.FixedAddrs()) + Region(args, args + 1),
                         ren, obj, MakeHeader(Str, |text|))
    ensures ok ==> gc.begin <= obj.hi && 8 * (obj.hi - gc.begin) + |text| + 1 <= 8 * gc.words.Length
    ensures ok ==> NewBytes(gc.Snapshot(), obj, 0, |text|) == text
    ensures ok ==> NewBytes(gc.Snapshot(), obj, |text|, 1) == [0]
  {
    hide Gc.FreshPlace, ArgsHold, Unskipped, Elements, Gc.Valid, Gc.RootsValued, NewLast, AllValued, Built, Region;
    hide Carried, Preserved, RootsRenamed, ByteIn, Copied, LastValued, Sound, TextBytes, HasNul;
    ghost var g0, mem0, before, fixed, roots := gc.Snapshot(), gc.memory, gc.extraRoots, gc.FixedAddrs(),
        gc.RootAddrs();
    obj := ZERO;
    var at;
    ghost var g;
    ok, at, ren, g := AllocWithArgs(gc, args, 1, Str, |text|, place, foreign);
    if ok {
      CarriedPreserved(foreign, g0, mem0, g, gc.memory, ren, roots, fixed, fixed + Region(args, args + 1));
      obj := CopyText(gc, at, args, text, foreign, g0, mem0, g, ren, before, fixed + Region(args, args + 1));
      CopiedWhole(text);
    }
  }

  /** Its strncpy, and the release of the argument. */
  method CopyText(gc: Gc, at: nat, args: nat, text: seq<nat>, ghost foreign: iset<nat>, ghost g0: Heap,
                  ghost mem0: map<nat, Word>,
                  ghost g: Heap, ghost ren: map<nat, nat>, ghost before: seq<nat>, ghost addrs: set<nat>)
    returns (obj: Word)
    requires gc.Fresh(foreign, g, at, MakeHeader(Str, |text|)) && |g0.starts| > 0 && |g.starts| > 0
    requires forall i :: at + 2 <= i < gc.current && i < gc.words.Length ==> gc.words[i] == ZERO
    requires forall i :: 0 <= i < |text| ==> text[i] < 256
    requires gc.extraRoots == before + AddrSeq(args, 1)
    requires Carried(foreign, g0, mem0, g, gc.memory, ren, gc.StackAddrs() + Elements(before) + gc.GlobalAddrs(),
                     gc.FixedWith(before), addrs)
    modifies gc.words, gc`extraRoots
    ensures gc.extraRoots == before
    ensures Built(gc, foreign, g0, mem0, addrs, ren, obj, MakeHeader(Str, |text|))
    ensures gc.begin <= obj.hi && 8 * (obj.hi - gc.begin) + |text| + 1 <= 8 * gc.words.Length
    ensures NewBytes(gc.Snapshot(), obj, 0, |text|) == Copied(text)
    ensures NewBytes(gc.Snapshot(), obj, |text|, 1) == [0]
  {
    hide Carried, Built, Unskipped, Elements, NewLast, LastValued, TextBytes, ByteIn, Copied, Preserved;
    ghost var g1, n := gc.Snapshot(), |text|;
    NewPlace(foreign, g, g1, at, n);
    ZeroByte(g1.words, FirstByte(at) + n);
    StrNCpyText(gc, FirstByte(at), text);
    StringFilled(foreign, g, g1, gc.Snapshot(), at, n);
    OneByte(gc.words[..], FirstByte(at) + n);
    PopArgs(gc, args, 1, before);
    obj := ContentPtr(gc.begin, at);
    FinishBuilding(gc, foreign, g0, mem0, g, ren, addrs, at, MakeHeader(Str, n));
  }

  lemma KeptBytes(ws: seq<Word>, ws': seq<Word>, b: nat, n: nat)
    requires b + n <= 8 * |ws| && |ws'| == |ws|
    requires forall c: nat :: b <= c < b + n ==> ByteIn(ws', c) == ByteIn(ws, c)
    ensures TextBytes(ws', b, n) == TextBytes(ws, b, n)
  {
  }

  /** Both arguments of a concatenation still point to their strings. */
  lemma ConcatTargets(foreign: iset<nat>, g0: Heap, mem0: map<nat, Word>, g: Heap, mem: map<nat, Word>,
                      ren: map<nat, nat>,
                      args: nat, k1: nat, k2: nat, roots: set<nat>, fixed: set<nat>)
    requires Carried(foreign, g0, mem0, g, mem, ren, roots, fixed, fixed + Region(args, args + 2)) && |g0.starts| > 0
    requires args in mem0 && args in mem && g0.PointsTo(mem0[args], k1)
    requires args + 1 in mem0 && args + 1 in mem && g0.PointsTo(mem0[args + 1], k2)
    ensures k1 in ren && |g.starts| > 0 && g.PointsTo(mem[args], ren[k1])
    ensures k2 in ren && g.PointsTo(mem[args + 1], ren[k2])
  {
    assert args in Region(args, args + 2) && args + 1 in Region(args, args + 2);
    assert WordRenamed(g0, g, ren, mem0[args], mem[args]);
    assert WordRenamed(g0, g, ren, mem0[args + 1], mem[args + 1]);
  }

  /** The two strncpy of a concatenation, the end of the string, and the release of the arguments. */
  method CopyBoth(gc: Gc, at: nat, args: nat, n1: nat, n2: nat, ghost k1: nat, ghost k2: nat, ghost foreign: iset<nat>,
                  ghost g0: Heap, ghost mem0: map<nat, Word>, ghost g: Heap, ghost ren: map<nat, nat>,
                      ghost before: seq<nat>, ghost addrs: set<nat>)
    returns (obj: Word)
    requires gc.Fresh(foreign, g, at, MakeHeader(Str, n1 + n2)) && |g0.starts| > 0 && |g.starts| > 0
    requires args in gc.memory && k1 in ren && k1 < Count(g0.starts) && ren[k1] < Count(g.starts)
    requires g.PointsTo(gc.memory[args], ren[k1])
    requires args + 1 in gc.memory && k2 in ren && k2 < Count(g0.starts) && ren[k2] < Count(g.starts)
    requires g.PointsTo(gc.memory[args + 1], ren[k2])
    requires g0.starts[k1] < |g0.words| && KindOf(g0.HeaderOf(k1)).Str? && n1 == g0.HeaderOf(k1).hi
    requires FirstByte(g0.starts[k1]) + n1 <= 8 * |g0.words|
    requires g0.starts[k2] < |g0.words| && KindOf(g0.HeaderOf(k2)).Str? && n2 == g0.HeaderOf(k2).hi
    requires FirstByte(g0.starts[k2]) + n2 <= 8 * |g0.words|
    requires gc.extraRoots == before + AddrSeq(args, 2)
    requires Carried(foreign, g0, mem0, g, gc.memory, ren, gc.StackAddrs() + Elements(before) + gc.GlobalAddrs(),
                     gc.FixedWith(before), addrs)
    modifies gc.words, gc`extraRoots
    ensures gc.extraRoots == before
    ensures Built(gc, foreign, g0, mem0, addrs, ren, obj, MakeHeader(Str, n1 + n2))
    ensures gc.begin <= obj.hi && 8 * (obj.hi - gc.begin) + n1 + n2 + 1 <= 8 * gc.words.Length
    ensures NewBytes(gc.Snapshot(), obj, 0, n1) == Copied(StringBytes(g0, k1, 0, n1))
    ensures NewBytes(gc.Snapshot(), obj, n1, n2) == Copied(StringBytes(g0, k2, 0, n2))
    ensures NewBytes(gc.Snapshot(), obj, n1 + n2, 1) == [0]
  {
    hide Carried, Built, Unskipped, Elements, NewLast, LastValued, TextBytes, ByteIn, Copied, Preserved;
    var len := n1 + n2;
    CarriedPreserved(foreign, g0, mem0, g, gc.memory, ren, gc.StackAddrs() + Elements(before) + gc.GlobalAddrs(),
                     gc.FixedWith(before), addrs);
    NewPlace(foreign, g, gc.Snapshot(), at, len);
    SourceBytes(foreign, g0, g, gc.Snapshot(), ren, at, len, gc.memory[args], k1, 0, n1);
    SourceBytes(foreign, g0, g, gc.Snapshot(), ren, at, len, gc.memory[args + 1], k2, 0, n2);
    FillBoth(gc, at, 8 * (gc.memory[args].hi - gc.begin), n1, 8 * (gc.memory[args + 1].hi - gc.begin), n2, foreign, g);
    PopArgs(gc, args, 2, before);
    obj := ContentPtr(gc.begin, at);
    FinishBuilding(gc, foreign, g0, mem0, g, ren, addrs, at, MakeHeader(Str, len));
  }

  /** The two strncpy and the end of the string. */
  method FillBoth(gc: Gc, at: nat, src1: nat, n1: nat, src2: nat, n2: nat, ghost foreign: iset<nat>, ghost g: Heap)
    requires gc.Fresh(foreign, g, at, MakeHeader(Str, n1 + n2)) && FirstByte(at) + n1 + n2 + 1 <= 8 * gc.words.Length
    requires src1 + n1 <= 8 * at && src2 + n2 <= 8 * at
    modifies gc.words
    ensures gc.Fresh(foreign, g, at, MakeHeader(Str, n1 + n2))
    ensures LastValued(foreign, g, gc.Snapshot(), at, MakeHeader(Str, n1 + n2))
    ensures TextBytes(gc.words[..], FirstByte(at), n1) == Copied(TextBytes(old(gc.words[..]), src1, n1))
    ensures TextBytes(gc.words[..], FirstByte(at) + n1, n2) == Copied(TextBytes(old(gc.words[..]), src2, n2))
    ensures TextBytes(gc.words[..], FirstByte(at) + n1 + n2, 1) == [0]
  {
    hide NewLast, LastValued, TextBytes, ByteIn, Copied;
    var len := n1 + n2;
    StringStarts(foreign, g, gc.Snapshot(), at, len);
    ghost var ws0 := gc.words[..];
    FillString(gc, at, 0, src1, n1, foreign, g, len);
    ghost var ws1 := gc.words[..];
    SameBytes(ws0, ws1, src2, n2);
    FillString(gc, at, n1, src2, n2, foreign, g, len);
    ghost var ws2 := gc.words[..];
    KeptBytes(ws1, ws2, FirstByte(at), n1);
    EndString(gc, at, len, foreign, g);
    KeptBytes(ws2, gc.words[..], FirstByte(at), n1);
    KeptBytes(ws2, gc.words[..], FirstByte(at) + n1, n2);
  }

  /** The NUL after the last byte. */
  method EndString(gc: Gc, at: nat, len: nat, ghost foreign: iset<nat>, ghost g: Heap)
    requires gc.Fresh(foreign, g, at, MakeHeader(Str, len)) && FirstByte(at) + len + 1 <= 8 * gc.words.Length
    modifies gc.words
    ensures gc.Fresh(foreign, g, at, MakeHeader(Str, len))
    ensures LastValued(foreign, g, gc.Snapshot(), at, MakeHeader(Str, len))
    ensures forall c: nat :: c < 8 * gc.words.Length && c != FirstByte(at) + len ==>
              ByteIn(gc.words[..], c) == ByteIn(old(gc.words[..]), c)
    ensures TextBytes(gc.words[..], FirstByte(at) + len, 1) == [0]
  {
    hide NewLast, LastValued, TextBytes, ByteIn;
    ghost var g1 := gc.Snapshot();
    PutByte(gc, FirstByte(at) + len, 0);
    StringFilled(foreign, g, g1, gc.Snapshot(), at, len);
    OneByte(gc.words[..], FirstByte(at) + len);
  }

  /** Li__Infix_4343: the bytes of both strings. */
  method Concat(gc: Gc, args: nat, place: nat -> nat, ghost k1: nat, ghost k2: nat, ghost foreign: iset<nat>)
    returns (ok: bool, obj: Word, ghost ren: map<nat, nat>)
    requires gc.Valid(foreign) && gc.RootsValued(foreign) && gc.FreshPlace(place, foreign)
    requires ArgsHold(gc, foreign, args, 2)
    requires args in gc.memory && IsString(gc.Snapshot(), gc.memory[args], k1)
    requires args + 1 in gc.memory && IsString(gc.Snapshot(), gc.memory[args + 1], k2)
    modifies gc, gc.words
    ensures gc.words == old(gc.words) || fresh(gc.words)
    ensures ok <==> |old(gc.extraRoots)| + 2 <= MAX_EXTRA_ROOTS_NUMBER
    ensures ok ==> gc.top == old(gc.top) && gc.bottom == old(gc.bottom) && gc.extraRoots == old(gc.extraRoots)
    ensures ok ==>
              var n1, n2 := old(gc.Snapshot().HeaderOf(k1).hi), old(gc.Snapshot().HeaderOf(k2).hi);
              && Built(gc, foreign, old(gc.Snapshot()), old(gc.memory), old(gc.FixedAddrs()) + Region(args, args + 2),
                       ren, obj, MakeHeader(Str, n1 + n2))
              && gc.begin <= obj.hi && 8 * (obj.hi - gc.begin) + n1 + n2 + 1 <= 8 * gc.words.Length
              && FirstByte(old(gc.starts[k1])) + n1 <= old(8 * gc.words.Length)
                  && FirstByte(old(gc.starts[k2])) + n2 <= old(8 * gc.words.Length)
              && NewBytes(gc.Snapshot(), obj, 0, n1) == Copied(StringBytes(old(gc.Snapshot()), k1, 0, n1))
              && NewBytes(gc.Snapshot(), obj, n1, n2) == Copied(StringBytes(old(gc.Snapshot()), k2, 0, n2))
              && NewBytes(gc.Snapshot(), obj, n1 + n2, 1) == [0]
  {
    hide Gc.FreshPlace, ArgsHold, Unskipped, Elements, Gc.Valid, Gc.RootsValued, NewLast, AllValued, Built, Region;
    hide Carried, Preserved, RootsRenamed, TextBytes, ByteIn, Copied, LastValued, Sound;
    ghost var g0, mem0, before, fixed, roots := gc.Snapshot(), gc.memory, gc.extraRoots, gc.FixedAddrs(),
        gc.RootAddrs();
    StringInside(g0, gc.memory[args], k1);
    StringInside(g0, gc.memory[args + 1], k2);
    obj := ZERO;
    var n1 := gc.words[gc.memory[args].hi - gc.begin - HEADER_WORDS].hi;
    var n2 := gc.words[gc.memory[args + 1].hi - gc.begin - HEADER_WORDS].hi;
    var at;
    ghost var g;
    ok, at, ren, g := AllocWithArgs(gc, args, 2, Str, n1 + n2, place, foreign);
    if ok {
      ConcatTargets(foreign, g0, mem0, g, gc.memory, ren, args, k1, k2, roots, fixed);
      obj := CopyBoth(gc, at, args, n1, n2, k1, k2, foreign, g0, mem0, g, ren, before, fixed + Region(args, args + 2));
    }
  }

  // A store into a string.

  /** Bsta on a string: one byte of the text, or the one after it, becomes the low byte of the value. */
  method BstaByte(gc: Gc, x: Word, i: nat, v: Word, ghost k: nat, ghost foreign: iset<nat>)
    requires gc.Valid(foreign) && gc.RootsValued(foreign)
    requires IsString(gc.Snapshot(), x, k) && i <= gc.Snapshot().HeaderOf(k).hi
    modifies gc.words
    ensures gc.Valid(foreign) && gc.RootsValued(foreign)
    ensures forall c: nat :: c < 8 * gc.words.Length ==>
              ByteIn(gc.words[..], c) ==
              if c == old(FirstByte(gc.starts[k])) + i then Unboxing(v) % 256 else old(ByteIn(gc.words[..], c))
  {
    hide ByteIn, FieldsValued, Valued, RootsHold;
    ghost var g := gc.Snapshot();
    StringInside(g, x, k);
    var b := 8 * (x.hi - gc.begin) + i;
    PutByte(gc, b, Unboxing(v) % 256);
    assert gc.words[..] == g.words[b / 8 := gc.words[b / 8]];
    TextKeepsFields(g, gc.Snapshot(), foreign, k, b / 8, gc.words[b / 8]);
    SameRoots(g, gc.Snapshot(), foreign, gc.memory, gc.RootAddrs(), gc.FixedAddrs());
  }

  lemma SameRoots(g: Heap, g': Heap, foreign: iset<nat>, mem: map<nat, Word>, roots: set<nat>, fixed: set<nat>)
    requires |g.starts| > 0 && g'.base == g.base && g'.starts == g.starts && RootsHold(g, foreign, mem, roots, fixed)
    ensures RootsHold(g', foreign, mem, roots, fixed)
  {
    forall p | p in roots ensures p in mem && Valued(g', foreign, mem[p]) {
      SameStartsValued(g, g', foreign, mem[p]);
    }
  }

  // Lclone.

  /** It is the length of the string if and only if there is no NUL inside. */
  lemma WholeIff(g: Heap, k: nat, n: nat)
    requires |g.starts| > 0 && k < Count(g.starts) && g.starts[k] < |g.words|
    requires FirstByte(g.starts[k]) + g.HeaderOf(k).hi + 1 <= 8 * |g.words| && CLength(g, k, n)
    ensures n == g.HeaderOf(k).hi <==> !HasNul(StringBytes(g, k, 0, g.HeaderOf(k).hi))
  {
    hide ByteIn;
    var first, len := FirstByte(g.starts[k]), g.HeaderOf(k).hi;
    OneByte(g.words, first + n);
    if n < len {
      assert StringBytes(g, k, 0, len)[n] == 0;
    }
  }

  lemma NoNulBefore(g: Heap, k: nat, n: nat, i: nat)
    requires |g.starts| > 0 && k < Count(g.starts) && g.starts[k] < |g.words|
    requires FirstByte(g.starts[k]) + n <= 8 * |g.words| && !HasNul(StringBytes(g, k, 0, n))
    ensures i < n ==> ByteIn(g.words, FirstByte(g.starts[k]) + i) != 0
  {
    if i < n {
      assert StringBytes(g, k, 0, n)[i] != 0;
    }
  }

  /** Of a string with the three bytes a, NUL, b the first one is cloned. */
  lemma InnerNulCuts(g: Heap, k: nat, n: nat)
    requires |g.starts| > 0 && k < Count(g.starts) && g.starts[k] < |g.words| && g.HeaderOf(k).hi == 3
    requires FirstByte(g.starts[k]) + 4 <= 8 * |g.words| && StringBytes(g, k, 0, 4) == [97, 0, 98, 0]
    requires CLength(g, k, n)
    ensures n == 1
  {
    hide ByteIn;
    var bytes := StringBytes(g, k, 0, 4);
    OneByte(g.words, FirstByte(g.starts[k]) + n);
    assert bytes[n] == 0;
    NoNulBefore(g, k, n, 1);
    assert bytes[1] == 0;
  }

  /** A variable of C that holds a copy of an argument changes no root word. */
  lemma LocalHolds(gc: Gc, foreign: iset<nat>, mem: map<nat, Word>, args: nat, local: nat)
    requires gc.starts != [] && RootsHold(gc.Snapshot(), foreign, mem, gc.RootAddrs(), gc.FixedAddrs())
    requires args in mem && local in mem && Valued(gc.Snapshot(), foreign, mem[args])
    requires local !in gc.FixedAddrs() && !gc.Skipped(local)
    requires gc.memory == mem[local := mem[args]]
    ensures gc.RootsValued(foreign) && ArgsHold(gc, foreign, local, 1)
  {
    forall p | p in gc.FixedAddrs()
      ensures p in gc.memory && if p in gc.RootAddrs() then Valued(gc.Snapshot(), foreign, gc.memory[p])
              else Plain(gc.memory[p], foreign)
    {
      assert p != local;
    }
  }

  lemma ArgHolds(gc: Gc, foreign: iset<nat>, args: nat)
    requires ArgsHold(gc, foreign, args, 1)
    ensures gc.starts != [] && args in gc.memory && Valued(gc.Snapshot(), foreign, gc.memory[args])
    ensures forall p :: p in Region(args, args + 1) ==>
              p in gc.memory && Valued(gc.Snapshot(), foreign, gc.memory[p]) && (p in gc.FixedAddrs() || !gc.Skipped(p))
    ensures Region(args, args + 1) == {args}
  {
    assert args in Region(args, args + 1);
  }

  /** The roots of the caller after a builtin that has put one more word into memory. */
  lemma RootsBack(gc: Gc, foreign: iset<nat>, g0: Heap, cap: nat, mem0: map<nat, Word>, mem1: map<nat, Word>,
                  local: nat, addrs: set<nat>,
                  ren: map<nat, nat>, roots: set<nat>, fixed: set<nat>)
    requires g0.Tiles() && ForeignApart(foreign, g0.base, cap) && Used(g0.starts) <= cap && |gc.starts| > 0
    requires RootsHold(g0, foreign, mem0, roots, fixed) && local in mem0 && local !in fixed
    requires mem1.Keys == mem0.Keys && (forall p :: p in mem0 && p != local ==> mem1[p] == mem0[p]) && fixed <= addrs
    requires RootsRenamed(g0, gc.Snapshot(), ren, mem1, gc.memory, addrs)
    ensures RootsHold(gc.Snapshot(), foreign, gc.memory, roots, fixed)
  {
    assert RootsHold(g0, foreign, mem1, roots, fixed) by {
      forall p | p in fixed ensures p in mem1 && mem1[p] == mem0[p] {
        assert p in mem0.Keys;
      }
    }
    RenamedRootsHold(g0, gc.Snapshot(), ren, foreign, cap, mem1, gc.memory, roots, fixed);
  }

  /** The string branch of Lclone: the argument is registered, and its address copied to a variable of C, in
      the word `local`, whose address Bstring is given. */
  method CloneString(gc: Gc, args: nat, local: nat, place: nat -> nat, ghost k: nat, ghost foreign: iset<nat>)
    returns (ok: bool, obj: Word, n: nat, ghost ren: map<nat, nat>)
    requires gc.Valid(foreign) && gc.RootsValued(foreign) && gc.FreshPlace(place, foreign)
    requires ArgsHold(gc, foreign, args, 1) && args in gc.memory && IsString(gc.Snapshot(), gc.memory[args], k)
    requires FirstByte(gc.starts[k]) + gc.Snapshot().HeaderOf(k).hi + 1 <= 8 * gc.words.Length
    requires HasNul(StringBytes(gc.Snapshot(), k, 0, gc.Snapshot().HeaderOf(k).hi + 1))
    requires local in gc.memory && local != args && local !in gc.FixedAddrs() && !gc.Skipped(local)
    modifies gc, gc.words
    ensures gc.words == old(gc.words) || fresh(gc.words)
    ensures ok <==> |old(gc.extraRoots)| + 2 <= MAX_EXTRA_ROOTS_NUMBER
    ensures ok ==> CLength(old(gc.Snapshot()), k, n)
    ensures ok ==> gc.top == old(gc.top) && gc.bottom == old(gc.bottom) && gc.extraRoots == old(gc.extraRoots)
    ensures ok ==>
              TextCloned(gc, foreign, old(gc.Snapshot()), old(gc.memory[local := gc.memory[args]]),
                         old(gc.FixedAddrs()) + {args, local},
                              ren, obj, k, n)
  {
    hide Gc.FreshPlace, ArgsHold, Unskipped, Elements, NewLast, AllValued, Region, HasNul, RootsHold, FieldsValued;
    hide Carried, Preserved, RootsRenamed, TextBytes, ByteIn, Copied, LastValued, Sound, IsNewest, Valued, SkippedRoot;
    hide Gc.Valid, Gc.RootsValued, Built, TextHere, CLength;
    ghost var g0, mem0, before, fixed, roots := gc.Snapshot(), gc.memory, gc.extraRoots, gc.FixedAddrs(),
        gc.RootAddrs();
    ghost var cap := gc.words.Length;
    ValidParts(gc, foreign);
    obj, n, ren := ZERO, 0, map[];
    ok := HoldLocal(gc, args, local, foreign);
    if !ok {
      return;
    }
    ghost var mem1 := gc.memory;
    ok, obj, n, ren := Bstring(gc, local, place, k, foreign);
    if ok {
      ArgsRegion(local);
      assert fixed + {args} + {local} == fixed + {args, local};
      ReleaseArg(gc, args, local, foreign, g0, cap, mem0, mem1, before, fixed + {args, local}, ren, obj,
                 MakeHeader(Str, n), roots, fixed);
    }
  }

  /** Takes the argument off the pool again. */
  method ReleaseArg(gc: Gc, args: nat, ghost local: nat, ghost foreign: iset<nat>, ghost g0: Heap, ghost cap: nat,
                    ghost mem0: map<nat, Word>,
                    ghost mem1: map<nat, Word>, ghost before: seq<nat>, ghost addrs: set<nat>, ghost ren: map<nat, nat>,
                        ghost obj: Word,
                    ghost h: Word, ghost roots: set<nat>, ghost fixed: set<nat>)
    requires Built(gc, foreign, g0, mem1, addrs, ren, obj, h) && gc.extraRoots == before + AddrSeq(args, 1)
    requires g0.Tiles() && ForeignApart(foreign, g0.base, cap) && Used(g0.starts) <= cap
    requires RootsHold(g0, foreign, mem0, roots, fixed) && local in mem0 && local !in fixed && fixed <= addrs
    requires mem1.Keys == mem0.Keys && forall p :: p in mem0 && p != local ==> mem1[p] == mem0[p]
    requires roots == gc.StackAddrs() + Elements(before) + gc.GlobalAddrs() && fixed == gc.FixedWith(before)
    modifies gc`extraRoots
    ensures gc.extraRoots == before && Built(gc, foreign, g0, mem1, addrs, ren, obj, h)
  {
    hide Unskipped, Elements, Region, RootsHold, Preserved, RootsRenamed, IsNewest, Gc.Valid, Built;
    BuiltParts(gc, foreign, g0, mem1, addrs, ren, obj, h);
    PopArgs(gc, args, 1, before);
    RootsBack(gc, foreign, g0, cap, mem0, mem1, local, addrs, ren, roots, fixed);
    BuiltAgain(gc, foreign, g0, mem1, addrs, ren, obj, h);
  }

  /** Registers the argument and copies it to the variable of C. */
  method HoldLocal(gc: Gc, args: nat, local: nat, ghost foreign: iset<nat>) returns (ok: bool)
    requires gc.Valid(foreign) && gc.RootsValued(foreign) && ArgsHold(gc, foreign, args, 1) && args in gc.memory
    requires local in gc.memory && local != args && local !in gc.FixedAddrs() && !gc.Skipped(local)
    modifies gc`extraRoots, gc`memory
    ensures ok <==> |old(gc.extraRoots)| < MAX_EXTRA_ROOTS_NUMBER
    ensures ok ==>
              gc.extraRoots == old(gc.extraRoots) + AddrSeq(args, 1)
                  && gc.memory == old(gc.memory[local := gc.memory[args]])
    ensures ok ==>
              gc.RootsValued(foreign) && ArgsHold(gc, foreign, local, 1)
                  && gc.FixedAddrs() == old(gc.FixedAddrs()) + {args}
  {
    hide ArgsHold, Unskipped, Elements, Region, RootsHold, FieldsValued, Valued, SkippedRoot;
    ghost var mem0, before, fixed, roots := gc.memory, gc.extraRoots, gc.FixedAddrs(), gc.RootAddrs();
    ArgHolds(gc, foreign, args);
    ok := PushArgs(gc, args, 1);
    if ok {
      PushedRootsHold(gc, foreign, args, 1, before, roots, fixed);
      gc.memory := gc.memory[local := gc.memory[args]];
      LocalHolds(gc, foreign, mem0, args, local);
    }
  }

  lemma ArgsRegion(p: nat)
    ensures Region(p, p + 1) == {p}
  {
  }

  lemma ValidParts(gc: Gc, foreign: iset<nat>)
    requires gc.Valid(foreign) && gc.RootsValued(foreign)
    ensures gc.Snapshot().Tiles() && ForeignApart(foreign, gc.begin, gc.words.Length) && |gc.starts| > 0
    ensures Used(gc.starts) <= gc.words.Length
    ensures RootsHold(gc.Snapshot(), foreign, gc.memory, gc.RootAddrs(), gc.FixedAddrs())
  {
    hide RootsHold, FieldsValued;
  }

  lemma BuiltParts(gc: Gc, foreign: iset<nat>, g0: Heap, mem0: map<nat, Word>, addrs: set<nat>, ren: map<nat, nat>,
                   obj: Word, h: Word)
    requires Built(gc, foreign, g0, mem0, addrs, ren, obj, h)
    ensures gc.Valid(foreign) && |g0.starts| > 0 && |gc.starts| > 0
    ensures Preserved(g0, gc.Snapshot(), ren) && RootsRenamed(g0, gc.Snapshot(), ren, mem0, gc.memory, addrs)
    ensures IsNewest(gc.Snapshot(), obj, h) && Count(gc.starts) - 1 !in ren.Values
  {
  }

  lemma BuiltAgain(gc: Gc, foreign: iset<nat>, g0: Heap, mem0: map<nat, Word>, addrs: set<nat>, ren: map<nat, nat>,
                   obj: Word, h: Word)
    requires gc.Valid(foreign) && |g0.starts| > 0 && |gc.starts| > 0
    requires RootsHold(gc.Snapshot(), foreign, gc.memory, gc.RootAddrs(), gc.FixedAddrs())
    requires Preserved(g0, gc.Snapshot(), ren) && RootsRenamed(g0, gc.Snapshot(), ren, mem0, gc.memory, addrs)
    requires IsNewest(gc.Snapshot(), obj, h) && Count(gc.starts) - 1 !in ren.Values
    ensures Built(gc, foreign, g0, mem0, addrs, ren, obj, h)
  {
    hide Gc.Valid, Preserved, RootsRenamed, IsNewest, RootsHold;
  }

  /** The header of object `k`. */
  function HeaderAt(g: Heap, k: nat): Word {
    if k < |g.starts| && g.starts[k] < |g.words| then g.words[g.starts[k]] else ZERO
  }

  /** What Lclone makes of a string: a new one, up to the first NUL, so whole if and only if there is none inside. */
  ghost predicate StringCloned(gc: Gc, foreign: iset<nat>, g0: Heap, mem0: map<nat, Word>, addrs: set<nat>,
                               ren: map<nat, nat>, obj: Word,
                               k: nat, n: nat)
    reads gc, gc.words
  {
    && TextCloned(gc, foreign, g0, mem0, addrs, ren, obj, k, n)
    && g0.starts[k] < |g0.words| && FirstByte(g0.starts[k]) + g0.HeaderOf(k).hi + 1 <= 8 * |g0.words|
    && CLength(g0, k, n)
    && (n == g0.HeaderOf(k).hi <==> !HasNul(StringBytes(g0, k, 0, g0.HeaderOf(k).hi)))
  }

  /** And of any other object: a new one with its header and contents. */
  ghost predicate ObjectCloned(gc: Gc, foreign: iset<nat>, g0: Heap, mem0: map<nat, Word>, addrs: set<nat>,
                               ren: map<nat, nat>, obj: Word,
                               k: nat, args: nat)
    reads gc, gc.words
  {
    && Built(gc, foreign, g0, mem0, addrs, ren, obj, HeaderAt(g0, k))
    && args in gc.memory && k in ren && |gc.starts| > 0 && gc.Snapshot().PointsTo(gc.memory[args], ren[k])
    && Size(HeaderAt(g0, k)) >= 2
    && SameContents(gc.Snapshot(), obj, gc.memory[args], Size(HeaderAt(g0, k)) - 2)
  }

  /** Lclone. An integer is returned as it is; a string is cloned up to its first NUL; of any other object the
      clone has the header and the contents. */
  method Lclone(gc: Gc, args: nat, local: nat, place: nat -> nat, ghost k: nat, ghost foreign: iset<nat>)
    returns (ok: bool, res: Word, ghost n: nat, ghost ren: map<nat, nat>)
    requires gc.Valid(foreign) && gc.RootsValued(foreign) && gc.FreshPlace(place, foreign)
    requires ArgsHold(gc, foreign, args, 1) && args in gc.memory
    requires local in gc.memory && local != args && local !in gc.FixedAddrs() && !gc.Skipped(local)
    requires Unboxed(gc.memory[args]) || Cloneable(gc.Snapshot(), gc.memory[args], k)
    modifies gc, gc.words
    ensures old(Unboxed(gc.memory[args])) ==>
              ok && res == old(gc.memory[args]) && gc.Snapshot() == old(gc.Snapshot()) && gc.memory == old(gc.memory)
    ensures ok ==> gc.top == old(gc.top) && gc.bottom == old(gc.bottom) && gc.extraRoots == old(gc.extraRoots)
    ensures !old(Unboxed(gc.memory[args])) && KindOf(HeaderAt(old(gc.Snapshot()), k)).Str? ==>
              && (ok <==> |old(gc.extraRoots)| + 2 <= MAX_EXTRA_ROOTS_NUMBER)
              && (ok ==> StringCloned(gc, foreign, old(gc.Snapshot()), old(gc.memory[local := gc.memory[args]]),
                                      old(gc.FixedAddrs()) + {args, local}, ren, res, k, n))
    ensures !old(Unboxed(gc.memory[args])) && !KindOf(HeaderAt(old(gc.Snapshot()), k)).Str? ==>
              && (ok <==> |old(gc.extraRoots)| < MAX_EXTRA_ROOTS_NUMBER)
              && (ok ==>
                  ObjectCloned(gc, foreign, old(gc.Snapshot()), old(gc.memory),
                               old(gc.FixedAddrs()) + Region(args, args + 1),
                                      ren, res, k, args))
  {
    hide Gc.FreshPlace, ArgsHold, NewLast, Region, HasNul, RootsHold, TextBytes, TextCloned, Built, SameContents;
    hide Gc.Valid, Gc.RootsValued;
    hide SkippedRoot, Gc.FixedAddrs, CLength;
    res, n, ren := gc.memory[args], 0, map[];
    if Unboxed(res) {
      return true, res, n, ren;
    }
    ghost var g0 := gc.Snapshot();
    CloneableFacts(g0, res, k);
    var header := ReadHeader(gc, res, k, foreign);
    if KindOf(header).Str? {
      var m;
      ok, res, m, ren := CloneString(gc, args, local, place, k, foreign);
      n := m;
      if ok {
        WholeIff(g0, k, n);
      }
    } else {
      SizeAtLeast(header);
      ok, res, ren := CloneFields(gc, args, place, k, foreign);
    }
  }

  /** The word is the pointer to object `k`; a string ends with a NUL. */
  ghost predicate Cloneable(g: Heap, w: Word, k: nat) {
    && g.Tiles() && g.PointsTo(w, k) && g.starts[k] < |g.words|
    && (KindOf(g.HeaderOf(k)).Str? ==>
          && FirstByte(g.starts[k]) + g.HeaderOf(k).hi + 1 <= 8 * |g.words|
          && HasNul(StringBytes(g, k, 0, g.HeaderOf(k).hi + 1)))
  }

  lemma CloneableFacts(g: Heap, w: Word, k: nat)
    requires Cloneable(g, w, k)
    ensures |g.starts| > 0 && g.PointsTo(w, k) && k < Count(g.starts) && g.starts[k] < |g.words|
    ensures KindOf(g.HeaderOf(k)).Str? ==>
              IsString(g, w, k) && FirstByte(g.starts[k]) + g.HeaderOf(k).hi + 1 <= 8 * |g.words|
  {
  }
}
