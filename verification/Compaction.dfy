/** Compaction: where live objects go, how pointers to them change, and why sliding them down
    over one another is safe. In this module `mm` is the memory after marking. */
module Compaction {
  import opened Words
  import opened HeapLayout
  import opened Marking

  /** Words occupied by the marked objects among the first `k`. */
  ghost function LiveBefore(mm: seq<Word>, s: seq<nat>, k: nat): nat
    requires |s| > 0
  {
    if k == 0 then 0
    else LiveBefore(mm, s, k - 1) + if Marked(mm, s, k - 1) then Size(mm[s[k - 1]]) else 0
  }

  lemma {:induction false} LiveMonotone(mm: seq<Word>, s: seq<nat>, a: nat, b: nat)
    requires |s| > 0 && a <= b
    ensures LiveBefore(mm, s, a) <= LiveBefore(mm, s, b)
    decreases b
  {
    if a < b {
      LiveMonotone(mm, s, a, b - 1);
    }
  }

  /** No object moves up. */
  lemma {:induction false} LiveBelow(mm: seq<Word>, s: seq<nat>, k: nat)
    requires Tiled(mm, s) && k < |s|
    ensures LiveBefore(mm, s, k) <= s[k]
  {
    if k > 0 {
      LiveBelow(mm, s, k - 1);
      assert ObjAt(mm, s, k - 1);
    }
  }

  /** Distinct live objects get disjoint places, in their old order. */
  lemma LiveApart(mm: seq<Word>, s: seq<nat>, a: nat, b: nat)
    requires Tiled(mm, s) && a < b <= Count(s) && Marked(mm, s, a)
    ensures LiveBefore(mm, s, a) + Size(mm[s[a]]) <= LiveBefore(mm, s, b)
  {
    LiveMonotone(mm, s, a + 1, b);
  }

  // compute_locations.

  ghost predicate LocatedAt(mm: seq<Word>, m: seq<Word>, s: seq<nat>, base: nat, n: nat, k: nat)
    requires |s| > 0 && k < Count(s)
  {
    s[k] + 1 < |mm| && s[k] + 1 < |m| ==>
      m[s[k] + 1] == if k < n && Marked(mm, s, k)
                     then SetForwardAddress(mm[s[k] + 1], Addr(base + LiveBefore(mm, s, k)))
                     else mm[s[k] + 1]
  }

  /** The forward words of the marked objects among the first `n` hold their new addresses. */
  ghost predicate Located(mm: seq<Word>, m: seq<Word>, s: seq<nat>, base: nat, n: nat)
    requires |s| > 0
  {
    && SameButForwards(mm, m, s)
    && forall k: nat :: k < Count(s) ==> LocatedAt(mm, m, s, base, n, k)
  }

  lemma LocateNextAt(mm: seq<Word>, m: seq<Word>, m': seq<Word>, s: seq<nat>, base: nat, n: nat, k: nat)
    requires Tiled(mm, s) && n < Count(s) && k < Count(s) && s[n] + 1 < |m|
    requires LocatedAt(mm, m, s, base, n, k) && LocatedAt(mm, m, s, base, n, n)
    requires m' == if Marked(mm, s, n)
                   then m[s[n] + 1 := SetForwardAddress(m[s[n] + 1], Addr(base + LiveBefore(mm, s, n)))]
                   else m
    ensures LocatedAt(mm, m', s, base, n + 1, k)
  {
    hide LiveBefore, Marked;
    if k < n {
      TiledPair(mm, s, k, n);
    } else if n < k {
      TiledPair(mm, s, n, k);
    }
  }

  lemma LocateNext(mm: seq<Word>, m: seq<Word>, m': seq<Word>, s: seq<nat>, base: nat, n: nat)
    requires Tiled(mm, s) && Located(mm, m, s, base, n) && n < Count(s)
    requires s[n] + 1 < |m|
    requires m' == if Marked(mm, s, n)
                   then m[s[n] + 1 := SetForwardAddress(m[s[n] + 1], Addr(base + LiveBefore(mm, s, n)))]
                   else m
    ensures Located(mm, m', s, base, n + 1)
  {
    hide LocatedAt, LiveBefore, Marked;
    assert s[n] + 1 in Forwards(s);
    assert LocatedAt(mm, m, s, base, n, n);
    var n' := n + 1;
    forall k: nat | k < Count(s) ensures LocatedAt(mm, m', s, base, n', k) {
      assert LocatedAt(mm, m, s, base, n, k);
      LocateNextAt(mm, m, m', s, base, n, k);
    }
  }

  // Pointers after the move.

  /** What a word of the old heap becomes: a pointer follows its object. */
  ghost function NewWord(mm: seq<Word>, s: seq<nat>, base: nat, base': nat, w: Word): Word
    requires |s| > 0 && Aimed(w, base, s)
  {
    if InRange(w, base, Used(s)) then ContentPtr(base', LiveBefore(mm, s, TargetOf(w, base, s))) else w
  }

  /** The address computed from a forward word: relative to the old base, rebased to the new. */
  function Rebased(forward: Word, base: nat, base': nat): Word
    requires base <= forward.hi
  {
    forward.(hi := base' + (forward.hi - base) + HEADER_WORDS)
  }

  // update_references.

  ghost predicate SafeField(mm: seq<Word>, s: seq<nat>, base: nat, k: nat, j: int)
    requires |s| > 0
  {
    FieldAt(mm, s, k, j) && Marked(mm, s, k) && Aimed(mm[j], base, s)
  }

  ghost predicate ForwardedAt(mm: seq<Word>, m: seq<Word>, s: seq<nat>, base: nat, k: nat)
    requires |s| > 0 && k < Count(s) && |mm| <= |m|
  {
    s[k] + 1 < |mm| ==>
      && m[s[k]] == mm[s[k]]
      && m[s[k] + 1] == if Marked(mm, s, k)
                        then SetForwardAddress(mm[s[k] + 1], Addr(base + LiveBefore(mm, s, k)))
                        else mm[s[k] + 1]
  }

  /** The headers are those of the marked heap, and the forward words hold the new addresses. */
  ghost predicate Forwarded(mm: seq<Word>, m: seq<Word>, s: seq<nat>, base: nat)
    requires |s| > 0
  {
    |mm| <= |m| && forall k: nat :: k < Count(s) ==> ForwardedAt(mm, m, s, base, k)
  }

  /** The scanned fields of the marked objects at offsets below `f` point to new places; apart from
      forward words nothing else differs from the marked heap. */
  ghost predicate Updated(mm: seq<Word>, m: seq<Word>, s: seq<nat>, base: nat, base': nat, f: nat)
    requires |s| > 0
  {
    && Forwarded(mm, m, s, base)
    && (forall k: nat, j: nat :: InContents(s, k, j) && j < |mm| ==>
          m[j] == if j < f && SafeField(mm, s, base, k, j) then NewWord(mm, s, base, base', mm[j]) else mm[j])
  }

  lemma RebasedIsNew(mm: seq<Word>, m: seq<Word>, s: seq<nat>, base: nat, base': nat, w: Word)
    requires Tiled(mm, s) && Forwarded(mm, m, s, base)
    requires Aimed(w, base, s) && InRange(w, base, Used(s))
    requires Marked(mm, s, TargetOf(w, base, s))
    ensures 0 <= w.hi - base - 1 < |m|
    ensures base <= m[w.hi - base - 1].hi
    ensures Rebased(GetForwardAddress(m[w.hi - base - 1]), base, base') == NewWord(mm, s, base, base', w)
  {
    var k := TargetOf(w, base, s);
    ObjectBounds(mm, s, k);
    assert ForwardedAt(mm, m, s, base, k);
  }

  lemma CopyIsUpdated(mm: seq<Word>, m: seq<Word>, m': seq<Word>, s: seq<nat>, base: nat, base': nat)
    requires Tiled(mm, s) && Located(mm, m, s, base, Count(s))
    requires |m| <= |m'| && m'[..|m|] == m
    ensures Updated(mm, m', s, base, base', 0)
  {
    assert forall i :: 0 <= i < |m| ==> m'[i] == m[i];
    forall k: nat | k < Count(s) ensures ForwardedAt(mm, m', s, base, k) {
      HeaderNotForward(mm, s, k);
      assert LocatedAt(mm, m, s, base, Count(s), k);
    }
    forall k: nat, j: nat | InContents(s, k, j) && j < |mm| ensures m'[j] == mm[j] {
      ContentsNotForward(mm, s, k, j);
    }
  }

  /** A word lies in at most one object. */
  lemma OneOwner(mm: seq<Word>, s: seq<nat>, k: nat, l: nat, j: int)
    requires Tiled(mm, s) && k < Count(s) && l < Count(s)
    requires s[k] <= j < s[k + 1] && s[l] <= j < s[l + 1]
    ensures k == l
  {
    TiledAscending(mm, s);
    if k < l {
      if k + 1 < l {
        TiledPair(mm, s, k + 1, l);
      }
    } else if l < k {
      if l + 1 < k {
        TiledPair(mm, s, l + 1, k);
      }
    }
  }

  lemma UpdateField(mm: seq<Word>, m: seq<Word>, m': seq<Word>, s: seq<nat>, base: nat, base': nat, k: nat, f: nat)
    requires Tiled(mm, s) && Updated(mm, m, s, base, base', f)
    requires SafeField(mm, s, base, k, f)
    requires f < |m| && m' == m[f := NewWord(mm, s, base, base', mm[f])]
    ensures Updated(mm, m', s, base, base', f + 1)
  {
    FieldInContents(mm, s, k, f);
    ContentsNotForward(mm, s, k, f);
    forall l: nat | l < Count(s) ensures ForwardedAt(mm, m', s, base, l) {
      assert ForwardedAt(mm, m, s, base, l);
      ObjectBounds(mm, s, l);
      if s[l] == f || s[l] + 1 == f {
        OneOwner(mm, s, k, l, f);
      }
    }
    forall l: nat, j: nat | InContents(s, l, j) && j < |mm|
      ensures m'[j] == if j < f + 1 && SafeField(mm, s, base, l, j) then NewWord(mm, s, base, base', mm[j]) else mm[j]
    {
      if j == f {
        OneOwner(mm, s, k, l, f);
      }
    }
  }

  /** Words skipped on the way change nothing. */
  lemma UpdateSkip(mm: seq<Word>, m: seq<Word>, s: seq<nat>, base: nat, base': nat, f: nat, f': nat)
    requires |s| > 0 && Updated(mm, m, s, base, base', f) && f <= f'
    requires forall l: nat, j: nat :: f <= j < f' && SafeField(mm, s, base, l, j) ==> !InRange(mm[j], base, Used(s))
    ensures Updated(mm, m, s, base, base', f')
  {
  }

  // physically_relocate.

  /** 2^(8 * n - 3): the low n bytes of a word are its three low bits and hi modulo this. */
  function HiBound(n: nat): (p: nat)
    requires 1 <= n <= 7
    ensures p > 0
  {
    if n == 1 then 0x20
    else if n == 2 then 0x2000
    else if n == 3 then 0x20_0000
    else if n == 4 then 0x2000_0000
    else if n == 5 then 0x20_0000_0000
    else if n == 6 then 0x2000_0000_0000
    else 0x20_0000_0000_0000
  }

  /** The low `n` bytes agree. */
  predicate SameLow(w: Word, w': Word, n: nat)
    requires 1 <= n <= 8
  {
    if n == 8 then w == w'
    else w.hi % HiBound(n) == w'.hi % HiBound(n) && w.b2 == w'.b2 && w.b1 == w'.b1 && w.b0 == w'.b0
  }

  /** A word whose low `n` bytes have been overwritten. */
  function MixLow(src: Word, dst: Word, n: nat): (w: Word)
    requires 1 <= n <= 7
    ensures SameLow(src, w, n)
  {
    MixHi(src.hi, dst.hi, n);
    src.(hi := dst.hi / HiBound(n) * HiBound(n) + src.hi % HiBound(n))
  }

  lemma MixHi(a: nat, b: nat, n: nat)
    requires 1 <= n <= 7
    ensures b / HiBound(n) * HiBound(n) >= 0
    ensures (b / HiBound(n) * HiBound(n) + a % HiBound(n)) % HiBound(n) == a % HiBound(n)
  {
    if n == 1 {} else if n == 2 {} else if n == 3 {} else if n == 4 {} else if n == 5 {} else if n == 6 {}
  }

  /** Word `i` of an object with header `h` has been copied: the bytes of a string end inside
      its last word, and only they are copied. */
  predicate CopiedWord(h: Word, i: nat, src: Word, dst: Word) {
    if KindOf(h).Str? && i == Size(h) - 1 then SameLow(src, dst, h.hi % 8 + 1) else src == dst
  }

  predicate CopiedAt(h: Word, m: seq<Word>, from: nat, m': seq<Word>, to: nat, i: nat)
  {
    from + i < |m| && to + i < |m'| && CopiedWord(h, i, m[from + i], m'[to + i])
  }

  /** Object `k` of memory `mu` stands, unmarked, at offset `to` of memory `m`. */
  ghost predicate PlacedAt(mu: seq<Word>, m: seq<Word>, s: seq<nat>, k: nat, to: nat)
    requires |s| > 0
  {
    && k < Count(s) && s[k] < |mu| && s[k] + Size(mu[s[k]]) <= |mu| && to + Size(mu[s[k]]) <= |m|
    && m[to] == mu[s[k]]
    && m[to + 1] == ResetMarkBit(mu[s[k] + 1])
    && forall i: nat :: 2 <= i < Size(mu[s[k]]) ==> CopiedAt(mu[s[k]], mu, s[k], m, to, i)
  }

  ghost predicate PlacedIfLive(mm: seq<Word>, mu: seq<Word>, m: seq<Word>, s: seq<nat>, k: nat)
    requires |s| > 0
  {
    Marked(mm, s, k) ==> PlacedAt(mu, m, s, k, LiveBefore(mm, s, k))
  }

  /** The first `n` objects have been dealt with: the live ones stand in their new places, and
      everything from object `n` on is untouched. */
  ghost predicate Slid(mm: seq<Word>, mu: seq<Word>, m: seq<Word>, s: seq<nat>, n: nat)
    requires |s| > 0
  {
    && |m| == |mu| && n < |s|
    && (forall k: nat :: k < n ==> PlacedIfLive(mm, mu, m, s, k))
    && (forall i :: s[n] <= i < |m| ==> m[i] == mu[i])
  }

  /** memmove of an object: whole words, then the bytes that reach into one more word. */
  ghost predicate MovedBlock(m: seq<Word>, m': seq<Word>, to: nat, from: nat, h: Word) {
    && |m'| == |m| && from + Size(h) <= |m| && to + Size(h) <= |m|
    && (forall i: nat :: i < Size(h) ==> CopiedAt(h, m, from, m', to, i))
    && (forall i :: 0 <= i < |m| && !(to <= i < to + Size(h)) ==> m'[i] == m[i])
  }

  /** The headers of two memories agree. */
  ghost predicate SameHeaders(m: seq<Word>, m': seq<Word>, s: seq<nat>)
    requires |s| > 0
  {
    forall k: nat :: k < Count(s) ==> s[k] < |m| && s[k] < |m'| && m[s[k]] == m'[s[k]]
  }

  lemma SlideOne(mm: seq<Word>, mu: seq<Word>, m: seq<Word>, m1: seq<Word>, m2: seq<Word>, s: seq<nat>, n: nat)
    requires Tiled(mm, s) && Tiled(mu, s) && SameHeaders(mm, mu, s)
    requires n < Count(s) && s[n] < |mu|
    requires Slid(mm, mu, m, s, n) && Marked(mm, s, n)
    requires MovedBlock(m, m1, LiveBefore(mm, s, n), s[n], mu[s[n]])
    requires LiveBefore(mm, s, n) + 1 < |m1|
    requires m2 == m1[LiveBefore(mm, s, n) + 1 := ResetMarkBit(m1[LiveBefore(mm, s, n) + 1])]
    ensures Slid(mm, mu, m2, s, n + 1)
  {
    var to := LiveBefore(mm, s, n);
    LiveBelow(mm, s, n);
    ObjectBounds(mu, s, n);
    assert PlacedAt(mu, m2, s, n, to) by {
      assert CopiedAt(mu[s[n]], m, s[n], m1, to, 0);
      assert CopiedAt(mu[s[n]], m, s[n], m1, to, 1);
      forall i: nat | 2 <= i < Size(mu[s[n]]) ensures CopiedAt(mu[s[n]], mu, s[n], m2, to, i) {
        assert CopiedAt(mu[s[n]], m, s[n], m1, to, i);
      }
    }
    forall k: nat | k < n ensures PlacedIfLive(mm, mu, m2, s, k) {
      assert PlacedIfLive(mm, mu, m, s, k);
      if Marked(mm, s, k) {
        LiveApart(mm, s, k, n);
        forall i: nat | 2 <= i < Size(mu[s[k]]) ensures CopiedAt(mu[s[k]], mu, s[k], m2, LiveBefore(mm, s, k), i) {
          assert CopiedAt(mu[s[k]], mu, s[k], m, LiveBefore(mm, s, k), i);
        }
      }
    }
  }

  lemma SlideSkip(mm: seq<Word>, mu: seq<Word>, m: seq<Word>, s: seq<nat>, n: nat)
    requires Tiled(mm, s) && n < Count(s)
    requires Slid(mm, mu, m, s, n) && !Marked(mm, s, n)
    ensures Slid(mm, mu, m, s, n + 1)
  {
    assert ObjAt(mm, s, n);
  }
}
