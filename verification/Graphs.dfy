/** What a collection preserves: the object graph, up to a renaming of objects. */
module Graphs {
  import opened Words
  import opened HeapLayout
  import opened Marking
  import opened Compaction

  /** A heap at one moment: the address of the chunk, its words, and the tiling by objects. */
  datatype Heap = Heap(base: nat, words: seq<Word>, starts: seq<nat>)
  {
    ghost predicate Tiles() { Tiled(words, starts) }

    ghost predicate PointsTo(w: Word, k: nat)
      requires |starts| > 0
    {
      Points(w, base, starts, k)
    }

    function HeaderOf(k: nat): Word
      requires |starts| > 0 && k < Count(starts) && starts[k] < |words|
    {
      words[starts[k]]
    }
  }

  /** Word `w` of `g` and word `w'` of `g'` are the same value: a pointer to an object goes to the
      object's new name, anything else is unchanged. */
  ghost predicate WordRenamed(g: Heap, g': Heap, ren: map<nat, nat>, w: Word, w': Word)
    requires |g.starts| > 0 && |g'.starts| > 0
  {
    && (forall k: nat :: g.PointsTo(w, k) ==> k in ren && g'.PointsTo(w', ren[k]))
    && ((forall k: nat :: !g.PointsTo(w, k)) ==> w' == w)
  }

  /** Word `i` of object `k`: fields are renamed; the tag of an s-expression, the code word of a
      closure and the bytes of a string are copied. */
  ghost predicate WordKept(g: Heap, g': Heap, ren: map<nat, nat>, k: nat, i: nat)
    requires |g.starts| > 0 && |g'.starts| > 0 && k in ren
    requires k < Count(g.starts) && g.starts[k] < |g.words| && ren[k] < Count(g'.starts)
  {
    && g.starts[k] + i < |g.words|
    && g'.starts[ren[k]] + i < |g'.words|
    && var w, w' := g.words[g.starts[k] + i], g'.words[g'.starts[ren[k]] + i];
       if i >= FirstField(g.HeaderOf(k)) then WordRenamed(g, g', ren, w, w')
       else CopiedWord(g.HeaderOf(k), i, w, w')
  }

  ghost predicate ObjectKept(g: Heap, g': Heap, ren: map<nat, nat>, k: nat)
    requires |g.starts| > 0 && |g'.starts| > 0 && k in ren
  {
    && k < Count(g.starts) && g.starts[k] < |g.words|
    && ren[k] < Count(g'.starts) && g'.starts[ren[k]] < |g'.words|
    && g'.HeaderOf(ren[k]) == g.HeaderOf(k)
    && forall i: nat :: 2 <= i < Size(g.HeaderOf(k)) ==> WordKept(g, g', ren, k, i)
  }

  ghost predicate Injective(ren: map<nat, nat>) {
    forall k, l :: k in ren && l in ren && ren[k] == ren[l] ==> k == l
  }

  /** `ren` embeds the part of the graph of `g` that it names into the graph of `g'`. */
  ghost predicate Preserved(g: Heap, g': Heap, ren: map<nat, nat>) {
    && g.Tiles() && g'.Tiles()
    && Injective(ren)
    && forall k :: k in ren ==> ObjectKept(g, g', ren, k)
  }

  // The heap after compaction.

  /** The new offsets of the live objects among the first `n`. */
  ghost function NewStarts(mm: seq<Word>, s: seq<nat>, n: nat): seq<nat>
    requires |s| > 0
  {
    if n == 0 then []
    else NewStarts(mm, s, n - 1) + if Marked(mm, s, n - 1) then [LiveBefore(mm, s, n - 1)] else []
  }

  ghost function NewTiling(mm: seq<Word>, s: seq<nat>): seq<nat>
    requires |s| > 0
  {
    NewStarts(mm, s, Count(s)) + [LiveBefore(mm, s, Count(s))]
  }

  /** The new number of live object `k`. */
  ghost function Rank(mm: seq<Word>, s: seq<nat>, k: nat): nat
    requires |s| > 0
  {
    |NewStarts(mm, s, k)|
  }

  lemma {:induction false} RankStart(mm: seq<Word>, s: seq<nat>, k: nat, n: nat)
    requires |s| > 0 && k < n && Marked(mm, s, k)
    ensures Rank(mm, s, k) < |NewStarts(mm, s, n)|
    ensures NewStarts(mm, s, n)[Rank(mm, s, k)] == LiveBefore(mm, s, k)
    decreases n
  {
    if k < n - 1 {
      RankStart(mm, s, k, n - 1);
    }
  }

  /** Every new object is the new copy of a live one. */
  lemma {:induction false} RankOnto(mm: seq<Word>, s: seq<nat>, r: nat, n: nat) returns (k: nat)
    requires |s| > 0 && r < |NewStarts(mm, s, n)|
    ensures k < n && Marked(mm, s, k) && Rank(mm, s, k) == r
    decreases n
  {
    if r < |NewStarts(mm, s, n - 1)| {
      k := RankOnto(mm, s, r, n - 1);
    } else {
      k := n - 1;
    }
  }

  lemma {:induction false} RankGrows(mm: seq<Word>, s: seq<nat>, a: nat, b: nat)
    requires |s| > 0 && a < b && Marked(mm, s, a)
    ensures Rank(mm, s, a) < Rank(mm, s, b)
    decreases b
  {
    if a < b - 1 {
      RankGrows(mm, s, a, b - 1);
    }
  }

  ghost function Renaming(mm: seq<Word>, s: seq<nat>): map<nat, nat>
    requires |s| > 0
  {
    map k: nat | 0 <= k < Count(s) && Marked(mm, s, k) :: Rank(mm, s, k)
  }

  lemma RenamingInjective(mm: seq<Word>, s: seq<nat>)
    requires |s| > 0
    ensures Injective(Renaming(mm, s))
  {
    var ren := Renaming(mm, s);
    forall k, l | k in ren && l in ren && ren[k] == ren[l] ensures k == l {
      if k < l { RankGrows(mm, s, k, l); } else if l < k { RankGrows(mm, s, l, k); }
    }
  }

  /** The live objects tile the beginning of the new chunk without gaps. */
  lemma {:induction false} NewTilesPrefix(mm: seq<Word>, mu: seq<Word>, m: seq<Word>, s: seq<nat>, n: nat)
    requires Tiled(mm, s) && SameHeaders(mm, mu, s) && n <= Count(s)
    requires |m| == |mu| && |mm| <= |mu|
    requires forall k: nat :: k < n ==> PlacedIfLive(mm, mu, m, s, k)
    ensures Tiled(m, NewStarts(mm, s, n) + [LiveBefore(mm, s, n)])
  {
    if n > 0 {
      NewTilesPrefix(mm, mu, m, s, n - 1);
      LiveBelow(mm, s, n);
      var t := NewStarts(mm, s, n - 1) + [LiveBefore(mm, s, n - 1)];
      var t' := NewStarts(mm, s, n) + [LiveBefore(mm, s, n)];
      if Marked(mm, s, n - 1) {
        assert PlacedIfLive(mm, mu, m, s, n - 1);
        assert t' == t + [LiveBefore(mm, s, n)];
        assert ObjAt(mm, s, n - 1);
        forall k | 0 <= k < |t'| - 1 ensures ObjAt(m, t', k) {
          if k < |t| - 1 { assert ObjAt(m, t, k); }
        }
      } else {
        assert t' == t;
      }
    }
  }

  /** A scanned word and what compaction makes of it. */
  lemma NewWordRenamed(mm: seq<Word>, g: Heap, g': Heap, w: Word)
    requires g.Tiles() && Tiled(mm, g.starts) && g'.starts == NewTiling(mm, g.starts)
    requires Aimed(w, g.base, g.starts)
    requires InRange(w, g.base, Used(g.starts)) ==> Marked(mm, g.starts, TargetOf(w, g.base, g.starts))
    ensures WordRenamed(g, g', Renaming(mm, g.starts), w, NewWord(mm, g.starts, g.base, g'.base, w))
  {
    var s := g.starts;
    var ren := Renaming(mm, s);
    var w' := NewWord(mm, s, g.base, g'.base, w);
    if InRange(w, g.base, Used(s)) {
      var t := TargetOf(w, g.base, s);
      RankStart(mm, s, t, Count(s));
      assert g.PointsTo(w, t) && g'.PointsTo(w', ren[t]);
      forall k: nat | g.PointsTo(w, k) ensures k == t {
        PointsUnique(mm, s, g.base, w, k, t);
      }
    } else {
      forall k: nat | g.PointsTo(w, k) ensures false {
        PointerInRange(mm, s, g.base, w, k);
      }
    }
  }

  /** The memory when references have been updated and objects slid. */
  ghost predicate Compacted(mm: seq<Word>, mu: seq<Word>, m: seq<Word>, s: seq<nat>, base: nat, base': nat) {
    && Tiled(mm, s) && FieldsAimed(mm, s, base) && MarksClosed(mm, s, base)
    && Updated(mm, mu, s, base, base', Used(s))
    && Slid(mm, mu, m, s, Count(s))
  }

  lemma UpdatedHeaders(mm: seq<Word>, mu: seq<Word>, s: seq<nat>, base: nat, base': nat, f: nat)
    requires Tiled(mm, s) && Updated(mm, mu, s, base, base', f)
    ensures SameHeaders(mm, mu, s) && Tiled(mu, s)
  {
    forall k: nat | k < Count(s) ensures s[k] < |mm| && s[k] < |mu| && mm[s[k]] == mu[s[k]] && ObjAt(mu, s, k) {
      ObjectBounds(mm, s, k);
      assert ForwardedAt(mm, mu, s, base, k);
    }
  }

  lemma CompactedTiles(mm: seq<Word>, mu: seq<Word>, m: seq<Word>, s: seq<nat>, base: nat, base': nat)
    requires Compacted(mm, mu, m, s, base, base')
    ensures Tiled(m, NewTiling(mm, s)) && Used(NewTiling(mm, s)) == LiveBefore(mm, s, Count(s))
  {
    UpdatedHeaders(mm, mu, s, base, base', Used(s));
    NewTilesPrefix(mm, mu, m, s, Count(s));
  }

  /** One word of a live object, at its old place and at its new one. */
  ghost predicate WordMoved(mm: seq<Word>, m: seq<Word>, s: seq<nat>, base: nat, base': nat, k: nat, i: nat)
    requires |s| > 0 && Marked(mm, s, k)
  {
    && s[k] + i < |mm| && LiveBefore(mm, s, k) + i < |m|
    && var w, w' := mm[s[k] + i], m[LiveBefore(mm, s, k) + i];
       if i >= FirstField(mm[s[k]])
       then && Aimed(w, base, s)
            && (InRange(w, base, Used(s)) ==> Marked(mm, s, TargetOf(w, base, s)))
            && w' == NewWord(mm, s, base, base', w)
       else CopiedWord(mm[s[k]], i, w, w')
  }

  lemma CompactedWord(mm: seq<Word>, mu: seq<Word>, m: seq<Word>, s: seq<nat>, base: nat, base': nat, k: nat, i: nat)
    requires Compacted(mm, mu, m, s, base, base')
    requires Marked(mm, s, k) && 2 <= i < Size(mm[s[k]])
    ensures WordMoved(mm, m, s, base, base', k, i)
  {
    var h, j := mm[s[k]], s[k] + i;
    ObjectBounds(mm, s, k);
    assert InContents(s, k, j);
    assert ForwardedAt(mm, mu, s, base, k);
    assert PlacedIfLive(mm, mu, m, s, k);
    assert CopiedAt(h, mu, s[k], m, LiveBefore(mm, s, k), i);
    if i >= FirstField(h) {
      assert FieldAt(mm, s, k, j);
      assert SafeField(mm, s, base, k, j);
      if InRange(mm[j], base, Used(s)) {
        assert Edge(mm, s, base, k, TargetOf(mm[j], base, s));
      }
    }
  }

  lemma MovedWordKept(mm: seq<Word>, g: Heap, g': Heap, k: nat, i: nat)
    requires g.Tiles() && Tiled(mm, g.starts) && SameButForwards(g.words, mm, g.starts)
    requires g'.starts == NewTiling(mm, g.starts)
    requires Marked(mm, g.starts, k) && 2 <= i < Size(mm[g.starts[k]])
    requires WordMoved(mm, g'.words, g.starts, g.base, g'.base, k, i)
    ensures k in Renaming(mm, g.starts) && g.starts[k] < |g.words|
    ensures Renaming(mm, g.starts)[k] < Count(g'.starts)
    ensures WordKept(g, g', Renaming(mm, g.starts), k, i)
  {
    var s, ren := g.starts, Renaming(mm, g.starts);
    var h, j := mm[s[k]], s[k] + i;
    RankStart(mm, s, k, Count(s));
    ObjectBounds(mm, s, k);
    HeaderNotForward(mm, s, k);
    ContentsNotForward(mm, s, k, j);
    if i >= FirstField(h) {
      NewWordRenamed(mm, g, g', mm[j]);
    }
  }

  /** The main theorem on compaction: the live graph is preserved, whatever its sharing and cycles. */
  lemma CompactionPreserves(mm: seq<Word>, mu: seq<Word>, g: Heap, g': Heap)
    requires Compacted(mm, mu, g'.words, g.starts, g.base, g'.base)
    requires g.Tiles() && SameButForwards(g.words, mm, g.starts) && g'.starts == NewTiling(mm, g.starts)
    ensures Preserved(g, g', Renaming(mm, g.starts))
  {
    var s, ren := g.starts, Renaming(mm, g.starts);
    CompactedTiles(mm, mu, g'.words, s, g.base, g'.base);
    RenamingInjective(mm, s);
    UpdatedHeaders(mm, mu, s, g.base, g'.base, Used(s));
    forall k | k in ren ensures ObjectKept(g, g', ren, k) {
      RankStart(mm, s, k, Count(s));
      ObjectBounds(mm, s, k);
      ObjectBounds(g'.words, g'.starts, ren[k]);
      HeaderNotForward(mm, s, k);
      assert PlacedIfLive(mm, mu, g'.words, s, k);
      forall i: nat | 2 <= i < Size(g.HeaderOf(k)) ensures WordKept(g, g', ren, k, i) {
        CompactedWord(mm, mu, g'.words, s, g.base, g'.base, k, i);
        MovedWordKept(mm, g, g', k, i);
      }
    }
  }

  /** No flag is left over: the forward word of every object that remains has mark and enqueued
      bits clear. */
  lemma CompactedFlagsClear(mm: seq<Word>, mu: seq<Word>, m: seq<Word>, s: seq<nat>, base: nat, base': nat, r: nat)
    requires Compacted(mm, mu, m, s, base, base') && NoneEnqueued(mm, s)
    ensures !Marked(m, NewTiling(mm, s), r) && !Enqueued(m, NewTiling(mm, s), r)
  {
    var t := NewTiling(mm, s);
    if r < Count(t) {
      var k := RankOnto(mm, s, r, Count(s));
      RankStart(mm, s, k, Count(s));
      ObjectBounds(mm, s, k);
      assert !Enqueued(mm, s, k);
      assert ForwardedAt(mm, mu, s, base, k);
      assert PlacedIfLive(mm, mu, m, s, k);
    }
  }

  // Values: integers, pointers to objects, and addresses of memory that is not the heap's.

  ghost predicate Valued(g: Heap, foreign: iset<nat>, w: Word)
    requires |g.starts| > 0
  {
    Unboxed(w) || w.hi in foreign || exists k: nat :: g.PointsTo(w, k)
  }

  ghost predicate FieldsValued(g: Heap, foreign: iset<nat>)
    requires |g.starts| > 0
  {
    forall k: nat, j: int :: FieldAt(g.words, g.starts, k, j) ==> Valued(g, foreign, g.words[j])
  }

  /** A chunk of `cap` words at `base`, and the address one past it, hold no foreign address. */
  ghost predicate ForeignApart(foreign: iset<nat>, base: nat, cap: nat) {
    forall a :: a in foreign ==> !(base <= a <= base + cap)
  }

  lemma ValuedIsAimed(g: Heap, foreign: iset<nat>, w: Word, cap: nat)
    requires |g.starts| > 0 && Valued(g, foreign, w)
    requires ForeignApart(foreign, g.base, cap) && Used(g.starts) <= cap
    ensures Aimed(w, g.base, g.starts)
  {
    if InRange(w, g.base, Used(g.starts)) {
      var k: nat :| g.PointsTo(w, k);
      assert Points(w, g.base, g.starts, k);
    }
  }

  lemma FieldsValuedAimed(g: Heap, foreign: iset<nat>, cap: nat)
    requires |g.starts| > 0 && FieldsValued(g, foreign)
    requires ForeignApart(foreign, g.base, cap) && Used(g.starts) <= cap
    ensures FieldsAimed(g.words, g.starts, g.base)
  {
    forall k: nat, j: int | FieldAt(g.words, g.starts, k, j) ensures Aimed(g.words[j], g.base, g.starts) {
      ValuedIsAimed(g, foreign, g.words[j], cap);
    }
  }

  lemma RenamedIsValued(g: Heap, g': Heap, ren: map<nat, nat>, foreign: iset<nat>, w: Word, w': Word)
    requires |g.starts| > 0 && |g'.starts| > 0
    requires WordRenamed(g, g', ren, w, w') && Valued(g, foreign, w)
    ensures Valued(g', foreign, w')
  {
    if k: nat :| g.PointsTo(w, k) {
      assert g'.PointsTo(w', ren[k]);
    }
  }

  /** If every new object is the copy of an old one, values stay values. */
  lemma PreservedValued(g: Heap, g': Heap, ren: map<nat, nat>, foreign: iset<nat>)
    requires Preserved(g, g', ren) && FieldsValued(g, foreign)
    requires forall r: nat :: r < Count(g'.starts) ==> r in ren.Values
    ensures FieldsValued(g', foreign)
  {
    hide Valued, ObjectKept;
    forall r: nat, j: int | FieldAt(g'.words, g'.starts, r, j) ensures Valued(g', foreign, g'.words[j]) {
      assert r in ren.Values;
      var k :| k in ren && ren[k] == r;
      FieldOfKept(g, g', ren, foreign, k, j);
    }
  }

  lemma FieldOfKept(g: Heap, g': Heap, ren: map<nat, nat>, foreign: iset<nat>, k: nat, j: int)
    requires Preserved(g, g', ren) && FieldsValued(g, foreign) && |g.starts| > 0 && |g'.starts| > 0
    requires k in ren && FieldAt(g'.words, g'.starts, ren[k], j) && 0 <= j < |g'.words|
    ensures Valued(g', foreign, g'.words[j])
  {
    hide Valued, WordRenamed;
    assert ObjectKept(g, g', ren, k);
    ObjectBounds(g.words, g.starts, k);
    ObjectBounds(g'.words, g'.starts, ren[k]);
    var i: nat := j - g'.starts[ren[k]];
    assert WordKept(g, g', ren, k, i);
    assert FieldAt(g.words, g.starts, k, g.starts[k] + i);
    RenamedIsValued(g, g', ren, foreign, g.words[g.starts[k] + i], g'.words[j]);
  }

  /** A word that aims at a marked object, or at none. */
  ghost predicate SafeWord(mm: seq<Word>, s: seq<nat>, base: nat, w: Word)
    requires |s| > 0
  {
    && Aimed(w, base, s)
    && (InRange(w, base, Used(s)) ==> Marked(mm, s, TargetOf(w, base, s)))
  }

  // Roots: update_references outside the heap.

  ghost predicate FixedAt(mm: seq<Word>, s: seq<nat>, base: nat, base': nat, w: Word, w': Word, fixed: bool)
    requires |s| > 0
  {
    w' == if fixed && Aimed(w, base, s) then NewWord(mm, s, base, base', w) else w
  }

  /** The words at `fixed` have followed their objects; the others are as they were. */
  ghost predicate Fixed(mm: seq<Word>, s: seq<nat>, base: nat, base': nat,
                        memory: map<nat, Word>, memory': map<nat, Word>, fixed: set<nat>)
    requires |s| > 0
  {
    && memory'.Keys == memory.Keys
    && forall p :: p in memory ==> FixedAt(mm, s, base, base', memory[p], memory'[p], p in fixed)
  }

  ghost predicate ChunksDisjoint(base: nat, cap: nat, base': nat, cap': nat) {
    base + cap <= base' || base' + cap' <= base
  }

  /** A new pointer is outside the range that is tested for the old heap, even if the chunks touch. */
  lemma NewOutsideOld(mm: seq<Word>, s: seq<nat>, base: nat, cap: nat, base': nat, cap': nat, w: Word)
    requires Tiled(mm, s) && Used(s) <= cap && ChunksDisjoint(base, cap, base', cap')
    requires cap' >= 2 * LiveBefore(mm, s, Count(s))
    requires Aimed(w, base, s) && InRange(w, base, Used(s)) && Marked(mm, s, TargetOf(w, base, s))
    ensures !InRange(NewWord(mm, s, base, base', w), base, Used(s))
  {
    LiveApart(mm, s, TargetOf(w, base, s), Count(s));
  }

  lemma FixOne(mm: seq<Word>, s: seq<nat>, base: nat, cap: nat, base': nat, cap': nat,
               memory: map<nat, Word>, m1: map<nat, Word>, m2: map<nat, Word>, fixed: set<nat>, p: nat)
    requires Tiled(mm, s) && Used(s) <= cap && ChunksDisjoint(base, cap, base', cap')
    requires cap' >= 2 * LiveBefore(mm, s, Count(s))
    requires Fixed(mm, s, base, base', memory, m1, fixed)
    requires p in memory && SafeWord(mm, s, base, memory[p])
    requires Aimed(m1[p], base, s) ==> m2 == m1[p := NewWord(mm, s, base, base', m1[p])]
    ensures Aimed(m1[p], base, s) && Fixed(mm, s, base, base', memory, m2, fixed + {p})
    ensures InRange(m1[p], base, Used(s)) ==> m1[p] == memory[p]
  {
    assert FixedAt(mm, s, base, base', memory[p], m1[p], p in fixed);
    if p in fixed && InRange(memory[p], base, Used(s)) {
      NewOutsideOld(mm, s, base, cap, base', cap', memory[p]);
    }
    forall q | q in memory ensures FixedAt(mm, s, base, base', memory[q], m2[q], q in fixed + {p}) {
      assert FixedAt(mm, s, base, base', memory[q], m1[q], q in fixed);
    }
  }

  /** A word that is certainly no pointer into the heap. */
  predicate Plain(w: Word, foreign: iset<nat>) {
    Unboxed(w) || w.hi in foreign
  }

  lemma PlainOutside(g: Heap, foreign: iset<nat>, cap: nat, w: Word)
    requires g.Tiles() && ForeignApart(foreign, g.base, cap) && Used(g.starts) <= cap
    requires Plain(w, foreign)
    ensures !InRange(w, g.base, Used(g.starts))
    ensures forall k: nat :: !g.PointsTo(w, k)
  {
    forall k: nat | g.PointsTo(w, k) ensures false {
      PointerInRange(g.words, g.starts, g.base, w, k);
    }
  }

  /** Every root word holds a value; the words that are fixed but not marked from hold no pointer. */
  ghost predicate RootsHold(g: Heap, foreign: iset<nat>, mem: map<nat, Word>, roots: set<nat>, fixed: set<nat>)
    requires |g.starts| > 0
  {
    && roots <= fixed
    && forall p :: p in fixed ==> p in mem && if p in roots then Valued(g, foreign, mem[p]) else Plain(mem[p], foreign)
  }

  /** A heap and the words outside it have become another heap and other words, and the words at
      `addrs` have kept their values. */
  ghost predicate RootsRenamed(g: Heap, g': Heap, ren: map<nat, nat>, mem: map<nat, Word>, mem': map<nat, Word>,
                               addrs: set<nat>)
    requires |g.starts| > 0 && |g'.starts| > 0
  {
    && mem'.Keys == mem.Keys
    && (forall p :: p in addrs && p in mem ==> WordRenamed(g, g', ren, mem[p], mem'[p]))
    && (forall p :: p !in addrs && p in mem ==> mem'[p] == mem[p])
  }

  /** When the reachable objects are marked, every word to be fixed aims at a marked object. */
  lemma RootSafe(g: Heap, mm: seq<Word>, foreign: iset<nat>, cap: nat, mem: map<nat, Word>, roots: set<nat>,
                 fixed: set<nat>, p: nat)
    requires g.Tiles() && ForeignApart(foreign, g.base, cap) && Used(g.starts) <= cap
    requires RootsHold(g, foreign, mem, roots, fixed) && p in fixed
    requires forall k: nat :: Reachable(g.words, g.starts, g.base, Targets(mem, roots, g.base, g.starts), k) ==>
               Marked(mm, g.starts, k)
    ensures p in mem && SafeWord(mm, g.starts, g.base, mem[p])
  {
    if p in roots {
      ValuedIsAimed(g, foreign, mem[p], cap);
      if InRange(mem[p], g.base, Used(g.starts)) {
        var k := TargetOf(mem[p], g.base, g.starts);
        assert HasRoot(mem, roots, g.base, g.starts, k);
        ReachRoot(g.words, g.starts, g.base, Targets(mem, roots, g.base, g.starts), k);
      }
    } else {
      PlainOutside(g, foreign, cap, mem[p]);
    }
  }

  /** Compaction renames the roots. */
  lemma FixedIsRenamed(g: Heap, g': Heap, mm: seq<Word>, mem: map<nat, Word>, mem': map<nat, Word>, fixed: set<nat>)
    requires g.Tiles() && Tiled(mm, g.starts) && g'.starts == NewTiling(mm, g.starts)
    requires Fixed(mm, g.starts, g.base, g'.base, mem, mem', fixed)
    requires forall p :: p in fixed ==> p in mem && SafeWord(mm, g.starts, g.base, mem[p])
    ensures RootsRenamed(g, g', Renaming(mm, g.starts), mem, mem', fixed)
  {
    forall p | p in mem
      ensures if p in fixed then WordRenamed(g, g', Renaming(mm, g.starts), mem[p], mem'[p]) else mem'[p] == mem[p]
    {
      assert FixedAt(mm, g.starts, g.base, g'.base, mem[p], mem'[p], p in fixed);
      if p in fixed {
        NewWordRenamed(mm, g, g', mem[p]);
      }
    }
  }

  lemma RenamingOnto(mm: seq<Word>, s: seq<nat>, r: nat)
    requires |s| > 0 && r < Count(NewTiling(mm, s))
    ensures r in Renaming(mm, s).Values
  {
    var k := RankOnto(mm, s, r, Count(s));
    assert k in Renaming(mm, s) && Renaming(mm, s)[k] == r;
  }

  /** Renamed roots still hold values. */
  lemma RenamedRootsHold(g: Heap, g': Heap, ren: map<nat, nat>, foreign: iset<nat>, cap: nat,
                         mem: map<nat, Word>, mem': map<nat, Word>, roots: set<nat>, fixed: set<nat>)
    requires g.Tiles() && ForeignApart(foreign, g.base, cap) && Used(g.starts) <= cap && |g'.starts| > 0
    requires RootsHold(g, foreign, mem, roots, fixed) && mem'.Keys == mem.Keys
    requires forall p :: p in fixed && p in mem ==> WordRenamed(g, g', ren, mem[p], mem'[p])
    ensures RootsHold(g', foreign, mem', roots, fixed)
  {
    forall p | p in fixed
      ensures p in mem' && if p in roots then Valued(g', foreign, mem'[p]) else Plain(mem'[p], foreign)
    {
      assert p in mem.Keys;
      if p in roots {
        RenamedIsValued(g, g', ren, foreign, mem[p], mem'[p]);
      } else {
        PlainOutside(g, foreign, cap, mem[p]);
      }
    }
  }

  // Growing a heap by one object.

  /** `g'` is `g` with one more object at its end. */
  ghost predicate Extended(g: Heap, g': Heap) {
    && g.Tiles() && g'.Tiles()
    && g'.base == g.base && |g'.starts| == |g.starts| + 1 && g'.starts[..|g.starts|] == g.starts
    && Used(g.starts) <= |g'.words|
    && forall i :: 0 <= i < Used(g.starts) ==> g'.words[i] == g.words[i]
  }

  lemma ExtendedPoints(g: Heap, g': Heap, w: Word, k: nat)
    requires Extended(g, g') && g.PointsTo(w, k)
    ensures g'.PointsTo(w, k)
  {
    assert g'.starts[k] == g'.starts[..|g.starts|][k];
  }

  lemma ExtendedRenames(g0: Heap, g: Heap, g': Heap, ren: map<nat, nat>, w: Word, w': Word)
    requires |g0.starts| > 0 && Extended(g, g') && WordRenamed(g0, g, ren, w, w')
    ensures WordRenamed(g0, g', ren, w, w')
  {
    forall k: nat | g0.PointsTo(w, k) ensures k in ren && g'.PointsTo(w', ren[k]) {
      ExtendedPoints(g, g', w', ren[k]);
    }
  }

  lemma ExtendedRoots(g0: Heap, g: Heap, g': Heap, ren: map<nat, nat>, mem: map<nat, Word>, mem': map<nat, Word>,
                      addrs: set<nat>)
    requires |g0.starts| > 0 && Extended(g, g') && RootsRenamed(g0, g, ren, mem, mem', addrs)
    ensures RootsRenamed(g0, g', ren, mem, mem', addrs)
  {
    forall p | p in addrs && p in mem ensures WordRenamed(g0, g', ren, mem[p], mem'[p]) {
      ExtendedRenames(g0, g, g', ren, mem[p], mem'[p]);
    }
  }

  lemma ExtendedKeeps(g0: Heap, g: Heap, g': Heap, ren: map<nat, nat>)
    requires Preserved(g0, g, ren) && Extended(g, g')
    ensures Preserved(g0, g', ren)
  {
    forall k | k in ren ensures ObjectKept(g0, g', ren, k) {
      assert ObjectKept(g0, g, ren, k);
      ObjectBounds(g0.words, g0.starts, k);
      ObjectBounds(g.words, g.starts, ren[k]);
      assert g'.starts[ren[k]] == g'.starts[..|g.starts|][ren[k]];
      forall i: nat | 2 <= i < Size(g0.HeaderOf(k)) ensures WordKept(g0, g', ren, k, i) {
        assert WordKept(g0, g, ren, k, i);
        if i >= FirstField(g0.HeaderOf(k)) {
          ExtendedRenames(g0, g, g', ren, g0.words[g0.starts[k] + i], g.words[g.starts[ren[k]] + i]);
        }
      }
    }
  }

  /** The fields of the new object hold values. */
  lemma ExtendedValued(g: Heap, g': Heap, foreign: iset<nat>)
    requires Extended(g, g') && FieldsValued(g, foreign)
    requires forall j :: FieldAt(g'.words, g'.starts, Count(g.starts), j) ==> Valued(g', foreign, g'.words[j])
    ensures FieldsValued(g', foreign)
  {
    var n := Count(g.starts);
    forall k: nat, j: int | FieldAt(g'.words, g'.starts, k, j) ensures Valued(g', foreign, g'.words[j]) {
      FieldInContents(g'.words, g'.starts, k, j);
      if k < n {
        ObjectBounds(g.words, g.starts, k);
        assert g'.starts[k] == g'.starts[..|g.starts|][k] && g'.starts[k + 1] == g'.starts[..|g.starts|][k + 1];
        assert FieldAt(g.words, g.starts, k, j);
        ValueExtended(g, g', foreign, g.words[j]);
      }
    }
  }

  /** The flags of the old objects. */
  lemma ExtendedFlags(g: Heap, g': Heap, k: nat)
    requires Extended(g, g') && k < Count(g.starts)
    ensures Marked(g'.words, g'.starts, k) <==> Marked(g.words, g.starts, k)
    ensures Enqueued(g'.words, g'.starts, k) <==> Enqueued(g.words, g.starts, k)
  {
    ObjectBounds(g.words, g.starts, k);
    assert g'.starts[k] == g'.starts[..|g.starts|][k];
  }

  lemma ValueExtended(g: Heap, g': Heap, foreign: iset<nat>, w: Word)
    requires Extended(g, g') && Valued(g, foreign, w)
    ensures Valued(g', foreign, w)
  {
    if k: nat :| g.PointsTo(w, k) {
      ExtendedPoints(g, g', w, k);
    }
  }

  /** Nothing has happened. */
  ghost function Identity(g: Heap): map<nat, nat>
    requires |g.starts| > 0
  {
    map k: nat | k in Region(0, Count(g.starts)) :: k
  }

  lemma IdentityPreserves(g: Heap, mem: map<nat, Word>, addrs: set<nat>)
    requires g.Tiles()
    ensures Preserved(g, g, Identity(g))
    ensures RootsRenamed(g, g, Identity(g), mem, mem, addrs)
  {
    var ren := Identity(g);
    forall k | k in ren ensures ObjectKept(g, g, ren, k) {
      ObjectBounds(g.words, g.starts, k);
    }
  }

  /** `g'` differs from `g` at most above the objects. */
  ghost predicate SameUsed(g: Heap, g': Heap) {
    && g.Tiles() && g'.base == g.base && g'.starts == g.starts
    && Used(g.starts) <= |g'.words|
    && forall i :: 0 <= i < Used(g.starts) ==> g'.words[i] == g.words[i]
  }

  lemma SameUsedTiles(g: Heap, g': Heap)
    requires SameUsed(g, g')
    ensures g'.Tiles()
  {
    forall k: nat | k < Count(g.starts) ensures ObjAt(g'.words, g.starts, k) {
      ObjectBounds(g.words, g.starts, k);
    }
  }

  /** What lies above the objects does not matter. */
  lemma SameUsedKeeps(g0: Heap, g: Heap, g': Heap, ren: map<nat, nat>)
    requires SameUsed(g, g') && Preserved(g0, g, ren)
    ensures Preserved(g0, g', ren)
  {
    SameUsedTiles(g, g');
    forall k | k in ren ensures ObjectKept(g0, g', ren, k) {
      assert ObjectKept(g0, g, ren, k);
      ObjectBounds(g.words, g.starts, ren[k]);
      forall i: nat | 2 <= i < Size(g0.HeaderOf(k)) ensures WordKept(g0, g', ren, k, i) {
        assert WordKept(g0, g, ren, k, i);
        if i >= FirstField(g0.HeaderOf(k)) {
          SameUsedRenames(g0, g, g', ren, g0.words[g0.starts[k] + i], g.words[g.starts[ren[k]] + i]);
        }
      }
    }
  }

  lemma SameUsedRenames(g0: Heap, g: Heap, g': Heap, ren: map<nat, nat>, w: Word, w': Word)
    requires |g0.starts| > 0 && SameUsed(g, g') && WordRenamed(g0, g, ren, w, w')
    ensures WordRenamed(g0, g', ren, w, w')
  {
    forall k: nat | g0.PointsTo(w, k) ensures k in ren && g'.PointsTo(w', ren[k]) {
      assert g.PointsTo(w', ren[k]);
    }
  }

  lemma SameUsedRoots(g0: Heap, g: Heap, g': Heap, ren: map<nat, nat>, mem: map<nat, Word>, mem': map<nat, Word>,
                      addrs: set<nat>)
    requires |g0.starts| > 0 && SameUsed(g, g') && RootsRenamed(g0, g, ren, mem, mem', addrs)
    ensures RootsRenamed(g0, g', ren, mem, mem', addrs)
  {
    forall p | p in addrs && p in mem ensures WordRenamed(g0, g', ren, mem[p], mem'[p]) {
      SameUsedRenames(g0, g, g', ren, mem[p], mem'[p]);
    }
  }

  lemma SameUsedValue(g: Heap, g': Heap, foreign: iset<nat>, w: Word)
    requires SameUsed(g, g') && Valued(g, foreign, w)
    ensures Valued(g', foreign, w)
  {
    if t: nat :| g.PointsTo(w, t) {
      assert g'.PointsTo(w, t);
    }
  }

  lemma SameUsedFields(g: Heap, g': Heap, foreign: iset<nat>)
    requires SameUsed(g, g') && FieldsValued(g, foreign)
    ensures FieldsValued(g', foreign)
  {
    forall k: nat, j: int | FieldAt(g'.words, g'.starts, k, j) ensures Valued(g', foreign, g'.words[j]) {
      ObjectBounds(g.words, g.starts, k);
      assert FieldAt(g.words, g.starts, k, j);
      SameUsedValue(g, g', foreign, g.words[j]);
    }
  }

  lemma SameUsedFlags(g: Heap, g': Heap, k: nat)
    requires SameUsed(g, g')
    ensures Marked(g'.words, g.starts, k) <==> Marked(g.words, g.starts, k)
    ensures Enqueued(g'.words, g.starts, k) <==> Enqueued(g.words, g.starts, k)
  {
    if k < Count(g.starts) {
      ObjectBounds(g.words, g.starts, k);
    }
  }

  lemma SameUsedHold(g: Heap, g': Heap, foreign: iset<nat>, mem: map<nat, Word>, roots: set<nat>, fixed: set<nat>)
    requires SameUsed(g, g') && RootsHold(g, foreign, mem, roots, fixed)
    ensures RootsHold(g', foreign, mem, roots, fixed)
  {
    forall p | p in fixed
      ensures p in mem && if p in roots then Valued(g', foreign, mem[p]) else Plain(mem[p], foreign)
    {
      if p in roots {
        SameUsedValue(g, g', foreign, mem[p]);
      }
    }
  }

  lemma ExtendedHold(g: Heap, g': Heap, foreign: iset<nat>, mem: map<nat, Word>, roots: set<nat>, fixed: set<nat>)
    requires Extended(g, g') && RootsHold(g, foreign, mem, roots, fixed)
    ensures RootsHold(g', foreign, mem, roots, fixed)
  {
    forall p | p in fixed
      ensures p in mem && if p in roots then Valued(g', foreign, mem[p]) else Plain(mem[p], foreign)
    {
      if p in roots {
        ValueExtended(g, g', foreign, mem[p]);
      }
    }
  }

  /** `g'` is `g` with a last object that has header `h`, at offset `at`, clear flags, and fields still
      to be filled in. */
  ghost predicate NewLast(foreign: iset<nat>, g: Heap, g': Heap, at: nat, h: Word) {
    && Extended(g, g') && FieldsValued(g, foreign)
    && at == Used(g.starts) && Used(g'.starts) == at + Size(h)
    && g'.words[at] == h && IsHeader(h) && !GetMarkBit(g'.words[at + 1]) && !IsEnqueued(g'.words[at + 1])
    && ForeignApart(foreign, g'.base, |g'.words|)
    && (forall k: nat :: k < Count(g.starts) ==> !Marked(g.words, g.starts, k) && !Enqueued(g.words, g.starts, k))
  }

  /** Filling in the contents of the last object leaves everything else as it is. */
  lemma FilledIn(foreign: iset<nat>, g: Heap, g1: Heap, g2: Heap, at: nat, h: Word)
    requires NewLast(foreign, g, g1, at, h)
    requires g2.base == g1.base && g2.starts == g1.starts && |g2.words| == |g1.words|
    requires forall i :: 0 <= i < at + 1 ==> g2.words[i] == g1.words[i]
    requires !GetMarkBit(g2.words[at + 1]) && !IsEnqueued(g2.words[at + 1])
    ensures NewLast(foreign, g, g2, at, h)
  {
    var n := Count(g.starts);
    assert g1.starts[n] == g1.starts[..|g.starts|][n];
    forall k: nat | k < Count(g2.starts) ensures ObjAt(g2.words, g2.starts, k) {
      ObjectBounds(g1.words, g1.starts, k);
      if k < n {
        TiledPair(g1.words, g1.starts, k, n);
      }
    }
  }

  lemma LastFieldsValued(foreign: iset<nat>, g: Heap, g': Heap, at: nat, h: Word)
    requires NewLast(foreign, g, g', at, h)
    requires forall j :: at + FirstField(h) <= j < Used(g'.starts) ==> Valued(g, foreign, g'.words[j])
    ensures FieldsValued(g', foreign)
    ensures forall k: nat :: !Marked(g'.words, g'.starts, k) && !Enqueued(g'.words, g'.starts, k)
    ensures Points(ContentPtr(g'.base, at), g'.base, g'.starts, Count(g.starts))
  {
    var n := Count(g.starts);
    assert g'.starts[n] == g'.starts[..|g.starts|][n] == at;
    forall j | FieldAt(g'.words, g'.starts, n, j) ensures Valued(g', foreign, g'.words[j]) {
      ValueExtended(g, g', foreign, g'.words[j]);
    }
    ExtendedValued(g, g', foreign);
    forall k: nat ensures !Marked(g'.words, g'.starts, k) && !Enqueued(g'.words, g'.starts, k) {
      if k < n {
        ExtendedFlags(g, g', k);
      }
    }
  }

  /** `obj` points to the last object of the heap, which has header `h`. */
  ghost predicate IsNewest(g: Heap, obj: Word, h: Word) {
    && |g.starts| > 1
    && g.PointsTo(obj, Count(g.starts) - 1)
    && g.starts[Count(g.starts) - 1] < |g.words|
    && g.HeaderOf(Count(g.starts) - 1) == h
  }

  /** Storing a value in a field keeps the heap in order. */
  lemma StoreKeepsFields(g: Heap, g': Heap, foreign: iset<nat>, k: nat, j: nat, v: Word)
    requires g.Tiles() && FieldsValued(g, foreign) && Valued(g, foreign, v)
    requires FieldAt(g.words, g.starts, k, j) && g' == g.(words := g.words[j := v])
    ensures g'.Tiles() && FieldsValued(g', foreign)
    ensures forall l: nat :: (Marked(g'.words, g.starts, l) <==> Marked(g.words, g.starts, l))
                          && (Enqueued(g'.words, g.starts, l) <==> Enqueued(g.words, g.starts, l))
  {
    FieldInContents(g.words, g.starts, k, j);
    forall l: nat | l < Count(g.starts)
      ensures ObjAt(g'.words, g.starts, l) && g.starts[l] != j && g.starts[l] + 1 != j
    {
      ObjectBounds(g.words, g.starts, l);
      if g.starts[l] == j || g.starts[l] + 1 == j {
        OneOwner(g.words, g.starts, k, l, j);
      }
    }
    forall l: nat, i: int | FieldAt(g'.words, g'.starts, l, i) ensures Valued(g', foreign, g'.words[i]) {
      assert FieldAt(g.words, g.starts, l, i);
      SameStartsValued(g, g', foreign, g'.words[i]);
    }
  }

  /** So does storing into the text of a string. */
  lemma TextKeepsFields(g: Heap, g': Heap, foreign: iset<nat>, k: nat, j: nat, v: Word)
    requires g.Tiles() && FieldsValued(g, foreign) && InContents(g.starts, k, j) && j < |g.words|
    requires g.starts[k] < |g.words| && KindOf(g.HeaderOf(k)).Str? && g' == g.(words := g.words[j := v])
    ensures g'.Tiles() && FieldsValued(g', foreign)
    ensures forall l: nat :: (Marked(g'.words, g.starts, l) <==> Marked(g.words, g.starts, l))
                          && (Enqueued(g'.words, g.starts, l) <==> Enqueued(g.words, g.starts, l))
  {
    forall l: nat | l < Count(g.starts)
      ensures ObjAt(g'.words, g.starts, l) && g.starts[l] != j && g.starts[l] + 1 != j
    {
      ObjectBounds(g.words, g.starts, l);
      if g.starts[l] == j || g.starts[l] + 1 == j {
        OneOwner(g.words, g.starts, k, l, j);
      }
    }
    forall l: nat, i: int | FieldAt(g'.words, g'.starts, l, i) ensures Valued(g', foreign, g'.words[i]) {
      assert FieldAt(g.words, g.starts, l, i);
      NoTextField(g, k, l, j);
      SameStartsValued(g, g', foreign, g'.words[i]);
    }
  }

  lemma NoTextField(g: Heap, k: nat, l: nat, j: nat)
    requires g.Tiles() && InContents(g.starts, k, j) && g.starts[k] < |g.words| && KindOf(g.HeaderOf(k)).Str?
    ensures !FieldAt(g.words, g.starts, l, j)
  {
    ObjectBounds(g.words, g.starts, k);
    if FieldAt(g.words, g.starts, l, j) {
      OneOwner(g.words, g.starts, k, l, j);
    }
  }

  lemma SameStartsValued(g: Heap, g': Heap, foreign: iset<nat>, w: Word)
    requires |g.starts| > 0 && g'.base == g.base && g'.starts == g.starts
    ensures Valued(g', foreign, w) <==> Valued(g, foreign, w)
  {
    if k: nat :| g.PointsTo(w, k) {
      assert g'.PointsTo(w, k);
    }
    if k: nat :| g'.PointsTo(w, k) {
      assert g.PointsTo(w, k);
    }
  }
}
