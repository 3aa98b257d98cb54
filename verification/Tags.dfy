/** Tags from end to end: SEXP stores the hash of a name, and TAG finds it again. */
module Tags {
  import opened Words
  import opened HeapLayout
  import opened Graphs
  import opened Collector
  import opened Values
  import opened TagHash
  import Builtins

  /** The hash of a name, as an integer. */
  function HashOf(s: string): int {
    Value(Positions(Prefix(s)))
  }

  lemma HashRange(s: string)
    requires Hashable(s)
    ensures 0 <= HashOf(s) < LIMIT
  {
    KeepsPrefix(s);
  }

  /** The word of a boxed hash, and the tag field that Bsexp makes of it. */
  lemma TagField(tag: Word, h: int)
    requires 0 <= h < LIMIT && Number(tag) == 2 * h + 1
    ensures Unboxed(tag) && Number(Unbox(tag)) == h && Values.Signed(Number(Unbox(tag))) == h
  {
    UnboxNumber(tag);
  }

  /** The s-expression at `obj` has the tag of the name. */
  ghost predicate Tagged(g: Heap, obj: Word, name: string) {
    && 0 <= obj.hi - g.base < |g.words|
    && Number(g.words[obj.hi - g.base]) == HashOf(name)
  }

  /** boxing_sexp: the tag of the name is hashed, and the s-expression is built of it and the operands. It fails
      exactly for a name that cannot be hashed, or where the pool of extra roots is too small. */
  method SexpOfName(gc: Gc, name: string, n: nat, buf: array<char>, place: nat -> nat, ghost foreign: iset<nat>)
    returns (ok: bool, ghost ren: map<nat, nat>)
    requires Builtins.Ready(gc, foreign, n) && gc.FreshPlace(place, foreign)
    requires gc.top >= 1 && gc.top in gc.memory && Builtins.OnStack(gc.memory, gc.top, n)
    requires buf.Length == MAX_TAGLEN + 1
    modifies gc, gc.words, buf
    ensures ok <==> Hashable(name) && n <= MAX_EXTRA_ROOTS_NUMBER
    ensures ok ==> Builtins.BuiltFrom(gc, foreign, old(gc.Snapshot()), old(gc.memory), old(gc.top) + n,
                                      old(Builtins.Operands(gc.memory, gc.top, n)), ren, MakeHeader(Sexp, n), 1)
    ensures ok ==> gc.top + 1 in gc.memory && Tagged(gc.Snapshot(), gc.memory[gc.top + 1], name)
    ensures ok ==> Unhash(HashOf(name)) == Prefix(name)
  {
    hide Builtins.Ready, Builtins.ContentsAre, Preserved, IsNewest, Gc.FreshPlace, Builtins.OnStack;
    hide Builtins.Operands, Hashable, Value, Positions, Prefix, Unhash;
    ren := map[];
    var r := LtagHash(name, buf);
    if r.Failure? {
      return false, ren;
    }
    NameKept(name);
    var tag := WordFrom(r.boxed);
    TagField(tag, HashOf(name));
    ok, ren := Builtins.BoxingSexp(gc, tag, n, place, foreign);
  }

  lemma NameKept(s: string)
    requires Hashable(s)
    ensures 0 <= HashOf(s) < LIMIT && Unhash(HashOf(s)) == Prefix(s)
  {
    KeepsPrefix(s);
  }

  function Boxed(b: bool): int {
    if b then 3 else 1
  }

  /** Btag: the tag test of a pattern, on a boxed hash and a boxed number of elements. */
  function Btag(g: Heap, w: Word, t: Word, n: Word): int
    requires Unboxed(w) || (0 <= w.hi - g.base - HEADER_WORDS && w.hi - g.base < |g.words|)
  {
    if Unboxed(w) then Boxed(false)
    else
      var header := g.words[w.hi - g.base - HEADER_WORDS];
      Boxed(KindOf(header).Sexp? && Values.Signed(Number(g.words[w.hi - g.base])) == Unboxing(t)
            && header.hi == Unboxing(n))
  }

  /** An s-expression of the tag `name` and `n` elements matches exactly the patterns with `n` elements whose tag
      has the same first ten characters. */
  lemma TagMatches(g: Heap, obj: Word, name: string, n: nat, t: Word, other: string, m: Word, k: nat)
    requires Tagged(g, obj, name) && Hashable(name) && Hashable(other)
    requires |g.starts| > 0 && IsNewest(g, obj, MakeHeader(Sexp, n))
    requires Number(t) == 2 * HashOf(other) + 1 && Number(m) == 2 * k + 1 && k < LIMIT
    ensures Btag(g, obj, t, m) == Boxed(Prefix(name) == Prefix(other) && n == k)
  {
    hide Hashable, Value, Positions, Prefix;
    HashRange(name);
    HashRange(other);
    CollidesExactly(name, other);
    BoxedUnboxes(t, HashOf(other));
    BoxedUnboxes(m, k);
  }
}
