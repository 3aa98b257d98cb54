/** Structural comparison and hashing. */
module Structural {
  import opened Words
  import opened HeapLayout
  import opened Graphs
  import opened Values

  function TagOf(kind: Kind): int {
    match kind
    case Str => 1
    case Array => 3
    case Sexp => 5
    case Closure => 7
  }

  /** A header as a number is eight times the length, plus the tag. */
  lemma HeaderNumber(kind: Kind, len: nat)
    ensures Number(MakeHeader(kind, len)) == 8 * len + TagOf(kind)
    ensures KindOf(MakeHeader(kind, len)) == kind && IsHeader(MakeHeader(kind, len))
  {
  }

  /** The kind of an object is read off the three low bits. */
  lemma KindOfNumber(h: Word)
    requires IsHeader(h)
    ensures Number(h) % 8 == TagOf(KindOf(h)) && Number(h) / 8 == h.hi
  {
  }

  // inner_hash.

  const HASH_DEPTH := 3
  const TWO32 := 0x1_0000_0000

  /** HASH_APPEND: add, and exchange the halves. */
  function HashAppend(acc: nat, x: int): nat {
    var s := (acc + x) % TWO64;
    s % TWO32 * TWO32 + s / TWO32
  }

  function HashText(acc: nat, text: seq<nat>): nat
    decreases |text|
  {
    if text == [] then acc else HashText(HashAppend(acc, SignedChar(text[0])), text[1..])
  }

  /** What is hashed of an object before its fields. */
  function HashHead(acc: nat, kind: Kind, len: nat, first: int, text: seq<nat>): nat {
    var acc := HashAppend(HashAppend(acc, TagOf(kind)), len);
    match kind
    case Str => HashText(acc, text)
    case Array => acc
    case Closure | Sexp => HashAppend(acc, first)
  }

  ghost predicate AllAimed(g: Heap, ws: seq<Word>)
    requires |g.starts| > 0
  {
    forall i :: 0 <= i < |ws| ==> Aimed(ws[i], g.base, g.starts)
  }

  /** inner_hash. It is defined on every heap, whatever cycles it has. */
  function InnerHash(g: Heap, depth: nat, acc: nat, w: Word): nat
    requires Sound(g) && Aimed(w, g.base, g.starts)
    decreases if depth > HASH_DEPTH then 0 else HASH_DEPTH + 1 - depth, 0
  {
    if depth > HASH_DEPTH then acc
    else
      match ViewOf(g, w)
      case Integer(n) => HashAppend(acc, n)
      case Outside(a) => HashAppend(acc, a)
      case Object(kind, len, first, text, fields) =>
        FieldsSound(g, w);
        HashFields(g, depth + 1, HashHead(acc, kind, len, first, text), fields)
  }

  function HashFields(g: Heap, depth: nat, acc: nat, ws: seq<Word>): nat
    requires Sound(g) && AllAimed(g, ws)
    decreases if depth > HASH_DEPTH then 0 else HASH_DEPTH + 1 - depth, |ws| + 1
  {
    if ws == [] then acc else HashFields(g, depth, InnerHash(g, depth, acc, ws[0]), ws[1..])
  }

  /** Lhash. */
  function Lhash(g: Heap, w: Word): nat
    requires Sound(g) && Aimed(w, g.base, g.starts)
  {
    InnerHash(g, 0, 0, w) % 0x40_0000
  }

  ghost predicate AllValuedHere(g: Heap, foreign: iset<nat>, ws: seq<Word>)
    requires |g.starts| > 0
  {
    forall i :: 0 <= i < |ws| ==> Valued(g, foreign, ws[i])
  }

  lemma FieldsAreValued(g: Heap, foreign: iset<nat>, w: Word)
    requires Sound(g) && FieldsValued(g, foreign) && Aimed(w, g.base, g.starts)
    ensures ViewOf(g, w).Object? ==> AllValuedHere(g, foreign, ViewOf(g, w).fields)
  {
    var v := ViewOf(g, w);
    if v.Object? {
      InObject(g, w);
      var k := TargetOf(w, g.base, g.starts);
      ObjectBounds(g.words, g.starts, k);
      var h := g.words[g.starts[k]];
      forall i | 0 <= i < |v.fields| ensures Valued(g, foreign, v.fields[i]) {
        assert FieldAt(g.words, g.starts, k, g.starts[k] + FirstField(h) + i);
      }
    }
  }

  /** What a collection keeps: two heaps, a renaming between their graphs, and no object address that is foreign. */
  ghost predicate Moved(g: Heap, g': Heap, ren: map<nat, nat>, foreign: iset<nat>) {
    && Preserved(g, g', ren)
    && Sound(g) && Sound(g') && FieldsValued(g, foreign)
    && ForeignApart(foreign, g.base, Used(g.starts)) && ForeignApart(foreign, g'.base, Used(g'.starts))
  }

  /** The hash of a value does not depend on where the collector has put it, cycles included. */
  lemma {:induction false} HashPreserved(g: Heap, g': Heap, ren: map<nat, nat>, foreign: iset<nat>, depth: nat,
                                         acc: nat, w: Word, w': Word)
    requires Moved(g, g', ren, foreign) && WordRenamed(g, g', ren, w, w') && Valued(g, foreign, w)
    ensures Aimed(w, g.base, g.starts) && Aimed(w', g'.base, g'.starts)
    ensures InnerHash(g', depth, acc, w') == InnerHash(g, depth, acc, w)
    decreases if depth > HASH_DEPTH then 0 else HASH_DEPTH + 1 - depth, 0
  {
    hide ViewOf, HashHead, HashAppend, Preserved, Sound, WordRenamed;
    MovedParts(g, g', ren, foreign);
    ViewPreserved(g, g', ren, foreign, w, w');
    if depth <= HASH_DEPTH && ViewOf(g, w).Object? {
      var v, v' := ViewOf(g, w), ViewOf(g', w');
      FieldsSound(g, w);
      FieldsSound(g', w');
      FieldsAreValued(g, foreign, w);
      FieldsHashPreserved(g, g', ren, foreign, depth + 1, HashHead(acc, v.kind, v.len, v.first, v.text), v.fields,
                          v'.fields);
    }
  }

  lemma MovedParts(g: Heap, g': Heap, ren: map<nat, nat>, foreign: iset<nat>)
    requires Moved(g, g', ren, foreign)
    ensures Preserved(g, g', ren) && g.Tiles() && g'.Tiles() && |g.starts| > 0 && |g'.starts| > 0
  {
  }

  lemma {:induction false} FieldsHashPreserved(g: Heap, g': Heap, ren: map<nat, nat>, foreign: iset<nat>, depth: nat,
                                               acc: nat,
                                               ws: seq<Word>, ws': seq<Word>)
    requires Moved(g, g', ren, foreign)
    requires AllRenamed(g, g', ren, ws, ws') && AllValuedHere(g, foreign, ws) && AllAimed(g, ws) && AllAimed(g', ws')
    ensures HashFields(g', depth, acc, ws') == HashFields(g, depth, acc, ws)
    decreases if depth > HASH_DEPTH then 0 else HASH_DEPTH + 1 - depth, |ws| + 1
  {
    if ws != [] {
      HashPreserved(g, g', ren, foreign, depth, acc, ws[0], ws'[0]);
      FieldsHashPreserved(g, g', ren, foreign, depth, InnerHash(g, depth, acc, ws[0]), ws[1..], ws'[1..]);
    }
  }

  /** inner_hash, with its loops. */
  method HashOf(g: Heap, depth: nat, acc: nat, w: Word) returns (h: nat)
    requires Sound(g) && Aimed(w, g.base, g.starts)
    ensures h == InnerHash(g, depth, acc, w)
    decreases if depth > HASH_DEPTH then 0 else HASH_DEPTH + 1 - depth
  {
    if depth > HASH_DEPTH {
      return acc;
    }
    match ViewOf(g, w)
    case Integer(n) => h := HashAppend(acc, n);
    case Outside(a) => h := HashAppend(acc, a);
    case Object(kind, len, first, text, fields) =>
      FieldsSound(g, w);
      h := HashAppend(HashAppend(acc, TagOf(kind)), len);
      if kind.Str? {
        ghost var h0 := h;
        for i := 0 to |text|
          invariant HashText(h, text[i..]) == HashText(h0, text)
        {
          assert text[i..][1..] == text[i + 1..];
          h := HashAppend(h, SignedChar(text[i]));
        }
        assert fields == [] by { TextHasNoFields(g, w); }
      } else {
        if kind.Closure? || kind.Sexp? {
          h := HashAppend(h, first);
        }
        ghost var h0 := h;
        assert fields[0..] == fields;
        for i := 0 to |fields|
          invariant HashFields(g, depth + 1, h, fields[i..]) == HashFields(g, depth + 1, h0, fields)
        {
          assert fields[i..][1..] == fields[i + 1..];
          h := HashOf(g, depth + 1, h, fields[i]);
        }
      }
  }

  lemma TextHasNoFields(g: Heap, w: Word)
    requires Sound(g) && Aimed(w, g.base, g.starts)
    ensures ViewOf(g, w).Object? && ViewOf(g, w).kind.Str? ==> ViewOf(g, w).fields == []
  {
    if !Unboxed(w) && InRange(w, g.base, Used(g.starts)) {
      InObject(g, w);
    }
  }

  // Lcompare, on the values that acyclic words stand for.

  /** An acyclic value as a tree. */
  datatype Value =
    | Int(n: int)
    | Far(a: int)
    | Text(len: nat, text: seq<nat>)
    | Node(kind: Kind, len: nat, first: int, fields: seq<Value>)

  ghost predicate Denotes(g: Heap, w: Word, v: Value)
    requires Sound(g) && Aimed(w, g.base, g.starts)
    decreases v
  {
    FieldsSound(g, w);
    match ViewOf(g, w)
    case Integer(n) => v == Int(n)
    case Outside(a) => v == Far(a)
    case Object(kind, len, first, text, fields) =>
      if kind.Str? then v == Text(len, text)
      else
        && v.Node? && v.kind == kind && v.len == len && v.first == first && |v.fields| == |fields|
        && forall i :: 0 <= i < |fields| ==> Denotes(g, fields[i], v.fields[i])
  }

  /** BOX keeps 63 bits of a difference. */
  function Boxed(x: int): int {
    (x + 0x4000_0000_0000_0000) % TWO63 - 0x4000_0000_0000_0000
  }

  function StrCmp(a: seq<nat>, b: seq<nat>): int {
    if a == [] || b == [] then (if a == [] then 0 else a[0]) - (if b == [] then 0 else b[0])
    else if a[0] != b[0] then a[0] - b[0]
    else StrCmp(a[1..], b[1..])
  }

  /** Integers come before objects, and objects before other addresses. */
  function Class(v: Value): int {
    match v
    case Int(_) => 0
    case Text(_, _) => 1
    case Node(_, _, _, _) => 1
    case Far(_) => 2
  }

  function KindIn(v: Value): int {
    match v
    case Node(kind, _, _, _) => TagOf(kind)
    case _ => TagOf(Str)
  }

  /** What Lcompare finds without looking at fields. */
  function CompareHeads(v: Value, u: Value): int {
    if Class(v) < Class(u) then -1
    else if Class(v) > Class(u) then 1
    else if v.Int? then Boxed(v.n - u.n)
    else if v.Far? then Boxed(v.a - u.a)
    else if KindIn(v) != KindIn(u) then Boxed(KindIn(v) - KindIn(u))
    else if v.Text? && u.Text? then StrCmp(v.text, u.text)
    else if !(v.Node? && u.Node?) then 0
    else if v.first != u.first then Boxed(v.first - u.first)
    else if v.len != u.len then Boxed(v.len - u.len)
    else 0
  }

  /** Everything but the fields is the same. */
  predicate SameHeads(v: Value, u: Value) {
    match (v, u)
    case (Text(_, a), Text(_, b)) => a == b
    case (Node(k, l, f, vs), Node(k', l', f', us)) => k == k' && l == l' && f == f'
    case _ => v == u
  }

  function Compare(v: Value, u: Value): int
    decreases v, 1, 0
  {
    if v.Node? && u.Node? && SameHeads(v, u) then CompareFields(v, u, 0) else CompareHeads(v, u)
  }

  function CompareFields(v: Value, u: Value, i: nat): int
    requires v.Node? && u.Node?
    decreases v, 0, if i <= |v.fields| then |v.fields| - i else 0
  {
    if i >= |v.fields| || i >= |u.fields| then 0
    else
      var c := Compare(v.fields[i], u.fields[i]);
      if c != 0 then c else CompareFields(v, u, i + 1)
  }

  // The order that Lcompare is meant to compute: the same comparisons, with differences that are not cut.

  function ExactHeads(v: Value, u: Value): int {
    if Class(v) != Class(u) then Class(v) - Class(u)
    else if v.Int? then v.n - u.n
    else if v.Far? then v.a - u.a
    else if KindIn(v) != KindIn(u) then KindIn(v) - KindIn(u)
    else if v.Text? && u.Text? then StrCmp(v.text, u.text)
    else if !(v.Node? && u.Node?) then 0
    else if v.first != u.first then v.first - u.first
    else v.len - u.len
  }

  function Exact(v: Value, u: Value): int
    decreases v, 1, 0
  {
    if v.Node? && u.Node? && SameHeads(v, u) then ExactFields(v, u, 0) else ExactHeads(v, u)
  }

  function ExactFields(v: Value, u: Value, i: nat): int
    requires v.Node? && u.Node?
    decreases v, 0, if i <= |v.fields| then |v.fields| - i else 0
  {
    if i >= |v.fields| || i >= |u.fields| then 0
    else
      var c := Exact(v.fields[i], u.fields[i]);
      if c != 0 then c else ExactFields(v, u, i + 1)
  }

  /** The number of fields is the one that the header says. */
  predicate Formed(v: Value) {
    match v
    case Node(kind, len, first, fields) =>
      && !kind.Str?
      && (kind.Array? ==> first == 0)
      && |fields| == (if kind.Closure? && len > 0 then len - 1 else len)
      && forall i :: 0 <= i < |fields| ==> Formed(fields[i])
    case _ => true
  }

  /** Equal but for what follows the first NUL of a string. */
  predicate Same(v: Value, u: Value) {
    match (v, u)
    case (Text(_, a), Text(_, b)) => a == b
    case (Node(k, l, f, vs), Node(k', l', f', us)) =>
      k == k' && l == l' && f == f' && |vs| == |us| && forall i :: 0 <= i < |vs| ==> Same(vs[i], us[i])
    case _ => v == u
  }

  ghost predicate AllPositive(a: seq<nat>) {
    forall i :: 0 <= i < |a| ==> a[i] > 0
  }

  lemma {:induction false} StrCmpOrder(a: seq<nat>, b: seq<nat>, c: seq<nat>)
    requires AllPositive(a) && AllPositive(b) && AllPositive(c)
    ensures StrCmp(b, a) == -StrCmp(a, b)
    ensures StrCmp(a, b) == 0 <==> a == b
    ensures StrCmp(a, b) <= 0 && StrCmp(b, c) <= 0 ==> StrCmp(a, c) <= 0
    ensures StrCmp(a, b) <= 0 && StrCmp(b, c) <= 0 && (StrCmp(a, b) < 0 || StrCmp(b, c) < 0) ==> StrCmp(a, c) < 0
    decreases |a| + |b| + |c|
  {
    if a != [] && b != [] {
      if c != [] {
        StrCmpOrder(a[1..], b[1..], c[1..]);
      } else {
        StrCmpOrder(a[1..], b[1..], []);
      }
      assert a == [a[0]] + a[1..] && b == [b[0]] + b[1..];
    }
  }

  /** The texts of strings end before their first NUL. */
  ghost predicate Texts(v: Value) {
    match v
    case Text(_, a) => AllPositive(a)
    case Node(_, _, _, fields) => forall i :: 0 <= i < |fields| ==> Texts(fields[i])
    case _ => true
  }

  /** What every word stands for, if for anything. */
  ghost predicate Ordinary(v: Value) {
    Formed(v) && Texts(v)
  }

  lemma FieldOrdinary(v: Value, i: nat)
    requires v.Node? && Ordinary(v) && i < |v.fields|
    ensures Ordinary(v.fields[i])
  {
  }

  // Which way the order goes.

  /** The texts agree up to `k`, and there `a` ends or has the smaller byte. */
  predicate LessAt(a: seq<nat>, b: seq<nat>, k: nat) {
    && k <= |a| && k <= |b| && a[..k] == b[..k]
    && ((k == |a| && k < |b|) || (k < |a| && k < |b| && a[k] < b[k]))
  }

  predicate LessText(a: seq<nat>, b: seq<nat>) {
    exists k: nat :: k <= |a| && LessAt(a, b, k)
  }

  lemma {:induction false} StrCmpLess(a: seq<nat>, b: seq<nat>)
    requires AllPositive(a) && AllPositive(b)
    ensures StrCmp(a, b) < 0 <==> LessText(a, b)
  {
    if a == [] || b == [] || a[0] != b[0] {
      if StrCmp(a, b) < 0 {
        assert LessAt(a, b, 0);
      }
    } else {
      StrCmpLess(a[1..], b[1..]);
      if StrCmp(a, b) < 0 {
        var k: nat :| k <= |a[1..]| && LessAt(a[1..], b[1..], k);
        assert a[..k + 1] == [a[0]] + a[1..][..k] && b[..k + 1] == [b[0]] + b[1..][..k];
        assert LessAt(a, b, k + 1);
      }
      if LessText(a, b) {
        var k: nat :| k <= |a| && LessAt(a, b, k);
        assert a[1..][..k - 1] == a[..k][1..] && b[1..][..k - 1] == b[..k][1..];
        assert LessAt(a[1..], b[1..], k - 1);
      }
    }
  }

  /** Arrays come before s-expressions, and these before closures. */
  predicate KindBefore(k: Kind, k': Kind) {
    match k
    case Str => !k'.Str?
    case Array => k'.Sexp? || k'.Closure?
    case Sexp => k'.Closure?
    case Closure => false
  }

  /** Integers come first, then strings, other objects, and addresses outside of the heap. Two objects of a kind
      go by their first word, their length, and the first field in which they differ. */
  ghost predicate Precedes(v: Value, u: Value)
    decreases v
  {
    match v
    case Int(m) => u.Int? ==> m < u.n
    case Text(_, a) => if u.Text? then LessText(a, u.text) else !u.Int?
    case Far(a) => u.Far? && a < u.a
    case Node(k, l, f, vs) =>
      || u.Far?
      || (u.Node? &&
          if k != u.kind then KindBefore(k, u.kind)
          else if f != u.first then f < u.first
          else if l != u.len then l < u.len
          else exists i :: 0 <= i < |vs| && i < |u.fields| && SameUpTo(v, u, i) && Precedes(vs[i], u.fields[i]))
  }

  predicate SameUpTo(v: Value, u: Value, i: nat)
    requires v.Node? && u.Node? && i <= |v.fields| && i <= |u.fields|
  {
    forall j :: 0 <= j < i ==> Same(v.fields[j], u.fields[j])
  }

  /** That is the order whose sign Lcompare is meant to have. */
  lemma {:induction false} ExactPrecedes(v: Value, u: Value)
    requires Ordinary(v) && Ordinary(u)
    ensures Exact(v, u) < 0 <==> Precedes(v, u)
    decreases v, 1, 0
  {
    if v.Text? && u.Text? {
      StrCmpLess(v.text, u.text);
    } else if v.Node? && u.Node? && SameHeads(v, u) {
      SameCount(v, u);
      FieldsPrecede(v, u, 0);
    }
  }

  lemma {:induction false} FieldsPrecede(v: Value, u: Value, i: nat)
    requires Ordinary(v) && Ordinary(u) && v.Node? && u.Node? && SameHeads(v, u)
    requires |u.fields| == |v.fields| && i <= |v.fields| && SameUpTo(v, u, i)
    ensures ExactFields(v, u, i) < 0 <==>
            exists k :: i <= k < |v.fields| && SameUpTo(v, u, k) && Precedes(v.fields[k], u.fields[k])
    decreases v, 0, |v.fields| - i
  {
    if i < |v.fields| {
      FieldOrdinary(v, i);
      FieldOrdinary(u, i);
      ExactAntisymmetric(v.fields[i], u.fields[i]);
      ExactPrecedes(v.fields[i], u.fields[i]);
      if Same(v.fields[i], u.fields[i]) {
        assert SameUpTo(v, u, i + 1);
        FieldsPrecede(v, u, i + 1);
      }
    }
  }

  lemma HeadsOrdered(v: Value, u: Value)
    requires Ordinary(v) && Ordinary(u)
    ensures ExactHeads(u, v) == -ExactHeads(v, u)
    ensures ExactHeads(v, u) == 0 <==> SameHeads(v, u)
  {
    if v.Text? && u.Text? {
      StrCmpOrder(v.text, u.text, []);
    }
  }

  lemma HeadsTransitive(v: Value, u: Value, t: Value)
    requires Ordinary(v) && Ordinary(u) && Ordinary(t)
    requires ExactHeads(v, u) <= 0 && ExactHeads(u, t) <= 0
    ensures ExactHeads(v, t) <= 0
    ensures ExactHeads(v, u) < 0 || ExactHeads(u, t) < 0 ==> ExactHeads(v, t) < 0
  {
    if v.Text? && u.Text? && t.Text? {
      StrCmpOrder(v.text, u.text, t.text);
    }
  }

  /** Reversing the arguments reverses the sign, and zero means the same value. */
  lemma {:induction false} ExactAntisymmetric(v: Value, u: Value)
    requires Ordinary(v) && Ordinary(u)
    ensures Exact(u, v) == -Exact(v, u)
    ensures Exact(v, u) == 0 <==> Same(v, u)
    decreases v, 1, 0
  {
    hide ExactHeads, Ordinary;
    HeadsOrdered(v, u);
    if v.Node? && u.Node? && SameHeads(v, u) {
      SameCount(v, u);
      FieldsAntisymmetric(v, u, 0);
    }
  }

  lemma SameCount(v: Value, u: Value)
    requires v.Node? && u.Node? && Ordinary(v) && Ordinary(u) && SameHeads(v, u)
    ensures |v.fields| == |u.fields|
  {
  }

  lemma {:induction false} FieldsAntisymmetric(v: Value, u: Value, i: nat)
    requires v.Node? && u.Node? && Ordinary(v) && Ordinary(u) && |v.fields| == |u.fields| && i <= |v.fields|
    ensures ExactFields(u, v, i) == -ExactFields(v, u, i)
    ensures ExactFields(v, u, i) == 0 <==> forall j :: i <= j < |v.fields| ==> Same(v.fields[j], u.fields[j])
    decreases v, 0, |v.fields| - i
  {
    if i < |v.fields| {
      FieldOrdinary(v, i);
      FieldOrdinary(u, i);
      ExactAntisymmetric(v.fields[i], u.fields[i]);
      FieldsAntisymmetric(v, u, i + 1);
    }
  }

  lemma {:induction false} ExactTransitive(v: Value, u: Value, t: Value)
    requires Ordinary(v) && Ordinary(u) && Ordinary(t)
    requires Exact(v, u) <= 0 && Exact(u, t) <= 0
    ensures Exact(v, t) <= 0
    ensures Exact(v, u) < 0 || Exact(u, t) < 0 ==> Exact(v, t) < 0
    decreases v, 1, 0
  {
    hide ExactHeads, Ordinary;
    HeadsOrdered(v, u);
    HeadsOrdered(u, t);
    HeadsOrdered(v, t);
    HeadsTransitive(v, u, t) by { HeadsBelow(v, u); HeadsBelow(u, t); }
    if v.Node? && u.Node? && t.Node? && SameHeads(v, u) && SameHeads(u, t) {
      SameCount(v, u);
      SameCount(u, t);
      FieldsTransitive(v, u, t, 0);
    }
  }

  lemma HeadsBelow(v: Value, u: Value)
    requires Exact(v, u) <= 0
    ensures ExactHeads(v, u) <= 0
  {
  }

  lemma {:induction false} FieldsTransitive(v: Value, u: Value, t: Value, i: nat)
    requires v.Node? && u.Node? && t.Node? && Ordinary(v) && Ordinary(u) && Ordinary(t)
    requires |v.fields| == |u.fields| == |t.fields| && i <= |v.fields|
    requires ExactFields(v, u, i) <= 0 && ExactFields(u, t, i) <= 0
    ensures ExactFields(v, t, i) <= 0
    ensures ExactFields(v, u, i) < 0 || ExactFields(u, t, i) < 0 ==> ExactFields(v, t, i) < 0
    decreases v, 0, |v.fields| - i
  {
    if i < |v.fields| {
      FieldOrdinary(v, i);
      FieldOrdinary(u, i);
      FieldOrdinary(t, i);
      ExactTransitive(v.fields[i], u.fields[i], t.fields[i]);
      if Exact(v.fields[i], u.fields[i]) == 0 && Exact(u.fields[i], t.fields[i]) == 0 {
        ZeroTransitive(v.fields[i], u.fields[i], t.fields[i]);
        FieldsTransitive(v, u, t, i + 1);
      }
    }
  }

  lemma ZeroTransitive(v: Value, u: Value, t: Value)
    requires Ordinary(v) && Ordinary(u) && Ordinary(t)
    requires Exact(v, u) == 0 && Exact(u, t) == 0
    ensures Exact(v, t) == 0
  {
    ExactAntisymmetric(v, u);
    ExactAntisymmetric(u, t);
    ExactAntisymmetric(v, t);
    SameTransitive(v, u, t);
  }

  lemma {:induction false} SameTransitive(v: Value, u: Value, t: Value)
    requires Same(v, u) && Same(u, t)
    ensures Same(v, t)
  {
    if v.Node? {
      forall i | 0 <= i < |v.fields| ensures Same(v.fields[i], t.fields[i]) {
        SameTransitive(v.fields[i], u.fields[i], t.fields[i]);
      }
    }
  }

  // When Lcompare computes it.

  const TWO62 := 0x4000_0000_0000_0000

  /** Integers have 63 bits; so have addresses, lengths, tags and code words in practice. */
  predicate InRange63(x: int) {
    -TWO62 <= x < TWO62
  }

  predicate Ranged(v: Value) {
    match v
    case Int(n) => InRange63(n)
    case Far(a) => InRange63(a)
    case Text(_, _) => true
    case Node(_, len, first, fields) => InRange63(len) && InRange63(first) && forall i :: 0 <= i < |fields| ==>
        Ranged(fields[i])
  }

  predicate SameSign(x: int, y: int) {
    (x < 0 <==> y < 0) && (x == 0 <==> y == 0)
  }

  /** BOX of the difference of two numbers with 63 bits: its sign is right, and it is the difference, exactly
      if that has 63 bits too; it is zero exactly if the numbers are the same. */
  lemma BoxedSign(x: int, y: int)
    requires InRange63(x) && InRange63(y)
    ensures SameSign(Boxed(x - y), x - y) <==> InRange63(x - y)
    ensures Boxed(x - y) == x - y <==> InRange63(x - y)
    ensures Boxed(x - y) == 0 <==> x == y
  {
  }

  /** The difference that decides the comparison of `v` and `u` without their fields has 63 bits. */
  predicate HeadsFit(v: Value, u: Value) {
    if v.Int? && u.Int? then InRange63(v.n - u.n)
    else if v.Far? && u.Far? then InRange63(v.a - u.a)
    else if v.Node? && u.Node? && v.kind == u.kind then
      if v.first != u.first then InRange63(v.first - u.first) else InRange63(v.len - u.len)
    else true
  }

  /** The difference that decides the comparison of `v` and `u` has 63 bits. */
  predicate Fits(v: Value, u: Value)
    decreases v, 1, 0
  {
    if v.Node? && u.Node? && SameHeads(v, u) then FieldsFit(v, u, 0) else HeadsFit(v, u)
  }

  predicate FieldsFit(v: Value, u: Value, i: nat)
    requires v.Node? && u.Node?
    decreases v, 0, if i <= |v.fields| then |v.fields| - i else 0
  {
    if i >= |v.fields| || i >= |u.fields| then true
    else if Same(v.fields[i], u.fields[i]) then FieldsFit(v, u, i + 1)
    else Fits(v.fields[i], u.fields[i])
  }

  lemma HeadsCompared(v: Value, u: Value)
    requires Ordinary(v) && Ordinary(u) && Ranged(v) && Ranged(u)
    ensures CompareHeads(v, u) == 0 <==> SameHeads(v, u)
    ensures HeadsFit(v, u) <==> SameSign(CompareHeads(v, u), ExactHeads(v, u))
  {
    if v.Int? && u.Int? {
      BoxedSign(v.n, u.n);
    } else if v.Far? && u.Far? {
      BoxedSign(v.a, u.a);
    } else if v.Text? && u.Text? {
      StrCmpOrder(v.text, u.text, []);
    } else {
      BoxedSign(KindIn(v), KindIn(u));
      if v.Node? && u.Node? {
        BoxedSign(v.first, u.first);
        BoxedSign(v.len, u.len);
      }
      hide Boxed;
    }
  }

  lemma FieldRanged(v: Value, i: nat)
    requires v.Node? && Ranged(v) && i < |v.fields|
    ensures Ranged(v.fields[i])
  {
  }

  /** Lcompare is zero exactly on values that are the same, and has the sign of the order exactly where the
      difference that decides has 63 bits. */
  lemma {:induction false} CompareRight(v: Value, u: Value)
    requires Ordinary(v) && Ordinary(u) && Ranged(v) && Ranged(u)
    ensures Compare(v, u) == 0 <==> Same(v, u)
    ensures Fits(v, u) <==> SameSign(Compare(v, u), Exact(v, u))
    decreases v, 1, 0
  {
    hide CompareHeads, ExactHeads, HeadsFit, Ordinary, Ranged;
    HeadsCompared(v, u);
    HeadsOrdered(v, u);
    if v.Node? && u.Node? && SameHeads(v, u) {
      SameCount(v, u);
      FieldsRight(v, u, 0);
    }
  }

  lemma {:induction false} FieldsRight(v: Value, u: Value, i: nat)
    requires v.Node? && u.Node? && Ordinary(v) && Ordinary(u) && Ranged(v) && Ranged(u) && |v.fields| == |u.fields|
    requires i <= |v.fields|
    ensures CompareFields(v, u, i) == 0 <==> forall j :: i <= j < |v.fields| ==> Same(v.fields[j], u.fields[j])
    ensures FieldsFit(v, u, i) <==> SameSign(CompareFields(v, u, i), ExactFields(v, u, i))
    decreases v, 0, |v.fields| - i
  {
    if i < |v.fields| {
      FieldOrdinary(v, i);
      FieldOrdinary(u, i);
      FieldRanged(v, i);
      FieldRanged(u, i);
      CompareRight(v.fields[i], u.fields[i]);
      ExactAntisymmetric(v.fields[i], u.fields[i]);
      FieldsRight(v, u, i + 1);
    }
  }

  const TWO61 := 0x2000_0000_0000_0000

  /** Numbers below 2^61 are small enough for every difference. */
  predicate Small(v: Value) {
    match v
    case Int(n) => -TWO61 <= n < TWO61
    case Far(a) => -TWO61 <= a < TWO61
    case Text(_, _) => true
    case Node(_, len, first, fields) =>
      len < TWO61 && -TWO61 <= first < TWO61 && forall i :: 0 <= i < |fields| ==> Small(fields[i])
  }

  lemma {:induction false} SmallFits(v: Value, u: Value)
    requires Small(v) && Small(u)
    ensures Fits(v, u)
    decreases v, 1, 0
  {
    if v.Node? && u.Node? && SameHeads(v, u) {
      SmallFieldsFit(v, u, 0);
    }
  }

  lemma {:induction false} SmallFieldsFit(v: Value, u: Value, i: nat)
    requires v.Node? && u.Node? && Small(v) && Small(u)
    ensures FieldsFit(v, u, i)
    decreases v, 0, if i <= |v.fields| then |v.fields| - i else 0
  {
    if i < |v.fields| && i < |u.fields| {
      SmallFits(v.fields[i], u.fields[i]);
      SmallFieldsFit(v, u, i + 1);
    }
  }

  /** So it is antisymmetric for two values, */
  lemma CompareAntisymmetric(v: Value, u: Value)
    requires Ordinary(v) && Ordinary(u) && Ranged(v) && Ranged(u)
    requires Fits(v, u) && Fits(u, v)
    ensures SameSign(Compare(u, v), -Compare(v, u))
  {
    CompareRight(v, u);
    CompareRight(u, v);
    ExactAntisymmetric(v, u);
  }

  /** and transitive for three. */
  lemma CompareTransitive(v: Value, u: Value, t: Value)
    requires Ordinary(v) && Ordinary(u) && Ordinary(t) && Ranged(v) && Ranged(u) && Ranged(t)
    requires Fits(v, u) && Fits(u, t) && Fits(v, t)
    requires Compare(v, u) <= 0 && Compare(u, t) <= 0
    ensures Compare(v, t) <= 0
    ensures Compare(v, u) < 0 || Compare(u, t) < 0 ==> Compare(v, t) < 0
  {
    CompareRight(v, u);
    CompareRight(u, t);
    CompareRight(v, t);
    ExactTransitive(v, u, t);
  }

  /** With whole strings, zero means equal. */
  predicate NoNul(v: Value) {
    match v
    case Text(len, text) => |text| == len
    case Node(_, _, _, fields) => forall i :: 0 <= i < |fields| ==> NoNul(fields[i])
    case _ => true
  }

  lemma {:induction false} SameIsEqual(v: Value, u: Value)
    requires Same(v, u) && NoNul(v) && NoNul(u)
    ensures v == u
  {
    if v.Node? {
      forall i | 0 <= i < |v.fields| ensures v.fields[i] == u.fields[i] {
        SameIsEqual(v.fields[i], u.fields[i]);
      }
      assert v.fields == u.fields;
    }
  }

  /** The greatest integer and -1: the difference does not fit, and the greater one is found less. */
  lemma LargeIntegersMisordered()
    ensures var v, u := Int(TWO62 - 1), Int(-1);
            Ranged(v) && Ranged(u) && v.n > u.n && Compare(v, u) < 0 && !Fits(v, u)
  {
  }

  /** With a NUL inside zero does not mean equal: these have different lengths. */
  lemma NulHidesTheRest()
    ensures Compare(Text(1, []), Text(2, [])) == 0 && Text(1, []) != Text(2, []) && !NoNul(Text(1, []))
  {
  }

  // Words that denote the same value.

  lemma {:induction false} DenotesOne(g: Heap, w: Word, v: Value, u: Value)
    requires Sound(g) && Aimed(w, g.base, g.starts) && Denotes(g, w, v) && Denotes(g, w, u)
    ensures v == u
    decreases v
  {
    FieldsSound(g, w);
    var view := ViewOf(g, w);
    if view.Object? && !view.kind.Str? {
      forall i | 0 <= i < |v.fields| ensures v.fields[i] == u.fields[i] {
        DenotesOne(g, view.fields[i], v.fields[i], u.fields[i]);
      }
      assert v.fields == u.fields;
    }
  }

  /** inner_hash on a value. */
  function ValueHash(depth: nat, acc: nat, v: Value): nat
    decreases v, 1, 0
  {
    if depth > HASH_DEPTH then acc
    else
      match v
      case Int(n) => HashAppend(acc, n)
      case Far(a) => HashAppend(acc, a)
      case Text(len, text) => HashHead(acc, Str, len, 0, text)
      case Node(kind, len, first, fields) => ValueHashFrom(depth + 1, HashHead(acc, kind, len, first, []), v, 0)
  }

  function ValueHashFrom(depth: nat, acc: nat, v: Value, i: nat): nat
    requires v.Node?
    decreases v, 0, if i <= |v.fields| then |v.fields| - i else 0
  {
    if i >= |v.fields| then acc else ValueHashFrom(depth, ValueHash(depth, acc, v.fields[i]), v, i + 1)
  }

  lemma HashDepthReached(g: Heap, depth: nat, acc: nat, ws: seq<Word>)
    requires Sound(g) && AllAimed(g, ws) && depth > HASH_DEPTH
    ensures HashFields(g, depth, acc, ws) == acc
    decreases |ws|
  {
    if ws != [] {
      HashDepthReached(g, depth, acc, ws[1..]);
    }
  }

  lemma {:induction false} HashIsOfValue(g: Heap, depth: nat, acc: nat, w: Word, v: Value)
    requires Sound(g) && Aimed(w, g.base, g.starts) && Denotes(g, w, v)
    ensures InnerHash(g, depth, acc, w) == ValueHash(depth, acc, v)
    decreases v, 1, 0
  {
    hide HashAppend, HashText;
    FieldsSound(g, w);
    if depth <= HASH_DEPTH && ViewOf(g, w).Object? {
      var view := ViewOf(g, w);
      if view.kind.Str? {
        TextHasNoFields(g, w);
      } else {
        FieldsHashOfValue(g, depth + 1, HashHead(acc, view.kind, view.len, view.first, view.text), view.fields, v, 0);
      }
    }
  }

  lemma {:induction false} FieldsHashOfValue(g: Heap, depth: nat, acc: nat, ws: seq<Word>, v: Value, i: nat)
    requires Sound(g) && AllAimed(g, ws) && v.Node? && |ws| == |v.fields| && i <= |ws|
    requires forall j :: 0 <= j < |ws| ==> Denotes(g, ws[j], v.fields[j])
    ensures HashFields(g, depth, acc, ws[i..]) == ValueHashFrom(depth, acc, v, i)
    decreases v, 0, |ws| - i
  {
    if i < |ws| {
      HashIsOfValue(g, depth, acc, ws[i], v.fields[i]);
      FieldsHashOfValue(g, depth, InnerHash(g, depth, acc, ws[i]), ws, v, i + 1);
      assert ws[i..][1..] == ws[i + 1..];
    }
  }

  // What the hash is a number of.

  /** One step adds, and exchanges the two halves of the sum. */
  lemma HalvesExchanged(acc: nat, x: int, high: nat, low: nat)
    requires low < TWO32 && (acc + x) % TWO64 == TWO32 * high + low
    ensures HashAppend(acc, x) == TWO32 * low + high
  {
  }

  function Folded(acc: nat, xs: seq<int>): nat
    decreases |xs|
  {
    if xs == [] then acc else Folded(HashAppend(acc, xs[0]), xs[1..])
  }

  function Chars(text: seq<nat>): (xs: seq<int>)
    ensures |xs| == |text| && forall i :: 0 <= i < |xs| ==> xs[i] == SignedChar(text[i])
  {
    seq(|text|, i requires 0 <= i < |text| => SignedChar(text[i]))
  }

  /** The numbers that are hashed, down to `levels` levels: tag and length of an object, its characters or its
      first word, and its fields in order. */
  function Listing(levels: nat, v: Value): seq<int>
    decreases v, 1, 0
  {
    if levels == 0 then []
    else
      match v
      case Int(n) => [n]
      case Far(a) => [a]
      case Text(len, text) => [1, len] + Chars(text)
      case Node(kind, len, first, _) =>
        (match kind
         case Str => [1, len]
         case Array => [3, len]
         case Sexp => [5, len, first]
         case Closure => [7, len, first]) + FieldListing(levels - 1, v, 0)
  }

  function FieldListing(levels: nat, v: Value, i: nat): seq<int>
    requires v.Node?
    decreases v, 0, if i <= |v.fields| then |v.fields| - i else 0
  {
    if i >= |v.fields| then [] else Listing(levels, v.fields[i]) + FieldListing(levels, v, i + 1)
  }

  lemma {:induction false} FoldedOn(acc: nat, xs: seq<int>, ys: seq<int>)
    ensures Folded(acc, xs + ys) == Folded(Folded(acc, xs), ys)
    decreases |xs|
  {
    if xs == [] {
      assert xs + ys == ys;
    } else {
      assert (xs + ys)[1..] == xs[1..] + ys;
      FoldedOn(HashAppend(acc, xs[0]), xs[1..], ys);
    }
  }

  lemma {:induction false} TextFolded(acc: nat, text: seq<nat>)
    ensures HashText(acc, text) == Folded(acc, Chars(text))
    decreases |text|
  {
    hide HashAppend, SignedChar;
    if text != [] {
      assert Chars(text)[1..] == Chars(text[1..]);
      TextFolded(HashAppend(acc, SignedChar(text[0])), text[1..]);
    }
  }

  lemma FoldedTwo(acc: nat, x: int, y: int, xs: seq<int>)
    ensures Folded(acc, [x, y] + xs) == Folded(HashAppend(HashAppend(acc, x), y), xs)
  {
    hide HashAppend;
    assert ([x, y] + xs)[1..] == [y] + xs && ([y] + xs)[1..] == xs;
  }

  lemma FoldedThree(acc: nat, x: int, y: int, z: int, xs: seq<int>)
    ensures Folded(acc, [x, y, z] + xs) == Folded(HashAppend(HashAppend(HashAppend(acc, x), y), z), xs)
  {
    hide HashAppend;
    FoldedTwo(acc, x, y, [z] + xs);
    assert [x, y, z] + xs == [x, y] + ([z] + xs) && ([z] + xs)[1..] == xs;
  }

  /** inner_hash folds HASH_APPEND over the numbers of the first four levels. */
  lemma {:induction false} HashFolds(depth: nat, acc: nat, v: Value)
    requires Formed(v)
    ensures ValueHash(depth, acc, v) == Folded(acc, Listing(if depth <= 3 then 4 - depth else 0, v))
    decreases v, 1, 0
  {
    hide HashAppend, SignedChar;
    if depth <= 3 {
      match v
      case Int(n) => assert [n][1..] == [];
      case Far(a) => assert [a][1..] == [];
      case Text(len, text) =>
        FoldedTwo(acc, 1, len, Chars(text));
        TextFolded(HashAppend(HashAppend(acc, 1), len), text);
      case Node(kind, len, first, _) =>
        var rest := FieldListing(3 - depth, v, 0);
        FieldsFold(depth + 1, HashHead(acc, kind, len, first, []), v, 0);
        if kind.Array? {
          FoldedTwo(acc, 3, len, rest);
        } else {
          FoldedThree(acc, TagOf(kind), len, first, rest);
        }
    }
  }

  lemma {:induction false} FieldsFold(depth: nat, acc: nat, v: Value, i: nat)
    requires v.Node? && Formed(v) && 1 <= depth <= 4
    ensures ValueHashFrom(depth, acc, v, i) == Folded(acc, FieldListing(4 - depth, v, i))
    decreases v, 0, if i <= |v.fields| then |v.fields| - i else 0
  {
    if i < |v.fields| {
      HashFolds(depth, acc, v.fields[i]);
      FieldsFold(depth, ValueHash(depth, acc, v.fields[i]), v, i + 1);
      FoldedOn(acc, Listing(4 - depth, v.fields[i]), FieldListing(4 - depth, v, i + 1));
    }
  }

  /** Lhash of a word that stands for a value. */
  lemma HashIsListing(g: Heap, w: Word, v: Value)
    requires Sound(g) && Aimed(w, g.base, g.starts) && Denotes(g, w, v)
    ensures Lhash(g, w) == Folded(0, Listing(4, v)) % 0x40_0000
  {
    DenotesOrdinary(g, w, v);
    HashIsOfValue(g, 0, 0, w, v);
    HashFolds(0, 0, v);
  }

  /** The hash of an integer is 22 bits of its upper half, so zero for all from 0 to 2^32 - 1. */
  lemma IntegerHash(g: Heap, w: Word)
    requires Sound(g) && Aimed(w, g.base, g.starts) && Unboxed(w)
    ensures Lhash(g, w) == Unboxing(w) % TWO64 / TWO32 % 0x40_0000
    ensures 0 <= Unboxing(w) < TWO32 ==> Lhash(g, w) == 0
  {
    var s := Unboxing(w) % TWO64;
    assert (s % TWO32 * TWO32 + s / TWO32) % 0x40_0000 == s / TWO32 % 0x40_0000;
  }

  lemma {:induction false} CStringPositive(ws: seq<Word>, i: nat, limit: nat)
    requires i <= limit <= 8 * |ws|
    ensures AllPositive(CString(ws, i, limit))
    decreases limit - i
  {
    if i < limit {
      CStringPositive(ws, i + 1, limit);
    }
  }

  /** Whatever a word stands for is ordinary. */
  lemma {:induction false} DenotesOrdinary(g: Heap, w: Word, v: Value)
    requires Sound(g) && Aimed(w, g.base, g.starts) && Denotes(g, w, v)
    ensures Ordinary(v) && (v.Int? ==> Ranged(v))
    decreases v
  {
    hide CString, ByteIn;
    FieldsSound(g, w);
    ViewFormed(g, w);
    var view := ViewOf(g, w);
    if view.Object? && !view.kind.Str? {
      forall i | 0 <= i < |v.fields| ensures Ordinary(v.fields[i]) {
        DenotesOrdinary(g, view.fields[i], v.fields[i]);
      }
    }
  }

  lemma ViewFormed(g: Heap, w: Word)
    requires Sound(g) && Aimed(w, g.base, g.starts)
    ensures var view := ViewOf(g, w);
            view.Object? ==>
              && AllPositive(view.text)
              && (view.kind.Array? ==> view.first == 0)
              && (!view.kind.Str? ==>
                  |view.fields| == if view.kind.Closure? && view.len > 0 then view.len - 1 else view.len)
  {
    hide CString, ByteIn, Number;
    if !Unboxed(w) && InRange(w, g.base, Used(g.starts)) {
      InObject(g, w);
      var s := w.hi - g.base - HEADER_WORDS;
      var h := g.words[s];
      SizeAtLeast(h);
      if KindOf(h).Str? {
        CStringPositive(g.words[s + 2..s + Size(h)], 0, h.hi + 1);
      }
    }
  }

  /** Values that compare equal have the same hash. */
  lemma EqualHash(g: Heap, w: Word, w': Word, v: Value, u: Value)
    requires Sound(g) && Aimed(w, g.base, g.starts) && Aimed(w', g.base, g.starts) && Denotes(g, w, v)
    requires Denotes(g, w', u)
    requires Ranged(v) && Ranged(u) && NoNul(v) && NoNul(u) && Compare(v, u) == 0
    ensures v == u && Lhash(g, w) == Lhash(g, w')
  {
    DenotesOrdinary(g, w, v);
    DenotesOrdinary(g, w', u);
    CompareRight(v, u);
    SameIsEqual(v, u);
    HashIsOfValue(g, 0, 0, w, v);
    HashIsOfValue(g, 0, 0, w', u);
  }

  /** A collection does not change the value that a word denotes, so not its order either. */
  lemma {:induction false} DenotesPreserved(g: Heap, g': Heap, ren: map<nat, nat>, foreign: iset<nat>, w: Word,
                                            w': Word, v: Value)
    requires Moved(g, g', ren, foreign) && WordRenamed(g, g', ren, w, w') && Valued(g, foreign, w)
    ensures Aimed(w, g.base, g.starts) && Aimed(w', g'.base, g'.starts)
    ensures Denotes(g, w, v) ==> Denotes(g', w', v)
    decreases v
  {
    hide ViewOf, Preserved, Sound, WordRenamed;
    MovedParts(g, g', ren, foreign);
    ViewPreserved(g, g', ren, foreign, w, w');
    var view, view' := ViewOf(g, w), ViewOf(g', w');
    if view.Object? && !view.kind.Str? && v.Node? && |v.fields| == |view.fields| {
      FieldsSound(g, w);
      FieldsSound(g', w');
      FieldsAreValued(g, foreign, w);
      forall i | 0 <= i < |view.fields| ensures Denotes(g, view.fields[i], v.fields[i]) ==>
          Denotes(g', view'.fields[i], v.fields[i]) {
        DenotesPreserved(g, g', ren, foreign, view.fields[i], view'.fields[i], v.fields[i]);
      }
    }
  }

  lemma {:induction false} CompareSelf(v: Value)
    ensures Compare(v, v) == 0
    decreases v, 1, 0
  {
    if v.Text? {
      StrCmpSelf(v.text);
    } else if v.Node? {
      FieldsSelf(v, 0);
    }
  }

  lemma {:induction false} FieldsSelf(v: Value, i: nat)
    requires v.Node? && i <= |v.fields|
    ensures CompareFields(v, v, i) == 0
    decreases v, 0, |v.fields| - i
  {
    if i < |v.fields| {
      CompareSelf(v.fields[i]);
      FieldsSelf(v, i + 1);
    }
  }

  lemma {:induction false} StrCmpSelf(a: seq<nat>)
    ensures StrCmp(a, a) == 0
  {
    if a != [] {
      StrCmpSelf(a[1..]);
    }
  }

  /** Lcompare. Equal words are not looked at; different ones have to stand for acyclic values. */
  method Lcompare(g: Heap, p: Word, q: Word, ghost v: Value, ghost u: Value) returns (c: int)
    requires Sound(g) && Aimed(p, g.base, g.starts) && Aimed(q, g.base, g.starts)
    requires p != q ==> Denotes(g, p, v) && Denotes(g, q, u)
    ensures p == q ==> c == 0
    ensures Denotes(g, p, v) && Denotes(g, q, u) ==> c == Compare(v, u)
    decreases v
  {
    hide ViewOf, Boxed;
    if p == q {
      if Denotes(g, p, v) && Denotes(g, q, u) {
        DenotesOne(g, p, v, u);
        CompareSelf(v);
      }
      return 0;
    }
    FieldsSound(g, p);
    FieldsSound(g, q);
    var a, b := ViewOf(g, p), ViewOf(g, q);
    if a.Integer? {
      return if b.Integer? then Boxed(a.n - b.n) else -1;
    } else if b.Integer? {
      return 1;
    } else if a.Outside? {
      return if b.Outside? then Boxed(a.a - b.a) else 1;
    } else if b.Outside? {
      return -1;
    } else if TagOf(a.kind) != TagOf(b.kind) {
      return Boxed(TagOf(a.kind) - TagOf(b.kind));
    } else if a.kind.Str? {
      return StrCmp(a.text, b.text);
    } else if a.first != b.first {
      return Boxed(a.first - b.first);
    } else if a.len != b.len {
      return Boxed(a.len - b.len);
    }
    for i := 0 to |a.fields|
      invariant CompareFields(v, u, 0) == CompareFields(v, u, i)
    {
      if i < |b.fields| {
        c := Lcompare(g, a.fields[i], b.fields[i], v.fields[i], u.fields[i]);
        if c != 0 {
          return;
        }
      }
    }
    c := 0;
  }
}
