/** What the structural functions of the runtime see of a value, and that a collection does not change it. */
module Values {
  import opened Words
  import opened HeapLayout
  import opened Compaction
  import opened Graphs

  /** A word as an unsigned number. */
  function Number(w: Word): nat {
    8 * w.hi + (if w.b2 then 4 else 0) + (if w.b1 then 2 else 0) + (if w.b0 then 1 else 0)
  }

  function WordFrom(n: nat): (w: Word)
    ensures Number(w) == n
  {
    var low := n % 8;
    Word(n / 8, low >= 4, low % 4 >= 2, low % 2 == 1)
  }

  lemma WordOfNumber(w: Word)
    ensures WordFrom(Number(w)) == w
  {
  }

  const TWO63 := 0x8000_0000_0000_0000
  const TWO64 := 0x1_0000_0000_0000_0000

  /** aint: the same bits, signed. */
  function Signed(n: int): (x: int)
    ensures -TWO63 <= x < TWO63
  {
    var m := n % TWO64;
    if m >= TWO63 then m - TWO64 else m
  }

  /** UNBOX: an arithmetic shift. */
  function Unboxing(w: Word): int {
    Signed(Number(w)) / 2
  }

  /** The shift undoes BOX, on the split form and on signed numbers. */
  lemma UnboxNumber(w: Word)
    ensures Number(w) == 2 * Number(Unbox(w)) + (if Unboxed(w) then 1 else 0)
  {
  }

  lemma BoxedUnboxes(w: Word, n: int)
    requires -0x4000_0000_0000_0000 <= n < 0x4000_0000_0000_0000 && Number(w) == (2 * n + 1) % TWO64
    ensures Unboxed(w) && Unboxing(w) == n
  {
    if n >= 0 {
      assert (2 * n + 1) % TWO64 == 2 * n + 1;
    } else {
      assert (2 * n + 1) % TWO64 == 2 * n + 1 + TWO64;
    }
  }

  // Bytes.

  function ByteAt(n: nat, i: nat): (b: nat)
    ensures b < 256
  {
    if i == 0 then n % 256 else ByteAt(n / 256, i - 1)
  }

  /** The number whose bytes these are, the least significant first. */
  function FromBytes(bytes: seq<nat>): nat {
    if bytes == [] then 0 else bytes[0] + 256 * FromBytes(bytes[1..])
  }

  function BytesOf(n: nat, k: nat): (bytes: seq<nat>)
    ensures |bytes| == k && forall i :: 0 <= i < k ==> bytes[i] == ByteAt(n, i)
  {
    seq(k, i requires 0 <= i < k => ByteAt(n, i))
  }

  /** A number below 256 to the k is made of its first k bytes. */
  lemma {:induction false} BytesMakeNumber(n: nat, k: nat)
    ensures n < Power256(k) ==> FromBytes(BytesOf(n, k)) == n
  {
    if k > 0 {
      BytesMakeNumber(n / 256, k - 1);
      assert BytesOf(n, k)[1..] == BytesOf(n / 256, k - 1);
    }
  }

  function Power256(k: nat): nat {
    if k == 0 then 1 else 256 * Power256(k - 1)
  }

  function Bytes(n: nat): (p: nat)
    requires n <= 7
    ensures p > 0
  {
    if n == 0 then 1
    else if n == 1 then 0x100
    else if n == 2 then 0x1_0000
    else if n == 3 then 0x100_0000
    else if n == 4 then 0x1_0000_0000
    else if n == 5 then 0x100_0000_0000
    else if n == 6 then 0x1_0000_0000_0000
    else 0x100_0000_0000_0000
  }

  lemma ModUnique(a: int, m: nat, q: int, r: nat)
    requires a == q * m + r && r < m
    ensures a % m == r && a / m == q
  {
    var d := a / m - q;
    assert d * m == r - a % m;
    assert d >= 1 ==> d * m >= m;
    assert d <= -1 ==> d * m + m <= 0;
  }

  lemma ScaleMod(y: nat, p: nat, c: nat, scale: nat)
    requires p > 0 && c < scale
    ensures (scale * y + c) % (scale * p) == scale * (y % p) + c
  {
    var q, r := y / p, y % p;
    assert r + 1 <= p;
    assert scale * (r + 1) <= scale * p;
    assert scale * y + c == q * (scale * p) + (scale * r + c) by {
      assert y == q * p + r;
      assert scale * (q * p) == q * (scale * p);
    }
    ModUnique(scale * y + c, scale * p, q, scale * r + c);
  }

  lemma BytesSteps(n: nat)
    requires 1 <= n <= 7
    ensures Bytes(n) == 256 * Bytes(n - 1) && Bytes(n) == 8 * HiBound(n)
  {
  }

  lemma DropByte(x: nat, n: nat)
    requires 1 <= n <= 7
    ensures x % Bytes(n) % 256 == x % 256 && (x / 256) % Bytes(n - 1) == (x % Bytes(n)) / 256
  {
    BytesSteps(n);
    hide Bytes, HiBound;
    ScaleMod(x / 256, Bytes(n - 1), x % 256, 256);
  }

  lemma {:induction false} LowBytes(x: nat, y: nat, n: nat, i: nat)
    requires i < n <= 7 && x % Bytes(n) == y % Bytes(n)
    ensures ByteAt(x, i) == ByteAt(y, i)
    decreases n
  {
    DropByte(x, n);
    DropByte(y, n);
    if i > 0 {
      LowBytes(x / 256, y / 256, n - 1, i - 1);
    }
  }

  lemma NumberLow(w: Word, n: nat)
    requires 1 <= n <= 7
    ensures Number(w) % Bytes(n) == 8 * (w.hi % HiBound(n)) + Number(w) % 8
  {
    BytesSteps(n);
    hide Bytes, HiBound;
    ScaleMod(w.hi, HiBound(n), Number(w) % 8, 8);
  }

  lemma NumberLowThree(w: Word, w': Word)
    requires w.b2 == w'.b2 && w.b1 == w'.b1 && w.b0 == w'.b0
    ensures Number(w) % 8 == Number(w') % 8
  {
  }

  /** Words that agree on their low `n` bytes have the same first `n` bytes. */
  lemma SameLowBytes(w: Word, w': Word, n: nat, i: nat)
    requires 1 <= n <= 8 && SameLow(w, w', n) && i < n
    ensures ByteAt(Number(w), i) == ByteAt(Number(w'), i)
  {
    hide Bytes, HiBound, ByteAt, Number;
    if n < 8 {
      NumberLowThree(w, w');
      NumberLow(w, n);
      NumberLow(w', n);
      assert Number(w) % Bytes(n) == Number(w') % Bytes(n);
      LowBytes(Number(w), Number(w'), n, i);
    }
  }

  function ByteIn(ws: seq<Word>, i: nat): (b: nat)
    requires i < 8 * |ws|
    ensures b < 256
  {
    ByteAt(Number(ws[i / 8]), i % 8)
  }

  /** The C string at byte `i`, not looked at past `limit` bytes. */
  function CString(ws: seq<Word>, i: nat, limit: nat): (text: seq<nat>)
    requires i <= limit <= 8 * |ws|
    ensures forall k :: 0 <= k < |text| ==> 0 < text[k] < 256
    decreases limit - i
  {
    if i == limit || ByteIn(ws, i) == 0 then [] else [ByteIn(ws, i)] + CString(ws, i + 1, limit)
  }

  lemma {:induction false} SameCString(ws: seq<Word>, ws': seq<Word>, i: nat, limit: nat)
    requires i <= limit <= 8 * |ws| && |ws'| == |ws|
    requires forall k: nat :: i <= k < limit ==> ByteIn(ws, k) == ByteIn(ws', k)
    ensures CString(ws, i, limit) == CString(ws', i, limit)
    decreases limit - i
  {
    if i < limit {
      SameCString(ws, ws', i + 1, limit);
    }
  }

  lemma SizeAtLeast(h: Word)
    ensures Size(h) >= 2 && (KindOf(h).Str? ==> FirstField(h) == Size(h) && h.hi + 1 <= 8 * (Size(h) - 2))
  {
  }

  // Views.

  /** `first` is the code word of a closure or the tag of an s-expression, `text` the C string of a string. */
  datatype View =
    | Integer(n: int)
    | Outside(a: int)
    | Object(kind: Kind, len: nat, first: int, text: seq<nat>, fields: seq<Word>)

  ghost predicate Sound(g: Heap) {
    g.Tiles() && FieldsAimed(g.words, g.starts, g.base)
  }

  predicate ObjectInside(g: Heap, s: nat) {
    s < |g.words| && s + Size(g.words[s]) <= |g.words|
  }

  function FirstWord(g: Heap, s: nat): int
    requires ObjectInside(g, s)
  {
    var h := g.words[s];
    if (KindOf(h).Closure? || KindOf(h).Sexp?) && Size(h) > 2 then Number(g.words[s + 2]) else 0
  }

  function TextOf(g: Heap, s: nat): seq<nat>
    requires ObjectInside(g, s)
  {
    var h := g.words[s];
    if KindOf(h).Str? then CString(g.words[s + 2..s + Size(h)], 0, h.hi + 1) else []
  }

  function FieldsOf(g: Heap, s: nat): seq<Word>
    requires ObjectInside(g, s)
  {
    var h := g.words[s];
    if FirstField(h) <= Size(h) then g.words[s + FirstField(h)..s + Size(h)] else []
  }

  function ObjectView(g: Heap, s: nat): View
    requires ObjectInside(g, s)
  {
    Object(KindOf(g.words[s]), g.words[s].hi, FirstWord(g, s), TextOf(g, s), FieldsOf(g, s))
  }

  /** The tests UNBOXED and is_valid_heap_pointer, and what is read behind a pointer. */
  function ViewOf(g: Heap, w: Word): View
    requires g.Tiles() && Aimed(w, g.base, g.starts)
  {
    if Unboxed(w) then Integer(Unboxing(w))
    else if InRange(w, g.base, Used(g.starts)) then
      InObject(g, w);
      ObjectView(g, w.hi - g.base - HEADER_WORDS)
    else Outside(Signed(Number(w)))
  }

  lemma InObject(g: Heap, w: Word)
    requires g.Tiles() && Aimed(w, g.base, g.starts) && InRange(w, g.base, Used(g.starts))
    ensures var k := TargetOf(w, g.base, g.starts);
            && g.PointsTo(w, k) && g.starts[k] == w.hi - g.base - HEADER_WORDS
            && ObjectInside(g, g.starts[k])
  {
    ObjectBounds(g.words, g.starts, TargetOf(w, g.base, g.starts));
  }

  /** The fields of an object can be looked at in turn. */
  lemma FieldsSound(g: Heap, w: Word)
    requires Sound(g) && Aimed(w, g.base, g.starts)
    ensures var v := ViewOf(g, w);
            v.Object? ==> forall i :: 0 <= i < |v.fields| ==> Aimed(v.fields[i], g.base, g.starts)
  {
    var v := ViewOf(g, w);
    if v.Object? {
      InObject(g, w);
      var k := TargetOf(w, g.base, g.starts);
      ObjectBounds(g.words, g.starts, k);
      var h := g.words[g.starts[k]];
      forall i | 0 <= i < |v.fields| ensures Aimed(v.fields[i], g.base, g.starts) {
        assert FieldAt(g.words, g.starts, k, g.starts[k] + FirstField(h) + i);
      }
    }
  }

  ghost predicate AllRenamed(g: Heap, g': Heap, ren: map<nat, nat>, ws: seq<Word>, ws': seq<Word>)
    requires |g.starts| > 0 && |g'.starts| > 0
  {
    |ws'| == |ws| && forall i :: 0 <= i < |ws| ==> WordRenamed(g, g', ren, ws[i], ws'[i])
  }

  /** Two views that differ at most by a renaming of the objects that the fields point to. */
  ghost predicate ViewKept(g: Heap, g': Heap, ren: map<nat, nat>, v: View, v': View)
    requires |g.starts| > 0 && |g'.starts| > 0
  {
    match v
    case Integer(_) | Outside(_) => v' == v
    case Object(kind, len, first, text, fields) =>
      && v' == Object(kind, len, first, text, if v'.Object? then v'.fields else [])
      && AllRenamed(g, g', ren, fields, v'.fields)
  }

  /** An object and its copy, both inside of their heaps. */
  lemma KeptBounds(g: Heap, g': Heap, ren: map<nat, nat>, k: nat)
    requires Preserved(g, g', ren) && k in ren
    ensures k < Count(g.starts) && ren[k] < Count(g'.starts)
    ensures ObjectInside(g, g.starts[k]) && ObjectInside(g', g'.starts[ren[k]]) && g'.HeaderOf(ren[k]) == g.HeaderOf(k)
  {
    assert ObjectKept(g, g', ren, k);
    ObjectBounds(g.words, g.starts, k);
    ObjectBounds(g'.words, g'.starts, ren[k]);
  }

  ghost predicate BothInside(g: Heap, g': Heap, ren: map<nat, nat>, k: nat) {
    && Preserved(g, g', ren) && k in ren && k < Count(g.starts) && ren[k] < Count(g'.starts)
    && ObjectInside(g, g.starts[k]) && ObjectInside(g', g'.starts[ren[k]]) && g'.HeaderOf(ren[k]) == g.HeaderOf(k)
  }

  lemma ByteKept(g: Heap, g': Heap, ren: map<nat, nat>, k: nat, i: nat)
    requires BothInside(g, g', ren, k) && KindOf(g.HeaderOf(k)).Str? && i <= g.HeaderOf(k).hi
    ensures var s, s' := g.starts[k], g'.starts[ren[k]];
            && 8 * (s + 2) + i < 8 * |g.words| && 8 * (s' + 2) + i < 8 * |g'.words|
            && ByteIn(g.words, 8 * (s + 2) + i) == ByteIn(g'.words, 8 * (s' + 2) + i)
  {
    hide ByteAt, Number;
    var h, j := g.HeaderOf(k), i / 8;
    assert ObjectKept(g, g', ren, k);
    assert WordKept(g, g', ren, k, j + 2);
    if j + 2 == Size(h) - 1 {
      SameLowBytes(g.words[g.starts[k] + 2 + j], g'.words[g'.starts[ren[k]] + 2 + j], h.hi % 8 + 1, i % 8);
    }
  }

  lemma ByteOfSlice(ws: seq<Word>, lo: nat, hi: nat, i: nat)
    requires lo <= hi <= |ws| && i < 8 * (hi - lo)
    ensures ByteIn(ws[lo..hi], i) == ByteIn(ws, 8 * lo + i)
  {
  }

  lemma TextKept(g: Heap, g': Heap, ren: map<nat, nat>, k: nat)
    requires BothInside(g, g', ren, k) && k < |g.starts| && k in ren && ren[k] < |g'.starts|
    requires ObjectInside(g, g.starts[k]) && ObjectInside(g', g'.starts[ren[k]])
    requires g'.words[g'.starts[ren[k]]] == g.words[g.starts[k]]
    ensures TextOf(g', g'.starts[ren[k]]) == TextOf(g, g.starts[k])
  {
    hide BothInside, ByteIn;
    var s, s' := g.starts[k], g'.starts[ren[k]];
    var h := g.words[s];
    if KindOf(h).Str? {
      var ws, ws' := g.words[s + 2..s + Size(h)], g'.words[s' + 2..s' + Size(h)];
      forall i: nat | i < h.hi + 1 ensures ByteIn(ws, i) == ByteIn(ws', i) {
        ByteKept(g, g', ren, k, i);
        ByteOfSlice(g.words, s + 2, s + Size(h), i);
        ByteOfSlice(g'.words, s' + 2, s' + Size(h), i);
      }
      SameCString(ws, ws', 0, h.hi + 1);
    }
  }

  lemma FieldsKept(g: Heap, g': Heap, ren: map<nat, nat>, k: nat)
    requires BothInside(g, g', ren, k)
    ensures AllRenamed(g, g', ren, FieldsOf(g, g.starts[k]), FieldsOf(g', g'.starts[ren[k]]))
  {
    hide WordRenamed;
    assert ObjectKept(g, g', ren, k);
    var h, ws, ws' := g.HeaderOf(k), FieldsOf(g, g.starts[k]), FieldsOf(g', g'.starts[ren[k]]);
    forall i: nat | i < |ws| ensures WordRenamed(g, g', ren, ws[i], ws'[i]) {
      assert WordKept(g, g', ren, k, FirstField(h) + i);
    }
  }

  lemma FirstKept(g: Heap, g': Heap, ren: map<nat, nat>, k: nat)
    requires BothInside(g, g', ren, k)
    ensures FirstWord(g', g'.starts[ren[k]]) == FirstWord(g, g.starts[k])
  {
    var h := g.HeaderOf(k);
    if (KindOf(h).Closure? || KindOf(h).Sexp?) && Size(h) > 2 {
      assert ObjectKept(g, g', ren, k);
      assert WordKept(g, g', ren, k, 2);
    }
  }

  lemma ObjectViewKept(g: Heap, g': Heap, ren: map<nat, nat>, k: nat)
    requires Preserved(g, g', ren) && k in ren
    ensures BothInside(g, g', ren, k)
    ensures ViewKept(g, g', ren, ObjectView(g, g.starts[k]), ObjectView(g', g'.starts[ren[k]]))
  {
    hide ObjectKept, AllRenamed, FirstWord, TextOf, FieldsOf;
    KeptBounds(g, g', ren, k);
    TextKept(g, g', ren, k);
    FirstKept(g, g', ren, k);
    FieldsKept(g, g', ren, k);
  }

  /** A collection does not change what is seen of a value. */
  lemma ViewPreserved(g: Heap, g': Heap, ren: map<nat, nat>, foreign: iset<nat>, w: Word, w': Word)
    requires Preserved(g, g', ren) && WordRenamed(g, g', ren, w, w') && Valued(g, foreign, w)
    requires ForeignApart(foreign, g.base, Used(g.starts)) && ForeignApart(foreign, g'.base, Used(g'.starts))
    ensures Aimed(w, g.base, g.starts) && Aimed(w', g'.base, g'.starts)
    ensures ViewKept(g, g', ren, ViewOf(g, w), ViewOf(g', w'))
  {
    hide ObjectView, ObjectKept, Injective, ObjAt;
    RenamedIsValued(g, g', ren, foreign, w, w');
    ValuedIsAimed(g, foreign, w, Used(g.starts));
    ValuedIsAimed(g', foreign, w', Used(g'.starts));
    if InRange(w, g.base, Used(g.starts)) {
      InObject(g, w);
      var k := TargetOf(w, g.base, g.starts);
      assert g.PointsTo(w, k) && k in ren && g'.PointsTo(w', ren[k]);
      PointerInRange(g'.words, g'.starts, g'.base, w', ren[k]);
      InObject(g', w');
      ObjectViewKept(g, g', ren, k);
    } else {
      forall k: nat | g.PointsTo(w, k) ensures false {
        PointerInRange(g.words, g.starts, g.base, w, k);
      }
      assert w' == w;
      assert Unboxed(w) || w.hi in foreign;
    }
  }
}
