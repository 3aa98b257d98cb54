/** The analyzer's order on instructions by their bytes, and the loops that group and count. */
module Counting {
  import opened Bytecode
  import opened Words

  // compare_bytes.

  /** compare_bytes on two ranges of the code, as byte strings. */
  function Compare(a: seq<Byte>, b: seq<Byte>): int {
    if a == [] || b == [] then |a| - |b|
    else if a[0] != b[0] then SignedChar(a[0]) - SignedChar(b[0])
    else Compare(a[1..], b[1..])
  }

  method CompareBytes(code: seq<Byte>, st1: nat, end1: nat, st2: nat, end2: nat) returns (c: int)
    requires st1 <= end1 <= |code| && st2 <= end2 <= |code|
    ensures c == Compare(code[st1..end1], code[st2..end2])
  {
    var i := 0;
    var n := if end1 - st1 <= end2 - st2 then end1 - st1 else end2 - st2;
    assert code[st1..end1][0..] == code[st1..end1] && code[st2..end2][0..] == code[st2..end2];
    while i < n
      invariant i <= n
      invariant Compare(code[st1..end1], code[st2..end2]) == Compare(code[st1..end1][i..], code[st2..end2][i..])
    {
      var b1, b2 := code[st1 + i], code[st2 + i];
      if b1 != b2 {
        return SignedChar(b1) - SignedChar(b2);
      }
      assert code[st1..end1][i..][1..] == code[st1..end1][i + 1..];
      assert code[st2..end2][i..][1..] == code[st2..end2][i + 1..];
      i := i + 1;
    }
    c := (end1 - st1) - (end2 - st2);
  }

  /** It is zero exactly for equal encodings. */
  lemma {:induction false} CompareZero(a: seq<Byte>, b: seq<Byte>)
    ensures Compare(a, b) == 0 <==> a == b
  {
    if a != [] && b != [] {
      CompareZero(a[1..], b[1..]);
      assert a == [a[0]] + a[1..] && b == [b[0]] + b[1..];
    }
  }

  lemma {:induction false} CompareAntisymmetric(a: seq<Byte>, b: seq<Byte>)
    ensures Compare(b, a) == -Compare(a, b)
  {
    if a != [] && b != [] && a[0] == b[0] {
      CompareAntisymmetric(a[1..], b[1..]);
    }
  }

  lemma {:induction false} CompareTransitive(a: seq<Byte>, b: seq<Byte>, c: seq<Byte>)
    requires Compare(a, b) <= 0 && Compare(b, c) <= 0
    ensures Compare(a, c) <= 0
    ensures Compare(a, b) < 0 || Compare(b, c) < 0 ==> Compare(a, c) < 0
  {
    if a != [] && b != [] && c != [] && a[0] == b[0] == c[0] {
      CompareTransitive(a[1..], b[1..], c[1..]);
    }
  }

  /** A byte above 0x7F comes before every other, as a char is signed. */
  predicate ByteBefore(b: Byte, c: Byte) {
    if (b >= 0x80) == (c >= 0x80) then b < c else b >= 0x80
  }

  predicate LessAt(a: seq<Byte>, b: seq<Byte>, k: nat) {
    && k <= |a| && k <= |b| && a[..k] == b[..k]
    && ((k == |a| && k < |b|) || (k < |a| && k < |b| && ByteBefore(a[k], b[k])))
  }

  /** The comparison is negative exactly if the first place where the encodings differ is the end of the first
      one, or has the smaller byte there. */
  lemma {:induction false} CompareLess(a: seq<Byte>, b: seq<Byte>)
    ensures Compare(a, b) < 0 <==> exists k: nat :: k <= |a| && LessAt(a, b, k)
  {
    if a == [] || b == [] || a[0] != b[0] {
      if Compare(a, b) < 0 {
        assert LessAt(a, b, 0);
      }
    } else {
      CompareLess(a[1..], b[1..]);
      if Compare(a, b) < 0 {
        var k: nat :| k <= |a[1..]| && LessAt(a[1..], b[1..], k);
        assert a[..k + 1] == [a[0]] + a[1..][..k] && b[..k + 1] == [b[0]] + b[1..][..k];
        assert LessAt(a, b, k + 1);
      }
      if exists k: nat :: k <= |a| && LessAt(a, b, k) {
        var k: nat :| k <= |a| && LessAt(a, b, k);
        assert a[1..][..k - 1] == a[..k][1..] && b[1..][..k - 1] == b[..k][1..];
        assert LessAt(a[1..], b[1..], k - 1);
      }
    }
  }

  // cmp_single and cmp_pair: an idiom is one encoding, or two.

  type Idiom = (seq<Byte>, seq<Byte>)

  /** cmp_pair; with an empty second encoding it is cmp_single. */
  predicate Less(x: Idiom, y: Idiom) {
    if Compare(x.0, y.0) == 0 then Compare(x.1, y.1) < 0 else Compare(x.0, y.0) < 0
  }

  /** The order is total on idioms: two of them are equivalent exactly when their bytes are the same. */
  lemma LessTotal(x: Idiom, y: Idiom)
    ensures !Less(x, y) && !Less(y, x) <==> x == y
    ensures !(Less(x, y) && Less(y, x))
  {
    CompareZero(x.0, y.0);
    CompareZero(x.1, y.1);
    CompareAntisymmetric(x.0, y.0);
    CompareAntisymmetric(x.1, y.1);
  }

  lemma LessTransitive(x: Idiom, y: Idiom, z: Idiom)
    requires !Less(y, x) && !Less(z, y)
    ensures !Less(z, x)
    ensures Less(x, y) || Less(y, z) ==> Less(x, z)
  {
    CompareAntisymmetric(x.0, y.0);
    CompareAntisymmetric(y.0, z.0);
    CompareAntisymmetric(x.0, z.0);
    CompareAntisymmetric(x.1, y.1);
    CompareAntisymmetric(y.1, z.1);
    CompareAntisymmetric(x.1, z.1);
    CompareZero(x.0, y.0);
    CompareZero(y.0, z.0);
    CompareTransitive(x.0, y.0, z.0);
    if x.0 == y.0 == z.0 {
      CompareTransitive(x.1, y.1, z.1);
    }
  }

  // The idioms at offsets of the code.

  ghost predicate Whole(code: seq<Byte>, i: nat) {
    Decode(code, i).Instr? && i <= Decode(code, i).next <= |code|
  }

  /** A pair is named by its first instruction. */
  ghost predicate HasIdiom(code: seq<Byte>, i: nat, pair: bool) {
    Whole(code, i) && (pair ==> Whole(code, Decode(code, i).next))
  }

  ghost function Encoding(code: seq<Byte>, i: nat): seq<Byte>
    requires Whole(code, i)
  {
    code[i..Decode(code, i).next]
  }

  ghost function IdiomAt(code: seq<Byte>, i: nat, pair: bool): Idiom
    requires HasIdiom(code, i, pair)
  {
    (Encoding(code, i), if pair then Encoding(code, Decode(code, i).next) else [])
  }

  ghost function Idioms(code: seq<Byte>, offsets: seq<nat>, pair: bool): (ks: seq<Idiom>)
    requires forall i :: i in offsets ==> HasIdiom(code, i, pair)
    ensures |ks| == |offsets| && forall k :: 0 <= k < |offsets| ==> ks[k] == IdiomAt(code, offsets[k], pair)
  {
    seq(|offsets|, k requires 0 <= k < |offsets| => IdiomAt(code, offsets[k], pair))
  }

  method CmpSingle(code: seq<Byte>, i1: nat, i2: nat) returns (less: bool)
    requires HasIdiom(code, i1, false) && HasIdiom(code, i2, false)
    ensures less == Less(IdiomAt(code, i1, false), IdiomAt(code, i2, false))
  {
    var c := CompareBytes(code, i1, Decode(code, i1).next, i2, Decode(code, i2).next);
    less := c < 0;
  }

  method CmpPair(code: seq<Byte>, i1: nat, i2: nat) returns (less: bool)
    requires HasIdiom(code, i1, true) && HasIdiom(code, i2, true)
    ensures less == Less(IdiomAt(code, i1, true), IdiomAt(code, i2, true))
  {
    var nxt1, nxt2 := Decode(code, i1).next, Decode(code, i2).next;
    var cmp1 := CompareBytes(code, i1, nxt1, i2, nxt2);
    if cmp1 == 0 {
      less := CmpSingle(code, nxt1, nxt2);
    } else {
      less := cmp1 < 0;
    }
  }

  // Grouping.

  /** What std::sort leaves. */
  ghost predicate Sorted(ks: seq<Idiom>) {
    forall i, j :: 0 <= i < j < |ks| ==> !Less(ks[j], ks[i])
  }

  function SumOf(counter: seq<(nat, nat)>): nat {
    if counter == [] then 0 else SumOf(counter[..|counter| - 1]) + counter[|counter| - 1].0
  }

  /** An entry has the number of occurrences of the idiom that it names by a place in the sorted list. */
  ghost predicate Counts(ks: seq<Idiom>, entry: (nat, nat), kind: nat) {
    entry.1 % 2 == kind && entry.1 / 2 < |ks| && entry.0 == multiset(ks)[ks[entry.1 / 2]]
  }

  ghost predicate Names(ks: seq<Idiom>, entry: (nat, nat), k: Idiom) {
    entry.1 / 2 < |ks| && ks[entry.1 / 2] == k
  }

  /** Every idiom has one entry, with its exact multiplicity. */
  ghost predicate Tallied(ks: seq<Idiom>, upTo: nat, counter: seq<(nat, nat)>, kind: nat)
    requires upTo <= |ks|
  {
    && (forall e :: 0 <= e < |counter| ==> Counts(ks[..upTo], counter[e], kind))
    && (forall e, f :: 0 <= e < f < |counter| ==> !Names(ks, counter[f], ks[..upTo][counter[e].1 / 2]))
    && (forall k :: k in ks[..upTo] ==> exists e :: 0 <= e < |counter| && Names(ks, counter[e], k))
    && SumOf(counter) == upTo
  }

  /** In a sorted list equal idioms stand together: after the first that is greater, all are. */
  lemma GreaterAfter(ks: seq<Idiom>, i: nat, j: nat)
    requires Sorted(ks) && i < j < |ks| && Less(ks[i], ks[j])
    ensures forall m :: j <= m < |ks| ==> ks[m] != ks[i]
  {
    forall m | j <= m < |ks| ensures ks[m] != ks[i] {
      LessTotal(ks[i], ks[j]);
      if m > j {
        LessTransitive(ks[i], ks[j], ks[m]);
        LessTotal(ks[i], ks[m]);
      }
    }
  }

  lemma {:induction false} Block(ks: seq<Idiom>, i: nat, j: nat, x: Idiom)
    requires i <= j <= |ks| && forall m :: i <= m < j ==> ks[m] == ks[i]
    ensures multiset(ks[..j])[x] == multiset(ks[..i])[x] + if i < j && x == ks[i] then j - i else 0
  {
    if i < j {
      Block(ks, i, j - 1, x);
      assert ks[..j] == ks[..j - 1] + [ks[j - 1]];
    }
  }

  lemma TallyBlock(ks: seq<Idiom>, i: nat, j: nat, counter: seq<(nat, nat)>, kind: nat)
    requires i < j <= |ks| && kind < 2 && Tallied(ks, i, counter, kind)
    requires (forall m :: i <= m < j ==> ks[m] == ks[i]) && ks[i] !in ks[..i]
    ensures Tallied(ks, j, counter + [(j - i, 2 * i + kind)], kind)
  {
    var entry := (j - i, 2 * i + kind);
    var counter' := counter + [entry];
    assert counter'[..|counter|] == counter;
    forall e | 0 <= e < |counter'| ensures Counts(ks[..j], counter'[e], kind) {
      if e < |counter| {
        assert Counts(ks[..i], counter[e], kind);
        var k := counter[e].1 / 2;
        assert ks[..j][k] == ks[..i][k] == ks[k];
        Block(ks, i, j, ks[k]);
      } else {
        Block(ks, i, j, ks[i]);
      }
    }
    forall e, f | 0 <= e < f < |counter'| ensures !Names(ks, counter'[f], ks[..j][counter'[e].1 / 2]) {
      assert Counts(ks[..i], counter[e], kind);
      assert ks[..j][counter[e].1 / 2] == ks[..i][counter[e].1 / 2];
    }
    forall k | k in ks[..j] ensures exists e :: 0 <= e < |counter'| && Names(ks, counter'[e], k) {
      if k in ks[..i] {
        var e :| 0 <= e < |counter| && Names(ks, counter[e], k);
        assert Names(ks, counter'[e], k);
      } else {
        var m :| 0 <= m < j && ks[m] == k;
        assert m < i ==> ks[..i][m] == k;
        assert Names(ks, counter'[|counter|], k);
      }
    }
  }

  lemma NotGreater(ks: seq<Idiom>, i: nat, j: nat)
    requires Sorted(ks) && i <= j < |ks| && !Less(ks[i], ks[j])
    ensures ks[i] == ks[j]
  {
    LessTotal(ks[i], ks[j]);
  }

  /** No idiom stands on both sides of place `i`. */
  ghost predicate SplitAt(ks: seq<Idiom>, i: nat) {
    forall l, m :: 0 <= l < i <= m < |ks| ==> ks[m] != ks[l]
  }

  lemma SplitNext(ks: seq<Idiom>, i: nat, j: nat)
    requires Sorted(ks) && SplitAt(ks, i) && i < j <= |ks|
    requires forall m :: i <= m < j ==> ks[m] == ks[i]
    requires j < |ks| ==> Less(ks[i], ks[j])
    ensures SplitAt(ks, j) && ks[i] !in ks[..i]
  {
    if j < |ks| {
      GreaterAfter(ks, i, j);
    }
  }

  /** cmp_single or cmp_pair. */
  method CompareAt(code: seq<Byte>, i1: nat, i2: nat, pair: bool) returns (less: bool)
    requires HasIdiom(code, i1, pair) && HasIdiom(code, i2, pair)
    ensures less == Less(IdiomAt(code, i1, pair), IdiomAt(code, i2, pair))
  {
    hide Less, IdiomAt;
    if pair {
      less := CmpPair(code, i1, i2);
    } else {
      less := CmpSingle(code, i1, i2);
    }
  }

  /** The inner loop: the end of the block that starts at place `i`. */
  method BlockEnd(code: seq<Byte>, sorted: seq<nat>, pair: bool, ghost ks: seq<Idiom>, i: nat) returns (j: nat)
    requires forall i :: i in sorted ==> HasIdiom(code, i, pair)
    requires ks == Idioms(code, sorted, pair) && Sorted(ks) && i < |sorted|
    ensures i < j <= |sorted|
    ensures forall m :: i <= m < j ==> ks[m] == ks[i]
    ensures j < |sorted| ==> Less(ks[i], ks[j])
  {
    hide Less, Sorted, IdiomAt, HasIdiom;
    var less := false;
    j := i;
    assert sorted[i] in sorted;
    LessTotal(ks[i], ks[i]);
    while j < |sorted| && !less
      invariant i <= j <= |sorted| && (i == j ==> !less)
      invariant forall m :: i <= m < j ==> ks[m] == ks[i]
      invariant less ==> j < |sorted| && Less(ks[i], ks[j])
      decreases |sorted| - j, !less
    {
      assert sorted[j] in sorted;
      less := CompareAt(code, sorted[i], sorted[j], pair);
      if !less {
        NotGreater(ks, i, j);
        j := j + 1;
      }
    }
  }

  /** The loops of analyze over a sorted vector: every distinct idiom is counted once, exactly. */
  method Group(code: seq<Byte>, sorted: seq<nat>, pair: bool) returns (counter: seq<(nat, nat)>)
    requires forall i :: i in sorted ==> HasIdiom(code, i, pair)
    requires Sorted(Idioms(code, sorted, pair))
    ensures Tallied(Idioms(code, sorted, pair), |sorted|, counter, if pair then 1 else 0)
  {
    hide Less, Sorted, IdiomAt;
    ghost var ks := Idioms(code, sorted, pair);
    var kind := if pair then 1 else 0;
    counter := [];
    var i := 0;
    while i < |sorted|
      invariant i <= |sorted| && Tallied(ks, i, counter, kind)
      invariant SplitAt(ks, i)
    {
      hide Tallied, SplitAt;
      var j := BlockEnd(code, sorted, pair, ks, i);
      SplitNext(ks, i, j);
      TallyBlock(ks, i, j, counter, kind);
      counter := counter + [(j - i, 2 * i + kind)];
      i := j;
    }
  }

  lemma {:induction false} SumOfBoth(a: seq<(nat, nat)>, b: seq<(nat, nat)>)
    ensures SumOf(a + b) == SumOf(a) + SumOf(b)
  {
    if b == [] {
      assert a + b == a;
    } else {
      var n := |b| - 1;
      SumOfBoth(a, b[..n]);
      assert (a + b)[..|a + b| - 1] == a + b[..n];
    }
  }

  // std::sort, as an insertion sort.

  /** `k` goes behind everything that is not greater and before everything that is. */
  lemma InsertedSorted(ks: seq<Idiom>, k: Idiom, j: nat)
    requires Sorted(ks) && j <= |ks|
    requires j > 0 ==> !Less(k, ks[j - 1])
    requires forall m :: j <= m < |ks| ==> Less(k, ks[m])
    ensures Sorted(ks[..j] + [k] + ks[j..])
  {
    hide Less;
    var ks' := ks[..j] + [k] + ks[j..];
    forall a, b | 0 <= a < b < |ks'| ensures !Less(ks'[b], ks'[a]) {
      if b == j {
        NotBelow(ks, k, j, a);
      } else if a == j {
        LessTotal(k, ks[b - 1]);
      } else {
        var a', b' := if a < j then a else a - 1, if b < j then b else b - 1;
        assert ks'[a] == ks[a'] && ks'[b] == ks[b'];
      }
    }
  }

  lemma NotBelow(ks: seq<Idiom>, k: Idiom, j: nat, a: nat)
    requires Sorted(ks) && a < j <= |ks| && !Less(k, ks[j - 1])
    ensures !Less(k, ks[a])
  {
    hide Less;
    if a < j - 1 {
      LessTransitive(ks[a], ks[j - 1], k);
    }
  }

  lemma InsertOne<T>(s: seq<T>, x: T, j: nat)
    requires j <= |s|
    ensures multiset(s[..j] + [x] + s[j..]) == multiset(s) + multiset{x}
  {
    assert s == s[..j] + s[j..];
  }

  lemma RemoveOne<T>(s: seq<T>, k: nat)
    requires k < |s|
    ensures multiset(s) == multiset(s[..k] + s[k + 1..]) + multiset{s[k]}
  {
    var t := s[..k] + s[k + 1..];
    assert t[..k] == s[..k] && t[k..] == s[k + 1..];
    InsertOne(t, s[k], k);
    assert s == t[..k] + [s[k]] + t[k..];
  }

  method Insert(code: seq<Byte>, sorted: seq<nat>, x: nat, pair: bool) returns (sorted': seq<nat>)
    requires (forall i :: i in sorted ==> HasIdiom(code, i, pair)) && HasIdiom(code, x, pair)
    requires Sorted(Idioms(code, sorted, pair))
    ensures multiset(sorted') == multiset(sorted) + multiset{x}
    ensures forall i :: i in sorted' ==> HasIdiom(code, i, pair)
    ensures Sorted(Idioms(code, sorted', pair))
  {
    hide Less, Sorted, IdiomAt, HasIdiom;
    ghost var ks, k := Idioms(code, sorted, pair), IdiomAt(code, x, pair);
    var j := |sorted|;
    var less := true;
    while j > 0 && less
      invariant 0 <= j <= |sorted| && (!less ==> j > 0 && !Less(k, ks[j - 1]))
      invariant forall m :: j <= m < |ks| ==> Less(k, ks[m])
      decreases j, less
    {
      assert sorted[j - 1] in sorted;
      less := CompareAt(code, x, sorted[j - 1], pair);
      if less {
        j := j - 1;
      }
    }
    sorted' := sorted[..j] + [x] + sorted[j..];
    InsertOne(sorted, x, j);
    forall i | i in sorted' ensures HasIdiom(code, i, pair) {
      assert i in sorted || i == x;
    }
    InsertedSorted(ks, k, j);
    assert Idioms(code, sorted', pair) == ks[..j] + [k] + ks[j..];
  }

  method SortIdioms(code: seq<Byte>, offsets: seq<nat>, pair: bool) returns (sorted: seq<nat>)
    requires forall i :: i in offsets ==> HasIdiom(code, i, pair)
    ensures multiset(sorted) == multiset(offsets)
    ensures forall i :: i in sorted ==> HasIdiom(code, i, pair)
    ensures Sorted(Idioms(code, sorted, pair))
  {
    hide Less, IdiomAt, HasIdiom;
    sorted := [];
    for n := 0 to |offsets|
      invariant multiset(sorted) == multiset(offsets[..n])
      invariant forall i :: i in sorted ==> HasIdiom(code, i, pair)
      invariant Sorted(Idioms(code, sorted, pair))
    {
      assert offsets[n] in offsets;
      sorted := Insert(code, sorted, offsets[n], pair);
      assert offsets[..n + 1] == offsets[..n] + [offsets[n]];
    }
    assert offsets[..|offsets|] == offsets;
  }

  type Entry = (nat, nat)

  /** std::pair's order. */
  predicate Before(a: Entry, b: Entry) {
    a.0 < b.0 || (a.0 == b.0 && a.1 < b.1)
  }

  ghost predicate Descending(c: seq<Entry>) {
    forall a, b :: 0 <= a < b < |c| ==> !Before(c[a], c[b])
  }

  ghost predicate Ascending(c: seq<Entry>) {
    forall a, b :: 0 <= a < b < |c| ==> !Before(c[b], c[a])
  }

  lemma InsertedAscends(c: seq<Entry>, e: Entry, j: nat)
    requires Ascending(c) && j <= |c|
    requires j > 0 ==> !Before(e, c[j - 1])
    requires forall m :: j <= m < |c| ==> Before(e, c[m])
    ensures Ascending(c[..j] + [e] + c[j..])
  {
    var c' := c[..j] + [e] + c[j..];
    forall a, b | 0 <= a < b < |c'| ensures !Before(c'[b], c'[a]) {
      if a != j && b != j {
        var a', b' := if a < j then a else a - 1, if b < j then b else b - 1;
        assert c'[a] == c[a'] && c'[b] == c[b'];
      } else if b == j {
        assert a < j - 1 ==> !Before(c[j - 1], c[a]);
      }
    }
  }

  method InsertEntry(c: seq<Entry>, e: Entry) returns (c': seq<Entry>)
    requires Ascending(c)
    ensures multiset(c') == multiset(c) + multiset{e} && Ascending(c')
  {
    hide Ascending;
    var j := |c|;
    while j > 0 && Before(e, c[j - 1])
      invariant 0 <= j <= |c|
      invariant forall m :: j <= m < |c| ==> Before(e, c[m])
    {
      j := j - 1;
    }
    InsertOne(c, e, j);
    InsertedAscends(c, e, j);
    c' := c[..j] + [e] + c[j..];
  }

  method SortCounter(entries: seq<Entry>) returns (c: seq<Entry>)
    ensures multiset(c) == multiset(entries) && Ascending(c)
  {
    c := [];
    for n := 0 to |entries|
      invariant multiset(c) == multiset(entries[..n]) && Ascending(c)
    {
      hide Ascending;
      c := InsertEntry(c, entries[n]);
      assert entries[..n + 1] == entries[..n] + [entries[n]];
    }
    assert entries[..|entries|] == entries;
  }

  function Reversed(c: seq<Entry>): (r: seq<Entry>)
    ensures |r| == |c|
  {
    if c == [] then [] else [c[|c| - 1]] + Reversed(c[..|c| - 1])
  }

  lemma {:induction false} ReversedAt(c: seq<Entry>, k: nat)
    requires k < |c|
    ensures Reversed(c)[k] == c[|c| - 1 - k]
  {
    if k > 0 {
      ReversedAt(c[..|c| - 1], k - 1);
    }
  }

  lemma {:induction false} ReversedSame(c: seq<Entry>)
    ensures multiset(Reversed(c)) == multiset(c)
  {
    if c != [] {
      ReversedSame(c[..|c| - 1]);
      assert c == c[..|c| - 1] + [c[|c| - 1]];
    }
  }

  lemma ReversedDescends(c: seq<Entry>)
    requires Ascending(c)
    ensures Descending(Reversed(c))
  {
    forall a, b | 0 <= a < b < |c| ensures !Before(Reversed(c)[a], Reversed(c)[b]) {
      ReversedAt(c, a);
      ReversedAt(c, b);
    }
  }

  /** std::reverse. */
  method ReverseCounter(c: seq<Entry>) returns (r: seq<Entry>)
    requires Ascending(c)
    ensures multiset(r) == multiset(c) && Descending(r)
  {
    r := [];
    for n := 0 to |c|
      invariant r == Reversed(c[..n])
    {
      r := [c[n]] + r;
      assert c[..n + 1][..n] == c[..n];
    }
    assert c[..|c|] == c;
    ReversedSame(c);
    ReversedDescends(c);
  }

  lemma {:induction false} SumOfPermuted(a: seq<Entry>, b: seq<Entry>)
    requires multiset(a) == multiset(b)
    ensures SumOf(a) == SumOf(b)
  {
    if a == [] {
      NoneLeft(b);
    } else {
      var n := |a| - 1;
      var k := PlaceOf(a, b, n);
      WithoutBoth(a, b, n, k);
      assert a[..n] + a[n + 1..] == a[..n];
      SumOfPermuted(a[..n], Without(b, k));
      SumWithout(b, k);
    }
  }

  lemma PlaceOf(a: seq<Entry>, b: seq<Entry>, n: nat) returns (k: nat)
    requires multiset(a) == multiset(b) && n < |a|
    ensures k < |b| && b[k] == a[n]
  {
    assert a[n] in multiset(b);
    k :| k < |b| && b[k] == a[n];
  }

  lemma WithoutBoth(a: seq<Entry>, b: seq<Entry>, n: nat, k: nat)
    requires multiset(a) == multiset(b) && n < |a| && k < |b| && b[k] == a[n]
    ensures multiset(Without(a, n)) == multiset(Without(b, k))
  {
    RemoveOne(a, n);
    RemoveOne(b, k);
    assert multiset(Without(a, n)) == multiset(a) - multiset{a[n]};
    assert multiset(Without(b, k)) == multiset(b) - multiset{b[k]};
  }

  function Without(a: seq<Entry>, n: nat): seq<Entry>
    requires n < |a|
  {
    a[..n] + a[n + 1..]
  }

  lemma NoneLeft(b: seq<Entry>)
    requires multiset(b) == multiset{}
    ensures b == []
  {
    assert |multiset(b)| == |b|;
  }

  lemma SumOfLast(c: seq<Entry>, k: nat)
    requires k < |c|
    ensures SumOf(c[..k + 1]) == SumOf(c[..k]) + c[k].0
  {
    assert c[..k + 1][..k] == c[..k];
  }

  lemma SumWithout(b: seq<Entry>, k: nat)
    requires k < |b|
    ensures SumOf(b) == SumOf(Without(b, k)) + b[k].0
  {
    hide SumOf;
    assert b == b[..k + 1] + b[k + 1..];
    SumOfLast(b, k);
    SumOfBoth(b[..k + 1], b[k + 1..]);
    SumOfBoth(b[..k], b[k + 1..]);
  }

  /** The end of analyze: both vectors are sorted, and the counter has one entry for every distinct instruction and
      every distinct pair, with its multiplicity, in descending order. All instructions and pairs are counted. */
  method Count(code: seq<Byte>, collectSingle: seq<nat>, collectPairs: seq<nat>)
    returns (singles: seq<nat>, pairs: seq<nat>, counter: seq<Entry>, ghost a: seq<Entry>, ghost b: seq<Entry>)
    requires forall i :: i in collectSingle ==> HasIdiom(code, i, false)
    requires forall i :: i in collectPairs ==> HasIdiom(code, i, true)
    ensures multiset(singles) == multiset(collectSingle) && multiset(pairs) == multiset(collectPairs)
    ensures (forall i :: i in singles ==> HasIdiom(code, i, false)) && Sorted(Idioms(code, singles, false))
    ensures (forall i :: i in pairs ==> HasIdiom(code, i, true)) && Sorted(Idioms(code, pairs, true))
    ensures Tallied(Idioms(code, singles, false), |singles|, a, 0) && Tallied(Idioms(code, pairs, true), |pairs|, b, 1)
    ensures multiset(counter) == multiset(a + b) && Descending(counter)
    ensures SumOf(counter) == |collectSingle| + |collectPairs|
  {
    hide Less, Sorted, IdiomAt, HasIdiom, Ascending, Descending, Counts, Names;
    singles := SortIdioms(code, collectSingle, false);
    pairs := SortIdioms(code, collectPairs, true);
    var first := Group(code, singles, false);
    var second := Group(code, pairs, true);
    a, b := first, second;
    counter := SortCounter(first + second);
    counter := ReverseCounter(counter);
    SumOfBoth(a, b);
    SumOfPermuted(counter, a + b);
    assert |multiset(singles)| == |singles| && |multiset(collectSingle)| == |collectSingle|;
    assert |multiset(pairs)| == |pairs| && |multiset(collectPairs)| == |collectPairs|;
  }
}
