/** Tag hashing: LtagHash packs the first ten characters of a name into 60 bits, de_hash unpacks them. */
module TagHash {

  /** The table of characters: `_`, the lower-case letters, the upper-case letters, the digits, a quote. */
  function CharAt(i: nat): (c: char)
    requires i < 64
    ensures c == '_' <==> i == 0
  {
    if i == 0 then '_'
    else if i <= 26 then 'a' + (i - 1) as char
    else if i <= 52 then 'A' + (i - 27) as char
    else if i <= 62 then '0' + (i - 53) as char
    else '\''
  }

  const LOWER := "_abcdefghijklmnopqrstuvwxyz"
  const UPPER := "ABCDEFGHIJKLMNOPQRSTUVWXYZ"
  const FIGURES := "0123456789'"
  const CHARS := LOWER + UPPER + FIGURES

  /** The table written out. */
  lemma TableIs(i: nat)
    requires i < 64
    ensures |CHARS| == 64 && CharAt(i) == CHARS[i]
  {
    hide CharAt;
    assert |LOWER| == 27 && |UPPER| == 26 && |FIGURES| == 11;
    if i <= 26 {
      LowerCase(i);
    } else if i <= 52 {
      UpperCase(i - 27);
    } else {
      Figures(i - 53);
    }
  }

  lemma LowerCase(i: nat)
    requires i <= 26
    ensures |LOWER| == 27 && CharAt(i) == LOWER[i]
  {
  }

  lemma UpperCase(i: nat)
    requires i < 26
    ensures |UPPER| == 26 && CharAt(27 + i) == UPPER[i]
  {
  }

  lemma Figures(i: nat)
    requires i < 11
    ensures |FIGURES| == 11 && CharAt(53 + i) == FIGURES[i]
  {
  }

  predicate InTable(c: char) {
    exists i: nat :: i < 64 && CharAt(i) == c
  }

  const MAX_TAGLEN := 10
  const LIMIT := 0x1000_0000_0000_0000 // 2 to the 60th

  datatype Result = Hash(boxed: int) | Failure

  // Numbers in base 64, the most significant digit first.

  predicate AreDigits(ds: seq<int>) {
    forall i :: 0 <= i < |ds| ==> 0 <= ds[i] < 64
  }

  function Value(ds: seq<int>): (n: int) {
    if ds == [] then 0 else 64 * Value(ds[..|ds| - 1]) + ds[|ds| - 1]
  }

  function DigitsOf(n: nat): (ds: seq<int>)
    ensures AreDigits(ds) && (ds != [] ==> ds[0] != 0)
  {
    if n == 0 then [] else DigitsOf(n / 64) + [n % 64]
  }

  function Power(k: nat): (p: nat)
    ensures p > 0
  {
    if k == 0 then 1 else 64 * Power(k - 1)
  }

  lemma {:induction false} ValueBound(ds: seq<int>)
    requires AreDigits(ds)
    ensures 0 <= Value(ds) < Power(|ds|)
  {
    if ds != [] {
      ValueBound(ds[..|ds| - 1]);
    }
  }

  lemma {:induction false} DigitsBound(n: nat, k: nat)
    ensures |DigitsOf(n)| <= k <==> n < Power(k)
  {
    if n == 0 {
    } else if k > 0 {
      DigitsBound(n / 64, k - 1);
    }
  }

  lemma LastDigit(m: nat, d: int)
    requires 0 <= d < 64
    ensures (64 * m + d) / 64 == m && (64 * m + d) % 64 == d
  {
  }

  lemma {:induction false} DigitsOfValue(ds: seq<int>)
    requires AreDigits(ds) && (ds != [] ==> ds[0] != 0)
    ensures Value(ds) >= 0 && DigitsOf(Value(ds)) == ds
    ensures ds != [] ==> Value(ds) > 0
  {
    if ds != [] {
      var n := |ds| - 1;
      DigitsOfValue(ds[..n]);
      assert ds == ds[..n] + [ds[n]];
      LastDigit(Value(ds[..n]), ds[n]);
    }
  }

  lemma PowerTen()
    ensures Power(MAX_TAGLEN) == LIMIT
  {
    assert Power(2) == 0x1000;
    assert Power(4) == 0x100_0000;
    assert Power(6) == 0x10_0000_0000;
    assert Power(8) == 0x1_0000_0000_0000;
  }

  // Names.

  /** The position that the search for `c` finds, or the length of the table. */
  function Position(c: char): (pos: nat)
    ensures pos <= 64 && (pos < 64 ==> CharAt(pos) == c)
    ensures forall i :: 0 <= i < pos ==> CharAt(i) != c
  {
    PositionFrom(c, 0)
  }

  function PositionFrom(c: char, i: nat): (pos: nat)
    requires i <= 64
    ensures i <= pos <= 64 && (pos < 64 ==> CharAt(pos) == c)
    ensures forall j :: i <= j < pos ==> CharAt(j) != c
    decreases 64 - i
  {
    if i < 64 && CharAt(i) != c then PositionFrom(c, i + 1) else i
  }

  function Prefix(s: string): string {
    if |s| <= MAX_TAGLEN then s else s[..MAX_TAGLEN]
  }

  predicate InAlphabet(s: string) {
    forall i :: 0 <= i < |s| ==> InTable(s[i])
  }

  function Positions(s: string): (ps: seq<int>)
    ensures |ps| == |s| && forall i :: 0 <= i < |s| ==> ps[i] == Position(s[i])
  {
    seq(|s|, i requires 0 <= i < |s| => Position(s[i]))
  }

  function Letters(ds: seq<int>): (s: string)
    requires AreDigits(ds)
    ensures |s| == |ds| && forall i :: 0 <= i < |ds| ==> s[i] == CharAt(ds[i])
  {
    seq(|ds|, i requires 0 <= i < |ds| => CharAt(ds[i]))
  }

  lemma PositionInTable(c: char)
    requires InTable(c)
    ensures Position(c) < 64
  {
    var i: nat :| i < 64 && CharAt(i) == c;
  }

  lemma LettersOfPositions(s: string)
    requires InAlphabet(s)
    ensures AreDigits(Positions(s)) && Letters(Positions(s)) == s
  {
    forall i | 0 <= i < |s| ensures Position(s[i]) < 64 {
      PositionInTable(s[i]);
    }
  }

  /** strncmp of two strings without NUL finds no difference in the first `n` places. */
  predicate SameUpTo(s: string, t: string, n: nat) {
    (if |s| <= n then s else s[..n]) == (if |t| <= n then t else t[..n])
  }

  /** The names that can be hashed. */
  predicate Hashable(s: string) {
    InAlphabet(Prefix(s)) && (s != "" ==> s[0] != '_')
  }

  function Unhash(n: nat): string {
    Letters(DigitsOf(n))
  }

  /** The hash keeps the first ten characters exactly when the name does not start with `_`, whose digit
      is zero. */
  lemma KeepsPrefix(s: string)
    requires InAlphabet(Prefix(s))
    ensures 0 <= Value(Positions(Prefix(s))) < LIMIT
    ensures SameUpTo(s, Unhash(Value(Positions(Prefix(s)))), MAX_TAGLEN) <==> Hashable(s)
    ensures Hashable(s) ==> Unhash(Value(Positions(Prefix(s)))) == Prefix(s)
  {
    var p := Prefix(s);
    var ds := Positions(p);
    LettersOfPositions(p);
    ValueBound(ds);
    PowerTen();
    PowerGrows(|ds|, MAX_TAGLEN);
    DigitsBound(Value(ds), MAX_TAGLEN);
    if s != "" && s[0] == '_' {
      assert CharAt(0) == '_' && Position('_') == 0;
      var d := DigitsOf(Value(ds));
      assert Letters(d) != p;
    } else if s != "" {
      assert CharAt(0) == '_' && ds[0] == Position(s[0]) && CharAt(ds[0]) == s[0];
      DigitsOfValue(ds);
    }
  }

  lemma {:induction false} PowerGrows(j: nat, k: nat)
    requires j <= k
    ensures Power(j) <= Power(k)
  {
    if j < k {
      PowerGrows(j, k - 1);
    }
  }

  /** Two names that can be hashed collide exactly when their first ten characters agree. */
  lemma CollidesExactly(s: string, t: string)
    requires Hashable(s) && Hashable(t)
    ensures Value(Positions(Prefix(s))) == Value(Positions(Prefix(t))) <==> Prefix(s) == Prefix(t)
  {
    KeepsPrefix(s);
    KeepsPrefix(t);
  }

  lemma UnhashStep(n: nat)
    requires n > 0
    ensures Unhash(n) == Unhash(n / 64) + [CharAt(n % 64)]
    ensures |DigitsOf(n)| == |DigitsOf(n / 64)| + 1
  {
  }

  lemma FitsBuffer(n: nat)
    ensures |DigitsOf(n)| <= MAX_TAGLEN <==> n < LIMIT
    ensures Unhash(0) == [] && DigitsOf(0) == []
  {
    PowerTen();
    DigitsBound(n, MAX_TAGLEN);
  }

  lemma NoHash(s: string)
    ensures Value(Positions(s[..0])) == 0
  {
  }

  lemma HashStep(s: string, i: nat)
    requires i < |s| && InAlphabet(s[..i]) && InTable(s[i])
    ensures InAlphabet(s[..i + 1]) && Value(Positions(s[..i + 1])) == 64 * Value(Positions(s[..i])) + Position(s[i])
  {
    assert s[..i + 1] == s[..i] + [s[i]];
    assert Positions(s[..i + 1])[..i] == Positions(s[..i]);
  }

  // The functions of the runtime.

  /** de_hash fills the buffer from its end; `inside` is false where it would write before the start. A negative
      number never gets to zero: its shifts end in -1. */
  method DeHash(n: int, buf: array<char>) returns (p: int, inside: bool)
    requires buf.Length == MAX_TAGLEN + 1
    modifies buf
    ensures inside <==> 0 <= n < LIMIT
    ensures inside ==> 0 <= p <= MAX_TAGLEN && buf[MAX_TAGLEN] == '\0' && buf[p..MAX_TAGLEN] == Unhash(n)
  {
    hide Unhash, DigitsOf, CharAt;
    if n >= 0 {
      FitsBuffer(n);
    }
    buf[MAX_TAGLEN] := '\0';
    p := MAX_TAGLEN - 1;
    var rest := n;
    while rest != 0
      invariant -1 <= p < MAX_TAGLEN && (rest >= 0 <==> n >= 0)
      invariant n >= 0 ==> Unhash(rest) + buf[p + 1..MAX_TAGLEN] == Unhash(n)
      invariant n >= 0 ==> |DigitsOf(rest)| + MAX_TAGLEN - (p + 1) == |DigitsOf(n)|
      invariant buf[MAX_TAGLEN] == '\0'
      decreases p
    {
      if n >= 0 {
        UnhashStep(rest);
      }
      if p < 0 {
        return p, false;
      }
      ghost var tail := buf[p + 1..MAX_TAGLEN];
      buf[p] := CharAt(rest % 64);
      assert buf[p..MAX_TAGLEN] == [CharAt(rest % 64)] + tail;
      p := p - 1;
      rest := rest / 64;
    }
    p := p + 1;
    inside := true;
  }

  /** The inner loop of LtagHash. */
  method FindPosition(c: char) returns (pos: nat)
    ensures pos == Position(c) <= 64 && (pos < 64 <==> InTable(c))
  {
    pos := 0;
    while pos < 64 && CharAt(pos) != c
      invariant pos <= 64
      invariant forall j :: 0 <= j < pos ==> CharAt(j) != c
    {
      pos := pos + 1;
    }
  }

  /** LtagHash: the outcome is a hash exactly for the names that can be hashed. */
  method LtagHash(s: string, buf: array<char>) returns (r: Result)
    requires buf.Length == MAX_TAGLEN + 1
    modifies buf
    ensures r.Hash? <==> Hashable(s)
    ensures r.Hash? ==> r.boxed == 2 * Value(Positions(Prefix(s))) + 1
  {
    hide Value, Positions, Position, Unhash, CharAt, InTable;
    var i, h := 0, 0;
    assert Value(Positions(s[..0])) == 0 by { NoHash(s); }
    while i < |s| && i < MAX_TAGLEN
      invariant i <= |Prefix(s)|
      invariant InAlphabet(s[..i])
      invariant h == Value(Positions(s[..i]))
    {
      var pos := FindPosition(s[i]);
      if pos == 64 {
        assert Prefix(s)[i] == s[i];
        return Failure;
      }
      HashStep(s, i);
      h := 64 * h + pos;
      i := i + 1;
    }
    assert s[..i] == Prefix(s);
    KeepsPrefix(s);
    var p, inside := DeHash(h, buf);
    if !SameUpTo(s, buf[p..MAX_TAGLEN], MAX_TAGLEN) {
      return Failure;
    }
    r := Hash(2 * h + 1);
  }
}
