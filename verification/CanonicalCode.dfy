/** Canonical Huffman codes as section 3.2.2 of RFC 1951 defines them: shorter
    codes first, and within one length in symbol order.  The two facts everything
    else rests on are proved here from the Kraft equality alone: no code is a
    prefix of another, and every 15-bit string starts with some code. */
module CanonicalCode {
  import opened Bits

  /** Code lengths, one per symbol; 0 means that the symbol is unused. */
  predicate ValidLengths(lens: seq<nat>) {
    |lens| <= 288 && forall s | 0 <= s < |lens| :: lens[s] <= 15
  }

  predicate Used(lens: seq<nat>, s: nat) {
    s < |lens| && lens[s] > 0
  }

  /** How many of the first `n` symbols have length `l` (bl_count in RFC 1951). */
  function Count(lens: seq<nat>, l: nat, n: nat): nat
    requires n <= |lens|
  {
    if n == 0 then 0 else Count(lens, l, n - 1) + (if lens[n - 1] == l then 1 else 0)
  }

  /** The numerically smallest code of length `l` (next_code in RFC 1951). */
  function First(lens: seq<nat>, l: nat): nat
    requires l >= 1
  {
    if l == 1 then 0 else 2 * (First(lens, l - 1) + Count(lens, l - 1, |lens|))
  }

  function CodeNum(lens: seq<nat>, s: nat): nat
    requires Used(lens, s)
  {
    First(lens, lens[s]) + Count(lens, lens[s], s)
  }

  /** The code of symbol `s` as the bits a decoder meets, in order. */
  function Code(lens: seq<nat>, s: nat): (r: seq<bool>)
    requires Used(lens, s)
    ensures |r| == lens[s]
  {
    CodeBits(CodeNum(lens, s), lens[s])
  }

  /** The example of section 3.2.2 of RFC 1951: eight symbols with code lengths from 2 to 4. */
  lemma {:induction false} Rfc1951Example()
    ensures var lens := [3, 3, 3, 3, 3, 2, 4, 4];
      && CodeNum(lens, 5) == 0 && CodeNum(lens, 0) == 2 && CodeNum(lens, 1) == 3 && CodeNum(lens, 2) == 4
      && CodeNum(lens, 3) == 5 && CodeNum(lens, 4) == 6 && CodeNum(lens, 6) == 14 && CodeNum(lens, 7) == 15
      && Code(lens, 0) == [false, true, false] && Code(lens, 6) == [true, true, true, false]
  {
    hide Count, CodeBits;
    var lens := [3, 3, 3, 3, 3, 2, 4, 4];
    assert lens[0] == 3 && lens[1] == 3 && lens[2] == 3 && lens[3] == 3 && lens[4] == 3 && lens[5] == 2 && lens[6] == 4 && lens[7] == 4;
    ExampleCounts(lens, 1);
    ExampleCounts(lens, 2);
    ExampleCounts(lens, 3);
    ExampleCounts(lens, 4);
    assert First(lens, 1) == 0 && First(lens, 2) == 0 && First(lens, 3) == 2 && First(lens, 4) == 14;
    ExampleBits();
  }

  lemma {:induction false} ExampleBits()
    ensures CodeBits(2, 3) == [false, true, false] && CodeBits(14, 4) == [true, true, true, false]
  {
    assert CodeBits(1, 1) == [true] && CodeBits(3, 2) == [true, true] && CodeBits(7, 3) == [true, true, true];
    assert CodeBits(0, 1) == [false] && CodeBits(1, 2) == [false, true];
  }

  lemma {:induction false} ExampleCounts(lens: seq<nat>, l: nat)
    requires lens == [3, 3, 3, 3, 3, 2, 4, 4]
    ensures forall n | 0 <= n <= 5 :: Count(lens, l, n) == if l == 3 then n else 0
    ensures Count(lens, l, 6) == if l == 3 then 5 else if l == 2 then 1 else 0
    ensures Count(lens, l, 7) == Count(lens, l, 6) + if l == 4 then 1 else 0
    ensures Count(lens, l, 8) == Count(lens, l, 6) + if l == 4 then 2 else 0
  {
    assert lens[0] == 3 && lens[1] == 3 && lens[2] == 3 && lens[3] == 3 && lens[4] == 3 && lens[5] == 2 && lens[6] == 4 && lens[7] == 4;
    assert Count(lens, l, 0) == 0;
    assert Count(lens, l, 1) == if l == 3 then 1 else 0;
    assert Count(lens, l, 2) == if l == 3 then 2 else 0;
    assert Count(lens, l, 3) == if l == 3 then 3 else 0;
    assert Count(lens, l, 4) == if l == 3 then 4 else 0;
    assert Count(lens, l, 5) == if l == 3 then 5 else 0;
  }

  /** Sum of 2^(16 - length) over the used symbols among the first `n` shorter than `l`. */
  function KraftBelow(lens: seq<nat>, l: nat, n: nat): nat
    requires n <= |lens| && l <= 16
  {
    if n == 0 then 0
    else KraftBelow(lens, l, n - 1)
         + (if 0 < lens[n - 1] < l then Pow2(16 - lens[n - 1]) else 0)
  }

  /** The Kraft sum of all used symbols, scaled by 2^16. */
  function KraftSum(lens: seq<nat>): nat {
    KraftBelow(lens, 16, |lens|)
  }

  predicate Complete(lens: seq<nat>) {
    KraftSum(lens) == 65536
  }

  function UsedCount(lens: seq<nat>, n: nat): nat
    requires n <= |lens|
  {
    if n == 0 then 0 else UsedCount(lens, n - 1) + (if lens[n - 1] > 0 then 1 else 0)
  }

  /** The code-length assignments the decoder accepts. */
  predicate Accepted(lens: seq<nat>) {
    Complete(lens) || UsedCount(lens, |lens|) <= 1
  }

  /** One symbol alone or none is accepted, and otherwise what leaves no bit string without a code
      and gives none to two. */
  lemma {:induction false} AcceptedExamples()
    ensures Accepted([]) && Accepted([0, 3, 0]) && Accepted([1, 2, 2])
    ensures !Accepted([1, 2]) && !Accepted([1, 1, 2])
  {
    Halves();
    Sums([0, 3, 0]);
    Sums([1, 2, 2]);
    Sums([1, 1, 2]);
    assert KraftBelow([1, 2], 16, 1) == Pow2(15) && UsedCount([1, 2], 1) == 1;
  }

  lemma {:induction false} Halves()
    ensures Pow2(15) == 32768 && Pow2(14) == 16384
  {
  }

  lemma {:induction false} Sums(lens: seq<nat>)
    requires |lens| == 3
    ensures KraftSum(lens) == KraftOf(lens[0]) + KraftOf(lens[1]) + KraftOf(lens[2])
    ensures UsedCount(lens, 3) == Bit(lens[0] > 0) + Bit(lens[1] > 0) + Bit(lens[2] > 0)
  {
    assert KraftBelow(lens, 16, 0) == 0 && UsedCount(lens, 0) == 0;
    assert KraftBelow(lens, 16, 1) == KraftOf(lens[0]) && UsedCount(lens, 1) == Bit(lens[0] > 0);
    assert KraftBelow(lens, 16, 2) == KraftOf(lens[0]) + KraftOf(lens[1]);
    assert KraftBelow(lens, 16, 3) == KraftOf(lens[0]) + KraftOf(lens[1]) + KraftOf(lens[2]);
  }

  function KraftOf(l: nat): nat {
    if 0 < l < 16 then Pow2(16 - l) else 0
  }

  // ---- the Kraft sum and the smallest codes ----

  lemma {:induction false} KraftStep(lens: seq<nat>, l: nat, n: nat)
    requires n <= |lens| && 1 <= l <= 15
    ensures KraftBelow(lens, l + 1, n) == KraftBelow(lens, l, n) + Count(lens, l, n) * Pow2(16 - l)
  {
    if n > 0 {
      KraftStep(lens, l, n - 1);
      var p := Pow2(16 - l);
      assert (Count(lens, l, n - 1) + 1) * p == Count(lens, l, n - 1) * p + p;
    }
  }

  lemma {:induction false} KraftNone(lens: seq<nat>, n: nat)
    requires n <= |lens|
    ensures KraftBelow(lens, 1, n) == 0
  {
    if n > 0 {
      KraftNone(lens, n - 1);
    }
  }

  /** The running total of the decoder is the Kraft sum of the lengths so far. */
  lemma {:induction false} FirstIsKraft(lens: seq<nat>, l: nat)
    requires 1 <= l <= 16
    ensures First(lens, l) * Pow2(16 - l) == KraftBelow(lens, l, |lens|)
  {
    if l == 1 {
      KraftNone(lens, |lens|);
    } else {
      FirstIsKraft(lens, l - 1);
      KraftStep(lens, l - 1, |lens|);
      var f, c, p := First(lens, l - 1), Count(lens, l - 1, |lens|), Pow2(16 - l);
      assert Pow2(16 - (l - 1)) == 2 * p;
      MulDouble(f, c, p);
    }
  }

  /** No 32-bit overflow: the running total stays far below 2^32. */
  lemma {:induction false} FirstBound(lens: seq<nat>, l: nat)
    requires 1 <= l <= 16 && |lens| <= 288
    ensures First(lens, l) + 576 <= 288 * Pow2(l)
  {
    if l > 1 {
      FirstBound(lens, l - 1);
      CountBound(lens, l - 1, |lens|);
    }
  }

  lemma {:induction false} CountBound(lens: seq<nat>, l: nat, n: nat)
    requires n <= |lens|
    ensures Count(lens, l, n) <= n
  {
    if n > 0 {
      CountBound(lens, l, n - 1);
    }
  }

  /** How many of the first `n` symbols are used and shorter than `l`. */
  function UsedBelow(lens: seq<nat>, l: nat, n: nat): nat
    requires n <= |lens|
  {
    if n == 0 then 0 else UsedBelow(lens, l, n - 1) + (if 0 < lens[n - 1] < l then 1 else 0)
  }

  lemma {:induction false} UsedBelowStep(lens: seq<nat>, l: nat, n: nat)
    requires n <= |lens| && l >= 1
    ensures UsedBelow(lens, l + 1, n) == UsedBelow(lens, l, n) + Count(lens, l, n)
    ensures l == 1 ==> UsedBelow(lens, l, n) == 0
  {
    if n > 0 {
      UsedBelowStep(lens, l, n - 1);
    }
  }

  lemma {:induction false} UsedBelowAll(lens: seq<nat>, n: nat)
    requires ValidLengths(lens) && n <= |lens|
    ensures UsedBelow(lens, 16, n) == UsedCount(lens, n)
  {
    if n > 0 {
      UsedBelowAll(lens, n - 1);
    }
  }

  // ---- codes as consecutive intervals of the 15-bit strings ----

  /** How many 15-bit strings start with a given code of length `l`. */
  function Size(l: nat): (r: nat)
    requires l <= 15
    ensures r >= 1
  {
    Pow2(15 - l)
  }

  /** Where the codes of length `l` start. */
  function Base(lens: seq<nat>, l: nat): nat
    requires 1 <= l <= 16
  {
    if l == 1 then 0 else Base(lens, l - 1) + Count(lens, l - 1, |lens|) * Size(l - 1)
  }

  /** The first 15-bit string, as a number, that starts with `p`. */
  function Lo(p: seq<bool>): nat
    requires |p| <= 15
  {
    if p == [] then 0
    else Lo(p[..|p| - 1]) + (if p[|p| - 1] then Size(|p|) else 0)
  }

  lemma {:induction false} BaseIsFirst(lens: seq<nat>, l: nat)
    requires 1 <= l <= 15
    ensures Base(lens, l) == First(lens, l) * Size(l)
  {
    if l > 1 {
      BaseIsFirst(lens, l - 1);
      var f, c, z := First(lens, l - 1), Count(lens, l - 1, |lens|), Size(l);
      assert Size(l - 1) == 2 * z;
      MulDouble(f, c, z);
    }
  }

  /** A complete assignment fills all 15-bit strings. */
  lemma CompleteBase(lens: seq<nat>)
    requires Complete(lens)
    ensures Base(lens, 16) == Pow2(15)
  {
    FirstIsKraft(lens, 16);
    BaseIsFirst(lens, 15);
    assert Size(15) == 1;
    assert Pow2(15) == 32768;
  }

  lemma {:induction false} BaseMono(lens: seq<nat>, l: nat, m: nat)
    requires 1 <= l <= m <= 16
    ensures Base(lens, l) <= Base(lens, m)
  {
    if l < m {
      BaseMono(lens, l, m - 1);
      MulNonNeg(Count(lens, m - 1, |lens|), Size(m - 1));
    }
  }

  lemma {:induction false} CountMono(lens: seq<nat>, l: nat, m: nat, n: nat)
    requires m <= n <= |lens|
    ensures Count(lens, l, m) <= Count(lens, l, n)
  {
    if m < n {
      CountMono(lens, l, m, n - 1);
    }
  }

  /** Start of the interval of symbol `s`. */
  function SymLo(lens: seq<nat>, s: nat): nat
    requires Used(lens, s) && lens[s] <= 15
  {
    Base(lens, lens[s]) + Count(lens, lens[s], s) * Size(lens[s])
  }

  lemma SymFits(lens: seq<nat>, s: nat)
    requires Used(lens, s) && lens[s] <= 15
    ensures SymLo(lens, s) + Size(lens[s]) <= Base(lens, lens[s] + 1)
  {
    var l := lens[s];
    CountMono(lens, l, s + 1, |lens|);
    MulStep(Count(lens, l, s), Count(lens, l, |lens|), Size(l));
  }

  /** Different symbols have disjoint intervals. */
  lemma SymDisjoint(lens: seq<nat>, s: nat, u: nat)
    requires ValidLengths(lens) && Used(lens, s) && Used(lens, u)
    requires lens[s] < lens[u] || (lens[s] == lens[u] && s < u)
    ensures SymLo(lens, s) + Size(lens[s]) <= SymLo(lens, u)
  {
    if lens[s] < lens[u] {
      SymFits(lens, s);
      BaseMono(lens, lens[s] + 1, lens[u]);
    } else {
      var l := lens[s];
      CountMono(lens, l, s + 1, u);
      MulStep(Count(lens, l, s), Count(lens, l, u), Size(l));
    }
  }

  lemma LoSnoc(p: seq<bool>, b: bool)
    requires |p| < 15
    ensures Lo(p + [b]) == Lo(p) + (if b then Size(|p| + 1) else 0)
    ensures Size(|p|) == 2 * Size(|p| + 1)
  {
    assert (p + [b])[..|p|] == p;
  }

  /** The interval of a code starts at its number times its size. */
  lemma {:induction false} LoOfCode(c: nat, l: nat)
    requires l <= 15 && c < Pow2(l)
    ensures Lo(CodeBits(c, l)) == c * Size(l)
  {
    if l > 0 {
      LoOfCode(c / 2, l - 1);
      LoSnoc(CodeBits(c / 2, l - 1), c % 2 == 1);
      var z := Size(l);
      HalfProduct(c, z);
    }
  }

  lemma SymLoIsProduct(lens: seq<nat>, s: nat)
    requires Used(lens, s) && lens[s] <= 15
    ensures SymLo(lens, s) == CodeNum(lens, s) * Size(lens[s])
  {
    var l := lens[s];
    BaseIsFirst(lens, l);
    MulDistribute(First(lens, l), Count(lens, l, s), Size(l));
  }

  lemma LoOfSym(lens: seq<nat>, s: nat)
    requires ValidLengths(lens) && Complete(lens) && Used(lens, s)
    ensures Lo(Code(lens, s)) == SymLo(lens, s)
    ensures SymLo(lens, s) + Size(lens[s]) <= Pow2(15)
  {
    var l, c := lens[s], CodeNum(lens, s);
    SymLoIsProduct(lens, s);
    CompleteBase(lens);
    SymFits(lens, s);
    BaseMono(lens, l + 1, 16);
    Pow2Add(l, 15 - l);
    MulCancel(c, Pow2(l), Size(l));
    LoOfCode(c, l);
  }

  // ---- intervals of bit strings nest exactly when the strings are prefixes ----

  lemma {:induction false} LoOfPrefix(p: seq<bool>, w: seq<bool>)
    requires |w| <= 15 && p <= w
    ensures Lo(p) <= Lo(w) && Lo(w) + Size(|w|) <= Lo(p) + Size(|p|)
  {
    if |p| < |w| {
      var v := w[..|w| - 1];
      assert p <= v;
      LoOfPrefix(p, v);
      assert Size(|v|) == 2 * Size(|w|);
    } else {
      assert p == w;
    }
  }

  lemma {:induction false} LoApart(p: seq<bool>, q: seq<bool>)
    requires |p| == |q| <= 15 && p != q
    ensures Lo(p) + Size(|p|) <= Lo(q) || Lo(q) + Size(|q|) <= Lo(p)
  {
    var n := |p|;
    var p', q' := p[..n - 1], q[..n - 1];
    assert p == p' + [p[n - 1]] && q == q' + [q[n - 1]];
    assert Size(n - 1) == 2 * Size(n);
    if p' != q' {
      LoApart(p', q');
    }
  }

  lemma InIntervalIsPrefix(p: seq<bool>, w: seq<bool>)
    requires |p| <= |w| <= 15
    requires Lo(p) <= Lo(w) < Lo(p) + Size(|p|)
    ensures p <= w
  {
    var q := w[..|p|];
    LoOfPrefix(q, w);
    if p != q {
      LoApart(p, q);
    }
  }

  // ---- prefix freedom and coverage ----

  lemma {:induction false} UsedCountMono(lens: seq<nat>, m: nat, n: nat)
    requires m <= n <= |lens|
    ensures UsedCount(lens, m) <= UsedCount(lens, n)
  {
    if m < n {
      UsedCountMono(lens, m, n - 1);
    }
  }

  lemma OnlyOneUsed(lens: seq<nat>, s: nat, u: nat)
    requires UsedCount(lens, |lens|) <= 1 && Used(lens, s) && Used(lens, u)
    ensures s == u
  {
    if s < u {
      UsedCountMono(lens, s + 1, u);
      UsedCountMono(lens, u + 1, |lens|);
    } else if u < s {
      UsedCountMono(lens, u + 1, s);
      UsedCountMono(lens, s + 1, |lens|);
    }
  }

  /** No code of an accepted assignment is a prefix of another. */
  lemma PrefixFree(lens: seq<nat>, s: nat, u: nat)
    requires ValidLengths(lens) && Accepted(lens)
    requires Used(lens, s) && Used(lens, u) && Code(lens, s) <= Code(lens, u)
    ensures s == u
  {
    if UsedCount(lens, |lens|) <= 1 {
      OnlyOneUsed(lens, s, u);
    } else if s != u {
      LoOfPrefix(Code(lens, s), Code(lens, u));
      LoOfSym(lens, s);
      LoOfSym(lens, u);
      if lens[s] < lens[u] || s < u {
        SymDisjoint(lens, s, u);
      } else {
        SymDisjoint(lens, u, s);
      }
    }
  }

  /** At most one code starts a given string. */
  lemma AtMostOneMatches(lens: seq<nat>, s: nat, u: nat, w: seq<bool>)
    requires ValidLengths(lens) && Accepted(lens)
    requires Used(lens, s) && Used(lens, u) && Code(lens, s) <= w && Code(lens, u) <= w
    ensures s == u
  {
    if lens[s] <= lens[u] {
      assert Code(lens, s) <= Code(lens, u);
      PrefixFree(lens, s, u);
    } else {
      assert Code(lens, u) <= Code(lens, s);
      PrefixFree(lens, u, s);
    }
  }

  lemma {:induction false} FindRank(lens: seq<nat>, l: nat, r: nat, n: nat) returns (s: nat)
    requires n <= |lens| && r < Count(lens, l, n)
    ensures s < n && lens[s] == l && Count(lens, l, s) == r
  {
    if lens[n - 1] == l && Count(lens, l, n - 1) == r {
      s := n - 1;
    } else {
      s := FindRank(lens, l, r, n - 1);
    }
  }

  lemma {:induction false} FindLength(lens: seq<nat>, v: nat, m: nat) returns (l: nat)
    requires 1 <= m <= 16 && v < Base(lens, m)
    ensures 1 <= l < m && Base(lens, l) <= v < Base(lens, l + 1)
  {
    if Base(lens, m - 1) <= v {
      l := m - 1;
    } else {
      l := FindLength(lens, v, m - 1);
    }
  }

  lemma Rank(v: nat, n: nat, z: nat) returns (r: nat)
    requires z > 0 && v < n * z
    ensures r < n && r * z <= v < r * z + z
  {
    r := v / z;
    assert z * r + v % z == v;
    if r >= n {
      MulStep(n - 1, r, z);
      MulDistribute(n - 1, 1, z);
      assert false;
    }
  }

  /** Every 15-bit string starts with the code of some symbol. */
  lemma SomeMatches(lens: seq<nat>, w: seq<bool>) returns (s: nat)
    requires ValidLengths(lens) && Complete(lens) && |w| == 15
    ensures Used(lens, s) && Code(lens, s) <= w
  {
    var v := Lo(w);
    LoOfPrefix([], w);
    CompleteBase(lens);
    var l := FindLength(lens, v, 16);
    var z, n := Size(l), Count(lens, l, |lens|);
    var r := Rank(v - Base(lens, l), n, z);
    s := FindRank(lens, l, r, |lens|);
    LoOfSym(lens, s);
    InIntervalIsPrefix(Code(lens, s), w);
  }
}
