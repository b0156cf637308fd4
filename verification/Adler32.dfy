/** The Adler-32 checksum of section 2.2 of RFC 1950, and the block-wise loop of
    tinfl that puts off the modulo for up to 5552 bytes. */
module Adler32 {
  import opened Bits

  const BASE: nat := 65521
  const BLOCK: nat := 5552

  /** A C unsigned 32-bit value: every operation must stay in range. */
  newtype u32 = x: int | 0 <= x < 0x1_0000_0000

  datatype Sums = Sums(s1: nat, s2: nat)

  /** One byte, reduced at once, as the format defines it. */
  function Step(s: Sums, b: Byte): Sums {
    var s1 := (s.s1 + b) % BASE;
    Sums(s1, (s.s2 + s1) % BASE)
  }

  function Fold(s: Sums, data: seq<Byte>): Sums {
    if data == [] then s
    else
      var n := |data| - 1;
      Step(Fold(s, data[..n]), data[n])
  }

  /** The bytes added up. */
  function Total(data: seq<Byte>): nat {
    if data == [] then 0 else Total(data[..|data| - 1]) + data[|data| - 1]
  }

  /** The bytes added up, each as often as there are bytes from it to the end. */
  function Weighted(data: seq<Byte>): nat {
    if data == [] then 0 else Weighted(data[..|data| - 1]) + Total(data)
  }

  /** A checksum and some bytes, in the words of section 2.2 of RFC 1950: the low half is the sum
      of the bytes, the high half the sum of all low halves, both modulo 65521. */
  predicate Checks(check: nat, data: seq<Byte>, r: nat) {
    if data == [] then r == check
    else
      && r % 65536 == (check % 65536 + Total(data)) % 65521
      && r / 65536 == (check / 65536 + |data| * (check % 65536) + Weighted(data)) % 65521
  }

  function LowSum(s: Sums, data: seq<Byte>): nat {
    s.s1 + Total(data)
  }

  function HighSum(s: Sums, data: seq<Byte>): nat {
    s.s2 + |data| * s.s1 + Weighted(data)
  }

  lemma {:induction false} SumsGrow(s: Sums, data: seq<Byte>)
    requires data != []
    ensures var n := |data| - 1;
      LowSum(s, data) == LowSum(s, data[..n]) + data[n] && HighSum(s, data) == HighSum(s, data[..n]) + LowSum(s, data[..n]) + data[n]
  {
    assert |data| * s.s1 == (|data| - 1) * s.s1 + s.s1;
  }

  /** The sums byte by byte are those of all bytes at once. */
  lemma {:induction false} FoldIsSum(s: Sums, data: seq<Byte>)
    ensures Fold(s, data).s1 % BASE == LowSum(s, data) % BASE && Fold(s, data).s2 % BASE == HighSum(s, data) % BASE
    ensures data != [] ==> Fold(s, data).s1 == LowSum(s, data) % BASE && Fold(s, data).s2 == HighSum(s, data) % BASE
  {
    if data != [] {
      hide LowSum, HighSum, Step;
      var n := |data| - 1;
      FoldIsSum(s, data[..n]);
      SumsGrow(s, data);
      StepMod(LowSum(s, data[..n]), HighSum(s, data[..n]), Fold(s, data[..n]), data[n]);
    }
  }

  /** The checksum is that of the words above. */
  lemma {:induction false} FoldChecks(check: nat, data: seq<Byte>)
    ensures Checks(check, data, Pack(Fold(Unpack(check), data)))
  {
    hide Fold, Total, Weighted;
    if data == [] {
      EmptyFold(Unpack(check));
    } else {
      FoldIsSum(Unpack(check), data);
      FoldReduced(Unpack(check), data);
      Halves(Fold(Unpack(check), data));
    }
  }

  lemma {:induction false} Halves(s: Sums)
    requires s.s1 < BASE
    ensures Pack(s) % 65536 == s.s1 && Pack(s) / 65536 == s.s2
  {
  }

  lemma {:induction false} EmptyFold(s: Sums)
    ensures Fold(s, []) == s
  {
  }

  /** The checksum of "abc". */
  lemma {:induction false} AbcExample()
    ensures Pack(Fold(Unpack(1), [97, 98, 99])) == 0x024d_0127
  {
    var d: seq<Byte> := [97, 98, 99];
    assert d[..2] == [97, 98] && d[..2][..1] == [97] && d[..2][..1][..0] == [];
    assert Fold(Sums(1, 0), [97]) == Sums(98, 98);
    assert Fold(Sums(1, 0), [97, 98]) == Sums(196, 294);
  }

  function Unpack(check: nat): Sums {
    Sums(check % 65536, check / 65536)
  }

  function Pack(s: Sums): nat {
    s.s2 * 65536 + s.s1
  }

  /** Both halves of a checksum stay below 65521 once a byte has been added. */
  lemma {:induction false} FoldReduced(s: Sums, data: seq<Byte>)
    requires data != [] || (s.s1 < BASE && s.s2 < BASE)
    ensures Fold(s, data).s1 < BASE && Fold(s, data).s2 < BASE
  {
  }

  /** Checksums can be taken piece by piece. */
  lemma {:induction false} FoldConcat(s: Sums, x: seq<Byte>, y: seq<Byte>)
    ensures Fold(s, x + y) == Fold(Fold(s, x), y)
  {
    if y == [] {
      assert x + y == x;
    } else {
      var n := |y| - 1;
      FoldConcat(s, x, y[..n]);
      assert (x + y)[..|x + y| - 1] == x + y[..n];
    }
  }

  /** 1 + 2 + ... + n. */
  function Triangle(n: nat): nat {
    if n == 0 then 0 else Triangle(n - 1) + n
  }

  lemma {:induction false} TriangleValue(n: nat)
    ensures 2 * Triangle(n) == n * (n + 1)
  {
    if n > 0 {
      TriangleValue(n - 1);
    }
  }

  /** Reducing a summand early does not change the reduced sum. */
  lemma ModSum(a: nat, b: nat)
    ensures (a % BASE + b) % BASE == (a + b) % BASE
    ensures (b + a % BASE) % BASE == (a + b) % BASE
  {
  }

  lemma {:induction false} TriangleMono(m: nat, n: nat)
    requires m <= n
    ensures Triangle(m) <= Triangle(n)
  {
    if m < n {
      TriangleMono(m, n - 1);
    }
  }

  /** The unreduced sums after `i` bytes of a block: right up to the modulus, and
      bounded by what `i` bytes of 255 can add. */
  ghost predicate Deferred(s: Sums, block: seq<Byte>, i: nat, s1: int, s2: int)
    requires i <= |block|
  {
    && 0 <= s1 <= 65535 + 255 * i && 0 <= s2 <= 65535 * (i + 1) + 255 * Triangle(i)
    && s1 % BASE == Fold(s, block[..i]).s1 % BASE
    && s2 % BASE == Fold(s, block[..i]).s2 % BASE
  }

  /** A block of 5552 bytes cannot overflow 32 bits. */
  lemma NoOverflow(i: nat)
    requires i <= BLOCK
    ensures 65535 + 255 * i < 0x1_0000_0000
    ensures 65535 * (i + 1) + 255 * Triangle(i) < 0x1_0000_0000
  {
    TriangleMono(i, BLOCK);
    TriangleValue(BLOCK);
  }

  lemma Congruent(a: nat, b: nat, c: nat)
    requires a % BASE == b % BASE
    ensures (a + c) % BASE == (b + c) % BASE
  {
    ModSum(a, c);
    ModSum(b, c);
  }

  /** Equal modulo the base before a byte, equal modulo the base after it. */
  lemma StepMod(s1: nat, s2: nat, f: Sums, b: Byte)
    requires s1 % BASE == f.s1 % BASE && s2 % BASE == f.s2 % BASE
    ensures (s1 + b) % BASE == Step(f, b).s1 == Step(f, b).s1 % BASE
    ensures (s2 + s1 + b) % BASE == Step(f, b).s2 == Step(f, b).s2 % BASE
  {
    var u := (f.s1 + b) % BASE;
    Congruent(s1, f.s1, b);
    Congruent(s1 + b, u, s2);
    Congruent(s2, f.s2, u);
  }

  lemma FoldNext(s: Sums, block: seq<Byte>, i: nat)
    requires i < |block|
    ensures Fold(s, block[..i + 1]) == Step(Fold(s, block[..i]), block[i])
  {
    assert block[..i + 1][..i] == block[..i];
  }

  lemma DeferredStep(s: Sums, block: seq<Byte>, i: nat, s1: int, s2: int)
    requires i < |block| && Deferred(s, block, i, s1, s2)
    ensures Deferred(s, block, i + 1, s1 + block[i], s2 + s1 + block[i])
  {
    hide Fold, Step;
    FoldNext(s, block, i);
    StepMod(s1, s2, Fold(s, block[..i]), block[i]);
  }

  /** One unrolled step of the inner loops. */
  method AddByte(s1: u32, s2: u32, ghost s: Sums, block: seq<Byte>, i: nat) returns (s1': u32, s2': u32)
    requires i < |block| <= BLOCK && Deferred(s, block, i, s1 as int, s2 as int)
    ensures Deferred(s, block, i + 1, s1' as int, s2' as int)
  {
    DeferredStep(s, block, i, s1 as int, s2 as int);
    NoOverflow(i + 1);
    s1' := s1 + block[i] as u32;
    s2' := s2 + s1';
  }

  /** One block: eight bytes at a time, then the rest, then reduce. */
  method AddBlock(s1: u32, s2: u32, block: seq<Byte>) returns (s1': u32, s2': u32)
    requires |block| <= BLOCK && s1 < 65536 && s2 < 65536
    ensures var r := Fold(Sums(s1 as int, s2 as int), block);
            Reduce(r) == Sums(s1' as int, s2' as int)
    ensures s1' < 65536 && s2' < 65536
  {
    ghost var s := Sums(s1 as int, s2 as int);
    var i := 0;
    s1', s2' := s1, s2;
    while i + 7 < |block|
      invariant 0 <= i <= |block| && Deferred(s, block, i, s1' as int, s2' as int)
    {
      s1', s2' := AddByte(s1', s2', s, block, i);
      s1', s2' := AddByte(s1', s2', s, block, i + 1);
      s1', s2' := AddByte(s1', s2', s, block, i + 2);
      s1', s2' := AddByte(s1', s2', s, block, i + 3);
      s1', s2' := AddByte(s1', s2', s, block, i + 4);
      s1', s2' := AddByte(s1', s2', s, block, i + 5);
      s1', s2' := AddByte(s1', s2', s, block, i + 6);
      s1', s2' := AddByte(s1', s2', s, block, i + 7);
      i := i + 8;
    }
    while i < |block|
      invariant 0 <= i <= |block| && Deferred(s, block, i, s1' as int, s2' as int)
    {
      s1', s2' := AddByte(s1', s2', s, block, i);
      i := i + 1;
    }
    assert block[..i] == block;
    s1', s2' := s1' % 65521, s2' % 65521;
  }

  lemma StepReduce(s: Sums, b: Byte)
    ensures Step(Reduce(s), b) == Step(s, b)
  {
    ReduceFacts(s);
    StepMod(s.s1 % BASE, s.s2 % BASE, s, b);
    StepMod(s.s1 % BASE, s.s2 % BASE, Reduce(s), b);
  }

  /** Folding from sums that are equal modulo the base gives the same checksum. */
  lemma {:induction false} FoldMod(s: Sums, data: seq<Byte>)
    requires data != []
    ensures Fold(Reduce(s), data) == Fold(s, data)
  {
    var n := |data| - 1;
    if n > 0 {
      FoldMod(s, data[..n]);
    } else {
      StepReduce(s, data[n]);
    }
  }

  function Reduce(s: Sums): Sums {
    Sums(s.s1 % BASE, s.s2 % BASE)
  }

  /** The sums after `pos` bytes; before the first byte they may have been reduced. */
  ghost predicate Reached(s: Sums, data: seq<Byte>, pos: nat, now: Sums)
    requires pos <= |data|
  {
    if pos == 0 then now == s || now == Reduce(s)
    else now == Fold(s, data[..pos])
  }

  lemma ReduceFacts(s: Sums)
    ensures Reduce(Reduce(s)) == Reduce(s)
    ensures s.s1 < BASE && s.s2 < BASE ==> Reduce(s) == s
  {
  }

  lemma ReachedBlock(s: Sums, data: seq<Byte>, pos: nat, n: nat, now: Sums)
    requires pos + n <= |data| && Reached(s, data, pos, now)
    ensures Reached(s, data, pos + n, Reduce(Fold(now, data[pos..pos + n])))
  {
    var block := data[pos..pos + n];
    if n == 0 {
      ReduceFacts(s);
      ReachedNothing(s, data, pos, now);
    } else {
      FoldReduced(now, block);
      ReduceFacts(Fold(now, block));
      ReachedMore(s, data, pos, n, now);
    }
  }

  lemma ReachedNothing(s: Sums, data: seq<Byte>, pos: nat, now: Sums)
    requires pos <= |data| && Reached(s, data, pos, now)
    ensures Reached(s, data, pos, Reduce(Fold(now, data[pos..pos])))
  {
    assert Fold(now, data[pos..pos]) == now;
    ReduceFacts(s);
    if pos > 0 {
      FoldReduced(s, data[..pos]);
      ReduceFacts(now);
    }
  }

  lemma ReachedMore(s: Sums, data: seq<Byte>, pos: nat, n: nat, now: Sums)
    requires 0 < n && pos + n <= |data| && Reached(s, data, pos, now)
    ensures Fold(s, data[..pos + n]) == Fold(now, data[pos..pos + n])
  {
    assert data[..pos] + data[pos..pos + n] == data[..pos + n];
    if pos > 0 {
      FoldConcat(s, data[..pos], data[pos..pos + n]);
    } else {
      assert data[..n] == data[0..n];
      FoldMod(s, data[0..n]);
    }
  }

  lemma ReachedStart(s: Sums, data: seq<Byte>)
    ensures Reached(s, data, 0, s)
  {
  }

  lemma ReachedEnd(s: Sums, data: seq<Byte>, now: Sums)
    requires Reached(s, data, |data|, now) && (data == [] ==> s == now)
    ensures now == Fold(s, data)
  {
    assert data[..|data|] == data;
  }

  /** Update a checksum with the bytes just written.  The first block is the odd
      part of the length and may be empty; every other block has 5552 bytes. */
  method Update(check: u32, data: seq<Byte>) returns (r: u32)
    ensures r as int == Pack(Fold(Unpack(check as int), data))
    ensures Checks(check as int, data, r as int)
  {
    hide Fold, Reduce, Reached, Checks;
    var s1, s2 := check % 65536, check / 65536;
    ghost var s := Unpack(check as int);
    ReachedStart(s, data);
    var pos, bufLen := 0, |data|;
    var blockLen := bufLen % BLOCK;
    while bufLen > 0
      invariant 0 <= bufLen && pos + bufLen == |data|
      invariant if blockLen == BLOCK then bufLen % BLOCK == 0 else pos == 0 && blockLen == bufLen % BLOCK
      invariant s1 < 65536 && s2 < 65536
      invariant Reached(s, data, pos, Sums(s1 as int, s2 as int))
      invariant data == [] ==> s == Sums(s1 as int, s2 as int)
      decreases bufLen, BLOCK - blockLen
    {
      ReachedBlock(s, data, pos, blockLen, Sums(s1 as int, s2 as int));
      s1, s2 := AddBlock(s1, s2, data[pos..pos + blockLen]);
      pos, bufLen := pos + blockLen, bufLen - blockLen;
      blockLen := BLOCK;
    }
    ReachedEnd(s, data, Sums(s1 as int, s2 as int));
    r := s2 * 65536 + s1;
    FoldChecks(check as int, data);
  }
}
