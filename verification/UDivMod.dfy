/** 64/64-bit unsigned division from 32-bit halves, as compiler-rt does it on
    machines without a 64-bit divide. */
module UDivMod {
  import opened Bits
  import opened Common

  const W: nat := 0x1_0000_0000                  // one machine word, 2^32
  const HALF: nat := 0x8000_0000_0000_0000       // 2^63

  // ---- bitwise operations ----

  function And(x: nat, y: nat): nat {
    if x == 0 || y == 0 then 0 else (x % 2) * (y % 2) + 2 * And(x / 2, y / 2)
  }

  function Or(x: nat, y: nat): nat {
    if x == 0 then y
    else if y == 0 then x
    else (if x % 2 + y % 2 > 0 then 1 else 0) + 2 * Or(x / 2, y / 2)
  }

  /** x << k in 32 bits. */
  function Shl32(x: nat, k: nat): (r: nat)
    ensures r < W
  {
    x * Pow2(k) % W
  }

  /** Leading zeros of a non-zero 32-bit value. */
  function Clz32(x: nat): (r: nat)
    requires 0 < x < W
    ensures r <= 31 && Pow2(31 - r) <= x < Pow2(32 - r)
    decreases W - x
  {
    SmallPowers();
    if x >= 0x8000_0000 then WordPower(); 0 else 1 + Clz32(2 * x)
  }

  /** Trailing zeros of a non-zero value. */
  function Ctz(x: nat): nat
    requires x > 0
  {
    if x % 2 == 1 then 0 else 1 + Ctz(x / 2)
  }

  lemma WordPower()
    ensures Pow2(31) == 0x8000_0000 && Pow2(32) == W && Pow2(63) == HALF && Pow2(64) == U64
  {
    SmallPowers();
    Pow2Add(16, 16);
    Pow2Add(32, 32);
    assert Pow2(32) == 2 * Pow2(31) && Pow2(64) == 2 * Pow2(63);
  }

  lemma {:induction false} AndStep(x: nat)
    ensures And(x, x) == if x == 0 then 0 else x % 2 + 2 * And(x / 2, x / 2)
  {
    BitSquare(x % 2);
  }

  lemma {:induction false} BitSquare(b: nat)
    requires b < 2
    ensures b * b == b
  {
  }

  lemma {:induction false} AndSelf(x: nat)
    ensures And(x, x) == x
  {
    hide And;
    AndStep(x);
    if x > 0 {
      AndSelf(x / 2);
      Halves(x);
    }
  }

  lemma {:induction false} Halves(r: nat)
    ensures r == 2 * (r / 2) + r % 2
  {
  }

  lemma {:induction false} MaskHalf(p: nat)
    requires p > 0
    ensures (2 * p - 1) % 2 == 1 && (2 * p - 1) / 2 == p - 1
  {
  }

  /** Masking with 2^k - 1 is the remainder. */
  lemma {:induction false} AndMask(x: nat, k: nat)
    ensures And(x, Pow2(k) - 1) == x % Pow2(k)
  {
    if k > 0 {
      AndMask(x / 2, k - 1);
      MaskStep(x, Pow2(k - 1));
    }
  }

  /** One bit more under the mask. */
  lemma {:induction false} MaskStep(x: nat, p: nat)
    requires p > 0 && And(x / 2, p - 1) == (x / 2) % p
    ensures And(x, 2 * p - 1) == x % (2 * p)
  {
    hide And;
    var r := x % (2 * p);
    ModHalf(x, p);
    Halves(r);
    AndOdd(x, p);
  }

  lemma {:induction false} AndOdd(x: nat, p: nat)
    requires p > 0
    ensures And(x, 2 * p - 1) == x % 2 + 2 * And(x / 2, p - 1)
  {
    MaskHalf(p);
  }

  /** x & (x - 1) is zero only for powers of two. */
  lemma {:induction false} PowerOfTwo(x: nat)
    requires x > 0 && And(x, x - 1) == 0
    ensures x == Pow2(Ctz(x))
  {
    if x % 2 == 1 {
      assert (x - 1) / 2 == x / 2 && (x - 1) % 2 == 0;
      AndSelf(x / 2);
      if x > 1 {
        assert false;
      }
    } else {
      assert (x - 1) / 2 == x / 2 - 1 && (x - 1) % 2 == 1;
      PowerOfTwo(x / 2);
    }
  }

  /** Values with no bits in common are added by OR. */
  lemma {:induction false} OrIsSum(h: nat, y: nat, k: nat)
    requires y < Pow2(k)
    ensures Or(h * Pow2(k), y) == h * Pow2(k) + y
  {
    if k > 0 {
      OrIsSum(h, y / 2, k - 1);
      DoubleProduct(Pow2(k - 1), h);
      OrDouble(h * Pow2(k - 1), y);
    }
  }

  lemma {:induction false} OrDouble(m: nat, y: nat)
    ensures Or(2 * m, y) == 2 * Or(m, y / 2) + y % 2
  {
  }

  // ---- shifting a 64-bit value held in two halves ----

  /** The middle word of (h:l) >> t: the low bits of h above the high bits of l. */
  function Middle(h: nat, l: nat, t: nat): nat
    requires t <= 32
  {
    Or(Shl32(h, 32 - t), Shr(l, t))
  }

  /** x << (32 - t) in 32 bits keeps exactly the low t bits of x. */
  lemma Shl32Keeps(x: nat, t: nat)
    requires 1 <= t <= 31
    ensures Shl32(x, 32 - t) == (x % Pow2(t)) * Pow2(32 - t)
  {
    WordParts(t);
    KeepLow(x, Pow2(t), Pow2(32 - t));
  }

  lemma WordParts(t: nat)
    requires t <= 32
    ensures Pow2(t) * Pow2(32 - t) == W
  {
    Pow2Add(t, 32 - t);
    WordPower();
  }

  lemma QuotientParts(x: nat, p: nat)
    requires p > 0
    ensures x == p * (x / p) + x % p && x % p < p
  {
  }

  lemma KeepLow(x: nat, p: nat, p': nat)
    requires p * p' == W && p > 0 && p' > 0
    ensures x * p' % W == (x % p) * p'
  {
    QuotientParts(x, p);
    KeepLowParts(x, p, p', x / p, x % p);
  }

  lemma KeepLowParts(x: nat, p: nat, p': nat, q: nat, r: nat)
    requires p * p' == W && p' > 0 && x == p * q + r && r < p
    ensures x * p' % W == r * p'
  {
    MulStep(r, p, p');
    MulDistribute(p * q, r, p');
    assert p * q * p' == (p * p') * q;
    DivUnique(x * p', W, q, r * p');
  }

  lemma MiddleIs(h: nat, l: nat, t: nat)
    requires 1 <= t <= 31 && l < W
    ensures Middle(h, l, t) == (h % Pow2(t)) * Pow2(32 - t) + l / Pow2(t)
    ensures l / Pow2(t) < Pow2(32 - t) && Middle(h, l, t) < W
  {
    Shl32Keeps(h, t);
    ShrIsDiv(l, t);
    WordPower();
    ShrBound(l, t, 32 - t);
    OrIsSum(h % Pow2(t), l / Pow2(t), 32 - t);
    MulStep(h % Pow2(t), Pow2(t), Pow2(32 - t));
    Pow2Add(t, 32 - t);
  }

  /** (h:l) >> t, with the bits that fall out. */
  lemma ShiftedPair(h: nat, l: nat, t: nat)
    requires 1 <= t <= 31 && l < W
    ensures (h * W + l) / Pow2(t) == Shr(h, t) * W + Middle(h, l, t)
    ensures (h * W + l) % Pow2(t) == l % Pow2(t)
  {
    MiddleIs(h, l, t);
    ShrIsDiv(h, t);
    WordParts(t);
    PairParts(h, l, Pow2(t), Pow2(32 - t));
  }

  lemma PairParts(h: nat, l: nat, p: nat, p': nat)
    requires p * p' == W && p > 0
    ensures (h * W + l) / p == (h / p) * W + ((h % p) * p' + l / p)
    ensures (h * W + l) % p == l % p
  {
    QuotientParts(h, p);
    QuotientParts(l, p);
    PairAlgebra(h, l, p, p', h / p, h % p, l / p, l % p);
  }

  lemma PairAlgebra(h: nat, l: nat, p: nat, p': nat, h1: nat, h0: nat, l1: nat, l0: nat)
    requires p * p' == W && h == p * h1 + h0 && l == p * l1 + l0 && l0 < p
    ensures (h * W + l) / p == h1 * W + (h0 * p' + l1) && (h * W + l) % p == l0
  {
    assert p * (h0 * p') == h0 * (p * p');
    assert p * (h1 * W) == (p * h1) * W;
    MulDistribute(h1 * W, h0 * p' + l1, p);
    MulDistribute(h0 * p', l1, p);
    DivUnique(h * W + l, p, h1 * W + (h0 * p' + l1), l0);
  }

  // ---- the state of the shift-subtract loop ----

  /** a * b as repeated addition: keeps products out of sight where only their
      identity matters. */
  function Times(a: nat, b: nat): nat {
    if a == 0 then 0 else b + Times(a - 1, b)
  }

  lemma {:induction false} TimesIsMul(a: nat, b: nat)
    ensures Times(a, b) == a * b
  {
    if a > 0 {
      TimesIsMul(a - 1, b);
      assert a * b == b + (a - 1) * b;
    }
  }

  /** With `sr` steps to go: the top `sr` bits of q are the bits of n not yet used, its
      other bits `qa` with `carry` behind them are the quotient of the bits used so
      far, and r is their remainder.  Divisors above 2^63 take one step only. */
  ghost predicate Dividing(n: nat, d: nat, sr: nat, r: nat, q: nat, carry: nat, qa: nat) {
    && sr <= 63 && carry <= 1 && r < d < U64 && n < U64
    && (d > HALF ==> sr <= 1 && n >= HALF)
    && q == Times(Unused(n, sr), Pow2(64 - sr)) + qa
    && Shr(n, sr) == Divided(qa, carry, d, r)
  }

  /** The low `k` bits of n. */
  function Unused(n: nat, k: nat): nat {
    if k == 0 then 0 else n % 2 + 2 * Unused(n / 2, k - 1)
  }

  function Divided(qa: nat, carry: nat, d: nat, r: nat): nat {
    Times(2 * qa + carry, d) + r
  }

  lemma {:induction false} UnusedIsMod(n: nat, k: nat)
    ensures Unused(n, k) == n % Pow2(k) && Unused(n, k) < Pow2(k)
  {
    if k > 0 {
      UnusedIsMod(n / 2, k - 1);
      ModHalf(n, Pow2(k - 1));
    }
  }

  /** The next unused bit of n joins the used ones. */
  lemma {:induction false} NextBit(n: nat, k: nat)
    ensures Unused(n, k + 1) == (Shr(n, k) % 2) * Pow2(k) + Unused(n, k)
    ensures Shr(n, k) == 2 * Shr(n, k + 1) + Shr(n, k) % 2
  {
    if k > 0 {
      NextBit(n / 2, k - 1);
      DoubleProduct(Shr(n, k) % 2, Pow2(k - 1));
    }
  }

  /** The quotient bits stay clear of the unused bits of n. */
  lemma QuotientFits(n: nat, d: nat, sr: nat, r: nat, q: nat, carry: nat, qa: nat)
    requires Dividing(n, d, sr, r, q, carry, qa)
    ensures 2 * qa + carry <= Shr(n, sr) < Pow2(64 - sr)
  {
    hide Shr, Pow2, Times, Unused;
    WordPower();
    ShrBound(n, sr, 64 - sr);
    AtLeastFactor(2 * qa + carry, d);
    TimesIsMul(2 * qa + carry, d);
  }

  lemma AtLeastFactor(k: nat, d: nat)
    requires d > 0
    ensures k <= k * d
  {
    MulNonNeg(k, d - 1);
    assert k * d == k * (d - 1) + k;
  }

  lemma HalfParts(sr: nat)
    requires 1 <= sr <= 63
    ensures Pow2(65 - sr) == 2 * Pow2(64 - sr)
    ensures Pow2(sr - 1) * Pow2(64 - sr) == HALF
  {
    Pow2Add(sr - 1, 64 - sr);
    WordPower();
  }

  /** The top bit of q, and q shifted left by one, from the parts of q. */
  lemma TopBit(q: nat, m: nat, p: nat, e: nat, b: nat, qa: nat)
    requires p * e == HALF && m < p && b <= 1 && qa < e && q == (b * p + m) * e + qa
    ensures q / HALF == b && 2 * (q % HALF) == m * (2 * e) + 2 * qa && q < U64
  {
    MulStep(m, p, e);
    MulDistribute(b * p, m, e);
    assert b * p * e == b * (p * e);
    DivUnique(q, HALF, b, m * e + qa);
    assert m * (2 * e) == 2 * (m * e);
  }

  /** The top bit of q is the next bit of n; shifting q left makes room for one more
      bit of the quotient. */
  lemma ShiftQuotient(n: nat, d: nat, sr: nat, r: nat, q: nat, carry: nat, qa: nat)
    requires sr > 0 && Dividing(n, d, sr, r, q, carry, qa)
    ensures q < U64 && q / HALF <= 1
    ensures 2 * (q % HALF) + carry == Times(Unused(n, sr - 1), Pow2(65 - sr)) + (2 * qa + carry)
    ensures Shr(n, sr - 1) == 2 * Divided(qa, carry, d, r) + q / HALF
  {
    HalfParts(sr);
    NextBit(n, sr - 1);
    UnusedIsMod(n, sr - 1);
    QuotientFits(n, d, sr, r, q, carry, qa);
    TimesIsMul(Unused(n, sr), Pow2(64 - sr));
    TimesIsMul(Unused(n, sr - 1), Pow2(65 - sr));
    TopBit(q, Unused(n, sr - 1), Pow2(sr - 1), Pow2(64 - sr), Shr(n, sr - 1) % 2, qa);
  }

  /** Doubling a quotient and remainder, bringing down a bit, and subtracting the
      divisor c times. */
  lemma BringDown(qa: nat, carry: nat, d: nat, r: nat, b: nat, c: nat)
    requires c <= 1 && c * d <= 2 * r + b
    ensures Divided(2 * qa + carry, c, d, 2 * r + b - c * d) == 2 * Divided(qa, carry, d, r) + b
  {
    var k := 2 * qa + carry;
    TimesIsMul(k, d);
    TimesIsMul(2 * k + c, d);
    MulDistribute(2 * k, c, d);
    assert 2 * k * d == 2 * (k * d);
  }

  lemma OneStepOnly(n: nat, d: nat, qa: nat, carry: nat, r: nat, b: nat)
    requires d > HALF && n < U64 && n == 2 * Divided(qa, carry, d, r) + b
    ensures n == 2 * r + b
  {
    var k := 2 * qa + carry;
    TimesIsMul(k, d);
    AtLeastFactor(d, if k == 0 then 1 else k);
    assert k * d == d * k;
  }

  /** One step of the loop on 64-bit values.  The third conclusion is the sign-mask
      trick: the top bit of d - r - 1 tells whether d can be subtracted. */
  lemma DivideStep(n: nat, d: nat, sr: nat, r: nat, q: nat, carry: nat, qa: nat)
    requires sr > 0 && Dividing(n, d, sr, r, q, carry, qa)
    ensures q < U64
    ensures var r1 := 2 * r + q / HALF;
            && r1 < U64
            && SignTells(d, r1)
            && Dividing(n, d, sr - 1, if r1 >= d then r1 - d else r1, 2 * (q % HALF) + carry,
                        if r1 >= d then 1 else 0, 2 * qa + carry)
  {
    ShiftQuotient(n, d, sr, r, q, carry, qa);
    var r1 := 2 * r + q / HALF;
    if d > HALF {
      OneStepOnly(n, d, qa, carry, r, q / HALF);
    }
    SignTrick(d, r1);
    BringDown(qa, carry, d, r, q / HALF, if r1 >= d then 1 else 0);
  }

  /** The top bit of d - r - 1 in 64 bits says whether d fits into r. */
  predicate SignTells(d: nat, r: nat) {
    (d - r - 1) % U64 >= HALF <==> r >= d
  }

  lemma SignTrick(d: nat, r1: nat)
    requires d < U64 && r1 < U64 && r1 < 2 * d && (d > HALF ==> r1 >= HALF)
    ensures SignTells(d, r1)
  {
    if r1 >= d {
      assert (d - r1 - 1) % U64 == d - r1 - 1 + U64;
    }
  }

  // ---- the same step on 32-bit halves ----

  /** A word shifted left by one with the top bit of the word below it. */
  lemma WordShift(h: nat, l: nat)
    requires l < W
    ensures Or(Shl32(h, 1), Shr(l, 31)) == (h % 0x8000_0000) * 2 + l / 0x8000_0000
  {
    MiddleIs(h, l, 31);
    WordPower();
    SmallPowers();
  }

  lemma WordShiftCarry(l: nat, carry: nat)
    requires carry <= 1
    ensures Or(Shl32(l, 1), carry) == (l % 0x8000_0000) * 2 + carry
  {
    Shl32Keeps(l, 31);
    WordPower();
    OrIsSum(l % 0x8000_0000, carry, 1);
  }

  /** Two's complement reading of a 64-bit word. */
  function Signed(x: nat): int {
    if x >= HALF then x - U64 else x
  }

  /** Arithmetic shift right by 63: all ones or zero, as a 64-bit word. */
  function SignMask(x: nat): nat {
    (Signed(x) / HALF) % U64
  }

  lemma MaskOnes(d: nat)
    requires d < U64
    ensures And(U64 - 1, 1) == 1 && And(d, U64 - 1) == d
  {
    hide And;
    AndMask(U64 - 1, 1);
    WordPower();
    AndMask(d, 64);
  }

  lemma SignMaskIs(x: nat, d: nat)
    requires x < U64 && d < U64
    ensures var s := SignMask(x);
            if x >= HALF then And(s, 1) == 1 && And(d, s) == d else And(s, 1) == 0 && And(d, s) == 0
  {
    if x >= HALF {
      assert Signed(x) / HALF == -1;
      MaskOnes(d);
      hide And;
    } else {
      assert Signed(x) / HALF == 0;
    }
  }

  /** The shift-subtract loop: sr rounds over the four halves. */
  method DivideLoop(ghost n: nat, d: nat, sr0: nat, rh0: nat, rl0: nat, qh0: nat, ql0: nat) returns (q: nat, r: nat)
    requires rh0 < W && rl0 < W && qh0 < W && ql0 < W
    requires Dividing(n, d, sr0, rh0 * W + rl0, qh0 * W + ql0, 0, 0)
    ensures IsQuotient(n, d, q, r)
  {
    var sr: nat, rh: nat, rl: nat, qh: nat, ql: nat, carry: nat := sr0, rh0, rl0, qh0, ql0, 0;
    ghost var qa: nat := 0;
    while sr > 0
      invariant rh < W && rl < W && qh < W && ql < W
      invariant Dividing(n, d, sr, rh * W + rl, qh * W + ql, carry, qa)
    {
      rh, rl, qh, ql, carry, qa := DivideRound(n, d, sr, rh, rl, qh, ql, carry, qa);
      sr := sr - 1;
    }
    q := FinalQuotient(n, d, rh * W + rl, qh * W + ql, carry, qa);
    r := rh * W + rl;
  }

  /** Put the last quotient bit in place. */
  method FinalQuotient(ghost n: nat, ghost d: nat, ghost r: nat, q: nat, carry: nat, ghost qa: nat) returns (q': nat)
    requires Dividing(n, d, 0, r, q, carry, qa)
    ensures n == Times(q', d) + r
  {
    FinalBits(n, d, r, q, carry, qa);
    q' := Or(q * 2 % U64, carry);
  }

  lemma FinalBits(n: nat, d: nat, r: nat, q: nat, carry: nat, qa: nat)
    requires Dividing(n, d, 0, r, q, carry, qa)
    ensures n == Times(Or(q * 2 % U64, carry), d) + r
  {
    hide Or, Times, Dividing;
    NoneUnused(n, d, r, q, carry, qa);
    DoubleOr(qa, carry);
  }

  lemma NoneUnused(n: nat, d: nat, r: nat, q: nat, carry: nat, qa: nat)
    requires Dividing(n, d, 0, r, q, carry, qa)
    ensures q == qa && n == Times(2 * qa + carry, d) + r
    ensures carry <= 1 && 2 * qa < U64
  {
    QuotientFits(n, d, 0, r, q, carry, qa);
    WordPower();
    hide Pow2;
  }

  lemma DoubleOr(x: nat, b: nat)
    requires b <= 1 && 2 * x < U64
    ensures Or(x * 2 % U64, b) == 2 * x + b
  {
    OrIsSum(x, b, 1);
    assert Pow2(1) == 2;
  }

  method DivideRound(ghost n: nat, d: nat, ghost sr: nat, rh: nat, rl: nat, qh: nat, ql: nat, carry: nat, ghost qa: nat)
    returns (rh': nat, rl': nat, qh': nat, ql': nat, carry': nat, ghost qa': nat)
    requires rh < W && rl < W && qh < W && ql < W && sr > 0
    requires Dividing(n, d, sr, rh * W + rl, qh * W + ql, carry, qa)
    ensures rh' < W && rl' < W && qh' < W && ql' < W
    ensures Dividing(n, d, sr - 1, rh' * W + rl', qh' * W + ql', carry', qa')
  {
    hide Shr, Pow2, Times, Unused, Divided, SignTells;
    ghost var r: nat, q: nat := rh * W + rl, qh * W + ql;
    DivideStep(n, d, sr, r, q, carry, qa);
    var rh1, rl1;
    rh1, rl1, qh', ql' := ShiftHalves(rh, rl, qh, ql, carry);
    qa' := 2 * qa + carry;
    carry', rh', rl' := Subtract(d, rh1, rl1);
  }

  /** r:q shifted left by one place, with the carry coming in. */
  method ShiftHalves(rh: nat, rl: nat, qh: nat, ql: nat, carry: nat)
    returns (rh': nat, rl': nat, qh': nat, ql': nat)
    requires rh < W && rl < W && qh < W && ql < W && carry <= 1
    requires 2 * (rh * W + rl) + (qh * W + ql) / HALF < U64
    ensures rh' < W && rl' < W && qh' < W && ql' < W
    ensures rh' * W + rl' == 2 * (rh * W + rl) + (qh * W + ql) / HALF
    ensures qh' * W + ql' == 2 * ((qh * W + ql) % HALF) + carry
  {
    WordShift(rh, rl);
    WordShift(rl, qh);
    WordShift(qh, ql);
    WordShiftCarry(ql, carry);
    rh' := Or(Shl32(rh, 1), Shr(rl, 31));
    rl' := Or(Shl32(rl, 1), Shr(qh, 31));
    qh' := Or(Shl32(qh, 1), Shr(ql, 31));
    ql' := Or(Shl32(ql, 1), carry);
    HalvesShift(rh, rl, qh, ql, carry);
  }

  /** if (r >= d) r -= d, without a branch. */
  method Subtract(d: nat, rh: nat, rl: nat) returns (carry: nat, rh': nat, rl': nat)
    requires d < U64 && rh < W && rl < W
    requires SignTells(d, rh * W + rl)
    ensures var r := rh * W + rl;
            carry == (if r >= d then 1 else 0) && rh' < W && rl' < W
            && rh' * W + rl' == if r >= d then r - d else r
  {
    var r := rh * W + rl;
    SignMaskIs((d - r - 1) % U64, d);
    var s := SignMask((d - r - 1) % U64);
    carry := And(s, 1);
    r := r - And(d, s);
    rh', rl' := r / W, r % W;
  }

  /** Shifting word by word is shifting the whole. */
  lemma HalvesShift(rh: nat, rl: nat, qh: nat, ql: nat, carry: nat)
    requires rh < W && rl < W && qh < W && ql < W && carry <= 1
    requires 2 * (rh * W + rl) + (qh * W + ql) / HALF < U64
    ensures ((rh % 0x8000_0000) * 2 + rl / 0x8000_0000) * W + ((rl % 0x8000_0000) * 2 + qh / 0x8000_0000)
         == 2 * (rh * W + rl) + (qh * W + ql) / HALF
    ensures ((qh % 0x8000_0000) * 2 + ql / 0x8000_0000) * W + ((ql % 0x8000_0000) * 2 + carry)
         == 2 * ((qh * W + ql) % HALF) + carry
  {
    TopOfPair(qh, ql);
    assert rh < 0x8000_0000;
  }

  lemma TopOfPair(qh: nat, ql: nat)
    requires ql < W
    ensures (qh * W + ql) / HALF == qh / 0x8000_0000
    ensures (qh * W + ql) % HALF == (qh % 0x8000_0000) * W + ql
  {
    DivUnique(qh * W + ql, HALF, qh / 0x8000_0000, (qh % 0x8000_0000) * W + ql);
  }

  // ---- setting the loop up ----

  lemma {:induction false} UnusedAdd(n: nat, m: nat, k: nat)
    ensures Unused(n, m + k) == Unused(Shr(n, m), k) * Pow2(m) + Unused(n, m)
  {
    if m > 0 {
      UnusedAdd(n / 2, m - 1, k);
      DoubleProduct(Unused(Shr(n, m), k), Pow2(m - 1));
    }
  }

  lemma WordHalves(h: nat, l: nat)
    requires l < W
    ensures Shr(h * W + l, 32) == h && Unused(h * W + l, 32) == l
  {
    WordPower();
    ShrIsDiv(h * W + l, 32);
    UnusedIsMod(h * W + l, 32);
  }

  /** How the loop is entered: r holds the top bits of n, q the others. */
  ghost predicate Loaded(n: nat, sr: nat, r: nat, q: nat) {
    1 <= sr <= 63 && r == Shr(n, sr) && q == Times(Unused(n, sr), Pow2(64 - sr))
  }

  lemma LoadShort(h: nat, l: nat, sr: nat)
    requires 1 <= sr <= 31 && l < W
    ensures Loaded(h * W + l, sr, Shr(h, sr) * W + Middle(h, l, sr), Shl32(l, 32 - sr) * W)
  {
    hide Shr, Pow2, Times, Shl32, Middle, Unused;
    var n := h * W + l;
    ShiftedPair(h, l, sr);
    ShrIsDiv(n, sr);
    UnusedIsMod(n, sr);
    Shl32Keeps(l, sr);
    WordUp(Unused(n, sr), sr);
    TimesIsMul(Unused(n, sr), Pow2(64 - sr));
  }

  lemma WordUp(u: nat, sr: nat)
    requires sr <= 32
    ensures u * Pow2(32 - sr) * W == u * Pow2(64 - sr)
  {
    Pow2Add(32 - sr, 32);
    WordPower();
    ProductAssoc(u, Pow2(32 - sr), W);
  }

  lemma ProductAssoc(a: int, b: int, c: int)
    ensures a * b * c == a * (b * c)
  {
  }

  lemma LoadWord(h: nat, l: nat)
    requires l < W
    ensures Loaded(h * W + l, 32, h, l * W)
  {
    WordHalves(h, l);
    WordPower();
    TimesIsMul(l, W);
  }

  lemma LoadLong(h: nat, l: nat, sr: nat)
    requires 33 <= sr <= 63 && l < W
    ensures Loaded(h * W + l, sr, Shr(h, sr - 32), Middle(h, l, sr - 32) * W + Shl32(l, 64 - sr))
  {
    hide Shr, Pow2, Times, Shl32, Middle, Unused;
    var n, t := h * W + l, sr - 32;
    WordHalves(h, l);
    ShrAdd(n, 32, t);
    UnusedAdd(n, 32, t);
    UnusedIsMod(h, t);
    MiddleIs(h, l, t);
    Shl32Keeps(l, t);
    WordParts(t);
    WordPower();
    LongAlgebra(h % Pow2(t), l, Pow2(t), Pow2(32 - t));
    TimesIsMul(Unused(n, sr), Pow2(64 - sr));
  }

  lemma LongAlgebra(u: nat, l: nat, p: nat, p': nat)
    requires p * p' == W
    ensures (u * W + l) * p' == (u * p' + l / p) * W + (l % p) * p'
  {
    QuotientParts(l, p);
    LongSteps(u, l, p, p', l / p, l % p);
  }

  lemma LongSteps(u: nat, l: nat, p: nat, p': nat, l1: nat, l0: nat)
    requires p * p' == W && l == p * l1 + l0
    ensures (u * W + l) * p' == (u * p' + l1) * W + l0 * p'
  {
    MulDistribute(u * W, l, p');
    MulDistribute(p * l1, l0, p');
    assert p * l1 * p' == l1 * (p * p');
    assert u * W * p' == (u * p') * W;
    MulDistribute(u * p', l1, W);
  }

  /** A loaded loop with a small enough r is ready to run. */
  lemma Ready(n: nat, d: nat, sr: nat, r: nat, q: nat)
    requires Loaded(n, sr, r, q) && r < d < U64 && n < U64 && (d > HALF ==> sr == 1 && n >= HALF)
    ensures Dividing(n, d, sr, r, q, 0, 0)
  {
    assert Divided(0, 0, d, r) == r;
  }

  /** x has exactly c leading zeros in a word. */
  ghost predicate LeadingZeros(x: nat, c: nat) {
    c <= 31 && Pow2(31 - c) <= x < Pow2(32 - c)
  }

  /** The magnitude of a two-word value whose top word has c leading zeros. */
  lemma Magnitude(n: nat, h: nat, l: nat, c: nat)
    requires n == h * W + l && l < W && LeadingZeros(h, c)
    ensures Pow2(63 - c) <= n < Pow2(64 - c) && (c == 0 <==> n >= HALF)
  {
    TwoWordPower(31 - c, h);
    TwoWordPower(32 - c, h);
    WordPower();
    if c > 0 {
      Pow2Mono(64 - c, 63);
    }
  }

  lemma TwoWordPower(k: nat, h: nat)
    ensures Pow2(k + 32) == Pow2(k) * W
    ensures h < Pow2(k) ==> h * W + W <= Pow2(k + 32)
    ensures Pow2(k) <= h ==> Pow2(k + 32) <= h * W
  {
    Pow2Add(k, 32);
    WordPower();
    if h < Pow2(k) {
      MulStep(h, Pow2(k), W);
    }
  }

  /** Shifting by the difference in length and one more leaves less than the divisor. */
  lemma BelowDivisor(n: nat, a: nat, d: nat, b: nat, sr: nat)
    requires n < Pow2(a) && Pow2(b) <= d && sr == a - b
    ensures Shr(n, sr) < d
  {
    ShrBound(n, sr, b);
  }

  /** __builtin_clz. */
  method CountLeadingZeros(x: nat) returns (c: nat)
    requires 0 < x < W
    ensures LeadingZeros(x, c)
  {
    c := Clz32(x);
  }

  // ---- the special cases ----

  lemma HighByHigh(nh: nat, dh: nat)
    requires dh > 0
    ensures nh * W == (nh / dh) * (dh * W) + (nh % dh) * W && (nh % dh) * W < dh * W
    ensures IsQuotient(nh * W, dh * W, nh / dh, (nh % dh) * W)
  {
    QuotientParts(nh, dh);
    MulDistribute(dh * (nh / dh), nh % dh, W);
    assert dh * (nh / dh) * W == (nh / dh) * (dh * W);
    MulStep(nh % dh, dh, W);
    TimesIsMul(nh / dh, dh * W);
  }

  lemma PowerHigh(nh: nat, nl: nat, dh: nat)
    requires nl < W && dh > 0 && And(dh, dh - 1) == 0
    ensures IsQuotient(nh * W + nl, dh * W, Shr(nh, Ctz(dh)), And(nh, dh - 1) * W + nl)
  {
    PowerOfTwo(dh);
    AndMask(nh, Ctz(dh));
    ShrIsDiv(nh, Ctz(dh));
    HighByHigh(nh, dh);
    MulStep(nh % dh, dh, W);
  }

  lemma PowerLow(nh: nat, nl: nat, dl: nat)
    requires nl < W && 1 < dl < W && And(dl, dl - 1) == 0
    ensures 1 <= Ctz(dl) <= 31
    ensures IsQuotient(nh * W + nl, dl, Shr(nh, Ctz(dl)) * W + Middle(nh, nl, Ctz(dl)), And(nl, dl - 1))
  {
    var k := Ctz(dl);
    PowerOfTwo(dl);
    WordPower();
    if k > 31 {
      Pow2Mono(32, k);
    }
    AndMask(nl, k);
    ShiftedPair(nh, nl, k);
    QuotientOf(nh * W + nl, dl);
  }

  /** A divisor with its only bit at the bottom of a word is a power of two. */
  lemma NeverThirtyOne(x: nat, c: nat)
    requires LeadingZeros(x, c) && And(x, x - 1) != 0
    ensures c <= 30
  {
    assert Pow2(1) == 2;
  }

  /** A divisor with more significant bits is larger. */
  lemma ShorterIsSmaller(n: nat, cn: nat, d: nat, cd: nat)
    requires cd < cn <= 31 && n < Pow2(64 - cn) && Pow2(63 - cd) <= d
    ensures n < d
  {
    Pow2Mono(64 - cn, 63 - cd);
  }

  ghost predicate IsQuotient(n: nat, d: nat, q: nat, r: nat) {
    n == Times(q, d) + r && r < d
  }

  lemma QuotientOf(x: nat, d: nat)
    requires d > 0
    ensures IsQuotient(x, d, x / d, x % d)
  {
    QuotientParts(x, d);
    TimesIsMul(x / d, d);
  }

  /** Quotient and remainder of 64-bit values: every branch of __udivmoddi4. */
  method UDivModDi4(a: nat, b: nat) returns (q: nat, rem: nat)
    requires a < U64 && 0 < b < U64
    ensures a == q * b + rem && rem < b
    ensures q == a / b && rem == a % b
  {
    var nh, nl, dh, dl := a / W, a % W, b / W, b % W;
    if nh == 0 {
      if dh == 0 {
        // 0 X / 0 X
        q, rem := nl / dl, nl % dl;
        QuotientOf(a, b);
      } else {
        // 0 X / K X
        q, rem := 0, nl;
      }
    } else if dl == 0 {
      q, rem := DivideByHigh(a, nh, nl, b, dh);
    } else if dh == 0 {
      q, rem := DivideByLow(a, nh, nl, dl);
    } else {
      q, rem := DivideByLong(a, nh, nl, b, dh, dl);
    }
    TimesIsMul(q, b);
    DivUnique(a, b, q, rem);
  }

  /** K X / K 0: the low word of the divisor is zero. */
  method DivideByHigh(n: nat, nh: nat, nl: nat, d: nat, dh: nat) returns (q: nat, rem: nat)
    requires n == nh * W + nl && 0 < nh < W && nl < W && d == dh * W && 0 < dh < W
    ensures IsQuotient(n, d, q, rem)
  {
    if nl == 0 {
      HighByHigh(nh, dh);
      return nh / dh, (nh % dh) * W;
    }
    if And(dh, dh - 1) == 0 {
      PowerHigh(nh, nl, dh);
      return Shr(nh, Ctz(dh)), And(nh, dh - 1) * W + nl;
    }
    var cd := CountLeadingZeros(dh);
    var cn := CountLeadingZeros(nh);
    var sr := CountDifference(cd, cn);
    NeverThirtyOne(dh, cd);
    if sr > 30 {
      Magnitude(n, nh, nl, cn);
      Magnitude(d, dh, 0, cd);
      ShorterIsSmaller(n, cn, d, cd);
      return 0, n;
    }
    q, rem := DivideShort(n, nh, nl, d, dh, 0, sr + 1, cn, cd);
  }

  /** The difference of two leading-zero counts as an unsigned word: huge when the
      divisor is the longer one. */
  method CountDifference(cd: nat, cn: nat) returns (sr: nat)
    requires cd <= 31 && cn <= 31
    ensures if cd >= cn then sr == cd - cn else sr > 31
  {
    sr := (cd - cn) % W;
  }

  /** K X / K K: both words of the divisor are non-zero. */
  method DivideByLong(n: nat, nh: nat, nl: nat, d: nat, dh: nat, dl: nat) returns (q: nat, rem: nat)
    requires n == nh * W + nl && 0 < nh < W && nl < W
    requires d == dh * W + dl && 0 < dh < W && 0 < dl < W
    ensures IsQuotient(n, d, q, rem)
  {
    var cd := CountLeadingZeros(dh);
    var cn := CountLeadingZeros(nh);
    var sr := CountDifference(cd, cn);
    if sr > 31 {
      Magnitude(n, nh, nl, cn);
      Magnitude(d, dh, dl, cd);
      ShorterIsSmaller(n, cn, d, cd);
      return 0, n;
    }
    q, rem := DivideShort(n, nh, nl, d, dh, dl, sr + 1, cn, cd);
  }

  /** A divisor of two words: the shift count is at most a word. */
  method DivideShort(ghost n: nat, nh: nat, nl: nat, d: nat, ghost dh: nat, ghost dl: nat, sr: nat,
                     ghost cn: nat, ghost cd: nat) returns (q: nat, rem: nat)
    requires n == nh * W + nl && nh < W && nl < W && d == dh * W + dl && dh < W && dl < W
    requires LeadingZeros(nh, cn) && LeadingZeros(dh, cd) && 1 <= sr <= 32 && sr == cd - cn + 1
    ensures IsQuotient(n, d, q, rem)
  {
    var rh, rl, qh, ql := LoadHalves(n, nh, nl, sr);
    ReadyShort(n, nh, nl, d, dh, dl, sr, cn, cd, rh * W + rl, qh * W + ql);
    q, rem := DivideLoop(n, d, sr, rh, rl, qh, ql);
  }

  lemma ReadyShort(n: nat, nh: nat, nl: nat, d: nat, dh: nat, dl: nat, sr: nat, cn: nat, cd: nat, r: nat, q: nat)
    requires n == nh * W + nl && nh < W && nl < W && d == dh * W + dl && dh < W && dl < W
    requires LeadingZeros(nh, cn) && LeadingZeros(dh, cd) && sr == cd - cn + 1
    requires Loaded(n, sr, r, q)
    ensures Dividing(n, d, sr, r, q, 0, 0)
  {
    Magnitude(n, nh, nl, cn);
    Magnitude(d, dh, dl, cd);
    BelowDivisor(n, 64 - cn, d, 63 - cd, sr);
    Ready(n, d, sr, r, q);
  }

  /** K X / 0 K: a divisor of one word; the shift count may be on either side of a word. */
  method DivideByLow(n: nat, nh: nat, nl: nat, dl: nat) returns (q: nat, rem: nat)
    requires n == nh * W + nl && 0 < nh < W && nl < W && 0 < dl < W
    ensures IsQuotient(n, dl, q, rem)
  {
    if And(dl, dl - 1) == 0 {
      if dl == 1 {
        AndMask(nl, 0);
        TimesIsMul(n, 1);
        return n, And(nl, dl - 1);
      }
      PowerLow(nh, nl, dl);
      var k := Ctz(dl);
      return Shr(nh, k) * W + Middle(nh, nl, k), And(nl, dl - 1);
    }
    var cd := CountLeadingZeros(dl);
    var cn := CountLeadingZeros(nh);
    NeverThirtyOne(dl, cd);
    var sr := 1 + 32 + cd - cn;
    var rh, rl, qh, ql := LoadHalves(n, nh, nl, sr);
    Magnitude(n, nh, nl, cn);
    BelowDivisor(n, 64 - cn, dl, 31 - cd, sr);
    Ready(n, dl, sr, rh * W + rl, qh * W + ql);
    q, rem := DivideLoop(n, dl, sr, rh, rl, qh, ql);
  }

  /** The four halves for any shift count from 1 to 63. */
  method LoadHalves(ghost n: nat, nh: nat, nl: nat, sr: nat) returns (rh: nat, rl: nat, qh: nat, ql: nat)
    requires n == nh * W + nl && nh < W && nl < W && 1 <= sr <= 63
    ensures rh < W && rl < W && qh < W && ql < W
    ensures Loaded(n, sr, rh * W + rl, qh * W + ql)
  {
    hide Pow2, Times, Unused, Loaded;
    if sr == 32 {
      LoadWord(nh, nl);
      qh, ql, rh, rl := nl, 0, 0, nh;
    } else if sr < 32 {
      LoadShort(nh, nl, sr);
      MiddleIs(nh, nl, sr);
      qh, ql, rh, rl := Shl32(nl, 32 - sr), 0, Shr(nh, sr), Middle(nh, nl, sr);
    } else {
      LoadLong(nh, nl, sr);
      MiddleIs(nh, nl, sr - 32);
      qh, ql, rh, rl := Middle(nh, nl, sr - 32), Shl32(nl, 64 - sr), 0, Shr(nh, sr - 32);
    }
  }
}
