/** Numbers as bit strings: powers of two, and the bits of a number in the two
    orders that matter to the boot loader (least significant first for a DEFLATE
    bit buffer, most significant first for a Huffman code). */
module Bits {

  function Pow2(n: nat): (r: nat)
    ensures r >= 1
  {
    if n == 0 then 1 else 2 * Pow2(n - 1)
  }

  type Byte = b: nat | b < 256

  /** The value of one bit. */
  function Bit(b: bool): (r: nat)
    ensures r <= 1
  {
    if b then 1 else 0
  }

  /** x >> n, one place at a time. */
  function Shr(x: nat, n: nat): (r: nat)
    ensures r <= x
  {
    if n == 0 then x else Shr(x / 2, n - 1)
  }

  /** The low `n` bits of `x`, least significant first. */
  function BitsOf(x: nat, n: nat): (r: seq<bool>)
    ensures |r| == n
  {
    if n == 0 then [] else [x % 2 == 1] + BitsOf(x / 2, n - 1)
  }

  /** The low `n` bits of `c`, most significant first. */
  function CodeBits(c: nat, n: nat): (r: seq<bool>)
    ensures |r| == n
  {
    if n == 0 then [] else CodeBits(c / 2, n - 1) + [c % 2 == 1]
  }

  // ---- arithmetic ----

  lemma SmallPowers()
    ensures Pow2(10) == 1024 && Pow2(15) == 32768 && Pow2(16) == 65536
  {
  }

  lemma {:induction false} Pow2Add(m: nat, n: nat)
    ensures Pow2(m + n) == Pow2(m) * Pow2(n)
  {
    if m > 0 {
      Pow2Add(m - 1, n);
      assert Pow2(m) * Pow2(n) == 2 * (Pow2(m - 1) * Pow2(n));
    }
  }

  lemma {:induction false} Pow2Mono(m: nat, n: nat)
    requires m <= n
    ensures Pow2(m) <= Pow2(n)
  {
    if m < n {
      Pow2Mono(m, n - 1);
    }
  }

  /** A non-zero multiple of d is at least d away from zero. */
  lemma MulGap(d: int, k: int)
    requires d > 0
    ensures k > 0 ==> d * k >= d
    ensures k < 0 ==> d * k <= -d
  {
    if k > 0 {
      assert d * k - d == d * (k - 1);
      assert d * (k - 1) >= 0;
    } else if k < 0 {
      assert -(d * k) - d == d * (-k - 1);
      assert d * (-k - 1) >= 0;
    }
  }

  lemma MulNonNeg(a: int, z: int)
    requires a >= 0 && z >= 0
    ensures a * z >= 0
  {
  }

  /** Multiplying a strict order of integers leaves room for one more step. */
  lemma MulStep(a: int, b: int, z: int)
    requires a < b && z >= 0
    ensures a * z + z <= b * z
  {
    MulNonNeg(b - a - 1, z);
    assert b * z == (b - a - 1) * z + a * z + z;
  }

  lemma MulCancel(c: int, p: int, z: int)
    requires z > 0 && c * z + z <= p * z
    ensures c < p
  {
    if c >= p {
      MulNonNeg(c - p, z);
      MulDistribute(p, c - p, z);
    }
  }

  lemma MulDistribute(a: int, b: int, z: int)
    ensures (a + b) * z == a * z + b * z
  {
  }

  lemma MulDouble(f: int, c: int, z: int)
    ensures (2 * (f + c)) * z == f * (2 * z) + c * (2 * z)
  {
  }

  lemma HalfProduct(c: nat, z: int)
    ensures c * z == (c / 2) * (2 * z) + (if c % 2 == 1 then z else 0)
  {
    var h, b := c / 2, c % 2;
    MulDouble(h, 0, z);
    MulDistribute(2 * h, b, z);
  }

  lemma EuclidUnique(d: int, q: int, r: int, q': int, r': int)
    requires d > 0 && d * q + r == d * q' + r'
    requires 0 <= r < d && 0 <= r' < d
    ensures q == q' && r == r'
  {
    assert d * (q - q') == r' - r;
    MulGap(d, q - q');
  }

  /** Quotient and remainder are determined by x == d * q + r with r < d. */
  lemma DivUnique(x: int, d: int, q: int, r: int)
    requires d > 0 && x == d * q + r && 0 <= r < d
    ensures x / d == q && x % d == r
  {
    var a, b := x / d, x % d;
    assert d * a + b == x;
    EuclidUnique(d, a, b, q, r);
  }

  lemma ModSmall(r: nat, step: nat)
    requires r < step
    ensures r % step == r
  {
    DivUnique(r, step, 0, r);
  }

  /** The next number after `r` with the same remainder is r + step. */
  lemma NextCongruent(r: nat, step: nat)
    requires step > 0
    ensures (r + step) % step == r % step
    ensures forall i: nat | r < i < r + step :: i % step != r % step
  {
    MulDistribute(r / step, 1, step);
    DivUnique(r + step, step, r / step + 1, r % step);
    forall i: nat | r < i < r + step ensures i % step != r % step {
      if i % step == r % step {
        var a, b := i / step, r / step;
        assert step * a + i % step == i && step * b + r % step == r;
        assert step * (a - b) == i - r;
        MulGap(step, a - b);
      }
    }
  }

  /** Adding without crossing a multiple of the modulus. */
  lemma ModAdd(a: int, j: nat, m: nat)
    requires m > 0 && a % m + j < m
    ensures (a + j) % m == a % m + j
  {
    DivUnique(a + j, m, a / m, a % m + j);
  }

  /** Numbers closer than the modulus are congruent only if equal. */
  lemma ModApart(a: int, b: int, m: nat)
    requires m > 0 && a <= b < a + m && a % m == b % m
    ensures a == b
  {
    var p, q := a / m, b / m;
    assert m * p + a % m == a && m * q + b % m == b;
    assert m * (q - p) == b - a;
    MulGap(m, q - p);
  }

  /** Halving and then shifting by n - 1 is dividing by Pow2(n). */
  lemma {:induction false} ShrIsDiv(x: nat, n: nat)
    ensures Shr(x, n) == x / Pow2(n)
  {
    if n > 0 {
      ShrIsDiv(x / 2, n - 1);
      HalfDiv(x, Pow2(n - 1));
    }
  }

  lemma {:induction false} HalfDiv(x: nat, p: nat)
    requires p > 0
    ensures x / 2 / p == x / (2 * p)
  {
    var h := x / 2;
    var q, r := h / p, h % p;
    assert p * q + r == h && x == 2 * h + x % 2;
    DoubleProduct(p, q);
    DivUnique(x, 2 * p, q, 2 * r + x % 2);
  }

  lemma {:induction false} DoubleProduct(p: int, q: int)
    ensures (2 * p) * q == 2 * (p * q) == p * (2 * q)
  {
  }

  lemma {:induction false} ShrAdd(x: nat, m: nat, n: nat)
    ensures Shr(Shr(x, m), n) == Shr(x, m + n)
  {
    if m > 0 {
      ShrAdd(x / 2, m - 1, n);
    }
  }

  // ---- bit strings ----

  lemma {:induction false} BitsOfPrefix(x: nat, n: nat, k: nat)
    requires k <= n
    ensures BitsOf(x, n)[..k] == BitsOf(x, k)
  {
    if k > 0 {
      BitsOfPrefix(x / 2, n - 1, k - 1);
    }
  }

  lemma {:induction false} BitsOfSplit(x: nat, m: nat, n: nat)
    ensures BitsOf(x, m + n) == BitsOf(x, m) + BitsOf(Shr(x, m), n)
  {
    if m > 0 {
      BitsOfSplit(x / 2, m - 1, n);
    }
  }

  /** Bit `k` of `x`, as a shift and mask computes it. */
  lemma BitsOfAt(x: nat, n: nat, k: nat)
    requires k < n
    ensures BitsOf(x, n)[k] == (Shr(x, k) % 2 == 1)
  {
    BitsOfSplit(x, k, n - k);
  }

  lemma {:induction false} ModHalf(x: nat, p: nat)
    requires p > 0
    ensures (x % (2 * p)) % 2 == x % 2 && x % (2 * p) / 2 == (x / 2) % p
  {
    var q, r := x / (2 * p), x % (2 * p);
    assert (2 * p) * q == 2 * (p * q);
    assert x == 2 * (p * q) + r;
    DivUnique(x / 2, p, q, r / 2);
  }

  /** Masking keeps the low bits. */
  lemma {:induction false} BitsOfMod(x: nat, n: nat, k: nat)
    requires k <= n
    ensures BitsOf(x % Pow2(n), k) == BitsOf(x, k)
  {
    if k > 0 {
      ModHalf(x, Pow2(n - 1));
      BitsOfMod(x / 2, n - 1, k - 1);
    }
  }

  lemma {:induction false} BitsOfInjective(x: nat, y: nat, n: nat)
    requires x < Pow2(n) && y < Pow2(n)
    requires BitsOf(x, n) == BitsOf(y, n)
    ensures x == y
  {
    if n > 0 {
      assert BitsOf(x, n)[1..] == BitsOf(x / 2, n - 1);
      assert BitsOf(y, n)[1..] == BitsOf(y / 2, n - 1);
      assert BitsOf(x, n)[0] == BitsOf(y, n)[0];
      BitsOfInjective(x / 2, y / 2, n - 1);
    }
  }

  /** `x | (c << n)` when `x` has only `n` bits: the two strings follow each other. */
  lemma BitsOfAppend(x: nat, n: nat, c: nat, k: nat)
    requires x < Pow2(n) && c < Pow2(k)
    ensures x + c * Pow2(n) < Pow2(n + k)
    ensures BitsOf(x + c * Pow2(n), n + k) == BitsOf(x, n) + BitsOf(c, k)
  {
    var y := x + c * Pow2(n);
    SumBound(x, c, n, k);
    SumParts(x, c, n);
    BitsOfMod(y, n, n);
    BitsOfSplit(y, n, k);
  }

  lemma SumBound(x: nat, c: nat, n: nat, k: nat)
    requires x < Pow2(n) && c < Pow2(k)
    ensures x + c * Pow2(n) < Pow2(n + k)
  {
    Pow2Add(k, n);
    MulStep(c, Pow2(k), Pow2(n));
  }

  lemma SumParts(x: nat, c: nat, n: nat)
    requires x < Pow2(n)
    ensures Shr(x + c * Pow2(n), n) == c && (x + c * Pow2(n)) % Pow2(n) == x
  {
    ShrIsDiv(x + c * Pow2(n), n);
    DivUnique(x + c * Pow2(n), Pow2(n), c, x);
  }

  lemma {:induction false} ShrBound(x: nat, m: nat, n: nat)
    requires x < Pow2(m + n)
    ensures Shr(x, m) < Pow2(n)
  {
    if m > 0 {
      ShrBound(x / 2, m - 1, n);
    }
  }
}
