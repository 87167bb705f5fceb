/** Bitwise operations on non-negative integers, computed bit by bit as
    JavaScript's BigInt operators `&`, `|`, `^`, `<<` and `>>` compute them
    when both operands are non-negative. `x & ~m` with non-negative `x` and
    `m` is AndNot(x, m). */
module Bits {

  function Pow2(k: nat): (r: nat)
    ensures r >= 1
  {
    if k == 0 then 1 else 2 * Pow2(k - 1)
  }

  /** a & b */
  function And(a: nat, b: nat): nat
    decreases a
  {
    if a == 0 || b == 0 then 0
    else 2 * And(a / 2, b / 2) + (if a % 2 == 1 && b % 2 == 1 then 1 else 0)
  }

  /** a | b */
  function Or(a: nat, b: nat): nat
    decreases a + b
  {
    if a == 0 then b
    else if b == 0 then a
    else 2 * Or(a / 2, b / 2) + (if a % 2 == 1 || b % 2 == 1 then 1 else 0)
  }

  /** a ^ b */
  function Xor(a: nat, b: nat): nat
    decreases a + b
  {
    if a == 0 then b
    else if b == 0 then a
    else 2 * Xor(a / 2, b / 2) + (if a % 2 != b % 2 then 1 else 0)
  }

  /** a & ~b */
  function AndNot(a: nat, b: nat): nat
    decreases a
  {
    if a == 0 then 0
    else if b == 0 then a
    else 2 * AndNot(a / 2, b / 2) + (if a % 2 == 1 && b % 2 == 0 then 1 else 0)
  }

  lemma {:induction false} Pow2Add(a: nat, b: nat)
    ensures Pow2(a + b) == Pow2(a) * Pow2(b)
  {
    if a > 0 {
      Pow2Add(a - 1, b);
    }
  }

  /** The powers of two the hashes and the storage codec use. */
  lemma Pow2Values()
    ensures Pow2(16) == 0x1_0000
    ensures Pow2(32) == 0x1_0000_0000
    ensures Pow2(61) == 0x2000_0000_0000_0000
    ensures Pow2(64) == 0x1_0000_0000_0000_0000
  {
    assert Pow2(8) == 0x100;
    Pow2Add(8, 8);
    Pow2Add(16, 16);
    Pow2Add(32, 32);
    Pow2Add(8, 5);
    Pow2Add(16, 13);
    Pow2Add(32, 29);
  }

  lemma MulAtLeast(m: int, d: int)
    requires m > 0 && d >= 1
    ensures m * d >= m
  {
  }

  /** Euclidean division is determined by quotient and remainder. */
  lemma DivModUnique(x: int, m: int, q: int, r: int)
    requires m > 0 && 0 <= r < m && x == m * q + r
    ensures x / m == q && x % m == r
  {
    var q', r' := x / m, x % m;
    assert m * q' + r' == m * q + r;
    if q' > q {
      MulAtLeast(m, q' - q);
      assert false;
    } else if q' < q {
      MulAtLeast(m, q - q');
      assert false;
    }
  }

  /** Splitting off the lowest bit of x before dividing by 2 * p. */
  lemma DivModHalf(x: nat, p: nat)
    requires p >= 1
    ensures (x / 2) / p == x / (2 * p)
    ensures x % (2 * p) == 2 * ((x / 2) % p) + x % 2
  {
    var q, a, b := x / 2, (x / 2) / p, (x / 2) % p;
    assert q == p * a + b;
    assert x == (2 * p) * a + (2 * b + x % 2);
    DivModUnique(x, 2 * p, a, 2 * b + x % 2);
  }

  /** Masking with 2^k - 1 keeps the low k bits. */
  lemma {:induction false} AndLowMask(x: nat, k: nat)
    ensures And(x, Pow2(k) - 1) == x % Pow2(k)
  {
    if k == 0 {
      ModOne(x);
    } else if x == 0 {
      ModOfZero(Pow2(k));
    } else {
      AndLowMask(x / 2, k - 1);
      AndLowMaskStep(x, k);
    }
  }

  /** One bit of AndLowMask: the low bit of x, then the low k - 1 bits of x / 2. */
  lemma AndLowMaskStep(x: nat, k: nat)
    requires k > 0 && x > 0
    requires And(x / 2, Pow2(k - 1) - 1) == (x / 2) % Pow2(k - 1)
    ensures And(x, Pow2(k) - 1) == x % Pow2(k)
  {
    var m := Pow2(k - 1);
    var b := Pow2(k) - 1;
    assert Pow2(k) == 2 * m;
    HalfOdd(b, m - 1);
    LowBit(x);
    assert And(x, b) == 2 * And(x / 2, m - 1) + x % 2;
    DivModHalf(x, m);
  }

  lemma ModOne(x: nat)
    ensures x % 1 == 0
  {
  }

  lemma ModOfZero(p: nat)
    requires p > 0
    ensures 0 % p == 0
  {
  }

  lemma HalfOdd(b: nat, c: nat)
    requires b == 2 * c + 1
    ensures b / 2 == c && b % 2 == 1
  {
  }

  lemma LowBit(x: nat)
    ensures x % 2 == 0 || x % 2 == 1
  {
  }

  /** Or-ing a tag above the low k bits of x is addition. */
  lemma {:induction false} OrAboveLowBits(x: nat, y: nat, k: nat)
    requires x < Pow2(k)
    ensures Or(x, y * Pow2(k)) == x + y * Pow2(k)
  {
    if k > 0 && x > 0 && y > 0 {
      assert y * Pow2(k) == 2 * (y * Pow2(k - 1));
      OrAboveLowBits(x / 2, y, k - 1);
    }
  }

  /** Keeping the low k bits of h and setting a tag above them. */
  lemma TagAboveLowBits(h: nat, k: nat, tag: nat)
    ensures Or(And(h, Pow2(k) - 1), tag * Pow2(k)) == h % Pow2(k) + tag * Pow2(k)
  {
    AndLowMask(h, k);
    OrAboveLowBits(h % Pow2(k), tag, k);
  }

  /** y << k and x >> k, as repeated doubling and halving. */
  function Shl(y: nat, k: nat): nat
  {
    if k == 0 then y else 2 * Shl(y, k - 1)
  }

  function Shr(x: nat, k: nat): nat
  {
    if k == 0 then x else Shr(x / 2, k - 1)
  }

  lemma {:induction false} ShlIsMul(y: nat, k: nat)
    ensures Shl(y, k) == y * Pow2(k)
  {
    if k > 0 {
      ShlIsMul(y, k - 1);
      assert y * Pow2(k) == 2 * (y * Pow2(k - 1));
    }
  }

  lemma {:induction false} ShrIsDiv(x: nat, k: nat)
    ensures Shr(x, k) == x / Pow2(k)
  {
    if k > 0 {
      ShrIsDiv(x / 2, k - 1);
      DivModHalf(x, Pow2(k - 1));
    }
  }

  /** A mask shifted left by k selects the bits of x above position k. */
  lemma {:induction false} AndShl(x: nat, y: nat, k: nat)
    ensures And(x, Shl(y, k)) == Shl(And(Shr(x, k), y), k)
  {
    if k > 0 {
      AndShl(x / 2, y, k - 1);
      var b := Shl(y, k - 1);
      assert Shl(y, k) == 2 * b;
      if x > 0 && b > 0 {
        assert And(x, 2 * b) == 2 * And(x / 2, b);
      }
    }
  }

  lemma DivBelow(x: nat, a: nat, b: nat)
    requires a > 0 && x < a * b
    ensures x / a < b
  {
    var q := x / a;
    assert a * q <= x;
    assert a * (b - q) == a * b - a * q;
    PositiveFactor(a, b - q);
  }

  lemma PositiveFactor(a: int, c: int)
    requires a > 0 && a * c > 0
    ensures c > 0
  {
  }

  lemma QuotientBelow(x: nat, k: nat, n: nat)
    requires x < Pow2(k + n)
    ensures x / Pow2(k) < Pow2(n)
  {
    Pow2Add(k, n);
    DivBelow(x, Pow2(k), Pow2(n));
  }

  /** For an x of k + n bits, the mask of n ones shifted left by k keeps the
      bits of x from position k up. */
  lemma AndUpperBits(x: nat, k: nat, n: nat)
    requires x < Pow2(k + n)
    ensures And(x, Shl(Pow2(n) - 1, k)) == (x / Pow2(k)) * Pow2(k)
  {
    var q := Shr(x, k);
    ShrIsDiv(x, k);
    QuotientBelow(x, k, n);
    calc {
      And(x, Shl(Pow2(n) - 1, k));
      { AndShl(x, Pow2(n) - 1, k); }
      Shl(And(q, Pow2(n) - 1), k);
      { AndLowMaskSmall(q, n); }
      Shl(q, k);
      { ShlIsMul(q, k); }
      q * Pow2(k);
    }
  }

  lemma AndLowMaskSmall(q: nat, n: nat)
    requires q < Pow2(n)
    ensures And(q, Pow2(n) - 1) == q
  {
    AndLowMask(q, n);
    SmallMod(q, Pow2(n));
  }

  lemma SmallMod(q: nat, p: nat)
    requires q < p
    ensures q % p == q
  {
  }

  /** For a 32-bit x, the mask m = 0xFFFF0000 keeps the upper halfword. */
  lemma AndUpperHalfword(x: nat, m: nat)
    requires x < 0x1_0000_0000 && m == 0xFFFF_0000
    ensures And(x, m) == (x / 0x1_0000) * 0x1_0000
  {
    Pow2Values();
    AndUpperBits(x, 16, 16);
    ShlIsMul(Pow2(16) - 1, 16);
  }

  /** Clearing bit k subtracts 2^k exactly when that bit is set. */
  lemma {:induction false} AndNotBit(x: nat, k: nat)
    ensures AndNot(x, Pow2(k)) == if (x / Pow2(k)) % 2 == 1 then x - Pow2(k) else x
  {
    if x > 0 && k > 0 {
      AndNotBit(x / 2, k - 1);
      DivModHalf(x, Pow2(k - 1));
    }
  }
}
