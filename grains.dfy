/** Grains on a chessboard: square k holds twice as many grains as square k - 1. */
module Grains {
  import opened Arith

  /** `square(s)`; the source panics unless 1 <= s <= 64. */
  function Square(s: int): (r: nat)
    requires 1 <= s <= 64
    ensures r == Pow2(s - 1)
    ensures r <= 0x8000_0000_0000_0000
  {
    Pow2Monotone(s - 1, 63);
    Pow2Is64();
    Pow2(s - 1)
  }

  /** Each square holds double the grains of the one before it. */
  lemma SquareDoubles(s: int)
    requires 1 <= s < 64
    ensures Square(s + 1) == 2 * Square(s)
  {
  }

  /** `total()`: the sum of `square(s)` for s in 1..=n (n = 64 in the source). */
  function SumSquares(n: nat): nat
    requires n <= 64
  {
    if n == 0 then 0 else SumSquares(n - 1) + Square(n)
  }

  function Total(): (r: nat)
    ensures r == 0xFFFF_FFFF_FFFF_FFFF
  {
    SumSquaresIsMask(64);
    Pow2Is64();
    SumSquares(64)
  }

  /** The first n squares hold 2^n - 1 grains together. */
  lemma {:induction false} SumSquaresIsMask(n: nat)
    requires n <= 64
    ensures SumSquares(n) == Pow2(n) - 1
  {
    if n > 0 {
      SumSquaresIsMask(n - 1);
    }
  }

  lemma {:induction false} Pow2Add(a: nat, b: nat)
    ensures Pow2(a + b) == Pow2(a) * Pow2(b)
    decreases a
  {
    if a > 0 {
      Pow2Add(a - 1, b);
      assert Pow2(a + b) == 2 * Pow2(a - 1 + b);
      assert 2 * (Pow2(a - 1) * Pow2(b)) == (2 * Pow2(a - 1)) * Pow2(b) by {
        Arith.MulAssoc(2, Pow2(a - 1), Pow2(b));
      }
    }
  }

  lemma Pow2Is64()
    ensures Pow2(64) == 0x1_0000_0000_0000_0000
    ensures Pow2(63) == 0x8000_0000_0000_0000
  {
    Pow2Squared(32, 0x1_0000_0000);
    assert Pow2(64) == 2 * Pow2(63);
  }

  /** Squaring up the ladder 2^8, 2^16, 2^32. */
  lemma Pow2Squared(k: nat, v: nat)
    requires (k == 8 && v == 256) || (k == 16 && v == 0x1_0000) || (k == 32 && v == 0x1_0000_0000)
    ensures Pow2(k) == v && Pow2(k + k) == v * v
    decreases k
  {
    if k == 16 {
      Pow2Squared(8, 256);
    } else if k == 32 {
      Pow2Squared(16, 0x1_0000);
    }
    Pow2Add(k, k);
  }
}
