/** Diffie-Hellman key exchange over the integers modulo a prime `p`
  * (section 2.1.1 of RFC 2631): keys by modular exponentiation, private keys
  * drawn from a linear congruential generator. */
module DiffieHellman {
  import opened Wrappers
  import opened Arith

  /** `b^e mod m`, the value every key computation stands for. */
  function ModPow(b: nat, e: nat, m: nat): nat
    requires m > 0
  {
    Pow(b, e) % m
  }

  lemma ModUnique(x: nat, m: nat, q: nat, r: nat)
    requires m > 0 && r < m && x == m * q + r
    ensures x % m == r
  {
    Arith.DivUnique(x, m, q, r);
  }

  lemma Expand(m: int, q1: int, r1: int, q2: int, r2: int)
    ensures (m * q1 + r1) * (m * q2 + r2) == m * (q1 * q2 * m + q1 * r2 + r1 * q2) + r1 * r2
  {
    calc {
      (m * q1 + r1) * (m * q2 + r2);
      (m * q1) * (m * q2 + r2) + r1 * (m * q2 + r2);
      (m * q1) * (m * q2) + (m * q1) * r2 + r1 * (m * q2) + r1 * r2;
      m * (q1 * q2 * m) + m * (q1 * r2) + m * (r1 * q2) + r1 * r2;
      m * (q1 * q2 * m + q1 * r2 + r1 * q2) + r1 * r2;
    }
  }

  lemma ModAddMultiple(m: nat, k: nat, x: nat)
    requires m > 0
    ensures (m * k + x) % m == x % m
  {
    var q, r := x / m, x % m;
    assert m * k + x == m * (k + q) + r by {
      assert x == m * q + r;
      assert m * (k + q) == m * k + m * q;
    }
    ModUnique(m * k + x, m, k + q, r);
  }

  lemma ModMulCore(a: nat, b: nat, m: nat, q1: nat, r1: nat, q2: nat, r2: nat)
    requires m > 0 && a == m * q1 + r1 && b == m * q2 + r2
    ensures (a * b) % m == (r1 * r2) % m
  {
    var k: nat := q1 * q2 * m + q1 * r2 + r1 * q2;
    var rr: nat := r1 * r2;
    assert a * b == m * k + rr by {
      Expand(m, q1, r1, q2, r2);
    }
    ModAddMultiple(m, k, rr);
  }

  lemma ModMul(a: nat, b: nat, m: nat)
    requires m > 0
    ensures (a * b) % m == ((a % m) * (b % m)) % m
  {
    ModMulCore(a, b, m, a / m, a % m, b / m, b % m);
  }

  lemma ModMulLeft(a: nat, x: nat, y: nat, m: nat)
    requires m > 0 && x % m == y % m
    ensures (a * x) % m == (a * y) % m
  {
    ModMul(a, x, m);
    ModMul(a, y, m);
  }

  lemma {:induction false} PowMod(b: nat, e: nat, m: nat)
    requires m > 0
    ensures Pow(b % m, e) % m == Pow(b, e) % m
  {
    if e > 0 {
      var c := b % m;
      var x, y := Pow(c, e - 1), Pow(b, e - 1);
      PowMod(b, e - 1, m);
      assert x % m == y % m;
      ModUnique(c, m, 0, c);
      calc {
        Pow(c, e) % m;
        (c * x) % m;
        { ModMul(c, x, m); }
        (c * (x % m)) % m;
        (c * (y % m)) % m;
        { ModMul(b, y, m); }
        (b * y) % m;
      }
    }
  }

  lemma {:induction false} PowAdd(b: nat, e1: nat, e2: nat)
    ensures Pow(b, e1 + e2) == Pow(b, e1) * Pow(b, e2)
  {
    if e1 > 0 {
      PowAdd(b, e1 - 1, e2);
      Arith.MulAssoc(b, Pow(b, e1 - 1), Pow(b, e2));
    }
  }

  lemma {:induction false} PowMul(b: nat, e1: nat, e2: nat)
    ensures Pow(b, e1 * e2) == Pow(Pow(b, e1), e2)
  {
    if e2 > 0 {
      PowMul(b, e1, e2 - 1);
      assert e1 * e2 == e1 + e1 * (e2 - 1);
      PowAdd(b, e1, e1 * (e2 - 1));
    }
  }

  /** Raising a key that is already reduced modulo `m` changes nothing modulo `m`. */
  lemma PowOfResidue(x: nat, e1: nat, e2: nat, m: nat)
    requires m > 0
    ensures ModPow(ModPow(x, e1, m), e2, m) == ModPow(x, e1 * e2, m)
  {
    PowMod(Pow(x, e1), e2, m);
    PowMul(x, e1, e2);
  }

  /** Both parties reach the same shared secret `g^(ab) mod p`. */
  lemma SharedSecret(p: nat, g: nat, a: nat, b: nat)
    requires p > 0
    ensures ModPow(ModPow(g, b, p), a, p) == ModPow(ModPow(g, a, p), b, p) == ModPow(g, a * b, p)
  {
    PowOfResidue(g, b, a, p);
    PowOfResidue(g, a, b, p);
    assert b * a == a * b;
  }

  lemma SquareHalf(base: nat, k: nat, m: nat)
    requires m > 0
    ensures Pow((base * base) % m, k) % m == Pow(base, 2 * k) % m
  {
    var sq := base * base;
    assert Pow(base, 2) == sq by {
      assert Pow(base, 1) == base;
    }
    PowMul(base, 2, k);
    PowMod(sq, k, m);
  }

  /** A round on an even exponent squares the base and keeps `result * base^exp mod m`. */
  lemma EvenStep(result: nat, base: nat, k: nat, m: nat)
    requires m > 0
    ensures (result * Pow((base * base) % m, k)) % m == (result * Pow(base, 2 * k)) % m
  {
    SquareHalf(base, k, m);
    ModMulLeft(result, Pow((base * base) % m, k), Pow(base, 2 * k), m);
  }

  /** A round on an odd exponent also multiplies the base into the result. */
  lemma OddStep(result: nat, base: nat, k: nat, m: nat)
    requires m > 0
    ensures (((result * base) % m) * Pow((base * base) % m, k)) % m == (result * Pow(base, 2 * k + 1)) % m
  {
    var rb, x, y := result * base, Pow((base * base) % m, k), Pow(base, 2 * k);
    SquareHalf(base, k, m);
    assert Pow(base, 2 * k + 1) == base * y;
    Arith.MulAssoc(result, base, y);
    ModMul(rb % m, x, m);
    ModUnique(rb % m, m, 0, rb % m);
    ModMul(rb, y, m);
  }

  /** `exp_modulo`: right-to-left binary exponentiation. A zero modulus makes the
    * source divide by zero. */
  method ExpModulo(b: nat, e: nat, m: nat) returns (result: nat)
    requires m > 0
    ensures result == ModPow(b, e, m)
  {
    if m == 1 {
      return 0;
    }
    var base: nat, exp: nat := b % m, e;
    result := 1;
    PowMod(b, e, m);
    while exp > 0
      invariant result < m && base < m
      invariant (result * Pow(base, exp)) % m == Pow(b, e) % m
      decreases exp
    {
      var k := exp / 2;
      if exp % 2 == 1 {
        assert exp == 2 * k + 1;
        OddStep(result, base, k, m);
        result := (result * base) % m;
      } else {
        assert exp == 2 * k;
        EvenStep(result, base, k, m);
      }
      exp := k;
      base := (base * base) % m;
    }
    ModUnique(result, m, 0, result);
  }

  /** `public_key`: `g^a mod p`. */
  method PublicKey(p: nat, g: nat, a: nat) returns (key: nat)
    requires p > 0
    ensures key == ModPow(g, a, p) && key < p
  {
    key := ExpModulo(g, a, p);
  }

  /** `secret`: the other party's public key raised to one's own private key, modulo `p`. */
  method Secret(p: nat, bPub: nat, a: nat) returns (s: nat)
    requires p > 0
    ensures s == ModPow(bPub, a, p) && s < p
  {
    s := ExpModulo(bPub, a, p);
  }

  const LcgSeed: nat := 1
  const LcgA: nat := 16807
  const LcgM: nat := 2147483647

  /** The multiplier is invertible modulo the prime `LcgM` (1407677000 is its inverse), so
    * a non-zero state never steps to zero. */
  lemma LcgNonZero(s: nat)
    requires 1 <= s < LcgM
    ensures (LcgA * s) % LcgM != 0
  {
    var q, r := (16807 * s) / 2147483647, (16807 * s) % 2147483647;
    assert 16807 * s == 2147483647 * q + r;
    assert 1407677000 * r == s + 2147483647 * (11017 * s - 1407677000 * q);
  }

  /** The generator behind `lcg_random`: a Park-Miller generator whose state the
    * source keeps in a mutable static. */
  class Lcg {
    var state: nat

    ghost predicate Valid()
      reads this
    {
      1 <= state < LcgM
    }

    constructor()
      ensures state == LcgSeed && Valid()
    {
      state := LcgSeed;
    }

    /** `lcg_random`: one step of the generator, returning the new state. */
    method Next() returns (r: nat)
      requires Valid()
      modifies this
      ensures state == (LcgA * old(state)) % LcgM && r == state
      ensures Valid()
    {
      LcgNonZero(state);
      state := (LcgA * state) % LcgM;
      r := state;
    }
  }

  /** The generator state after `n` steps from `s`. */
  function LcgIter(s: nat, n: nat): nat {
    if n == 0 then s else (LcgA * LcgIter(s, n - 1)) % LcgM
  }

  /** `private_key`: draws until the residue modulo `p` exceeds 1. The source retries
    * without bound; here at most `tries` draws are made after the first, and `draws`
    * counts the draws made. */
  method PrivateKey(gen: Lcg, p: nat, tries: nat) returns (key: Option<nat>, ghost draws: nat)
    requires p > 0 && gen.Valid()
    modifies gen
    ensures gen.Valid()
    ensures 1 <= draws <= tries + 1 && gen.state == LcgIter(old(gen.state), draws)
    ensures forall k :: 1 <= k < draws ==> LcgIter(old(gen.state), k) % p <= 1
    ensures key.Some? <==> gen.state % p > 1
    ensures key.Some? ==> key.value == gen.state % p && 1 < key.value < p
    ensures key.None? ==> draws == tries + 1
  {
    var r := gen.Next();
    draws := 1;
    var res := r % p;
    var left := tries;
    while res <= 1
      invariant gen.Valid() && res < p && res == gen.state % p
      invariant 1 <= draws && draws + left == tries + 1
      invariant gen.state == LcgIter(old(gen.state), draws)
      invariant forall k :: 1 <= k < draws ==> LcgIter(old(gen.state), k) % p <= 1
      decreases left
    {
      if left == 0 {
        return None, draws;
      }
      r := gen.Next();
      draws := draws + 1;
      res := r % p;
      left := left - 1;
    }
    key := Some(res);
  }
}
