/** Small facts of integer arithmetic that the solver does not find unaided. */
module Arith {

  lemma MulAssoc(a: int, b: int, c: int)
    ensures a * (b * c) == (a * b) * c
  {
  }

  lemma DivUnique(x: nat, p: nat, d: nat, m: nat)
    requires p > 0 && m < p && x == p * d + m
    ensures x / p == d
  {
    var d', m' := x / p, x % p;
    assert x == p * d' + m';
    if d' < d {
      MulSucc(p, d');
      MulMonotone(p, d' + 1, d);
    } else if d < d' {
      MulSucc(p, d);
      MulMonotone(p, d + 1, d');
    }
  }

  lemma MulSucc(p: nat, a: nat)
    ensures p * (a + 1) == p * a + p
  {
  }

  lemma MulMonotone(p: nat, a: nat, b: nat)
    requires a <= b
    ensures p * a <= p * b
  {
    assert p * b == p * a + p * (b - a);
  }

  /** Integer division truncating toward zero, as Rust's `/` on its integer types. */
  function TruncDiv(a: int, b: int): int
    requires b != 0
  {
    if (a >= 0) == (b > 0) then (if a >= 0 then a / b else -a / -b)
    else -((if a >= 0 then a else -a) / (if b > 0 then b else -b))
  }

  /** b^e. */
  function Pow(b: nat, e: nat): nat {
    if e == 0 then 1 else b * Pow(b, e - 1)
  }

  /** 2^k, the value of `1 << k`. */
  function Pow2(k: nat): (r: nat)
    ensures r >= 1
  {
    if k == 0 then 1 else 2 * Pow2(k - 1)
  }

  lemma {:induction false} Pow2Monotone(a: nat, b: nat)
    requires a <= b
    ensures Pow2(a) <= Pow2(b)
    decreases b
  {
    if a < b {
      Pow2Monotone(a, b - 1);
    }
  }
}
