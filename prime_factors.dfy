/** Prime factors by trial division. */
module PrimeFactors {
  import opened Arith

  predicate IsPrime(p: nat) {
    p >= 2 && forall e :: 2 <= e < p ==> p % e != 0
  }

  function Product(s: seq<nat>): nat {
    if s == [] then 1 else s[0] * Product(s[1..])
  }

  predicate NonDecreasing(s: seq<nat>) {
    forall i, j :: 0 <= i < j < |s| ==> s[i] <= s[j]
  }

  /** No divisor of `n` lies in `2..lo`. */
  predicate NoSmallDivisor(n: nat, lo: nat) {
    forall e :: 2 <= e < lo ==> n % e != 0
  }

  lemma MultipleMod(e: nat, k: nat)
    requires e > 0
    ensures (e * k) % e == 0
  {
    DivUnique(e * k, e, k, 0);
  }

  /** A divisor of a divisor is a divisor. */
  lemma DivisorOfDivisor(e: nat, d: nat, n: nat)
    requires e > 0 && d > 0 && n % d == 0 && d % e == 0
    ensures n % e == 0
  {
    var q, r := n / d, d / e;
    assert n == d * q && d == e * r;
    MulAssoc(e, r, q);
    MultipleMod(e, r * q);
  }

  /** A composite number has a divisor no larger than its square root. */
  lemma SmallDivisor(n: nat, e: nat)
    requires 2 <= e < n && n % e == 0
    ensures exists f :: 2 <= f && f * f <= n && n % f == 0
  {
    var q := n / e;
    assert n == e * q;
    if e <= q {
      MulMonotone(e, e, q);
      assert 2 <= e && e * e <= n && n % e == 0;
    } else {
      assert q >= 2 by {
        if q <= 1 {
          MulMonotone(e, q, 1);
        }
      }
      MulMonotone(q, q, e);
      MultipleMod(q, e);
      assert q * e == n;
      assert 2 <= q && q * q <= n && n % q == 0;
    }
  }

  /** The divisor the search finds is prime, at least `lo`, and leaves a strictly smaller
    * quotient with no divisor below it. */
  lemma FoundDivisor(n: nat, d: nat, lo: nat)
    requires 2 <= lo && NoSmallDivisor(n, lo)
    requires 2 <= d && d * d <= n && NoSmallDivisor(n, d) && n % d == 0
    ensures IsPrime(d) && lo <= d
    ensures n == d * (n / d) && 1 <= n / d < n
    ensures NoSmallDivisor(n / d, d)
  {
    FoundPrime(n, d);
    Quotient(n, d);
    QuotientNoSmall(n, d);
  }

  lemma FoundPrime(n: nat, d: nat)
    requires 2 <= d && NoSmallDivisor(n, d) && n % d == 0
    ensures IsPrime(d)
  {
    forall e | 2 <= e < d ensures d % e != 0 {
      if d % e == 0 {
        DivisorOfDivisor(e, d, n);
      }
    }
  }

  lemma Quotient(n: nat, d: nat)
    requires 2 <= d && d * d <= n && n % d == 0
    ensures n == d * (n / d) && 1 <= n / d < n
  {
    var m := n / d;
    assert n == d * m;
    MulMonotone(m, 2, d);
    if m == 0 {
      assert n == 0;
      MulMonotone(d, 2, d);
    }
  }

  lemma QuotientNoSmall(n: nat, d: nat)
    requires 2 <= d && NoSmallDivisor(n, d) && n % d == 0
    ensures NoSmallDivisor(n / d, d)
  {
    var m := n / d;
    assert n == d * m;
    forall e | 2 <= e < d ensures m % e != 0 {
      if m % e == 0 && m != 0 {
        MultipleMod(m, d);
        assert n % m == 0;
        DivisorOfDivisor(e, m, n);
      }
    }
  }

  /** When no divisor is found up to the square root, `n` itself is prime. */
  lemma NoDivisorFound(n: nat, d: nat, lo: nat)
    requires 2 <= lo && NoSmallDivisor(n, lo)
    requires 2 <= d && d * d > n && NoSmallDivisor(n, d) && n >= 2
    ensures IsPrime(n) && lo <= n
  {
    forall e | 2 <= e < n ensures n % e != 0 {
      if n % e == 0 {
        SmallDivisor(n, e);
        var f :| 2 <= f && f * f <= n && n % f == 0;
        if d <= f {
          MulMonotone(d, d, f);
          MulMonotone(f, d, f);
        }
      }
    }
    assert n % n == 0;
  }

  /** Prepending the found divisor to the factors of the quotient. */
  lemma Prepend(d: nat, m: nat, rest: seq<nat>)
    requires IsPrime(d) && Product(rest) == m
    requires forall x <- rest :: IsPrime(x) && d <= x
    requires NonDecreasing(rest)
    ensures Product([d] + rest) == d * m
    ensures forall x <- [d] + rest :: IsPrime(x) && d <= x
    ensures NonDecreasing([d] + rest)
  {
    assert ([d] + rest)[1..] == rest;
    forall i, j | 0 <= i < j < |[d] + rest| ensures ([d] + rest)[i] <= ([d] + rest)[j] {
      if i > 0 {
        assert ([d] + rest)[i] == rest[i - 1] && ([d] + rest)[j] == rest[j - 1];
      } else {
        assert ([d] + rest)[j] in rest;
      }
    }
  }

  /** What the recursive call on the quotient gives, seen from the caller that pushed `d`. */
  lemma PushedFactors(factors: seq<nat>, n: nat, lo: nat, d: nat, r: seq<nat>)
    requires IsPrime(d) && lo <= d && n == d * (n / d) && 1 <= n / d < n
    requires |r| >= |factors| + 1 && r[..|factors| + 1] == factors + [d]
    requires Product(r[|factors| + 1..]) == n / d
    requires forall x <- r[|factors| + 1..] :: IsPrime(x) && d <= x
    requires NonDecreasing(r[|factors| + 1..])
    ensures r[..|factors|] == factors
    ensures Product(r[|factors|..]) == n
    ensures forall x <- r[|factors|..] :: IsPrime(x) && lo <= x
    ensures NonDecreasing(r[|factors|..])
  {
    var rest := r[|factors| + 1..];
    assert r[..|factors|] == (factors + [d])[..|factors|];
    assert r[|factors|..] == [d] + rest;
    Prepend(d, n / d, rest);
  }

  /** `rec_factors`: the smallest divisor `d` with `d * d <= n` is pushed and the search starts
    * again on `n / d`; when there is none, `n` itself is pushed unless it is 1. The bound
    * `d * d <= n` stands for the source's floating-point square root. */
  method RecFactors(factors: seq<nat>, n: nat, ghost lo: nat) returns (r: seq<nat>)
    requires 2 <= lo && NoSmallDivisor(n, lo)
    decreases n
    ensures |r| >= |factors| && r[..|factors|] == factors
    ensures n == 0 ==> r == factors + [0]
    ensures n == 1 ==> r == factors
    ensures n >= 1 ==> Product(r[|factors|..]) == n
    ensures n >= 1 ==> forall x <- r[|factors|..] :: IsPrime(x) && lo <= x
    ensures n >= 1 ==> NonDecreasing(r[|factors|..])
  {
    var d := 2;
    while d * d <= n
      invariant 2 <= d
      invariant NoSmallDivisor(n, d)
    {
      if n % d == 0 {
        FoundDivisor(n, d, lo);
        r := RecFactors(factors + [d], n / d, d);
        PushedFactors(factors, n, lo, d, r);
        return;
      }
      d := d + 1;
    }
    if n >= 2 {
      NoDivisorFound(n, d, lo);
    }
    if n != 1 {
      r := factors + [n];
      assert r[|factors|..] == [n];
    } else {
      r := factors;
    }
  }

  /** `factors`: the prime factors of `n`, smallest first; 1 has none and 0 gives `[0]`. */
  method Factors(n: nat) returns (r: seq<nat>)
    ensures n == 0 ==> r == [0]
    ensures n == 1 ==> r == []
    ensures n >= 1 ==> Product(r) == n
    ensures n >= 1 ==> forall x <- r :: IsPrime(x)
    ensures n >= 1 ==> NonDecreasing(r)
  {
    r := RecFactors([], n, 2);
    assert r[0..] == r;
  }
}
