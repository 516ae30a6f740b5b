/** Perfect numbers: Nicomachus' classification by the aliquot sum. */
module PerfectNumbers {
  import opened Wrappers

  datatype Classification = Abundant | Perfect | Deficient

  /** The sum of the divisors of `n` in `1..k`. */
  function SumDivisors(n: nat, k: nat): nat {
    if k == 0 then 0 else SumDivisors(n, k - 1) + (if n % k == 0 then k else 0)
  }

  /** The aliquot sum as the factor iterator computes it: divisors up to `n / 2`. */
  function AliquotSum(n: nat): nat {
    SumDivisors(n, n / 2)
  }

  lemma {:induction false} SumSkip(n: nat, a: nat, b: nat)
    requires a <= b
    requires forall d :: a < d <= b ==> n % d != 0
    ensures SumDivisors(n, b) == SumDivisors(n, a)
    decreases b - a
  {
    if a < b {
      SumSkip(n, a, b - 1);
    }
  }

  /** No proper divisor of `n` exceeds `n / 2`, so the aliquot sum is the sum of all divisors
    * below `n`. */
  lemma ProperDivisors(n: nat)
    requires n >= 1
    ensures AliquotSum(n) == SumDivisors(n, n - 1)
  {
    forall d | n / 2 < d <= n - 1 ensures n % d != 0 {
      assert n < 2 * d;
      assert n / d == 1;
    }
    SumSkip(n, n / 2, n - 1);
  }

  /** The `Factors` iterator: yields the divisors of `n` in `1..=n/2`, in increasing order. */
  class Factors {
    var nextFactor: nat
    const n: nat

    constructor (n: nat)
      ensures this.n == n && nextFactor == 1
    {
      this.n := n;
      nextFactor := 1;
    }

    /** `next`: the smallest divisor from `nextFactor` up to `n / 2`, if any. */
    method Next() returns (r: Option<nat>)
      requires nextFactor >= 1
      modifies this
      ensures nextFactor >= 1
      ensures r.Some? ==> (old(nextFactor) <= r.value <= n / 2 && n % r.value == 0
        && nextFactor == r.value + 1)
      ensures r.Some? ==> forall d :: old(nextFactor) <= d < r.value ==> n % d != 0
      ensures r.None? ==> (nextFactor == old(nextFactor)
        && forall d :: old(nextFactor) <= d <= n / 2 ==> n % d != 0)
    {
      var d := nextFactor;
      while d <= n / 2
        invariant 1 <= nextFactor <= d
        invariant forall e :: nextFactor <= e < d ==> n % e != 0
        invariant nextFactor == old(nextFactor)
      {
        if n % d == 0 {
          nextFactor := d + 1;
          return Some(d);
        }
        d := d + 1;
      }
      return None;
    }
  }

  /** `classify`: the number compared with the sum of what the factor iterator yields. */
  method Classify(num: nat) returns (r: Option<Classification>)
    ensures num == 0 ==> r == None
    ensures num > 0 ==> r == Some(if num < AliquotSum(num) then Abundant
                                 else if num == AliquotSum(num) then Perfect
                                 else Deficient)
  {
    if num == 0 {
      return None;
    }
    var factors := new Factors(num);
    var sum := 0;
    var done := false;
    while !done
      invariant factors.n == num && 1 <= factors.nextFactor <= num / 2 + 1
      invariant sum == SumDivisors(num, factors.nextFactor - 1)
      invariant done ==> sum == AliquotSum(num)
      decreases num / 2 + 1 - factors.nextFactor, !done
    {
      var before := factors.nextFactor;
      var next := factors.Next();
      match next {
        case Some(d) =>
          SumSkip(num, before - 1, d - 1);
          sum := sum + d;
        case None =>
          SumSkip(num, before - 1, num / 2);
          done := true;
      }
    }
    r := Some(if num < sum then Abundant else if num == sum then Perfect else Deficient);
  }

  /** 1 has no divisor up to 1 / 2, so it is deficient. */
  lemma OneIsDeficient()
    ensures AliquotSum(1) == 0
  {
  }

  /** 6 and 28 are perfect, 12 is abundant. */
  lemma Examples()
    ensures AliquotSum(6) == 6
    ensures AliquotSum(28) == 28
    ensures AliquotSum(12) == 16
  {
    assert SumDivisors(12, 4) == 10;
    assert SumDivisors(28, 4) == 7;
    assert SumDivisors(28, 7) == 14;
    assert SumDivisors(28, 10) == 14;
    assert SumDivisors(28, 13) == 14;
  }
}
