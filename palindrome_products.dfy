/** Palindrome products: the smallest and the largest palindromic product of two
  * factors in `[min, max]`, with the factor pairs that make them. */
module PalindromeProducts {
  import opened Wrappers
  import PF = PrimeFactors
  import Arith

  // ---- Decimal palindromes ----

  /** The decimal digits of `n`, least significant first; `0` has none. */
  function Digits(n: nat): (ds: seq<nat>)
    ensures forall k :: 0 <= k < |ds| ==> ds[k] < 10
  {
    if n == 0 then [] else [n % 10] + Digits(n / 10)
  }

  function Reverse(s: seq<nat>): (r: seq<nat>)
    ensures |r| == |s| && forall i, j :: 0 <= i < |s| && i + j == |s| - 1 ==> r[i] == s[j]
  {
    if s == [] then [] else [s[|s| - 1]] + Reverse(s[..|s| - 1])
  }

  /** A number whose decimal digits read the same both ways. */
  predicate IsPalindrome(n: nat) {
    Digits(n) == Reverse(Digits(n))
  }

  /** The number whose digits, least significant first, are `s`. */
  function FromLittleEndian(s: seq<nat>): nat {
    if s == [] then 0 else s[0] + 10 * FromLittleEndian(s[1..])
  }

  /** The number whose digits, most significant first, are `s`. */
  function FromBigEndian(s: seq<nat>): nat {
    if s == [] then 0 else 10 * FromBigEndian(s[..|s| - 1]) + s[|s| - 1]
  }

  lemma {:induction false} DigitsValue(n: nat)
    ensures FromLittleEndian(Digits(n)) == n
  {
    if n > 0 {
      DigitsValue(n / 10);
      assert Digits(n)[1..] == Digits(n / 10);
    }
  }

  lemma {:induction false} BigEndianIsReversed(s: seq<nat>)
    ensures FromBigEndian(s) == FromLittleEndian(Reverse(s))
  {
    if s != [] {
      BigEndianIsReversed(s[..|s| - 1]);
      assert Reverse(s)[1..] == Reverse(s[..|s| - 1]);
    }
  }

  /** Digit sequences of the same length denote the same number only when equal. */
  lemma {:induction false} LittleEndianInjective(s: seq<nat>, t: seq<nat>)
    requires |s| == |t|
    requires forall k :: 0 <= k < |s| ==> s[k] < 10 && t[k] < 10
    requires FromLittleEndian(s) == FromLittleEndian(t)
    ensures s == t
  {
    if s != [] {
      var x, y := FromLittleEndian(s[1..]), FromLittleEndian(t[1..]);
      assert s[0] + 10 * x == t[0] + 10 * y;
      LittleEndianInjective(s[1..], t[1..]);
      assert s == [s[0]] + s[1..] && t == [t[0]] + t[1..];
    }
  }

  /** Reversing the digits gives back the number exactly for palindromes. */
  lemma ReversedValue(n: nat)
    ensures FromBigEndian(Digits(n)) == n <==> IsPalindrome(n)
  {
    var ds := Digits(n);
    DigitsValue(n);
    BigEndianIsReversed(ds);
    if FromBigEndian(ds) == n {
      forall k | 0 <= k < |ds| ensures Reverse(ds)[k] < 10 {
        assert Reverse(ds)[k] == ds[|ds| - 1 - k];
      }
      LittleEndianInjective(ds, Reverse(ds));
    }
  }

  // ---- Prime factors ----

  /** The search of `GetPrimeFactors::next`: the first divisor of `n` in `d..=n`. */
  function Scan(n: nat, d: nat): (r: Option<nat>)
    requires d >= 1
    ensures r.Some? ==> d <= r.value <= n && n % r.value == 0
    ensures r.Some? ==> forall y :: d <= y < r.value ==> n % y != 0
    ensures r.None? ==> forall y :: d <= y <= n ==> n % y != 0
    decreases n + 1 - d
  {
    if d > n then None
    else if n % d == 0 then Some(d)
    else Scan(n, d + 1)
  }

  /** Everything the iterator yields from the state `(n, from)`. */
  function Factorization(n: nat, from: nat): seq<nat>
    requires from >= 2
    decreases n
  {
    match Scan(n, from)
    case None => []
    case Some(d) =>
      QuotientSmaller(n, d);
      [d] + Factorization(n / d, d)
  }

  lemma QuotientSmaller(n: nat, d: nat)
    requires 2 <= d <= n && n % d == 0
    ensures 1 <= n / d < n && n == d * (n / d)
  {
  }

  /** The factors come in non-decreasing order, none below `from`, and multiply to `n`
    * as long as `n` has no divisor below `from`. */
  lemma {:induction false} FactorizationMeaning(n: nat, from: nat)
    requires n >= 1 && from >= 2 && PF.NoSmallDivisor(n, from)
    ensures PF.Product(Factorization(n, from)) == n
    ensures PF.NonDecreasing(Factorization(n, from))
    ensures forall k :: 0 <= k < |Factorization(n, from)| ==> Factorization(n, from)[k] >= from
  {
    match Scan(n, from)
    case None =>
      assert n % n == 0;
      assert Factorization(n, from) == [];
    case Some(d) =>
      var q := n / d;
      QuotientSmaller(n, d);
      forall y | 2 <= y < d ensures q % y != 0 {
        if q % y == 0 {
          PF.MultipleMod(q, d);
          assert n % q == 0;
          PF.DivisorOfDivisor(y, q, n);
        }
      }
      FactorizationMeaning(q, d);
      var rest := Factorization(q, d);
      assert Factorization(n, from) == [d] + rest;
      assert ([d] + rest)[1..] == rest;
  }

  lemma FactorizationOfOne(from: nat)
    requires from >= 2
    ensures Factorization(1, from) == []
  {
  }

  /** `GetPrimeFactors`: yields the prime factors of `n` in non-decreasing order. */
  class GetPrimeFactors {
    var nextFactor: nat
    var n: nat

    constructor(n: nat)
      ensures this.n == n && nextFactor == 2
    {
      this.n := n;
      nextFactor := 2;
    }

    /** `next`: the first divisor of `n` from `nextFactor` on, which is divided out. */
    method Next() returns (r: Option<nat>)
      requires nextFactor >= 2
      modifies this
      ensures r == Scan(old(n), old(nextFactor))
      ensures r.Some? ==> n == old(n) / r.value && nextFactor == r.value
      ensures r.None? ==> n == old(n) && nextFactor == old(nextFactor)
    {
      var m, d := n, nextFactor;
      while d <= m
        invariant d >= nextFactor && Scan(m, nextFactor) == Scan(m, d)
        decreases m + 1 - d
      {
        if m % d == 0 {
          n := m / d;
          nextFactor := d;
          return Some(d);
        }
        d := d + 1;
      }
      return None;
    }
  }

  /** What is still to come once `next` has returned `r` and left the iterator in `(n, from)`. */
  function Pending(r: Option<nat>, n: nat, from: nat): seq<nat>
    requires from >= 2
  {
    if r.Some? then [r.value] + Factorization(n, from) else []
  }

  /** What `next` returns and leaves behind is everything that was still to come after the
    * factor `d` already collected. */
  lemma PendingStep(done: seq<nat>, d: nat, n: nat, from: nat, r: Option<nat>, n': nat, from': nat)
    requires from >= 2 && r == Scan(n, from)
    requires r.Some? ==> n' == n / r.value && from' == r.value
    requires r.None? ==> n' == n && from' == from
    ensures from' >= 2
    ensures r.Some? ==> n' < n
    ensures (done + [d]) + Pending(r, n', from') == done + Pending(Some(d), n, from)
  {
    if r.Some? {
      QuotientSmaller(n, r.value);
    }
    assert Factorization(n, from) == Pending(r, n', from');
  }

  /** `GetPrimeFactors::new(n)` run to the end. */
  method CollectFactors(n: nat) returns (primes: seq<nat>)
    ensures primes == Factorization(n, 2)
  {
    var it := new GetPrimeFactors(n);
    primes := [];
    var r := it.Next();
    while r.Some?
      invariant it.nextFactor >= 2
      invariant r.Some? ==> it.nextFactor == r.value
      invariant primes + Pending(r, it.n, it.nextFactor) == Factorization(n, 2)
      decreases it.n + (if r.Some? then 1 else 0)
    {
      ghost var before, beforeFrom, done := it.n, it.nextFactor, primes;
      var d := r.value;
      primes := primes + [d];
      r := it.Next();
      PendingStep(done, d, before, beforeFrom, r, it.n, it.nextFactor);
    }
  }

  // ---- The palindrome value and its factor pairs ----

  predicate PairLess(p: (nat, nat), q: (nat, nat)) {
    p.0 < q.0 || (p.0 == q.0 && p.1 < q.1)
  }

  /** A `BTreeSet` of pairs: strictly increasing. */
  predicate SortedPairs(s: seq<(nat, nat)>) {
    forall i, j :: 0 <= i < j < |s| ==> PairLess(s[i], s[j])
  }

  function InsertPair(s: seq<(nat, nat)>, x: (nat, nat)): (r: seq<(nat, nat)>)
    requires SortedPairs(s)
    ensures SortedPairs(r) && |r| > 0
    ensures forall p :: p in r <==> p in s || p == x
  {
    if s == [] then [x]
    else if x == s[0] then s
    else if PairLess(x, s[0]) then
      ConsPairs(x, s);
      [x] + s
    else
      var rest := InsertPair(s[1..], x);
      InsertPairStep(s, x, rest);
      [s[0]] + rest
  }

  /** A pair below the first of a sorted sequence can be put in front of it. */
  lemma ConsPairs(x: (nat, nat), s: seq<(nat, nat)>)
    requires SortedPairs(s)
    requires s == [] || PairLess(x, s[0])
    ensures SortedPairs([x] + s)
  {
    var r := [x] + s;
    forall i, j | 0 <= i < j < |r| ensures PairLess(r[i], r[j]) {
      if i == 0 && j > 1 {
        assert PairLess(s[0], s[j - 1]);
      }
    }
  }

  /** The recursive step of `InsertPair`: the first pair stays in front of the insertion into
    * the rest. */
  lemma InsertPairStep(s: seq<(nat, nat)>, x: (nat, nat), rest: seq<(nat, nat)>)
    requires SortedPairs(s) && s != [] && PairLess(s[0], x)
    requires SortedPairs(rest) && forall p :: p in rest <==> p in s[1..] || p == x
    ensures SortedPairs([s[0]] + rest)
    ensures forall p :: p in [s[0]] + rest <==> p in s || p == x
  {
    assert s == [s[0]] + s[1..];
    if rest != [] {
      assert rest[0] in rest;
      if rest[0] != x {
        var k :| 0 <= k < |s[1..]| && s[1..][k] == rest[0];
        assert s[k + 1] == rest[0];
      }
    }
    ConsPairs(s[0], rest);
  }

  /** `(product of primes[..i], product of primes[i..])`. */
  function SplitAt(primes: seq<nat>, i: nat): (nat, nat)
    requires i <= |primes|
  {
    (PF.Product(primes[..i]), PF.Product(primes[i..]))
  }

  predicate InRange(p: (nat, nat), min: nat, max: nat) {
    min <= p.0 <= max && min <= p.1 <= max
  }

  /** The pairs `update_factors` inserts for the first `k` split points. */
  function SplitPairs(primes: seq<nat>, min: nat, max: nat, k: nat): set<(nat, nat)>
    requires k <= |primes|
  {
    set i | 0 <= i < k && InRange(SplitAt(primes, i), min, max) :: SplitAt(primes, i)
  }

  /** The pairs `update_factors` derives from the factor pair `(a, b)`. */
  function NewPairs(pair: (nat, nat), min: nat, max: nat): set<(nat, nat)> {
    var primes := Factorization(pair.0, 2) + Factorization(pair.1, 2);
    SplitPairs(primes, min, max, |primes|)
  }

  lemma {:induction false} ProductAppend(s: seq<nat>, t: seq<nat>)
    ensures PF.Product(s + t) == PF.Product(s) * PF.Product(t)
  {
    if s == [] {
      assert s + t == t;
    } else {
      ProductAppend(s[1..], t);
      assert (s + t)[1..] == s[1..] + t && (s + t)[0] == s[0];
      calc {
        PF.Product(s + t);
        s[0] * PF.Product(s[1..] + t);
        s[0] * (PF.Product(s[1..]) * PF.Product(t));
        { Arith.MulAssoc(s[0], PF.Product(s[1..]), PF.Product(t)); }
        (s[0] * PF.Product(s[1..])) * PF.Product(t);
      }
    }
  }

  lemma SplitProduct(primes: seq<nat>, i: nat)
    requires i <= |primes|
    ensures SplitAt(primes, i).0 * SplitAt(primes, i).1 == PF.Product(primes)
  {
    assert primes == primes[..i] + primes[i..];
    ProductAppend(primes[..i], primes[i..]);
  }

  lemma SplitPairsNext(primes: seq<nat>, min: nat, max: nat, k: nat)
    requires k < |primes|
    ensures forall p :: p in SplitPairs(primes, min, max, k + 1) <==>
      p in SplitPairs(primes, min, max, k) || (p == SplitAt(primes, k) && InRange(p, min, max))
  {
  }

  lemma SplitPairsMeaning(primes: seq<nat>, min: nat, max: nat, k: nat)
    requires k <= |primes|
    ensures forall p :: p in SplitPairs(primes, min, max, k) ==> InRange(p, min, max) && p.0 * p.1 == PF.Product(primes)
  {
    forall p | p in SplitPairs(primes, min, max, k) ensures InRange(p, min, max) && p.0 * p.1 == PF.Product(primes) {
      var i :| 0 <= i < k && InRange(SplitAt(primes, i), min, max) && p == SplitAt(primes, i);
      SplitProduct(primes, i);
    }
  }

  /** Every pair `update_factors` adds lies in `[min, max]`, and when both factors of the
    * pair it starts from are positive, it multiplies to the same value. */
  lemma NewPairsMeaning(pair: (nat, nat), min: nat, max: nat)
    ensures forall p :: p in NewPairs(pair, min, max) ==> InRange(p, min, max)
    ensures pair.0 >= 1 && pair.1 >= 1 ==>
      forall p :: p in NewPairs(pair, min, max) ==> p.0 * p.1 == pair.0 * pair.1
  {
    var fa, fb := Factorization(pair.0, 2), Factorization(pair.1, 2);
    SplitPairsMeaning(fa + fb, min, max, |fa + fb|);
    if pair.0 >= 1 && pair.1 >= 1 {
      FactorizationMeaning(pair.0, 2);
      FactorizationMeaning(pair.1, 2);
      ProductAppend(fa, fb);
    }
  }

  /** `Palindrome`: a product value with the factor pairs found for it. */
  class Palindrome {
    var value: nat
    var factors: seq<(nat, nat)>

    ghost predicate Valid()
      reads this
    {
      |factors| > 0 && SortedPairs(factors)
    }

    /** `Palindrome::new`: the value `a * b` with the single pair `(a, b)`. */
    constructor(a: nat, b: nat)
      ensures value == a * b && factors == [(a, b)] && Valid()
    {
      value := a * b;
      factors := [(a, b)];
    }

    /** `insert`: adds a factor pair. */
    method Insert(a: nat, b: nat)
      requires Valid()
      modifies this
      ensures Valid() && value == old(value)
      ensures forall p :: p in factors <==> p in old(factors) || p == (a, b)
    {
      factors := InsertPair(factors, (a, b));
    }

    /** `update_factors`: splits the prime factors of the smallest pair at every point
      * and inserts the splits whose two products lie in `[min, max]`. */
    method UpdateFactors(min: nat, max: nat)
      requires Valid()
      modifies this
      ensures Valid() && value == old(value)
      ensures forall p :: p in factors <==> p in old(factors) || p in NewPairs(old(factors)[0], min, max)
    {
      var (a, b) := factors[0];
      var pa := CollectFactors(a);
      var pb := CollectFactors(b);
      var primes := pa + pb;
      var idx := 0;
      while idx < |primes|
        invariant idx <= |primes| && Valid() && value == old(value)
        invariant forall p :: p in factors <==> p in old(factors) || p in SplitPairs(primes, min, max, idx)
      {
        var pair := SplitAt(primes, idx);
        if min <= pair.0 && min <= pair.1 && pair.0 <= max && pair.1 <= max {
          Insert(pair.0, pair.1);
        }
        SplitPairsNext(primes, min, max, idx);
        idx := idx + 1;
      }
    }

    /** `is_valid`: reverses the decimal digits of the value and compares. */
    method IsValid() returns (valid: bool)
      ensures valid <==> IsPalindrome(value)
    {
      if value < 10 {
        assert value > 0 ==> Digits(value) == [value];
        return true;
      }
      ghost var ds := Digits(value);
      var tmp, reversed := value, 0;
      ghost var k := 0;
      while tmp > 0
        invariant k <= |ds| && Digits(tmp) == ds[k..]
        invariant reversed == FromBigEndian(ds[..k])
        decreases tmp
      {
        ReverseStep(ds, k, tmp);
        reversed := reversed * 10 + tmp % 10;
        tmp := tmp / 10;
        k := k + 1;
      }
      assert ds[..k] == ds;
      ReversedValue(value);
      valid := value == reversed;
    }
  }

  /** One step of the reversing loop: the lowest remaining digit joins the reversed number. */
  lemma ReverseStep(ds: seq<nat>, k: nat, tmp: nat)
    requires tmp > 0 && k <= |ds| && Digits(tmp) == ds[k..]
    ensures k < |ds| && Digits(tmp / 10) == ds[k + 1..]
    ensures FromBigEndian(ds[..k + 1]) == FromBigEndian(ds[..k]) * 10 + tmp % 10
  {
    assert ds[k..][0] == tmp % 10 && ds[k + 1..] == ds[k..][1..];
    assert ds[..k + 1][..k] == ds[..k];
  }

  // ---- The searches ----

  /** A product of two factors in `[min, max]` that is a palindrome. */
  predicate PalindromeProduct(min: nat, max: nat, a: nat, b: nat) {
    min <= a <= max && min <= b <= max && IsPalindrome(a * b)
  }

  predicate PalPair(p: (int, int)) {
    p.0 >= 0 && p.1 >= 0 && IsPalindrome(p.0 * p.1)
  }

  /** The pairs of sum `2 * min + inc` that `miniter` visits, `d` counting down to 0. */
  function MinGroup(min: nat, inc: nat, d: nat): (s: seq<(int, int)>)
    ensures |s| == d + 1
    ensures forall k :: 0 <= k < |s| ==> s[k] == (min + inc - (d - k), min + (d - k))
  {
    if d == 0 then [(min + inc, min)] else [(min + inc - d, min + d)] + MinGroup(min, inc, d - 1)
  }

  /** `miniter` before filtering: sums `2 * min + inc` for `inc` from `inc` to `top`,
    * from the most equal pair of each sum to the least. */
  function MinOrder(min: nat, inc: nat, top: nat): seq<(int, int)>
    decreases top + 1 - inc
  {
    if inc > top then [] else MinGroup(min, inc, inc / 2) + MinOrder(min, inc + 1, top)
  }

  /** The pairs of sum `2 * max - dec` that `maxiter` visits, `i` counting up to `top`. */
  function MaxGroup(max: nat, dec: nat, i: nat, top: nat): (s: seq<(int, int)>)
    ensures |s| == if i <= top then top - i + 1 else 0
    ensures forall k :: 0 <= k < |s| ==> s[k] == (max - dec + (i + k), max - (i + k))
    decreases top + 1 - i
  {
    if i > top then [] else [(max - dec + i, max - i)] + MaxGroup(max, dec, i + 1, top)
  }

  /** `maxiter` before filtering: sums `2 * max - dec` for `dec` from `dec` to `top`,
    * from the least equal pair of each sum to the most. */
  function MaxOrder(max: nat, dec: nat, top: nat): seq<(int, int)>
    decreases top + 1 - dec
  {
    if dec > top then [] else MaxGroup(max, dec, 0, dec / 2) + MaxOrder(max, dec + 1, top)
  }

  function KeepAtMost(s: seq<(int, int)>, max: nat): seq<(int, int)>
  {
    if s == [] then []
    else if s[0].0 <= max && s[0].1 <= max then [s[0]] + KeepAtMost(s[1..], max)
    else KeepAtMost(s[1..], max)
  }

  lemma {:induction false} KeepAtMostMembers(s: seq<(int, int)>, max: nat)
    ensures forall p :: p in KeepAtMost(s, max) <==> p in s && p.0 <= max && p.1 <= max
  {
    if s != [] {
      assert forall p :: p in s <==> p == s[0] || p in s[1..];
      KeepAtMostMembers(s[1..], max);
    }
  }

  function KeepAtLeast(s: seq<(int, int)>, min: nat): seq<(int, int)>
  {
    if s == [] then []
    else if s[0].0 >= min && s[0].1 >= min then [s[0]] + KeepAtLeast(s[1..], min)
    else KeepAtLeast(s[1..], min)
  }

  lemma {:induction false} KeepAtLeastMembers(s: seq<(int, int)>, min: nat)
    ensures forall p :: p in KeepAtLeast(s, min) <==> p in s && p.0 >= min && p.1 >= min
  {
    if s != [] {
      assert forall p :: p in s <==> p == s[0] || p in s[1..];
      KeepAtLeastMembers(s[1..], min);
    }
  }

  /** `find(Palindrome::is_valid)`: the first pair whose product is a palindrome. */
  function FirstPal(s: seq<(int, int)>): Option<(int, int)>
  {
    var k := FirstPalIndex(s);
    if k < |s| then Some(s[k]) else None
  }

  /** `find` yields a palindromic pair of `s` that no earlier pair precedes, and nothing
    * only when no pair of `s` is palindromic. */
  lemma FirstPalMeaning(s: seq<(int, int)>)
    ensures var r := FirstPal(s);
      && (r.Some? ==> r.value in s && PalPair(r.value))
      && (r.Some? ==> exists k :: 0 <= k < |s| && s[k] == r.value && forall j :: 0 <= j < k ==> !PalPair(s[j]))
      && (r.None? <==> forall p :: p in s ==> !PalPair(p))
  {
  }

  /** The position of the first palindromic pair, or `|s|` when there is none. */
  function FirstPalIndex(s: seq<(int, int)>): (k: nat)
    ensures k <= |s|
    ensures forall j :: 0 <= j < k ==> !PalPair(s[j])
    ensures k < |s| ==> PalPair(s[k])
  {
    if s == [] then 0
    else if PalPair(s[0]) then 0
    else
      var k := FirstPalIndex(s[1..]);
      forall j | 1 <= j < k + 1 ensures !PalPair(s[j]) {
        assert s[j] == s[1..][j - 1];
      }
      k + 1
  }

  /** The pair of largest product among those whose product is a palindrome. */
  function LargestPal(s: seq<(int, int)>): (r: Option<(int, int)>)
    ensures r.Some? ==> r.value in s && PalPair(r.value)
    ensures r.Some? ==> forall q :: q in s && PalPair(q) ==> q.0 * q.1 <= r.value.0 * r.value.1
    ensures r.None? <==> forall p :: p in s ==> !PalPair(p)
  {
    if s == [] then None
    else
      var rest := LargestPal(s[1..]);
      assert forall p :: p in s <==> p == s[0] || p in s[1..];
      if !PalPair(s[0]) then rest
      else if rest.Some? && s[0].0 * s[0].1 <= rest.value.0 * rest.value.1 then rest
      else Some(s[0])
  }

  lemma {:induction false} MinOrderShape(min: nat, inc: nat, top: nat)
    ensures forall p :: p in MinOrder(min, inc, top) ==> p.1 >= min && p.0 >= p.1 && p.0 + p.1 <= 2 * min + top
    decreases top + 1 - inc
  {
    if inc <= top {
      MinOrderShape(min, inc + 1, top);
      var g := MinGroup(min, inc, inc / 2);
      assert MinOrder(min, inc, top) == g + MinOrder(min, inc + 1, top);
      forall p | p in g ensures p.1 >= min && p.0 >= p.1 && p.0 + p.1 <= 2 * min + top {
        var k :| 0 <= k < |g| && g[k] == p;
      }
    }
  }

  /** `miniter` visits every pair `(a, b)` with `min <= b <= a` and sum in its range. */
  lemma {:induction false} MinOrderCovers(min: nat, inc: nat, top: nat, a: nat, b: nat)
    requires min <= b <= a && inc <= a + b - 2 * min <= top
    ensures (a, b) in MinOrder(min, inc, top)
    decreases top + 1 - inc
  {
    if a + b - 2 * min == inc {
      var g := MinGroup(min, inc, inc / 2);
      assert g[inc / 2 - (b - min)] == (a, b);
    } else {
      MinOrderCovers(min, inc + 1, top, a, b);
    }
  }

  lemma {:induction false} MaxOrderShape(max: nat, dec: nat, top: nat)
    ensures forall p :: p in MaxOrder(max, dec, top) ==> p.0 <= p.1 <= max
    decreases top + 1 - dec
  {
    if dec <= top {
      MaxOrderShape(max, dec + 1, top);
      var g := MaxGroup(max, dec, 0, dec / 2);
      assert MaxOrder(max, dec, top) == g + MaxOrder(max, dec + 1, top);
      forall p | p in g ensures p.0 <= p.1 <= max {
        var k :| 0 <= k < |g| && g[k] == p;
        assert 2 * k <= dec && p == (max - dec + k, max - k);
      }
    }
  }

  /** `maxiter` visits every pair `(a, b)` with `a <= b <= max` and sum in its range. */
  lemma {:induction false} MaxOrderCovers(max: nat, dec: nat, top: nat, a: nat, b: nat)
    requires a <= b <= max && dec <= 2 * max - a - b <= top
    ensures (a, b) in MaxOrder(max, dec, top)
    decreases top + 1 - dec
  {
    if 2 * max - a - b == dec {
      var g := MaxGroup(max, dec, 0, dec / 2);
      assert g[max - b] == (a, b);
    } else {
      MaxOrderCovers(max, dec + 1, top, a, b);
    }
  }

  /** The pairs `miniter` tries, in its order. */
  function MinCandidates(min: nat, max: nat): seq<(int, int)>
    requires min <= max
  {
    KeepAtMost(MinOrder(min, 0, 2 * (max - min)), max)
  }

  /** The pairs `maxiter` tries, in its order. */
  function MaxCandidates(min: nat, max: nat): seq<(int, int)>
    requires min <= max
  {
    KeepAtLeast(MaxOrder(max, 0, 2 * (max - min)), min)
  }

  /** `miniter` tries exactly the pairs `(a, b)` with `min <= b <= a <= max`. */
  lemma MinCandidatesExact(min: nat, max: nat)
    requires min <= max
    ensures forall p :: p in MinCandidates(min, max) <==> min <= p.1 <= p.0 <= max
  {
    MinOrderShape(min, 0, 2 * (max - min));
    KeepAtMostMembers(MinOrder(min, 0, 2 * (max - min)), max);
    forall p: (int, int) | min <= p.1 <= p.0 <= max ensures p in MinCandidates(min, max) {
      MinOrderCovers(min, 0, 2 * (max - min), p.0, p.1);
    }
  }

  /** `maxiter` tries exactly the pairs `(a, b)` with `min <= a <= b <= max`. */
  lemma MaxCandidatesExact(min: nat, max: nat)
    requires min <= max
    ensures forall p :: p in MaxCandidates(min, max) <==> min <= p.0 <= p.1 <= max
  {
    MaxOrderShape(max, 0, 2 * (max - min));
    KeepAtLeastMembers(MaxOrder(max, 0, 2 * (max - min)), min);
    forall p: (int, int) | min <= p.0 <= p.1 <= max ensures p in MaxCandidates(min, max) {
      MaxOrderCovers(max, 0, 2 * (max - min), p.0, p.1);
    }
  }

  /** A palindrome product appears among the candidates of `miniter`, factors in either order. */
  lemma InMinCandidates(min: nat, max: nat, a: nat, b: nat)
    requires min <= max && PalindromeProduct(min, max, a, b)
    ensures exists p :: p in MinCandidates(min, max) && PalPair(p) && p.0 * p.1 == a * b
  {
    MinCandidatesExact(min, max);
    if b <= a {
      assert (a, b) in MinCandidates(min, max);
    } else {
      assert b * a == a * b;
      assert (b, a) in MinCandidates(min, max);
    }
  }

  /** As written, `palindrome_products` takes the first palindrome `miniter` meets. */
  function MinSearchAsWritten(min: nat, max: nat): Option<(int, int)>
    requires min <= max
  {
    FirstPal(MinCandidates(min, max))
  }

  /** `miniter` finds a palindrome product, and finds nothing only when there is none. */
  lemma MinSearchAsWrittenFinds(min: nat, max: nat)
    requires min <= max
    ensures var r := MinSearchAsWritten(min, max);
      (r.Some? ==> PalindromeProduct(min, max, r.value.0, r.value.1))
      && (r.None? <==> forall a: nat, b: nat :: !PalindromeProduct(min, max, a, b))
  {
    MinCandidatesExact(min, max);
    var r := MinSearchAsWritten(min, max);
    if r.None? {
      forall a: nat, b: nat ensures !PalindromeProduct(min, max, a, b) {
        if PalindromeProduct(min, max, a, b) {
          InMinCandidates(min, max, a, b);
        }
      }
    } else {
      var p := r.value;
      assert PalindromeProduct(min, max, p.0, p.1);
    }
  }

  /** The pair of smallest product among those whose product is a palindrome. */
  function SmallestPal(s: seq<(int, int)>): (r: Option<(int, int)>)
    ensures r.Some? ==> r.value in s && PalPair(r.value)
    ensures r.Some? ==> forall q :: q in s && PalPair(q) ==> r.value.0 * r.value.1 <= q.0 * q.1
    ensures r.None? <==> forall p :: p in s ==> !PalPair(p)
  {
    if s == [] then None
    else
      var rest := SmallestPal(s[1..]);
      assert forall p :: p in s <==> p == s[0] || p in s[1..];
      if !PalPair(s[0]) then rest
      else if rest.Some? && rest.value.0 * rest.value.1 <= s[0].0 * s[0].1 then rest
      else Some(s[0])
  }

  /** The evidently intended minimum: the smallest palindrome product among `miniter`'s pairs. */
  function MinSearch(min: nat, max: nat): Option<(int, int)>
    requires min <= max
  {
    SmallestPal(MinCandidates(min, max))
  }

  /** The corrected minimum search returns a palindrome product no larger than any other,
    * and finds one whenever one exists. */
  lemma MinSearchSmallest(min: nat, max: nat)
    requires min <= max
    ensures var r := MinSearch(min, max);
      (r.Some? ==> (PalindromeProduct(min, max, r.value.0, r.value.1)
        && forall a: nat, b: nat :: PalindromeProduct(min, max, a, b) ==> r.value.0 * r.value.1 <= a * b))
      && (r.None? <==> forall a: nat, b: nat :: !PalindromeProduct(min, max, a, b))
  {
    MinCandidatesExact(min, max);
    var r := MinSearch(min, max);
    forall a: nat, b: nat | PalindromeProduct(min, max, a, b)
      ensures r.Some? && r.value.0 * r.value.1 <= a * b
    {
      InMinCandidates(min, max, a, b);
    }
    if r.Some? {
      var p := r.value;
      assert PalindromeProduct(min, max, p.0, p.1);
    }
  }

  lemma {:induction false} MinOrderSplit(min: nat, inc: nat, mid: nat, top: nat)
    requires inc <= mid + 1 && mid <= top
    ensures MinOrder(min, inc, top) == MinOrder(min, inc, mid) + MinOrder(min, mid + 1, top)
    decreases mid + 1 - inc
  {
    if inc <= mid {
      MinOrderSplit(min, inc + 1, mid, top);
    }
  }

  lemma KeepAtMostCons(x: (int, int), rest: seq<(int, int)>, max: nat)
    ensures KeepAtMost([x] + rest, max) == if x.0 <= max && x.1 <= max then [x] + KeepAtMost(rest, max) else KeepAtMost(rest, max)
  {
    assert ([x] + rest)[0] == x && ([x] + rest)[1..] == rest;
  }

  lemma {:induction false} KeepAtMostAppend(s: seq<(int, int)>, t: seq<(int, int)>, max: nat)
    ensures KeepAtMost(s + t, max) == KeepAtMost(s, max) + KeepAtMost(t, max)
  {
    if s == [] {
      assert s + t == t;
    } else {
      var x, u := s[0], s[1..];
      var keep := x.0 <= max && x.1 <= max;
      KeepAtMostAppend(u, t, max);
      var a, b := KeepAtMost(u, max), KeepAtMost(t, max);
      assert KeepAtMost(s, max) == if keep then [x] + a else a by {
        assert s == [x] + u;
        KeepAtMostCons(x, u, max);
      }
      assert KeepAtMost(s + t, max) == if keep then [x] + (a + b) else a + b by {
        assert s + t == [x] + (u + t);
        KeepAtMostCons(x, u + t, max);
      }
      if keep {
        assert [x] + (a + b) == ([x] + a) + b;
      }
    }
  }

  lemma FirstPalCons(x: (int, int), rest: seq<(int, int)>)
    ensures FirstPal([x] + rest) == if PalPair(x) then Some(x) else FirstPal(rest)
  {
    assert ([x] + rest)[1..] == rest;
    if !PalPair(x) {
      assert FirstPalIndex([x] + rest) == FirstPalIndex(rest) + 1;
    }
  }

  /** `find` over a concatenation: the first part's hit, else the second part's. */
  lemma {:induction false} FirstPalAppend(s: seq<(int, int)>, t: seq<(int, int)>)
    ensures FirstPal(s + t) == if FirstPal(s).Some? then FirstPal(s) else FirstPal(t)
  {
    if s == [] {
      assert s + t == t;
    } else {
      assert s + t == [s[0]] + (s[1..] + t) && s == [s[0]] + s[1..];
      FirstPalCons(s[0], s[1..] + t);
      FirstPalCons(s[0], s[1..]);
      FirstPalAppend(s[1..], t);
    }
  }

  /** The decimal digits of a five-digit number. */
  lemma FiveDigits(n: nat)
    requires 10000 <= n < 100000
    ensures Digits(n) == [n % 10, n / 10 % 10, n / 100 % 10, n / 1000 % 10, n / 10000]
  {
    var d1, d2, d3, d4 := n / 10, n / 100, n / 1000, n / 10000;
    assert d1 / 10 == d2 && d2 / 10 == d3 && d3 / 10 == d4 && d4 / 10 == 0;
    assert Digits(d4) == [d4];
    assert Digits(d3) == [d3 % 10] + Digits(d4);
    assert Digits(d2) == [d2 % 10] + Digits(d3);
    assert Digits(d1) == [d1 % 10] + Digits(d2);
  }

  /** A five-digit palindrome is `xyzyx`. */
  lemma FivePalindrome(n: nat)
    requires 10000 <= n < 100000
    ensures IsPalindrome(n) <==> n % 10 == n / 10000 && n / 10 % 10 == n / 1000 % 10
    ensures IsPalindrome(n) ==> n == 10001 * (n / 10000) + 1010 * (n / 1000 % 10) + 100 * (n / 100 % 10)
  {
    FiveDigits(n);
    var ds := Digits(n);
    assert Reverse(ds) == [ds[4], ds[3], ds[2], ds[1], ds[0]];
    FiveDigitValue(n);
  }

  lemma FiveDigitValue(n: nat)
    requires n < 100000
    ensures n == 10000 * (n / 10000) + 1000 * (n / 1000 % 10) + 100 * (n / 100 % 10) + 10 * (n / 10 % 10) + n % 10
  {
    var d1, d2, d3, d4 := n / 10, n / 100, n / 1000, n / 10000;
    assert d1 / 10 == d2 && d2 / 10 == d3 && d3 / 10 == d4;
    assert n == 10 * d1 + n % 10 && d1 == 10 * d2 + d1 % 10;
    assert d2 == 10 * d3 + d2 % 10 && d3 == 10 * d4 + d3 % 10;
  }

  /** No two factors in `[192, 212]` make a palindrome below 40704. */
  lemma NoPalindromeBelow(a: nat, b: nat)
    requires 192 <= a <= 212 && 192 <= b <= 212 && a * b < 40704
    ensures !IsPalindrome(a * b)
  {
    var n := a * b;
    Arith.MulMonotone(b, 192, a);
    assert 36864 <= n;
    FivePalindrome(n);
    if IsPalindrome(n) {
      NotFiveDigitPalindrome(a, b, n / 10000, n / 1000 % 10, n / 100 % 10);
    }
  }

  lemma NotFiveDigitPalindrome(a: nat, b: nat, x: nat, y: nat, z: nat)
    requires 192 <= a <= 212 && 192 <= b <= 212 && 36864 <= a * b < 40704
    requires 3 <= x <= 4 && y <= 9 && z <= 9
    ensures a * b != 10001 * x + 1010 * y + 100 * z
  {
    if a <= 198 {
      NotPalindromeLow(a, b, x, y, z);
    } else if a <= 205 {
      NotPalindromeMiddle(a, b, x, y, z);
    } else {
      NotPalindromeHigh(a, b, x, y, z);
    }
  }

  /** The palindromes `xyzyx` of `[36864, 40704)` have `x` 3 or 4; none is a product of two
    * factors in `[192, 212]`, checked one first factor at a time. */
  lemma NotPalindromeLow(a: nat, b: nat, x: nat, y: nat, z: nat)
    requires 192 <= a <= 198 && 192 <= b <= 212 && 36864 <= a * b < 40704
    requires 3 <= x <= 4 && y <= 9 && z <= 9
    ensures a * b != 10001 * x + 1010 * y + 100 * z
  {
    if a == 192 { }
    else if a == 193 { }
    else if a == 194 { }
    else if a == 195 { }
    else if a == 196 { }
    else if a == 197 { }
    else { }
  }

  lemma NotPalindromeMiddle(a: nat, b: nat, x: nat, y: nat, z: nat)
    requires 199 <= a <= 205 && 192 <= b <= 212 && 36864 <= a * b < 40704
    requires 3 <= x <= 4 && y <= 9 && z <= 9
    ensures a * b != 10001 * x + 1010 * y + 100 * z
  {
    if a == 199 { }
    else if a == 200 { }
    else if a == 201 { }
    else if a == 202 { }
    else if a == 203 { }
    else if a == 204 { }
    else { }
  }

  lemma NotPalindromeHigh(a: nat, b: nat, x: nat, y: nat, z: nat)
    requires 206 <= a <= 212 && 192 <= b <= 212 && 36864 <= a * b < 40704
    requires 3 <= x <= 4 && y <= 9 && z <= 9
    ensures a * b != 10001 * x + 1010 * y + 100 * z
  {
    if a == 206 { }
    else if a == 207 { }
    else if a == 208 { }
    else if a == 209 { }
    else if a == 210 { }
    else if a == 211 { }
    else { }
  }

  /** 212 * 192 is the only way to write 40704 with `192 <= b <= a <= 212`. */
  lemma OnlyFactorPair(a: nat, b: nat)
    requires 192 <= b <= a <= 212 && a * b == 40704
    ensures a == 212 && b == 192
  {
    if b == 192 { } else if b == 193 { } else if b == 194 { } else if b == 195 { }
    else if b == 196 { } else if b == 197 { } else if b == 198 { } else if b == 199 { }
    else if b == 200 { } else if b == 201 { }
  }

  /** The candidates of `miniter` around the equal pair `(min + h, min + h)` that opens the
    * group of sum `2 * (min + h)`. */
  lemma {:induction false} MinCandidatesAtEqualPair(min: nat, max: nat, h: nat) returns (tail: seq<(int, int)>)
    requires 1 <= h <= max - min
    ensures MinCandidates(min, max) == KeepAtMost(MinOrder(min, 0, 2 * h - 1), max) + ([(min + h, min + h)] + tail)
  {
    var top, inc := 2 * (max - min), 2 * h;
    assert inc / 2 == h;
    var before := MinOrder(min, 0, inc - 1);
    MinOrderSplit(min, 0, inc - 1, top);
    var rest := MinGroup(min, inc, h - 1) + MinOrder(min, inc + 1, top);
    assert MinOrder(min, inc, top) == [(min + h, min + h)] + rest;
    KeepAtMostAppend(before, [(min + h, min + h)] + rest, max);
    KeepAtMostCons((min + h, min + h), rest, max);
    tail := KeepAtMost(rest, max);
  }

  /** In a group of even sum `miniter` starts with the equal pair: when that pair is a
    * palindrome product, `miniter` stops there or in an earlier group. */
  lemma StopsAtEqualPair(min: nat, max: nat, h: nat)
    requires 1 <= h <= max - min && PalPair((min + h, min + h))
    ensures var r := MinSearchAsWritten(min, max);
      r.Some? && (r.value == (min + h, min + h) || r.value.0 + r.value.1 < 2 * (min + h))
  {
    var early := FirstPal(KeepAtMost(MinOrder(min, 0, 2 * h - 1), max));
    MinSearchAtEqualPair(min, max, h);
    EarlierGroups(min, max, 2 * h - 1);
    if early.Some? {
      assert MinSearchAsWritten(min, max) == early;
      assert early.value.0 + early.value.1 <= 2 * min + (2 * h - 1);
    } else {
      assert MinSearchAsWritten(min, max) == Some((min + h, min + h));
    }
  }

  /** `miniter` stops at the equal pair `(min + h, min + h)` unless it stops in an earlier
    * group. */
  lemma MinSearchAtEqualPair(min: nat, max: nat, h: nat)
    requires 1 <= h <= max - min && PalPair((min + h, min + h))
    ensures var early := FirstPal(KeepAtMost(MinOrder(min, 0, 2 * h - 1), max));
      MinSearchAsWritten(min, max) == if early.Some? then early else Some((min + h, min + h))
  {
    var kept := KeepAtMost(MinOrder(min, 0, 2 * h - 1), max);
    var tail := MinCandidatesAtEqualPair(min, max, h);
    FirstPalAround(kept, (min + h, min + h), tail);
  }

  /** The search stops at a palindromic pair `x` unless it stops before it. */
  lemma FirstPalAround(before: seq<(int, int)>, x: (int, int), after: seq<(int, int)>)
    requires PalPair(x)
    ensures FirstPal(before + ([x] + after)) == if FirstPal(before).Some? then FirstPal(before) else Some(x)
  {
    FirstPalAppend(before, [x] + after);
    FirstPalCons(x, after);
  }

  /** A palindromic pair that `miniter` finds among the sums up to `2 * min + inc` has
    * a sum no larger. */
  lemma EarlierGroups(min: nat, max: nat, inc: nat)
    ensures var r := FirstPal(KeepAtMost(MinOrder(min, 0, inc), max));
      r.Some? ==> r.value.0 + r.value.1 <= 2 * min + inc
  {
    var before := MinOrder(min, 0, inc);
    var r := FirstPal(KeepAtMost(before, max));
    if r.Some? {
      KeepAtMostMembers(before, max);
      MinOrderShape(min, 0, inc);
      assert r.value in before;
    }
  }

  /** 212 * 192 = 40704 is the smallest palindrome product of factors in `[192, 212]`. */
  lemma SmallestOfRange(min: nat, max: nat)
    requires min == 192 && max == 212
    ensures PalindromeProduct(min, max, 212, 192) && 212 * 192 == 40704
    ensures forall a: nat, b: nat :: PalindromeProduct(min, max, a, b) ==> 40704 <= a * b
  {
    var n := 212 * 192;
    assert n == 40704 && n / 10000 == 4 && n / 10 % 10 == 0 && n / 1000 % 10 == 0;
    FivePalindrome(n);
    forall a: nat, b: nat | PalindromeProduct(min, max, a, b) ensures 40704 <= a * b {
      if a * b < 40704 {
        NoPalindromeBelow(a, b);
      }
    }
  }

  /** 202 * 202 = 40804 is a palindrome. */
  lemma EqualPairPalindrome()
    ensures PalPair((202, 202))
  {
    var n := 202 * 202;
    assert n == 40804 && n / 10000 == 4 && n / 10 % 10 == 0 && n / 1000 % 10 == 0;
    FivePalindrome(n);
  }

  /** For factors in `[192, 212]`, `miniter` meets 202 * 202 = 40804 in the group of sum 404
    * before 212 * 192 = 40704, the smallest palindrome product, and returns a larger one.
    * (The range is passed as parameters so that the candidate list is not expanded.) */
  lemma MinSearchAsWrittenMissesSmallest(min: nat, max: nat)
    requires min == 192 && max == 212
    ensures PalindromeProduct(min, max, 212, 192)
    ensures var r := MinSearchAsWritten(min, max); r.Some? && r.value.0 * r.value.1 > 212 * 192
  {
    EqualPairPalindrome();
    StopsAtEqualPair(min, max, 10);
    SmallestOfRange(min, max);
    var r := MinSearchAsWritten(min, max);
    MinSearchAsWrittenFinds(min, max);
    MinCandidatesExact(min, max);
    var p := r.value;
    assert PalindromeProduct(min, max, p.0, p.1);
    if p.0 * p.1 == 40704 {
      OnlyFactorPair(p.0, p.1);
    }
  }

  // ---- maxiter under u64 arithmetic ----

  /** How `maxiter.find(Palindrome::is_valid)` ends: a palindrome, the iterator exhausted,
    * or the panic of an underflowing `u64` subtraction. */
  datatype MaxOutcome = Found(pair: (nat, nat)) | Exhausted | Underflow

  /** Position `i` of group `dec` is filtered out or not a palindrome. */
  predicate Rejected(min: nat, max: nat, dec: nat, i: nat) {
    !(max - dec + i >= min && max - i >= min && PalPair((max - dec + i, max - i)))
  }

  /** `maxiter` as written, from group `dec`, position `i` on, up to group `top`: groups are
    * produced lazily, and the first pair of a group with `dec > max` computes `max - dec`
    * in `u64`, which panics. */
  function MaxWalk(min: nat, max: nat, dec: nat, i: nat, top: nat): (r: MaxOutcome)
    ensures r.Found? ==> PalindromeProduct(min, max, r.pair.0, r.pair.1) && r.pair.0 <= r.pair.1
    decreases top + 1 - dec, dec / 2 + 1 - i
  {
    if dec > top then Exhausted
    else if i > dec / 2 then MaxWalk(min, max, dec + 1, 0, top)
    else if dec > max then Underflow
    else if !Rejected(min, max, dec, i) then Found((max - dec + i, max - i))
    else MaxWalk(min, max, dec, i + 1, top)
  }

  /** As written, `palindrome_products` takes the first palindrome `maxiter` meets. */
  function MaxSearchAsWritten(min: nat, max: nat): MaxOutcome
    requires min <= max
  {
    MaxWalk(min, max, 0, 0, 2 * (max - min))
  }

  /** When no pair of the groups up to `max` is a palindrome product and the groups run past
    * `max`, `maxiter` panics. */
  lemma {:induction false} MaxWalkUnderflows(min: nat, max: nat, dec: nat, i: nat, top: nat)
    requires max < top && dec <= max + 1 && i <= dec / 2 + 1 && (dec == max + 1 ==> i == 0)
    requires forall d, j :: dec <= d <= max && 0 <= j <= d / 2 && (d > dec || j >= i) ==> Rejected(min, max, d, j)
    ensures MaxWalk(min, max, dec, i, top) == Underflow
    decreases top + 1 - dec, dec / 2 + 1 - i
  {
    if i > dec / 2 {
      MaxWalkUnderflows(min, max, dec + 1, 0, top);
    } else if dec <= max {
      assert Rejected(min, max, dec, i);
      MaxWalkUnderflows(min, max, dec, i + 1, top);
    }
  }

  /** The digits of a two-digit number. */
  lemma TwoDigitPalindrome(n: nat)
    requires 10 <= n < 100
    ensures IsPalindrome(n) <==> n % 10 == n / 10
  {
    var k := n / 10;
    assert Digits(k) == [k] by {
      assert k % 10 == k && k / 10 == 0;
    }
    assert Digits(n) == [n % 10, k];
  }

  /** Two factors in `[3, 9]` with sum at least 7 never make a palindrome. */
  lemma SmallProductNotPalindrome(a: nat, b: nat)
    requires 3 <= a <= 9 && 3 <= b <= 9 && a + b >= 7
    ensures !IsPalindrome(a * b)
  {
    if a == 3 { } else if a == 4 { } else if a == 5 { } else if a == 6 { }
    else if a == 7 { } else if a == 8 { } else { }
    TwoDigitPalindrome(a * b);
  }

  lemma SmallPalindromes()
    ensures !IsPalindrome(16) && !IsPalindrome(12) && IsPalindrome(8) && IsPalindrome(9)
  {
    assert Digits(16) == [6, 1];
    assert Digits(12) == [2, 1];
    assert Digits(8) == [8];
    assert Digits(9) == [9];
  }

  /** For factors in `[3, 7]` no pair that `maxiter` visits before `dec` passes `max` is a
    * palindrome product. */
  lemma SmallRangeRejected(min: nat, max: nat)
    requires min == 3 && max == 7
    ensures forall d, j :: 0 <= d <= max && 0 <= j <= d / 2 ==> Rejected(min, max, d, j)
  {
    forall d, j | 0 <= d <= max && 0 <= j <= d / 2 ensures Rejected(min, max, d, j) {
      if max - d + j >= min {
        SmallProductNotPalindrome(max - d + j, max - j);
      }
    }
  }

  /** For factors in `[3, 7]`, `miniter` finds 3 * 3 = 9, but no pair with `dec <= 7` is a
    * palindrome product, so `maxiter` reaches `dec = 8` and `7 - 8` underflows.
    * (The range is passed as parameters so that the candidate list is not expanded.) */
  lemma MaxSearchAsWrittenUnderflows(min: nat, max: nat)
    requires min == 3 && max == 7
    ensures MinSearchAsWritten(min, max).Some? && PalindromeProduct(min, max, 3, 3)
    ensures MaxSearchAsWritten(min, max) == Underflow
  {
    SmallRangeRejected(min, max);
    MaxWalkUnderflows(min, max, 0, 0, 2 * (max - min));
    SmallRangeHasPalindrome(min, max);
  }

  /** `miniter` finds a palindrome product for factors in `[3, 7]`: 3 * 3 = 9 is one. */
  lemma SmallRangeHasPalindrome(min: nat, max: nat)
    requires min == 3 && max == 7
    ensures MinSearchAsWritten(min, max).Some? && PalindromeProduct(min, max, 3, 3)
  {
    SmallPalindromes();
    assert PalindromeProduct(min, max, 3, 3);
    MinSearchAsWrittenFinds(min, max);
    if MinSearchAsWritten(min, max).None? {
      assert false;
    }
  }

  /** Within each sum `maxiter` starts from the most unequal pair, the smallest product:
    * for `[1, 4]` it stops at `2 * 4 = 8` although `3 * 3 = 9` is a palindrome. */
  lemma MaxSearchAsWrittenMissesNine()
    ensures MaxSearchAsWritten(1, 4) == Found((2, 4))
    ensures PalindromeProduct(1, 4, 3, 3) && 2 * 4 < 3 * 3
  {
    SmallPalindromes();
    assert Rejected(1, 4, 0, 0) && Rejected(1, 4, 1, 0) && !Rejected(1, 4, 2, 0);
    assert MaxWalk(1, 4, 1, 1, 6) == MaxWalk(1, 4, 2, 0, 6) == Found((2, 4));
    assert MaxWalk(1, 4, 0, 1, 6) == MaxWalk(1, 4, 1, 0, 6);
  }

  /** The evidently intended maximum: the largest palindrome product among `maxiter`'s pairs,
    * whose subtraction is read over the integers, a negative first factor being filtered out. */
  function MaxSearch(min: nat, max: nat): Option<(int, int)>
    requires min <= max
  {
    LargestPal(MaxCandidates(min, max))
  }

  /** A palindrome product appears among the candidates of `maxiter`, factors in either order. */
  lemma InMaxCandidates(min: nat, max: nat, a: nat, b: nat)
    requires min <= max && PalindromeProduct(min, max, a, b)
    ensures exists p :: p in MaxCandidates(min, max) && PalPair(p) && p.0 * p.1 == a * b
  {
    MaxCandidatesExact(min, max);
    if a <= b {
      assert (a, b) in MaxCandidates(min, max);
    } else {
      assert b * a == a * b;
      assert (b, a) in MaxCandidates(min, max);
    }
  }

  /** The corrected maximum search returns a palindrome product no smaller than any other,
    * and finds one whenever one exists. */
  lemma MaxSearchLargest(min: nat, max: nat)
    requires min <= max
    ensures var r := MaxSearch(min, max);
      (r.Some? ==> (PalindromeProduct(min, max, r.value.0, r.value.1)
        && forall a: nat, b: nat :: PalindromeProduct(min, max, a, b) ==> a * b <= r.value.0 * r.value.1))
      && (r.None? <==> forall a: nat, b: nat :: !PalindromeProduct(min, max, a, b))
  {
    MaxCandidatesExact(min, max);
    var r := MaxSearch(min, max);
    forall a: nat, b: nat | PalindromeProduct(min, max, a, b)
      ensures r.Some? && a * b <= r.value.0 * r.value.1
    {
      InMaxCandidates(min, max, a, b);
    }
    if r.Some? {
      var p := r.value;
      assert PalindromeProduct(min, max, p.0, p.1);
    }
  }

  /** The palindrome of the pair `(a, b)` with its factor pairs completed. */
  method Completed(a: nat, b: nat, min: nat, max: nat) returns (pal: Palindrome)
    requires InRange((a, b), min, max)
    ensures fresh(pal) && pal.Valid() && pal.value == a * b
    ensures forall p :: p in pal.factors ==> InRange(p, min, max)
    ensures pal.value > 0 ==> forall p :: p in pal.factors ==> p.0 * p.1 == pal.value
  {
    pal := new Palindrome(a, b);
    NewPairsMeaning((a, b), min, max);
    pal.UpdateFactors(min, max);
  }

  /** `palindrome_products`: `None` for an empty range or when no product is a palindrome;
    * otherwise the smallest and the largest palindrome products, each with its factor pairs.
    * When both have the same value they share the minimum's pairs. The source panics when
    * `maxiter` underflows before meeting a palindrome; the caller must rule that out. */
  method PalindromeProducts(min: nat, max: nat) returns (r: Option<(Palindrome, Palindrome)>)
    requires min <= max && MinSearchAsWritten(min, max).Some? ==> !MaxSearchAsWritten(min, max).Underflow?
    ensures r.None? <==> max < min || forall a: nat, b: nat :: !PalindromeProduct(min, max, a, b)
    ensures r.Some? ==> fresh(r.value.0) && fresh(r.value.1) && r.value.0 != r.value.1
    ensures r.Some? ==> var (lo, hi) := r.value;
      lo.Valid() && hi.Valid() && IsPalindrome(lo.value) && IsPalindrome(hi.value)
      && lo.value <= hi.value
      && (forall a: nat, b: nat :: PalindromeProduct(min, max, a, b) ==> lo.value <= a * b <= hi.value)
      && (forall p :: p in lo.factors ==> InRange(p, min, max))
      && (forall p :: p in hi.factors ==> InRange(p, min, max))
      && (lo.value > 0 ==> forall p :: p in lo.factors ==> p.0 * p.1 == lo.value)
      && (hi.value > 0 ==> forall p :: p in hi.factors ==> p.0 * p.1 == hi.value)
      && (lo.value == hi.value ==> lo.factors == hi.factors)
  {
    if max < min {
      return None;
    }
    MinSearchSmallest(min, max);
    MaxSearchLargest(min, max);
    var lowest := MinSearch(min, max);
    if lowest.None? {
      return None;
    }
    var highest := MaxSearch(min, max);
    var (a, b) := lowest.value;
    var (c, d) := highest.value;
    assert PalindromeProduct(min, max, a, b) && PalindromeProduct(min, max, c, d);
    var pmin := Completed(a, b, min, max);
    var pmax;
    if a * b == c * d {
      pmax := new Palindrome(c, d);
      pmax.factors := pmin.factors;
    } else {
      pmax := Completed(c, d, min, max);
    }
    r := Some((pmin, pmax));
  }
}
