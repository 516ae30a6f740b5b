/** All your base: converting a number written as digits in one base into the digits of
  * another base, by arithmetic on little-endian digit vectors in the target base. */
module AllYourBase {
  import opened Wrappers
  import opened Arith

  datatype Error = InvalidInputBase | InvalidOutputBase | InvalidDigit(digit: nat)

  /** The value of little-endian digits in base `b`; the digits may exceed `b - 1`. */
  function Value(ds: seq<nat>, b: nat): nat {
    if ds == [] then 0 else ds[0] + b * Value(ds[1..], b)
  }

  function Reverse(s: seq<nat>): (r: seq<nat>)
    ensures |r| == |s| && forall k :: 0 <= k < |s| ==> r[k] == s[|s| - 1 - k]
  {
    if s == [] then [] else Reverse(s[1..]) + [s[0]]
  }

  function Zeros(k: nat): (z: seq<nat>)
    ensures |z| == k && forall i :: 0 <= i < k ==> z[i] == 0
  {
    seq(k, _ => 0)
  }

  predicate AllBelow(ds: seq<nat>, b: nat) {
    forall i :: 0 <= i < |ds| ==> ds[i] < b
  }

  /** The canonical digits: all below the base, and no zero in the highest place except
    * for the number zero itself, which is `[0]`. */
  predicate Normal(ds: seq<nat>, b: nat) {
    |ds| >= 1 && AllBelow(ds, b) && (|ds| == 1 || ds[|ds| - 1] != 0)
  }

  // ---- Facts about `Value` ----

  lemma {:induction false} ValueConcat(s: seq<nat>, t: seq<nat>, b: nat)
    ensures Value(s + t, b) == Value(s, b) + Pow(b, |s|) * Value(t, b)
  {
    if s == [] {
      assert s + t == t;
    } else {
      ValueConcat(s[1..], t, b);
      assert (s + t)[0] == s[0] && (s + t)[1..] == s[1..] + t;
      var v, p, w := Value(s[1..], b), Pow(b, |s| - 1), Value(t, b);
      assert Value(s + t, b) == s[0] + b * (v + p * w);
      Distrib(b, v, p * w);
      Arith.MulAssoc(b, p, w);
      assert Pow(b, |s|) == b * p;
    }
  }

  lemma ValueAppend(s: seq<nat>, d: nat, b: nat)
    ensures Value(s + [d], b) == Value(s, b) + d * Pow(b, |s|)
  {
    var p := Pow(b, |s|);
    assert Value(s + [d], b) == Value(s, b) + p * d by {
      ValueConcat(s, [d], b);
      ValueSingle(d, b);
    }
    assert p * d == d * p;
  }

  lemma ValueSingle(d: nat, b: nat)
    ensures Value([d], b) == d
  {
    assert [d][1..] == [];
  }

  lemma {:induction false} ValueOfZeros(k: nat, b: nat)
    ensures Value(Zeros(k), b) == 0
  {
    if k > 0 {
      ValueOfZeros(k - 1, b);
      assert Zeros(k)[1..] == Zeros(k - 1);
    }
  }

  /** High zeros do not change the value. */
  lemma HighZeros(s: seq<nat>, k: nat, b: nat)
    ensures Value(s + Zeros(k), b) == Value(s, b)
  {
    ValueConcat(s, Zeros(k), b);
    ValueOfZeros(k, b);
  }

  /** Low zeros multiply by a power of the base. */
  lemma LowZeros(s: seq<nat>, k: nat, b: nat)
    ensures Value(Zeros(k) + s, b) == Pow(b, k) * Value(s, b)
  {
    ValueConcat(Zeros(k), s, b);
    ValueOfZeros(k, b);
  }

  lemma ZeroValue(b: nat)
    ensures Value([0], b) == 0
  {
    assert [0][1..] == [];
  }

  // ---- Digit vectors of a number ----

  lemma Regroup(v: int, p: int, b: int, d: int, q: int)
    ensures v + d * p + (b * p) * q == v + p * (d + b * q)
  {
    assert (b * p) * q == p * (b * q);
    assert p * (d + b * q) == p * d + p * (b * q);
  }

  /** Taking the lowest digit `d` off `n == d + base * q` keeps the value of the digits
    * written so far plus the rest. */
  lemma DigitStep(ds: seq<nat>, n: nat, d: nat, q: nat, base: nat)
    requires n == d + base * q
    ensures Value(ds + [d], base) + Pow(base, |ds| + 1) * q == Value(ds, base) + Pow(base, |ds|) * n
  {
    var p := Pow(base, |ds|);
    ValueAppend(ds, d, base);
    assert Pow(base, |ds| + 1) == base * p;
    Regroup(Value(ds, base), p, base, d, q);
  }

  lemma DivMod(n: nat, base: nat, d: nat, q: nat)
    requires base >= 2 && d == n % base && q == n / base
    ensures n == d + base * q && d < base
    ensures n > 0 ==> q < n
    ensures q == 0 ==> d == n
  {
  }

  /** What `to_digits` keeps: the digits written so far plus the rest still to write. */
  ghost predicate Progress(ds: seq<nat>, n: nat, number: nat, base: nat) {
    Value(ds, base) + Pow(base, |ds|) * n == number && AllBelow(ds, base)
  }

  lemma DigitLoopStep(ds: seq<nat>, n: nat, number: nat, base: nat)
    requires base >= 2 && n != 0 && Progress(ds, n, number, base)
    ensures Progress(ds + [n % base], n / base, number, base)
    ensures n / base < n
    ensures n / base == 0 ==> n % base != 0
  {
    var d, q := n % base, n / base;
    DivMod(n, base, d, q);
    DigitStep(ds, n, d, q, base);
  }

  /** `to_digits`: the little-endian digits of `number`, none for zero. */
  method ToDigits(number: nat, base: nat) returns (ds: seq<nat>)
    requires base >= 2
    ensures Value(ds, base) == number && AllBelow(ds, base)
    ensures number == 0 <==> ds == []
    ensures ds != [] ==> ds[|ds| - 1] != 0
  {
    ds := [];
    var n: nat := number;
    while n != 0
      invariant Progress(ds, n, number, base)
      invariant n == 0 && ds != [] ==> ds[|ds| - 1] != 0
      invariant ds == [] ==> n == number
      invariant ds != [] ==> number != 0
      decreases n
    {
      DigitLoopStep(ds, n, number, base);
      ds := ds + [n % base];
      n := n / base;
    }
  }

  // ---- Reference meaning of the digits the caller writes ----

  /** The value of big-endian digits, by Horner's rule from the highest digit down. */
  function BigValue(ds: seq<nat>, b: nat): nat {
    if ds == [] then 0 else BigValue(ds[..|ds| - 1], b) * b + ds[|ds| - 1]
  }

  /** Reading the digits backwards as little-endian gives the big-endian value. */
  lemma {:induction false} ReverseValue(ds: seq<nat>, b: nat)
    ensures Value(Reverse(ds), b) == BigValue(ds, b)
  {
    if ds != [] {
      var n := |ds|;
      var init := ds[..n - 1];
      ReverseValue(init, b);
      var r := Reverse(ds);
      assert r[1..] == Reverse(init);
      assert Value(r, b) == ds[n - 1] + b * BigValue(init, b);
    }
  }

  lemma ReverseReverse(s: seq<nat>)
    ensures Reverse(Reverse(s)) == s
  {
  }

  /** The canonical little-endian digits of `n` in base `b`. */
  function Canonical(n: nat, b: nat): (r: seq<nat>)
    requires b >= 2
    ensures Normal(r, b) && Value(r, b) == n
    ensures n > 0 ==> r[|r| - 1] != 0
    decreases n
  {
    if n < b then [n]
    else
      var d, q := n % b, n / b;
      DivMod(n, b, d, q);
      [d] + Canonical(q, b)
  }

  /** A positive highest digit makes the value positive. */
  lemma {:induction false} PositiveValue(s: seq<nat>, b: nat)
    requires b >= 1 && s != [] && s[|s| - 1] != 0
    ensures Value(s, b) > 0
  {
    if |s| > 1 {
      PositiveValue(s[1..], b);
      assert Value(s[1..], b) >= 1;
      Arith.MulMonotone(b, 1, Value(s[1..], b));
    }
  }

  /** Normal digits of more than one place denote at least the base. */
  lemma TwoPlaces(s: seq<nat>, b: nat)
    requires b >= 2 && Normal(s, b) && |s| > 1
    ensures Value(s, b) >= b && Normal(s[1..], b)
  {
    PositiveValue(s[1..], b);
    Arith.MulMonotone(b, 1, Value(s[1..], b));
  }

  lemma LowDigit(x: nat, y: nat, v: nat, w: nat, b: nat)
    requires x < b && y < b && x + b * v == y + b * w
    ensures x == y && v == w
  {
    Arith.DivUnique(x + b * v, b, v, x);
    Arith.DivUnique(y + b * w, b, w, y);
  }

  /** Normal digits are unique: a number has exactly one normal representation. */
  lemma {:induction false} NormalUnique(s: seq<nat>, t: seq<nat>, b: nat)
    requires b >= 2 && Normal(s, b) && Normal(t, b) && Value(s, b) == Value(t, b)
    ensures s == t
  {
    if |s| > 1 {
      TwoPlaces(s, b);
    }
    if |t| > 1 {
      TwoPlaces(t, b);
    }
    if |s| > 1 && |t| > 1 {
      LowDigit(s[0], t[0], Value(s[1..], b), Value(t[1..], b), b);
      NormalUnique(s[1..], t[1..], b);
      assert s == [s[0]] + s[1..];
      assert t == [t[0]] + t[1..];
    }
  }

  /** The example of the exercise: 42 written in base 10 is 101010 in base 2. */
  lemma FortyTwo()
    ensures Reverse(Canonical(BigValue([4, 2], 10), 2)) == [1, 0, 1, 0, 1, 0]
  {
    DecimalFortyTwo();
    CanonicalFortyTwo();
    ReverseBits();
  }

  lemma DecimalFortyTwo()
    ensures BigValue([4, 2], 10) == 42
  {
    var four: seq<nat> := [4];
    assert four[..0] == [];
    assert BigValue(four, 10) == 4;
    assert [4, 2][..1] == four;
  }

  lemma ReverseBits()
    ensures Reverse([0, 1, 0, 1, 0, 1]) == [1, 0, 1, 0, 1, 0]
  {
    var bits: seq<nat> := [0, 1, 0, 1, 0, 1];
    var r := Reverse(bits);
    assert r[0] == bits[5] && r[1] == bits[4] && r[2] == bits[3];
    assert r[3] == bits[2] && r[4] == bits[1] && r[5] == bits[0];
  }

  lemma CanonicalFortyTwo()
    ensures Canonical(42, 2) == [0, 1, 0, 1, 0, 1]
  {
    CanonicalFive();
    assert Canonical(10, 2) == [0, 1, 0, 1];
    assert Canonical(21, 2) == [1, 0, 1, 0, 1];
  }

  lemma CanonicalFive()
    ensures Canonical(5, 2) == [1, 0, 1]
  {
    assert Canonical(1, 2) == [1];
    assert Canonical(2, 2) == [0, 1];
  }

  // ---- Digit-vector operations the number type performs ----

  /** The digits without their high zeros. */
  function Trimmed(ds: seq<nat>): (r: seq<nat>)
    ensures |r| <= |ds| && ds == r + Zeros(|ds| - |r|)
    ensures r == [] || r[|r| - 1] != 0
  {
    if ds == [] then []
    else if ds[|ds| - 1] == 0 then
      var r := Trimmed(ds[..|ds| - 1]);
      assert ds == ds[..|ds| - 1] + [0];
      assert Zeros(|ds| - 1 - |r|) + [0] == Zeros(|ds| - |r|);
      r
    else
      assert ds == ds + Zeros(0);
      ds
  }

  lemma TrimmedStep(ds: seq<nat>, i: nat)
    requires 0 < i <= |ds| && ds[i - 1] == 0
    ensures Trimmed(ds[..i - 1]) == Trimmed(ds[..i])
  {
    assert ds[..i][..i - 1] == ds[..i - 1];
  }

  lemma TrimmedStop(ds: seq<nat>, i: nat)
    requires i <= |ds| && (i == 0 || ds[i - 1] != 0)
    ensures Trimmed(ds[..i]) == ds[..i]
  {
  }

  /** `drop_zeros`: the digits up to the highest non-zero one, or `[0]` when all are zero. */
  function DropZerosOf(ds: seq<nat>): seq<nat> {
    var t := Trimmed(ds);
    if t == [] then [0] else t
  }

  lemma DropZerosMeaning(ds: seq<nat>, b: nat)
    requires b >= 1
    ensures Value(DropZerosOf(ds), b) == Value(ds, b)
    ensures AllBelow(ds, b) ==> Normal(DropZerosOf(ds), b)
    ensures |DropZerosOf(ds)| >= 1
    ensures DropZerosOf(ds) == [0] || DropZerosOf(ds)[|DropZerosOf(ds)| - 1] != 0
  {
    var t := Trimmed(ds);
    HighZeros(t, |ds| - |t|, b);
    if t != [] && AllBelow(ds, b) {
      assert forall i :: 0 <= i < |t| ==> t[i] == ds[i];
    }
  }

  function At(s: seq<nat>, k: nat): nat {
    if k < |s| then s[k] else 0
  }

  function Max(a: nat, b: nat): nat {
    if a < b then b else a
  }

  /** The place-by-place sum of two digit vectors, the shorter padded with zeros. */
  function AddDigits(s: seq<nat>, t: seq<nat>): (r: seq<nat>)
    ensures |r| == Max(|s|, |t|)
    ensures forall k :: 0 <= k < |r| ==> r[k] == At(s, k) + At(t, k)
  {
    if s == [] then t
    else if t == [] then s
    else [s[0] + t[0]] + AddDigits(s[1..], t[1..])
  }

  /** A vector holding the place-by-place sums is the sum. */
  lemma AddDigitsByPlace(s: seq<nat>, t: seq<nat>, r: seq<nat>)
    requires |r| == Max(|s|, |t|)
    requires forall k :: 0 <= k < |r| ==> r[k] == At(s, k) + At(t, k)
    ensures r == AddDigits(s, t)
  {
  }

  lemma {:induction false} AddValue(s: seq<nat>, t: seq<nat>, b: nat)
    ensures Value(AddDigits(s, t), b) == Value(s, b) + Value(t, b)
  {
    if s != [] && t != [] {
      AddValue(s[1..], t[1..], b);
      var v, w := Value(s[1..], b), Value(t[1..], b);
      var r := AddDigits(s, t);
      assert r[0] == s[0] + t[0] && r[1..] == AddDigits(s[1..], t[1..]);
      assert Value(r, b) == s[0] + t[0] + b * (v + w);
      Distrib(b, v, w);
    }
  }

  /** Every place multiplied by `m`. */
  function ScaleDigits(s: seq<nat>, m: nat): (r: seq<nat>)
    ensures |r| == |s| && forall k :: 0 <= k < |s| ==> r[k] == s[k] * m
  {
    if s == [] then [] else [s[0] * m] + ScaleDigits(s[1..], m)
  }

  lemma ScaleStep(d: nat, v: nat, m: nat, b: nat)
    ensures d * m + b * (v * m) == (d + b * v) * m
  {
    assert b * (v * m) == (b * v) * m;
  }

  lemma {:induction false} ScaleValue(s: seq<nat>, m: nat, b: nat)
    ensures Value(ScaleDigits(s, m), b) == Value(s, b) * m
  {
    if s != [] {
      ScaleValue(s[1..], m, b);
      assert ScaleDigits(s, m)[1..] == ScaleDigits(s[1..], m);
      ScaleStep(s[0], Value(s[1..], b), m, b);
    }
  }

  /** What the carrying pass of `normalize` keeps: the digits written so far plus the carry
    * still to place denote the same as the digits read so far. */
  ghost predicate Carried(c: seq<nat>, shift: nat, read: seq<nat>, b: nat) {
    AllBelow(c, b) && Value(c, b) + Pow(b, |c|) * shift == Value(read, b)
  }

  lemma Distrib(p: int, x: int, y: int)
    ensures p * (x + y) == p * x + p * y
  {
  }

  /** The digit a place keeps and the carry it passes on. */
  function Low(sum: nat, b: nat): nat
    requires b >= 2
  {
    sum % b
  }

  function High(sum: nat, b: nat): nat
    requires b >= 2
  {
    sum / b
  }

  lemma CarryStep(c: seq<nat>, shift: nat, d: seq<nat>, i: nat, b: nat)
    requires b >= 2 && i < |d| && |c| == i && Carried(c, shift, d[..i], b)
    ensures Carried(c + [Low(shift + d[i], b)], High(shift + d[i], b), d[..i + 1], b)
    ensures d[i] != 0 ==> Low(shift + d[i], b) != 0 || High(shift + d[i], b) > 0
  {
    var sum := shift + d[i];
    var dd, q := sum % b, sum / b;
    DivMod(sum, b, dd, q);
    DigitStep(c, sum, dd, q, b);
    var p := Pow(b, i);
    Distrib(p, shift, d[i]);
    assert d[..i + 1] == d[..i] + [d[i]];
    ValueAppend(d[..i], d[i], b);
    assert d[i] * p == p * d[i];
  }

  /** The loop invariant of `normalize`: places below `i` are carried, the rest untouched. */
  ghost predicate Carrying(digits: seq<nat>, shift: nat, d: seq<nat>, i: nat, b: nat) {
    && 0 <= i <= |digits| == |d|
    && digits[i..] == d[i..]
    && Carried(digits[..i], shift, d[..i], b)
    && (0 < i && d[i - 1] != 0 ==> digits[i - 1] != 0 || shift > 0)
  }

  /** One place of `normalize` carried. */
  lemma NormalizeStep(digits: seq<nat>, shift: nat, d: seq<nat>, i: nat, b: nat)
    requires b >= 2 && Carrying(digits, shift, d, i, b) && i < |digits|
    ensures var sum := shift + digits[i];
      Carrying(digits[i := Low(sum, b)], High(sum, b), d, i + 1, b)
  {
    assert digits[i] == d[i];
    CarryStep(digits[..i], shift, d, i, b);
    var sum := shift + digits[i];
    var next := digits[i := Low(sum, b)];
    assert next[..i + 1] == digits[..i] + [Low(sum, b)];
    assert next[i + 1..] == d[i + 1..];
  }

  /** Once every place is carried, the remaining carry's own digits go on top. */
  lemma CarryDone(c: seq<nat>, shift: nat, d: seq<nat>, top: seq<nat>, b: nat)
    requires b >= 2 && |c| == |d| >= 1 && Carried(c, shift, d, b)
    requires d == [0] || d[|d| - 1] != 0
    requires d[|d| - 1] != 0 ==> c[|c| - 1] != 0 || shift > 0
    requires Value(top, b) == shift && AllBelow(top, b)
    requires shift == 0 <==> top == []
    requires top != [] ==> top[|top| - 1] != 0
    ensures Value(c + top, b) == Value(d, b) && Normal(c + top, b)
  {
    ValueConcat(c, top, b);
    assert Value(c + top, b) == Value(c, b) + Pow(b, |c|) * shift;
    var ct := c + top;
    forall i | 0 <= i < |ct| ensures ct[i] < b {
      if i >= |c| {
        assert ct[i] == top[i - |c|];
      }
    }
    if top == [] {
      assert ct == c;
    } else {
      assert ct[|ct| - 1] == top[|top| - 1];
    }
  }

  /** One more digit of the multiplier adds one more shifted, scaled copy. */
  lemma ProductStep(v: nat, s: seq<nat>, d: nat, b: nat)
    ensures v * Value(s + [d], b) == v * Value(s, b) + Pow(b, |s|) * (v * d)
  {
    var p, vs := Pow(b, |s|), Value(s, b);
    assert Value(s + [d], b) == vs + d * p by {
      ValueAppend(s, d, b);
    }
    assert v * (vs + d * p) == v * vs + v * (d * p) by {
      Distrib(v, vs, d * p);
    }
    assert v * (d * p) == p * (v * d) by {
      Arith.MulAssoc(v, d, p);
      Arith.MulAssoc(p, v, d);
    }
  }

  /** One more digit of the number being converted: its term and the next power. */
  lemma ConvertStep(ds: seq<nat>, i: nat, b: nat)
    requires i < |ds|
    ensures Value(ds[..i], b) + Pow(b, i) * ds[i] == Value(ds[..i + 1], b)
    ensures Pow(b, i) * b == Pow(b, i + 1)
  {
    assert ds[..i + 1] == ds[..i] + [ds[i]];
    ValueAppend(ds[..i], ds[i], b);
  }

  // ---- The number type ----

  /** A number as little-endian digits in `base`. Between operations the digits are normal;
    * the `raw_*` steps leave digits that may reach or exceed the base. */
  class Number {
    const base: nat
    var digits: seq<nat>

    constructor (base: nat, digits: seq<nat>)
      ensures this.base == base && this.digits == digits
    {
      this.base := base;
      this.digits := digits;
    }

    /** The value the digits denote, whether or not they are normal. */
    ghost function Val(): nat
      reads this
    {
      Value(digits, base)
    }

    method Clone() returns (c: Number)
      ensures fresh(c) && c.base == base && c.digits == digits
    {
      c := new Number(base, digits);
    }

    /** `Number::new`: zero in `base`. */
    static method New(base: nat) returns (r: Result<Number, Error>)
      ensures base < 2 ==> r == Err(InvalidInputBase)
      ensures base >= 2 ==> r.Ok? && fresh(r.value) && r.value.base == base && r.value.digits == [0]
    {
      if base < 2 {
        return Err(InvalidInputBase);
      }
      var n := new Number(base, [0]);
      return Ok(n);
    }

    /** `Number::from_u32`: the digits of `number`; zero has none. */
    static method FromU32(base: nat, number: nat) returns (r: Result<Number, Error>)
      ensures base < 2 ==> r == Err(InvalidInputBase)
      ensures base >= 2 ==> r.Ok? && fresh(r.value) && r.value.base == base
      ensures base >= 2 ==> Value(r.value.digits, base) == number && AllBelow(r.value.digits, base)
      ensures base >= 2 ==> (number == 0 <==> r.value.digits == [])
      ensures base >= 2 && number > 0 ==> Normal(r.value.digits, base)
    {
      if base < 2 {
        return Err(InvalidInputBase);
      }
      var ds := ToDigits(number, base);
      var n := new Number(base, ds);
      return Ok(n);
    }

    /** `drop_zeros`: cut the high zeros, leaving `[0]` when every digit is zero. */
    method DropZeros()
      modifies this
      ensures digits == DropZerosOf(old(digits))
    {
      var ds := digits;
      var i := |ds|;
      assert ds[..i] == ds;
      while i > 0 && ds[i - 1] == 0
        invariant 0 <= i <= |ds|
        invariant Trimmed(ds[..i]) == Trimmed(ds)
      {
        TrimmedStep(ds, i);
        i := i - 1;
      }
      TrimmedStop(ds, i);
      if i == 0 {
        digits := [0];
      } else {
        digits := ds[..i];
      }
    }

    /** `normalize`: carry every digit that reached the base into the higher places. */
    method Normalize()
      requires base >= 2
      modifies this
      ensures Val() == old(Val()) && Normal(digits, base)
    {
      DropZerosMeaning(digits, base);
      DropZeros();
      ghost var d := digits;
      var shift := CarryPlaces();
      var top := [];
      if shift > 0 {
        top := ToDigits(shift, base);
      }
      CarryDone(digits, shift, d, top, base);
      digits := digits + top;
    }

    /** The loop of `normalize`: each place keeps its sum's low digit and passes the high part
      * on; what is left to carry is returned. */
    method CarryPlaces() returns (shift: nat)
      requires base >= 2
      modifies this
      ensures |digits| == |old(digits)| && Carried(digits, shift, old(digits), base)
      ensures digits != [] && old(digits)[|digits| - 1] != 0 ==> digits[|digits| - 1] != 0 || shift > 0
    {
      ghost var d := digits;
      shift := 0;
      var i := 0;
      assert Carrying(digits, shift, d, i, base) by {
        assert digits[..0] == [] && d[..0] == [];
      }
      while i < |digits|
        invariant Carrying(digits, shift, d, i, base)
      {
        NormalizeStep(digits, shift, d, i, base);
        var sum := shift + digits[i];
        digits := digits[i := Low(sum, base)];
        shift := High(sum, base);
        i := i + 1;
      }
      assert digits[..i] == digits && d[..i] == d;
    }

    /** `raw_add_same_base`: add `other` place by place, without carrying. */
    method RawAddSameBase(other: Number)
      requires other != this
      modifies this
      ensures digits == AddDigits(old(digits), other.digits)
    {
      var od := other.digits;
      if |od| > |digits| {
        digits := digits + Zeros(|od| - |digits|);
      }
      ghost var padded := digits;
      var idx := 0;
      while idx < |od|
        invariant 0 <= idx <= |od| <= |digits| == |padded|
        invariant forall k :: 0 <= k < idx ==> digits[k] == padded[k] + od[k]
        invariant forall k :: idx <= k < |digits| ==> digits[k] == padded[k]
      {
        digits := digits[idx := digits[idx] + od[idx]];
        idx := idx + 1;
      }
      forall k | 0 <= k < |digits| ensures digits[k] == At(old(digits), k) + At(od, k) {
        assert padded[k] == At(old(digits), k);
      }
      AddDigitsByPlace(old(digits), od, digits);
    }

    /** `raw_multiply_by_u32`: multiply every place by `multiplier`, without carrying. */
    method RawMultiplyByU32(multiplier: nat)
      modifies this
      ensures digits == ScaleDigits(old(digits), multiplier)
    {
      var k := 0;
      while k < |digits|
        invariant 0 <= k <= |digits| == |old(digits)|
        invariant forall j :: 0 <= j < k ==> digits[j] == old(digits)[j] * multiplier
        invariant forall j :: k <= j < |digits| ==> digits[j] == old(digits)[j]
      {
        digits := digits[k := digits[k] * multiplier];
        k := k + 1;
      }
    }

    /** `multiply_by_power_of_base`: grow by `power` zeros at the top, then rotate them to
      * the bottom. */
    method MultiplyByPowerOfBase(power: nat)
      modifies this
      ensures digits == Zeros(power) + old(digits)
    {
      digits := digits + Zeros(power);
      var cut := |digits| - power;
      digits := digits[cut..] + digits[..cut];
    }

    /** `add_same_base`: add `other`, then normalize. */
    method AddSameBase(other: Number)
      requires base >= 2 && other != this && other.base == base
      modifies this
      ensures Val() == old(Val()) + other.Val() && Normal(digits, base)
    {
      RawAddSameBase(other);
      AddValue(old(digits), other.digits, base);
      Normalize();
    }

    /** `multiply_by_u32`: multiply by `multiplier`, then normalize. */
    method MultiplyByU32(multiplier: nat)
      requires base >= 2
      modifies this
      ensures Val() == old(Val()) * multiplier && Normal(digits, base)
    {
      RawMultiplyByU32(multiplier);
      ScaleValue(old(digits), multiplier, base);
      Normalize();
    }

    /** `raw_multiply_same_base`: schoolbook multiplication, one shifted and scaled copy
      * of this number per digit of `other`, summed without carrying. */
    method RawMultiplySameBase(other: Number) returns (result: Number)
      requires other.base == base
      ensures fresh(result) && result.base == base
      ensures result.Val() == Val() * other.Val()
    {
      result := new Number(base, []);
      ghost var v := Val();
      var ds, od := digits, other.digits;
      var idx := 0;
      while idx < |od|
        invariant 0 <= idx <= |od|
        invariant fresh(result) && result.base == base
        invariant result.Val() == v * Value(od[..idx], base)
      {
        var d := od[idx];
        var copy := ShiftedCopy(d, idx);
        ghost var before := result.digits;
        result.RawAddSameBase(copy);
        assert result.Val() == Value(before, base) + copy.Val() by {
          AddValue(before, copy.digits, base);
        }
        ProductStep(v, od[..idx], d, base);
        assert od[..idx + 1] == od[..idx] + [d];
        idx := idx + 1;
      }
      assert od[..idx] == od;
    }

    /** One term of `raw_multiply_same_base`: a copy of this number multiplied by `d` and
      * shifted up `idx` places, without carrying. */
    method ShiftedCopy(d: nat, idx: nat) returns (copy: Number)
      ensures fresh(copy) && copy.base == base
      ensures copy.Val() == Pow(base, idx) * (Val() * d)
    {
      copy := Clone();
      copy.RawMultiplyByU32(d);
      copy.MultiplyByPowerOfBase(idx);
      ScaleValue(digits, d, base);
      LowZeros(ScaleDigits(digits, d), idx, base);
    }

    /** `multiply_same_base`: multiply by `other`, keeping the normalized product. */
    method MultiplySameBase(other: Number)
      requires base >= 2 && other != this && other.base == base
      modifies this
      ensures Val() == old(Val()) * other.Val() && Normal(digits, base)
    {
      var result := RawMultiplySameBase(other);
      result.Normalize();
      digits := result.digits;
    }

    /** `digits`: the digits highest first, as the caller writes them. */
    method Digits() returns (r: seq<nat>)
      ensures |r| == |digits| && forall k :: 0 <= k < |r| ==> r[k] == digits[|digits| - 1 - k]
    {
      r := Reverse(digits);
    }

    /** `Number::from_digits`: check the base, then every digit in order, then store the
      * digits lowest first without their high zeros. */
    static method FromDigits(base: nat, ds: seq<nat>) returns (r: Result<Number, Error>)
      ensures base < 2 ==> r == Err(InvalidInputBase)
      ensures base >= 2 && r.Err? ==> exists i :: 0 <= i < |ds| && r.error == InvalidDigit(ds[i]) &&
                                                  ds[i] >= base && AllBelow(ds[..i], base)
      ensures r.Ok? <==> base >= 2 && AllBelow(ds, base)
      ensures r.Ok? ==> fresh(r.value) && r.value.base == base && Normal(r.value.digits, base)
      ensures r.Ok? ==> r.value.Val() == BigValue(ds, base)
    {
      if base < 2 {
        return Err(InvalidInputBase);
      }
      var i := 0;
      while i < |ds|
        invariant 0 <= i <= |ds| && AllBelow(ds[..i], base)
      {
        if ds[i] >= base {
          return Err(InvalidDigit(ds[i]));
        }
        assert ds[..i + 1] == ds[..i] + [ds[i]];
        i := i + 1;
      }
      assert ds[..i] == ds;
      var n := new Number(base, Reverse(ds));
      ReverseValue(ds, base);
      DropZerosMeaning(n.digits, base);
      n.DropZeros();
      return Ok(n);
    }

    /** `convert`: the same number in `toBase`, as the sum over the digits of each digit
      * times the matching power of this base, all computed in `toBase`. */
    method Convert(toBase: nat) returns (r: Result<Number, Error>)
      requires base >= 2
      ensures toBase < 2 <==> r.Err?
      ensures r.Err? ==> r.error == InvalidOutputBase
      ensures r.Ok? ==> fresh(r.value) && r.value.base == toBase && r.value.Val() == Val()
      ensures r.Ok? && Normal(digits, base) ==> Normal(r.value.digits, toBase)
    {
      if toBase < 2 {
        return Err(InvalidOutputBase);
      }
      if base == toBase {
        var c := Clone();
        return Ok(c);
      }
      var made := New(toBase);
      var result := made.value;
      made := FromU32(toBase, base);
      var baseInDest := made.value;
      made := FromU32(toBase, 1);
      var pow := made.value;
      var ds := digits;
      var i := 0;
      assert ds[..0] == [];
      ZeroValue(toBase);
      while i < |ds|
        invariant 0 <= i <= |ds|
        invariant fresh(result) && fresh(baseInDest) && fresh(pow)
        invariant result != baseInDest && result != pow && pow != baseInDest
        invariant result.base == toBase && baseInDest.base == toBase && pow.base == toBase
        invariant baseInDest.Val() == base
        invariant pow.Val() == Pow(base, i)
        invariant result.Val() == Value(ds[..i], base) && Normal(result.digits, toBase)
      {
        var power := NextPower(pow, baseInDest);
        power.MultiplyByU32(ds[i]);
        result.AddSameBase(power);
        ConvertStep(ds, i, base);
        i := i + 1;
      }
      assert ds[..i] == ds;
      return Ok(result);
    }
  }

  /** The `scan` of `convert`: the current power of the source base, after which the power
    * is multiplied by that base. */
  method NextPower(pow: Number, baseInDest: Number) returns (res: Number)
    requires pow != baseInDest && pow.base == baseInDest.base >= 2
    modifies pow
    ensures fresh(res) && res.base == pow.base && res.Val() == old(pow.Val())
    ensures pow.Val() == old(pow.Val()) * baseInDest.Val()
  {
    res := pow.Clone();
    pow.MultiplySameBase(baseInDest);
  }

  /** `convert`: the digits of a number written highest first in `fromBase`, rewritten
    * highest first in `toBase`. */
  method ConvertDigits(ds: seq<nat>, fromBase: nat, toBase: nat) returns (r: Result<seq<nat>, Error>)
    ensures fromBase < 2 ==> r == Err(InvalidInputBase)
    ensures fromBase >= 2 && !AllBelow(ds, fromBase) ==>
      exists i :: 0 <= i < |ds| && r == Err(InvalidDigit(ds[i])) && ds[i] >= fromBase && AllBelow(ds[..i], fromBase)
    ensures fromBase >= 2 && AllBelow(ds, fromBase) && toBase < 2 ==> r == Err(InvalidOutputBase)
    ensures fromBase >= 2 && AllBelow(ds, fromBase) && toBase >= 2 ==>
      r == Ok(Reverse(Canonical(BigValue(ds, fromBase), toBase)))
  {
    var num := Number.FromDigits(fromBase, ds);
    if num.Err? {
      return Err(num.error);
    }
    var converted := num.value.Convert(toBase);
    if converted.Err? {
      return Err(converted.error);
    }
    var out := converted.value.Digits();
    assert out == Reverse(converted.value.digits);
    NormalUnique(converted.value.digits, Canonical(BigValue(ds, fromBase), toBase), toBase);
    return Ok(out);
  }
}
