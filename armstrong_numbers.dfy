/** Armstrong numbers: equal to the sum of their digits, each raised to the number of digits. */
module ArmstrongNumbers {
  import opened Arith

  /** The value of a most-significant-first list of decimal digits. */
  function FromDigits(ds: seq<nat>): nat {
    if ds == [] then 0 else FromDigits(ds[..|ds| - 1]) * 10 + ds[|ds| - 1]
  }

  /** A decimal numeral as `to_string` writes it: digits below 10, no leading zero except in "0". */
  predicate Canonical(ds: seq<nat>) {
    |ds| >= 1 && (forall d <- ds :: d < 10) && (ds[0] != 0 || |ds| == 1)
  }

  /** `decimal_digits`: the digits of `to_string`, most significant first; 0 gives [0]. */
  function DecimalDigits(num: nat): (ds: seq<nat>)
    ensures Canonical(ds)
    ensures FromDigits(ds) == num
  {
    if num < 10 then [num]
    else
      var ds := DecimalDigits(num / 10) + [num % 10];
      assert ds[..|ds| - 1] == DecimalDigits(num / 10);
      ds
  }

  /** The numeral of a number is unique, so `DecimalDigits` inverts `FromDigits` on canonical numerals. */
  lemma {:induction false} DigitsUnique(ds: seq<nat>)
    requires Canonical(ds)
    ensures DecimalDigits(FromDigits(ds)) == ds
    decreases |ds|
  {
    if |ds| == 1 {
      OneDigit(ds);
    } else {
      var front, last := ds[..|ds| - 1], ds[|ds| - 1];
      assert Canonical(front) && last < 10 by {
        assert forall d <- front :: d in ds;
        assert last in ds;
      }
      LeadingDigitBound(front);
      DigitsUnique(front);
      SplitLast(FromDigits(front), last);
      assert ds == front + [last];
    }
  }

  lemma OneDigit(ds: seq<nat>)
    requires Canonical(ds) && |ds| == 1
    ensures DecimalDigits(FromDigits(ds)) == ds
  {
    assert ds[..0] == [];
    assert FromDigits(ds) == ds[0] by {
      assert FromDigits(ds) == FromDigits([]) * 10 + ds[0];
    }
    assert ds[0] in ds;
  }

  lemma SplitLast(f: nat, last: nat)
    requires f >= 1 && last < 10
    ensures DecimalDigits(10 * f + last) == DecimalDigits(f) + [last]
  {
    DivUnique(10 * f + last, 10, f, last);
  }

  /** A canonical numeral of two or more digits denotes at least 10, so it is not mistaken for one digit. */
  lemma {:induction false} LeadingDigitBound(ds: seq<nat>)
    requires Canonical(ds)
    ensures |ds| > 1 ==> FromDigits(ds) >= 10
    ensures |ds| >= 1 && ds[0] != 0 ==> FromDigits(ds) >= 1
    decreases |ds|
  {
    if |ds| > 1 {
      var front := ds[..|ds| - 1];
      assert Canonical(front) by {
        assert forall d <- front :: d in ds;
      }
      LeadingDigitBound(front);
    }
  }

  function SumOfPowers(ds: seq<nat>, k: nat): nat {
    if ds == [] then 0 else Pow(ds[0], k) + SumOfPowers(ds[1..], k)
  }

  /** `is_armstrong_number`. */
  predicate IsArmstrongNumber(num: nat) {
    var ds := DecimalDigits(num);
    num == SumOfPowers(ds, |ds|)
  }

  /** Every single-digit number is an Armstrong number (d^1 = d). */
  lemma SingleDigit(num: nat)
    requires num < 10
    ensures IsArmstrongNumber(num)
  {
    assert DecimalDigits(num) == [num];
    assert SumOfPowers([num], 1) == Pow(num, 1) + SumOfPowers([], 1);
  }
}
