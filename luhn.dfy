/** The Luhn check (Annex B of ISO/IEC 7812-1): digits and whitespace only, at least two
  * digits, every second digit from the right doubled, and a digit sum divisible by 10. */
module Luhn {
  import opened Ascii

  predicate Allowed(code: string) {
    forall c <- code :: IsDigit(c) || IsWhitespace(c)
  }

  /** The digits of a code, in order. */
  function Digits(code: string): (d: string)
    ensures forall c <- d :: IsDigit(c)
  {
    if code == [] then []
    else if IsDigit(code[0]) then [code[0]] + Digits(code[1..])
    else Digits(code[1..])
  }

  lemma {:induction false} DigitsAppend(a: string, b: string)
    ensures Digits(a + b) == Digits(a) + Digits(b)
  {
    if a == [] {
      assert a + b == b;
    } else {
      assert (a + b)[1..] == a[1..] + b;
      DigitsAppend(a[1..], b);
    }
  }

  /** A doubled digit, with 9 subtracted when it exceeds 9. */
  function Double(n: nat): nat
    requires n < 10
  {
    if 2 * n > 9 then 2 * n - 9 else 2 * n
  }

  /** What a digit contributes at a 1-based position counted from the right. */
  function Contribution(n: nat, position: nat): nat
    requires n < 10
  {
    if position % 2 == 0 then Double(n) else n
  }

  /** The Luhn sum of a digit string: the last digit is at position 1. */
  function LuhnSum(d: string): nat
    requires forall c <- d :: IsDigit(c)
  {
    if d == [] then 0 else Contribution(DigitValue(d[0]), |d|) + LuhnSum(d[1..])
  }

  predicate ValidLuhn(code: string) {
    Allowed(code) && |Digits(code)| > 1 && LuhnSum(Digits(code)) % 10 == 0
  }

  /** `is_valid`: scan from the right, counting digit positions and summing contributions;
    * any character that is neither digit nor whitespace ends the scan with false. */
  method IsValid(code: string) returns (valid: bool)
    ensures valid == ValidLuhn(code)
  {
    var sum := 0;
    var position := 0;
    var j := |code|;
    assert code[j..] == [];
    while j > 0
      invariant 0 <= j <= |code|
      invariant Allowed(code[j..])
      invariant position == |Digits(code[j..])|
      invariant sum == LuhnSum(Digits(code[j..]))
    {
      var c := code[j - 1];
      assert code[j - 1..] == [c] + code[j..];
      j := j - 1;
      if IsDigit(c) {
        position := position + 1;
        var n := DigitValue(c);
        if position % 2 == 0 {
          n := 2 * n;
          if n > 9 {
            n := n - 9;
          }
        }
        sum := sum + n;
      } else if IsWhitespace(c) {
      } else {
        assert c in code;
        return false;
      }
    }
    assert code[0..] == code;
    valid := position > 1 && sum % 10 == 0;
  }

  /** Whitespace is ignored wherever it appears. */
  lemma WhitespaceIgnored(a: string, w: char, b: string)
    requires IsWhitespace(w)
    ensures ValidLuhn(a + [w] + b) == ValidLuhn(a + b)
  {
    DigitsAppend(a + [w], b);
    DigitsAppend(a, [w]);
    DigitsAppend(a, b);
    assert Digits([w]) == [];
    assert Digits(a + [w] + b) == Digits(a + b);
    assert Allowed(a + [w] + b) == Allowed(a + b) by {
      assert forall c :: c in a + [w] + b <==> c in a + b || c == w;
    }
  }

  /** Doubling with 9 subtracted is the digit sum of the doubled digit. */
  lemma DoubleIsDigitSum(n: nat)
    requires n < 10
    ensures Double(n) == 2 * n / 10 + 2 * n % 10
  {
  }

  lemma ContributionDistinct(a: nat, b: nat, position: nat)
    requires a < 10 && b < 10 && a != b
    ensures Contribution(a, position) < 10 && Contribution(b, position) < 10
    ensures Contribution(a, position) != Contribution(b, position)
  {
  }

  /** Changing one digit changes the sum by the difference of that digit's contributions. */
  lemma {:induction false} LuhnSumUpdate(d: string, k: nat, c: char)
    requires forall x <- d :: IsDigit(x)
    requires k < |d| && IsDigit(c)
    ensures forall x <- d[k := c] :: IsDigit(x)
    ensures LuhnSum(d[k := c]) + Contribution(DigitValue(d[k]), |d| - k)
         == LuhnSum(d) + Contribution(DigitValue(c), |d| - k)
  {
    var e := d[k := c];
    assert forall i :: 0 <= i < |e| ==> IsDigit(e[i]) by {
      assert forall i :: 0 <= i < |d| ==> d[i] in d;
    }
    if k == 0 {
      assert e[1..] == d[1..];
    } else {
      assert e[1..] == d[1..][k - 1 := c];
      LuhnSumUpdate(d[1..], k - 1, c);
    }
  }

  /** The Luhn check detects every single-digit error. */
  lemma SingleDigitErrorDetected(d: string, k: nat, c: char)
    requires forall x <- d :: IsDigit(x)
    requires k < |d| && IsDigit(c) && c != d[k]
    ensures forall x <- d[k := c] :: IsDigit(x)
    ensures LuhnSum(d[k := c]) % 10 != LuhnSum(d) % 10
  {
    LuhnSumUpdate(d, k, c);
    assert DigitValue(c) != DigitValue(d[k]);
    var a, b := Contribution(DigitValue(d[k]), |d| - k), Contribution(DigitValue(c), |d| - k);
    ContributionDistinct(DigitValue(d[k]), DigitValue(c), |d| - k);
    ModDiffer(LuhnSum(d[k := c]), LuhnSum(d), a, b);
  }

  /** Adding two different digits to equal totals leaves different remainders mod 10. */
  lemma ModDiffer(x: nat, y: nat, a: nat, b: nat)
    requires a < 10 && b < 10 && a != b && x + a == y + b
    ensures x % 10 != y % 10
  {
    var qx, qy := x / 10, y / 10;
    assert x == 10 * qx + x % 10;
    assert y == 10 * qy + y % 10;
  }
}
