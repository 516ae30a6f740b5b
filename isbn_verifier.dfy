/** ISBN-10 validation (ISO 2108): ten characters besides hyphens, digits with an optional
  * final `X` standing for 10, and a weighted sum divisible by 11. */
module IsbnVerifier {
  import opened Ascii

  /** The characters other than `-`, in order. */
  function NoHyphens(s: string): (r: string)
    ensures '-' !in r
  {
    if s == [] then []
    else if s[0] == '-' then NoHyphens(s[1..])
    else [s[0]] + NoHyphens(s[1..])
  }

  lemma {:induction false} NoHyphensAppend(a: string, b: string)
    ensures NoHyphens(a + b) == NoHyphens(a) + NoHyphens(b)
  {
    if a == [] {
      assert a + b == b;
    } else {
      assert (a + b)[1..] == a[1..] + b;
      NoHyphensAppend(a[1..], b);
    }
  }

  /** Every character is a digit, except that the last may be `X`. */
  predicate WellFormed(d: string) {
    forall k :: 0 <= k < |d| ==> IsDigit(d[k]) || (k == |d| - 1 && d[k] == 'X')
  }

  function Value(c: char): nat
    requires IsDigit(c) || c == 'X'
  {
    if c == 'X' then 10 else DigitValue(c)
  }

  /** x1·10 + x2·9 + … + x10·1, starting at position `k` (0-based) with weight 10 - k. */
  function CheckSum(d: string, k: nat): int
    requires WellFormed(d) && k <= |d|
    decreases |d| - k
  {
    if k == |d| then 0 else Value(d[k]) * (10 - k) + CheckSum(d, k + 1)
  }

  /** The ISO 2108 validity of an ISBN-10 written with any hyphens. */
  predicate ValidIsbn(isbn: string) {
    var d := NoHyphens(isbn);
    |d| == 10 && WellFormed(d) && CheckSum(d, 0) % 11 == 0
  }

  /** The weighted sum as the loop sees it: the last character has weight 1, the one before
    * weight 2, and so on. */
  function WeightFromRight(t: string): nat
    requires WellFormed(t)
  {
    if t == [] then 0 else Value(t[0]) * |t| + WeightFromRight(t[1..])
  }

  lemma {:induction false} WeightsAgree(d: string, k: nat)
    requires WellFormed(d) && |d| == 10 && k <= 10
    ensures WellFormed(d[k..]) && CheckSum(d, k) == WeightFromRight(d[k..])
    decreases 10 - k
  {
    if k < 10 {
      WeightsAgree(d, k + 1);
      assert d[k..][1..] == d[k + 1..];
    }
  }

  /** `is_valid_isbn`: the characters other than hyphens are scanned from the right, with the
    * position (1-based, from the right) as weight. */
  method IsValidIsbn(isbn: string) returns (valid: bool)
    ensures valid == ValidIsbn(isbn)
  {
    var sizeIs10 := false;
    var sum := 0;
    var i := 0;
    var j := |isbn|;
    assert isbn[j..] == [];
    while j > 0
      invariant 0 <= j <= |isbn|
      invariant i == |NoHyphens(isbn[j..])| <= 10
      invariant WellFormed(NoHyphens(isbn[j..]))
      invariant sum == WeightFromRight(NoHyphens(isbn[j..]))
      invariant sizeIs10 <==> i == 10
    {
      var c := isbn[j - 1];
      ghost var t := NoHyphens(isbn[j..]);
      ScanLeft(isbn, j);
      j := j - 1;
      if c != '-' {
        i := i + 1;
        if i > 10 {
          Suffix(isbn, j);
          return false;
        }
        if i == 10 {
          sizeIs10 := true;
        }
        if c == 'X' && i == 1 {
          sum := sum + 10;
        } else if IsDigit(c) {
          sum := sum + DigitValue(c) * i;
        } else {
          BadCharacter(isbn, j);
          return false;
        }
        ConsStep(c, t);
      }
    }
    assert isbn[0..] == isbn;
    valid := sizeIs10 && sum % 11 == 0;
    if sizeIs10 {
      WeightsAgree(NoHyphens(isbn), 0);
    }
  }

  /** Scanning one more character to the left. */
  lemma ScanLeft(isbn: string, j: nat)
    requires 0 < j <= |isbn|
    ensures NoHyphens(isbn[j - 1..]) == if isbn[j - 1] == '-' then NoHyphens(isbn[j..]) else [isbn[j - 1]] + NoHyphens(isbn[j..])
  {
    assert isbn[j - 1..][1..] == isbn[j..];
  }

  /** What follows position `j` ends the characters other than hyphens. */
  lemma Suffix(isbn: string, j: nat)
    requires j <= |isbn|
    ensures NoHyphens(isbn) == NoHyphens(isbn[..j]) + NoHyphens(isbn[j..])
  {
    assert isbn == isbn[..j] + isbn[j..];
    NoHyphensAppend(isbn[..j], isbn[j..]);
  }

  /** A character that is neither a digit nor a final `X` makes the ISBN invalid. */
  lemma BadCharacter(isbn: string, j: nat)
    requires j < |isbn| && isbn[j] != '-' && !IsDigit(isbn[j])
    requires isbn[j] == 'X' ==> NoHyphens(isbn[j + 1..]) != []
    ensures !ValidIsbn(isbn)
  {
    Suffix(isbn, j);
    ScanLeft(isbn, j + 1);
    var d := NoHyphens(isbn);
    var k := |NoHyphens(isbn[..j])|;
    assert d[k] == isbn[j];
  }

  /** The weighted sum and the well-formedness grow by one character on the left. */
  lemma ConsStep(c: char, t: string)
    requires WellFormed(t) && (IsDigit(c) || (c == 'X' && t == []))
    ensures WellFormed([c] + t)
    ensures WeightFromRight([c] + t) == Value(c) * (|t| + 1) + WeightFromRight(t)
  {
    assert ([c] + t)[1..] == t;
    forall k | 0 <= k < |[c] + t| ensures IsDigit(([c] + t)[k]) || (k == |t| && ([c] + t)[k] == 'X') {
      if k > 0 {
        assert ([c] + t)[k] == t[k - 1];
      }
    }
  }

  /** Hyphens are ignored wherever they appear. */
  lemma HyphenIgnored(a: string, b: string)
    ensures ValidIsbn(a + "-" + b) == ValidIsbn(a + b)
  {
    NoHyphensAppend(a + "-", b);
    NoHyphensAppend(a, "-");
    NoHyphensAppend(a, b);
    assert NoHyphens("-") == NoHyphens("-"[1..]) == [];
    assert NoHyphens(a + "-" + b) == NoHyphens(a + b);
  }

  lemma {:induction false} NoHyphensNone(s: string)
    requires '-' !in s
    ensures NoHyphens(s) == s
  {
    if s != [] {
      NoHyphensNone(s[1..]);
    }
  }

  /** Check digit 8 completes 359821508. */
  lemma ValidExample(isbn: string)
    requires isbn == "3598215088"
    ensures ValidIsbn(isbn)
  {
    NoHyphensNone(isbn);
    ExampleSum();
  }

  lemma ExampleSum()
    ensures var d := "3598215088"; WellFormed(d) && CheckSum(d, 0) == 264
  {
    var d := "3598215088";
    assert WellFormed(d);
    assert CheckSum(d, 9) == 8;
    assert CheckSum(d, 8) == 24;
    assert CheckSum(d, 7) == 24;
    assert CheckSum(d, 6) == 44;
    assert CheckSum(d, 5) == 49;
    assert CheckSum(d, 4) == 61;
    assert CheckSum(d, 3) == 117;
    assert CheckSum(d, 2) == 189;
    assert CheckSum(d, 1) == 234;
  }
}
