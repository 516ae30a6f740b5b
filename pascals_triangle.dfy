/** Pascal's triangle, row by row. */
module PascalsTriangle {
  import opened Arith

  datatype PascalsTriangle = PascalsTriangle(rowCount: nat)

  /** The binomial coefficient "n choose k", by Pascal's rule: the edges are 1 and every
    * interior entry is the sum of the two above it. */
  function Binomial(n: nat, k: nat): nat
    requires k <= n
  {
    if k == 0 || k == n then 1 else Binomial(n - 1, k - 1) + Binomial(n - 1, k)
  }

  /** Row `n` of the triangle, by its definition. */
  function BinomialRow(n: nat): (row: seq<nat>)
    ensures |row| == n + 1
    ensures forall k :: 0 <= k <= n ==> row[k] == Binomial(n, k)
  {
    seq(n + 1, k requires 0 <= k <= n => Binomial(n, k))
  }

  /** The sums of adjacent entries (`windows(2).map(|a| a[0] + a[1])`). */
  function WindowSums(prev: seq<nat>): (sums: seq<nat>)
    requires |prev| >= 1
    ensures |sums| == |prev| - 1
    ensures forall j :: 0 <= j < |sums| ==> sums[j] == prev[j] + prev[j + 1]
  {
    if |prev| == 1 then [] else [prev[0] + prev[1]] + WindowSums(prev[1..])
  }

  /** The next row: 1, the sums of adjacent entries of `prev`, 1. */
  function NextRow(prev: seq<nat>): (row: seq<nat>)
    requires |prev| >= 1
    ensures |row| == |prev| + 1
    ensures row[0] == 1 && row[|row| - 1] == 1
    ensures forall j :: 1 <= j < |prev| ==> row[j] == prev[j - 1] + prev[j]
  {
    [1] + WindowSums(prev) + [1]
  }

  /** Summing adjacent entries of row `n` gives row `n + 1`. */
  lemma NextBinomialRow(n: nat)
    ensures NextRow(BinomialRow(n)) == BinomialRow(n + 1)
  {
    var next, row := NextRow(BinomialRow(n)), BinomialRow(n + 1);
    forall k | 0 <= k < |row| ensures next[k] == row[k] {
      if 0 < k < n + 1 {
        assert next[k] == Binomial(n, k - 1) + Binomial(n, k);
      }
    }
  }

  /** `rows`: row `i` (0-based) holds `i + 1` entries, equal to the binomial coefficients.
    * The entries are `u32` and their sums panic on overflow: row 35 holds "35 choose 17"
    * = 4537567650 > 2^32 - 1, so at most 35 rows can be built. */
  method Rows(t: PascalsTriangle) returns (rows: seq<seq<nat>>)
    requires t.rowCount <= 35
    ensures |rows| == t.rowCount
    ensures forall i :: 0 <= i < |rows| ==> rows[i] == BinomialRow(i)
  {
    rows := [];
    var i := 1;
    while i <= t.rowCount
      invariant 1 <= i <= t.rowCount + 1
      invariant |rows| == i - 1
      invariant forall r :: 0 <= r < |rows| ==> rows[r] == BinomialRow(r)
    {
      if i == 1 {
        rows := rows + [[1]];
      } else if i == 2 {
        rows := rows + [[1, 1]];
      } else {
        NextBinomialRow(i - 2);
        var row := NextRow(rows[i - 2]);
        rows := rows + [row];
      }
      i := i + 1;
    }
  }

  /** Every row reads the same in both directions. */
  lemma {:induction false} Symmetric(n: nat, k: nat)
    requires k <= n
    ensures Binomial(n, k) == Binomial(n, n - k)
  {
    if 0 < k < n {
      Symmetric(n - 1, k - 1);
      Symmetric(n - 1, k);
    }
  }

  function Sum(row: seq<nat>): nat {
    if row == [] then 0 else row[0] + Sum(row[1..])
  }

  lemma {:induction false} SumAppend(a: seq<nat>, b: seq<nat>)
    ensures Sum(a + b) == Sum(a) + Sum(b)
  {
    if a == [] {
      assert a + b == b;
    } else {
      assert (a + b)[1..] == a[1..] + b;
      SumAppend(a[1..], b);
    }
  }

  /** The adjacent-pair sums add up to twice the row, minus its two ends. */
  lemma {:induction false} WindowSumsTotal(prev: seq<nat>)
    requires |prev| >= 1
    ensures Sum(WindowSums(prev)) + prev[0] + prev[|prev| - 1] == 2 * Sum(prev)
  {
    if |prev| > 1 {
      WindowSumsTotal(prev[1..]);
    }
  }

  /** A row with 1 at both ends is followed by a row with twice its sum. */
  lemma NextRowSum(prev: seq<nat>)
    requires |prev| >= 1 && prev[0] == 1 && prev[|prev| - 1] == 1
    ensures Sum(NextRow(prev)) == 2 * Sum(prev)
  {
    var mid := WindowSums(prev);
    assert NextRow(prev) == [1] + (mid + [1]);
    SumAppend(mid, [1]);
    WindowSumsTotal(prev);
  }

  /** The entries of row `n` add up to 2^n. */
  lemma {:induction false} RowSum(n: nat)
    ensures Sum(BinomialRow(n)) == Pow2(n)
  {
    if n > 0 {
      RowSum(n - 1);
      NextBinomialRow(n - 1);
      NextRowSum(BinomialRow(n - 1));
    }
  }

  lemma {:induction false} EntryAtMostSum(row: seq<nat>, k: nat)
    requires k < |row|
    ensures row[k] <= Sum(row)
  {
    if k > 0 {
      EntryAtMostSum(row[1..], k - 1);
    }
  }

  /** No entry exceeds the row sum 2^n: the first 32 rows fit in `u32` with room to spare. */
  lemma EntryBound(n: nat, k: nat)
    requires k <= n
    ensures Binomial(n, k) <= Pow2(n)
    ensures n <= 31 ==> Binomial(n, k) < 0x1_0000_0000
  {
    RowSum(n);
    EntryAtMostSum(BinomialRow(n), k);
    if n <= 31 {
      Pow2Monotone(n, 31);
      Pow2ThirtyOne();
    }
  }

  /** 2^31, half of the `u32` range. */
  lemma Pow2ThirtyOne()
    ensures Pow2(31) == 0x8000_0000
  {
    assert Pow2(4) == 16;
    assert Pow2(8) == 256;
    assert Pow2(12) == 0x1000;
    assert Pow2(16) == 0x1_0000;
    assert Pow2(20) == 0x10_0000;
    assert Pow2(24) == 0x100_0000;
    assert Pow2(28) == 0x1000_0000;
  }
}
