/** Minesweeper: every empty square shows how many mines touch it. */
module Minesweeper {
  import opened Ascii

  datatype Minecell = Mine | Counter(n: nat)

  /** `Minecell::new`: `*` is a mine, anything else an empty square. */
  function NewCell(c: char): Minecell {
    if c == '*' then Mine else Counter(0)
  }

  function NewRow(row: string): (cells: seq<Minecell>)
    ensures |cells| == |row| && forall j :: 0 <= j < |row| ==> cells[j] == NewCell(row[j])
  {
    if row == [] then [] else [NewCell(row[0])] + NewRow(row[1..])
  }

  function NewField(minefield: seq<string>): (grid: seq<seq<Minecell>>)
    ensures |grid| == |minefield| && forall i :: 0 <= i < |grid| ==> grid[i] == NewRow(minefield[i])
  {
    if minefield == [] then [] else [NewRow(minefield[0])] + NewField(minefield[1..])
  }

  /** `cols`: the length of the first row, 0 for an empty board. */
  function Cols<T>(grid: seq<seq<T>>): nat {
    if |grid| > 0 then |grid[0]| else 0
  }

  /** Two different squares at Chebyshev distance 1. */
  predicate Adjacent(r: int, c: int, i: int, j: int) {
    (r, c) != (i, j) && -1 <= r - i <= 1 && -1 <= c - j <= 1
  }

  function Min(a: nat, b: nat): nat { if a < b then a else b }

  /** The squares `(r, c0) .. (r, c1)`. */
  function RowPairs(r: nat, c0: nat, c1: nat): (s: seq<(nat, nat)>)
    ensures |s| == if c0 <= c1 then c1 - c0 + 1 else 0
    ensures forall k :: 0 <= k < |s| ==> s[k] == (r, c0 + k)
    decreases c1 + 1 - c0
  {
    if c0 > c1 then [] else [(r, c0)] + RowPairs(r, c0 + 1, c1)
  }

  /** The squares of rows `r0 ..= r1` and columns `c0 ..= c1`, row by row. */
  function BoxPairs(r0: nat, r1: nat, c0: nat, c1: nat): (s: seq<(nat, nat)>)
    ensures forall p :: p in s <==> r0 <= p.0 <= r1 && c0 <= p.1 <= c1
    ensures forall a, b :: 0 <= a < b < |s| ==> s[a] != s[b]
    decreases r1 + 1 - r0
  {
    if r0 > r1 then []
    else
      var row, rest := RowPairs(r0, c0, c1), BoxPairs(r0 + 1, r1, c0, c1);
      assert forall p :: p in row <==> p.0 == r0 && c0 <= p.1 <= c1 by {
        RowMembers(r0, c0, c1);
      }
      assert forall a, b :: 0 <= a < b < |row + rest| ==> (row + rest)[a] != (row + rest)[b] by {
        DistinctConcat(row, rest);
      }
      row + rest
  }

  lemma RowMembers(r: nat, c0: nat, c1: nat)
    ensures forall p :: p in RowPairs(r, c0, c1) <==> p.0 == r && c0 <= p.1 <= c1
  {
    var row := RowPairs(r, c0, c1);
    forall p | p in row
      ensures p.0 == r && c0 <= p.1 <= c1
    {
      var k :| 0 <= k < |row| && row[k] == p;
    }
    forall p: (nat, nat) | p.0 == r && c0 <= p.1 <= c1
      ensures p in row
    {
      assert row[p.1 - c0] == p;
    }
  }

  /** Two duplicate-free sequences with nothing in common concatenate to a duplicate-free one. */
  lemma DistinctConcat(s: seq<(nat, nat)>, t: seq<(nat, nat)>)
    requires forall a, b :: 0 <= a < b < |s| ==> s[a] != s[b]
    requires forall a, b :: 0 <= a < b < |t| ==> t[a] != t[b]
    requires forall p :: p in s ==> p !in t
    ensures forall a, b :: 0 <= a < b < |s + t| ==> (s + t)[a] != (s + t)[b]
  {
    var u := s + t;
    forall a, b | 0 <= a < b < |u|
      ensures u[a] != u[b]
    {
      if b < |s| {
      } else if a < |s| {
        assert u[a] in s && u[b] in t;
      } else {
        assert u[a] == t[a - |s|] && u[b] == t[b - |s|];
      }
    }
  }

  /** Removes one square from a sequence of squares. */
  function Without(s: seq<(nat, nat)>, x: (nat, nat)): (r: seq<(nat, nat)>)
    requires forall a, b :: 0 <= a < b < |s| ==> s[a] != s[b]
    ensures forall p :: p in r <==> p in s && p != x
    ensures forall a, b :: 0 <= a < b < |r| ==> r[a] != r[b]
  {
    if s == [] then []
    else
      var rest := Without(s[1..], x);
      assert forall a, b :: 0 <= a < b < |s[1..]| ==> s[1..][a] != s[1..][b] by {
        forall a, b | 0 <= a < b < |s[1..]| ensures s[1..][a] != s[1..][b] {
          assert s[1..][a] == s[a + 1] && s[1..][b] == s[b + 1];
        }
      }
      assert forall p :: p in s <==> p == s[0] || p in s[1..];
      assert s[0] !in s[1..] by {
        forall k | 0 <= k < |s[1..]| ensures s[1..][k] != s[0] {
          assert s[1..][k] == s[k + 1];
        }
      }
      if s[0] == x then rest
      else
        var r := [s[0]] + rest;
        forall a, b | 0 <= a < b < |r| ensures r[a] != r[b] {
          if a == 0 {
            assert r[b] in rest;
          } else {
            assert r[a] == rest[a - 1] && r[b] == rest[b - 1];
          }
        }
        r
  }

  /** `neighbours`: the squares in the rows `row - 1 ..= row + 1` and columns
    * `col - 1 ..= col + 1` that lie on the board, without the square itself. */
  function Neighbours(row: nat, col: nat, rows: nat, cols: nat): (s: seq<(nat, nat)>)
    requires row < rows && col < cols
    ensures forall p :: p in s <==> p.0 < rows && p.1 < cols && Adjacent(row, col, p.0, p.1)
    ensures forall a, b :: 0 <= a < b < |s| ==> s[a] != s[b]
  {
    var r0 := if row > 0 then row - 1 else 0;
    var c0 := if col > 0 then col - 1 else 0;
    Without(BoxPairs(r0, Min(row + 1, rows - 1), c0, Min(col + 1, cols - 1)), (row, col))
  }

  function MineAt(grid: seq<seq<Minecell>>, r: nat, c: nat): nat
    requires r < |grid| && c < |grid[r]|
  {
    if grid[r][c].Mine? then 1 else 0
  }

  /** Whether a mine at `(r, c)` is counted for `(i, j)`: both on the board as the neighbour
    * box sees it, and adjacent. */
  predicate Touches(rows: nat, cols: nat, r: nat, c: nat, i: nat, j: nat) {
    r < rows && c < cols && i < rows && j < cols && Adjacent(r, c, i, j)
  }

  /** The mines among the first `cEnd` squares of row `r` that touch `(i, j)`. */
  function CountRow(grid: seq<seq<Minecell>>, cols: nat, r: nat, cEnd: nat, i: nat, j: nat): nat
    requires r < |grid| && cEnd <= cols && cols <= |grid[r]|
  {
    if cEnd == 0 then 0
    else
      var here := if Touches(|grid|, cols, r, cEnd - 1, i, j) then MineAt(grid, r, cEnd - 1) else 0;
      CountRow(grid, cols, r, cEnd - 1, i, j) + here
  }

  /** The mines in the first `rEnd` rows that touch `(i, j)`. */
  function CountRows(grid: seq<seq<Minecell>>, cols: nat, rEnd: nat, i: nat, j: nat): nat
    requires rEnd <= |grid| && forall r :: 0 <= r < |grid| ==> cols <= |grid[r]|
  {
    if rEnd == 0 then 0
    else CountRows(grid, cols, rEnd - 1, i, j) + CountRow(grid, cols, rEnd - 1, cols, i, j)
  }

  /** The number of mines adjacent to `(i, j)`. */
  function AdjacentMines(grid: seq<seq<Minecell>>, i: nat, j: nat): nat
    requires forall r :: 0 <= r < |grid| ==> Cols(grid) <= |grid[r]|
  {
    CountRows(grid, Cols(grid), |grid|, i, j)
  }

  /** What a square holds once the mines before `(r, c)` (row by row) have been counted. */
  function Partial(orig: seq<seq<Minecell>>, r: nat, c: nat, i: nat, j: nat): Minecell
    requires forall k :: 0 <= k < |orig| ==> Cols(orig) <= |orig[k]|
    requires r <= |orig| && c <= Cols(orig) && (r == |orig| ==> c == 0)
    requires i < |orig| && j < |orig[i]|
  {
    if orig[i][j].Mine? then Mine
    else Counter(CountRows(orig, Cols(orig), r, i, j)
      + (if r < |orig| then CountRow(orig, Cols(orig), r, c, i, j) else 0))
  }

  predicate SameShape(grid: seq<seq<Minecell>>, orig: seq<seq<Minecell>>) {
    |grid| == |orig| && forall i :: 0 <= i < |grid| ==> |grid[i]| == |orig[i]|
  }

  /** `update_counters`: every mine increments each neighbour that is not itself a mine. */
  method UpdateCounters(orig: seq<seq<Minecell>>) returns (grid: seq<seq<Minecell>>)
    requires forall k :: 0 <= k < |orig| ==> Cols(orig) <= |orig[k]|
    requires forall i, j :: 0 <= i < |orig| && 0 <= j < |orig[i]| ==> orig[i][j] in {Mine, Counter(0)}
    ensures SameShape(grid, orig)
    ensures forall i, j :: 0 <= i < |grid| && 0 <= j < |grid[i]| ==>
      grid[i][j] == if orig[i][j].Mine? then Mine else Counter(AdjacentMines(orig, i, j))
  {
    var rows, cols := |orig|, Cols(orig);
    grid := orig;
    var r := 0;
    while r < rows
      invariant r <= rows
      invariant SameShape(grid, orig)
      invariant forall i, j :: 0 <= i < rows && 0 <= j < |grid[i]| ==> grid[i][j] == Partial(orig, r, 0, i, j)
    {
      var c := 0;
      while c < cols
        invariant c <= cols
        invariant SameShape(grid, orig)
        invariant forall i, j :: 0 <= i < rows && 0 <= j < |grid[i]| ==> grid[i][j] == Partial(orig, r, c, i, j)
      {
        if grid[r][c] == Mine {
          grid := CountMine(orig, grid, r, c);
        } else {
          forall i, j | 0 <= i < rows && 0 <= j < |grid[i]| ensures Partial(orig, r, c + 1, i, j) == Partial(orig, r, c, i, j) {
          }
        }
        c := c + 1;
      }
      forall i, j | 0 <= i < rows && 0 <= j < |grid[i]| ensures Partial(orig, r + 1, 0, i, j) == Partial(orig, r, cols, i, j) {
      }
      r := r + 1;
    }
  }

  /** Increments the counter at `(i, j)`; a mine stays a mine. */
  function Bump(grid: seq<seq<Minecell>>, i: nat, j: nat): (g: seq<seq<Minecell>>)
    requires i < |grid| && j < |grid[i]|
    ensures SameShape(g, grid)
    ensures forall a, b :: 0 <= a < |g| && 0 <= b < |g[a]| ==>
      g[a][b] == if (a, b) == (i, j) && grid[a][b].Counter? then Counter(grid[a][b].n + 1) else grid[a][b]
  {
    match grid[i][j]
    case Mine => grid
    case Counter(x) => grid[i := grid[i][j := Counter(x + 1)]]
  }

  /** The counters once the mines before `(r, c)` and the neighbours in `done` of `(r, c)` are counted. */
  predicate Counting(orig: seq<seq<Minecell>>, grid: seq<seq<Minecell>>, r: nat, c: nat, done: seq<(nat, nat)>)
    requires forall k :: 0 <= k < |orig| ==> Cols(orig) <= |orig[k]|
    requires r < |orig| && c < Cols(orig)
  {
    SameShape(grid, orig) &&
    forall i, j :: 0 <= i < |orig| && 0 <= j < |grid[i]| ==>
      grid[i][j] == if orig[i][j].Mine? then Mine
        else Counter(Partial(orig, r, c, i, j).n + (if (i, j) in done then 1 else 0))
  }

  lemma BumpStep(orig: seq<seq<Minecell>>, grid: seq<seq<Minecell>>, r: nat, c: nat, done: seq<(nat, nat)>, i: nat, j: nat)
    requires forall k :: 0 <= k < |orig| ==> Cols(orig) <= |orig[k]|
    requires r < |orig| && c < Cols(orig)
    requires Counting(orig, grid, r, c, done)
    requires i < |orig| && j < |orig[i]| && (i, j) !in done
    ensures Counting(orig, Bump(grid, i, j), r, c, done + [(i, j)])
  {
    var g := Bump(grid, i, j);
    forall a, b | 0 <= a < |orig| && 0 <= b < |g[a]|
      ensures g[a][b] == if orig[a][b].Mine? then Mine
        else Counter(Partial(orig, r, c, a, b).n + (if (a, b) in done + [(i, j)] then 1 else 0))
    {
      assert (a, b) in done + [(i, j)] <==> (a, b) in done || (a, b) == (i, j);
    }
  }

  lemma CountedNeighbours(orig: seq<seq<Minecell>>, grid: seq<seq<Minecell>>, r: nat, c: nat)
    requires forall k :: 0 <= k < |orig| ==> Cols(orig) <= |orig[k]|
    requires r < |orig| && c < Cols(orig) && orig[r][c] == Mine
    requires Counting(orig, grid, r, c, Neighbours(r, c, |orig|, Cols(orig)))
    ensures forall i, j :: 0 <= i < |orig| && 0 <= j < |grid[i]| ==> grid[i][j] == Partial(orig, r, c + 1, i, j)
  {
    var nbrs := Neighbours(r, c, |orig|, Cols(orig));
    forall i, j | 0 <= i < |orig| && 0 <= j < |grid[i]|
      ensures grid[i][j] == Partial(orig, r, c + 1, i, j)
    {
      assert (i, j) in nbrs <==> Touches(|orig|, Cols(orig), r, c, i, j);
      if orig[i][j].Counter? {
        PartialStep(orig, r, c, i, j);
      }
    }
  }

  /** Counting the mine at `(r, c)` adds one to every square it touches. */
  lemma PartialStep(orig: seq<seq<Minecell>>, r: nat, c: nat, i: nat, j: nat)
    requires forall k :: 0 <= k < |orig| ==> Cols(orig) <= |orig[k]|
    requires r < |orig| && c < Cols(orig) && orig[r][c] == Mine
    requires i < |orig| && j < |orig[i]| && orig[i][j].Counter?
    ensures Partial(orig, r, c + 1, i, j).n
      == Partial(orig, r, c, i, j).n + (if Touches(|orig|, Cols(orig), r, c, i, j) then 1 else 0)
  {
  }

  /** The mine at `(r, c)` increments its neighbours. */
  method CountMine(orig: seq<seq<Minecell>>, grid0: seq<seq<Minecell>>, r: nat, c: nat) returns (grid: seq<seq<Minecell>>)
    requires forall k :: 0 <= k < |orig| ==> Cols(orig) <= |orig[k]|
    requires r < |orig| && c < Cols(orig) && orig[r][c] == Mine
    requires SameShape(grid0, orig)
    requires forall i, j :: 0 <= i < |orig| && 0 <= j < |grid0[i]| ==> grid0[i][j] == Partial(orig, r, c, i, j)
    ensures SameShape(grid, orig)
    ensures forall i, j :: 0 <= i < |orig| && 0 <= j < |grid[i]| ==> grid[i][j] == Partial(orig, r, c + 1, i, j)
  {
    var nbrs := Neighbours(r, c, |orig|, Cols(orig));
    grid := grid0;
    assert Counting(orig, grid, r, c, nbrs[..0]);
    var k := 0;
    while k < |nbrs|
      invariant k <= |nbrs|
      invariant Counting(orig, grid, r, c, nbrs[..k])
    {
      var (i, j) := nbrs[k];
      NextNeighbour(nbrs, k);
      BumpStep(orig, grid, r, c, nbrs[..k], i, j);
      grid := Bump(grid, i, j);
      k := k + 1;
    }
    assert nbrs[..k] == nbrs;
    CountedNeighbours(orig, grid, r, c);
  }

  /** The next square of a duplicate-free list is not among those before it. */
  lemma NextNeighbour(nbrs: seq<(nat, nat)>, k: nat)
    requires k < |nbrs| && forall a, b :: 0 <= a < b < |nbrs| ==> nbrs[a] != nbrs[b]
    ensures nbrs[..k + 1] == nbrs[..k] + [nbrs[k]] && nbrs[k] !in nbrs[..k]
  {
    forall a | 0 <= a < k
      ensures nbrs[..k][a] != nbrs[k]
    {
      assert nbrs[..k][a] == nbrs[a];
    }
  }

  /** A bound on the mines of row `r` touching `(i, j)` among its first `cEnd` squares. */
  function RowBound(r: nat, cEnd: nat, i: nat, j: nat): nat {
    if r + 1 < i || i + 1 < r || cEnd < j then 0
    else if cEnd == j then 1
    else if cEnd == j + 1 then (if r == i then 1 else 2)
    else if r == i then 2 else 3
  }

  lemma {:induction false} CountRowBound(grid: seq<seq<Minecell>>, cols: nat, r: nat, cEnd: nat, i: nat, j: nat)
    requires r < |grid| && cEnd <= cols && cols <= |grid[r]|
    ensures CountRow(grid, cols, r, cEnd, i, j) <= RowBound(r, cEnd, i, j)
  {
    if cEnd > 0 {
      CountRowBound(grid, cols, r, cEnd - 1, i, j);
    }
  }

  lemma {:induction false} CountRowsBound(grid: seq<seq<Minecell>>, cols: nat, rEnd: nat, i: nat, j: nat)
    requires rEnd <= |grid| && forall r :: 0 <= r < |grid| ==> cols <= |grid[r]|
    ensures CountRows(grid, cols, rEnd, i, j) <= if rEnd < i then 0 else if rEnd == i then 3 else if rEnd == i + 1 then 5 else 8
  {
    if rEnd > 0 {
      CountRowsBound(grid, cols, rEnd - 1, i, j);
      CountRowBound(grid, cols, rEnd - 1, cols, i, j);
    }
  }

  /** No square has more than eight adjacent mines. */
  lemma AtMostEight(grid: seq<seq<Minecell>>, i: nat, j: nat)
    requires forall r :: 0 <= r < |grid| ==> Cols(grid) <= |grid[r]|
    ensures AdjacentMines(grid, i, j) <= 8
  {
    CountRowsBound(grid, Cols(grid), |grid|, i, j);
  }

  lemma {:induction false} CountRowOutside(grid: seq<seq<Minecell>>, cols: nat, r: nat, cEnd: nat, i: nat, j: nat)
    requires r < |grid| && cEnd <= cols && cols <= |grid[r]| && j >= cols
    ensures CountRow(grid, cols, r, cEnd, i, j) == 0
  {
    if cEnd > 0 {
      CountRowOutside(grid, cols, r, cEnd - 1, i, j);
    }
  }

  lemma {:induction false} CountRowsOutside(grid: seq<seq<Minecell>>, cols: nat, rEnd: nat, i: nat, j: nat)
    requires rEnd <= |grid| && (forall r :: 0 <= r < |grid| ==> cols <= |grid[r]|) && j >= cols
    ensures CountRows(grid, cols, rEnd, i, j) == 0
  {
    if rEnd > 0 {
      CountRowsOutside(grid, cols, rEnd - 1, i, j);
      CountRowOutside(grid, cols, rEnd - 1, cols, i, j);
    }
  }

  /** Squares past the width of the first row are never counted: they stay blank. */
  lemma BeyondFirstRow(grid: seq<seq<Minecell>>, i: nat, j: nat)
    requires forall r :: 0 <= r < |grid| ==> Cols(grid) <= |grid[r]|
    requires j >= Cols(grid)
    ensures AdjacentMines(grid, i, j) == 0
  {
    CountRowsOutside(grid, Cols(grid), |grid|, i, j);
  }

  /** `to_char`: a mine, a blank for no adjacent mine, else the count as a digit. */
  function ToChar(cell: Minecell): (ch: char)
    requires cell.Counter? ==> cell.n < 10
    ensures ch == '*' <==> cell.Mine?
    ensures ch == ' ' <==> cell == Counter(0)
    ensures cell.Counter? && cell.n > 0 ==> IsDigit(ch) && DigitValue(ch) == cell.n
  {
    match cell
    case Mine => '*'
    case Counter(x) => if x == 0 then ' ' else DigitChar(x)
  }

  function RowChars(row: seq<Minecell>): (s: string)
    requires forall j :: 0 <= j < |row| ==> row[j].Counter? ==> row[j].n < 10
    ensures |s| == |row| && forall j :: 0 <= j < |row| ==> s[j] == ToChar(row[j])
  {
    if row == [] then [] else [ToChar(row[0])] + RowChars(row[1..])
  }

  /** `to_strings`: every row rendered square by square. */
  function ToStrings(grid: seq<seq<Minecell>>): (out: seq<string>)
    requires forall i, j :: 0 <= i < |grid| && 0 <= j < |grid[i]| ==> grid[i][j].Counter? ==> grid[i][j].n < 10
    ensures |out| == |grid| && forall i :: 0 <= i < |grid| ==> out[i] == RowChars(grid[i])
  {
    if grid == [] then [] else [RowChars(grid[0])] + ToStrings(grid[1..])
  }

  /** `annotate`: the board with every empty square replaced by its count of adjacent mines.
    * Rows shorter than the first one make the source index out of bounds. */
  method Annotate(minefield: seq<string>) returns (out: seq<string>)
    requires forall k :: 0 <= k < |minefield| ==> |minefield[0]| <= |minefield[k]|
    ensures |out| == |minefield| && forall i :: 0 <= i < |out| ==> |out[i]| == |minefield[i]|
    ensures forall i, j :: 0 <= i < |out| && 0 <= j < |out[i]| ==>
      (out[i][j] == '*' <==> minefield[i][j] == '*')
    ensures forall i, j :: 0 <= i < |out| && 0 <= j < |out[i]| && minefield[i][j] != '*' ==>
      var n := AdjacentMines(NewField(minefield), i, j);
      (out[i][j] == ' ' <==> n == 0) && (n > 0 ==> IsDigit(out[i][j]) && DigitValue(out[i][j]) == n)
  {
    var grid0 := NewField(minefield);
    var grid: seq<seq<Minecell>> := UpdateCounters(grid0);
    forall i: nat, j: nat | i < |grid| && j < |grid[i]| ensures grid[i][j].Counter? ==> grid[i][j].n < 10 {
      AtMostEight(grid0, i, j);
    }
    out := ToStrings(grid);
  }
}
