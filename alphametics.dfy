/** Alphametics: assign distinct decimal digits to the letters of a puzzle such as
  * `SEND + MORE == MONEY` so that the sum holds. The words are kept lowest place first;
  * the summands are kept as per-column letter counts. Only soundness of a returned
  * assignment is modelled. */
module Alphametics {
  import opened Wrappers
  import Ascii
  import Arith

  /** An assignment of digits to letters, Rust's `HashMap<char, u8>`. */
  type Solution = map<char, nat>

  /** The digit of `c`, zero when unassigned. */
  function Digit(sol: Solution, c: char): nat {
    if c in sol then sol[c] else 0
  }

  // ---- Values of words ----

  /** The value of a word in the puzzle's natural reading, highest place first. */
  function Decimal(w: seq<char>, sol: Solution): nat {
    if w == [] then 0 else Decimal(w[..|w| - 1], sol) * 10 + Digit(sol, w[|w| - 1])
  }

  /** The value of letters stored lowest place first, as `AlphameticNumber` keeps them. */
  function LittleValue(ls: seq<char>, sol: Solution): nat {
    if ls == [] then 0 else Digit(sol, ls[0]) + 10 * LittleValue(ls[1..], sol)
  }

  function Rev(s: seq<char>): (r: seq<char>)
    ensures |r| == |s| && forall k :: 0 <= k < |s| ==> r[k] == s[|s| - 1 - k]
  {
    if s == [] then [] else Rev(s[1..]) + [s[0]]
  }

  /** Storing a word lowest place first keeps its value. */
  lemma {:induction false} RevValue(w: seq<char>, sol: Solution)
    ensures LittleValue(Rev(w), sol) == Decimal(w, sol)
  {
    if w != [] {
      var init := w[..|w| - 1];
      RevValue(init, sol);
      assert Rev(w)[1..] == Rev(init);
    }
  }

  /** The values of the words added up. */
  function SumOf(ws: seq<seq<char>>, sol: Solution): nat {
    if ws == [] then 0 else SumOf(ws[..|ws| - 1], sol) + Decimal(ws[|ws| - 1], sol)
  }

  // ---- Columns of letter counts ----

  /** How many times `c` occurs in a column: a `HashMap<char, u8>` of counts. */
  type Counts = map<char, nat>

  /** The weighted sum of a column: every letter's digit times its count. */
  ghost function MapSum(m: Counts, sol: Solution): nat
    decreases |m|
  {
    if m == map[] then 0
    else
      var k :| k in m;
      assert |m - {k}| < |m| by {
        assert m.Keys - {k} < m.Keys;
      }
      m[k] * Digit(sol, k) + MapSum(m - {k}, sol)
  }

  /** Any one letter can be taken out of a column sum first. */
  lemma {:induction false} MapSumRemove(m: Counts, k: char, sol: Solution)
    requires k in m
    ensures MapSum(m, sol) == m[k] * Digit(sol, k) + MapSum(m - {k}, sol)
    decreases |m|
  {
    var j :| j in m && MapSum(m, sol) == m[j] * Digit(sol, j) + MapSum(m - {j}, sol);
    if j != k {
      assert |m - {j}| < |m| by {
        assert m.Keys - {j} < m.Keys;
      }
      assert |m - {k}| < |m| by {
        assert m.Keys - {k} < m.Keys;
      }
      MapSumRemove(m - {j}, k, sol);
      MapSumRemove(m - {k}, j, sol);
      assert m - {j} - {k} == m - {k} - {j};
    }
  }

  /** One more occurrence of `c` in a column. */
  function Inc(m: Counts, c: char): (r: Counts)
    ensures r.Keys == m.Keys + {c}
  {
    m[c := (if c in m then m[c] else 0) + 1]
  }

  lemma IncSum(m: Counts, c: char, sol: Solution)
    ensures MapSum(Inc(m, c), sol) == MapSum(m, sol) + Digit(sol, c)
  {
    var r := Inc(m, c);
    var d := Digit(sol, c);
    assert MapSum(r, sol) == r[c] * d + MapSum(r - {c}, sol) by {
      MapSumRemove(r, c, sol);
    }
    if c in m {
      assert MapSum(m, sol) == m[c] * d + MapSum(m - {c}, sol) by {
        MapSumRemove(m, c, sol);
      }
      RemoveUpdated(m, c, m[c] + 1);
      assert r[c] == m[c] + 1;
      OneMore(m[c], d);
    } else {
      RemoveUpdated(m, c, 1);
    }
  }

  lemma OneMore(x: nat, d: nat)
    ensures (x + 1) * d == x * d + d
  {
  }

  /** Removing a key just set forgets the setting. */
  lemma RemoveUpdated(m: Counts, c: char, v: nat)
    ensures m[c := v] - {c} == m - {c}
    ensures c !in m ==> m[c := v] - {c} == m
  {
    var r := m[c := v] - {c};
    assert r.Keys == m.Keys - {c};
    forall k | k in r ensures r[k] == m[k] {
    }
  }

  /** The value of columns of counts, lowest place first. */
  ghost function CountsValue(counts: seq<Counts>, sol: Solution): nat {
    if counts == [] then 0 else MapSum(counts[0], sol) + 10 * CountsValue(counts[1..], sol)
  }

  /** `+=` of a word onto the columns: pad with empty columns, then count each letter of the
    * word, stored lowest place first, in its column. */
  function AddWord(counts: seq<Counts>, ls: seq<char>): (r: seq<Counts>)
    ensures |r| == if |ls| > |counts| then |ls| else |counts|
    ensures forall i :: 0 <= i < |r| ==>
      r[i] == (var col := if i < |counts| then counts[i] else map[];
               if i < |ls| then Inc(col, ls[i]) else col)
  {
    if ls == [] then counts
    else if counts == [] then [Inc(map[], ls[0])] + AddWord([], ls[1..])
    else [Inc(counts[0], ls[0])] + AddWord(counts[1..], ls[1..])
  }

  lemma {:induction false} EmptyColumns(ls: seq<char>, sol: Solution)
    ensures CountsValue(AddWord([], ls), sol) == LittleValue(ls, sol)
  {
    if ls != [] {
      EmptyColumns(ls[1..], sol);
      IncSum(map[], ls[0], sol);
      assert AddWord([], ls)[1..] == AddWord([], ls[1..]);
    }
  }

  /** Counting a word into the columns adds its value. */
  lemma {:induction false} AddWordValue(counts: seq<Counts>, ls: seq<char>, sol: Solution)
    ensures CountsValue(AddWord(counts, ls), sol) == CountsValue(counts, sol) + LittleValue(ls, sol)
  {
    if ls == [] {
    } else if counts == [] {
      EmptyColumns(ls, sol);
    } else {
      AddWordValue(counts[1..], ls[1..], sol);
      IncSum(counts[0], ls[0], sol);
      assert AddWord(counts, ls)[1..] == AddWord(counts[1..], ls[1..]);
    }
  }

  /** The columns of the summands: each word, stored lowest place first, counted in turn. */
  function SummandCounts(numbers: seq<seq<char>>): seq<Counts> {
    if numbers == [] then [] else AddWord(SummandCounts(numbers[..|numbers| - 1]), numbers[|numbers| - 1])
  }

  /** Column counts give the same value as adding up the summands one by one. */
  lemma {:induction false} SummandCountsValue(words: seq<seq<char>>, sol: Solution)
    ensures CountsValue(SummandCounts(RevAll(words)), sol) == SumOf(words, sol)
  {
    if words != [] {
      var n := |words|;
      assert RevAll(words)[..n - 1] == RevAll(words[..n - 1]);
      SummandCountsValue(words[..n - 1], sol);
      AddWordValue(SummandCounts(RevAll(words[..n - 1])), Rev(words[n - 1]), sol);
      RevValue(words[n - 1], sol);
    }
  }

  /** Every word stored lowest place first. */
  function RevAll(ws: seq<seq<char>>): (r: seq<seq<char>>)
    ensures |r| == |ws| && forall i :: 0 <= i < |ws| ==> r[i] == Rev(ws[i])
  {
    seq(|ws|, i requires 0 <= i < |ws| => Rev(ws[i]))
  }

  // ---- Columns listed as pairs ----

  /** The weighted sum of a column listed as `(letter, count)` pairs. */
  function PairsSum(pairs: seq<(char, nat)>, sol: Solution): nat {
    if pairs == [] then 0 else Digit(sol, pairs[0].0) * pairs[0].1 + PairsSum(pairs[1..], sol)
  }

  /** `pairs` lists every entry of `m` exactly once, in some order. */
  predicate Enumerates(pairs: seq<(char, nat)>, m: Counts) {
    (forall i :: 0 <= i < |pairs| ==> pairs[i].0 in m && pairs[i].1 == m[pairs[i].0]) &&
    (forall i, j :: 0 <= i < j < |pairs| ==> pairs[i].0 != pairs[j].0) &&
    (forall k :: k in m ==> exists i :: 0 <= i < |pairs| && pairs[i].0 == k)
  }

  lemma EnumeratesNothing(m: Counts)
    requires Enumerates([], m)
    ensures m == map[]
  {
  }

  lemma EnumeratesTail(pairs: seq<(char, nat)>, m: Counts)
    requires pairs != [] && Enumerates(pairs, m)
    ensures Enumerates(pairs[1..], m - {pairs[0].0})
  {
    var rest, tail := m - {pairs[0].0}, pairs[1..];
    forall c | c in rest
      ensures exists i :: 0 <= i < |tail| && tail[i].0 == c
    {
      var i :| 0 <= i < |pairs| && pairs[i].0 == c;
      assert tail[i - 1].0 == c;
    }
  }

  /** However a column is listed, its weighted sum is the same. */
  lemma {:induction false} PairsSumEnumerates(pairs: seq<(char, nat)>, m: Counts, sol: Solution)
    requires Enumerates(pairs, m)
    ensures PairsSum(pairs, sol) == MapSum(m, sol)
    decreases |pairs|
  {
    if pairs == [] {
      EnumeratesNothing(m);
    } else {
      var k, cnt := pairs[0].0, pairs[0].1;
      var d := Digit(sol, k);
      EnumeratesTail(pairs, m);
      PairsSumEnumerates(pairs[1..], m - {k}, sol);
      assert PairsSum(pairs, sol) == d * cnt + MapSum(m - {k}, sol);
      MapSumRemove(m, k, sol);
      assert m[k] == cnt;
      assert d * cnt == cnt * d;
    }
  }

  /** The value of columns listed as pairs, lowest place first. */
  function ColumnsValue(columns: seq<seq<(char, nat)>>, sol: Solution): nat {
    if columns == [] then 0 else PairsSum(columns[0], sol) + 10 * ColumnsValue(columns[1..], sol)
  }

  lemma {:induction false} ColumnsValueOfCounts(columns: seq<seq<(char, nat)>>, counts: seq<Counts>, sol: Solution)
    requires |columns| == |counts| && forall i :: 0 <= i < |counts| ==> Enumerates(columns[i], counts[i])
    ensures ColumnsValue(columns, sol) == CountsValue(counts, sol)
  {
    if columns != [] {
      PairsSumEnumerates(columns[0], counts[0], sol);
      ColumnsValueOfCounts(columns[1..], counts[1..], sol);
    }
  }

  // ---- The numbers of a puzzle ----

  /** `AlphameticNumber`: the letters of a word, lowest place first. */
  datatype AlphameticNumber = AlphameticNumber(letters: seq<char>)

  predicate Covers(sol: Solution, ls: seq<char>) {
    forall i :: 0 <= i < |ls| ==> ls[i] in sol
  }

  /** `AlphameticNumber::value`: Horner's rule from the highest place down. */
  method NumberValue(n: AlphameticNumber, sol: Solution) returns (v: nat)
    requires Covers(sol, n.letters)
    ensures v == LittleValue(n.letters, sol)
  {
    v := 0;
    var i := |n.letters|;
    while i > 0
      invariant 0 <= i <= |n.letters|
      invariant v == LittleValue(n.letters[i..], sol)
    {
      i := i - 1;
      assert n.letters[i..][1..] == n.letters[i + 1..];
      v := v * 10 + sol[n.letters[i]];
    }
  }

  /** `AlphameticNumbersSum`: the summands as letter counts per column, and the same
    * columns listed as pairs for evaluation. */
  class NumbersSum {
    var lettersCount: seq<Counts>
    var lettersColumns: seq<seq<(char, nat)>>

    constructor ()
      ensures lettersCount == [] && lettersColumns == []
    {
      lettersCount := [];
      lettersColumns := [];
    }

    /** `+=` of a number: pad with empty columns, then count each of its letters. */
    method AddAssign(rhs: AlphameticNumber)
      modifies this
      ensures lettersCount == AddWord(old(lettersCount), rhs.letters)
      ensures lettersColumns == old(lettersColumns)
    {
      if |rhs.letters| > |lettersCount| {
        lettersCount := lettersCount + seq(|rhs.letters| - |lettersCount|, _ => map[]);
      }
      ghost var padded := lettersCount;
      var idx := 0;
      while idx < |rhs.letters|
        invariant 0 <= idx <= |rhs.letters| <= |lettersCount| == |padded|
        invariant forall i :: 0 <= i < idx ==> lettersCount[i] == Inc(padded[i], rhs.letters[i])
        invariant forall i :: idx <= i < |lettersCount| ==> lettersCount[i] == padded[i]
        invariant lettersColumns == old(lettersColumns)
      {
        lettersCount := lettersCount[idx := Inc(lettersCount[idx], rhs.letters[idx])];
        idx := idx + 1;
      }
      assert forall i :: 0 <= i < |padded| ==> padded[i] == if i < |old(lettersCount)| then old(lettersCount)[i] else map[];
    }

    /** `convert_to_columns`: list every column's counts as pairs, in the map's own order. */
    method ConvertToColumns()
      modifies this
      ensures lettersCount == old(lettersCount)
      ensures |lettersColumns| == |old(lettersColumns)| + |lettersCount|
      ensures lettersColumns[..|old(lettersColumns)|] == old(lettersColumns)
      ensures forall i :: 0 <= i < |lettersCount| ==>
                Enumerates(lettersColumns[|old(lettersColumns)| + i], lettersCount[i])
    {
      var i := 0;
      while i < |lettersCount|
        invariant 0 <= i <= |lettersCount| == |old(lettersCount)|
        invariant lettersCount == old(lettersCount)
        invariant |lettersColumns| == |old(lettersColumns)| + i
        invariant lettersColumns[..|old(lettersColumns)|] == old(lettersColumns)
        invariant forall j :: 0 <= j < i ==> Enumerates(lettersColumns[|old(lettersColumns)| + j], lettersCount[j])
      {
        var pairs := Entries(lettersCount[i]);
        lettersColumns := lettersColumns + [pairs];
        i := i + 1;
      }
    }

    /** `AlphameticNumbersSum::value`: Horner's rule over the column sums. */
    method Value(sol: Solution) returns (v: nat)
      requires forall i, j :: 0 <= i < |lettersColumns| && 0 <= j < |lettersColumns[i]| ==> lettersColumns[i][j].0 in sol
      ensures v == ColumnsValue(lettersColumns, sol)
    {
      v := 0;
      var i := |lettersColumns|;
      while i > 0
        invariant 0 <= i <= |lettersColumns|
        invariant v == ColumnsValue(lettersColumns[i..], sol)
      {
        i := i - 1;
        assert lettersColumns[i..][1..] == lettersColumns[i + 1..];
        v := v * 10 + PairsSum(lettersColumns[i], sol);
      }
    }
  }

  /** A `HashMap`'s entries, in whatever order the map yields them. */
  method Entries(m: Counts) returns (pairs: seq<(char, nat)>)
    ensures Enumerates(pairs, m)
  {
    pairs := [];
    var rest := m.Keys;
    while rest != {}
      invariant rest <= m.Keys
      invariant forall i :: 0 <= i < |pairs| ==> pairs[i].0 in m && pairs[i].1 == m[pairs[i].0] && pairs[i].0 !in rest
      invariant forall i, j :: 0 <= i < j < |pairs| ==> pairs[i].0 != pairs[j].0
      invariant forall k :: k in m && k !in rest ==> exists i :: 0 <= i < |pairs| && pairs[i].0 == k
      decreases rest
    {
      var k :| k in rest;
      ghost var before := pairs;
      pairs := pairs + [(k, m[k])];
      rest := rest - {k};
      forall c | c in m && c !in rest
        ensures exists i :: 0 <= i < |pairs| && pairs[i].0 == c
      {
        if c == k {
          assert pairs[|pairs| - 1].0 == c;
        } else {
          var i :| 0 <= i < |before| && before[i].0 == c;
          assert pairs[i].0 == c;
        }
      }
    }
  }

  // ---- Reading a puzzle ----

  /** Everything that is not a letter separates words. */
  predicate NotAlpha(c: char) {
    !Ascii.IsAlpha(c)
  }

  /** The words of the expression, in order; the last one is the sum. */
  function PuzzleWords(expression: string): (ws: seq<string>)
    ensures forall j :: 0 <= j < |ws| ==> |ws[j]| > 0 && forall c <- ws[j] :: Ascii.IsAlpha(c)
  {
    var ws := Ascii.Words(expression, NotAlpha);
    assert forall j :: 0 <= j < |ws| ==> ws[j] in ws;
    ws
  }

  function MaxLen(ns: seq<seq<char>>): (r: nat)
    ensures forall j :: 0 <= j < |ns| ==> |ns[j]| <= r
  {
    if ns == [] then 0
    else
      var rest := MaxLen(ns[1..]);
      if |ns[0]| > rest then |ns[0]| else rest
  }

  /** Letter `c` stands in some column before `k` of the numbers, stored lowest place first. */
  ghost predicate Appears(ns: seq<seq<char>>, c: char, k: nat) {
    exists j, m :: 0 <= j < |ns| && 0 <= m < k && m < |ns[j]| && ns[j][m] == c
  }

  predicate Distinct(letters: seq<char>) {
    forall i, j :: 0 <= i < j < |letters| ==> letters[i] != letters[j]
  }

  /** Letters are listed column by column from the units: every run of columns from the
    * units upward that reaches a letter also reaches every letter listed before it. */
  ghost predicate ColumnOrdered(letters: seq<char>, ns: seq<seq<char>>) {
    forall i, j, k :: 0 <= i < j < |letters| && Appears(ns, letters[j], k) ==> Appears(ns, letters[i], k)
  }

  lemma AppearsMonotone(ns: seq<seq<char>>, c: char, k1: nat, k2: nat)
    requires k1 <= k2 && Appears(ns, c, k1)
    ensures Appears(ns, c, k2)
  {
  }

  lemma NewLetterOrdered(letters: seq<char>, ns: seq<seq<char>>, c: char, idx: nat)
    requires ColumnOrdered(letters, ns)
    requires forall e :: e in letters ==> Appears(ns, e, idx + 1)
    requires !Appears(ns, c, idx)
    ensures ColumnOrdered(letters + [c], ns)
  {
    var ls := letters + [c];
    forall i, j, k: nat | 0 <= i < j < |ls| && Appears(ns, ls[j], k)
      ensures Appears(ns, ls[i], k)
    {
      if j == |letters| {
        if k <= idx {
          AppearsMonotone(ns, c, k, idx);
        }
        assert ls[i] in letters;
        AppearsMonotone(ns, ls[i], idx + 1, k);
      }
    }
  }

  /** The nested loop of `AlphameticPuzzle::from` that lists each letter once, column by
    * column from the units. */
  method ColumnLetters(ns: seq<seq<char>>, maxlen: nat) returns (letters: seq<char>)
    requires forall j :: 0 <= j < |ns| ==> |ns[j]| <= maxlen
    ensures Distinct(letters)
    ensures forall c :: c in letters <==> Appears(ns, c, maxlen)
    ensures ColumnOrdered(letters, ns)
  {
    var unique: set<char> := {};
    letters := [];
    var idx := 0;
    while idx < maxlen
      invariant 0 <= idx <= maxlen
      invariant forall c :: c in unique <==> c in letters
      invariant Distinct(letters)
      invariant forall c :: c in letters <==> Appears(ns, c, idx)
      invariant ColumnOrdered(letters, ns)
    {
      var j := 0;
      while j < |ns|
        invariant 0 <= j <= |ns|
        invariant forall c :: c in unique <==> c in letters
        invariant Distinct(letters)
        invariant forall c :: c in letters <==>
          Appears(ns, c, idx) || exists jj :: 0 <= jj < j && idx < |ns[jj]| && ns[jj][idx] == c
        invariant forall c :: c in letters ==> Appears(ns, c, idx + 1)
        invariant ColumnOrdered(letters, ns)
      {
        if idx < |ns[j]| {
          var letter := ns[j][idx];
          if letter !in unique {
            NewLetterOrdered(letters, ns, letter, idx);
            unique := unique + {letter};
            letters := letters + [letter];
          }
        }
        j := j + 1;
      }
      forall c | Appears(ns, c, idx + 1)
        ensures c in letters
      {
        var jj, m :| 0 <= jj < |ns| && 0 <= m < idx + 1 && m < |ns[jj]| && ns[jj][m] == c;
        if m < idx {
          assert Appears(ns, c, idx);
        }
      }
      idx := idx + 1;
    }
  }

  /** Letter `c` occurs in one of the words. */
  ghost predicate InWords(ws: seq<string>, c: char) {
    exists j :: 0 <= j < |ws| && c in ws[j]
  }

  lemma AppearsInWords(ws: seq<string>, c: char)
    ensures Appears(RevAll(ws), c, MaxLen(RevAll(ws))) <==> InWords(ws, c)
  {
    var ns := RevAll(ws);
    if InWords(ws, c) {
      var j :| 0 <= j < |ws| && c in ws[j];
      var i :| 0 <= i < |ws[j]| && ws[j][i] == c;
      assert ns[j][|ws[j]| - 1 - i] == c;
    }
  }

  /** Every letter counted in a column of the summands stands in that column of one of them. */
  lemma {:induction false} SummandCountsKey(ns: seq<seq<char>>, i: nat, c: char) returns (j: nat)
    requires i < |SummandCounts(ns)| && c in SummandCounts(ns)[i]
    ensures j < |ns| && i < |ns[j]| && ns[j][i] == c
  {
    var n := |ns|;
    var prev := SummandCounts(ns[..n - 1]);
    if i < |ns[n - 1]| && c == ns[n - 1][i] {
      j := n - 1;
    } else {
      assert i < |prev| && c in prev[i];
      j := SummandCountsKey(ns[..n - 1], i, c);
      assert ns[..n - 1][j] == ns[j];
    }
  }

  /** Every count in the column is even, so the sum's digit there has no odd part to take. */
  predicate AllEven(m: Counts) {
    forall c :: c in m ==> m[c] % 2 == 0
  }

  /** Every column whose counts are all even has a letter of the sum to mark. */
  predicate EvenColumnsMarked(counts: seq<Counts>, sumLength: nat) {
    forall idx :: 0 <= idx < |counts| && AllEven(counts[idx]) ==> idx < sumLength
  }

  /** The columns whose letters all occur an even number of times, by the sum's letter there. */
  ghost function EvenColumns(counts: seq<Counts>, sum: seq<char>, upTo: nat): set<char>
    requires upTo <= |counts| && EvenColumnsMarked(counts, |sum|)
  {
    set idx | 0 <= idx < upTo && AllEven(counts[idx]) :: sum[idx]
  }

  /** The loop of `AlphameticPuzzle::from` that collects the letters of even columns. */
  method EvenLetters(counts: seq<Counts>, sum: AlphameticNumber) returns (even: set<char>)
    requires EvenColumnsMarked(counts, |sum.letters|)
    ensures even == EvenColumns(counts, sum.letters, |counts|)
  {
    even := {};
    var idx := 0;
    while idx < |counts|
      invariant 0 <= idx <= |counts|
      invariant even == EvenColumns(counts, sum.letters, idx)
    {
      if AllEven(counts[idx]) {
        even := even + {sum.letters[idx]};
      }
      assert EvenColumns(counts, sum.letters, idx + 1) ==
        EvenColumns(counts, sum.letters, idx) + (if AllEven(counts[idx]) then {sum.letters[idx]} else {});
      idx := idx + 1;
    }
  }

  /** `AlphameticPuzzle`: the letters that may not be zero, the letters that must be even,
    * the summands, the sum and every letter once, in the order the search assigns them. */
  datatype Puzzle = Puzzle(leadingLetters: set<char>, evenLetters: set<char>, summands: NumbersSum,
                           sum: AlphameticNumber, letters: seq<char>)

  /** The columns of the summands of an expression. */
  ghost function ExpressionCounts(ws: seq<string>): seq<Counts>
    requires ws != []
  {
    SummandCounts(RevAll(ws[..|ws| - 1]))
  }

  /** What `AlphameticPuzzle::from` needs of its input to finish: at least one word, and no
    * column beyond the end of the sum whose counts are all even, since the sum has no letter
    * there to mark even. */
  ghost predicate Readable(expression: string) {
    var ws := PuzzleWords(expression);
    ws != [] && EvenColumnsMarked(ExpressionCounts(ws), |ws[|ws| - 1]|)
  }

  /** The loop of `AlphameticPuzzle::from` that collects the highest letter of every number. */
  method LeadingLetters(words: seq<string>, numbers: seq<seq<char>>) returns (leading: set<char>)
    requires numbers == RevAll(words) && forall j :: 0 <= j < |words| ==> |words[j]| > 0
    ensures leading == set j | 0 <= j < |words| :: words[j][0]
  {
    leading := {};
    for j := 0 to |numbers|
      invariant leading == set jj | 0 <= jj < j :: words[jj][0]
    {
      assert numbers[j][|numbers[j]| - 1] == words[j][0];
      leading := leading + {numbers[j][|numbers[j]| - 1]};
    }
  }

  /** The loop of `AlphameticPuzzle::from` that adds every summand into the columns. */
  method Summands(numbers: seq<seq<char>>) returns (summands: NumbersSum)
    ensures fresh(summands)
    ensures summands.lettersCount == SummandCounts(numbers) && summands.lettersColumns == []
  {
    summands := new NumbersSum();
    for j := 0 to |numbers|
      invariant fresh(summands)
      invariant summands.lettersCount == SummandCounts(numbers[..j]) && summands.lettersColumns == []
    {
      summands.AddAssign(AlphameticNumber(numbers[j]));
      assert numbers[..j + 1][..j] == numbers[..j];
    }
    assert numbers[..|numbers|] == numbers;
  }

  /** `p` is the puzzle read from the words `ws`: the last word is the sum, every letter is
    * listed once, column by column, the leading letters are the words' first letters, the
    * summands are counted and listed by column, and the even letters are those of the sum
    * in the columns whose counts are all even. */
  ghost predicate Built(p: Puzzle, ws: seq<string>)
    reads p.summands
  {
    BuiltFrom(ws, p.sum.letters, p.letters, p.leadingLetters, p.summands.lettersCount,
              p.summands.lettersColumns, p.evenLetters)
  }

  /** `Built`, over the parts of the puzzle. */
  ghost predicate BuiltFrom(ws: seq<string>, sum: seq<char>, letters: seq<char>, leading: set<char>,
                            counts: seq<Counts>, columns: seq<seq<(char, nat)>>, even: set<char>)
  {
    && ws != [] && (forall j :: 0 <= j < |ws| ==> |ws[j]| > 0)
    && sum == Rev(ws[|ws| - 1])
    && Distinct(letters) && (forall c :: c in letters <==> InWords(ws, c))
    && ColumnOrdered(letters, RevAll(ws))
    && leading == (set j | 0 <= j < |ws| :: ws[j][0])
    && counts == ExpressionCounts(ws)
    && |columns| == |counts|
    && (forall i :: 0 <= i < |counts| ==> Enumerates(columns[i], counts[i]))
    && EvenColumnsMarked(counts, |sum|)
    && even == EvenColumns(counts, sum, |counts|)
  }

  /** The loop of `AlphameticPuzzle::from` that lists the letters, read as the letters of
    * the words. */
  method WordLetters(words: seq<string>, numbers: seq<seq<char>>) returns (letters: seq<char>)
    requires numbers == RevAll(words)
    ensures Distinct(letters) && (forall c :: c in letters <==> InWords(words, c))
    ensures ColumnOrdered(letters, numbers)
  {
    var maxlen := MaxLen(numbers);
    letters := ColumnLetters(numbers, maxlen);
    forall c
      ensures c in letters <==> InWords(words, c)
    {
      AppearsInWords(words, c);
    }
  }

  /** `AlphameticPuzzle::from`: split the expression into its words and build the puzzle. */
  method From(expression: string) returns (p: Puzzle)
    requires Readable(expression)
    ensures fresh(p.summands) && Built(p, PuzzleWords(expression))
  {
    var words := PuzzleWords(expression);
    p := FromWords(words);
  }

  /** `AlphameticPuzzle::from` after the expression is split into words. */
  method FromWords(words: seq<string>) returns (p: Puzzle)
    requires words != [] && forall j :: 0 <= j < |words| ==> |words[j]| > 0
    requires EvenColumnsMarked(ExpressionCounts(words), |words[|words| - 1]|)
    ensures fresh(p.summands) && Built(p, words)
  {
    var numbers := RevAll(words);
    var letters := WordLetters(words, numbers);
    var leading := LeadingLetters(words, numbers);
    var n := |numbers|;
    var sum := AlphameticNumber(numbers[n - 1]);
    var summands := Summands(numbers[..n - 1]);
    assert numbers[..n - 1] == RevAll(words[..n - 1]);
    assert |sum.letters| == |words[n - 1]|;
    var even := EvenLetters(summands.lettersCount, sum);
    ghost var before := summands.lettersColumns;
    summands.ConvertToColumns();
    var counts, columns := summands.lettersCount, summands.lettersColumns;
    forall i | 0 <= i < |counts|
      ensures Enumerates(columns[i], counts[i])
    {
      assert Enumerates(columns[|before| + i], counts[i]);
    }
    assert BuiltFrom(words, sum.letters, letters, leading, counts, columns, even);
    p := Puzzle(leading, even, summands, sum, letters);
  }

  /** A puzzle read from words has everything the search relies on. */
  lemma BuiltReady(p: Puzzle, ws: seq<string>)
    requires Built(p, ws)
    ensures Ready(p)
  {
    var n := |ws|;
    LeadingListed(p.leadingLetters, p.letters, ws);
    SumListed(p.sum.letters, p.letters, ws);
    ColumnsListed(p.summands.lettersColumns, p.summands.lettersCount, p.letters, ws);
  }

  /** The first letter of every word is listed. */
  lemma LeadingListed(leading: set<char>, letters: seq<char>, ws: seq<string>)
    requires forall j :: 0 <= j < |ws| ==> |ws[j]| > 0
    requires leading == set j | 0 <= j < |ws| :: ws[j][0]
    requires forall c :: c in letters <==> InWords(ws, c)
    ensures leading <= (set c | c in letters)
  {
    forall c | c in leading
      ensures c in letters
    {
      var j :| 0 <= j < |ws| && ws[j][0] == c;
      assert InWords(ws, c);
    }
  }

  /** Every letter of the sum is listed. */
  lemma SumListed(sum: seq<char>, letters: seq<char>, ws: seq<string>)
    requires ws != [] && sum == Rev(ws[|ws| - 1])
    requires forall c :: c in letters <==> InWords(ws, c)
    ensures forall i :: 0 <= i < |sum| ==> sum[i] in letters
  {
    var n := |ws|;
    forall i | 0 <= i < |sum|
      ensures sum[i] in letters
    {
      assert sum[i] == ws[n - 1][|ws[n - 1]| - 1 - i];
      assert InWords(ws, sum[i]);
    }
  }

  /** Every letter of the summands' columns is listed. */
  lemma ColumnsListed(columns: seq<seq<(char, nat)>>, counts: seq<Counts>, letters: seq<char>, ws: seq<string>)
    requires ws != [] && counts == ExpressionCounts(ws) && |columns| == |counts|
    requires forall i :: 0 <= i < |counts| ==> Enumerates(columns[i], counts[i])
    requires forall c :: c in letters <==> InWords(ws, c)
    ensures forall i, k :: 0 <= i < |columns| && 0 <= k < |columns[i]| ==> columns[i][k].0 in letters
  {
    forall i, k | 0 <= i < |columns| && 0 <= k < |columns[i]|
      ensures columns[i][k].0 in letters
    {
      assert Enumerates(columns[i], counts[i]);
      CountedInWords(ws, i, columns[i][k].0);
    }
  }

  /** A letter counted in a column of the summands occurs in the words. */
  lemma CountedInWords(ws: seq<string>, i: nat, c: char)
    requires ws != [] && i < |ExpressionCounts(ws)| && c in ExpressionCounts(ws)[i]
    ensures InWords(ws, c)
  {
    var pre := ws[..|ws| - 1];
    var ns := RevAll(pre);
    var j := SummandCountsKey(ns, i, c);
    var w := ws[j];
    assert pre[j] == w && ns[j] == Rev(w);
    assert w[|w| - 1 - i] == c;
    assert c in ws[j];
  }

  /** The answer `solve` promises for the words `ws`: every letter of the words has a digit,
    * distinct letters have distinct digits, no word starts with a zero, and the words before
    * the last add up to the last. */
  ghost predicate Solves(ws: seq<string>, sol: Solution)
    requires ws != []
  {
    && (forall c :: c in sol <==> InWords(ws, c))
    && Injective(sol) && DecimalDigits(sol)
    && (forall j :: 0 <= j < |ws| && |ws[j]| > 0 ==> Digit(sol, ws[j][0]) != 0)
    && SumOf(ws[..|ws| - 1], sol) == Decimal(ws[|ws| - 1], sol)
  }

  /** An assignment the search accepts for a puzzle read from words solves those words. */
  lemma SoundSolves(p: Puzzle, ws: seq<string>, sol: Solution)
    requires Built(p, ws) && Sound(p, sol)
    ensures Solves(ws, sol)
  {
    var n := |ws|;
    forall j | 0 <= j < n && |ws[j]| > 0
      ensures Digit(sol, ws[j][0]) != 0
    {
      assert ws[j][0] in p.leadingLetters;
      assert InWords(ws, ws[j][0]);
    }
    RevValue(ws[n - 1], sol);
    ColumnsValueOfCounts(p.summands.lettersColumns, p.summands.lettersCount, sol);
    SummandCountsValue(ws[..n - 1], sol);
  }

  // ---- The search ----

  /** The first `k` letters, as a set. */
  function Prefix(letters: seq<char>, k: nat): set<char>
    requires k <= |letters|
  {
    set i | 0 <= i < k :: letters[i]
  }

  lemma PrefixStep(letters: seq<char>, k: nat)
    requires Distinct(letters) && k < |letters|
    ensures Prefix(letters, k + 1) == Prefix(letters, k) + {letters[k]}
    ensures letters[k] !in Prefix(letters, k)
  {
    assert forall c :: c in Prefix(letters, k + 1) <==> c in Prefix(letters, k) || c == letters[k];
  }

  lemma PrefixAll(letters: seq<char>)
    ensures Prefix(letters, |letters|) == set c | c in letters
  {
    forall c | c in letters
      ensures c in Prefix(letters, |letters|)
    {
      var i :| 0 <= i < |letters| && letters[i] == c;
    }
  }

  predicate Injective(sol: Solution) {
    forall a, b :: a in sol && b in sol && a != b ==> sol[a] != sol[b]
  }

  predicate DecimalDigits(sol: Solution) {
    forall c :: c in sol ==> sol[c] < 10
  }

  /** Every letter of the column is assigned. */
  predicate Assigned(pairs: seq<(char, nat)>, sol: Solution) {
    forall k :: 0 <= k < |pairs| ==> pairs[k].0 in sol
  }

  /** The column-by-column check of a partial assignment, from column `idx` with carry
    * `shift`: stop at the first unassigned letter; a sum digit beyond the summands' columns
    * may not exceed the carry; a sum digit inside them must be the units of its column's
    * sum plus the carry. */
  function PartialOk(sum: seq<char>, columns: seq<seq<(char, nat)>>, sol: Solution, idx: nat, shift: nat): bool
    decreases |sum| - idx
  {
    if idx >= |sum| || sum[idx] !in sol || idx > |columns| then true
    else if idx == |columns| then sol[sum[idx]] <= shift
    else if !Assigned(columns[idx], sol) then true
    else
      var rhs := PairsSum(columns[idx], sol) + shift;
      if sol[sum[idx]] % 10 != rhs % 10 then false
      else PartialOk(sum, columns, sol, idx + 1, rhs / 10)
  }

  /** `find_solution2_partial_test_ok` as written: beyond the summands' columns the sum's
    * digit is bounded by the column index instead of by the carry. */
  function PartialOkAsWritten(sum: seq<char>, columns: seq<seq<(char, nat)>>, sol: Solution, idx: nat, shift: nat): bool
    decreases |sum| - idx
  {
    if idx >= |sum| || sum[idx] !in sol || idx > |columns| then true
    else if idx == |columns| then sol[sum[idx]] <= idx
    else if !Assigned(columns[idx], sol) then true
    else
      var rhs := PairsSum(columns[idx], sol) + shift;
      if sol[sum[idx]] % 10 != rhs % 10 then false
      else PartialOkAsWritten(sum, columns, sol, idx + 1, rhs / 10)
  }

  /** `A + B + C + D == EF` with A=9, B=8, C=7, D=1, E=2, F=5 is a genuine solution
    * (9 + 8 + 7 + 1 == 25), yet the check as written rejects it: the carry into the
    * sum's last column is 2, and the check compares E with the column index 1. */
  const ExampleSum: seq<char> := ['F', 'E']
  const ExampleColumns: seq<seq<(char, nat)>> := [[('A', 1), ('B', 1), ('C', 1), ('D', 1)]]
  const ExampleSolution: Solution := map['A' := 9, 'B' := 8, 'C' := 7, 'D' := 1, 'E' := 2, 'F' := 5]

  lemma AsWrittenRejectsSolution()
    ensures Injective(ExampleSolution) && DecimalDigits(ExampleSolution)
    ensures LittleValue(ExampleSum, ExampleSolution) == ColumnsValue(ExampleColumns, ExampleSolution)
    ensures !PartialOkAsWritten(ExampleSum, ExampleColumns, ExampleSolution, 0, 0)
    ensures PartialOk(ExampleSum, ExampleColumns, ExampleSolution, 0, 0)
  {
    ExampleSolves();
    ExampleChecks();
  }

  lemma ExampleSolves()
    ensures Injective(ExampleSolution) && DecimalDigits(ExampleSolution)
    ensures LittleValue(ExampleSum, ExampleSolution) == ColumnsValue(ExampleColumns, ExampleSolution)
  {
    ExampleDigits();
    ExampleSums();
  }

  lemma ExampleDigits()
    ensures Injective(ExampleSolution) && DecimalDigits(ExampleSolution)
  {
    var sol := ExampleSolution;
    forall a, b | a in sol && b in sol && a != b
      ensures sol[a] != sol[b]
    {
      assert a == ExampleLetter(sol[a]) && b == ExampleLetter(sol[b]);
    }
  }

  /** The letter the example assigns a digit to. */
  function ExampleLetter(d: nat): char {
    if d == 9 then 'A' else if d == 8 then 'B' else if d == 7 then 'C'
    else if d == 1 then 'D' else if d == 2 then 'E' else 'F'
  }

  lemma ExampleSums()
    ensures LittleValue(ExampleSum, ExampleSolution) == ColumnsValue(ExampleColumns, ExampleSolution)
  {
    var sum, columns, sol := ExampleSum, ExampleColumns, ExampleSolution;
    assert PairsSum(columns[0], sol) == 25;
    assert LittleValue(sum, sol) == 25 by {
      assert LittleValue(sum[1..], sol) == 2;
    }
    assert ColumnsValue(columns, sol) == 25 by {
      assert ColumnsValue(columns[1..], sol) == 0;
    }
  }

  lemma ExampleChecks()
    ensures !PartialOkAsWritten(ExampleSum, ExampleColumns, ExampleSolution, 0, 0)
    ensures PartialOk(ExampleSum, ExampleColumns, ExampleSolution, 0, 0)
  {
    var sum, columns, sol := ExampleSum, ExampleColumns, ExampleSolution;
    assert PairsSum(columns[0], sol) == 25;
    assert Assigned(columns[0], sol);
    assert !PartialOkAsWritten(sum, columns, sol, 1, 2);
    assert PartialOk(sum, columns, sol, 1, 2);
  }

  /** Splitting one column off an equation of values: its units digit and its carry. */
  lemma ColumnCarry(d: nat, rhs: nat, high: nat, rest: nat)
    requires d < 10 && d + 10 * high == rhs + 10 * rest
    ensures rhs % 10 == d && rhs / 10 + rest == high
  {
    assert high >= rest;
    Arith.DivUnique(rhs, 10, high - rest, d);
  }

  lemma {:induction false} PairsSumAssigned(pairs: seq<(char, nat)>, sub: Solution, full: Solution)
    requires Assigned(pairs, sub) && forall c :: c in sub ==> c in full && sub[c] == full[c]
    ensures PairsSum(pairs, sub) == PairsSum(pairs, full)
  {
    if pairs != [] {
      assert Assigned(pairs[1..], sub);
      PairsSumAssigned(pairs[1..], sub, full);
    }
  }

  /** The corrected check never prunes a genuine solution: every part of an assignment
    * under which the sum (from column `idx`, with carry `shift`) holds passes the check. */
  lemma {:induction false} PartialOkAccepts(sum: seq<char>, columns: seq<seq<(char, nat)>>, full: Solution,
                                            sub: Solution, idx: nat, shift: nat)
    requires forall c :: c in sub ==> c in full && sub[c] == full[c]
    requires DecimalDigits(full) && idx <= |sum| && idx <= |columns|
    requires LittleValue(sum[idx..], full) == ColumnsValue(columns[idx..], full) + shift
    ensures PartialOk(sum, columns, sub, idx, shift)
    decreases |sum| - idx
  {
    if idx < |sum| && sum[idx] in sub {
      var d, high := sub[sum[idx]], LittleValue(sum[idx + 1..], full);
      assert d < 10 && LittleValue(sum[idx..], full) == d + 10 * high by {
        assert sum[idx..][1..] == sum[idx + 1..];
      }
      if idx == |columns| {
        assert columns[idx..] == [];
      } else if Assigned(columns[idx], sub) {
        var rest := ColumnsValue(columns[idx + 1..], full);
        var rhs := PairsSum(columns[idx], sub) + shift;
        assert ColumnsValue(columns[idx..], full) == PairsSum(columns[idx], sub) + 10 * rest by {
          assert columns[idx..][1..] == columns[idx + 1..];
          PairsSumAssigned(columns[idx], sub, full);
        }
        assert rhs % 10 == d && rhs / 10 + rest == high by {
          ColumnCarry(d, rhs, high, rest);
        }
        PartialOkAccepts(sum, columns, full, sub, idx + 1, rhs / 10);
      }
    }
  }

  /** What the search relies on in a puzzle `AlphameticPuzzle::from` built. */
  ghost predicate Ready(p: Puzzle)
    reads p.summands
  {
    && Distinct(p.letters)
    && p.leadingLetters <= (set c | c in p.letters)
    && |p.summands.lettersColumns| == |p.summands.lettersCount|
    && (forall i :: 0 <= i < |p.sum.letters| ==> p.sum.letters[i] in p.letters)
    && (forall i, j :: 0 <= i < |p.summands.lettersColumns| && 0 <= j < |p.summands.lettersColumns[i]| ==>
          p.summands.lettersColumns[i][j].0 in p.letters)
  }

  /** A complete answer to the puzzle: every letter has a distinct digit, no leading letter
    * is zero, and the summands add up to the sum. */
  ghost predicate Sound(p: Puzzle, sol: Solution)
    reads p.summands
  {
    && (forall c :: c in sol <==> c in p.letters)
    && Injective(sol) && DecimalDigits(sol)
    && (forall c :: c in sol && c in p.leadingLetters ==> sol[c] != 0)
    && LittleValue(p.sum.letters, sol) == ColumnsValue(p.summands.lettersColumns, sol)
  }

  /** The state of the search: the first `|sol|` letters are assigned, to distinct digits,
    * none of them a zero for a leading letter, and `used` is the set of those digits. */
  predicate SearchState(p: Puzzle, sol: Solution, used: set<nat>) {
    && |sol| <= |p.letters|
    && sol.Keys == Prefix(p.letters, |sol|)
    && used == sol.Values
    && Injective(sol) && DecimalDigits(sol)
    && (forall c :: c in sol && c in p.leadingLetters ==> sol[c] != 0)
  }

  lemma ValuesAfterInsert(sol: Solution, letter: char, digit: nat)
    requires letter !in sol
    ensures sol[letter := digit].Values == sol.Values + {digit}
  {
    var sol' := sol[letter := digit];
    forall v | v in sol'.Values
      ensures v in sol.Values + {digit}
    {
      var c :| c in sol' && sol'[c] == v;
      if c != letter {
        assert sol[c] == v;
      }
    }
    forall v | v in sol.Values
      ensures v in sol'.Values
    {
      var c :| c in sol && sol[c] == v;
      assert sol'[c] == v;
    }
    assert sol'[letter] == digit;
  }

  lemma SizeAfterInsert(sol: Solution, letter: char, digit: nat)
    requires letter !in sol
    ensures |sol[letter := digit]| == |sol| + 1
  {
    assert sol[letter := digit].Keys == sol.Keys + {letter};
  }

  lemma InjectiveAfterInsert(sol: Solution, letter: char, digit: nat)
    requires letter !in sol && digit !in sol.Values && Injective(sol)
    ensures Injective(sol[letter := digit])
  {
    var sol' := sol[letter := digit];
    forall a, b | a in sol' && b in sol' && a != b
      ensures sol'[a] != sol'[b]
    {
      if a == letter {
        assert sol[b] in sol.Values;
      } else if b == letter {
        assert sol[a] in sol.Values;
      }
    }
  }

  /** Assigning the next letter a free digit keeps the search state. */
  lemma AssignNext(p: Puzzle, sol: Solution, used: set<nat>, digit: nat)
    requires Distinct(p.letters) && SearchState(p, sol, used) && |sol| < |p.letters|
    requires digit < 10 && digit !in used
    requires digit == 0 ==> p.letters[|sol|] !in p.leadingLetters
    ensures p.letters[|sol|] !in sol
    ensures |sol[p.letters[|sol|] := digit]| == |sol| + 1
    ensures SearchState(p, sol[p.letters[|sol|] := digit], used + {digit})
  {
    var k := |sol|;
    var letter := p.letters[k];
    var next := sol[letter := digit];
    PrefixStep(p.letters, k);
    assert |next| == k + 1 && next.Keys == Prefix(p.letters, k + 1) by {
      KeysAfterInsert(p.letters, sol, digit);
    }
    assert next.Values == used + {digit} by {
      ValuesAfterInsert(sol, letter, digit);
    }
    assert Injective(next) by {
      InjectiveAfterInsert(sol, letter, digit);
    }
    assert DecimalDigits(next) && forall c :: c in next && c in p.leadingLetters ==> next[c] != 0 by {
      DigitsAfterInsert(sol, letter, digit, p.leadingLetters);
    }
  }

  lemma KeysAfterInsert(letters: seq<char>, sol: Solution, digit: nat)
    requires |sol| < |letters| && sol.Keys == Prefix(letters, |sol|)
    requires Prefix(letters, |sol| + 1) == Prefix(letters, |sol|) + {letters[|sol|]}
    requires letters[|sol|] !in Prefix(letters, |sol|)
    ensures |sol[letters[|sol|] := digit]| == |sol| + 1
    ensures sol[letters[|sol|] := digit].Keys == Prefix(letters, |sol| + 1)
  {
    var letter := letters[|sol|];
    SizeAfterInsert(sol, letter, digit);
    assert sol[letter := digit].Keys == sol.Keys + {letter};
  }

  lemma DigitsAfterInsert(sol: Solution, letter: char, digit: nat, leading: set<char>)
    requires DecimalDigits(sol) && digit < 10
    requires forall c :: c in sol && c in leading ==> sol[c] != 0
    requires digit == 0 ==> letter !in leading
    ensures DecimalDigits(sol[letter := digit])
    ensures forall c :: c in sol[letter := digit] && c in leading ==> sol[letter := digit][c] != 0
  {
  }

  /** Taking back the letter just assigned restores the state before it. */
  lemma Unassign(sol: Solution, used: set<nat>, letter: char, digit: nat)
    requires letter !in sol && digit !in used
    ensures sol[letter := digit] - {letter} == sol
    ensures used + {digit} - {digit} == used
  {
  }

  /** `big` agrees with `small` on every letter `small` assigns. */
  predicate Extends(big: Solution, small: Solution) {
    forall c :: c in small ==> c in big && big[c] == small[c]
  }

  lemma ExtendsInsert(big: Solution, small: Solution, letter: char, digit: nat)
    requires letter !in small && Extends(big, small[letter := digit])
    ensures Extends(big, small)
  {
    forall c | c in small
      ensures c in big && big[c] == small[c]
    {
      assert c in small[letter := digit];
    }
  }

  /** The backtracking search of `AlphameticPuzzle`: the solution map and the used digits
    * it extends and restores. */
  class Solver {
    const puzzle: Puzzle
    var solution: Solution
    var usedDigits: set<nat>

    /** `find_solution2`: start from nothing assigned. */
    constructor (puzzle: Puzzle)
      ensures this.puzzle == puzzle && solution == map[] && usedDigits == {}
    {
      this.puzzle := puzzle;
      solution := map[];
      usedDigits := {};
    }

    ghost predicate Valid()
      reads this
    {
      SearchState(puzzle, solution, usedDigits)
    }

    /** `find_solution2_recursive`: try every allowed digit for the next letter, recurse,
      * and take the digit back when the branch fails. */
    method FindRecursive() returns (r: Option<Solution>)
      requires Ready(puzzle) && Valid()
      modifies this
      ensures Valid()
      ensures r.None? ==> solution == old(solution) && usedDigits == old(usedDigits)
      ensures r.Some? ==> Sound(puzzle, r.value)
      ensures r.Some? ==> Extends(r.value, old(solution))
      decreases |puzzle.letters| - |solution|, 1
    {
      if |solution| >= |puzzle.letters| {
        PrefixAll(puzzle.letters);
        var ok := TestSolution(puzzle, solution);
        if ok {
          return Some(solution);
        }
        return None;
      }

      var letter := puzzle.letters[|solution|];
      for digit := 0 to 10
        invariant Valid()
        invariant solution == old(solution) && usedDigits == old(usedDigits)
      {
        if digit in usedDigits {
          continue;
        }
        if digit == 0 && letter in puzzle.leadingLetters {
          continue;
        }
        if digit % 2 == 1 && letter in puzzle.evenLetters {
          continue;
        }
        r := TryDigit(letter, digit);
        if r.Some? {
          return r;
        }
      }
      return None;
    }

    /** The body of the loop of `find_solution2_recursive`: assign `digit` to the next
      * letter, prune by the partial check, recurse, and take the digit back on failure. */
    method TryDigit(letter: char, digit: nat) returns (r: Option<Solution>)
      requires Ready(puzzle) && Valid() && |solution| < |puzzle.letters|
      requires letter == puzzle.letters[|solution|]
      requires digit < 10 && digit !in usedDigits && (digit == 0 ==> letter !in puzzle.leadingLetters)
      modifies this
      ensures Valid()
      ensures r.None? ==> solution == old(solution) && usedDigits == old(usedDigits)
      ensures r.Some? ==> Sound(puzzle, r.value)
      ensures r.Some? ==> Extends(r.value, old(solution))
      decreases |puzzle.letters| - |solution|, 0
    {
      AssignNext(puzzle, solution, usedDigits, digit);
      Unassign(solution, usedDigits, letter, digit);
      solution := solution[letter := digit];
      usedDigits := usedDigits + {digit};
      ghost var extended := solution;

      var ok := PartialTestOk(puzzle, solution);
      if ok {
        r := FindRecursive();
      } else {
        r := None;
      }
      if r.None? {
        solution := solution - {letter};
        usedDigits := usedDigits - {digit};
        assert solution == old(solution) && usedDigits == old(usedDigits);
      } else {
        ExtendsInsert(r.value, old(solution), letter, digit);
      }
    }
  }

  /** `test_solution`: the sum's value against the summands' value. */
  method TestSolution(p: Puzzle, sol: Solution) returns (ok: bool)
    requires Ready(p) && forall c :: c in p.letters ==> c in sol
    ensures ok <==> LittleValue(p.sum.letters, sol) == ColumnsValue(p.summands.lettersColumns, sol)
  {
    var sumValue := NumberValue(p.sum, sol);
    var summandsValue := p.summands.Value(sol);
    ok := sumValue == summandsValue;
  }

  /** `find_solution2_partial_test_ok`, with the bound on the sum's digit beyond the
    * summands' columns taken as the carry into that column. */
  method PartialTestOk(p: Puzzle, sol: Solution) returns (ok: bool)
    requires |p.summands.lettersColumns| == |p.summands.lettersCount|
    ensures ok == PartialOk(p.sum.letters, p.summands.lettersColumns, sol, 0, 0)
  {
    var sum, columns := p.sum.letters, p.summands.lettersColumns;
    var shift := 0;
    var idx := 0;
    while idx < |sum|
      invariant 0 <= idx <= |sum| && idx <= |columns|
      invariant PartialOk(sum, columns, sol, 0, 0) == PartialOk(sum, columns, sol, idx, shift)
    {
      if sum[idx] in sol {
        var digit := sol[sum[idx]];
        if idx == |p.summands.lettersCount| {
          return digit <= shift;
        }
        var complete, rhs := ColumnTotal(columns[idx], sol);
        if !complete {
          return true;
        }
        rhs := rhs + shift;
        if digit % 10 != rhs % 10 {
          return false;
        }
        shift := rhs / 10;
      } else {
        return true;
      }
      idx := idx + 1;
    }
    return true;
  }

  /** The inner loop of `find_solution2_partial_test_ok`: the weighted sum of a column,
    * unless one of its letters is unassigned. */
  method ColumnTotal(column: seq<(char, nat)>, sol: Solution) returns (complete: bool, rhs: nat)
    ensures complete <==> Assigned(column, sol)
    ensures complete ==> rhs == PairsSum(column, sol)
  {
    rhs := 0;
    var k := 0;
    while k < |column|
      invariant 0 <= k <= |column|
      invariant Assigned(column[..k], sol)
      invariant rhs == PairsSum(column[..k], sol)
    {
      var (letter, count) := column[k];
      if letter !in sol {
        return false, rhs;
      }
      PairsSumAppend(column[..k], column[k], sol);
      assert column[..k + 1] == column[..k] + [column[k]];
      rhs := rhs + sol[letter] * count;
      k := k + 1;
    }
    assert column[..k] == column;
    return true, rhs;
  }

  lemma {:induction false} PairsSumAppend(pairs: seq<(char, nat)>, last: (char, nat), sol: Solution)
    ensures PairsSum(pairs + [last], sol) == PairsSum(pairs, sol) + Digit(sol, last.0) * last.1
  {
    if pairs != [] {
      PairsSumAppend(pairs[1..], last, sol);
      assert (pairs + [last])[1..] == pairs[1..] + [last];
    } else {
      assert PairsSum([last], sol) == Digit(sol, last.0) * last.1 + PairsSum([], sol);
    }
  }

  /** `solve`: read the puzzle and search it; an answer, when there is one, solves it. */
  method Solve(input: string) returns (r: Option<Solution>)
    requires Readable(input)
    ensures r.Some? ==> Solves(PuzzleWords(input), r.value)
  {
    var p := From(input);
    BuiltReady(p, PuzzleWords(input));
    var solver := new Solver(p);
    assert Prefix(p.letters, 0) == {};
    r := solver.FindRecursive();
    if r.Some? {
      SoundSolves(p, PuzzleWords(input), r.value);
    }
  }
}
