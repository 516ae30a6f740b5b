/** Matching brackets: `[]`, `{}` and `()` balanced and properly nested; other characters are
  * ignored. */
module MatchingBrackets {
  import opened Wrappers

  predicate IsOpen(c: char) { c == '[' || c == '{' || c == '(' }
  predicate IsClose(c: char) { c == ']' || c == '}' || c == ')' }

  function CloseOf(c: char): char
    requires IsOpen(c)
  {
    if c == '[' then ']' else if c == '{' then '}' else ')'
  }

  /** One character applied to a stack of expected closing brackets (top at the end). */
  function Step(c: char, stack: seq<char>): Option<seq<char>> {
    if IsOpen(c) then Some(stack + [CloseOf(c)])
    else if IsClose(c) then
      if stack != [] && stack[|stack| - 1] == c then Some(stack[..|stack| - 1]) else None
    else Some(stack)
  }

  /** The characters applied from left to right; `None` at the first mismatched closing bracket. */
  function Scan(s: string, stack: seq<char>): Option<seq<char>> {
    if s == [] then Some(stack)
    else match Step(s[0], stack)
      case None => None
      case Some(next) => Scan(s[1..], next)
  }

  predicate Balanced(s: string) {
    Scan(s, []) == Some([])
  }

  function Repeat(c: char, n: nat): (r: seq<char>)
    ensures |r| == n && forall i :: 0 <= i < n ==> r[i] == c
  {
    seq(n, _ => c)
  }

  /** The stack the compressed entries stand for: each entry repeated by its count. */
  function Flatten(entries: seq<(char, nat)>): seq<char> {
    if entries == [] then []
    else Flatten(entries[..|entries| - 1]) + Repeat(entries[|entries| - 1].0, entries[|entries| - 1].1)
  }

  /** Counts are at least 1 and adjacent entries hold different brackets. */
  predicate Compressed(entries: seq<(char, nat)>) {
    (forall k :: 0 <= k < |entries| ==> entries[k].1 >= 1)
    && forall k :: 0 < k < |entries| ==> entries[k - 1].0 != entries[k].0
  }

  lemma FlattenTop(entries: seq<(char, nat)>)
    requires Compressed(entries) && entries != []
    ensures var f := Flatten(entries); f != [] && f[|f| - 1] == entries[|entries| - 1].0
  {
  }

  lemma FlattenEmpty(entries: seq<(char, nat)>)
    requires Compressed(entries)
    ensures Flatten(entries) == [] <==> entries == []
  {
    if entries != [] {
      FlattenTop(entries);
    }
  }

  /** One more of the bracket the top entry expects. */
  lemma PushSame(entries: seq<(char, nat)>, close: char)
    requires Compressed(entries) && entries != [] && entries[|entries| - 1].0 == close
    ensures var n := |entries|;
      var e := entries[n - 1 := (close, entries[n - 1].1 + 1)];
      Compressed(e) && Flatten(e) == Flatten(entries) + [close]
  {
    var n := |entries|;
    var e := entries[n - 1 := (close, entries[n - 1].1 + 1)];
    assert e[..n - 1] == entries[..n - 1];
    assert Repeat(close, entries[n - 1].1 + 1) == Repeat(close, entries[n - 1].1) + [close];
  }

  /** A new entry for a bracket the top entry does not expect. */
  lemma PushNew(entries: seq<(char, nat)>, close: char)
    requires Compressed(entries) && (entries == [] || entries[|entries| - 1].0 != close)
    ensures Compressed(entries + [(close, 1)])
    ensures Flatten(entries + [(close, 1)]) == Flatten(entries) + [close]
  {
    FlattenSnoc(entries, (close, 1));
    assert Repeat(close, 1) == [close];
    CompressedSnoc(entries, close);
  }

  lemma CompressedSnoc(entries: seq<(char, nat)>, close: char)
    requires Compressed(entries) && (entries == [] || entries[|entries| - 1].0 != close)
    ensures Compressed(entries + [(close, 1)])
  {
    var e := entries + [(close, 1)];
    forall k | 0 < k < |e| ensures e[k - 1].0 != e[k].0 {
      if k < |entries| {
        assert e[k - 1] == entries[k - 1] && e[k] == entries[k];
      }
    }
  }

  lemma FlattenSnoc(entries: seq<(char, nat)>, last: (char, nat))
    ensures Flatten(entries + [last]) == Flatten(entries) + Repeat(last.0, last.1)
  {
    assert (entries + [last])[..|entries|] == entries;
  }

  /** The top entry, holding a single bracket, popped. */
  lemma PopLast(entries: seq<(char, nat)>)
    requires Compressed(entries) && entries != [] && entries[|entries| - 1].1 == 1
    ensures var n := |entries|;
      Compressed(entries[..n - 1]) && Flatten(entries) == Flatten(entries[..n - 1]) + [entries[n - 1].0]
  {
    var n := |entries|;
    assert Repeat(entries[n - 1].0, 1) == [entries[n - 1].0];
  }

  /** The top entry's count, above one, decremented. */
  lemma PopDecrement(entries: seq<(char, nat)>)
    requires Compressed(entries) && entries != [] && entries[|entries| - 1].1 > 1
    ensures var n := |entries|;
      var c := entries[n - 1].0;
      var e := entries[n - 1 := (c, entries[n - 1].1 - 1)];
      Compressed(e) && Flatten(entries) == Flatten(e) + [c]
  {
    var n := |entries|;
    var c, k := entries[n - 1].0, entries[n - 1].1 - 1;
    var e := entries[n - 1 := (c, k)];
    assert e[..n - 1] == entries[..n - 1];
    assert Repeat(c, k + 1) == Repeat(c, k) + [c];
  }

  /** A closing bracket matching the innermost expected one is taken off the expected ones. */
  lemma PopMatch(f: seq<char>, rest: seq<char>, c: char)
    requires IsClose(c) && f == rest + [c]
    ensures Step(c, f) == Some(rest)
  {
    assert f[..|f| - 1] == rest;
  }

  /** `brackets_are_balanced`: the expected closing brackets are kept as (bracket, count)
    * entries; an opening bracket increments the top entry when it expects the same bracket and
    * pushes a new one otherwise; a closing bracket decrements the top, popping it at zero. */
  method BracketsAreBalanced(s: string) returns (balanced: bool)
    ensures balanced == Balanced(s)
  {
    var expected: seq<(char, nat)> := [];
    var i := 0;
    while i < |s|
      invariant i <= |s|
      invariant Compressed(expected)
      invariant Scan(s, []) == Scan(s[i..], Flatten(expected))
    {
      var c := s[i];
      ScanNext(s, i, Flatten(expected));
      if IsOpen(c) {
        expected := ExpectClose(expected, CloseOf(c));
      }
      if IsClose(c) {
        var next := MatchClose(expected, c);
        if next.None? {
          return false;
        }
        expected := next.value;
      }
      i := i + 1;
    }
    FlattenEmpty(expected);
    balanced := expected == [];
  }

  /** An opening bracket: one more of its closing bracket is expected. */
  method ExpectClose(expected: seq<(char, nat)>, close: char) returns (e: seq<(char, nat)>)
    requires Compressed(expected)
    ensures Compressed(e) && Flatten(e) == Flatten(expected) + [close]
  {
    var n := |expected|;
    if n > 0 && expected[n - 1].0 == close {
      PushSame(expected, close);
      e := expected[n - 1 := (close, expected[n - 1].1 + 1)];
    } else {
      PushNew(expected, close);
      e := expected + [(close, 1)];
    }
  }

  /** A closing bracket: `None` unless it is the innermost expected one, which is then taken
    * off. */
  method MatchClose(expected: seq<(char, nat)>, c: char) returns (e: Option<seq<(char, nat)>>)
    requires Compressed(expected) && IsClose(c)
    ensures e.None? <==> Step(c, Flatten(expected)).None?
    ensures e.Some? ==> Compressed(e.value) && Step(c, Flatten(expected)) == Some(Flatten(e.value))
  {
    var n := |expected|;
    FlattenEmpty(expected);
    if n == 0 {
      return None;
    }
    FlattenTop(expected);
    if expected[n - 1].0 != c {
      return None;
    }
    var count := expected[n - 1].1 - 1;
    if count == 0 {
      PopLast(expected);
      PopMatch(Flatten(expected), Flatten(expected[..n - 1]), c);
      e := Some(expected[..n - 1]);
    } else {
      PopDecrement(expected);
      PopMatch(Flatten(expected), Flatten(expected[n - 1 := (c, count)]), c);
      e := Some(expected[n - 1 := (c, count)]);
    }
  }

  /** Scanning from position `i` is one step followed by scanning from `i + 1`. */
  lemma ScanNext(s: string, i: nat, stack: seq<char>)
    requires i < |s|
    ensures Scan(s[i..], stack) == match Step(s[i], stack) case None => None case Some(next) => Scan(s[i + 1..], next)
  {
    assert s[i..][0] == s[i] && s[i..][1..] == s[i + 1..];
  }

  /** Scanning a concatenation scans the parts in turn. */
  lemma {:induction false} ScanAppend(a: string, b: string, stack: seq<char>)
    ensures Scan(a + b, stack) == match Scan(a, stack) case None => None case Some(st) => Scan(b, st)
  {
    if a == [] {
      assert a + b == b;
    } else {
      assert (a + b)[0] == a[0] && (a + b)[1..] == a[1..] + b;
      match Step(a[0], stack)
      case None =>
      case Some(next) => ScanAppend(a[1..], b, next);
    }
  }

  /** Brackets still expected below the current ones are carried along untouched. */
  lemma {:induction false} ScanBelow(s: string, base: seq<char>, stack: seq<char>, result: seq<char>)
    requires Scan(s, stack) == Some(result)
    ensures Scan(s, base + stack) == Some(base + result)
  {
    if s != [] {
      var next :| Step(s[0], stack) == Some(next) && Scan(s[1..], next) == Some(result);
      if IsOpen(s[0]) {
        assert base + stack + [CloseOf(s[0])] == base + next;
      } else if IsClose(s[0]) {
        assert (base + stack)[..|base + stack| - 1] == base + next;
      }
      ScanBelow(s[1..], base, next, result);
    }
  }

  lemma EmptyIsBalanced()
    ensures Balanced("")
  {
  }

  /** Two balanced strings in a row are balanced. */
  lemma Concatenation(a: string, b: string)
    requires Balanced(a) && Balanced(b)
    ensures Balanced(a + b)
  {
    ScanAppend(a, b, []);
  }

  /** A balanced string inside a pair of brackets is balanced. */
  lemma Nesting(open: char, s: string)
    requires IsOpen(open) && Balanced(s)
    ensures Balanced([open] + s + [CloseOf(open)])
  {
    var close := CloseOf(open);
    var empty: seq<char> := [];
    assert [open][1..] == empty;
    assert empty + [close] == [close];
    assert Step(open, empty) == Some([close]);
    assert Scan([open], []) == Scan([], [close]);
    ScanBelow(s, [close], [], []);
    assert [close] + [] == [close];
    ScanAppend([open], s, []);
    ScanAppend([open] + s, [close], []);
  }

  /** A closing bracket with nothing open, or of the wrong type, is unbalanced. */
  lemma Unopened(c: char, s: string)
    requires IsClose(c)
    ensures !Balanced([c] + s)
  {
    assert ([c] + s)[0] == c;
  }

  /** A bracket left open is unbalanced. */
  lemma LeftOpen(open: char)
    requires IsOpen(open)
    ensures !Balanced([open])
  {
    var empty: seq<char> := [];
    assert [open][1..] == empty;
    assert Step(open, empty) == Some(empty + [CloseOf(open)]);
    assert empty + [CloseOf(open)] == [CloseOf(open)];
    assert Scan([open], []) == Scan([], [CloseOf(open)]);
  }
}
