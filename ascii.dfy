/**
 * ASCII character classes and string splitting shared by the exercises.
 * Rust's Unicode-aware `is_whitespace`, `to_lowercase` and friends are
 * modelled on the ASCII range only.
 */
module Ascii {

  /** `char::is_whitespace` restricted to ASCII (it includes vertical tab). */
  predicate IsWhitespace(c: char) {
    c == ' ' || c == '\t' || c == '\n' || c == '\U{0B}' || c == '\U{0C}' || c == '\r'
  }

  /** `char::is_ascii_whitespace`, used by `split_ascii_whitespace` (no vertical tab). */
  predicate IsAsciiWhitespace(c: char) {
    c == ' ' || c == '\t' || c == '\n' || c == '\U{0C}' || c == '\r'
  }

  predicate IsDigit(c: char) { '0' <= c <= '9' }
  predicate IsUpper(c: char) { 'A' <= c <= 'Z' }
  predicate IsLower(c: char) { 'a' <= c <= 'z' }
  predicate IsAlpha(c: char) { IsUpper(c) || IsLower(c) }

  function DigitValue(c: char): (d: nat)
    requires IsDigit(c)
    ensures d < 10
  {
    c as int - '0' as int
  }

  function DigitChar(d: nat): (c: char)
    requires d < 10
    ensures IsDigit(c) && DigitValue(c) == d
  {
    ('0' as int + d) as char
  }

  function ToLower(c: char): (r: char)
    ensures IsUpper(c) ==> IsLower(r)
    ensures !IsUpper(c) ==> r == c
  {
    if IsUpper(c) then (c as int + 32) as char else c
  }

  function ToUpper(c: char): (r: char)
    ensures IsLower(c) ==> IsUpper(r)
    ensures !IsLower(c) ==> r == c
  {
    if IsLower(c) then (c as int - 32) as char else c
  }

  /** `str::to_lowercase` on ASCII: character by character. */
  function Lower(s: string): (r: string)
    ensures |r| == |s|
    ensures forall i :: 0 <= i < |s| ==> r[i] == ToLower(s[i])
  {
    if s == [] then [] else [ToLower(s[0])] + Lower(s[1..])
  }

  /**
   * `str::split(sep)`: the pieces between separators, empty pieces
   * included, so a string with k separators gives k + 1 pieces.
   */
  function Split(s: string, isSep: char -> bool): (pieces: seq<string>)
    ensures |pieces| >= 1
    ensures forall p <- pieces, c <- p :: !isSep(c)
    decreases |s|
  {
    SplitFrom(s, isSep, [])
  }

  function SplitFrom(s: string, isSep: char -> bool, cur: string): (pieces: seq<string>)
    requires forall c <- cur :: !isSep(c)
    ensures |pieces| >= 1
    ensures forall p <- pieces, c <- p :: !isSep(c)
    decreases |s|
  {
    if s == [] then [cur]
    else if isSep(s[0]) then [cur] + SplitFrom(s[1..], isSep, [])
    else SplitFrom(s[1..], isSep, cur + [s[0]])
  }

  /** The non-empty pieces, as `split(..).filter(|w| !w.is_empty())` and `split_whitespace` give them. */
  function NonEmpty(pieces: seq<string>): (r: seq<string>)
    ensures forall w <- r :: w != [] && w in pieces
  {
    if pieces == [] then []
    else if pieces[0] == [] then NonEmpty(pieces[1..])
    else [pieces[0]] + NonEmpty(pieces[1..])
  }

  /** `split_whitespace` with the separator class given. */
  function Words(s: string, isSep: char -> bool): (ws: seq<string>)
    ensures forall w <- ws :: w != [] && forall c <- w :: !isSep(c)
  {
    NonEmpty(Split(s, isSep))
  }

  function Concat(ss: seq<string>): string {
    if ss == [] then [] else ss[0] + Concat(ss[1..])
  }

  /** The characters of `s` that are not separators, in order. */
  function Keep(s: string, isSep: char -> bool): string {
    if s == [] then [] else (if isSep(s[0]) then [] else [s[0]]) + Keep(s[1..], isSep)
  }

  lemma ConcatAppend(a: seq<string>, b: seq<string>)
    ensures Concat(a + b) == Concat(a) + Concat(b)
  {
    if a == [] {
      assert a + b == b;
    } else {
      assert (a + b)[1..] == a[1..] + b;
      ConcatAppend(a[1..], b);
    }
  }

  lemma {:induction false} ConcatNonEmpty(pieces: seq<string>)
    ensures Concat(NonEmpty(pieces)) == Concat(pieces)
  {
    if pieces != [] {
      ConcatNonEmpty(pieces[1..]);
    }
  }

  lemma {:induction false} SplitFromKeeps(s: string, isSep: char -> bool, cur: string)
    requires forall c <- cur :: !isSep(c)
    ensures Concat(SplitFrom(s, isSep, cur)) == cur + Keep(s, isSep)
    decreases |s|
  {
    if s == [] {
      assert Concat([cur]) == cur + Concat([]);
    } else if isSep(s[0]) {
      var rest := SplitFrom(s[1..], isSep, []);
      SplitFromKeeps(s[1..], isSep, []);
      assert ([cur] + rest)[1..] == rest;
      assert Concat([cur] + rest) == cur + Concat(rest);
      assert Keep(s, isSep) == Keep(s[1..], isSep);
    } else {
      SplitFromKeeps(s[1..], isSep, cur + [s[0]]);
      assert Keep(s, isSep) == [s[0]] + Keep(s[1..], isSep);
      assert (cur + [s[0]]) + Keep(s[1..], isSep) == cur + ([s[0]] + Keep(s[1..], isSep));
    }
  }

  /**
   * Splitting loses exactly the separators: the words, concatenated, are
   * the non-separator characters of the input in order.
   */
  lemma WordsKeepEverythingElse(s: string, isSep: char -> bool)
    ensures Concat(Words(s, isSep)) == Keep(s, isSep)
  {
    ConcatNonEmpty(Split(s, isSep));
    SplitFromKeeps(s, isSep, []);
  }

  /** Joins with a separator string, as `join(sep)` on a vector of strings. */
  function Join(ss: seq<string>, sep: string): (r: string)
    ensures ss == [] ==> r == []
    ensures |ss| == 1 ==> r == ss[0]
  {
    if ss == [] then [] else if |ss| == 1 then ss[0] else ss[0] + sep + Join(ss[1..], sep)
  }

  lemma {:induction false} SplitFromWord(w: string, rest: string, isSep: char -> bool, cur: string)
    requires forall c <- cur :: !isSep(c)
    requires forall c <- w :: !isSep(c)
    ensures SplitFrom(w + rest, isSep, cur) == SplitFrom(rest, isSep, cur + w)
    decreases |w|
  {
    if w == [] {
      assert w + rest == rest && cur + w == cur;
    } else {
      assert (w + rest)[0] == w[0] && (w + rest)[1..] == w[1..] + rest;
      assert w[0] in w;
      assert forall c <- w[1..] :: c in w;
      SplitFromWord(w[1..], rest, isSep, cur + [w[0]]);
      assert cur + [w[0]] + w[1..] == cur + w;
    }
  }

  /**
   * Splitting a join at a separator gives the pieces back, when no piece
   * contains a separator.
   */
  lemma {:induction false} SplitJoin(ss: seq<string>, sep: char, isSep: char -> bool)
    requires ss != [] && isSep(sep)
    requires forall p <- ss, c <- p :: !isSep(c)
    ensures Split(Join(ss, [sep]), isSep) == ss
  {
    SplitFromJoin(ss, sep, isSep, []);
    assert [] + ss[0] == ss[0];
    assert [ss[0]] + ss[1..] == ss;
  }

  lemma {:induction false} SplitFromJoin(ss: seq<string>, sep: char, isSep: char -> bool, cur: string)
    requires ss != [] && isSep(sep)
    requires forall p <- ss, c <- p :: !isSep(c)
    requires forall c <- cur :: !isSep(c)
    ensures SplitFrom(Join(ss, [sep]), isSep, cur) == [cur + ss[0]] + ss[1..]
    decreases |ss|
  {
    if |ss| == 1 {
      SplitFromWord(ss[0], [], isSep, cur);
      assert ss[0] + [] == ss[0];
    } else {
      var rest := Join(ss[1..], [sep]);
      assert Join(ss, [sep]) == ss[0] + ([sep] + rest);
      SplitFromWord(ss[0], [sep] + rest, isSep, cur);
      assert ([sep] + rest)[0] == sep && ([sep] + rest)[1..] == rest;
      SplitFromJoin(ss[1..], sep, isSep, []);
      assert [] + ss[1] == ss[1];
      assert [ss[1]] + ss[2..] == ss[1..];
    }
  }
}
