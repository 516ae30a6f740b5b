/** Isogram: no character repeats, ignoring case, whitespace and hyphens. */
module Isogram {
  import opened Ascii

  predicate Counted(c: char) {
    !IsWhitespace(c) && c != '-'
  }

  /** The lowercased characters that take part in the check, in order. */
  function Letters(s: string): (r: string)
    ensures |r| <= |s|
  {
    if s == [] then []
    else Letters(s[..|s| - 1]) + (if Counted(s[|s| - 1]) then [ToLower(s[|s| - 1])] else [])
  }

  predicate Distinct(t: string) {
    forall i, j :: 0 <= i < j < |t| ==> t[i] != t[j]
  }

  predicate IsIsogram(s: string) {
    Distinct(Letters(s))
  }

  lemma {:induction false} LettersPrefix(s: string, n: nat)
    requires n <= |s|
    ensures Letters(s[..n]) <= Letters(s)
    decreases |s| - n
  {
    if n < |s| {
      LettersPrefix(s, n + 1);
      assert s[..n + 1][..n] == s[..n];
    } else {
      assert s[..n] == s;
    }
  }

  /** `check`: characters are inserted into a set one at a time, returning false at the first
    * one already present. */
  method Check(candidate: string) returns (isogram: bool)
    ensures isogram == IsIsogram(candidate)
  {
    var chars: set<char> := {};
    var i := 0;
    while i < |candidate|
      invariant i <= |candidate|
      invariant Distinct(Letters(candidate[..i]))
      invariant chars == set c <- Letters(candidate[..i])
    {
      var c := candidate[i];
      LettersStep(candidate, i);
      if Counted(c) {
        var lower := ToLower(c);
        if lower in chars {
          Repeated(candidate, i);
          return false;
        }
        chars := chars + {lower};
      }
      i := i + 1;
    }
    assert candidate[..i] == candidate;
    return true;
  }

  lemma LettersStep(s: string, i: nat)
    requires i < |s|
    ensures Letters(s[..i + 1]) == Letters(s[..i]) + (if Counted(s[i]) then [ToLower(s[i])] else [])
  {
    assert s[..i + 1][..i] == s[..i];
  }

  /** A counted character whose lowercase form was seen before makes the string no isogram. */
  lemma Repeated(s: string, i: nat)
    requires i < |s| && Counted(s[i]) && ToLower(s[i]) in Letters(s[..i])
    ensures !IsIsogram(s)
  {
    var t := Letters(s[..i + 1]);
    var k :| 0 <= k < |Letters(s[..i])| && Letters(s[..i])[k] == ToLower(s[i]);
    LettersStep(s, i);
    assert t[k] == t[|t| - 1];
    LettersPrefix(s, i + 1);
    assert Letters(s)[k] == Letters(s)[|t| - 1];
  }

  /** Whitespace and hyphens are ignored wherever they appear. */
  lemma {:induction false} IgnoredChars(a: string, c: char, b: string)
    requires !Counted(c)
    ensures Letters(a + [c] + b) == Letters(a + b)
    decreases |b|
  {
    if b == [] {
      assert (a + [c] + b)[..|a|] == a;
      assert a + b == a;
    } else {
      var b' := b[..|b| - 1];
      assert (a + [c] + b)[..|a + [c] + b| - 1] == a + [c] + b';
      assert (a + b)[..|a + b| - 1] == a + b';
      IgnoredChars(a, c, b');
    }
  }

  /** Case is ignored: a string and its lowercase version agree. */
  lemma {:induction false} CaseIgnored(s: string)
    ensures Letters(Lower(s)) == Letters(s)
  {
    if s != [] {
      var n, t := |s| - 1, Lower(s);
      assert t[..n] == Lower(s[..n]) && t[n] == ToLower(s[n]);
      CaseIgnored(s[..n]);
      LowerTwice(s[n]);
      assert Letters(t) == Letters(t[..n]) + (if Counted(t[n]) then [ToLower(t[n])] else []);
    }
  }

  lemma LowerTwice(c: char)
    ensures ToLower(ToLower(c)) == ToLower(c) && Counted(ToLower(c)) == Counted(c)
  {
  }

  lemma EmptyIsIsogram()
    ensures IsIsogram("")
  {
  }
}
