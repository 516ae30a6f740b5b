/** Pangram: a sentence using every letter a–z at least once, ignoring ASCII case. */
module Pangram {
  import opened Ascii

  /** The letters a–z. */
  function Abc(): set<char> {
    set l: char | IsLower(l)
  }

  /** Every letter a–z is, lowercased, some character of the sentence. */
  predicate IsPangram(sentence: string) {
    forall l :: IsLower(l) ==> exists i :: 0 <= i < |sentence| && ToLower(sentence[i]) == l
  }

  /** The lowercased characters of a sentence, as a set. */
  function Seen(s: string): set<char> {
    set i | 0 <= i < |s| :: ToLower(s[i])
  }

  /** `is_pangram`: the letters still missing are removed one character at a time, returning
    * true as soon as none is missing. */
  method IsPangramScan(sentence: string) returns (pangram: bool)
    ensures pangram == IsPangram(sentence)
  {
    var missing := Abc();
    assert 'a' in missing;
    var i := 0;
    while i < |sentence|
      invariant i <= |sentence|
      invariant missing == Abc() - Seen(sentence[..i])
      invariant missing != {}
    {
      var c := ToLower(sentence[i]);
      assert Seen(sentence[..i + 1]) == Seen(sentence[..i]) + {c} by {
        assert forall j :: 0 <= j < i ==> sentence[..i + 1][j] == sentence[..i][j];
      }
      missing := missing - {c};
      i := i + 1;
      if missing == {} {
        NoneMissing(sentence, i);
        return true;
      }
    }
    assert sentence[..i] == sentence;
    SomeMissing(sentence, missing);
    return false;
  }

  /** Membership in the seen set of a prefix. */
  lemma SeenMeaning(sentence: string, n: nat)
    requires n <= |sentence|
    ensures forall l :: l in Seen(sentence[..n]) <==> exists i :: 0 <= i < n && ToLower(sentence[i]) == l
  {
    forall l ensures l in Seen(sentence[..n]) <==> exists i :: 0 <= i < n && ToLower(sentence[i]) == l {
      if l in Seen(sentence[..n]) {
        var i :| 0 <= i < n && ToLower(sentence[..n][i]) == l;
        assert ToLower(sentence[i]) == l;
      }
      if i :| 0 <= i < n && ToLower(sentence[i]) == l {
        assert sentence[..n][i] == sentence[i];
      }
    }
  }

  lemma NoneMissing(sentence: string, n: nat)
    requires n <= |sentence|
    requires Abc() - Seen(sentence[..n]) == {}
    ensures IsPangram(sentence)
  {
    SeenMeaning(sentence, n);
    forall l | IsLower(l) ensures exists i :: 0 <= i < |sentence| && ToLower(sentence[i]) == l {
      assert l in Abc();
      assert l !in Abc() - Seen(sentence[..n]);
    }
  }

  lemma SomeMissing(sentence: string, missing: set<char>)
    requires missing == Abc() - Seen(sentence) && missing != {}
    ensures !IsPangram(sentence)
  {
    var l :| l in missing;
    assert IsLower(l) && l !in Seen(sentence);
    assert sentence[..|sentence|] == sentence;
    SeenMeaning(sentence, |sentence|);
    assert !exists i :: 0 <= i < |sentence| && ToLower(sentence[i]) == l;
  }

  /** Once every letter has been seen, whatever follows leaves the sentence a pangram. */
  lemma ExtendPangram(s: string, t: string)
    requires IsPangram(s)
    ensures IsPangram(s + t)
  {
    forall l | IsLower(l) ensures exists i :: 0 <= i < |s + t| && ToLower((s + t)[i]) == l {
      var i :| 0 <= i < |s| && ToLower(s[i]) == l;
      assert (s + t)[i] == s[i];
    }
  }

  /** The empty sentence is no pangram. */
  lemma EmptyIsNot()
    ensures !IsPangram("")
  {
    assert IsLower('a');
  }
}
