/** Anagram: the candidates made of exactly the word's letters, ignoring case, other than the
  * word itself. */
module Anagram {
  import opened Ascii

  /** A letter count, 0 for letters without an entry. */
  function Count(letters: map<char, nat>, c: char): nat {
    if c in letters then letters[c] else 0
  }

  /** `count_letters`: how often each character occurs, built one character at a time. */
  method CountLetters(word: string) returns (letters: map<char, nat>)
    ensures forall c :: c in letters <==> c in word
    ensures forall c :: Count(letters, c) == multiset(word)[c]
  {
    letters := map[];
    var i := 0;
    while i < |word|
      invariant i <= |word|
      invariant forall c :: c in letters <==> c in word[..i]
      invariant forall c :: Count(letters, c) == multiset(word[..i])[c]
    {
      var c := word[i];
      assert word[..i + 1] == word[..i] + [c];
      letters := letters[c := Count(letters, c) + 1];
      i := i + 1;
    }
    assert word[..i] == word;
  }

  /** `is_anagram`: the candidate's characters are taken off a copy of the counts; a character
    * without a count left fails, and every count must end at zero. */
  method IsAnagram(letters: map<char, nat>, anagram: string) returns (ok: bool)
    ensures ok <==> forall c :: Count(letters, c) == multiset(anagram)[c]
  {
    var left := letters;
    var i := 0;
    while i < |anagram|
      invariant i <= |anagram|
      invariant left.Keys == letters.Keys
      invariant forall c :: Count(left, c) + multiset(anagram[..i])[c] == Count(letters, c)
    {
      var c := anagram[i];
      assert anagram[..i + 1] == anagram[..i] + [c];
      if c in left {
        if left[c] == 0 {
          assert multiset(anagram[..i + 1])[c] > Count(letters, c);
          MultisetPrefix(anagram, i + 1, c);
          return false;
        } else {
          left := left[c := left[c] - 1];
        }
      } else {
        MultisetPrefix(anagram, i + 1, c);
        return false;
      }
      i := i + 1;
    }
    assert anagram[..i] == anagram;
    ok := forall c <- left :: left[c] == 0;
    if ok {
      forall c ensures Count(letters, c) == multiset(anagram)[c] {
        assert Count(left, c) == 0;
      }
    } else {
      var c :| c in left && left[c] != 0;
      assert Count(letters, c) != multiset(anagram)[c];
    }
  }

  lemma MultisetPrefix(s: string, n: nat, c: char)
    requires n <= |s|
    ensures multiset(s[..n])[c] <= multiset(s)[c]
  {
    assert s == s[..n] + s[n..];
  }

  /** A lowercase candidate that differs from the lowercase word but has the same letters. */
  predicate Kept(lowerWord: string, a: string) {
    Lower(a) != lowerWord && multiset(Lower(a)) == multiset(lowerWord)
  }

  lemma SameCounts(letters: map<char, nat>, a: string, b: string)
    requires forall c :: Count(letters, c) == multiset(b)[c]
    ensures (forall c :: Count(letters, c) == multiset(a)[c]) <==> multiset(a) == multiset(b)
  {
    if forall c :: Count(letters, c) == multiset(a)[c] {
      assert forall c :: multiset(a)[c] == multiset(b)[c];
    }
  }

  lemma FilterAppend(lowerWord: string, s: seq<string>, a: string)
    ensures (set x <- s + [a] | Kept(lowerWord, x))
         == (set x <- s | Kept(lowerWord, x)) + (if Kept(lowerWord, a) then {a} else {})
  {
  }

  /** `anagrams_for`: the candidates whose lowercase form differs from the lowercase word but
    * has the same letters with the same counts. */
  method AnagramsFor(word: string, candidates: seq<string>) returns (r: set<string>)
    ensures r == set a <- candidates | Kept(Lower(word), a)
  {
    var lowerWord := Lower(word);
    var letters := CountLetters(lowerWord);
    r := {};
    var i := 0;
    while i < |candidates|
      invariant i <= |candidates|
      invariant r == set a <- candidates[..i] | Kept(lowerWord, a)
    {
      var a := candidates[i];
      assert candidates[..i + 1] == candidates[..i] + [a];
      FilterAppend(lowerWord, candidates[..i], a);
      var lowerA := Lower(a);
      var keep := false;
      if lowerA != lowerWord {
        keep := IsAnagram(letters, lowerA);
        SameCounts(letters, lowerA, lowerWord);
      }
      if keep {
        r := r + {a};
      }
      i := i + 1;
    }
    assert candidates[..i] == candidates;
  }
}
