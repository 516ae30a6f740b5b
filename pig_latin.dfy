/** Pig Latin: each word is rotated at its first vowel sound and gets "ay" appended. */
module PigLatin {
  import opened Ascii

  predicate IsVowel(c: char) {
    c in "aeiouAEIOU"
  }

  predicate IsY(c: char) {
    c == 'y'
  }

  predicate StartsWith(s: string, prefix: string) {
    |prefix| <= |s| && s[..|prefix|] == prefix
  }

  /** `str::find` with a character predicate: the first matching index, or `|s|` when none matches. */
  function FindFirst(s: string, p: char -> bool): (k: nat)
    ensures k <= |s|
    ensures forall j :: 0 <= j < k ==> !p(s[j])
    ensures k < |s| ==> p(s[k])
  {
    if s == [] then 0 else if p(s[0]) then 0 else 1 + FindFirst(s[1..], p)
  }

  /** `translate_word`. */
  function TranslateWord(word: string): string {
    if Special(word) then word + "ay"
    else
      var v := FindFirst(word, IsVowel);
      var consonant, rest := word[..v], word[v..];
      var inCluster := FindFirst(consonant, IsY);
      if inCluster < |consonant| && inCluster > 0 then
        var y := FindFirst(word, IsY);
        word[y..] + word[..y] + "ay"
      else if |consonant| == |word| then
        word + "ay"
      else if consonant[|consonant| - 1] == 'q' && rest[0] == 'u' then
        rest[1..] + consonant + "u" + "ay"
      else
        rest + consonant + "ay"
  }

  predicate Special(word: string) {
    (word != [] && IsVowel(word[0])) || StartsWith(word, "xr") || StartsWith(word, "yt")
  }

  /** A word starting with a vowel sound only gets "ay". */
  lemma TranslateVowelStart(word: string)
    requires Special(word)
    ensures TranslateWord(word) == word + "ay"
  {
  }

  /** A 'y' after the first letter but before the first vowel starts the rotated word. */
  lemma TranslateYRule(word: string)
    requires !Special(word)
    requires 0 < FindFirst(word, IsY) < FindFirst(word, IsVowel)
    ensures var y := FindFirst(word, IsY);
      TranslateWord(word) == word[y..] + word[..y] + "ay"
  {
    var v := FindFirst(word, IsVowel);
    var y := FindFirst(word, IsY);
    assert FindFirst(word[..v], IsY) == y by {
      ClusterFind(word, v);
    }
  }

  /** Without a vowel (and without a 'y' after the first letter) the word only gets "ay". */
  lemma TranslateNoVowel(word: string)
    requires !Special(word)
    requires !(0 < FindFirst(word, IsY) < FindFirst(word, IsVowel))
    requires FindFirst(word, IsVowel) == |word|
    ensures TranslateWord(word) == word + "ay"
  {
    var v := FindFirst(word, IsVowel);
    ClusterFind(word, v);
  }

  /** A cluster ending in 'q' takes the following 'u' along. */
  lemma TranslateQu(word: string)
    requires !Special(word)
    requires !(0 < FindFirst(word, IsY) < FindFirst(word, IsVowel))
    requires FindFirst(word, IsVowel) < |word|
    requires var v := FindFirst(word, IsVowel); v > 0 && word[v - 1] == 'q' && word[v] == 'u'
    ensures var v := FindFirst(word, IsVowel);
      TranslateWord(word) == word[v + 1..] + word[..v + 1] + "ay"
  {
    var v := FindFirst(word, IsVowel);
    ClusterFind(word, v);
    assert TranslateWord(word) == word[v..][1..] + word[..v] + "u" + "ay";
    MoveU(word, v);
  }

  lemma MoveU(word: string, v: nat)
    requires v < |word| && word[v] == 'u'
    ensures word[v..][1..] + word[..v] + "u" + "ay" == word[v + 1..] + word[..v + 1] + "ay"
  {
    assert word[v..][1..] == word[v + 1..];
    assert word[..v] + "u" == word[..v + 1];
  }

  /** Otherwise the consonant cluster before the first vowel moves to the end. */
  lemma TranslateCluster(word: string)
    requires !Special(word)
    requires !(0 < FindFirst(word, IsY) < FindFirst(word, IsVowel))
    requires FindFirst(word, IsVowel) < |word|
    requires var v := FindFirst(word, IsVowel); !(v > 0 && word[v - 1] == 'q' && word[v] == 'u')
    ensures var v := FindFirst(word, IsVowel);
      TranslateWord(word) == word[v..] + word[..v] + "ay"
  {
    var v := FindFirst(word, IsVowel);
    ClusterFind(word, v);
  }

  /** The first 'y' of a prefix is the first 'y' of the word, when it lies inside the prefix. */
  lemma ClusterFind(word: string, v: nat)
    requires v <= |word|
    ensures var y := FindFirst(word, IsY);
      FindFirst(word[..v], IsY) == if y < v then y else v
  {
    var y := FindFirst(word, IsY);
    var inCluster := FindFirst(word[..v], IsY);
    if y < v {
      assert word[..v][y] == word[y];
    } else {
      assert forall j :: 0 <= j < v ==> word[..v][j] == word[j];
    }
  }

  /** Every translation is a rotation of the word followed by "ay", so it is two characters
    * longer than the word. */
  lemma TranslateRotation(word: string) returns (k: nat)
    ensures k <= |word| && TranslateWord(word) == word[k..] + word[..k] + "ay"
  {
    var v := FindFirst(word, IsVowel);
    var y := FindFirst(word, IsY);
    if Special(word) {
      k := 0;
      TranslateVowelStart(word);
      NoRotation(word);
    } else if 0 < y < v {
      k := y;
      TranslateYRule(word);
    } else if v == |word| {
      k := 0;
      TranslateNoVowel(word);
      NoRotation(word);
    } else if v > 0 && word[v - 1] == 'q' && word[v] == 'u' {
      k := v + 1;
      TranslateQu(word);
    } else {
      k := v;
      TranslateCluster(word);
    }
  }

  lemma NoRotation(word: string)
    ensures word[0..] + word[..0] + "ay" == word + "ay"
  {
    assert word[0..] + word[..0] == word;
  }

  /** Every character of a translation is a character of the word or of "ay". */
  lemma TranslatedChars(word: string)
    ensures forall c <- TranslateWord(word) :: c in word || c == 'a' || c == 'y'
  {
    var k := TranslateRotation(word);
    assert forall c <- word[k..] :: c in word;
    assert forall c <- word[..k] :: c in word;
  }

  function MapTranslate(words: seq<string>): (r: seq<string>)
    ensures |r| == |words|
    ensures forall i :: 0 <= i < |words| ==> r[i] == TranslateWord(words[i])
  {
    if words == [] then [] else [TranslateWord(words[0])] + MapTranslate(words[1..])
  }

  /** `translate`: words split at whitespace, translated one by one, joined by single spaces. */
  function Translate(input: string): string {
    Join(MapTranslate(Words(input, IsWhitespace)), " ")
  }

  /** Splitting a translation at spaces gives the translated words, one per input word. */
  lemma TranslateWordByWord(input: string)
    requires Words(input, IsWhitespace) != []
    ensures Split(Translate(input), c => c == ' ') == MapTranslate(Words(input, IsWhitespace))
  {
    var words := Words(input, IsWhitespace);
    var out := MapTranslate(words);
    forall i | 0 <= i < |out| ensures forall c <- out[i] :: c != ' ' {
      TranslatedChars(words[i]);
      assert forall c <- words[i] :: !IsWhitespace(c);
    }
    SplitJoin(out, ' ', c => c == ' ');
  }
}
