/** Magazine cutout: can a note be assembled from the words of a magazine? */
module MagazineCutout {

  /** `count_words`: how often each word occurs, built one word at a time. */
  method CountWords(text: seq<string>) returns (words: map<string, nat>)
    ensures forall w :: w in words <==> w in text
    ensures forall w <- words :: words[w] == multiset(text)[w]
  {
    words := map[];
    var i := 0;
    while i < |text|
      invariant i <= |text|
      invariant forall w :: w in words <==> w in text[..i]
      invariant forall w <- words :: words[w] == multiset(text[..i])[w]
    {
      var w := text[i];
      assert text[..i + 1] == text[..i] + [w];
      var count := if w in words then words[w] else 0;
      words := words[w := count + 1];
      i := i + 1;
    }
    assert text[..i] == text;
  }

  /** `can_construct_note`: every note word occurs at most as often in the magazine. */
  method CanConstructNote(magazine: seq<string>, note: seq<string>) returns (ok: bool)
    ensures ok <==> multiset(note) <= multiset(magazine)
  {
    var magazineWords := CountWords(magazine);
    var noteWords := CountWords(note);
    ok := forall w <- noteWords :: noteWords[w] <= (if w in magazineWords then magazineWords[w] else 0);
    if ok {
      forall w ensures multiset(note)[w] <= multiset(magazine)[w] {
        if w in note {
          assert w in noteWords;
        }
      }
    }
  }
}
