/** High scores: a list of game scores with its latest, best and top three. */
module HighScores {
  import opened Wrappers

  /** The scores in the order they were added (`u32` values). */
  datatype HighScores = HighScores(scores: seq<nat>)

  /** `latest`: the last score. */
  function Latest(h: HighScores): (r: Option<nat>)
    ensures r.None? <==> h.scores == []
    ensures r.Some? ==> r.value == h.scores[|h.scores| - 1]
  {
    if h.scores == [] then None else Some(h.scores[|h.scores| - 1])
  }

  function Max(s: seq<nat>): (m: nat)
    requires s != []
    ensures m in s
    ensures forall x <- s :: x <= m
  {
    if |s| == 1 then s[0]
    else
      var m := Max(s[1..]);
      assert forall x <- s :: x == s[0] || x in s[1..];
      if s[0] >= m then s[0] else m
  }

  /** `personal_best`: the largest score. */
  function PersonalBest(h: HighScores): (r: Option<nat>)
    ensures r.None? <==> h.scores == []
    ensures r.Some? ==> r.value in h.scores && forall x <- h.scores :: x <= r.value
  {
    if h.scores == [] then None else Some(Max(h.scores))
  }

  predicate SortedDesc(s: seq<nat>) {
    forall i, j :: 0 <= i < j < |s| ==> s[i] >= s[j]
  }

  function Insert(x: nat, s: seq<nat>): (r: seq<nat>)
    requires SortedDesc(s)
    ensures |r| == |s| + 1
    ensures SortedDesc(r)
    ensures multiset(r) == multiset(s) + multiset{x}
  {
    if s == [] || x >= s[0] then
      ConsSorted(x, s);
      [x] + s
    else
      var rest := Insert(x, s[1..]);
      InsertStep(x, s, rest);
      [s[0]] + rest
  }

  /** A score no smaller than every score of a sorted list can be put in front of it. */
  lemma ConsSorted(x: nat, s: seq<nat>)
    requires SortedDesc(s)
    requires s == [] || x >= s[0]
    ensures SortedDesc([x] + s)
  {
    var r := [x] + s;
    forall i, j | 0 <= i < j < |r| ensures r[i] >= r[j] {
      if i == 0 && j > 1 {
        assert s[0] >= s[j - 1];
      }
    }
  }

  /** The recursive step of `Insert`: the head of `s` stays in front of the insertion into
    * the tail. */
  lemma InsertStep(x: nat, s: seq<nat>, rest: seq<nat>)
    requires SortedDesc(s) && s != [] && x < s[0]
    requires SortedDesc(rest) && multiset(rest) == multiset(s[1..]) + multiset{x}
    ensures SortedDesc([s[0]] + rest)
    ensures multiset([s[0]] + rest) == multiset(s) + multiset{x}
  {
    assert s == [s[0]] + s[1..];
    forall k | 0 <= k < |rest| ensures rest[k] <= s[0] {
      assert rest[k] in multiset(rest);
      if rest[k] != x {
        assert rest[k] in multiset(s[1..]);
        var j :| 0 <= j < |s[1..]| && s[1..][j] == rest[k];
        assert s[j + 1] == rest[k];
      }
    }
    ConsSorted(s[0], rest);
  }

  /** Sorting in descending order (`sort_unstable_by(|a, b| b.cmp(a))`). */
  function SortDesc(s: seq<nat>): (r: seq<nat>)
    ensures |r| == |s|
    ensures SortedDesc(r)
    ensures multiset(r) == multiset(s)
  {
    if s == [] then []
    else
      assert s == [s[0]] + s[1..];
      Insert(s[0], SortDesc(s[1..]))
  }

  /** `topn`: the first `n` scores sorted in descending order, after which every later score
    * larger than the smallest kept one replaces it and the list is sorted again. */
  method Topn(h: HighScores, n: nat) returns (top: seq<nat>)
    ensures |top| == if n < |h.scores| then n else |h.scores|
    ensures SortedDesc(top)
    ensures multiset(top) <= multiset(h.scores)
    ensures forall x <- multiset(h.scores) - multiset(top), y <- top :: x <= y
  {
    var scores := h.scores;
    if n == 0 || |scores| == 0 {
      return [];
    }
    var k := if n < |scores| then n else |scores|;
    top := SortDesc(scores[..k]);
    top := KeepLargest(scores, k, top);
  }

  /** The loop of `topn`: every score after the first `k` that is larger than the smallest
    * kept one replaces it, and the kept scores are sorted again. */
  method KeepLargest(scores: seq<nat>, k: nat, init: seq<nat>) returns (top: seq<nat>)
    requires 0 < k <= |scores|
    requires |init| == k && SortedDesc(init) && multiset(init) == multiset(scores[..k])
    ensures |top| == k
    ensures SortedDesc(top)
    ensures multiset(top) <= multiset(scores)
    ensures forall x <- multiset(scores) - multiset(top), y <- top :: x <= y
  {
    top := init;
    ghost var excluded: seq<nat> := [];
    var i := k;
    while i < |scores|
      invariant k <= i <= |scores|
      invariant |top| == k
      invariant Kept(top, excluded, scores[..i])
    {
      var score := scores[i];
      SeenNext(scores, i);
      if score > top[k - 1] {
        var sorted := SortDesc(top[k - 1 := score]);
        ReplaceStep(top, excluded, scores[..i], score, sorted);
        excluded := excluded + [top[k - 1]];
        top := sorted;
      } else {
        KeepStep(top, excluded, scores[..i], score);
        excluded := excluded + [score];
      }
      i := i + 1;
    }
    assert scores[..i] == scores;
    TopOfAll(scores, top, excluded);
  }

  /** The loop invariant of `topn`: `top` is sorted, `top` and the excluded scores together
    * are the scores seen so far, and no excluded score exceeds the smallest kept one. */
  ghost predicate Kept(top: seq<nat>, excluded: seq<nat>, seen: seq<nat>) {
    && top != []
    && SortedDesc(top)
    && multiset(top) + multiset(excluded) == multiset(seen)
    && forall x <- excluded :: x <= top[|top| - 1]
  }

  /** The loop step that replaces the smallest kept score by a larger one and sorts again. */
  lemma ReplaceStep(top: seq<nat>, excluded: seq<nat>, seen: seq<nat>, score: nat, sorted: seq<nat>)
    requires Kept(top, excluded, seen)
    requires score > top[|top| - 1]
    requires SortedDesc(sorted) && multiset(sorted) == multiset(top[|top| - 1 := score])
    ensures |sorted| == |top|
    ensures Kept(sorted, excluded + [top[|top| - 1]], seen + [score])
  {
    ReplaceLast(top, score, sorted);
  }

  /** The loop step that excludes a score no larger than the smallest kept one. */
  lemma KeepStep(top: seq<nat>, excluded: seq<nat>, seen: seq<nat>, score: nat)
    requires Kept(top, excluded, seen)
    requires score <= top[|top| - 1]
    ensures Kept(top, excluded + [score], seen + [score])
  {
  }

  lemma SeenNext(scores: seq<nat>, i: nat)
    requires i < |scores|
    ensures scores[..i + 1] == scores[..i] + [scores[i]]
  {
  }

  /** Kept and excluded scores together make up all scores, and no excluded score exceeds the
    * smallest kept one. */
  lemma TopOfAll(scores: seq<nat>, top: seq<nat>, excluded: seq<nat>)
    requires Kept(top, excluded, scores)
    ensures multiset(top) <= multiset(scores)
    ensures forall x <- multiset(scores) - multiset(top), y <- top :: x <= y
  {
    assert multiset(scores) - multiset(top) == multiset(excluded);
    forall x <- multiset(scores) - multiset(top), y <- top ensures x <= y {
      assert x in excluded;
      LastIsSmallest(top, y);
    }
  }

  lemma LastIsSmallest(top: seq<nat>, y: nat)
    requires SortedDesc(top) && y in top
    ensures y >= top[|top| - 1]
  {
  }

  /** Replacing the smallest kept score by a larger one and sorting again: the old smallest
    * leaves, the new score enters, and the smallest does not decrease. */
  lemma ReplaceLast(top: seq<nat>, score: nat, sorted: seq<nat>)
    requires top != [] && SortedDesc(top)
    requires score > top[|top| - 1]
    requires SortedDesc(sorted) && multiset(sorted) == multiset(top[|top| - 1 := score])
    ensures |sorted| == |top|
    ensures multiset(sorted) + multiset{top[|top| - 1]} == multiset(top) + multiset{score}
    ensures sorted[|sorted| - 1] >= top[|top| - 1]
  {
    ReplaceCounts(top, score);
    var k := |top| - 1;
    var r := top[k := score];
    assert |sorted| == |multiset(sorted)| == |r|;
    var m := sorted[|sorted| - 1];
    assert m in multiset(sorted);
    assert m in r;
    var j :| 0 <= j < |r| && r[j] == m;
    if j < k {
      assert top[j] == m;
    }
  }

  lemma ReplaceCounts(top: seq<nat>, score: nat)
    requires top != []
    ensures var k := |top| - 1;
      multiset(top[k := score]) + multiset{top[k]} == multiset(top) + multiset{score}
  {
    var k := |top| - 1;
    assert top == top[..k] + [top[k]];
    assert top[k := score] == top[..k] + [score];
  }

  /** `personal_top_three`. */
  method PersonalTopThree(h: HighScores) returns (top: seq<nat>)
    ensures |top| == if |h.scores| < 3 then |h.scores| else 3
    ensures SortedDesc(top)
    ensures multiset(top) <= multiset(h.scores)
    ensures forall x <- multiset(h.scores) - multiset(top), y <- top :: x <= y
  {
    top := Topn(h, 3);
  }
}
