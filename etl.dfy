/** ETL: from "score -> letters" to "lowercase letter -> score". */
module Etl {
  import opened Ascii

  /** The legacy table, as its entries in ascending score order (a sorted map's iteration). */
  predicate Ascending(h: seq<(int, string)>) {
    forall i, j :: 0 <= i < j < |h| ==> h[i].0 < h[j].0
  }

  /** Insert every letter, lowercased, with the given score; later inserts overwrite. */
  function InsertAll(m: map<char, int>, letters: string, score: int): (r: map<char, int>)
    ensures forall k :: k in r <==> k in m || exists c <- letters :: ToLower(c) == k
    ensures forall k :: k in r && !(exists c <- letters :: ToLower(c) == k) ==> r[k] == m[k]
    ensures forall c <- letters :: r[ToLower(c)] == score
    decreases letters
  {
    if letters == [] then m
    else
      var r := InsertAll(m[ToLower(letters[0]) := score], letters[1..], score);
      assert forall c <- letters[1..] :: c in letters;
      assert forall c <- letters :: c == letters[0] || c in letters[1..];
      r
  }

  /** `transform`: the entries are inserted in ascending score order. */
  function Transform(h: seq<(int, string)>): map<char, int> {
    if h == [] then map[]
    else InsertAll(Transform(h[..|h| - 1]), h[|h| - 1].1, h[|h| - 1].0)
  }

  /** A lowercase key is listed (in some case) under entry `i`. */
  predicate ListedAt(h: seq<(int, string)>, i: nat, k: char)
    requires i < |h|
  {
    exists c <- h[i].1 :: ToLower(c) == k
  }

  /** The keys are exactly the lowercased listed letters, and each maps to the largest score
    * under which it is listed. */
  lemma {:induction false} TransformMeaning(h: seq<(int, string)>)
    requires Ascending(h)
    ensures forall k :: k in Transform(h) <==> exists i :: 0 <= i < |h| && ListedAt(h, i, k)
    ensures forall k <- Transform(h) :: exists i :: 0 <= i < |h| && ListedAt(h, i, k) && Transform(h)[k] == h[i].0
    ensures forall k, i :: 0 <= i < |h| && ListedAt(h, i, k) ==> k in Transform(h) && h[i].0 <= Transform(h)[k]
  {
    TransformKeys(h);
    TransformLargest(h);
  }

  /** Every key maps to a score under which it is listed, and only listed keys occur. */
  lemma {:induction false} TransformKeys(h: seq<(int, string)>)
    ensures forall k <- Transform(h) :: exists i :: 0 <= i < |h| && ListedAt(h, i, k) && Transform(h)[k] == h[i].0
  {
    if h != [] {
      var n := |h| - 1;
      var prefix := h[..n];
      TransformKeys(prefix);
      var m := Transform(h);
      forall k | k in m
        ensures exists i :: 0 <= i < |h| && ListedAt(h, i, k) && m[k] == h[i].0
      {
        if !ListedAt(h, n, k) {
          assert k in Transform(prefix) && m[k] == Transform(prefix)[k];
          var i :| 0 <= i < n && ListedAt(prefix, i, k) && Transform(prefix)[k] == prefix[i].0;
          assert prefix[i] == h[i];
          assert ListedAt(h, i, k);
        }
      }
    }
  }

  /** Every listed letter is a key, mapping to at least each score it is listed under. */
  lemma {:induction false} TransformLargest(h: seq<(int, string)>)
    requires Ascending(h)
    ensures forall k, i :: 0 <= i < |h| && ListedAt(h, i, k) ==> k in Transform(h) && h[i].0 <= Transform(h)[k]
  {
    if h != [] {
      var n := |h| - 1;
      var prefix := h[..n];
      assert Ascending(prefix);
      TransformLargest(prefix);
      var m := Transform(h);
      forall k, i | 0 <= i < |h| && ListedAt(h, i, k)
        ensures k in m && h[i].0 <= m[k]
      {
        if ListedAt(h, n, k) {
          var c :| c in h[n].1 && ToLower(c) == k;
          assert m[k] == h[n].0;
        } else {
          assert i < n && prefix[i] == h[i];
          assert ListedAt(prefix, i, k);
        }
      }
    }
  }
}
