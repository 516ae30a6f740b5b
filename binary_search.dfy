/** Binary search over a sorted slice, by recursion on halves. */
module BinarySearch {
  import opened Wrappers

  predicate Sorted(a: seq<int>) {
    forall i, j :: 0 <= i < j < |a| ==> a[i] <= a[j]
  }

  /** `find_rec`: `pos` is the offset of `slice` in the original slice. The halves are
    * `slice[..split]` and `slice[split..]`, both strictly shorter once `|slice| >= 2`. */
  function FindRec(slice: seq<int>, key: int, pos: nat): (r: Option<nat>)
    ensures r.Some? ==> pos <= r.value < pos + |slice| && slice[r.value - pos] == key
    ensures Sorted(slice) && key in slice ==> r.Some?
    decreases |slice|
  {
    if |slice| == 0 then None
    else if |slice| == 1 then
      if slice[0] == key then Some(pos) else None
    else
      var split := |slice| / 2;
      var mid := slice[split];
      if mid == key then Some(pos + split)
      else if mid > key then
        var r := FindRec(slice[..split], key, pos);
        assert Sorted(slice) && key in slice ==> r.Some? by {
          if Sorted(slice) && key in slice {
            KeyBelowSplit(slice, key, split);
          }
        }
        r
      else
        var r := FindRec(slice[split..], key, pos + split);
        assert Sorted(slice) && key in slice ==> r.Some? by {
          if Sorted(slice) && key in slice {
            KeyAboveSplit(slice, key, split);
          }
        }
        r
  }

  /** A key below the middle element of a sorted slice lies in the lower half. */
  lemma KeyBelowSplit(slice: seq<int>, key: int, split: nat)
    requires Sorted(slice) && key in slice
    requires split < |slice| && slice[split] > key
    ensures Sorted(slice[..split]) && key in slice[..split]
  {
    var i :| 0 <= i < |slice| && slice[i] == key;
    assert i < split;
    assert slice[..split][i] == key;
  }

  /** A key above the middle element of a sorted slice lies in the upper half. */
  lemma KeyAboveSplit(slice: seq<int>, key: int, split: nat)
    requires Sorted(slice) && key in slice
    requires split < |slice| && slice[split] < key
    ensures Sorted(slice[split..]) && key in slice[split..]
  {
    var i :| 0 <= i < |slice| && slice[i] == key;
    assert i > split;
    assert slice[split..][i - split] == key;
  }

  /** `find`: an index holding the key; for a sorted slice, one exists exactly when the key
    * occurs. */
  function Find(slice: seq<int>, key: int): (r: Option<nat>)
    ensures r.Some? ==> r.value < |slice| && slice[r.value] == key
    ensures Sorted(slice) ==> (r.Some? <==> key in slice)
    ensures slice == [] ==> r == None
  {
    FindRec(slice, key, 0)
  }
}
