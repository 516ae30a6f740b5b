/** Sublist: how two lists relate as contiguous runs of each other. */
module Sublist {

  datatype Comparison = Equal | Sublist | Superlist | Unequal

  /** `is_equal`: same length and equal element by element. */
  predicate IsEqual<T(==)>(first: seq<T>, second: seq<T>)
    ensures IsEqual(first, second) <==> first == second
  {
    |first| == |second| && forall i :: 0 <= i < |first| ==> first[i] == second[i]
  }

  /** `small` occurs in `big` starting at index i. */
  predicate WindowAt<T(==)>(small: seq<T>, big: seq<T>, i: nat) {
    i + |small| <= |big| && big[i..i + |small|] == small
  }

  /** `small` occurs as a contiguous run of `big`. */
  predicate Infix<T(==)>(small: seq<T>, big: seq<T>) {
    exists i: nat :: i <= |big| && WindowAt(small, big, i)
  }

  /** Some window of `big` of length `|small|`, starting at `from` or later, equals `small`. */
  predicate AnyWindowFrom<T(==)>(small: seq<T>, big: seq<T>, from: nat)
    requires |small| <= |big|
    ensures AnyWindowFrom(small, big, from) <==> exists i: nat :: from <= i <= |big| && WindowAt(small, big, i)
    decreases |big| - from
  {
    assert from + |small| <= |big| ==> (WindowAt(small, big, from) <==> IsEqual(small, big[from..from + |small|]));
    if from > |big| - |small| then false
    else IsEqual(small, big[from..from + |small|]) || AnyWindowFrom(small, big, from + 1)
  }

  /**
   * `is_sublist`: the empty list is a sublist of anything; otherwise only
   * a strictly shorter list is searched for among the windows of `big`.
   */
  predicate IsSublist<T(==)>(small: seq<T>, big: seq<T>)
    ensures IsSublist(small, big) <==> small == [] || (|small| < |big| && Infix(small, big))
  {
    assert small == [] ==> WindowAt(small, big, 0);
    if small == [] then true
    else if |small| >= |big| then false
    else AnyWindowFrom(small, big, 0)
  }

  function Compare<T(==)>(first: seq<T>, second: seq<T>): (r: Comparison)
    ensures r == Equal <==> first == second
    ensures r == Sublist <==> |first| < |second| && Infix(first, second)
    ensures r == Superlist <==> |second| < |first| && Infix(second, first)
  {
    assert first == [] ==> WindowAt(first, second, 0);
    assert second == [] ==> WindowAt(second, first, 0);
    assert Infix(first, second) ==> |first| <= |second|;
    assert Infix(second, first) ==> |second| <= |first|;
    if |first| == |second| then (if IsEqual(first, second) then Equal else Unequal)
    else if |first| > |second| then (if IsSublist(second, first) then Superlist else Unequal)
    else (if IsSublist(first, second) then Sublist else Unequal)
  }

  /** Empty against non-empty is a sublist; two empty lists are equal. */
  lemma EmptyCases<T>(xs: seq<T>)
    ensures xs != [] ==> Compare([], xs) == Sublist
    ensures Compare<T>([], []) == Equal
  {
    if xs != [] {
      assert xs[0..0] == [];
    }
  }

  /** Swapping the arguments swaps Sublist and Superlist and keeps the rest. */
  lemma CompareSwap<T>(first: seq<T>, second: seq<T>)
    ensures Compare(second, first) ==
      match Compare(first, second)
      case Sublist => Superlist
      case Superlist => Sublist
      case other => other
  {
  }
}
