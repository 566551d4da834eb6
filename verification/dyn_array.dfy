/** The dynamic-array helpers of nobflag.h, over the live prefix `items[0..count)`
    of a `nob.h` dynamic array, modelled as a sequence whose length is `count`.
    Growth, `capacity` and the stale slot past `count` are buffer internals and
    are not modelled. */
module DynArray {

  /** `nob_da_swap(da, i, j)`: appends a scratch copy of `items[i]`, copies
      `items[j]` over `items[i]`, copies the scratch slot over `items[j]`, and
      decrements `count` again. The result is the live prefix afterwards: an
      exchange of the two elements, not a removal. */
  function Swap<T>(items: seq<T>, i: nat, j: nat): (r: seq<T>)
    requires i < |items| && j < |items|
    ensures |r| == |items|
    ensures r[i] == items[j] && r[j] == items[i]
    ensures forall k :: 0 <= k < |items| && k != i && k != j ==> r[k] == items[k]
  {
    var count := |items|;
    var grown := items + [items[i]];
    var copied := grown[i := grown[j]];
    var restored := copied[j := copied[count]];
    restored[..count]
  }

  /** Swapping only rearranges: nothing is lost or duplicated. */
  lemma SwapPermutes<T>(items: seq<T>, i: nat, j: nat)
    requires i < |items| && j < |items|
    ensures multiset(Swap(items, i, j)) == multiset(items)
  {
  }

  /** Swapping the same two positions twice restores the array. */
  lemma SwapInvolution<T>(items: seq<T>, i: nat, j: nat)
    requires i < |items| && j < |items|
    ensures Swap(Swap(items, i, j), i, j) == items
  {
  }

  /** The removal that `nob_cmd_flags_parse` performs on a match: swap the
      element at `i` to the last live slot, then decrement `count` once more.
      The former last element takes the place of the removed one; every other
      element keeps its index. */
  function SwapRemove<T>(items: seq<T>, i: nat): (r: seq<T>)
    requires i < |items|
    ensures |r| == |items| - 1
    ensures i < |r| ==> r[i] == items[|items| - 1]
    ensures forall k :: 0 <= k < |r| && k != i ==> r[k] == items[k]
    ensures multiset(r) == multiset(items) - multiset{items[i]}
  {
    var swapped := Swap(items, i, |items| - 1);
    SwapPermutes(items, i, |items| - 1);
    assert swapped == swapped[..|items| - 1] + [items[i]];
    swapped[..|items| - 1]
  }
}
