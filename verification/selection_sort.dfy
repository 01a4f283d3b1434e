/** Selection sort: each position in turn receives the first minimum of the
    rest of the array, exchanged with whatever stood there. Not stable. */
module SelectionSort {
  import opened SortSpec

  /** The scan of the inner loop: the first index of a minimum of `a[i..]`. */
  method FirstMinimum<T>(a: array<T>, i: int, key: T -> int) returns (cIndex: int)
    requires 0 <= i < a.Length
    ensures i <= cIndex < a.Length
    ensures forall y :: i <= y < a.Length ==> key(a[cIndex]) <= key(a[y])
    ensures forall y :: i <= y < cIndex ==> key(a[cIndex]) < key(a[y])
  {
    var candidate := a[i];
    cIndex := i;
    for j := i + 1 to a.Length
      invariant i <= cIndex < j && candidate == a[cIndex]
      invariant forall y :: i <= y < j ==> key(candidate) <= key(a[y])
      invariant forall y :: i <= y < cIndex ==> key(candidate) < key(a[y])
    {
      if key(candidate) > key(a[j]) {
        candidate := a[j];
        cIndex := j;
      }
    }
  }

  /** Sorts `a` ascending by key, as a permutation of its contents; arrays of
      length 0 or 1 are untouched. */
  method Sort<T>(a: array<T>, key: T -> int)
    modifies a
    ensures Sorted(a[..], key)
    ensures multiset(a[..]) == multiset(old(a[..]))
    ensures a.Length <= 1 ==> a[..] == old(a[..])
  {
    var i := 0;
    while i < a.Length - 1
      invariant 0 <= i && (a.Length > 0 ==> i <= a.Length - 1)
      invariant forall x, y :: 0 <= x < y < a.Length && x < i ==> key(a[x]) <= key(a[y])
      invariant multiset(a[..]) == multiset(old(a[..]))
      invariant a.Length <= 1 ==> a[..] == old(a[..])
    {
      var cIndex := FirstMinimum(a, i, key);
      SwapPermutes(a[..], cIndex, i);
      Swap(a, cIndex, i);
      i := i + 1;
    }
  }
}
