/** Bubble sort: passes over the array exchange every neighbouring pair that
    is out of order, until a pass exchanges nothing. */
module BubbleSort {
  import opened SortSpec

  /** How many elements of `t` have a key smaller than that of `x`. */
  function Below<T>(x: T, t: seq<T>, key: T -> int): (n: nat)
    ensures n <= |t|
  {
    if t == [] then 0
    else (if key(x) > key(t[0]) then 1 else 0) + Below(x, t[1..], key)
  }

  /** The number of pairs of positions whose elements are out of order. */
  function Inversions<T>(s: seq<T>, key: T -> int): nat {
    if s == [] then 0 else Below(s[0], s[1..], key) + Inversions(s[1..], key)
  }

  /** Only a sorted sequence has no inversion. */
  lemma {:induction false} NoInversionsSorted<T>(s: seq<T>, key: T -> int)
    ensures Inversions(s, key) == 0 <==> Sorted(s, key)
  {
    if s != [] {
      NoInversionsSorted(s[1..], key);
      BelowZero(s[0], s[1..], key);
      if Sorted(s, key) {
        assert Sorted(s[1..], key);
      }
    }
  }

  lemma {:induction false} BelowZero<T>(x: T, t: seq<T>, key: T -> int)
    ensures Below(x, t, key) == 0 <==> forall j :: 0 <= j < |t| ==> key(x) <= key(t[j])
  {
    if t != [] {
      BelowZero(x, t[1..], key);
      assert forall j :: 0 < j < |t| ==> t[j] == t[1..][j - 1];
    }
  }

  /** Exchanging two neighbours of `t` does not change how many of its
      elements lie below `x`. */
  lemma {:induction false} BelowSwap<T>(x: T, t: seq<T>, j: int, key: T -> int)
    requires 0 <= j && j + 1 < |t|
    ensures Below(x, t[j := t[j + 1]][j + 1 := t[j]], key) == Below(x, t, key)
  {
    var u := t[j := t[j + 1]][j + 1 := t[j]];
    if j > 0 {
      BelowSwap(x, t[1..], j - 1, key);
      assert u[1..] == t[1..][j - 1 := t[j + 1]][j := t[j]];
    } else {
      assert u[1..][1..] == t[1..][1..];
    }
  }

  /** Exchanging a neighbouring pair that is out of order removes exactly one
      inversion. */
  lemma {:induction false} SwapRemovesInversion<T>(s: seq<T>, i: int, key: T -> int)
    requires 0 <= i && i + 1 < |s| && key(s[i]) > key(s[i + 1])
    ensures Inversions(s[i := s[i + 1]][i + 1 := s[i]], key) == Inversions(s, key) - 1
  {
    var t := s[i := s[i + 1]][i + 1 := s[i]];
    if i > 0 {
      SwapRemovesInversion(s[1..], i - 1, key);
      assert t[1..] == s[1..][i - 1 := s[i + 1]][i := s[i]];
      BelowSwap(s[0], s[1..], i - 1, key);
    } else {
      assert t[1..][1..] == s[1..][1..];
    }
  }

  /** One pass over the array. It reports whether it exchanged anything; an
      exchange removes inversions, and a pass without one leaves the array
      as it was, with every neighbouring pair in order. */
  method Pass<T>(a: array<T>, key: T -> int) returns (hasChanged: bool)
    modifies a
    ensures multiset(a[..]) == multiset(old(a[..]))
    ensures Stable(old(a[..]), a[..], key)
    ensures hasChanged ==> Inversions(a[..], key) < Inversions(old(a[..]), key)
    ensures !hasChanged ==> a[..] == old(a[..]) && NeighboursInOrder(a[..], key)
  {
    hasChanged := false;
    var i := 0;
    while i < a.Length - 1
      invariant 0 <= i <= if a.Length == 0 then 0 else a.Length - 1
      invariant multiset(a[..]) == multiset(old(a[..]))
      invariant Stable(old(a[..]), a[..], key)
      invariant hasChanged ==> Inversions(a[..], key) < Inversions(old(a[..]), key)
      invariant !hasChanged ==> a[..] == old(a[..])
      invariant !hasChanged ==> forall x :: 0 <= x < i ==> key(a[x]) <= key(a[x + 1])
    {
      if key(a[i]) > key(a[i + 1]) {
        ghost var before := a[..];
        SwapStable(before, i, key);
        SwapPermutes(before, i, i + 1);
        SwapRemovesInversion(before, i, key);
        StableTrans(old(a[..]), before, before[i := before[i + 1]][i + 1 := before[i]], key);
        Swap(a, i, i + 1);
        hasChanged := true;
      }
      i := i + 1;
    }
  }

  /** Sorts `a` ascending by key; the result is a permutation of the input
      that keeps elements with equal keys in their original order, so a
      sorted input is left as it was. */
  method Sort<T>(a: array<T>, key: T -> int)
    modifies a
    ensures Sorted(a[..], key)
    ensures multiset(a[..]) == multiset(old(a[..]))
    ensures Stable(old(a[..]), a[..], key)
    ensures Sorted(old(a[..]), key) ==> a[..] == old(a[..])
  {
    var hasChanged := Pass(a, key);
    while hasChanged
      invariant multiset(a[..]) == multiset(old(a[..]))
      invariant Stable(old(a[..]), a[..], key)
      invariant !hasChanged ==> NeighboursInOrder(a[..], key)
      decreases Inversions(a[..], key) + (if hasChanged then 1 else 0)
    {
      ghost var before := a[..];
      hasChanged := Pass(a, key);
      StableTrans(old(a[..]), before, a[..], key);
    }
    NeighboursSorted(a[..], key);
    if Sorted(old(a[..]), key) {
      SortedStableUnique(old(a[..]), a[..], key);
    }
  }
}
