/** Insertion sort by adjacent exchanges. The repository carries this
    algorithm twice, once with a `lt` helper and once calling `compare`
    directly; both move an element left only while it is strictly less than
    its left neighbour, so one method models both. */
module InsertionSort {
  import opened SortSpec

  /** Sorts `a` ascending by key, as a stable permutation of its contents;
      input that is already sorted comes back unchanged. */
  method Sort<T>(a: array<T>, key: T -> int)
    modifies a
    ensures Sorted(a[..], key)
    ensures multiset(a[..]) == multiset(old(a[..]))
    ensures Stable(old(a[..]), a[..], key)
    ensures Sorted(old(a[..]), key) ==> a[..] == old(a[..])
  {
    for i := 0 to a.Length
      invariant Sorted(a[..i], key)
      invariant multiset(a[..]) == multiset(old(a[..]))
      invariant Stable(old(a[..]), a[..], key)
    {
      Insert(a, i, key);
    }
    assert a[..a.Length] == a[..];
    if Sorted(old(a[..]), key) {
      SortedStableUnique(old(a[..]), a[..], key);
    }
  }

  /** Midway through a pass: `s[j]` is the element being moved, strictly
      less than everything it has passed, and the prefix up to `i` without
      it is sorted. */
  ghost predicate Inserting<T>(s: seq<T>, i: int, j: int, key: T -> int) {
    0 <= j <= i < |s| &&
    (forall x, y :: 0 <= x < y <= i && x != j && y != j ==> key(s[x]) <= key(s[y])) &&
    (forall y :: j < y <= i ==> key(s[j]) < key(s[y]))
  }

  lemma InsertingStart<T>(s: seq<T>, i: int, key: T -> int)
    requires 0 <= i < |s| && Sorted(s[..i], key)
    ensures Inserting(s, i, i, key)
  {
    forall x, y | 0 <= x < y < i
      ensures key(s[x]) <= key(s[y])
    {
      assert s[x] == s[..i][x] && s[y] == s[..i][y];
    }
  }

  /** Exchanging the moving element with a strictly greater left neighbour
      keeps the pass's invariant one position further left. */
  lemma InsertingStep<T>(s: seq<T>, i: int, j: int, key: T -> int)
    requires Inserting(s, i, j, key) && j > 0 && key(s[j]) < key(s[j - 1])
    ensures Inserting(s[j - 1 := s[j]][j := s[j - 1]], i, j - 1, key)
  {
  }

  /** The pass stops at the front or behind a neighbour that is not greater,
      and then the prefix up to `i` is sorted. */
  lemma InsertingDone<T>(s: seq<T>, i: int, j: int, key: T -> int)
    requires Inserting(s, i, j, key) && (j == 0 || key(s[j - 1]) <= key(s[j]))
    ensures Sorted(s[..i + 1], key)
  {
    forall x, y | 0 <= x < y <= i
      ensures key(s[x]) <= key(s[y])
    {
      if y == j && x < j - 1 {
        assert key(s[x]) <= key(s[j - 1]);
      }
    }
  }

  /** One pass of the outer loop: moves `a[i]` left past every strictly
      greater neighbour, so that the prefix up to `i` is sorted. */
  method Insert<T>(a: array<T>, i: int, key: T -> int)
    requires 0 <= i < a.Length && Sorted(a[..i], key)
    modifies a
    ensures Sorted(a[..i + 1], key)
    ensures multiset(a[..]) == multiset(old(a[..]))
    ensures Stable(old(a[..]), a[..], key)
  {
    var j := i;
    InsertingStart(a[..], i, key);
    while j > 0 && key(a[j]) < key(a[j - 1])
      invariant Inserting(a[..], i, j, key)
      invariant multiset(a[..]) == multiset(old(a[..]))
      invariant Stable(old(a[..]), a[..], key)
    {
      Exchange(a, i, j, key, old(a[..]));
      j := j - 1;
    }
    InsertingDone(a[..], i, j, key);
  }

  /** One step of the inner loop: exchanges the moving element `a[j]` with
      its strictly greater left neighbour. */
  method Exchange<T>(a: array<T>, i: int, j: int, key: T -> int, ghost orig: seq<T>)
    requires Inserting(a[..], i, j, key) && j > 0 && key(a[j]) < key(a[j - 1])
    requires multiset(a[..]) == multiset(orig) && Stable(orig, a[..], key)
    modifies a
    ensures Inserting(a[..], i, j - 1, key)
    ensures multiset(a[..]) == multiset(orig) && Stable(orig, a[..], key)
  {
    ghost var before := a[..];
    ghost var after := before[j - 1 := before[j]][j := before[j - 1]];
    SwapStable(before, j - 1, key);
    SwapPermutes(before, j - 1, j);
    StableTrans(orig, before, after, key);
    InsertingStep(before, i, j, key);
    Swap(a, j - 1, j);
    assert a[..] == after;
  }
}
