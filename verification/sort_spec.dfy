/** What the array sorts promise, stated on sequences. Elements are compared
    through an integer key: `compare(x, y) < 0` exactly when
    `key(x) < key(y)`, which makes the comparison a total preorder under which
    distinct elements may tie. */
module SortSpec {

  /** Ascending by key. */
  ghost predicate Sorted<T>(s: seq<T>, key: T -> int) {
    forall i, j :: 0 <= i < j < |s| ==> key(s[i]) <= key(s[j])
  }

  /** Every neighbouring pair is in order. */
  ghost predicate NeighboursInOrder<T>(s: seq<T>, key: T -> int) {
    forall i :: 0 <= i < |s| - 1 ==> key(s[i]) <= key(s[i + 1])
  }

  /** The elements of `s` with key `k`, in their order in `s`. */
  function WithKey<T>(s: seq<T>, k: int, key: T -> int): (r: seq<T>)
    ensures forall x :: x in r ==> x in s && key(x) == k
  {
    if s == [] then []
    else if key(s[0]) == k then [s[0]] + WithKey(s[1..], k, key)
    else WithKey(s[1..], k, key)
  }

  /** `t` keeps the relative order of every group of elements with equal keys
      in `s`. */
  ghost predicate Stable<T>(s: seq<T>, t: seq<T>, key: T -> int) {
    forall k :: WithKey(t, k, key) == WithKey(s, k, key)
  }

  /** Exchanges `a[i]` and `a[j]` through a temporary. */
  method Swap<T>(a: array<T>, i: int, j: int)
    requires 0 <= i < a.Length && 0 <= j < a.Length
    modifies a
    ensures a[..] == old(a[..])[i := old(a[j])][j := old(a[i])]
  {
    var elem := a[i];
    a[i] := a[j];
    a[j] := elem;
  }

  /** Exchanging two positions permutes the sequence. */
  lemma SwapPermutes<T>(s: seq<T>, i: int, j: int)
    requires 0 <= i < |s| && 0 <= j < |s|
    ensures multiset(s[i := s[j]][j := s[i]]) == multiset(s)
  {
  }

  lemma StableTrans<T>(s: seq<T>, t: seq<T>, u: seq<T>, key: T -> int)
    requires Stable(s, t, key) && Stable(t, u, key)
    ensures Stable(s, u, key)
  {
    forall k
      ensures WithKey(u, k, key) == WithKey(s, k, key)
    {
      assert WithKey(u, k, key) == WithKey(t, k, key);
    }
  }

  /** Neighbours in order means sorted. */
  lemma {:induction false} NeighboursSorted<T>(s: seq<T>, key: T -> int)
    requires NeighboursInOrder(s, key)
    ensures Sorted(s, key)
  {
    if |s| > 1 {
      NeighboursSorted(s[1..], key);
      forall j | 0 < j < |s|
        ensures key(s[0]) <= key(s[j])
      {
        assert key(s[1]) <= key(s[1..][j - 1]);
      }
    }
  }

  lemma {:induction false} WithKeyAppend<T>(a: seq<T>, b: seq<T>, k: int, key: T -> int)
    ensures WithKey(a + b, k, key) == WithKey(a, k, key) + WithKey(b, k, key)
  {
    if a == [] {
      assert a + b == b;
    } else {
      assert (a + b)[1..] == a[1..] + b;
      WithKeyAppend(a[1..], b, k, key);
    }
  }

  /** Exchanging two neighbours with different keys keeps every group of
      equal keys in order. */
  lemma SwapStable<T>(s: seq<T>, i: int, key: T -> int)
    requires 0 <= i && i + 1 < |s| && key(s[i]) != key(s[i + 1])
    ensures Stable(s, s[i := s[i + 1]][i + 1 := s[i]], key)
  {
    var t := s[i := s[i + 1]][i + 1 := s[i]];
    var front, back := s[..i], s[i + 2..];
    assert s == front + [s[i], s[i + 1]] + back;
    assert t == front + [s[i + 1], s[i]] + back;
    forall k
      ensures WithKey(t, k, key) == WithKey(s, k, key)
    {
      WithKeyAppend(front + [s[i], s[i + 1]], back, k, key);
      WithKeyAppend(front, [s[i], s[i + 1]], k, key);
      WithKeyAppend(front + [s[i + 1], s[i]], back, k, key);
      WithKeyAppend(front, [s[i + 1], s[i]], k, key);
      assert [s[i], s[i + 1]][1..] == [s[i + 1]];
      assert [s[i + 1], s[i]][1..] == [s[i]];
    }
  }

  /** A sequence with an element of key `k` has a non-empty group for `k`. */
  lemma {:induction false} WithKeyNonEmpty<T>(s: seq<T>, i: int, key: T -> int)
    requires 0 <= i < |s|
    ensures WithKey(s, key(s[i]), key) != []
  {
    if i > 0 && key(s[0]) != key(s[i]) {
      WithKeyNonEmpty(s[1..], i - 1, key);
    }
  }

  /** Sorted sequences with the same groups start with the same element. */
  lemma HeadsEqual<T>(s: seq<T>, t: seq<T>, key: T -> int)
    requires Sorted(s, key) && Sorted(t, key) && Stable(s, t, key) && s != []
    ensures t != [] && s[0] == t[0]
  {
    WithKeyNonEmpty(s, 0, key);
    assert WithKey(t, key(s[0]), key) == WithKey(s, key(s[0]), key);
    var a := s[0];
    var fromT := WithKey(t, key(a), key)[0];
    assert fromT in t;
    var b := t[0];
    WithKeyNonEmpty(t, 0, key);
    assert WithKey(t, key(b), key) == WithKey(s, key(b), key);
    var fromS := WithKey(s, key(b), key)[0];
    assert fromS in s;
  }

  /** Dropping a common first element keeps the groups equal. */
  lemma TailsStable<T>(s: seq<T>, t: seq<T>, key: T -> int)
    requires s != [] && t != [] && s[0] == t[0] && Stable(s, t, key)
    ensures Stable(s[1..], t[1..], key)
  {
    forall k
      ensures WithKey(t[1..], k, key) == WithKey(s[1..], k, key)
    {
      assert WithKey(t, k, key) == WithKey(s, k, key);
      if key(s[0]) == k {
        assert WithKey(s[1..], k, key) == WithKey(s, k, key)[1..];
        assert WithKey(t[1..], k, key) == WithKey(t, k, key)[1..];
      } else {
        assert WithKey(s, k, key) == WithKey(s[1..], k, key);
        assert WithKey(t, k, key) == WithKey(t[1..], k, key);
      }
    }
  }

  /** Sortedness together with stability leaves no choice: two sorted
      sequences that keep the same order within every group of equal keys
      are equal. */
  lemma {:induction false} SortedStableUnique<T>(s: seq<T>, t: seq<T>, key: T -> int)
    requires Sorted(s, key) && Sorted(t, key) && Stable(s, t, key)
    ensures s == t
    decreases |s|
  {
    if s == [] {
      if t != [] {
        WithKeyNonEmpty(t, 0, key);
        assert false;
      }
    } else {
      HeadsEqual(s, t, key);
      TailsStable(s, t, key);
      SortedStableUnique(s[1..], t[1..], key);
      assert s == [s[0]] + s[1..] && t == [t[0]] + t[1..];
    }
  }
}
