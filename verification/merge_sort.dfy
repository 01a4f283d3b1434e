/** Top-down merge sort over the inclusive range [start..end] of an array,
    merging through a scratch buffer that is copied back. */
module MergeSort {
  import opened SortSpec

  /** The merge, as a value, of what is left of two runs once their first
      `x` and `y` elements have been taken: the smaller head goes first, and
      on equal keys the head of `r` goes first. */
  function Merged<T>(l: seq<T>, r: seq<T>, x: nat, y: nat, key: T -> int): (m: seq<T>)
    requires x <= |l| && y <= |r|
    decreases |l| - x + |r| - y
  {
    if x == |l| then r[y..]
    else if y == |r| then l[x..]
    else if key(l[x]) < key(r[y]) then [l[x]] + Merged(l, r, x + 1, y, key)
    else [r[y]] + Merged(l, r, x, y + 1, key)
  }

  /** The merge is as long as what is left of both runs. */
  lemma {:induction false} MergedLength<T>(l: seq<T>, r: seq<T>, x: nat, y: nat, key: T -> int)
    requires x <= |l| && y <= |r|
    ensures |Merged(l, r, x, y, key)| == |l| - x + |r| - y
    decreases |l| - x + |r| - y
  {
    if x < |l| && y < |r| {
      if key(l[x]) < key(r[y]) {
        MergedLength(l, r, x + 1, y, key);
      } else {
        MergedLength(l, r, x, y + 1, key);
      }
    }
  }

  /** The merge holds exactly the elements left in both runs. */
  lemma {:induction false} MergedPermutes<T>(l: seq<T>, r: seq<T>, x: nat, y: nat, key: T -> int)
    requires x <= |l| && y <= |r|
    ensures multiset(Merged(l, r, x, y, key)) == multiset(l[x..]) + multiset(r[y..])
    decreases |l| - x + |r| - y, 1
  {
    if x == |l| {
      assert l[x..] == [];
    } else if y == |r| {
      assert r[y..] == [];
    } else if key(l[x]) < key(r[y]) {
      LeftPermutes(l, r, x, y, key);
    } else {
      RightPermutes(l, r, x, y, key);
    }
  }

  lemma {:induction false} LeftPermutes<T>(l: seq<T>, r: seq<T>, x: nat, y: nat, key: T -> int)
    requires x < |l| && y < |r| && key(l[x]) < key(r[y])
    ensures multiset(Merged(l, r, x, y, key)) == multiset(l[x..]) + multiset(r[y..])
    decreases |l| - x + |r| - y, 0
  {
    calc {
      multiset(Merged(l, r, x, y, key));
      multiset([l[x]] + Merged(l, r, x + 1, y, key));
      multiset{l[x]} + multiset(Merged(l, r, x + 1, y, key));
      { MergedPermutes(l, r, x + 1, y, key); }
      multiset{l[x]} + multiset(l[x + 1..]) + multiset(r[y..]);
      { assert l[x..] == [l[x]] + l[x + 1..]; }
      multiset(l[x..]) + multiset(r[y..]);
    }
  }

  lemma {:induction false} RightPermutes<T>(l: seq<T>, r: seq<T>, x: nat, y: nat, key: T -> int)
    requires x < |l| && y < |r| && key(l[x]) >= key(r[y])
    ensures multiset(Merged(l, r, x, y, key)) == multiset(l[x..]) + multiset(r[y..])
    decreases |l| - x + |r| - y, 0
  {
    calc {
      multiset(Merged(l, r, x, y, key));
      multiset([r[y]] + Merged(l, r, x, y + 1, key));
      multiset{r[y]} + multiset(Merged(l, r, x, y + 1, key));
      { MergedPermutes(l, r, x, y + 1, key); }
      multiset{r[y]} + multiset(l[x..]) + multiset(r[y + 1..]);
      { assert r[y..] == [r[y]] + r[y + 1..]; }
      multiset(l[x..]) + multiset(r[y..]);
    }
  }

  /** A lower bound on the keys of both runs bounds the keys of the merge. */
  lemma MergedBound<T>(l: seq<T>, r: seq<T>, x: nat, y: nat, b: int, key: T -> int)
    requires x <= |l| && y <= |r|
    requires forall z :: z in l[x..] ==> b <= key(z)
    requires forall z :: z in r[y..] ==> b <= key(z)
    ensures forall z :: z in Merged(l, r, x, y, key) ==> b <= key(z)
  {
    MergedPermutes(l, r, x, y, key);
    forall z | z in Merged(l, r, x, y, key)
      ensures b <= key(z)
    {
      assert z in multiset(Merged(l, r, x, y, key));
    }
  }

  /** A sorted sequence stays sorted behind a head no larger than any of
      its elements. */
  lemma ConsSorted<T>(h: T, rest: seq<T>, key: T -> int)
    requires Sorted(rest, key) && forall z :: z in rest ==> key(h) <= key(z)
    ensures Sorted([h] + rest, key)
  {
    var m := [h] + rest;
    forall i, j | 0 <= i < j < |m|
      ensures key(m[i]) <= key(m[j])
    {
      assert m[j] == rest[j - 1];
      if i > 0 {
        assert m[i] == rest[i - 1];
      }
    }
  }

  /** Merging two sorted runs gives a sorted sequence. */
  lemma {:induction false} MergedSorted<T>(l: seq<T>, r: seq<T>, x: nat, y: nat, key: T -> int)
    requires x <= |l| && y <= |r|
    requires Sorted(l, key) && Sorted(r, key)
    ensures Sorted(Merged(l, r, x, y, key), key)
    decreases |l| - x + |r| - y
  {
    if x < |l| && y < |r| {
      if key(l[x]) < key(r[y]) {
        MergedSorted(l, r, x + 1, y, key);
        MergedBound(l, r, x + 1, y, key(l[x]), key);
        ConsSorted(l[x], Merged(l, r, x + 1, y, key), key);
      } else {
        MergedSorted(l, r, x, y + 1, key);
        MergedBound(l, r, x, y + 1, key(r[y]), key);
        ConsSorted(r[y], Merged(l, r, x, y + 1, key), key);
      }
    } else if x == |l| {
      assert Sorted(r[y..], key);
    } else {
      assert Sorted(l[x..], key);
    }
  }

  /** Merge sort is not stable: with keys that ignore the last decimal
      digit, merging the run [10] with the run [11] puts 11 first, although
      10 came first. */
  lemma TieTakesRight()
    ensures Merged([10], [11], 0, 0, x => x / 10) == [11, 10]
    ensures !Stable([10, 11], Merged([10], [11], 0, 0, x => x / 10), x => x / 10)
  {
    var key: int -> int := x => x / 10;
    assert Merged([10], [11], 0, 0, key) == [11] + Merged([10], [11], 0, 1, key);
    assert WithKey([11, 10], 1, key) == [11] + WithKey([10], 1, key);
    assert WithKey([10, 11], 1, key) == [10] + WithKey([11], 1, key);
  }

  /** The state of the merge loops: `buf` starts with the first `s`
      elements of the whole merge `total`, after `x` elements of `l` and `y`
      of `r` were taken, and the merge of what is left is the rest of
      `total`. */
  ghost predicate Filling<T>(buf: seq<T>, s: nat, l: seq<T>, r: seq<T>, x: nat, y: nat, total: seq<T>, key: T -> int) {
    x <= |l| && y <= |r| && s == x + y && |buf| == |total| == |l| + |r| &&
    (forall k :: 0 <= k < s ==> buf[k] == total[k]) &&
    Merged(l, r, x, y, key) == total[s..]
  }

  lemma FillingStart<T>(buf: seq<T>, l: seq<T>, r: seq<T>, key: T -> int)
    requires |buf| == |l| + |r|
    ensures Filling(buf, 0, l, r, 0, 0, Merged(l, r, 0, 0, key), key)
  {
    MergedLength(l, r, 0, 0, key);
  }

  /** Writing the head of `l` into the buffer advances the state, when that
      head is strictly smaller than the head of `r` or `r` is exhausted. */
  lemma TakeLeft<T>(buf: seq<T>, s: nat, l: seq<T>, r: seq<T>, x: nat, y: nat, total: seq<T>, key: T -> int)
    requires Filling(buf, s, l, r, x, y, total, key)
    requires x < |l| && (y == |r| || key(l[x]) < key(r[y]))
    ensures s < |buf| && Filling(buf[s := l[x]], s + 1, l, r, x + 1, y, total, key)
  {
    if y == |r| {
      assert l[x..][1..] == l[x + 1..];
    }
    assert total[s..][1..] == total[s + 1..];
  }

  /** Otherwise writing the head of `r` advances the state. */
  lemma TakeRight<T>(buf: seq<T>, s: nat, l: seq<T>, r: seq<T>, x: nat, y: nat, total: seq<T>, key: T -> int)
    requires Filling(buf, s, l, r, x, y, total, key)
    requires y < |r| && (x == |l| || key(l[x]) >= key(r[y]))
    ensures s < |buf| && Filling(buf[s := r[y]], s + 1, l, r, x, y + 1, total, key)
  {
    if x == |l| {
      assert r[y..][1..] == r[y + 1..];
    }
    assert total[s..][1..] == total[s + 1..];
  }

  /** Once both runs are used up, the buffer is the whole merge. */
  lemma FillingDone<T>(buf: seq<T>, s: nat, l: seq<T>, r: seq<T>, total: seq<T>, key: T -> int)
    requires Filling(buf, s, l, r, |l|, |r|, total, key)
    ensures buf == total
  {
  }

  /** The three loops of the merge: they fill `sorted` with the merge of
      the runs [start..middle] and [middle+1..end] of `a`. */
  method MergeInto<T>(a: array<T>, sorted: array<T>, start: int, end: int, middle: int, key: T -> int)
    requires 0 <= start <= middle < end < a.Length
    requires sorted != a && sorted.Length == end - start + 1
    modifies sorted
    ensures sorted[..] == Merged(a[start..middle + 1], a[middle + 1..end + 1], 0, 0, key)
  {
    ghost var left, right := a[start..middle + 1], a[middle + 1..end + 1];
    ghost var total := Merged(left, right, 0, 0, key);
    FillingStart(sorted[..], left, right, key);
    var sIndex := 0;
    var i, j := start, middle + 1;
    ghost var x: nat, y: nat := 0, 0;
    while i <= middle && j <= end
      invariant i == start + x && j == middle + 1 + y
      invariant Filling(sorted[..], sIndex, left, right, x, y, total, key)
      modifies sorted
      decreases |left| - x + |right| - y
    {
      if key(a[i]) < key(a[j]) {
        TakeLeft(sorted[..], sIndex, left, right, x, y, total, key);
        sorted[sIndex] := a[i];
        sIndex, i, x := sIndex + 1, i + 1, x + 1;
      } else {
        TakeRight(sorted[..], sIndex, left, right, x, y, total, key);
        sorted[sIndex] := a[j];
        sIndex, j, y := sIndex + 1, j + 1, y + 1;
      }
    }
    if j <= end {
      sIndex := DrainRight(a, sorted, start, end, middle, j, sIndex, left, right, y, total, key);
    } else {
      sIndex := DrainLeft(a, sorted, start, end, middle, i, sIndex, left, right, x, total, key);
    }
  }

  /** The second loop of the merge: once the left run is used up, the
      rest of the right run is copied into the buffer. */
  method DrainRight<T>(a: array<T>, sorted: array<T>, start: int, end: int, middle: int,
                       j0: int, s0: nat, ghost left: seq<T>, ghost right: seq<T>,
                       ghost y0: nat, ghost total: seq<T>, key: T -> int)
      returns (sIndex: nat)
    requires 0 <= start <= middle < end < a.Length && sorted != a
    requires right == a[middle + 1..end + 1]
    requires j0 == middle + 1 + y0
    requires Filling(sorted[..], s0, left, right, |left|, y0, total, key)
    modifies sorted
    ensures sorted[..] == total
  {
    var j := j0;
    sIndex := s0;
    ghost var y: nat := y0;
    while j <= end
      invariant j == middle + 1 + y
      invariant Filling(sorted[..], sIndex, left, right, |left|, y, total, key)
      decreases |right| - y
    {
      TakeRight(sorted[..], sIndex, left, right, |left|, y, total, key);
      sorted[sIndex] := a[j];
      sIndex, j, y := sIndex + 1, j + 1, y + 1;
    }
    FillingDone(sorted[..], sIndex, left, right, total, key);
  }

  /** The third loop of the merge: once the right run is used up, the rest
      of the left run is copied into the buffer. */
  method DrainLeft<T>(a: array<T>, sorted: array<T>, start: int, end: int, middle: int,
                      i0: int, s0: nat, ghost left: seq<T>, ghost right: seq<T>,
                      ghost x0: nat, ghost total: seq<T>, key: T -> int)
      returns (sIndex: nat)
    requires 0 <= start <= middle < end < a.Length && sorted != a
    requires left == a[start..middle + 1]
    requires i0 == start + x0
    requires Filling(sorted[..], s0, left, right, x0, |right|, total, key)
    modifies sorted
    ensures sorted[..] == total
  {
    var i := i0;
    sIndex := s0;
    ghost var x: nat := x0;
    while i <= middle
      invariant i == start + x
      invariant Filling(sorted[..], sIndex, left, right, x, |right|, total, key)
      decreases |left| - x
    {
      TakeLeft(sorted[..], sIndex, left, right, x, |right|, total, key);
      sorted[sIndex] := a[i];
      sIndex, i, x := sIndex + 1, i + 1, x + 1;
    }
    FillingDone(sorted[..], sIndex, left, right, total, key);
  }

  /** Merges the runs [start..middle] and [middle+1..end] of `a` into a
      fresh buffer, then copies the buffer back over [start..end]. */
  method Merge<T>(a: array<T>, start: int, end: int, middle: int, key: T -> int)
    requires 0 <= start <= middle < end < a.Length
    modifies a
    ensures a[start..end + 1] == Merged(old(a[start..middle + 1]), old(a[middle + 1..end + 1]), 0, 0, key)
    ensures a[..start] == old(a[..start]) && a[end + 1..] == old(a[end + 1..])
  {
    ghost var total := Merged(a[start..middle + 1], a[middle + 1..end + 1], 0, 0, key);
    var first := a[start];
    var sorted := new T[end - start + 1](_ => first);
    MergeInto(a, sorted, start, end, middle, key);
    var i := start;
    for k := 0 to sorted.Length
      invariant i == start + k
      invariant sorted[..] == total
      invariant forall n :: start <= n < i ==> a[n] == total[n - start]
      invariant a[..start] == old(a[..start]) && a[end + 1..] == old(a[end + 1..])
    {
      a[i] := sorted[k];
      i := i + 1;
    }
    assert forall n :: 0 <= n < |total| ==> a[start..end + 1][n] == total[n];
  }

  /** The frame of one recursive step: sorting [start..middle], then
      [middle+1..end], then merging keeps everything outside [start..end]. */
  lemma StepFrame<T>(s0: seq<T>, s1: seq<T>, s2: seq<T>, s3: seq<T>, start: nat, middle: nat, end: nat)
    requires start <= middle < end < |s0| == |s1| == |s2| == |s3|
    requires s1[..start] == s0[..start] && s1[middle + 1..] == s0[middle + 1..]
    requires s2[..middle + 1] == s1[..middle + 1] && s2[end + 1..] == s1[end + 1..]
    requires s3[..start] == s2[..start] && s3[end + 1..] == s2[end + 1..]
    ensures s3[..start] == s0[..start] && s3[end + 1..] == s0[end + 1..]
  {
    assert s2[..start] == s1[..start] by {
      assert s2[..middle + 1][..start] == s2[..start];
      assert s1[..middle + 1][..start] == s1[..start];
    }
    assert s1[end + 1..] == s0[end + 1..] by {
      assert s1[middle + 1..][end - middle..] == s1[end + 1..];
      assert s0[middle + 1..][end - middle..] == s0[end + 1..];
    }
  }

  /** The contents of one recursive step: the merged range holds what the
      range held before the two halves were sorted. */
  lemma StepContents<T>(s0: seq<T>, s1: seq<T>, s2: seq<T>, start: nat, middle: nat, end: nat)
    requires start <= middle < end < |s0| == |s1| == |s2|
    requires multiset(s1[start..middle + 1]) == multiset(s0[start..middle + 1])
    requires s1[middle + 1..] == s0[middle + 1..]
    requires multiset(s2[middle + 1..end + 1]) == multiset(s1[middle + 1..end + 1])
    requires s2[..middle + 1] == s1[..middle + 1]
    ensures multiset(s2[start..middle + 1]) + multiset(s2[middle + 1..end + 1]) == multiset(s0[start..end + 1])
  {
    assert s2[start..middle + 1] == s1[start..middle + 1] by {
      assert s2[..middle + 1][start..] == s2[start..middle + 1];
      assert s1[..middle + 1][start..] == s1[start..middle + 1];
    }
    assert s1[middle + 1..end + 1] == s0[middle + 1..end + 1] by {
      assert s1[middle + 1..][..end - middle] == s1[middle + 1..end + 1];
      assert s0[middle + 1..][..end - middle] == s0[middle + 1..end + 1];
    }
    assert s0[start..end + 1] == s0[start..middle + 1] + s0[middle + 1..end + 1];
  }

  /** Sorts the inclusive range [start..end] of `a` by key, as a permutation
      of its contents, and changes nothing outside it; a range of fewer than
      two elements is left as it is. */
  method SortRange<T>(a: array<T>, start: int, end: int, key: T -> int)
    requires 0 <= start <= end + 1 <= a.Length
    modifies a
    ensures Sorted(a[start..end + 1], key)
    ensures multiset(a[start..end + 1]) == multiset(old(a[start..end + 1]))
    ensures a[..start] == old(a[..start]) && a[end + 1..] == old(a[end + 1..])
    ensures end - start < 1 ==> a[..] == old(a[..])
    decreases end - start
  {
    if end - start < 1 {
      return;
    }
    var middle := (end + start) / 2;
    ghost var s0 := a[..];
    SortRange(a, start, middle, key);
    ghost var s1 := a[..];
    SortRange(a, middle + 1, end, key);
    ghost var s2 := a[..];
    ghost var left, right := s2[start..middle + 1], s2[middle + 1..end + 1];
    StepContents(s0, s1, s2, start, middle, end);
    Merge(a, start, end, middle, key);
    StepFrame(s0, s1, s2, a[..], start, middle, end);
    MergedSorted(left, right, 0, 0, key);
    MergedPermutes(left, right, 0, 0, key);
    assert left[0..] == left && right[0..] == right;
  }

  /** Sorts the whole array by key, as a permutation of its contents. */
  method Sort<T>(a: array<T>, key: T -> int)
    modifies a
    ensures Sorted(a[..], key)
    ensures multiset(a[..]) == multiset(old(a[..]))
  {
    SortRange(a, 0, a.Length - 1, key);
    assert a[0..a.Length] == a[..];
    assert old(a[0..a.Length]) == old(a[..]);
  }
}
