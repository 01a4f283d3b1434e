/** The enumerator that reports every non-empty subset of a set of integers
    whose elements add up to zero. Candidate subsets are built over list
    indices 0..n-1 and mapped back to values when they sum to zero. */
module SubsetSumAll {
  import opened SubsetSumCommon

  /** The sets `GenerateCombinations(n, order)` holds once its loop has
      handled the indices below `i`: all index sets below `n` of size 1 to
      order - 1, and those of size `order` that contain an index below `i`. */
  ghost predicate Grown(s: set<int>, n: int, order: int, i: int) {
    InRange(s, n) && (1 <= |s| < order || (|s| == order && exists x :: x in s && x < i))
  }

  /** The sets the inner loop for index `i` has produced once it has handled
      the previous-order sets in `done`. */
  ghost predicate Partial(s: set<int>, n: int, order: int, i: int, done: set<set<int>>) {
    Grown(s, n, order, i) || (InRange(s, n) && |s| == order && i in s && s - {i} in done)
  }

  /** Handling one more previous-order set `elem` adds exactly `elem` grown
      by `i`, and only when `elem` has order - 1 elements and lacks `i`. */
  lemma PartialStep(s: set<int>, n: int, order: int, i: int, done: set<set<int>>, elem: set<int>)
    requires order >= 2 && 0 <= i < n && InRange(elem, n)
    ensures Partial(s, n, order, i, done + {elem}) <==>
      Partial(s, n, order, i, done) || (|elem| == order - 1 && i !in elem && s == elem + {i})
  {
    if i in s && s - {i} == elem {
      assert s == elem + {i};
    }
    if |elem| == order - 1 && i !in elem && s == elem + {i} {
      assert s - {i} == elem;
    }
  }

  /** Once every previous-order set is handled, index `i` is done. */
  lemma PartialDone(s: set<int>, n: int, order: int, i: int, done: set<set<int>>)
    requires order >= 2 && 0 <= i < n
    requires forall e :: e in done <==> InRange(e, n) && 1 <= |e| < order
    ensures Partial(s, n, order, i, done) <==> Grown(s, n, order, i + 1)
  {
    if InRange(s, n) && |s| == order && i in s {
      assert s - {i} in done;
    }
  }

  /** One pass of the outer loop of `GenerateCombinations`: every set of
      `subsets` with order - 1 elements that lacks `i` is added with `i`. */
  method ExtendWith(subsets: set<set<int>>, n: nat, order: int, i: int, start: set<set<int>>)
    returns (result: set<set<int>>)
    requires order >= 2 && 0 <= i < n
    requires forall s :: s in subsets <==> InRange(s, n) && 1 <= |s| < order
    requires forall s :: s in start <==> Grown(s, n, order, i)
    ensures forall s :: s in result <==> Grown(s, n, order, i + 1)
  {
    result := start;
    var rest := subsets;
    ghost var done: set<set<int>> := {};
    while rest != {}
      invariant rest <= subsets && done <= subsets
      invariant forall e :: e in subsets ==> e in done || e in rest
      invariant forall s :: s in result <==> Partial(s, n, order, i, done)
      decreases |rest|
    {
      if forall y :: y !in rest {
        assert false;
      }
      var elem :| elem in rest;
      if |elem| == order - 1 && i !in elem {
        result := result + {elem + {i}};
      }
      forall s
        ensures s in result <==> Partial(s, n, order, i, done + {elem})
      {
        PartialStep(s, n, order, i, done, elem);
      }
      rest := rest - {elem};
      done := done + {elem};
    }
    forall s
      ensures s in result <==> Grown(s, n, order, i + 1)
    {
      PartialDone(s, n, order, i, done);
    }
  }

  /** Every index set below `n` with 1 to `order` elements: the singletons,
      and for each larger order the sets of the previous order plus every
      largest one of them extended by an index it lacks. */
  method GenerateCombinations(n: nat, order: int) returns (result: set<set<int>>)
    requires order >= 1
    ensures forall s :: s in result <==> InRange(s, n) && 1 <= |s| <= order
    decreases order
  {
    if order == 1 {
      result := set i | 0 <= i < n :: {i};
      forall s | InRange(s, n) && |s| == 1
        ensures s in result
      {
        Singleton(s);
      }
      return;
    }
    var subsets := GenerateCombinations(n, order - 1);
    result := subsets;
    var i := 0;
    while i < n
      invariant 0 <= i <= n
      invariant forall s :: s in result <==> Grown(s, n, order, i)
    {
      result := ExtendWith(subsets, n, order, i, result);
      i := i + 1;
    }
    forall s | InRange(s, n) && |s| == order
      ensures exists x :: x in s && x < n
    {
      var x := Pick(s);
    }
  }

  /** Handling one more index subset adds its image exactly when that image
      sums to zero. */
  lemma FoundStep(values: set<int>, list: seq<int>, done: set<set<int>>, subset: set<int>, t: set<int>)
    requires Distinct(list) && forall x :: x in list <==> x in values
    requires InRange(subset, |list|) && subset != {}
    ensures ZeroSum(values, t) && IndexSet(list, t) in done + {subset} <==>
      (ZeroSum(values, t) && IndexSet(list, t) in done) ||
      (t == Mapped(list, subset) && SetSum(Mapped(list, subset)) == 0)
  {
    var image := Mapped(list, subset);
    IndexSetOfMapped(list, subset);
    if t == image {
      var i := Pick(subset);
      assert list[i] in image;
    }
    if ZeroSum(values, t) && IndexSet(list, t) == subset {
      IndicesOf(list, t);
    }
  }

  /** Every non-empty subset of `values` that sums to zero, and nothing else;
      an empty input yields no subsets. */
  method Calc(values: set<int>) returns (result: set<set<int>>)
    ensures forall t :: t in result <==> ZeroSum(values, t)
  {
    if values == {} {
      return {};
    }
    var list := ToList(values);
    var n := |values|;
    var combinations := GenerateCombinations(n, n);
    result := {};
    var rest := combinations;
    ghost var done: set<set<int>> := {};
    while rest != {}
      invariant rest <= combinations && done <= combinations
      invariant forall e :: e in combinations ==> e in done || e in rest
      invariant forall t :: t in result <==> ZeroSum(values, t) && IndexSet(list, t) in done
      decreases |rest|
    {
      if forall y :: y !in rest {
        assert false;
      }
      var subset :| subset in rest;
      var sum := MappedSum(list, subset);
      if sum == 0 {
        result := result + {Mapped(list, subset)};
      }
      forall t
        ensures t in result <==> ZeroSum(values, t) && IndexSet(list, t) in done + {subset}
      {
        FoundStep(values, list, done, subset, t);
      }
      rest := rest - {subset};
      done := done + {subset};
    }
    forall t | ZeroSum(values, t)
      ensures IndexSet(list, t) in combinations
    {
      IndicesOf(list, t);
      RangeCard(IndexSet(list, t), n);
    }
  }
}
