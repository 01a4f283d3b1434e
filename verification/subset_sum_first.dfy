/** The enumerator that stops at the first non-empty subset of a set of
    integers whose elements add up to zero. Its candidates are built by
    pairwise unions: order k holds every union of two sets of order k - 1,
    so the largest candidate doubles in size with each order. */
module SubsetSumFirst {
  import opened SubsetSumCommon

  /** What `Calc` ends with: the subset found, none at all, or, for an empty
      input, the endless descent in the candidate generator (the order
      counts down from 0 and never meets 1). */
  datatype Outcome = Found(subset: set<int>) | NotFound | StackOverflow

  function Pow2(k: nat): (r: nat)
    ensures r >= 1
  {
    if k == 0 then 1 else 2 * Pow2(k - 1)
  }

  /** n indices never outnumber the 2^(n-1) sizes the order-n candidates reach. */
  lemma {:induction false} PowBound(n: nat)
    requires n >= 1
    ensures n <= Pow2(n - 1)
  {
    if n > 1 {
      PowBound(n - 1);
    }
  }

  /** `s` is the union of `base` with a set of at most `bound` indices below `n`. */
  ghost predicate Reachable(base: set<int>, s: set<int>, n: int, bound: int) {
    base <= s && InRange(s, n) && |s - base| <= bound
  }

  /** `s` is `base` joined with one of the sets in `done`. */
  ghost predicate Joined(base: set<int>, done: set<set<int>>, s: set<int>) {
    exists e :: e in done && s == base + e
  }

  /** `s` is reachable from one of the bases in `done`. */
  ghost predicate Covered(done: set<set<int>>, s: set<int>, n: int, bound: int) {
    exists b :: b in done && Reachable(b, s, n, bound)
  }

  /** Joining with one more set `e` adds exactly `base + e`. */
  lemma JoinedStep(base: set<int>, done: set<set<int>>, e: set<int>, s: set<int>)
    ensures Joined(base, done + {e}, s) <==> Joined(base, done, s) || s == base + e
  {
    if s == base + e {
      assert e in done + {e};
    }
  }

  /** A set joined to `base` from the index sets of at most `bound`
      elements is reachable from `base`. */
  lemma JoinedSound(base: set<int>, e: set<int>, n: int, bound: int)
    requires InRange(base, n) && InRange(e, n) && |e| <= bound
    ensures Reachable(base, base + e, n, bound)
  {
    SubsetCard(base + e - base, e);
  }

  /** A set reachable from `base` is `base` joined with a non-empty index set
      of at most `bound` elements. */
  lemma JoinedComplete(base: set<int>, done: set<set<int>>, s: set<int>, n: int, bound: int)
    requires InRange(base, n) && 1 <= |base| <= bound
    requires forall e :: e in done <==> InRange(e, n) && 1 <= |e| <= bound
    requires Reachable(base, s, n, bound)
    ensures Joined(base, done, s)
  {
    var e := if s - base == {} then base else s - base;
    assert s == base + e;
    assert e in done;
  }

  /** Joined with every non-empty index set of at most `bound` elements,
      `base` reaches exactly the sets it can reach with `bound` more indices. */
  lemma JoinedAll(base: set<int>, done: set<set<int>>, s: set<int>, n: int, bound: int)
    requires InRange(base, n) && 1 <= |base| <= bound
    requires forall e :: e in done <==> InRange(e, n) && 1 <= |e| <= bound
    ensures Joined(base, done, s) <==> Reachable(base, s, n, bound)
  {
    if Joined(base, done, s) {
      var e :| e in done && s == base + e;
      JoinedSound(base, e, n, bound);
    }
    if Reachable(base, s, n, bound) {
      JoinedComplete(base, done, s, n, bound);
    }
  }

  /** Covering from one more base adds what that base reaches. */
  lemma CoveredStep(done: set<set<int>>, base: set<int>, s: set<int>, n: int, bound: int)
    ensures Covered(done + {base}, s, n, bound) <==> Covered(done, s, n, bound) || Reachable(base, s, n, bound)
  {
    if Reachable(base, s, n, bound) {
      assert base in done + {base};
    }
  }

  /** What one base reaches is a non-empty index set of at most twice `bound`
      elements. */
  lemma CoveredSound(b: set<int>, s: set<int>, n: int, bound: int)
    requires 1 <= |b| <= bound && Reachable(b, s, n, bound)
    ensures InRange(s, n) && 1 <= |s| <= 2 * bound
  {
    assert s == b + (s - b);
    UnionCard(b, s - b);
    SubsetCard(b, s);
  }

  /** A non-empty index set of at most twice `bound` elements is reachable
      from some subset of it with 1 to `bound` elements. */
  lemma CoveredComplete(done: set<set<int>>, s: set<int>, n: int, bound: int)
    requires bound >= 1
    requires forall e :: e in done <==> InRange(e, n) && 1 <= |e| <= bound
    requires InRange(s, n) && 1 <= |s| <= 2 * bound
    ensures Covered(done, s, n, bound)
  {
    var p := if |s| < bound then |s| else bound;
    var b := SubsetOfSize(s, p);
    assert |s - b| == |s| - |b|;
    assert b in done;
    assert Reachable(b, s, n, bound);
  }

  /** Covered from every non-empty index set of at most `bound` elements are
      exactly the non-empty index sets of at most twice that many. */
  lemma CoveredAll(done: set<set<int>>, s: set<int>, n: int, bound: int)
    requires bound >= 1
    requires forall e :: e in done <==> InRange(e, n) && 1 <= |e| <= bound
    ensures Covered(done, s, n, bound) <==> InRange(s, n) && 1 <= |s| <= 2 * bound
  {
    if Covered(done, s, n, bound) {
      var b :| b in done && Reachable(b, s, n, bound);
      CoveredSound(b, s, n, bound);
    }
    if InRange(s, n) && 1 <= |s| <= 2 * bound {
      CoveredComplete(done, s, n, bound);
    }
  }

  /** One pass of the outer loop of `GetSubsets`: `base` joined with every
      set of `subsets`. */
  method JoinAll(subsets: set<set<int>>, base: set<int>, n: int, bound: int, ghost before: set<set<int>>,
                 start: set<set<int>>)
    returns (result: set<set<int>>)
    requires InRange(base, n) && 1 <= |base| <= bound
    requires forall e :: e in subsets <==> InRange(e, n) && 1 <= |e| <= bound
    requires forall s :: s in start <==> Covered(before, s, n, bound)
    ensures forall s :: s in result <==> Covered(before + {base}, s, n, bound)
  {
    result := start;
    var rest := subsets;
    ghost var done: set<set<int>> := {};
    while rest != {}
      invariant rest <= subsets && done <= subsets
      invariant forall e :: e in subsets ==> e in done || e in rest
      invariant forall s :: s in result <==> Covered(before, s, n, bound) || Joined(base, done, s)
      decreases |rest|
    {
      if forall y :: y !in rest {
        assert false;
      }
      var elem :| elem in rest;
      result := result + {base + elem};
      forall s
        ensures s in result <==> Covered(before, s, n, bound) || Joined(base, done + {elem}, s)
      {
        JoinedStep(base, done, elem, s);
      }
      rest := rest - {elem};
      done := done + {elem};
    }
    forall s
      ensures s in result <==> Covered(before + {base}, s, n, bound)
    {
      JoinedAll(base, done, s, n, bound);
      CoveredStep(before, base, s, n, bound);
    }
  }

  /** Every index set below `n` with 1 to 2^(order-1) elements: the
      singletons, and for each larger order every union of two sets of the
      previous order. */
  method GetSubsets(n: nat, order: int) returns (result: set<set<int>>)
    requires order >= 1
    ensures forall s :: s in result <==> InRange(s, n) && 1 <= |s| <= Pow2(order - 1)
    decreases order
  {
    if order == 1 {
      result := {};
      var i := 0;
      while i < n
        invariant 0 <= i <= n
        invariant forall s :: s in result <==> exists x :: 0 <= x < i && s == {x}
      {
        result := result + {{i}};
        i := i + 1;
      }
      forall s
        ensures s in result <==> InRange(s, n) && 1 <= |s| <= 1
      {
        if InRange(s, n) && |s| == 1 {
          Singleton(s);
        }
      }
      return;
    }
    var subsets := GetSubsets(n, order - 1);
    var bound := Pow2(order - 2);
    result := {};
    var rest := subsets;
    ghost var done: set<set<int>> := {};
    while rest != {}
      invariant rest <= subsets && done <= subsets
      invariant forall e :: e in subsets ==> e in done || e in rest
      invariant forall s :: s in result <==> Covered(done, s, n, bound)
      decreases |rest|
    {
      if forall y :: y !in rest {
        assert false;
      }
      var base :| base in rest;
      result := JoinAll(subsets, base, n, bound, done, result);
      rest := rest - {base};
      done := done + {base};
    }
    forall s
      ensures s in result <==> InRange(s, n) && 1 <= |s| <= Pow2(order - 1)
    {
      CoveredAll(done, s, n, bound);
    }
  }

  /** When no candidate index set maps to a zero sum, no subset sums to zero. */
  lemma NoneLeft(values: set<int>, list: seq<int>)
    requires forall x :: x in list <==> x in values
    requires |list| >= 1
    requires forall idx :: InRange(idx, |list|) && 1 <= |idx| <= Pow2(|list| - 1) ==>
      SetSum(Mapped(list, idx)) != 0
    ensures forall t :: !ZeroSum(values, t)
  {
    PowBound(|list|);
    forall t | ZeroSum(values, t)
      ensures false
    {
      IndicesOf(list, t);
      RangeCard(IndexSet(list, t), |list|);
    }
  }

  /** A non-empty zero-sum subset of `values` if there is one; `NotFound`
      when there is none; `StackOverflow` for an empty input. */
  method Calc(values: set<int>) returns (r: Outcome)
    ensures r.StackOverflow? <==> values == {}
    ensures r.Found? ==> ZeroSum(values, r.subset)
    ensures r.NotFound? <==> values != {} && forall t :: !ZeroSum(values, t)
  {
    if values == {} {
      return StackOverflow;
    }
    var list := ToList(values);
    var n := |values|;
    var all := GetSubsets(n, n);
    var rest := all;
    while rest != {}
      invariant rest <= all
      invariant forall idx :: InRange(idx, n) && 1 <= |idx| <= Pow2(n - 1) && idx !in rest ==>
        SetSum(Mapped(list, idx)) != 0
      decreases |rest|
    {
      if forall y :: y !in rest {
        assert false;
      }
      var subset :| subset in rest;
      var sum := MappedSum(list, subset);
      if sum == 0 {
        MappedSubset(values, list, subset);
        assert ZeroSum(values, Mapped(list, subset));
        return Found(Mapped(list, subset));
      }
      rest := rest - {subset};
    }
    NoneLeft(values, list);
    return NotFound;
  }

  /** 1 + 2 + 3 + 4 + 5 + 6 = 21. */
  lemma SumOneToSix()
    ensures SetSum({1, 2, 3, 4, 5, 6}) == 21
  {
    SetSumRemove({1, 2, 3, 4, 5, 6}, 1);
    assert {1, 2, 3, 4, 5, 6} - {1} == {2, 3, 4, 5, 6};
    SetSumRemove({2, 3, 4, 5, 6}, 2);
    assert {2, 3, 4, 5, 6} - {2} == {3, 4, 5, 6};
    SetSumRemove({3, 4, 5, 6}, 3);
    assert {3, 4, 5, 6} - {3} == {4, 5, 6};
    SetSumRemove({4, 5, 6}, 4);
    assert {4, 5, 6} - {4} == {5, 6};
    SetSumRemove({5, 6}, 5);
    assert {5, 6} - {5} == {6};
    SetSumRemove({6}, 6);
    assert {6} - {6} == {};
  }

  /** A non-empty zero-sum subset of {-21, 1, 2, 3, 4, 5, 6} needs -21 and
      then all of 1..6 to cancel it. */
  lemma NeedsAll(t: set<int>)
    requires ZeroSum({-21, 1, 2, 3, 4, 5, 6}, t)
    ensures t == {-21, 1, 2, 3, 4, 5, 6}
  {
    var positives := {1, 2, 3, 4, 5, 6};
    var rest := t - {-21};
    assert rest <= positives by {
      forall x | x in rest ensures x in positives {
        assert x in {-21, 1, 2, 3, 4, 5, 6} && x != -21;
      }
    }
    if -21 !in t {
      assert t <= positives;
      SetSumPositive(t);
      assert false;
    }
    SumOneToSix();
    SetSumRemove(t, -21);
    assert SetSum(rest) == 21;
    SetSumSplit(positives, rest);
    SetSumPositive(positives - rest);
    assert positives - rest == {};
    assert rest == positives by {
      forall x | x in positives ensures x in rest {
        assert x !in positives - rest;
      }
    }
    assert t == rest + {-21};
  }

  /** In {-21, 1, 2, 3, 4, 5, 6} the only non-empty zero-sum subset is the
      whole set, so that is what `Calc` finds. */
  lemma OnlyTheWholeSet()
    ensures forall t :: ZeroSum({-21, 1, 2, 3, 4, 5, 6}, t) <==> t == {-21, 1, 2, 3, 4, 5, 6}
  {
    var whole := {-21, 1, 2, 3, 4, 5, 6};
    SumOneToSix();
    SetSumRemove(whole, -21);
    assert whole - {-21} == {1, 2, 3, 4, 5, 6};
    forall t | ZeroSum(whole, t)
      ensures t == whole
    {
      NeedsAll(t);
    }
  }
}
