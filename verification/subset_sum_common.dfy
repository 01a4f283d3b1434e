/** What both subset-sum enumerators share: the input set turned into an
    indexable list, index subsets mapped back to values, and the sum of a
    set of values. Sums are mathematical integers. */
module SubsetSumCommon {

  /** Some element of a non-empty set. */
  ghost function Pick(t: set<int>): (x: int)
    requires t != {}
    ensures x in t
  {
    if forall y :: y !in t then assert false; 0 else var y :| y in t; y
  }

  /** The sum of the elements of a finite set. */
  ghost function SetSum(t: set<int>): int {
    if t == {} then 0 else var x := Pick(t); x + SetSum(t - {x})
  }

  /** The sum does not depend on which element is taken out first. */
  lemma {:induction false} SetSumRemove(t: set<int>, y: int)
    requires y in t
    ensures SetSum(t) == y + SetSum(t - {y})
    decreases |t|
  {
    var x := Pick(t);
    if x != y {
      SetSumRemove(t - {x}, y);
      SetSumRemove(t - {y}, x);
      assert t - {x} - {y} == t - {y} - {x};
    }
  }

  /** The sum of a set is the sum of a subset plus the sum of the rest. */
  lemma {:induction false} SetSumSplit(t: set<int>, part: set<int>)
    requires part <= t
    ensures SetSum(t) == SetSum(part) + SetSum(t - part)
    decreases |part|
  {
    if part != {} {
      var y := Pick(part);
      SetSumRemove(t, y);
      SetSumRemove(part, y);
      SetSumSplit(t - {y}, part - {y});
      assert t - {y} - (part - {y}) == t - part;
    } else {
      assert t - part == t;
    }
  }

  /** A non-empty set of positive numbers has a positive sum. */
  lemma {:induction false} SetSumPositive(t: set<int>)
    requires forall x :: x in t ==> x > 0
    ensures t != {} ==> SetSum(t) > 0
    decreases |t|
  {
    if t != {} {
      var y := Pick(t);
      SetSumRemove(t, y);
      SetSumPositive(t - {y});
    }
  }

  ghost predicate Distinct(list: seq<int>) {
    forall a, b :: 0 <= a < b < |list| ==> list[a] != list[b]
  }

  /** The values at the indices of `subset`. */
  function Mapped(list: seq<int>, subset: set<int>): (t: set<int>)
    requires forall i :: i in subset ==> 0 <= i < |list|
    ensures forall x :: x in t <==> exists i :: i in subset && list[i] == x
  {
    set i | i in subset :: list[i]
  }

  /** The elements of `values` in some order (a hash set's iteration order,
      which the model leaves open). */
  method ToList(values: set<int>) returns (list: seq<int>)
    ensures Distinct(list) && |list| == |values|
    ensures forall x :: x in list <==> x in values
  {
    list := [];
    var rest := values;
    while rest != {}
      invariant rest <= values && Distinct(list)
      invariant forall x :: x in list <==> x in values && x !in rest
      invariant |list| + |rest| == |values|
      decreases |rest|
    {
      if forall y :: y !in rest {
        assert false;
      }
      var x :| x in rest;
      list := list + [x];
      rest := rest - {x};
    }
  }

  /** The sum of the values at the indices of `subset`, one index at a time. */
  method MappedSum(list: seq<int>, subset: set<int>) returns (sum: int)
    requires Distinct(list)
    requires forall i :: i in subset ==> 0 <= i < |list|
    ensures sum == SetSum(Mapped(list, subset))
  {
    sum := 0;
    var rest := subset;
    while rest != {}
      invariant rest <= subset
      invariant sum + SetSum(Mapped(list, rest)) == SetSum(Mapped(list, subset))
      decreases |rest|
    {
      if forall y :: y !in rest {
        assert false;
      }
      var i :| i in rest;
      assert Mapped(list, rest) - {list[i]} == Mapped(list, rest - {i});
      SetSumRemove(Mapped(list, rest), list[i]);
      sum := sum + list[i];
      rest := rest - {i};
    }
  }

  /** The indices of `list` whose values lie in `t`. */
  ghost function IndexSet(list: seq<int>, t: set<int>): (idx: set<int>)
    ensures forall i :: i in idx <==> 0 <= i < |list| && list[i] in t
  {
    set i | 0 <= i < |list| && list[i] in t
  }

  /** Every set of listed values is the image of the indices holding its
      elements, and a non-empty one has a non-empty index set. */
  lemma IndicesOf(list: seq<int>, t: set<int>)
    requires forall x :: x in t ==> x in list
    ensures Mapped(list, IndexSet(list, t)) == t
    ensures t != {} ==> IndexSet(list, t) != {}
  {
    var idx := IndexSet(list, t);
    forall x | x in t
      ensures x in Mapped(list, idx)
    {
      var i :| 0 <= i < |list| && list[i] == x;
      assert i in idx;
    }
  }

  /** With distinct values, an index set is recovered from its image. */
  lemma IndexSetOfMapped(list: seq<int>, idx: set<int>)
    requires Distinct(list)
    requires forall i :: i in idx ==> 0 <= i < |list|
    ensures IndexSet(list, Mapped(list, idx)) == idx
  {
    forall i | 0 <= i < |list| && list[i] in Mapped(list, idx)
      ensures i in idx
    {
      var j :| j in idx && list[j] == list[i];
    }
  }

  /** Every element of `idx` is an index below `n`. */
  predicate InRange(idx: set<int>, n: int) {
    forall i :: i in idx ==> 0 <= i < n
  }

  /** A set of indices below `n` has at most `n` elements. */
  lemma {:induction false} RangeCard(idx: set<int>, n: nat)
    requires InRange(idx, n)
    ensures |idx| <= n
  {
    if n == 0 {
      if idx != {} {
        var x := Pick(idx);
        assert false;
      }
    } else {
      RangeCard(idx - {n - 1}, n - 1);
    }
  }

  /** A set with a single element is that element's singleton. */
  lemma Singleton(s: set<int>)
    requires |s| == 1
    ensures s == {Pick(s)}
  {
    var x := Pick(s);
    assert |s - {x}| == 0;
    assert s - {x} == {};
  }

  /** `t` is a non-empty subset of `values` whose elements sum to zero. */
  ghost predicate ZeroSum(values: set<int>, t: set<int>) {
    t != {} && t <= values && SetSum(t) == 0
  }

  /** A set of positive numbers has no non-empty subset summing to zero. */
  lemma NoZeroSumOfPositives(values: set<int>)
    requires forall x :: x in values ==> x > 0
    ensures forall t :: !ZeroSum(values, t)
  {
    forall t | t != {} && t <= values
      ensures SetSum(t) != 0
    {
      SetSumPositive(t);
    }
  }

  /** The only non-empty subset of {0} is {0}, and it sums to zero. */
  lemma ZeroAlone()
    ensures forall t :: ZeroSum({0}, t) <==> t == {0}
  {
    forall t | t != {} && t <= {0}
      ensures t == {0} && SetSum(t) == 0
    {
      var x := Pick(t);
      assert t == {0};
      SetSumRemove(t, 0);
      assert t - {0} == {};
    }
    SetSumRemove({0}, 0);
    assert {0} - {0} == {};
  }

  /** Some subset of `s` with exactly `p` elements. */
  lemma {:induction false} SubsetOfSize(s: set<int>, p: nat) returns (b: set<int>)
    requires p <= |s|
    ensures b <= s && |b| == p
  {
    if p == 0 {
      b := {};
    } else {
      var smaller := SubsetOfSize(s, p - 1);
      assert |s - smaller| == |s| - (p - 1);
      var x := Pick(s - smaller);
      b := smaller + {x};
    }
  }

  /** A subset is no larger than its superset. */
  lemma SubsetCard(a: set<int>, b: set<int>)
    requires a <= b
    ensures |a| <= |b|
  {
    assert b == a + (b - a);
  }

  /** A union is no larger than its parts together. */
  lemma UnionCard(a: set<int>, b: set<int>)
    ensures |a + b| <= |a| + |b|
  {
    assert a + b == a + (b - a);
    SubsetCard(b - a, b);
  }

  /** The image of a non-empty index subset is a non-empty subset of the
      listed values. */
  lemma MappedSubset(values: set<int>, list: seq<int>, idx: set<int>)
    requires forall x :: x in list <==> x in values
    requires InRange(idx, |list|) && idx != {}
    ensures Mapped(list, idx) != {} && Mapped(list, idx) <= values
  {
    var i := Pick(idx);
    assert list[i] in Mapped(list, idx);
  }
}
