/** The shape of a binary search tree as a value. The linked nodes of
    TreeNode each carry the value of their subtree, so what `add` and
    `remove` do to the links is stated here, once, as a function on trees,
    and what those functions keep (the ordering, the stored values, the
    number of nodes) is proved here about the values. The values stored in
    a tree are described by `Count`, the number of nodes holding a value. */
module SearchTree {

  datatype Tree = Nil | Bin(left: Tree, value: int, right: Tree)

  /** How many nodes of `t` hold `x`. */
  function Count(t: Tree, x: int): nat {
    match t
    case Nil => 0
    case Bin(l, v, r) => Count(l, x) + (if v == x then 1 else 0) + Count(r, x)
  }

  /** The number of nodes of `t`. */
  function Size(t: Tree): nat {
    match t
    case Nil => 0
    case Bin(l, _, r) => Size(l) + 1 + Size(r)
  }

  /** Every value in `t` is smaller than `b`. */
  predicate AllLess(t: Tree, b: int) {
    match t
    case Nil => true
    case Bin(l, v, r) => v < b && AllLess(l, b) && AllLess(r, b)
  }

  /** Every value in `t` is at least `b`. */
  predicate AllAtLeast(t: Tree, b: int) {
    match t
    case Nil => true
    case Bin(l, v, r) => b <= v && AllAtLeast(l, b) && AllAtLeast(r, b)
  }

  /** The search-tree order: everything on the left of a node is smaller
      than its value, everything on the right is at least its value. */
  predicate Ordered(t: Tree) {
    match t
    case Nil => true
    case Bin(l, v, r) => Ordered(l) && Ordered(r) && AllLess(l, v) && AllAtLeast(r, v)
  }

  /** The bounds speak about the stored values: a value outside a bound is
      held by no node. */
  lemma {:induction false} BoundsCount(t: Tree, b: int, x: int)
    ensures AllLess(t, b) && b <= x ==> Count(t, x) == 0
    ensures AllAtLeast(t, b) && x < b ==> Count(t, x) == 0
  {
    match t
    case Nil =>
    case Bin(l, v, r) =>
      BoundsCount(l, b, x);
      BoundsCount(r, b, x);
  }

  /** The tree after inserting `x`: strictly smaller values go left, all
      others go right, and a new leaf takes the place of the missing
      subtree at the end of the path. */
  function Insert(t: Tree, x: int): Tree {
    match t
    case Nil => Bin(Nil, x, Nil)
    case Bin(l, v, r) =>
      if v > x then Bin(Insert(l, x), v, r) else Bin(l, v, Insert(r, x))
  }

  /** Inserting adds exactly one node, which holds `x`, and keeps every
      other value's count. */
  lemma {:induction false} InsertCount(t: Tree, x: int, y: int)
    ensures Count(Insert(t, x), y) == Count(t, y) + (if x == y then 1 else 0)
    ensures Size(Insert(t, x)) == Size(t) + 1
  {
    match t
    case Nil =>
    case Bin(l, v, r) =>
      if v > x {
        InsertCount(l, x, y);
      } else {
        InsertCount(r, x, y);
      }
  }

  /** Inserting a value within a bound keeps the bound. */
  lemma {:induction false} InsertBounds(t: Tree, x: int, b: int)
    ensures AllLess(t, b) && x < b ==> AllLess(Insert(t, x), b)
    ensures AllAtLeast(t, b) && b <= x ==> AllAtLeast(Insert(t, x), b)
  {
    match t
    case Nil =>
    case Bin(l, v, r) =>
      InsertBounds(l, x, b);
      InsertBounds(r, x, b);
  }

  /** Inserting keeps the search-tree order. */
  lemma {:induction false} InsertOrdered(t: Tree, x: int)
    requires Ordered(t)
    ensures Ordered(Insert(t, x))
  {
    match t
    case Nil =>
    case Bin(l, v, r) =>
      if v > x {
        InsertOrdered(l, x);
        InsertBounds(l, x, v);
      } else {
        InsertOrdered(r, x);
        InsertBounds(r, x, v);
      }
  }

  /** The leftmost value of a non-empty tree. */
  function Leftmost(t: Tree): int
    requires t != Nil
  {
    if t.left == Nil then t.value else Leftmost(t.left)
  }

  /** The rightmost value of a non-empty tree. */
  function Rightmost(t: Tree): int
    requires t != Nil
  {
    if t.right == Nil then t.value else Rightmost(t.right)
  }

  /** The leftmost and the rightmost values are stored values, so they lie
      within every bound of the tree. */
  lemma {:induction false} EndsWithin(t: Tree, b: int)
    requires t != Nil
    ensures Count(t, Leftmost(t)) > 0 && Count(t, Rightmost(t)) > 0
    ensures AllLess(t, b) ==> Leftmost(t) < b && Rightmost(t) < b
    ensures AllAtLeast(t, b) ==> b <= Leftmost(t) && b <= Rightmost(t)
  {
    if t.left != Nil {
      EndsWithin(t.left, b);
    }
    if t.right != Nil {
      EndsWithin(t.right, b);
    }
  }

  /** A bound holds for every looser bound. */
  lemma {:induction false} Loosen(t: Tree, b: int, c: int)
    ensures AllLess(t, b) && b <= c ==> AllLess(t, c)
    ensures AllAtLeast(t, b) && c <= b ==> AllAtLeast(t, c)
  {
    match t
    case Nil =>
    case Bin(l, v, r) =>
      Loosen(l, b, c);
      Loosen(r, b, c);
  }

  /** In an ordered tree the leftmost value is a lower bound of all values. */
  lemma {:induction false} LeftmostLeast(t: Tree)
    requires t != Nil && Ordered(t)
    ensures AllAtLeast(t, Leftmost(t))
  {
    var m := Leftmost(t);
    if t.left != Nil {
      LeftmostLeast(t.left);
      EndsWithin(t.left, t.value);
      Loosen(t.right, t.value, m);
    }
  }

  /** In an ordered tree the rightmost value is an upper bound of all
      values. */
  lemma {:induction false} RightmostGreatest(t: Tree)
    requires t != Nil && Ordered(t)
    ensures AllLess(t, Rightmost(t) + 1)
  {
    var m := Rightmost(t);
    if t.right != Nil {
      RightmostGreatest(t.right);
      EndsWithin(t.right, t.value);
    }
    Loosen(t.left, t.value, m + 1);
  }

  /** In an ordered tree the leftmost value is the smallest stored value
      and the rightmost value the largest. */
  lemma Extremes(t: Tree)
    requires t != Nil && Ordered(t)
    ensures Count(t, Leftmost(t)) > 0 && forall x :: Count(t, x) > 0 ==> Leftmost(t) <= x
    ensures Count(t, Rightmost(t)) > 0 && forall x :: Count(t, x) > 0 ==> x <= Rightmost(t)
  {
    EndsWithin(t, 0);
    LeftmostLeast(t);
    RightmostGreatest(t);
    forall x | Count(t, x) > 0
      ensures Leftmost(t) <= x <= Rightmost(t)
    {
      BoundsCount(t, Leftmost(t), x);
      BoundsCount(t, Rightmost(t) + 1, x);
    }
  }

  /** The tree after removing `x` along its search path. When the node
      holding `x` has two children, its value becomes the leftmost value of
      its right subtree, which is then removed from that subtree; otherwise
      the node is unlinked and its only child, or nothing, takes its place.
      An absent value leaves the tree as it is. */
  function Delete(t: Tree, x: int): Tree {
    match t
    case Nil => Nil
    case Bin(l, v, r) =>
      if x < v then Bin(Delete(l, x), v, r)
      else if x > v then Bin(l, v, Delete(r, x))
      else if l != Nil && r != Nil then Bin(l, Leftmost(r), Delete(r, Leftmost(r)))
      else if l != Nil then l
      else r
  }

  /** Removing a value no node holds changes nothing. */
  lemma {:induction false} DeleteAbsent(t: Tree, x: int)
    requires Count(t, x) == 0
    ensures Delete(t, x) == t
  {
    match t
    case Nil =>
    case Bin(l, v, r) =>
      if x < v {
        DeleteAbsent(l, x);
      } else if x > v {
        DeleteAbsent(r, x);
      }
  }

  /** In an ordered tree, removing `x` takes away exactly one node holding
      `x` when there is one, and keeps every other value's count. */
  lemma {:induction false} DeleteCount(t: Tree, x: int, y: int)
    requires Ordered(t)
    ensures Count(Delete(t, x), y) == Count(t, y) - (if x == y && Count(t, x) > 0 then 1 else 0)
    ensures Size(Delete(t, x)) == Size(t) - (if Count(t, x) > 0 then 1 else 0)
  {
    match t
    case Nil =>
    case Bin(l, v, r) =>
      if x < v {
        BoundsCount(r, v, x);
        DeleteCount(l, x, y);
      } else if x > v {
        BoundsCount(l, v, x);
        DeleteCount(r, x, y);
      } else if l != Nil && r != Nil {
        var m := Leftmost(r);
        EndsWithin(r, v);
        DeleteCount(r, m, y);
      }
  }

  /** Removing keeps every bound of the tree. */
  lemma {:induction false} DeleteBounds(t: Tree, x: int, b: int)
    ensures AllLess(t, b) ==> AllLess(Delete(t, x), b)
    ensures AllAtLeast(t, b) ==> AllAtLeast(Delete(t, x), b)
  {
    match t
    case Nil =>
    case Bin(l, v, r) =>
      DeleteBounds(l, x, b);
      DeleteBounds(r, x, b);
      if x == v && l != Nil && r != Nil {
        EndsWithin(r, b);
        DeleteBounds(r, Leftmost(r), b);
      }
  }

  /** Removing keeps the search-tree order. */
  lemma {:induction false} DeleteOrdered(t: Tree, x: int)
    requires Ordered(t)
    ensures Ordered(Delete(t, x))
  {
    match t
    case Nil =>
    case Bin(l, v, r) =>
      if x < v {
        DeleteOrdered(l, x);
        DeleteBounds(l, x, v);
      } else if x > v {
        DeleteOrdered(r, x);
        DeleteBounds(r, x, v);
      } else if l != Nil && r != Nil {
        var m := Leftmost(r);
        LeftmostLeast(r);
        EndsWithin(r, v);
        DeleteOrdered(r, m);
        DeleteBounds(r, m, m);
        Loosen(l, v, m);
      }
  }
}
