/** The linked binary search tree node. Values are integers (the
    comparable type of the tests). Each node carries, as ghost state, the
    footprint of its subtree and the shape of its subtree as a SearchTree
    value; every operation is specified by what it does to that value. */
module TreeNode {
  import opened SearchTree

  /** How a call of `Remove` ends: it returns a boolean, or it dereferences
      a null parent. */
  datatype RemoveOutcome = Returned(found: bool) | NullPointerException

  class Node {
    var left: Node?
    var right: Node?
    var value: int

    ghost var Repr: set<object>
    ghost var T: Tree

    /** The links form a tree: the children own disjoint footprints inside
        this one that do not contain this node, and `T` is the shape of the
        subtree reached through the links. */
    ghost predicate Linked()
      reads this, Repr
      decreases Repr
    {
      this in Repr &&
      (left != null ==>
        left in Repr && left.Repr <= Repr && this !in left.Repr && left.Linked()) &&
      (right != null ==>
        right in Repr && right.Repr <= Repr && this !in right.Repr && right.Linked()) &&
      (left != null && right != null ==> left.Repr !! right.Repr) &&
      T == Bin(Sub(left), value, Sub(right))
    }

    /** The object invariant: a linked tree in search-tree order. */
    ghost predicate Valid()
      reads this, Repr
    {
      Linked() && Ordered(T)
    }

    /** A single node holding `value`. */
    constructor (value: int)
      ensures Valid() && fresh(Repr)
      ensures T == Bin(Nil, value, Nil)
    {
      this.value := value;
      left, right := null, null;
      Repr := {this};
      T := Bin(Nil, value, Nil);
    }

    /** Inserts `v`: strictly smaller values go into the left subtree, all
        others into the right one, and a new node takes the place of the
        missing subtree at the end of the path. */
    method Add(v: int)
      requires Valid()
      modifies Repr
      ensures Valid() && fresh(Repr - old(Repr))
      ensures T == Insert(old(T), v)
      decreases Repr, 1
    {
      assert T == Bin(Sub(left), value, Sub(right));
      if value > v {
        AddLeft(v);
      } else {
        AddRight(v);
      }
    }

    /** The branch of `Add` for a value smaller than this node's. */
    method AddLeft(v: int)
      requires Valid() && value > v
      modifies Repr
      ensures Valid() && fresh(Repr - old(Repr))
      ensures value == old(value) && T == Bin(Insert(old(Sub(left)), v), value, old(Sub(right)))
      decreases Repr, 0
    {
      ghost var t := T;
      ghost var other := right;
      assert other != null ==> other.Linked() && this !in other.Repr && other.Repr <= Repr;
      if left != null {
        assert left.Linked() && this !in left.Repr && (other != null ==> left.Repr !! other.Repr);
        left.Add(v);
      } else {
        left := new Node(v);
      }
      Repr := Repr + left.Repr;
      assert right == other && (other != null ==> other.Linked() && left.Repr !! other.Repr);
      assert left.Linked() && this !in left.Repr && Sub(left) == Insert(t.left, v);
      T := Bin(Sub(left), value, Sub(right));
      LinkedIntro(this);
      InsertOrdered(t, v);
    }

    /** The branch of `Add` for a value at least this node's. */
    method AddRight(v: int)
      requires Valid() && value <= v
      modifies Repr
      ensures Valid() && fresh(Repr - old(Repr))
      ensures value == old(value) && T == Bin(old(Sub(left)), value, Insert(old(Sub(right)), v))
      decreases Repr, 0
    {
      ghost var t := T;
      ghost var other := left;
      assert other != null ==> other.Linked() && this !in other.Repr && other.Repr <= Repr;
      if right != null {
        assert right.Linked() && this !in right.Repr && (other != null ==> right.Repr !! other.Repr);
        right.Add(v);
      } else {
        right := new Node(v);
      }
      Repr := Repr + right.Repr;
      assert left == other && (other != null ==> other.Linked() && right.Repr !! other.Repr);
      assert right.Linked() && this !in right.Repr && Sub(right) == Insert(t.right, v);
      T := Bin(Sub(left), value, Sub(right));
      LinkedIntro(this);
      InsertOrdered(t, v);
    }

    /** Whether some node holds `v`, found by following the search path
        only. */
    function Contains(v: int): (b: bool)
      requires Valid()
      reads Repr
      ensures b <==> Count(T, v) > 0
      decreases Repr
    {
      BoundsCount(Sub(left), value, v);
      BoundsCount(Sub(right), value, v);
      if value == v then true
      else if value > v then left != null && left.Contains(v)
      else right != null && right.Contains(v)
    }

    /** The number of nodes of the subtree. */
    function Size(): (n: nat)
      requires Valid()
      reads Repr
      ensures n == SearchTree.Size(T) && n >= 1
      decreases Repr
    {
      (if left == null then 0 else left.Size()) +
      (if right == null then 0 else right.Size()) + 1
    }

    /** The leftmost value, which is the smallest stored value. */
    function Min(): (m: int)
      requires Valid()
      reads Repr
      ensures m == Leftmost(T)
      ensures Count(T, m) > 0 && forall x :: Count(T, x) > 0 ==> m <= x
      decreases Repr
    {
      Extremes(T);
      if left == null then value else left.Min()
    }

    /** The rightmost value, which is the largest stored value. */
    function Max(): (m: int)
      requires Valid()
      reads Repr
      ensures m == Rightmost(T)
      ensures Count(T, m) > 0 && forall x :: Count(T, x) > 0 ==> x <= m
      decreases Repr
    {
      Extremes(T);
      if right == null then value else right.Max()
    }

    /** The subtree that takes this node's place when it is unlinked: its
        left child if it has one, else its right child. */
    function Replacement(): Node?
      reads this
    {
      if left != null then left else right
    }

    /** This node holds `v` and has at most one child, so removing `v` from
        here unlinks this node from its parent instead of changing the
        subtree. */
    predicate UnlinksAt(v: int)
      reads this
    {
      value == v && (left == null || right == null)
    }

    /** Removes one occurrence of `v` from the subtree, given the node
        `parent` whose child this node is. A node holding `v` with two
        children takes the smallest value of its right subtree, which is
        then removed from there; a node holding `v` with at most one child
        is replaced in whichever link of `parent` points to it by that
        child, and with a null `parent` the call fails. The result tells
        whether `v` was found. */
    method Remove(v: int, parent: Node?) returns (r: RemoveOutcome)
      requires Valid()
      requires parent != null ==> parent !in Repr
      modifies Repr, (if parent == null then {} else {parent})`left,
        (if parent == null then {} else {parent})`right
      ensures !old(UnlinksAt(v)) ==>
        Valid() && Repr == old(Repr) && T == Delete(old(T), v) &&
        r == Returned(Count(old(T), v) > 0) &&
        (parent != null ==> parent.left == old(parent.left) && parent.right == old(parent.right))
      ensures Count(old(T), v) == 0 ==> unchanged(Repr)
      ensures old(UnlinksAt(v)) ==> Repr == old(Repr) && unchanged(Repr)
      ensures old(UnlinksAt(v)) && parent == null ==> r == NullPointerException
      ensures old(UnlinksAt(v)) && parent != null ==>
        r == Returned(true) &&
        parent.left == (if old(parent.left) == this then old(Replacement()) else old(parent.left)) &&
        parent.right == (if old(parent.left) != this && old(parent.right) == this
                         then old(Replacement()) else old(parent.right))
      decreases Repr, 2
    {
      if v < value {
        if left != null {
          BoundsCount(Sub(right), value, v);
          r := RemoveInLeft(v);
        } else {
          BoundsCount(Sub(right), value, v);
          r := Returned(false);
        }
      } else if v > value {
        if right != null {
          BoundsCount(Sub(left), value, v);
          r := RemoveInRight(v);
        } else {
          BoundsCount(Sub(left), value, v);
          r := Returned(false);
        }
      } else {
        if left != null && right != null {
          ReplaceBySuccessor();
        } else if parent == null {
          return NullPointerException;
        } else if parent.left == this {
          parent.left := if left != null then left else right;
        } else if parent.right == this {
          parent.right := if left != null then left else right;
        }
        r := Returned(true);
      }
    }

    /** The recursive call of `Remove` on the left child, with this node as
        the parent, after which this node's shape is updated to match. */
    method RemoveInLeft(v: int) returns (r: RemoveOutcome)
      requires Valid() && v < value && left != null
      modifies Repr
      ensures Valid() && Repr == old(Repr) && value == old(value)
      ensures T == Bin(Delete(old(Sub(left)), v), value, old(Sub(right)))
      ensures r == Returned(Count(old(Sub(left)), v) > 0)
      ensures Count(old(Sub(left)), v) == 0 ==> unchanged(Repr)
      decreases Repr, 0
    {
      var child := left;
      ghost var c, rt := child.T, Sub(right);
      ghost var unlinks, rep := child.UnlinksAt(v), child.Replacement();
      assert child.Linked() && this !in child.Repr;
      assert unlinks ==> Sub(rep) == Delete(c, v);
      assert rep != null ==> rep in child.Repr && rep.Repr <= child.Repr && rep.Linked();
      ghost var other := right;
      assert other != null ==> other.Linked() && other.Repr !! child.Repr && this !in other.Repr;
      r := child.Remove(v, this);
      assert right == other && (other != null ==> other.Linked());
      if unlinks {
        assert left == rep && unchanged(child.Repr);
        assert rep != null ==> rep.Linked() && rep.Repr <= Repr && this !in rep.Repr &&
                               (other != null ==> rep.Repr !! other.Repr);
      } else {
        assert left == child && child.Linked() && child.Repr <= Repr && this !in child.Repr &&
               (other != null ==> child.Repr !! other.Repr);
      }
      T := Bin(Sub(left), value, rt);
      LinkedIntro(this);
      DeleteOrdered(c, v);
      DeleteBounds(c, v, value);
    }

    /** The recursive call of `Remove` on the right child, with this node as
        the parent, after which this node's shape is updated to match. */
    method RemoveInRight(v: int) returns (r: RemoveOutcome)
      requires Valid() && value <= v && right != null
      modifies Repr
      ensures Valid() && Repr == old(Repr) && value == old(value)
      ensures T == Bin(old(Sub(left)), value, Delete(old(Sub(right)), v))
      ensures r == Returned(Count(old(Sub(right)), v) > 0)
      ensures Count(old(Sub(right)), v) == 0 ==> unchanged(Repr)
      decreases Repr, 0
    {
      var child := right;
      ghost var c, lt := child.T, Sub(left);
      ghost var unlinks, rep := child.UnlinksAt(v), child.Replacement();
      assert child.Linked() && this !in child.Repr;
      assert unlinks ==> Sub(rep) == Delete(c, v);
      assert rep != null ==> rep in child.Repr && rep.Repr <= child.Repr && rep.Linked();
      ghost var other := left;
      assert other != null ==> other.Linked() && other.Repr !! child.Repr && this !in other.Repr;
      r := child.Remove(v, this);
      assert left == other && (other != null ==> other.Linked());
      if unlinks {
        assert right == rep && unchanged(child.Repr);
        assert rep != null ==> rep.Linked() && rep.Repr <= Repr && this !in rep.Repr &&
                               (other != null ==> rep.Repr !! other.Repr);
      } else {
        assert right == child && child.Linked() && child.Repr <= Repr && this !in child.Repr &&
               (other != null ==> child.Repr !! other.Repr);
      }
      T := Bin(lt, value, Sub(right));
      LinkedIntro(this);
      DeleteOrdered(c, v);
      DeleteBounds(c, v, value);
    }

    /** The two-children case of `Remove`: this node takes the smallest value
        of its right subtree, which is then removed from the right subtree
        with this node as its parent. */
    method ReplaceBySuccessor()
      requires Valid() && left != null && right != null
      modifies Repr
      ensures Valid() && Repr == old(Repr)
      ensures T == Delete(old(T), old(value))
      decreases Repr, 1
    {
      ghost var t := T;
      assert left.Linked() && right.Linked();
      value := right.Min();
      assert t.left == Sub(left) != Nil && t.right == Sub(right) != Nil;
      assert value == Leftmost(t.right);
      LeftmostLeast(t.right);
      EndsWithin(t.right, t.value);
      Loosen(t.left, t.value, value);
      T := Bin(Sub(left), value, Sub(right));
      LinkedIntro(this);
      var _ := RemoveInRight(value);
      assert T == Bin(t.left, Leftmost(t.right), Delete(t.right, Leftmost(t.right)));
    }
  }

  /** The growth of a tree from 10 by adding 5, 6, 12 and 15: the sizes
      observed after the construction and after each addition. */
  method SizeScenario() returns (sizes: seq<nat>)
    ensures sizes == [1, 2, 3, 4, 5]
  {
    var node := new Node(10);
    var n0 := node.Size();
    node.Add(5);
    assert node.T == Bin(Bin(Nil, 5, Nil), 10, Nil);
    var n1 := node.Size();
    node.Add(6);
    assert node.T == Bin(Bin(Nil, 5, Bin(Nil, 6, Nil)), 10, Nil);
    var n2 := node.Size();
    node.Add(12);
    assert node.T == Bin(Bin(Nil, 5, Bin(Nil, 6, Nil)), 10, Bin(Nil, 12, Nil));
    var n3 := node.Size();
    node.Add(15);
    assert node.T == Bin(Bin(Nil, 5, Bin(Nil, 6, Nil)), 10, Bin(Nil, 12, Bin(Nil, 15, Nil)));
    var n4 := node.Size();
    sizes := [n0, n1, n2, n3, n4];
  }

  /** The same growth, observed through `Contains`: after the construction
      and after each addition every value added so far is found and the next
      one to be added is not. */
  method ContainsScenario() returns (s0: seq<bool>, s1: seq<bool>, s2: seq<bool>, s3: seq<bool>, s4: seq<bool>)
    ensures s0 == [true, false]
    ensures s1 == [true, true, false]
    ensures s2 == [true, true, true, false]
    ensures s3 == [true, true, true, true, false]
    ensures s4 == [true, true, true, true, true, false]
  {
    var node := new Node(10);
    s0 := [node.Contains(10), node.Contains(5)];
    node.Add(5);
    s1 := [node.Contains(10), node.Contains(5), node.Contains(6)];
    node.Add(6);
    s2 := [node.Contains(10), node.Contains(5), node.Contains(6), node.Contains(12)];
    node.Add(12);
    s3 := [node.Contains(10), node.Contains(5), node.Contains(6), node.Contains(12), node.Contains(15)];
    node.Add(15);
    s4 := [node.Contains(10), node.Contains(5), node.Contains(6), node.Contains(12), node.Contains(15),
           node.Contains(16)];
  }

  /** The definition of `Linked`, unfolded once: the links of `n` and the
      footprints and shapes of its children make `n` a linked tree. */
  lemma LinkedIntro(n: Node)
    requires n in n.Repr
    requires n.left != null ==>
        n.left in n.Repr && n.left.Repr <= n.Repr && n !in n.left.Repr && n.left.Linked()
    requires n.right != null ==>
        n.right in n.Repr && n.right.Repr <= n.Repr && n !in n.right.Repr && n.right.Linked()
    requires n.left != null && n.right != null ==> n.left.Repr !! n.right.Repr
    requires n.T == Bin(Sub(n.left), n.value, Sub(n.right))
    ensures n.Linked()
  {
  }

  /** The shape of a possibly missing subtree. */
  ghost function Sub(n: Node?): Tree
    reads n
  {
    if n == null then Nil else n.T
  }
}
