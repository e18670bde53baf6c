/**
 * The earlier point k-d tree of kdtree.cpp: nodes hold only a point and
 * two children, and the search visits the far side of a splitting plane
 * only when the plane is strictly closer than the best point so far.
 * Distances, `_closest_to` and the axis of a depth are shared with the
 * later tree.
 */
module EarlyPointTrees {
  import opened Vectors
  import Numerics
  import PointTrees

  datatype Tree = Leaf | Branch(value: Vec3, left: Tree, right: Tree)

  /** The points stored in a tree, with their multiplicities. */
  function Elements(t: Tree): multiset<Vec3>
  {
    match t
    case Leaf => multiset{}
    case Branch(v, l, r) => multiset{v} + Elements(l) + Elements(r)
  }

  /** Every point of t is strictly below c on axis dim. */
  predicate AllBelow(t: Tree, dim: Axis, c: real)
  {
    match t
    case Leaf => true
    case Branch(v, l, r) => v.Get(dim) < c && AllBelow(l, dim, c) && AllBelow(r, dim, c)
  }

  /** Every point of t is at least c on axis dim. */
  predicate AllAtLeast(t: Tree, dim: Axis, c: real)
  {
    match t
    case Leaf => true
    case Branch(v, l, r) => c <= v.Get(dim) && AllAtLeast(l, dim, c) && AllAtLeast(r, dim, c)
  }

  /** The search invariant: left strictly below and right not below on axis depth % 3. */
  predicate Ordered(t: Tree, depth: nat)
  {
    match t
    case Leaf => true
    case Branch(v, l, r) =>
      var dim := PointTrees.SplitAxis(depth);
      && AllBelow(l, dim, v.Get(dim))
      && AllAtLeast(r, dim, v.Get(dim))
      && Ordered(l, depth + 1)
      && Ordered(r, depth + 1)
  }

  lemma {:induction false} BelowAt(t: Tree, dim: Axis, c: real, p: Vec3)
    requires AllBelow(t, dim, c) && p in Elements(t)
    ensures p.Get(dim) < c
  {
    match t
    case Branch(v, l, r) =>
      if p in Elements(l) {
        BelowAt(l, dim, c, p);
      } else if p in Elements(r) {
        BelowAt(r, dim, c, p);
      }
  }

  lemma {:induction false} AtLeastAt(t: Tree, dim: Axis, c: real, p: Vec3)
    requires AllAtLeast(t, dim, c) && p in Elements(t)
    ensures c <= p.Get(dim)
  {
    match t
    case Branch(v, l, r) =>
      if p in Elements(l) {
        AtLeastAt(l, dim, c, p);
      } else if p in Elements(r) {
        AtLeastAt(r, dim, c, p);
      }
  }

  /**
   * `_insert_depth(root, node, depth)`: descends left iff the new point is
   * strictly smaller on axis depth % 3 and hangs a new leaf at the empty
   * slot reached; existing nodes keep their points.
   */
  function InsertDepth(t: Tree, node: Vec3, depth: nat): (r: Tree)
    ensures Elements(r) == Elements(t) + multiset{node}
    ensures r.Branch? && (t.Branch? ==> r.value == t.value)
    ensures t.Leaf? ==> r == Branch(node, Leaf, Leaf)
    decreases t
  {
    match t
    case Leaf => Branch(node, Leaf, Leaf)
    case Branch(v, l, rt) =>
      var dim := PointTrees.SplitAxis(depth);
      if node.Get(dim) < v.Get(dim) then Branch(v, InsertDepth(l, node, depth + 1), rt)
      else Branch(v, l, InsertDepth(rt, node, depth + 1))
  }

  lemma {:induction false} InsertKeepsBelow(t: Tree, node: Vec3, depth: nat, dim: Axis, c: real)
    requires AllBelow(t, dim, c) && node.Get(dim) < c
    ensures AllBelow(InsertDepth(t, node, depth), dim, c)
    decreases t
  {
    match t
    case Leaf =>
    case Branch(v, l, rt) =>
      var d := PointTrees.SplitAxis(depth);
      if node.Get(d) < v.Get(d) {
        InsertKeepsBelow(l, node, depth + 1, dim, c);
      } else {
        InsertKeepsBelow(rt, node, depth + 1, dim, c);
      }
  }

  lemma {:induction false} InsertKeepsAtLeast(t: Tree, node: Vec3, depth: nat, dim: Axis, c: real)
    requires AllAtLeast(t, dim, c) && c <= node.Get(dim)
    ensures AllAtLeast(InsertDepth(t, node, depth), dim, c)
    decreases t
  {
    match t
    case Leaf =>
    case Branch(v, l, rt) =>
      var d := PointTrees.SplitAxis(depth);
      if node.Get(d) < v.Get(d) {
        InsertKeepsAtLeast(l, node, depth + 1, dim, c);
      } else {
        InsertKeepsAtLeast(rt, node, depth + 1, dim, c);
      }
  }

  /** Insertion keeps the search invariant. */
  lemma {:induction false} InsertKeepsOrdered(t: Tree, node: Vec3, depth: nat)
    requires Ordered(t, depth)
    ensures Ordered(InsertDepth(t, node, depth), depth)
    decreases t
  {
    match t
    case Leaf =>
    case Branch(v, l, rt) =>
      var dim := PointTrees.SplitAxis(depth);
      if node.Get(dim) < v.Get(dim) {
        var l' := InsertDepth(l, node, depth + 1);
        assert InsertDepth(t, node, depth) == Branch(v, l', rt);
        InsertKeepsOrdered(l, node, depth + 1);
        InsertKeepsBelow(l, node, depth + 1, dim, v.Get(dim));
      } else {
        var r' := InsertDepth(rt, node, depth + 1);
        assert InsertDepth(t, node, depth) == Branch(v, l, r');
        InsertKeepsOrdered(rt, node, depth + 1);
        InsertKeepsAtLeast(rt, node, depth + 1, dim, v.Get(dim));
      }
  }

  function Near(q: Vec3, t: Tree, depth: nat): (c: Tree)
    requires t.Branch?
    ensures q.Get(PointTrees.SplitAxis(depth)) < t.value.Get(PointTrees.SplitAxis(depth)) ==> c == t.left
    ensures !(q.Get(PointTrees.SplitAxis(depth)) < t.value.Get(PointTrees.SplitAxis(depth))) ==> c == t.right
  {
    if q.Get(PointTrees.SplitAxis(depth)) < t.value.Get(PointTrees.SplitAxis(depth)) then t.left else t.right
  }

  function Far(q: Vec3, t: Tree, depth: nat): (c: Tree)
    requires t.Branch?
    ensures q.Get(PointTrees.SplitAxis(depth)) < t.value.Get(PointTrees.SplitAxis(depth)) ==> c == t.right
    ensures !(q.Get(PointTrees.SplitAxis(depth)) < t.value.Get(PointTrees.SplitAxis(depth))) ==> c == t.left
  {
    if q.Get(PointTrees.SplitAxis(depth)) < t.value.Get(PointTrees.SplitAxis(depth)) then t.right else t.left
  }

  /** The squared distance from the query to a node's splitting plane. */
  function PlaneDistSq(q: Vec3, t: Tree, depth: nat): (d: real)
    requires t.Branch?
    ensures 0.0 <= d
  {
    var perp := Numerics.Abs(t.value.Get(PointTrees.SplitAxis(depth)) - q.Get(PointTrees.SplitAxis(depth)));
    Numerics.MulNonneg(perp, perp);
    Numerics.Mul(perp, perp)
  }

  /**
   * `_nn(node, best, root, depth)`: as in the later tree, except that the
   * far side is searched only when the squared plane distance is strictly
   * less than the best squared distance.
   */
  function NN(q: Vec3, best: Vec3, t: Tree, depth: nat): Vec3
    decreases t
  {
    match t
    case Leaf => best
    case Branch(v, _, _) =>
      var b := PointTrees.ClosestTo(q, NN(q, best, Near(q, t, depth), depth + 1), v);
      if PlaneDistSq(q, t, depth) < PointTrees.Dist(q, b) then
        PointTrees.ClosestTo(q, NN(q, b, Far(q, t, depth), depth + 1), b)
      else b
  }

  lemma ChildElements(q: Vec3, t: Tree, depth: nat, p: Vec3)
    requires t.Branch?
    ensures t.value in Elements(t)
    ensures p in Elements(Near(q, t, depth)) ==> p in Elements(t)
    ensures p in Elements(Far(q, t, depth)) ==> p in Elements(t)
  {
  }

  /** The search returns the starting best or a stored point. */
  lemma {:induction false} NNFrom(q: Vec3, best: Vec3, t: Tree, depth: nat)
    ensures NN(q, best, t, depth) == best || NN(q, best, t, depth) in Elements(t)
    decreases t
  {
    match t
    case Leaf =>
    case Branch(v, _, _) =>
      var near, far := Near(q, t, depth), Far(q, t, depth);
      var b0 := NN(q, best, near, depth + 1);
      var b := PointTrees.ClosestTo(q, b0, v);
      NNFrom(q, best, near, depth + 1);
      assert b == best || b in Elements(t) by {
        ChildElements(q, t, depth, b0);
      }
      var b1 := NN(q, b, far, depth + 1);
      NNFrom(q, b, far, depth + 1);
      ChildElements(q, t, depth, b1);
      assert NN(q, best, t, depth) == b || NN(q, best, t, depth) == PointTrees.ClosestTo(q, b1, b);
  }

  /** The search never returns a point farther than the starting best. */
  lemma {:induction false} NNBounded(q: Vec3, best: Vec3, t: Tree, depth: nat)
    ensures PointTrees.Dist(q, NN(q, best, t, depth)) <= PointTrees.Dist(q, best)
    decreases t
  {
    match t
    case Leaf =>
    case Branch(v, _, _) =>
      var b := PointTrees.ClosestTo(q, NN(q, best, Near(q, t, depth), depth + 1), v);
      NNBounded(q, best, Near(q, t, depth), depth + 1);
      if PlaneDistSq(q, t, depth) < PointTrees.Dist(q, b) {
        NNBounded(q, b, Far(q, t, depth), depth + 1);
      }
  }

  /**
   * When the plane is at least as far as b, no point on the far side is
   * strictly closer than b, so the strict test loses nothing.
   */
  lemma {:induction false} PrunedSide(q: Vec3, b: Vec3, t: Tree, depth: nat)
    requires t.Branch? && Ordered(t, depth)
    requires PointTrees.Dist(q, b) <= PlaneDistSq(q, t, depth)
    ensures PointTrees.NoCloser(q, b, Elements(Far(q, t, depth)))
  {
    var dim := PointTrees.SplitAxis(depth);
    var v := t.value;
    forall p | p in Elements(Far(q, t, depth))
      ensures PointTrees.Dist(q, b) <= PointTrees.Dist(q, p)
    {
      if q.Get(dim) < v.Get(dim) {
        AtLeastAt(t.right, dim, v.Get(dim), p);
      } else {
        BelowAt(t.left, dim, v.Get(dim), p);
      }
      PointTrees.FarSide(q, v, p, dim);
    }
  }

  lemma NoCloserBranch(q: Vec3, r: Vec3, t: Tree, depth: nat)
    requires t.Branch? && PointTrees.Dist(q, r) <= PointTrees.Dist(q, t.value)
    requires PointTrees.NoCloser(q, r, Elements(Near(q, t, depth))) && PointTrees.NoCloser(q, r, Elements(Far(q, t, depth)))
    ensures PointTrees.NoCloser(q, r, Elements(t))
  {
  }

  /** The search is exact on an ordered tree: no stored point is strictly closer. */
  lemma {:induction false} NNCorrect(q: Vec3, best: Vec3, t: Tree, depth: nat)
    requires Ordered(t, depth)
    ensures PointTrees.NoCloser(q, NN(q, best, t, depth), Elements(t))
    decreases t
  {
    match t
    case Leaf =>
    case Branch(v, _, _) =>
      var near, far := Near(q, t, depth), Far(q, t, depth);
      var b0 := NN(q, best, near, depth + 1);
      var b := PointTrees.ClosestTo(q, b0, v);
      var res := NN(q, best, t, depth);
      NNCorrect(q, best, near, depth + 1);
      PointTrees.NoCloserWeaken(q, b, b0, Elements(near));
      if PlaneDistSq(q, t, depth) < PointTrees.Dist(q, b) {
        var b1 := NN(q, b, far, depth + 1);
        NNCorrect(q, b, far, depth + 1);
        NNBounded(q, b, far, depth + 1);
        PointTrees.NoCloserWeaken(q, res, b, Elements(near));
        PointTrees.NoCloserWeaken(q, res, b1, Elements(far));
      } else {
        PrunedSide(q, b, t, depth);
      }
      NoCloserBranch(q, res, t, depth);
  }

  /** The earlier `KDTree`: the root node, null for an empty tree. */
  class KDTree {
    var root: Tree

    ghost predicate Valid()
      reads this
    {
      Ordered(root, 0)
    }

    /** `KDTree()`: an empty tree. */
    constructor ()
      ensures root == Leaf && Valid()
    {
      root := Leaf;
    }

    /**
     * `insert(node)`: the stored multiset grows by the point; the first
     * point inserted becomes the root and stays the root.
     */
    method Insert(node: Vec3)
      requires Valid()
      modifies this
      ensures root == InsertDepth(old(root), node, 0)
      ensures Elements(root) == old(Elements(root)) + multiset{node}
      ensures old(root).Branch? ==> root.value == old(root).value
      ensures old(root).Leaf? ==> root.value == node
      ensures Valid()
    {
      InsertKeepsOrdered(root, node, 0);
      root := InsertDepth(root, node, 0);
    }

    /**
     * `nearest_neighbour(node)`: the search from the root with the root's
     * point as first guess; the root is dereferenced, so the tree must not
     * be empty. The result is stored and no stored point is strictly
     * closer.
     */
    method NearestNeighbourOf(q: Vec3) returns (p: Vec3)
      requires Valid() && root.Branch?
      ensures p in Elements(root)
      ensures forall s | s in Elements(root) :: PointTrees.Dist(q, p) <= PointTrees.Dist(q, s)
    {
      p := NN(q, root.value, root, 0);
      NNFrom(q, root.value, root, 0);
      NNCorrect(q, root.value, root, 0);
      assert PointTrees.NoCloser(q, p, Elements(root));
    }
  }
}
