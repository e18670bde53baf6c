/**
 * The point k-d tree of src/ds/kdtree.cpp: nodes split on axis depth % 3,
 * with points strictly below the node's coordinate on the left and the
 * others on the right. Trees are grown by `_insert_depth` or built from a
 * list by `_construct_from_list`, and searched by `_nn`.
 */
module PointTrees {
  import opened Vectors
  import opened BoundingBoxes
  import Numerics

  /** A node holds its point, its children, the box it covers and its split axis. */
  datatype PTree = Nil | Node(value: Vec3, left: PTree, right: PTree, bbox: Box, splitDim: Axis)

  /** The points stored in a tree, with their multiplicities. */
  function Elements(t: PTree): multiset<Vec3>
  {
    match t
    case Nil => multiset{}
    case Node(v, l, r, _, _) => multiset{v} + Elements(l) + Elements(r)
  }

  /** Every point of t is strictly below c on axis dim. */
  predicate AllBelow(t: PTree, dim: Axis, c: real)
  {
    match t
    case Nil => true
    case Node(v, l, r, _, _) => v.Get(dim) < c && AllBelow(l, dim, c) && AllBelow(r, dim, c)
  }

  /** Every point of t is at least c on axis dim. */
  predicate AllAtLeast(t: PTree, dim: Axis, c: real)
  {
    match t
    case Nil => true
    case Node(v, l, r, _, _) => c <= v.Get(dim) && AllAtLeast(l, dim, c) && AllAtLeast(r, dim, c)
  }

  /**
   * The search invariant: a node at depth d splits on axis d % 3, every
   * point of its left subtree is strictly below it on that axis and every
   * point of its right subtree is not.
   */
  predicate Ordered(t: PTree, depth: nat)
  {
    match t
    case Nil => true
    case Node(v, l, r, _, dim) =>
      && dim == SplitAxis(depth)
      && AllBelow(l, dim, v.Get(dim))
      && AllAtLeast(r, dim, v.Get(dim))
      && Ordered(l, depth + 1)
      && Ordered(r, depth + 1)
  }

  /** Every stored point of a tree that is AllBelow c is below c. */
  lemma {:induction false} BelowAt(t: PTree, dim: Axis, c: real, p: Vec3)
    requires AllBelow(t, dim, c) && p in Elements(t)
    ensures p.Get(dim) < c
  {
    match t
    case Node(v, l, r, _, _) =>
      if p in Elements(l) {
        BelowAt(l, dim, c, p);
      } else if p in Elements(r) {
        BelowAt(r, dim, c, p);
      }
  }

  /** A tree whose every stored point is below c is AllBelow c. */
  lemma {:induction false} BelowFromAll(t: PTree, dim: Axis, c: real)
    requires forall p | p in Elements(t) :: p.Get(dim) < c
    ensures AllBelow(t, dim, c)
  {
    match t
    case Nil =>
    case Node(v, l, r, _, _) =>
      BelowFromAll(l, dim, c);
      BelowFromAll(r, dim, c);
  }

  /** Every stored point of a tree that is AllAtLeast c is at least c. */
  lemma {:induction false} AtLeastAt(t: PTree, dim: Axis, c: real, p: Vec3)
    requires AllAtLeast(t, dim, c) && p in Elements(t)
    ensures c <= p.Get(dim)
  {
    match t
    case Node(v, l, r, _, _) =>
      if p in Elements(l) {
        AtLeastAt(l, dim, c, p);
      } else if p in Elements(r) {
        AtLeastAt(r, dim, c, p);
      }
  }

  /** A tree whose every stored point is at least c is AllAtLeast c. */
  lemma {:induction false} AtLeastFromAll(t: PTree, dim: Axis, c: real)
    requires forall p | p in Elements(t) :: c <= p.Get(dim)
    ensures AllAtLeast(t, dim, c)
  {
    match t
    case Nil =>
    case Node(v, l, r, _, _) =>
      AtLeastFromAll(l, dim, c);
      AtLeastFromAll(r, dim, c);
  }

  /** The axis a node at this depth splits on, `depth % 3` (see SplitAxisIsRemainder). */
  function SplitAxis(depth: nat): Axis
  {
    if depth < 3 then depth else SplitAxis(depth - 3)
  }

  /** SplitAxis is the remainder of the depth modulo 3. */
  lemma {:induction false} SplitAxisIsRemainder(depth: nat)
    ensures SplitAxis(depth) == depth % 3
  {
    if 3 <= depth {
      SplitAxisIsRemainder(depth - 3);
    }
  }

  /** The squared distance `(target - p).length_squared()` the search compares. */
  function Dist(q: Vec3, p: Vec3): real
  {
    q.Sub(p).LengthSquared()
  }

  /**
   * `_insert_depth(root, node, box, depth)`: descends left iff the new
   * point is strictly smaller on axis depth % 3, splitting the box at each
   * node passed, and hangs a new leaf at the empty slot reached.
   */
  function InsertDepth(t: PTree, node: Vec3, box: Box, depth: nat): (r: PTree)
    ensures Elements(r) == Elements(t) + multiset{node}
    ensures r.Node? && (t.Node? ==> r.value == t.value && r.splitDim == t.splitDim && r.bbox == t.bbox)
    ensures t.Nil? ==> r == Node(node, Nil, Nil, box, SplitAxis(depth))
    decreases t
  {
    var dim := SplitAxis(depth);
    match t
    case Nil => Node(node, Nil, Nil, box, dim)
    case Node(v, l, rt, b, s) =>
      var boxes := box.Split(dim, v.Get(dim));
      if node.Get(dim) < v.Get(dim) then Node(v, InsertDepth(l, node, boxes.0, depth + 1), rt, b, s)
      else Node(v, l, InsertDepth(rt, node, boxes.1, depth + 1), b, s)
  }

  /** Inserting a point below c into a tree below c keeps it below c. */
  lemma {:induction false} InsertKeepsBelow(t: PTree, node: Vec3, box: Box, depth: nat, dim: Axis, c: real)
    requires AllBelow(t, dim, c) && node.Get(dim) < c
    ensures AllBelow(InsertDepth(t, node, box, depth), dim, c)
    decreases t
  {
    match t
    case Nil =>
    case Node(v, l, rt, b, s) =>
      var d := SplitAxis(depth);
      var lbox, rbox := box.Split(d, v.Get(d)).0, box.Split(d, v.Get(d)).1;
      if node.Get(d) < v.Get(d) {
        InsertKeepsBelow(l, node, lbox, depth + 1, dim, c);
      } else {
        InsertKeepsBelow(rt, node, rbox, depth + 1, dim, c);
      }
  }

  /** Inserting a point at least c into a tree at least c keeps it at least c. */
  lemma {:induction false} InsertKeepsAtLeast(t: PTree, node: Vec3, box: Box, depth: nat, dim: Axis, c: real)
    requires AllAtLeast(t, dim, c) && c <= node.Get(dim)
    ensures AllAtLeast(InsertDepth(t, node, box, depth), dim, c)
    decreases t
  {
    match t
    case Nil =>
    case Node(v, l, rt, b, s) =>
      var d := SplitAxis(depth);
      var lbox, rbox := box.Split(d, v.Get(d)).0, box.Split(d, v.Get(d)).1;
      if node.Get(d) < v.Get(d) {
        InsertKeepsAtLeast(l, node, lbox, depth + 1, dim, c);
      } else {
        InsertKeepsAtLeast(rt, node, rbox, depth + 1, dim, c);
      }
  }

  /** Insertion keeps the search invariant. */
  lemma {:induction false} InsertKeepsOrdered(t: PTree, node: Vec3, box: Box, depth: nat)
    requires Ordered(t, depth)
    ensures Ordered(InsertDepth(t, node, box, depth), depth)
    decreases t
  {
    match t
    case Nil =>
    case Node(v, l, rt, b, s) =>
      var dim := SplitAxis(depth);
      var lbox, rbox := box.Split(dim, v.Get(dim)).0, box.Split(dim, v.Get(dim)).1;
      if node.Get(dim) < v.Get(dim) {
        var l' := InsertDepth(l, node, lbox, depth + 1);
        assert InsertDepth(t, node, box, depth) == Node(v, l', rt, b, s);
        InsertKeepsOrdered(l, node, lbox, depth + 1);
        InsertKeepsBelow(l, node, lbox, depth + 1, dim, v.Get(dim));
      } else {
        var r' := InsertDepth(rt, node, rbox, depth + 1);
        assert InsertDepth(t, node, box, depth) == Node(v, l, r', b, s);
        InsertKeepsOrdered(rt, node, rbox, depth + 1);
        InsertKeepsAtLeast(rt, node, rbox, depth + 1, dim, v.Get(dim));
      }
  }

  /**
   * `_closest_to(target, a, b)`: b only when a is strictly farther, so a
   * wins ties.
   */
  function ClosestTo(target: Vec3, a: Vec3, b: Vec3): (r: Vec3)
    ensures r == a || r == b
    ensures Dist(target, r) <= Dist(target, a) && Dist(target, r) <= Dist(target, b)
    ensures Dist(target, a) <= Dist(target, b) ==> r == a
  {
    if Dist(target, a) > Dist(target, b) then b else a
  }

  /** The child on the query's side of a node's splitting plane, searched first. */
  function Near(q: Vec3, t: PTree, depth: nat): (c: PTree)
    requires t.Node?
    ensures q.Get(SplitAxis(depth)) < t.value.Get(SplitAxis(depth)) ==> c == t.left
    ensures !(q.Get(SplitAxis(depth)) < t.value.Get(SplitAxis(depth))) ==> c == t.right
  {
    if q.Get(SplitAxis(depth)) < t.value.Get(SplitAxis(depth)) then t.left else t.right
  }

  /** The other child, the `sibling` searched only when the plane is close enough. */
  function Far(q: Vec3, t: PTree, depth: nat): (c: PTree)
    requires t.Node?
    ensures q.Get(SplitAxis(depth)) < t.value.Get(SplitAxis(depth)) ==> c == t.right
    ensures !(q.Get(SplitAxis(depth)) < t.value.Get(SplitAxis(depth))) ==> c == t.left
  {
    if q.Get(SplitAxis(depth)) < t.value.Get(SplitAxis(depth)) then t.right else t.left
  }

  /** The squared distance from the query to a node's splitting plane, `root_plane_perp_dist` squared. */
  function PlaneDistSq(q: Vec3, t: PTree, depth: nat): (d: real)
    requires t.Node?
    ensures 0.0 <= d
  {
    var perp := Numerics.Abs(t.value.Get(SplitAxis(depth)) - q.Get(SplitAxis(depth)));
    Numerics.MulNonneg(perp, perp);
    Numerics.Mul(perp, perp)
  }

  /**
   * `_nn(node, best, root, depth)`: searches the side of the splitting
   * plane the query lies on, keeps the closer of that result and the node's
   * point, and searches the other side only when the squared distance to
   * the plane is at most the best squared distance so far.
   */
  function NN(q: Vec3, best: Vec3, t: PTree, depth: nat): Vec3
    decreases t
  {
    match t
    case Nil => best
    case Node(v, _, _, _, _) =>
      var b := ClosestTo(q, NN(q, best, Near(q, t, depth), depth + 1), v);
      if PlaneDistSq(q, t, depth) <= Dist(q, b) then ClosestTo(q, NN(q, b, Far(q, t, depth), depth + 1), b) else b
  }

  /** No point of m is strictly closer to q than r. */
  ghost predicate NoCloser(q: Vec3, r: Vec3, m: multiset<Vec3>)
  {
    forall p | p in m :: Dist(q, r) <= Dist(q, p)
  }

  /** A point at least as close as one that no point of m beats is not beaten either. */
  lemma NoCloserWeaken(q: Vec3, r: Vec3, s: Vec3, m: multiset<Vec3>)
    requires Dist(q, r) <= Dist(q, s) && NoCloser(q, s, m)
    ensures NoCloser(q, r, m)
  {
  }

  /** A point that beats a node's point and both its subtrees beats the whole tree. */
  lemma NoCloserNode(q: Vec3, r: Vec3, t: PTree, depth: nat)
    requires t.Node? && Dist(q, r) <= Dist(q, t.value)
    requires NoCloser(q, r, Elements(Near(q, t, depth))) && NoCloser(q, r, Elements(Far(q, t, depth)))
    ensures NoCloser(q, r, Elements(t))
  {
  }

  /** When the plane is farther than b, no point on the far side beats b. */
  lemma {:induction false} PrunedSide(q: Vec3, b: Vec3, t: PTree, depth: nat)
    requires t.Node? && Ordered(t, depth)
    requires Dist(q, b) < PlaneDistSq(q, t, depth)
    ensures NoCloser(q, b, Elements(Far(q, t, depth)))
  {
    var dim := SplitAxis(depth);
    var v := t.value;
    forall p | p in Elements(Far(q, t, depth))
      ensures Dist(q, b) <= Dist(q, p)
    {
      if q.Get(dim) < v.Get(dim) {
        AtLeastAt(t.right, dim, v.Get(dim), p);
      } else {
        BelowAt(t.left, dim, v.Get(dim), p);
      }
      FarSide(q, v, p, dim);
    }
  }

  /** The node's point and the points of either child are points of the tree. */
  lemma ChildElements(q: Vec3, t: PTree, depth: nat, p: Vec3)
    requires t.Node?
    ensures t.value in Elements(t)
    ensures p in Elements(Near(q, t, depth)) ==> p in Elements(t)
    ensures p in Elements(Far(q, t, depth)) ==> p in Elements(t)
  {
  }

  /** The search returns the starting best or a stored point. */
  lemma {:induction false} NNFrom(q: Vec3, best: Vec3, t: PTree, depth: nat)
    ensures NN(q, best, t, depth) == best || NN(q, best, t, depth) in Elements(t)
    decreases t
  {
    match t
    case Nil =>
    case Node(v, l, r, _, _) =>
      var near, far := Near(q, t, depth), Far(q, t, depth);
      var b0 := NN(q, best, near, depth + 1);
      var b := ClosestTo(q, b0, v);
      NNFrom(q, best, near, depth + 1);
      assert b == best || b in Elements(t) by {
        ChildElements(q, t, depth, b0);
      }
      var b1 := NN(q, b, far, depth + 1);
      NNFrom(q, b, far, depth + 1);
      ChildElements(q, t, depth, b1);
      assert NN(q, best, t, depth) == b || NN(q, best, t, depth) == ClosestTo(q, b1, b);
  }

  /** The search never returns a point farther than the starting best. */
  lemma {:induction false} NNBounded(q: Vec3, best: Vec3, t: PTree, depth: nat)
    ensures Dist(q, NN(q, best, t, depth)) <= Dist(q, best)
    decreases t
  {
    match t
    case Nil =>
    case Node(v, _, _, _, _) =>
      var b := ClosestTo(q, NN(q, best, Near(q, t, depth), depth + 1), v);
      NNBounded(q, best, Near(q, t, depth), depth + 1);
      if PlaneDistSq(q, t, depth) <= Dist(q, b) {
        NNBounded(q, b, Far(q, t, depth), depth + 1);
      }
  }

  /**
   * The search is exact: on an ordered tree no stored point is strictly
   * closer to the query than the result.
   */
  lemma {:induction false} NNCorrect(q: Vec3, best: Vec3, t: PTree, depth: nat)
    requires Ordered(t, depth)
    ensures NoCloser(q, NN(q, best, t, depth), Elements(t))
    decreases t
  {
    match t
    case Nil =>
    case Node(v, _, _, _, _) =>
      var near, far := Near(q, t, depth), Far(q, t, depth);
      var b0 := NN(q, best, near, depth + 1);
      var b := ClosestTo(q, b0, v);
      var res := NN(q, best, t, depth);
      NNCorrect(q, best, near, depth + 1);
      NoCloserWeaken(q, b, b0, Elements(near));
      if PlaneDistSq(q, t, depth) <= Dist(q, b) {
        var b1 := NN(q, b, far, depth + 1);
        NNCorrect(q, b, far, depth + 1);
        NNBounded(q, b, far, depth + 1);
        NoCloserWeaken(q, res, b, Elements(near));
        NoCloserWeaken(q, res, b1, Elements(far));
      } else {
        PrunedSide(q, b, t, depth);
      }
      NoCloserNode(q, res, t, depth);
  }

  /**
   * A point on the other side of the splitting plane from the query is at
   * least the plane's distance away.
   */
  lemma {:induction false} FarSide(q: Vec3, v: Vec3, p: Vec3, dim: Axis)
    requires (q.Get(dim) < v.Get(dim) <= p.Get(dim)) || (p.Get(dim) < v.Get(dim) <= q.Get(dim))
    ensures var perp := Numerics.Abs(v.Get(dim) - q.Get(dim));
            Numerics.Mul(perp, perp) <= Dist(q, p)
  {
    var perp := Numerics.Abs(v.Get(dim) - q.Get(dim));
    var gap := Numerics.Abs(p.Get(dim) - q.Get(dim));
    assert perp <= gap;
    if perp < gap {
      Numerics.SquareBelow(perp, gap);
    }
    ComponentBelowLength(q.Sub(p), dim);
    assert q.Sub(p).Get(dim) == q.Get(dim) - p.Get(dim);
    assert Numerics.Sq(gap) == Numerics.Sq(q.Get(dim) - p.Get(dim));
  }

  /** One squared component is at most the squared length. */
  lemma ComponentBelowLength(w: Vec3, i: Axis)
    ensures Numerics.Sq(w.Get(i)) <= w.LengthSquared()
  {
    Numerics.SquarePos(w.x);
    Numerics.SquarePos(w.y);
    Numerics.SquarePos(w.z);
  }

  /**
   * `nearest_neighbour(node)`: starts the search at the root with the
   * root's point as the best guess. The source dereferences the root, so
   * the tree must not be empty.
   */
  function NearestNeighbour(t: PTree, q: Vec3): (p: Vec3)
    requires t.Node?
    ensures p in Elements(t)
  {
    NNFrom(q, t.value, t, 0);
    NN(q, t.value, t, 0)
  }

  /** On an ordered non-empty tree the nearest neighbour is stored and no stored point is strictly closer. */
  lemma NearestNeighbourCorrect(t: PTree, q: Vec3)
    requires t.Node? && Ordered(t, 0)
    ensures NearestNeighbour(t, q) in Elements(t)
    ensures forall p | p in Elements(t) :: Dist(q, NearestNeighbour(t, q)) <= Dist(q, p)
  {
    NNCorrect(q, t.value, t, 0);
    NNFrom(q, t.value, t, 0);
    assert NoCloser(q, NearestNeighbour(t, q), Elements(t));
  }

  /** Points sorted by their coordinate on an axis. */
  predicate SortedOn(s: seq<Vec3>, axis: Axis)
  {
    forall i, j :: 0 <= i < j < |s| ==> s[i].Get(axis) <= s[j].Get(axis)
  }

  /** p placed in front of the first element of s that is strictly greater on the axis. */
  function InsertByAxis(p: Vec3, s: seq<Vec3>, axis: Axis): (r: seq<Vec3>)
    ensures multiset(r) == multiset(s) + multiset{p}
    ensures |r| == |s| + 1 && (r[0] == p || (|s| > 0 && r[0] == s[0]))
    ensures SortedOn(s, axis) ==> SortedOn(r, axis)
  {
    if |s| == 0 then [p]
    else if p.Get(axis) <= s[0].Get(axis) then [p] + s
    else
      assert s == [s[0]] + s[1..];
      assert SortedOn(s, axis) ==> SortedOn(s[1..], axis);
      var rest := InsertByAxis(p, s[1..], axis);
      assert SortedOn(s, axis) ==> s[0].Get(axis) <= rest[0].Get(axis);
      [s[0]] + rest
  }

  /** Insertion sort on the axis coordinate, the order `nth_element` partially establishes. */
  function SortByAxis(points: seq<Vec3>, axis: Axis): (s: seq<Vec3>)
    ensures multiset(s) == multiset(points)
    ensures SortedOn(s, axis)
  {
    if |points| == 0 then []
    else
      assert points == [points[0]] + points[1..];
      InsertByAxis(points[0], SortByAxis(points[1..], axis), axis)
  }

  /**
   * `_median_select(points, axis)`: the element `nth_element` puts at
   * position size / 2, that is the element at that position of the list
   * sorted on the axis. Among points with equal coordinates the source's
   * choice is unspecified; the model takes the one its sort places there.
   */
  function MedianSelect(points: seq<Vec3>, axis: Axis): (m: Vec3)
    requires |points| > 0
    ensures m in points
    ensures var s := SortByAxis(points, axis); multiset(s) == multiset(points) && SortedOn(s, axis) && m == s[|points| / 2]
  {
    var s := SortByAxis(points, axis);
    assert |s| == |multiset(s)| == |points|;
    assert s[0] in multiset(points) && s[|points| / 2] in multiset(points);
    if |points| == 1 then
      assert s == [points[0]] by {
        assert s[0] in multiset(points);
      }
      points[0]
    else s[|points| / 2]
  }

  /** The points strictly below m on the axis, in their order: the left list of `_construct_from_list`. */
  function Below(points: seq<Vec3>, dim: Axis, m: Vec3): (r: seq<Vec3>)
    ensures |r| <= |points|
  {
    if |points| == 0 then []
    else
      var p := points[|points| - 1];
      Below(points[..|points| - 1], dim, m) + (if p.Get(dim) < m.Get(dim) then [p] else [])
  }

  /** The other points except exact copies of m: the right list. */
  function AboveExcept(points: seq<Vec3>, dim: Axis, m: Vec3): (r: seq<Vec3>)
    ensures |r| <= |points|
  {
    if |points| == 0 then []
    else
      var p := points[|points| - 1];
      AboveExcept(points[..|points| - 1], dim, m) + (if !(p.Get(dim) < m.Get(dim)) && p != m then [p] else [])
  }

  /** The left list holds exactly the points strictly below m. */
  lemma {:induction false} BelowMembers(points: seq<Vec3>, dim: Axis, m: Vec3)
    ensures forall p :: p in Below(points, dim, m) <==> p in points && p.Get(dim) < m.Get(dim)
  {
    if |points| > 0 {
      var init := points[..|points| - 1];
      BelowMembers(init, dim, m);
      assert points == init + [points[|points| - 1]];
    }
  }

  /** The right list holds exactly the points not below m other than m itself. */
  lemma {:induction false} AboveExceptMembers(points: seq<Vec3>, dim: Axis, m: Vec3)
    ensures forall p :: p in AboveExcept(points, dim, m) <==> p in points && m.Get(dim) <= p.Get(dim) && p != m
  {
    if |points| > 0 {
      var init := points[..|points| - 1];
      AboveExceptMembers(init, dim, m);
      assert points == init + [points[|points| - 1]];
    }
  }

  /** A list holding m sheds at least m in either part, so both parts are shorter. */
  lemma {:induction false} PartsShrink(points: seq<Vec3>, dim: Axis, m: Vec3)
    requires m in points
    ensures |Below(points, dim, m)| < |points|
    ensures |AboveExcept(points, dim, m)| < |points|
  {
    var n := |points| - 1;
    var init := points[..n];
    if points[n] == m {
      assert Below(points, dim, m) == Below(init, dim, m);
      assert AboveExcept(points, dim, m) == AboveExcept(init, dim, m);
    } else {
      assert m in init by {
        var k :| 0 <= k < |points| && points[k] == m;
        assert init[k] == m;
      }
      PartsShrink(init, dim, m);
    }
  }

  /** Both parts of a list grown by one point grow by at most that point. */
  lemma PartsStep(s: seq<Vec3>, p: Vec3, dim: Axis, m: Vec3)
    ensures Below(s + [p], dim, m) == Below(s, dim, m) + (if p.Get(dim) < m.Get(dim) then [p] else [])
    ensures AboveExcept(s + [p], dim, m) == AboveExcept(s, dim, m) + (if !(p.Get(dim) < m.Get(dim)) && p != m then [p] else [])
  {
    assert (s + [p])[..|s|] == s;
  }

  /** The partition loop of `_construct_from_list`. */
  method Partition(points: seq<Vec3>, dim: Axis, m: Vec3) returns (left: seq<Vec3>, right: seq<Vec3>)
    ensures left == Below(points, dim, m)
    ensures right == AboveExcept(points, dim, m)
  {
    left, right := [], [];
    for k := 0 to |points|
      invariant left == Below(points[..k], dim, m)
      invariant right == AboveExcept(points[..k], dim, m)
    {
      var point := points[k];
      assert points[..k + 1] == points[..k] + [point];
      PartsStep(points[..k], point, dim, m);
      if point.Get(dim) < m.Get(dim) {
        left := left + [point];
      } else if point != m {
        right := right + [point];
      }
    }
    assert points[..|points|] == points;
  }

  /**
   * `_construct_from_list(points, box, depth)`: null for no points;
   * otherwise the median on axis depth % 3 becomes the node, the points
   * strictly below it go left, the rest except copies of the median go
   * right, and both sides are built one level deeper in the split boxes.
   * Every distinct input point is stored exactly once.
   */
  method ConstructFromList(points: seq<Vec3>, box: Box, depth: nat) returns (t: PTree)
    ensures t.Nil? <==> |points| == 0
    ensures Ordered(t, depth)
    ensures forall p :: Elements(t)[p] == if p in points then 1 else 0
    ensures t.Node? ==> t.bbox == box
    decreases |points|
  {
    if |points| == 0 {
      return Nil;
    }
    var dimIndex := SplitAxis(depth);
    var median := MedianSelect(points, dimIndex);
    var leftPoints, rightPoints := Partition(points, dimIndex, median);
    PartsShrink(points, dimIndex, median);
    BelowMembers(points, dimIndex, median);
    AboveExceptMembers(points, dimIndex, median);
    var boxes := box.Split(dimIndex, median.Get(dimIndex));
    var left := ConstructFromList(leftPoints, boxes.0, depth + 1);
    var right := ConstructFromList(rightPoints, boxes.1, depth + 1);
    t := Node(median, left, right, box, dimIndex);
    var c := median.Get(dimIndex);
    assert forall p | p in Elements(left) :: p in leftPoints;
    assert forall p | p in Elements(right) :: p in rightPoints;
    BelowFromAll(left, dimIndex, c);
    AtLeastFromAll(right, dimIndex, c);
    forall p
      ensures Elements(t)[p] == if p in points then 1 else 0
    {
      assert Elements(t)[p] == (if p == median then 1 else 0) + Elements(left)[p] + Elements(right)[p];
      if p in leftPoints {
        assert p !in rightPoints && p != median;
      } else if p in rightPoints {
        assert p != median;
      } else if p in points {
        assert p == median;
      }
    }
  }

  /** `insert(node)` on an empty tree makes the point the root. */
  lemma InsertIntoEmpty(node: Vec3)
    ensures InsertDepth(Nil, node, Unbounded(), 0).value == node
  {
  }
}
