/**
 * The triangle bounding-box tree of src/ds/kdtree.cpp: each node holds a
 * box and the triangles assigned to it; a node is split on its longest side
 * at the median vertex coordinate, triangles strictly inside one half go
 * there and the others go to both halves. The tree answers ray queries by
 * descending into the halves the ray crosses.
 *
 * The triangle type is a parameter T, with `vertices` for
 * `Triangle::verticies` and `hitTest` for `Triangle::hit` on a fresh
 * record.
 */
module BoxTrees {
  import opened Wrappers
  import opened Vectors
  import opened Rays
  import opened HitRecords
  import opened BoundingBoxes
  import PointTrees
  import Numerics

  /** A node: its box, its triangles and both children (both null at a leaf). */
  datatype BBTree<T> = BNil | BNode(box: Box, triangles: seq<T>, left: BBTree<T>, right: BBTree<T>)

  /** The vertices of a list of triangles, in order: the `points` vector. */
  function AllVertices<T>(tris: seq<T>, vertices: T -> seq<Vec3>): (ps: seq<Vec3>)
    ensures |tris| > 0 && |vertices(tris[|tris| - 1])| > 0 ==> |ps| > 0
  {
    if |tris| == 0 then []
    else AllVertices(tris[..|tris| - 1], vertices) + vertices(tris[|tris| - 1])
  }

  /** The triangles the loop pushes to the left: strictly inside the left box, or not strictly inside the right one. */
  function LeftPart<T>(tris: seq<T>, lbox: Box, rbox: Box, vertices: T -> seq<Vec3>): (r: seq<T>)
    ensures |r| <= |tris|
  {
    if |tris| == 0 then []
    else
      var p := tris[|tris| - 1];
      var goes := lbox.InsideAll(vertices(p)) || !rbox.InsideAll(vertices(p));
      LeftPart(tris[..|tris| - 1], lbox, rbox, vertices) + (if goes then [p] else [])
  }

  /** The triangles the loop pushes to the right: those not strictly inside the left box. */
  function RightPart<T>(tris: seq<T>, lbox: Box, rbox: Box, vertices: T -> seq<Vec3>): (r: seq<T>)
    ensures |r| <= |tris|
  {
    if |tris| == 0 then []
    else
      var p := tris[|tris| - 1];
      RightPart(tris[..|tris| - 1], lbox, rbox, vertices) + (if !lbox.InsideAll(vertices(p)) then [p] else [])
  }

  /** The left list holds exactly the triangles inside the left box or not inside the right one. */
  lemma {:induction false} LeftPartMembers<T>(tris: seq<T>, lbox: Box, rbox: Box, vertices: T -> seq<Vec3>)
    ensures forall p :: p in LeftPart(tris, lbox, rbox, vertices) <==>
      p in tris && (lbox.InsideAll(vertices(p)) || !rbox.InsideAll(vertices(p)))
  {
    if |tris| > 0 {
      var init := tris[..|tris| - 1];
      LeftPartMembers(init, lbox, rbox, vertices);
      assert tris == init + [tris[|tris| - 1]];
    }
  }

  /** The right list holds exactly the triangles not inside the left box. */
  lemma {:induction false} RightPartMembers<T>(tris: seq<T>, lbox: Box, rbox: Box, vertices: T -> seq<Vec3>)
    ensures forall p :: p in RightPart(tris, lbox, rbox, vertices) <==> p in tris && !lbox.InsideAll(vertices(p))
  {
    if |tris| > 0 {
      var init := tris[..|tris| - 1];
      RightPartMembers(init, lbox, rbox, vertices);
      assert tris == init + [tris[|tris| - 1]];
    }
  }

  /** Every triangle goes to at least one side; the ones strictly inside neither go to both. */
  lemma PartsCover<T>(tris: seq<T>, lbox: Box, rbox: Box, vertices: T -> seq<Vec3>)
    ensures forall p | p in tris :: p in LeftPart(tris, lbox, rbox, vertices) || p in RightPart(tris, lbox, rbox, vertices)
    ensures forall p | p in tris && !lbox.InsideAll(vertices(p)) && !rbox.InsideAll(vertices(p)) ::
      p in LeftPart(tris, lbox, rbox, vertices) && p in RightPart(tris, lbox, rbox, vertices)
  {
    LeftPartMembers(tris, lbox, rbox, vertices);
    RightPartMembers(tris, lbox, rbox, vertices);
  }

  /** The placement loop of `_construct_bounding_box_tree`. */
  method Distribute<T>(tris: seq<T>, lbox: Box, rbox: Box, vertices: T -> seq<Vec3>) returns (left: seq<T>, right: seq<T>)
    ensures left == LeftPart(tris, lbox, rbox, vertices)
    ensures right == RightPart(tris, lbox, rbox, vertices)
  {
    left, right := [], [];
    for k := 0 to |tris|
      invariant left == LeftPart(tris[..k], lbox, rbox, vertices)
      invariant right == RightPart(tris[..k], lbox, rbox, vertices)
    {
      var p := tris[k];
      assert tris[..k + 1][..k] == tris[..k];
      if lbox.InsideAll(vertices(p)) {
        left := left + [p];
      } else if rbox.InsideAll(vertices(p)) {
        right := right + [p];
      } else {
        left := left + [p];
        right := right + [p];
      }
    }
    assert tris[..|tris|] == tris;
  }

  /** The vertex-gathering loop of `_construct_bounding_box_tree`. */
  method GatherVertices<T>(tris: seq<T>, vertices: T -> seq<Vec3>) returns (points: seq<Vec3>)
    ensures points == AllVertices(tris, vertices)
  {
    points := [];
    for k := 0 to |tris|
      invariant points == AllVertices(tris[..k], vertices)
    {
      assert tris[..k + 1][..k] == tris[..k];
      points := points + vertices(tris[k]);
    }
    assert tris[..|tris|] == tris;
  }

  /** Some side of the box is longer than -DBL_MAX, so `longest_dim` returns an axis. */
  predicate HasLongestDim(box: Box)
  {
    !(forall i: Axis :: box.Extent(i) <= -Numerics.DBL_MAX)
  }

  /**
   * What `_construct_bounding_box_tree` guarantees of every node: it holds
   * at least one triangle and has both children or neither. A node with
   * children has a longest axis, each child holds strictly fewer
   * triangles, the children only hold the node's triangles, and a
   * triangle is on the left iff it is strictly inside the left box or not
   * strictly inside the right one, and on the right iff it is not strictly
   * inside the left box.
   */
  ghost predicate Sound<T>(t: BBTree<T>, vertices: T -> seq<Vec3>)
  {
    match t
    case BNil => true
    case BNode(box, tris, l, r) =>
      && |tris| > 0
      && (l.BNil? <==> r.BNil?)
      && (l.BNode? ==>
            && HasLongestDim(box)
            && |l.triangles| < |tris| && |r.triangles| < |tris|
            && l.box.min == box.min && r.box.max == box.max
            && (forall p | p in l.triangles :: p in tris)
            && (forall p | p in r.triangles :: p in tris)
            && (forall p | p in tris :: p in l.triangles <==> l.box.InsideAll(vertices(p)) || !r.box.InsideAll(vertices(p)))
            && (forall p | p in tris :: p in r.triangles <==> !l.box.InsideAll(vertices(p))))
      && Sound(l, vertices)
      && Sound(r, vertices)
  }

  /** In a sound node with children, every triangle is in at least one child. */
  lemma ChildrenCover<T>(t: BBTree<T>, vertices: T -> seq<Vec3>)
    requires Sound(t, vertices) && t.BNode? && t.left.BNode?
    ensures forall p | p in t.triangles :: p in t.left.triangles || p in t.right.triangles
  {
  }

  /**
   * `_construct_bounding_box_tree(box, triangles)`: null for no triangles;
   * otherwise the node keeps the box and all triangles, and children are
   * built in the split boxes only when both sides are strictly smaller.
   * When the box has no side longer than -DBL_MAX, `longest_dim` gives -1
   * and indexing a vertex with it throws, which is the Failure.
   */
  method ConstructBoundingBoxTree<T(==)>(box: Box, triangles: seq<T>, vertices: T -> seq<Vec3>) returns (r: Result<BBTree<T>>)
    requires forall p | p in triangles :: |vertices(p)| == 3
    ensures r.Success? ==> Sound(r.value, vertices)
    ensures r.Success? ==> (r.value.BNil? <==> |triangles| == 0)
    ensures r.Success? && r.value.BNode? ==> r.value.box == box && r.value.triangles == triangles
    ensures |triangles| == 0 ==> r == Success(BNil)
    ensures |triangles| > 0 && !HasLongestDim(box) ==> r.Failure?
    decreases |triangles|
  {
    if |triangles| == 0 {
      return Success(BNil);
    }
    var axis := box.LongestDim();
    if axis == -1 {
      return Failure("error: invalid dimension!");
    }
    var points := GatherVertices(triangles, vertices);
    var median := PointTrees.MedianSelect(points, axis);
    var boxes := box.Split(axis, median.Get(axis));
    var leftTris, rightTris := Distribute(triangles, boxes.0, boxes.1, vertices);
    LeftPartMembers(triangles, boxes.0, boxes.1, vertices);
    RightPartMembers(triangles, boxes.0, boxes.1, vertices);
    if |leftTris| < |triangles| && |rightTris| < |triangles| {
      var left := ConstructBoundingBoxTree(boxes.0, leftTris, vertices);
      if left.Failure? {
        return Failure(left.error);
      }
      var right := ConstructBoundingBoxTree(boxes.1, rightTris, vertices);
      if right.Failure? {
        return Failure(right.error);
      }
      assert left.value.BNode? && right.value.BNode? by {
        CoverNonEmpty(triangles, boxes.0, boxes.1, vertices, leftTris, rightTris);
      }
      r := Success(BNode(box, triangles, left.value, right.value));
    } else {
      r := Success(BNode(box, triangles, BNil, BNil));
    }
  }

  /** When both parts of a non-empty list are strictly smaller than it, neither part is empty. */
  lemma CoverNonEmpty<T>(tris: seq<T>, lbox: Box, rbox: Box, vertices: T -> seq<Vec3>, left: seq<T>, right: seq<T>)
    requires |tris| > 0
    requires left == LeftPart(tris, lbox, rbox, vertices) && right == RightPart(tris, lbox, rbox, vertices)
    requires |left| < |tris| && |right| < |tris|
    ensures |left| > 0 && |right| > 0
  {
    PartsCover(tris, lbox, rbox, vertices);
    var p := tris[0];
    if |left| == 0 {
      assert p in right;
    }
    if |right| == 0 {
      assert p in left;
    }
    PartSizes(tris, lbox, rbox, vertices);
  }

  /** Each triangle lands in one part or in both, so the parts' sizes add up to at least the whole. */
  lemma {:induction false} PartSizes<T>(tris: seq<T>, lbox: Box, rbox: Box, vertices: T -> seq<Vec3>)
    ensures |LeftPart(tris, lbox, rbox, vertices)| + |RightPart(tris, lbox, rbox, vertices)| >= |tris|
  {
    if |tris| > 0 {
      PartSizes(tris[..|tris| - 1], lbox, rbox, vertices);
    }
  }

  /**
   * IEEE division of a finite double by a divisor that may be zero. The
   * model has no signed zero: a zero divisor is taken as +0.
   */
  datatype Extended = Finite(value: real) | PosInf | NegInf | NaN

  function Divide(a: real, d: real): (q: Extended)
    ensures d != 0.0 ==> q == Finite(a / d)
    ensures d == 0.0 ==> (q.NaN? <==> a == 0.0) && (q.PosInf? <==> 0.0 < a) && (q.NegInf? <==> a < 0.0)
  {
    if d != 0.0 then Finite(a / d)
    else if 0.0 < a then PosInf
    else if a < 0.0 then NegInf
    else NaN
  }

  /** The IEEE `<`: false whenever NaN is involved. */
  predicate Less(a: Extended, b: Extended)
  {
    match (a, b)
    case (Finite(x), Finite(y)) => x < y
    case (NegInf, Finite(_)) => true
    case (NegInf, PosInf) => true
    case (Finite(_), PosInf) => true
    case _ => false
  }

  /** `<` on extended values is a strict order that NaN is outside of. */
  lemma LessIsStrict(a: Extended, b: Extended, c: Extended)
    ensures !Less(a, a)
    ensures Less(a, b) ==> !Less(b, a)
    ensures Less(a, b) && Less(b, c) ==> Less(a, c)
    ensures a.NaN? || b.NaN? ==> !Less(a, b) && !Less(b, a)
  {
  }

  /** A triangle's hit on a fresh record that the leaf loop accepts: a hit with lambda below DBL_MAX. */
  predicate Accepted(o: HitOutcome)
  {
    o.hit && o.record.lambda < Numerics.DBL_MAX
  }

  /**
   * The leaf loop of `_compute_bounding_box_tree_ray_hit`: each triangle
   * is tested on a fresh record and its hit is kept when its lambda is
   * strictly below the best so far, which starts at DBL_MAX. The result
   * is true iff some triangle's hit is accepted; the record is then the
   * hit of least lambda, the earliest on ties, and is otherwise unchanged.
   */
  method LeafHit<T>(tris: seq<T>, r: Ray, rec: HitRecord, hitTest: (T, Ray, HitRecord) -> HitOutcome)
    returns (hit: bool, record: HitRecord)
    ensures hit <==> exists k :: 0 <= k < |tris| && Accepted(hitTest(tris[k], r, NewRecord()))
    ensures !hit ==> record == rec
    ensures hit ==> exists k :: (0 <= k < |tris| && Accepted(hitTest(tris[k], r, NewRecord())) &&
                                 record == hitTest(tris[k], r, NewRecord()).record &&
                                 (forall j :: 0 <= j < |tris| && hitTest(tris[j], r, NewRecord()).hit ==>
                                                record.lambda <= hitTest(tris[j], r, NewRecord()).record.lambda) &&
                                 (forall j :: 0 <= j < k && hitTest(tris[j], r, NewRecord()).hit ==>
                                                record.lambda < hitTest(tris[j], r, NewRecord()).record.lambda))
  {
    hit := false;
    record := rec;
    var bestLambda := Numerics.DBL_MAX;
    var best := 0;
    for i := 0 to |tris|
      invariant !hit ==> record == rec && bestLambda == Numerics.DBL_MAX
      invariant hit <==> exists k :: 0 <= k < i && Accepted(hitTest(tris[k], r, NewRecord()))
      invariant hit ==> (0 <= best < i && Accepted(hitTest(tris[best], r, NewRecord())) &&
                         record == hitTest(tris[best], r, NewRecord()).record && bestLambda == record.lambda)
      invariant forall j :: 0 <= j < i && hitTest(tris[j], r, NewRecord()).hit ==> bestLambda <= hitTest(tris[j], r, NewRecord()).record.lambda
      invariant hit ==> forall j :: 0 <= j < best && hitTest(tris[j], r, NewRecord()).hit ==> bestLambda < hitTest(tris[j], r, NewRecord()).record.lambda
    {
      var temp := hitTest(tris[i], r, NewRecord());
      if !temp.hit {
        continue;
      }
      if temp.record.lambda < bestLambda {
        record := temp.record;
        bestLambda := temp.record.lambda;
        hit := true;
        best := i;
      }
    }
  }

  /**
   * `_compute_bounding_box_tree_ray_hit(root, r, record)` on a non-null
   * node of a sound tree. A ray that misses the node's box reports no hit;
   * a leaf runs the leaf loop; otherwise the crossing parameter of the
   * splitting plane decides which halves are searched: only the back half
   * when it is below lambda_min, only the front half when it is above
   * lambda_max, and else the front half and, if that misses, the back
   * half. At a leaf the record is the leaf loop's: the accepted hit of
   * least lambda, the first one found on ties. The front half is the left one unless the slab times on the
   * split axis come out in decreasing order. A miss never changes the
   * record, and a hit's record is the hit of one of the node's triangles.
   */
  method QueryTree<T(==)>(t: BBTree<T>, r: Ray, rec: HitRecord, vertices: T -> seq<Vec3>,
                          hitTest: (T, Ray, HitRecord) -> HitOutcome) returns (hit: bool, record: HitRecord)
    requires t.BNode? && Sound(t, vertices)
    ensures !hit ==> record == rec
    ensures hit ==> exists p :: p in t.triangles && Accepted(hitTest(p, r, NewRecord())) && record == hitTest(p, r, NewRecord()).record
    ensures var (lo, hi) := t.box.SlabInterval(r, 3); !(lo <= hi && 0.0 <= hi) ==> !hit
    ensures t.left.BNil? ==> (hit <==> (var (lo, hi) := t.box.SlabInterval(r, 3); lo <= hi && 0.0 <= hi) &&
                                       exists k :: 0 <= k < |t.triangles| && Accepted(hitTest(t.triangles[k], r, NewRecord())))
    ensures t.left.BNil? && t.right.BNil? && hit ==>
      exists k :: (0 <= k < |t.triangles| && Accepted(hitTest(t.triangles[k], r, NewRecord())) &&
                   record == hitTest(t.triangles[k], r, NewRecord()).record &&
                   (forall j :: 0 <= j < |t.triangles| && hitTest(t.triangles[j], r, NewRecord()).hit ==>
                                  record.lambda <= hitTest(t.triangles[j], r, NewRecord()).record.lambda) &&
                   (forall j :: 0 <= j < k && hitTest(t.triangles[j], r, NewRecord()).hit ==>
                                  record.lambda < hitTest(t.triangles[j], r, NewRecord()).record.lambda))
    decreases t
  {
    var boxHit, lambdaMin, lambdaMax := t.box.Hit(r);
    if !boxHit {
      return false, rec;
    }
    if t.left.BNil? && t.right.BNil? {
      hit, record := LeafHit(t.triangles, r, rec, hitTest);
      if hit {
        var k :| 0 <= k < |t.triangles| && Accepted(hitTest(t.triangles[k], r, NewRecord())) &&
          record == hitTest(t.triangles[k], r, NewRecord()).record;
        assert t.triangles[k] in t.triangles;
      }
      return;
    }
    var splitDim := t.box.LongestDim();
    var lambdaMid := Divide(t.left.box.max.Get(splitDim) - r.origin.Get(splitDim), r.direction.Get(splitDim));
    var front, back := t.left, t.right;
    var lo, hi := t.box.min.Get(splitDim), t.box.max.Get(splitDim);
    var origin, dir := r.origin.Get(splitDim), r.direction.Get(splitDim);
    var t1 := Divide(lo - origin, dir);
    var t2 := Divide(hi - origin, dir);
    if Less(t2, t1) {
      front, back := back, front;
    }
    if Less(lambdaMid, Finite(lambdaMin)) {
      hit, record := QueryTree(back, r, rec, vertices, hitTest);
    } else if Less(Finite(lambdaMax), lambdaMid) {
      hit, record := QueryTree(front, r, rec, vertices, hitTest);
    } else {
      hit, record := QueryTree(front, r, rec, vertices, hitTest);
      if !hit {
        hit, record := QueryTree(back, r, rec, vertices, hitTest);
      }
    }
  }
}
