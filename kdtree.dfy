/**
 * The `KDTree` object of src/ds/kdtree.cpp: a point tree grown by `insert`
 * or built from a list, and a triangle box tree built from a triangle list.
 * A constructor that does not build one of the trees leaves its root reference
 * uninitialised; the model takes that tree as empty.
 */
module KDTrees {
  import opened Wrappers
  import opened Vectors
  import opened Rays
  import opened HitRecords
  import opened BoundingBoxes
  import opened PointTrees
  import opened BoxTrees

  class KDTree<T(==)> {
    var root: PTree
    var boxTree: BBTree<T>
    /** `Triangle::verticies`, which the box tree's placement rule refers to. */
    const vertices: T -> seq<Vec3>

    /** Both trees keep the invariants their builders establish. */
    ghost predicate Valid()
      reads this
    {
      Ordered(root, 0) && Sound(boxTree, vertices)
    }

    /** `KDTree()`: an empty point tree. */
    constructor (vertices: T -> seq<Vec3>)
      ensures root == Nil && boxTree == BNil && this.vertices == vertices
      ensures Valid()
    {
      root := Nil;
      boxTree := BNil;
      this.vertices := vertices;
    }

    /**
     * `KDTree(points)`: the point tree built from the list in the points'
     * bounding box. The box is computed from points[0] on, so the list
     * must not be empty. Every distinct point is stored once.
     */
    constructor FromPoints(points: seq<Vec3>, vertices: T -> seq<Vec3>)
      requires |points| > 0
      ensures Valid() && root.Node? && boxTree == BNil
      ensures forall p :: Elements(root)[p] == if p in points then 1 else 0
      ensures root.bbox == BoundsOf(points)
    {
      var box := ComputeBoundingBox(points);
      var t := ConstructFromList(points, box, 0);
      root := t;
      boxTree := BNil;
      this.vertices := vertices;
    }

    /** A tree object with the given trees, for the triangle constructor. */
    constructor WithTrees(root: PTree, boxTree: BBTree<T>, vertices: T -> seq<Vec3>)
      ensures this.root == root && this.boxTree == boxTree && this.vertices == vertices
    {
      this.root := root;
      this.boxTree := boxTree;
      this.vertices := vertices;
    }

    /**
     * `insert(node)`: one new leaf, at the slot the comparisons on axes
     * depth % 3 lead to. The stored multiset grows by the point and the
     * root point stays the root.
     */
    method Insert(node: Vec3)
      requires Valid()
      modifies this
      ensures root == InsertDepth(old(root), node, Unbounded(), 0)
      ensures Elements(root) == old(Elements(root)) + multiset{node}
      ensures old(root).Node? ==> root.value == old(root).value
      ensures old(root).Nil? ==> root.value == node
      ensures boxTree == old(boxTree)
      ensures Valid()
    {
      InsertKeepsOrdered(root, node, Unbounded(), 0);
      root := InsertDepth(root, node, Unbounded(), 0);
    }

    /**
     * `nearest_neighbour(node)`: the search from the root with the root's
     * point as first guess. The root is dereferenced, so the tree must
     * not be empty. The result is stored and no stored point is strictly
     * closer.
     */
    method NearestNeighbourOf(q: Vec3) returns (p: Vec3)
      requires Valid() && root.Node?
      ensures p in Elements(root)
      ensures forall s | s in Elements(root) :: Dist(q, p) <= Dist(q, s)
    {
      NearestNeighbourCorrect(root, q);
      p := NearestNeighbour(root, q);
    }

    /**
     * `ray_hit(r, record)`: the box-tree query from the root, which is
     * dereferenced, so the box tree must not be empty.
     */
    method RayHit(r: Ray, rec: HitRecord, hitTest: (T, Ray, HitRecord) -> HitOutcome) returns (hit: bool, record: HitRecord)
      requires Valid() && boxTree.BNode?
      ensures !hit ==> record == rec
      ensures hit ==> exists p :: p in boxTree.triangles && Accepted(hitTest(p, r, NewRecord())) && record == hitTest(p, r, NewRecord()).record
    {
      hit, record := QueryTree(boxTree, r, rec, vertices, hitTest);
    }
  }

  /**
   * `KDTree(triangles)`: the box tree built from all triangles in the
   * bounding box of all their vertices. The box is computed from the first
   * vertex on, so the list must not be empty. A Failure is the exception
   * the builder throws.
   */
  method FromTriangles<T(==)>(triangles: seq<T>, vertices: T -> seq<Vec3>) returns (r: Result<KDTree<T>>)
    requires |triangles| > 0 && forall p | p in triangles :: |vertices(p)| == 3
    ensures r.Success? ==> fresh(r.value) && r.value.Valid() && r.value.root == Nil
    ensures r.Success? ==> r.value.boxTree.BNode? && r.value.boxTree.triangles == triangles
    ensures r.Success? ==> r.value.boxTree.box == BoundsOf(AllVertices(triangles, vertices))
  {
    var points := GatherVertices(triangles, vertices);
    assert triangles[|triangles| - 1] in triangles;
    var box := ComputeBoundingBox(points);
    var tree := ConstructBoundingBoxTree(box, triangles, vertices);
    if tree.Failure? {
      return Failure(tree.error);
    }
    var k := new KDTree.WithTrees(Nil, tree.value, vertices);
    return Success(k);
  }
}
