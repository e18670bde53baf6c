/**
 * The geometric helpers of src/utils.cpp: the parallelogram test `hit_box`
 * shared by the triangle, and the texture projection matrix of a
 * triangle. (`clamp` and `deg2rad` are in Numerics.)
 */
module Utils {
  import opened Vectors
  import opened Rays
  import opened Matrices
  import Numerics
  import VectorAlgebra

  /** The tolerance below which `hit_box` treats a ray as parallel to the plane. */
  const PARALLEL_EPS: real := 0.00000001

  /**
   * What `hit_box` does with its out-parameters: an early return leaves them
   * untouched; otherwise lambda, alpha and beta are written and the result
   * says whether (alpha, beta) lies in the box.
   */
  datatype BoxHit = Untouched | Written(inside: bool, alpha: real, beta: real, lambda: real)

  /** The plane parameter of the ray, when the ray is not parallel to the plane. */
  function PlaneLambda(point: Vec3, u: Vec3, v: Vec3, r: Ray): real
    requires Numerics.Abs(u.Cross(v).Dot(r.direction)) >= PARALLEL_EPS
  {
    u.Cross(v).Dot(point.Sub(r.origin)) / u.Cross(v).Dot(r.direction)
  }

  /** The spanning vectors of a plane that some ray is not parallel to are independent. */
  lemma {:induction false} Independent(u: Vec3, v: Vec3, r: Ray)
    requires Numerics.Abs(u.Cross(v).Dot(r.direction)) >= PARALLEL_EPS
    ensures u.Cross(v) != Zero
    ensures v.Cross(u).Dot(u.Cross(v)) != 0.0 && u.Cross(v).Dot(u.Cross(v)) != 0.0
  {
    VectorAlgebra.CrossDotReversed(u, v);
    LengthSquaredPositive(u.Cross(v));
  }

  /**
   * `hit_box(point, u, v, u_length, v_length, r, alpha, beta, lambda)`:
   * intersects r with the plane through point spanned by u and v, and
   * tests the plane coordinates (alpha, beta) of the hit point against
   * [0, u_length] x [0, v_length].
   */
  function HitBox(point: Vec3, u: Vec3, v: Vec3, uLength: real, vLength: real, r: Ray): (h: BoxHit)
    ensures h.Untouched? <==>
      (Numerics.Abs(u.Cross(v).Dot(r.direction)) < PARALLEL_EPS || PlaneLambda(point, u, v, r) < 0.0)
    ensures h.Written? ==> 0.0 <= h.lambda && h.lambda == PlaneLambda(point, u, v, r)
    ensures h.Written? ==> (h.inside <==> 0.0 <= h.alpha <= uLength && 0.0 <= h.beta <= vLength)
  {
    var n := u.Cross(v);
    if Numerics.Abs(n.Dot(r.direction)) < PARALLEL_EPS then Untouched
    else
      var lambda := PlaneLambda(point, u, v, r);
      if lambda < 0.0 then Untouched
      else
        var hitPoint := r.At(lambda);
        Independent(u, v, r);
        var alpha := v.Cross(hitPoint.Sub(point)).Dot(n) / v.Cross(u).Dot(n);
        var beta := u.Cross(hitPoint.Sub(point)).Dot(n) / u.Cross(v).Dot(n);
        Written((0.0 <= alpha && alpha <= uLength) && (0.0 <= beta && beta <= vLength), alpha, beta, lambda)
  }

  /** The point `hit_box` reports lies on the plane: (u x v) . (at(lambda) - point) = 0. */
  lemma {:induction false} HitBoxOnPlane(point: Vec3, u: Vec3, v: Vec3, uLength: real, vLength: real, r: Ray)
    requires HitBox(point, u, v, uLength, vLength, r).Written?
    ensures u.Cross(v).Dot(r.At(HitBox(point, u, v, uLength, vLength, r).lambda).Sub(point)) == 0.0
  {
    var n := u.Cross(v);
    assert HitBox(point, u, v, uLength, vLength, r).lambda == n.Dot(point.Sub(r.origin)) / n.Dot(r.direction);
    PlaneParameterOnPlane(point, n, r);
  }

  /** The ray point at parameter (n . (point - o)) / (n . d) lies on the plane through point with normal n. */
  lemma PlaneParameterOnPlane(point: Vec3, n: Vec3, r: Ray)
    requires n.Dot(r.direction) != 0.0
    ensures n.Dot(r.At(n.Dot(point.Sub(r.origin)) / n.Dot(r.direction)).Sub(point)) == 0.0
  {
    var den := n.Dot(r.direction);
    var lambda := n.Dot(point.Sub(r.origin)) / den;
    assert r.At(lambda).Sub(point) == r.origin.Sub(point).Add(r.direction.Scale(lambda));
    VectorAlgebra.DotScale(r.direction, n, lambda);
    DotSymmetric(r.direction.Scale(lambda), n);
    DotSymmetric(r.direction, n);
    DotAdd(n, r.origin.Sub(point), r.direction.Scale(lambda));
    assert n.Dot(r.origin.Sub(point)) == -n.Dot(point.Sub(r.origin));
    DivTimes(n.Dot(point.Sub(r.origin)), den);
  }

  lemma DivTimes(x: real, d: real)
    requires d != 0.0
    ensures Numerics.Mul(x / d, d) == x
  {
  }

  lemma DotAdd(n: Vec3, a: Vec3, b: Vec3)
    ensures n.Dot(a.Add(b)) == n.Dot(a) + n.Dot(b)
  {
  }

  /**
   * alpha and beta are the coordinates of the hit point: when
   * at(lambda) - point = a u + b v, then alpha = a and beta = b.
   */
  lemma {:induction false} HitBoxCoordinates(point: Vec3, u: Vec3, v: Vec3, uLength: real, vLength: real, r: Ray,
                                             a: real, b: real)
    requires HitBox(point, u, v, uLength, vLength, r).Written?
    requires r.At(HitBox(point, u, v, uLength, vLength, r).lambda).Sub(point) == u.Scale(a).Add(v.Scale(b))
    ensures HitBox(point, u, v, uLength, vLength, r).alpha == a
    ensures HitBox(point, u, v, uLength, vLength, r).beta == b
  {
    Independent(u, v, r);
    VectorAlgebra.CoordinatesOfCombination(u, v, u.Cross(v), a, b);
  }

  /**
   * `texture_projection_matrix(xy1, xy2, xy3, uv1, uv2, uv3)`:
   * uv_basis * adj(B^T B)^T * B^T * (1 / det(B^T B)) for the edge basis
   * B = (xy2 - xy1, xy3 - xy1, 0) and uv_basis = (uv2 - uv1, uv3 - uv1, 0).
   */
  function TextureProjectionMatrix(xy1: Vec3, xy2: Vec3, xy3: Vec3, uv1: Vec3, uv2: Vec3, uv3: Vec3): Mat3
    requires GramDeterminant(xy2.Sub(xy1), xy3.Sub(xy1)) != 0.0
  {
    var v1 := xy2.Sub(xy1);
    var v2 := xy3.Sub(xy1);
    var basis := Mat3(v1, v2, Zero);
    var uvBasis := Mat3(uv2.Sub(uv1), uv3.Sub(uv1), Zero);
    uvBasis.MulMat(Adjugate(v1, v2)).MulMat(basis.Transpose()).Scale(1.0 / GramDeterminant(v1, v2))
  }

  /** v1sq * v2sq - v1v2 * v1v2, the determinant of B^T B; zero for a degenerate triangle. */
  function GramDeterminant(v1: Vec3, v2: Vec3): real
  {
    Numerics.Mul(v1.Dot(v1), v2.Dot(v2)) - Numerics.Mul(v1.Dot(v2), v1.Dot(v2))
  }

  /** `bTb_adj`: the transposed matrix of columns (v2sq, -v1v2, 0) and (-v1v2, v1sq, 0). */
  function Adjugate(v1: Vec3, v2: Vec3): Mat3
  {
    Mat3(Vec3(v2.Dot(v2), -v1.Dot(v2), 0.0), Vec3(-v1.Dot(v2), v1.Dot(v1), 0.0), Zero).Transpose()
  }

  /**
   * The projection maps the triangle's edges onto its texture edges:
   * T (a x + b y) = a u + b v with x, y the edges from xy1 and u, v the
   * texture edges from uv1.
   */
  lemma {:induction false} TextureProjectionMapsEdges(xy1: Vec3, xy2: Vec3, xy3: Vec3, uv1: Vec3, uv2: Vec3, uv3: Vec3,
                                                      a: real, b: real)
    requires GramDeterminant(xy2.Sub(xy1), xy3.Sub(xy1)) != 0.0
    ensures TextureProjectionMatrix(xy1, xy2, xy3, uv1, uv2, uv3).MulVec(xy2.Sub(xy1).Scale(a).Add(xy3.Sub(xy1).Scale(b)))
         == uv2.Sub(uv1).Scale(a).Add(uv3.Sub(uv1).Scale(b))
  {
    var x := xy2.Sub(xy1);
    var y := xy3.Sub(xy1);
    var w := x.Scale(a).Add(y.Scale(b));
    var det := GramDeterminant(x, y);
    var k := 1.0 / det;
    var A := Mat3(uv2.Sub(uv1), uv3.Sub(uv1), Zero);
    var B := Adjugate(x, y);
    var C := Mat3(x, y, Zero).Transpose();
    MulScale(A.MulMat(B).MulMat(C), k, w);
    MulMatAssociative(A.MulMat(B), C, w);
    MulMatAssociative(A, B, C.MulVec(w));
    var p := x.Dot(w);
    var q := y.Dot(w);
    GramProjection(x, y, a, b);
    assert C.MulVec(w) == Vec3(p, q, 0.0);
    AdjugateInverts(x, y, a, b);
    assert B.MulVec(Vec3(p, q, 0.0)) == Vec3(Numerics.Mul(a, det), Numerics.Mul(b, det), 0.0);
    UVCombination(A.c1, A.c2, a, b, det);
  }

  /** B^T (a x + b y) = (a x.x + b x.y, a x.y + b y.y, 0). */
  lemma {:induction false} GramProjection(x: Vec3, y: Vec3, a: real, b: real)
    ensures Mat3(x, y, Zero).Transpose().MulVec(x.Scale(a).Add(y.Scale(b)))
         == Vec3(x.Dot(x.Scale(a).Add(y.Scale(b))), y.Dot(x.Scale(a).Add(y.Scale(b))), 0.0)
  {
    MulVecRows(Mat3(x, y, Zero).Transpose(), x.Scale(a).Add(y.Scale(b)));
  }

  /** adj(B^T B) (B^T w) = det (a, b, 0). */
  lemma {:induction false} AdjugateInverts(x: Vec3, y: Vec3, a: real, b: real)
    ensures Adjugate(x, y).MulVec(Vec3(x.Dot(x.Scale(a).Add(y.Scale(b))), y.Dot(x.Scale(a).Add(y.Scale(b))), 0.0))
         == Vec3(Numerics.Mul(a, GramDeterminant(x, y)), Numerics.Mul(b, GramDeterminant(x, y)), 0.0)
  {
    var xx := x.Dot(x);
    var yy := y.Dot(y);
    var xy := x.Dot(y);
    DotOfCombination(x, x, y, a, b);
    DotOfCombination(y, x, y, a, b);
    DotSymmetric(y, x);
    AdjugateScalar(xx, yy, xy, a, b);
  }

  /** n . (a x + b y) = a (n . x) + b (n . y). */
  lemma DotOfCombination(n: Vec3, x: Vec3, y: Vec3, a: real, b: real)
    ensures n.Dot(x.Scale(a).Add(y.Scale(b))) == Numerics.Mul(a, n.Dot(x)) + Numerics.Mul(b, n.Dot(y))
  {
    DotCombinationScalar(n.x, x.x, y.x, n.y, x.y, y.y, n.z, x.z, y.z, a, b);
  }

  lemma DotCombinationScalar(n1: real, x1: real, y1: real, n2: real, x2: real, y2: real, n3: real, x3: real, y3: real,
                             a: real, b: real)
    ensures Numerics.Mul(n1, Numerics.Mul(x1, a) + Numerics.Mul(y1, b))
          + Numerics.Mul(n2, Numerics.Mul(x2, a) + Numerics.Mul(y2, b))
          + Numerics.Mul(n3, Numerics.Mul(x3, a) + Numerics.Mul(y3, b))
         == Numerics.Mul(a, Numerics.Mul(n1, x1) + Numerics.Mul(n2, x2) + Numerics.Mul(n3, x3))
          + Numerics.Mul(b, Numerics.Mul(n1, y1) + Numerics.Mul(n2, y2) + Numerics.Mul(n3, y3))
  {
  }

  lemma AdjugateScalar(xx: real, yy: real, xy: real, a: real, b: real)
    ensures Numerics.Mul(yy, Numerics.Mul(a, xx) + Numerics.Mul(b, xy)) + Numerics.Mul(-xy, Numerics.Mul(a, xy) + Numerics.Mul(b, yy)) + Numerics.Mul(0.0, 0.0)
         == Numerics.Mul(a, Numerics.Mul(xx, yy) - Numerics.Mul(xy, xy))
    ensures Numerics.Mul(-xy, Numerics.Mul(a, xx) + Numerics.Mul(b, xy)) + Numerics.Mul(xx, Numerics.Mul(a, xy) + Numerics.Mul(b, yy)) + Numerics.Mul(0.0, 0.0)
         == Numerics.Mul(b, Numerics.Mul(xx, yy) - Numerics.Mul(xy, xy))
  {
  }

  /** (u (a det) + v (b det) + 0 * 0) / det = a u + b v. */
  lemma {:induction false} UVCombination(u: Vec3, v: Vec3, a: real, b: real, det: real)
    requires det != 0.0
    ensures Mat3(u, v, Zero).MulVec(Vec3(Numerics.Mul(a, det), Numerics.Mul(b, det), 0.0)).Scale(1.0 / det)
         == u.Scale(a).Add(v.Scale(b))
  {
    UVScalar(u.x, v.x, a, b, det);
    UVScalar(u.y, v.y, a, b, det);
    UVScalar(u.z, v.z, a, b, det);
  }

  lemma UVScalar(p: real, q: real, a: real, b: real, det: real)
    requires det != 0.0
    ensures Numerics.Mul(Numerics.Mul(p, Numerics.Mul(a, det)) + Numerics.Mul(q, Numerics.Mul(b, det)) + Numerics.Mul(0.0, 0.0), 1.0 / det)
         == Numerics.Mul(p, a) + Numerics.Mul(q, b)
  {
  }
}
