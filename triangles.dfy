/**
 * The triangle of src/object/triangle.cpp: a corner `location`, the two
 * edges u and v leaving it, a normal n, and texture coordinates with their
 * projection matrix. `center` and `load_texture_coordinates` change a
 * triangle in place (class Triangle); the tests read a snapshot (Tri).
 */
module Triangles {
  import opened Wrappers
  import opened Vectors
  import opened Rays
  import opened Matrices
  import opened HitRecords
  import Numerics
  import Utils
  import VectorAlgebra

  /** The state of a triangle at one moment. */
  datatype Tri = Tri(location: Vec3, u: Vec3, v: Vec3, n: Vec3, t1: Vec3, t2: Vec3, t3: Vec3, T: Mat3)
  {
    /** The centre (3 location + u + v) / 3 that `center` aims at. */
    function Centroid(): Vec3
    {
      location.Scale(3.0).Add(u).Add(v).Div(3.0)
    }

    /** The three edge values of `inside`: (edge x (point - start)) . n for each edge in turn. */
    function EdgeValues(point: Vec3): (real, real, real)
    {
      var v1 := u;
      var v2 := v.Sub(u);
      var v3 := v.Neg();
      var p1 := location;
      var p2 := p1.Add(v1);
      var p3 := p2.Add(v2);
      (v1.Cross(point.Sub(p1)).Dot(n), v2.Cross(point.Sub(p2)).Dot(n), v3.Cross(point.Sub(p3)).Dot(n))
    }

    /** `inside(point)`: the three edge values are all positive or all negative. */
    predicate Inside(point: Vec3)
    {
      var (d1, d2, d3) := EdgeValues(point);
      (d1 > 0.0 && d2 > 0.0 && d3 > 0.0) || (d1 < 0.0 && d2 < 0.0 && d3 < 0.0)
    }

    /** `to_uv(point)`: T (point - location) + t1. */
    function ToUV(point: Vec3): (uv: Vec3)
      ensures point == location ==> uv == t1
    {
      T.MulVec(point.Sub(location)).Add(t1)
    }

    /** `area()`: |u x v|. */
    function Area(sqrt: real -> real): real
    {
      u.Cross(v).Length(sqrt)
    }

    /** `tangent(point)` is u and `normal(point)` is n. */
    function Tangent(point: Vec3): Vec3 { u }
    function Normal(point: Vec3): Vec3 { n }

    /**
     * `hit(r, record)`: `hit_box` with both lengths 1 must report a hit,
     * then the hit point must be `inside`; only then is the record filled.
     * mappedNormal stands for the object's `mapped_normal`.
     */
    function Hit(self: ObjRef, r: Ray, rec: HitRecord, mappedNormal: Vec3 -> Vec3, sqrt: real -> real): (o: HitOutcome)
      ensures !o.hit ==> o.record == rec
      ensures o.hit <==> (var h := Utils.HitBox(location, u, v, 1.0, 1.0, r);
                          h.Written? && h.inside && Inside(r.At(h.lambda)))
      ensures o.hit ==> 0.0 <= o.record.lambda && o.record.hitPoint == r.At(o.record.lambda)
      ensures o.hit ==> o.record.lambda == Utils.HitBox(location, u, v, 1.0, 1.0, r).lambda
      ensures o.hit ==> Inside(o.record.hitPoint) && o.record.obj == Some(self)
      ensures o.hit ==> o.record.uv == ToUV(o.record.hitPoint)
    {
      var h := Utils.HitBox(location, u, v, 1.0, 1.0, r);
      if !(h.Written? && h.inside) then HitOutcome(false, rec)
      else
        var hitPoint := r.At(h.lambda);
        if !Inside(hitPoint) then HitOutcome(false, rec)
        else
          var filled := rec.(lambda := h.lambda, hitPoint := hitPoint, uv := ToUV(hitPoint));
          HitOutcome(true, SetNormal(filled, r, mappedNormal(hitPoint), sqrt).(obj := Some(self)))
    }
  }

  /** The 4-argument constructor `Triangle(point, u, v, material)`: n = u x v. */
  function FromEdges(point: Vec3, u: Vec3, v: Vec3): (t: Tri)
    ensures t.location == point && t.u == u && t.v == v && t.n == u.Cross(v)
  {
    Tri(point, u, v, u.Cross(v), Zero, Zero, Zero, Mat3(Zero, Zero, Zero))
  }

  /** The 5-argument constructor `Triangle(p1, p2, p3, normal, material)`. */
  function FromVertices(p1: Vec3, p2: Vec3, p3: Vec3, normal: Vec3): (t: Tri)
    ensures t.location == p1 && t.u == p2.Sub(p1) && t.v == p3.Sub(p1) && t.n == normal
    ensures t.location.Add(t.u) == p2 && t.location.Add(t.v) == p3
  {
    Tri(p1, p2.Sub(p1), p3.Sub(p1), normal, Zero, Zero, Zero, Mat3(Zero, Zero, Zero))
  }

  /** Reversing the normal flips all three edge values, so `inside` does not change. */
  lemma InsideIgnoresOrientation(t: Tri, point: Vec3)
    ensures t.(n := t.n.Neg()).Inside(point) <==> t.Inside(point)
  {
    DotNeg(t.u.Cross(point.Sub(t.location)), t.n);
    DotNeg(t.v.Sub(t.u).Cross(point.Sub(t.location.Add(t.u))), t.n);
    DotNeg(t.v.Neg().Cross(point.Sub(t.location.Add(t.u).Add(t.v.Sub(t.u)))), t.n);
  }

  lemma DotNeg(a: Vec3, n: Vec3)
    ensures a.Dot(n.Neg()) == -a.Dot(n)
  {
  }

  /** The strict tests reject the three corners: each lies on two edges, where an edge value is 0. */
  lemma {:induction false} CornersNotInside(t: Tri)
    ensures !t.Inside(t.location)
    ensures !t.Inside(t.location.Add(t.u))
    ensures !t.Inside(t.location.Add(t.v))
  {
    VectorAlgebra.CrossSelf(t.v.Sub(t.u));
    assert t.location.Sub(t.location) == Zero;
    assert t.location.Add(t.u).Sub(t.location.Add(t.u)) == Zero;
    assert t.location.Add(t.u).Add(t.v.Sub(t.u)) == t.location.Add(t.v);
    VectorAlgebra.CrossSelf(t.v.Neg());
  }

  /**
   * A triangle object: `center` moves it and `load_texture_coordinates`
   * gives it texture coordinates.
   */
  class Triangle {
    var location: Vec3
    var u: Vec3
    var v: Vec3
    var n: Vec3
    var t1: Vec3
    var t2: Vec3
    var t3: Vec3
    var T: Mat3

    function Value(): Tri
      reads this
    {
      Tri(location, u, v, n, t1, t2, t3, T)
    }

    constructor (t: Tri)
      ensures Value() == t
    {
      location, u, v, n := t.location, t.u, t.v, t.n;
      t1, t2, t3, T := t.t1, t.t2, t.t3, t.T;
    }

    /**
     * `center(point)`: translates the triangle by point - centre, so that
     * its centre becomes point; the edges, the normal and the texture data
     * stay.
     */
    method Center(point: Vec3)
      modifies this
      ensures location == old(location).Add(point.Sub(old(Value()).Centroid()))
      ensures Value() == old(Value()).(location := location)
      ensures Value().Centroid() == point
    {
      var center := Value().Centroid();
      var delta := point.Sub(center);
      location := location.Add(delta);
      CenterMoves(old(Value()), point);
    }

    /**
     * `load_texture_coordinates(t1, t2, t3)`: stores the texture corners and
     * the projection matrix of the triangle's corners onto them.
     */
    method LoadTextureCoordinates(t1: Vec3, t2: Vec3, t3: Vec3)
      requires Utils.GramDeterminant(u, v) != 0.0
      modifies this
      ensures this.t1 == t1 && this.t2 == t2 && this.t3 == t3
      ensures location == old(location) && u == old(u) && v == old(v) && n == old(n)
      ensures T == Utils.TextureProjectionMatrix(location, location.Add(u), location.Add(v), t1, t2, t3)
    {
      assert location.Add(u).Sub(location) == u && location.Add(v).Sub(location) == v;
      this.t1, this.t2, this.t3 := t1, t2, t3;
      T := Utils.TextureProjectionMatrix(location, location.Add(u), location.Add(v), t1, t2, t3);
    }
  }

  /** Moving the corner by point - centre moves the centre to point. */
  lemma CenterMoves(t: Tri, point: Vec3)
    ensures t.(location := t.location.Add(point.Sub(t.Centroid()))).Centroid() == point
  {
  }

  /**
   * After `load_texture_coordinates(t1, t2, t3)`, `to_uv` maps the corners
   * to t1, t2, t3 and every point location + a u + b v to
   * t1 + a (t2 - t1) + b (t3 - t1).
   */
  lemma {:induction false} ToUVAfterLoad(t: Tri, t1: Vec3, t2: Vec3, t3: Vec3, a: real, b: real)
    requires Utils.GramDeterminant(t.u, t.v) != 0.0
    ensures var loaded := t.(t1 := t1, t2 := t2, t3 := t3,
                             T := Utils.TextureProjectionMatrix(t.location, t.location.Add(t.u), t.location.Add(t.v), t1, t2, t3));
            loaded.ToUV(t.location.Add(t.u.Scale(a).Add(t.v.Scale(b)))) == t1.Add(t2.Sub(t1).Scale(a).Add(t3.Sub(t1).Scale(b)))
  {
    var x2 := t.location.Add(t.u);
    var x3 := t.location.Add(t.v);
    assert x2.Sub(t.location) == t.u && x3.Sub(t.location) == t.v;
    assert t.location.Add(t.u.Scale(a).Add(t.v.Scale(b))).Sub(t.location) == t.u.Scale(a).Add(t.v.Scale(b));
    Utils.TextureProjectionMapsEdges(t.location, x2, x3, t1, t2, t3, a, b);
  }

  /**
   * For a triangle built from its edges the normal n = u x v is orthogonal
   * to the tangent u and to v, and the area is its length.
   */
  lemma {:induction false} TriFrame(p: Vec3, u: Vec3, v: Vec3, point: Vec3, sqrt: real -> real)
    requires Numerics.IsSqrt(sqrt)
    ensures FromEdges(p, u, v).Normal(point).Dot(FromEdges(p, u, v).Tangent(point)) == 0.0
    ensures FromEdges(p, u, v).Normal(point).Dot(v) == 0.0
    ensures Numerics.Sq(FromEdges(p, u, v).Area(sqrt)) == FromEdges(p, u, v).Normal(point).LengthSquared()
  {
    CrossProperties(u, v);
    DotSymmetric(u, u.Cross(v));
    DotSymmetric(v, u.Cross(v));
    LengthIsRoot(u.Cross(v), sqrt);
  }

  /** A triangle's area is never negative. */
  lemma AreaNonNegative(t: Tri, sqrt: real -> real)
    requires Numerics.IsSqrt(sqrt)
    ensures 0.0 <= t.Area(sqrt)
  {
    LengthSquaredPositive(t.u.Cross(t.v));
  }
}
