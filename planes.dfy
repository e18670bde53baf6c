/**
 * The infinite plane of object/plane.cpp: a point `location`, a normal n
 * and two in-plane directions u and v.
 */
module Planes {
  import opened Wrappers
  import opened Vectors
  import opened Rays
  import opened HitRecords
  import Numerics
  import VectorAlgebra

  datatype Plane = Plane(location: Vec3, n: Vec3, u: Vec3, v: Vec3)
  {
    /**
     * `hit_point(r, point, lambda)`: with top = (location - origin) . n and
     * bottom = direction . n, fails when bottom is 0 or t = top / bottom is
     * negative, leaving point and lambda as they were; otherwise writes
     * lambda = t and point = r.at(t).
     */
    function HitPoint(r: Ray, point: Vec3, lambda: real): (o: PointHit)
      ensures r.direction.Dot(n) == 0.0 ==> !o.found
      ensures !o.found ==> o.point == point && o.lambda == lambda
      ensures o.found <==> r.direction.Dot(n) != 0.0 && 0.0 <= location.Sub(r.origin).Dot(n) / r.direction.Dot(n)
      ensures o.found ==> o.lambda == location.Sub(r.origin).Dot(n) / r.direction.Dot(n)
      ensures o.found ==> 0.0 <= o.lambda && o.point == r.At(o.lambda)
    {
      var top := location.Sub(r.origin).Dot(n);
      var bottom := r.direction.Dot(n);
      if bottom == 0.0 then PointHit(false, point, lambda)
      else
        var t := top / bottom;
        if t < 0.0 then PointHit(false, point, lambda)
        else PointHit(true, r.At(t), t)
    }

    /**
     * `hit(r, record)`: `hit_point` writes record.hit_point and
     * record.lambda; on success the normal and the object are filled in.
     */
    function Hit(self: ObjRef, r: Ray, rec: HitRecord, mappedNormal: Vec3 -> Vec3, sqrt: real -> real): (o: HitOutcome)
      ensures o.hit <==> HitPoint(r, rec.hitPoint, rec.lambda).found
      ensures !o.hit ==> o.record == rec
      ensures o.hit ==> 0.0 <= o.record.lambda && o.record.hitPoint == r.At(o.record.lambda)
      ensures o.hit ==> o.record.obj == Some(self) && o.record.uv == rec.uv
      ensures o.hit ==> r.direction.Dot(n) != 0.0 && o.record.hitPoint.Sub(location).Dot(n) == 0.0
    {
      var h := HitPoint(r, rec.hitPoint, rec.lambda);
      if !h.found then HitOutcome(false, rec)
      else
        OnPlane(this, r, h.lambda);
        var filled := rec.(hitPoint := h.point, lambda := h.lambda);
        HitOutcome(true, SetNormal(filled, r, mappedNormal(h.point), sqrt).(obj := Some(self)))
    }

    /** The two denominators of `to_uv`; both vanish when u and v are parallel. */
    predicate HasCoordinates()
    {
      n.Dot(v.Cross(u)) != 0.0 && n.Dot(u.Cross(v)) != 0.0
    }

    /**
     * `to_uv(point)`: alpha = n . (v x w) / n . (v x u) and
     * beta = n . (u x w) / n . (u x v) with w = point - location.
     */
    function ToUV(point: Vec3): Vec3
      requires HasCoordinates()
    {
      var w := point.Sub(location);
      Vec3(n.Dot(v.Cross(w)) / n.Dot(v.Cross(u)), n.Dot(u.Cross(w)) / n.Dot(u.Cross(v)), 0.0)
    }

    /** `tangent(point)` throws logic_error("Not implemented!"). */
    function Tangent(point: Vec3): (r: Result<Vec3>)
      ensures r == Failure("Not implemented!")
    {
      Failure("Not implemented!")
    }

    /** `normal(point)`: the unit normal, the same at every point. */
    function Normal(point: Vec3, sqrt: real -> real): (r: Vec3)
      ensures r == n.Unit(sqrt)
    {
      n.Unit(sqrt)
    }
  }

  /** The out-parameters `point` and `lambda` of `hit_point` and its verdict. */
  datatype PointHit = PointHit(found: bool, point: Vec3, lambda: real)

  /** The point at t = top / bottom lies in the plane. */
  lemma {:induction false} OnPlane(p: Plane, r: Ray, t: real)
    requires r.direction.Dot(p.n) != 0.0
    requires t == p.location.Sub(r.origin).Dot(p.n) / r.direction.Dot(p.n)
    ensures r.At(t).Sub(p.location).Dot(p.n) == 0.0
  {
    var top := p.location.Sub(r.origin).Dot(p.n);
    var bottom := r.direction.Dot(p.n);
    assert r.At(t).Sub(p.location) == r.direction.Scale(t).Sub(p.location.Sub(r.origin));
    DotSubDistributes(r.direction.Scale(t), p.location.Sub(r.origin), p.n);
    VectorAlgebra.DotScale(r.direction, p.n, t);
    assert Numerics.Mul(t, bottom) == top;
  }

  /** The dot product distributes over a difference: `(a - b) . n = a . n - b . n`. */
  lemma DotSubDistributes(a: Vec3, b: Vec3, n: Vec3)
    ensures a.Sub(b).Dot(n) == a.Dot(n) - b.Dot(n)
  {
  }

  /**
   * The constructor `Plane(location, u, v, material)`: the directions are
   * normalised and n = u x v of the directions as given.
   */
  function FromDirections(location: Vec3, u: Vec3, v: Vec3, sqrt: real -> real): (p: Plane)
    ensures p.location == location && p.n == u.Cross(v)
    ensures p.u == u.Unit(sqrt) && p.v == v.Unit(sqrt)
  {
    Plane(location, u.Cross(v), u.Unit(sqrt), v.Unit(sqrt))
  }

  /**
   * `findVectorOnPlane(normal, point)` as written: the first non-zero
   * component of the normal selects the free coordinate, but the quotient
   * divides by -point.x (or -point.y, -point.z) instead of the normal's
   * component. A zero point component is a division by zero in the source;
   * the model returns 0 there.
   */
  function FindVectorOnPlaneAsWritten(normal: Vec3, point: Vec3): Vec3
  {
    var a := 1.0 - point.x;
    var b := 1.0 - point.y;
    var c := 1.0 - point.z;
    if normal.x != 0.0 then
      Vec3(Numerics.Quotient(Numerics.Mul(normal.y, b) + Numerics.Mul(normal.z, c), -point.x), b, c)
    else if normal.y != 0.0 then
      Vec3(a, Numerics.Quotient(Numerics.Mul(normal.x, a) + Numerics.Mul(normal.z, c), -point.y), c)
    else if normal.z != 0.0 then
      Vec3(a, b, Numerics.Quotient(Numerics.Mul(normal.x, a) + Numerics.Mul(normal.y, b), -point.z))
    else Zero
  }

  /**
   * For the normal (2, 1, 0) at the point (1, 0, 0) the vector found is
   * (-1, 1, 1), whose dot product with the normal is -1: it does not lie in
   * the plane.
   */
  lemma FindVectorOnPlaneAsWrittenLeavesPlane()
    ensures FindVectorOnPlaneAsWritten(Vec3(2.0, 1.0, 0.0), Vec3(1.0, 0.0, 0.0)) == Vec3(-1.0, 1.0, 1.0)
    ensures Vec3(2.0, 1.0, 0.0).Dot(FindVectorOnPlaneAsWritten(Vec3(2.0, 1.0, 0.0), Vec3(1.0, 0.0, 0.0))) == -1.0
  {
    assert Numerics.Quotient(1.0, -1.0) == -1.0;
  }

  /**
   * The vector the function evidently means to find: a non-zero vector
   * orthogonal to the normal, so that the constructor can build the
   * orthonormal basis its comment announces. The first non-zero component of
   * the normal selects the free coordinate, as in the source; the other two
   * coordinates are 1 and the free one is solved for by dividing by the
   * normal's component. Taking the other two as 1 - point.y and 1 - point.z,
   * as the source does, would give the zero vector for a point whose two
   * other coordinates are 1, so the point plays no part.
   */
  function FindVectorOnPlane(normal: Vec3): (w: Vec3)
    ensures normal.Dot(w) == 0.0
    ensures w == Zero <==> normal == Zero
  {
    if normal.x != 0.0 then
      var s := normal.y + normal.z;
      QuotientCancels(normal.x, s);
      Vec3(s / -normal.x, 1.0, 1.0)
    else if normal.y != 0.0 then
      var s := normal.x + normal.z;
      QuotientCancels(normal.y, s);
      Vec3(1.0, s / -normal.y, 1.0)
    else if normal.z != 0.0 then
      var s := normal.x + normal.y;
      QuotientCancels(normal.z, s);
      Vec3(1.0, 1.0, s / -normal.z)
    else Zero
  }

  lemma QuotientCancels(k: real, s: real)
    requires k != 0.0
    ensures Numerics.Mul(k, s / -k) == -s
  {
  }

  /**
   * The constructor `Plane(location, normal, material)` with the corrected
   * `findVectorOnPlane`: u is the unit in-plane vector found, v = unit(n x u).
   */
  function FromNormal(location: Vec3, normal: Vec3, sqrt: real -> real): (p: Plane)
    ensures p.location == location && p.n == normal
    ensures p.u == FindVectorOnPlane(normal).Unit(sqrt)
    ensures p.v == normal.Cross(p.u).Unit(sqrt)
  {
    var u := FindVectorOnPlane(normal).Unit(sqrt);
    Plane(location, normal, u, normal.Cross(u).Unit(sqrt))
  }

  /**
   * A plane built from a non-zero normal gets an orthonormal basis of the
   * plane: u and v have length 1, are orthogonal to each other and to n.
   */
  lemma {:induction false} FromNormalSpansPlane(location: Vec3, normal: Vec3, sqrt: real -> real)
    requires Numerics.IsSqrt(sqrt) && normal != Zero
    ensures FromNormal(location, normal, sqrt).u.Dot(normal) == 0.0
    ensures FromNormal(location, normal, sqrt).v.Dot(normal) == 0.0
    ensures FromNormal(location, normal, sqrt).u.LengthSquared() == 1.0
    ensures FromNormal(location, normal, sqrt).v.LengthSquared() == 1.0
    ensures FromNormal(location, normal, sqrt).u.Dot(FromNormal(location, normal, sqrt).v) == 0.0
  {
    var w := FindVectorOnPlane(normal);
    DotSymmetric(normal, w);
    UnitKeepsOrthogonal(w, normal, sqrt);
    UnitLength(w, sqrt);
    var u := w.Unit(sqrt);
    var c := normal.Cross(u);
    CrossProperties(normal, u);
    DotSymmetric(normal, c);
    UnitKeepsOrthogonal(c, normal, sqrt);
    DotSymmetric(u, c);
    UnitKeepsOrthogonal(c, u, sqrt);
    DotSymmetric(u, c.Unit(sqrt));
    DotSymmetric(u, normal);
    CrossOfOrthogonal(normal, u);
    UnitLength(c, sqrt);
  }

  /** The cross product of two orthogonal non-zero vectors is non-zero. */
  lemma {:induction false} CrossOfOrthogonal(a: Vec3, b: Vec3)
    requires a != Zero && b != Zero && a.Dot(b) == 0.0
    ensures a.Cross(b) != Zero
  {
    VectorAlgebra.Lagrange(a, b);
    LengthSquaredPositive(a);
    LengthSquaredPositive(b);
    Numerics.MulPos(a.LengthSquared(), b.LengthSquared());
    assert a.Cross(b).LengthSquared() != 0.0;
  }

  /** Normalising keeps a vector orthogonal to n. */
  lemma {:induction false} UnitKeepsOrthogonal(w: Vec3, n: Vec3, sqrt: real -> real)
    requires w.Dot(n) == 0.0
    ensures w.Unit(sqrt).Dot(n) == 0.0
  {
    var l := w.Length(sqrt);
    if l != 0.0 {
      DotSymmetric(w, n);
      DotDiv(n, w, l);
      DotSymmetric(w.Div(l), n);
    } else {
      assert w.Unit(sqrt) == Zero;
    }
  }

  /**
   * `to_uv` recovers the coefficients of a point of the plane:
   * to_uv(location + a u + b v) = (a, b, 0).
   */
  lemma {:induction false} ToUVInverts(p: Plane, a: real, b: real)
    requires p.HasCoordinates()
    ensures p.ToUV(p.location.Add(p.u.Scale(a).Add(p.v.Scale(b)))) == Vec3(a, b, 0.0)
  {
    var w := p.u.Scale(a).Add(p.v.Scale(b));
    assert p.location.Add(w).Sub(p.location) == w;
    DotSymmetric(p.n, p.v.Cross(p.u));
    DotSymmetric(p.n, p.u.Cross(p.v));
    DotSymmetric(p.n, p.v.Cross(w));
    DotSymmetric(p.n, p.u.Cross(w));
    VectorAlgebra.CoordinatesOfCombination(p.u, p.v, p.n, a, b);
  }
}
