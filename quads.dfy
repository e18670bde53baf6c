/**
 * The parallelogram of src/object/quad.cpp: a corner `location` and the two
 * edges v1 and v2, with an optional one-sided test.
 */
module Quads {
  import opened Wrappers
  import opened Vectors
  import opened Rays
  import opened HitRecords
  import Numerics
  import VectorAlgebra

  datatype Quad = Quad(location: Vec3, v1: Vec3, v2: Vec3, oneSided: bool)
  {
    /** The plane parameters need independent edges: v2 x v1 must not vanish. */
    predicate NonDegenerate()
    {
      v2.Cross(v1) != Zero
    }

    /**
     * `find_alpha_beta(point)`: with n = (v2 x v1) / |v2 x v1|^2 and
     * w = point - location, alpha = (v2 x w) . n and beta = (v1 x w) . (-n).
     */
    function FindAlphaBeta(point: Vec3): (ab: Vec3)
      requires NonDegenerate()
      ensures ab.z == 0.0
      ensures point == location ==> ab == Zero
    {
      LengthSquaredPositive(v2.Cross(v1));
      var n := v2.Cross(v1).Div(v2.Cross(v1).LengthSquared());
      var w := point.Sub(location);
      Vec3(v2.Cross(w).Dot(n), v1.Cross(w).Dot(n.Neg()), 0.0)
    }

    /** `get_point(alpha, beta)`: location + v1 alpha + v2 beta. */
    function GetPoint(alpha: real, beta: real): Vec3
    {
      location.Add(v1.Scale(alpha)).Add(v2.Scale(beta))
    }

    /** `to_uv(point)` is `find_alpha_beta(point)`. */
    function ToUV(point: Vec3): (uv: Vec3)
      requires NonDegenerate()
      ensures forall a: real, b: real :: point == GetPoint(a, b) ==> uv == Vec3(a, b, 0.0)
    {
      ToUVInverts(this, point);
      FindAlphaBeta(point)
    }

    /** The normal v1 x (-v2) that `hit` intersects with. */
    function HitNormal(): Vec3
    {
      v1.Cross(v2.Neg())
    }

    /**
     * `hit(r, record)`: intersects the ray with the quad's plane and
     * accepts exactly when both plane parameters lie in [0, 1]. The sign
     * of lambda is not checked, so a quad behind the ray's origin is hit. mappedNormal stands for the object's `mapped_normal`.
     */
    function Hit(self: ObjRef, r: Ray, rec: HitRecord, mappedNormal: Vec3 -> Vec3, sqrt: real -> real): (o: HitOutcome)
      ensures !o.hit ==> o.record == rec
      ensures HitNormal().Dot(r.direction) == 0.0 ==> !o.hit
      ensures o.hit ==> HitNormal().Dot(r.direction) != 0.0
      ensures o.hit ==> o.record.lambda == HitNormal().Dot(location.Sub(r.origin)) / HitNormal().Dot(r.direction)
      ensures o.hit ==> o.record.hitPoint == r.At(o.record.lambda) && o.record.obj == Some(self)
      ensures o.hit ==> 0.0 <= o.record.uv.x <= 1.0 && 0.0 <= o.record.uv.y <= 1.0
      ensures o.hit <==> HitNormal().Dot(r.direction) != 0.0 && NonDegenerate() &&
                         InUnitSquare(FindAlphaBeta(r.At(HitNormal().Dot(location.Sub(r.origin)) / HitNormal().Dot(r.direction))))
      ensures o.hit ==> NonDegenerate() && o.record.uv == FindAlphaBeta(o.record.hitPoint)
    {
      OneSidedNeverRejects(this);
      var normal := HitNormal();
      if oneSided && normal.Dot(v1.Cross(v2)) > 0.0 then HitOutcome(false, rec)
      else
        var top := normal.Dot(location.Sub(r.origin));
        var bottom := normal.Dot(r.direction);
        if bottom == 0.0 then HitOutcome(false, rec)
        else
          var lambda := top / bottom;
          var hitPoint := r.At(lambda);
          HitNormalIsReversedCross(this);
          var uv := FindAlphaBeta(hitPoint);
          if !InUnitSquare(uv) then HitOutcome(false, rec)
          else
            var filled := rec.(hitPoint := hitPoint, lambda := lambda, uv := uv);
            HitOutcome(true, SetNormal(filled, r, mappedNormal(hitPoint), sqrt).(obj := Some(self)))
    }

    /**
     * `sample_point()` with the two random draws a, b in [0, 1] passed in:
     * the point lies on the quad, with plane parameters (a, b).
     */
    function SamplePoint(a: real, b: real): (p: Vec3)
      requires 0.0 <= a <= 1.0 && 0.0 <= b <= 1.0
      ensures NonDegenerate() ==> InUnitSquare(FindAlphaBeta(p)) && FindAlphaBeta(p) == Vec3(a, b, 0.0)
    {
      if NonDegenerate() then
        FindAlphaBetaInverts(this, a, b);
        GetPoint(a, b)
      else GetPoint(a, b)
    }

    /** `area()`: |v1 x v2|. */
    function Area(sqrt: real -> real): real
    {
      v1.Cross(v2).Length(sqrt)
    }

    /** `tangent(point)` is v1 and `normal(point)` is v1 x v2. */
    function Tangent(point: Vec3): Vec3 { v1 }
    function Normal(point: Vec3): Vec3 { v1.Cross(v2) }
  }

  /** Both plane parameters lie in [0, 1]. */
  predicate InUnitSquare(uv: Vec3)
  {
    0.0 <= uv.x <= 1.0 && 0.0 <= uv.y <= 1.0
  }

  /** The constructor `Quad(location, v1, v2, mat)`: the quad starts two-sided. */
  function MakeQuad(location: Vec3, v1: Vec3, v2: Vec3): (q: Quad)
    ensures q.location == location && q.v1 == v1 && q.v2 == v2 && !q.oneSided
  {
    Quad(location, v1, v2, false)
  }

  /** v1 x (-v2) = v2 x v1, so a ray that is not parallel to it sees a non-degenerate quad. */
  lemma HitNormalIsReversedCross(q: Quad)
    ensures q.HitNormal() == q.v2.Cross(q.v1)
    ensures q.HitNormal() != Zero ==> q.NonDegenerate()
  {
  }

  /**
   * The shading frame of a quad: the normal v1 x v2 is orthogonal to the
   * tangent v1 and to v2, and it is the hit test's normal reversed.
   */
  lemma {:induction false} QuadFrame(q: Quad, point: Vec3)
    ensures q.Normal(point).Dot(q.Tangent(point)) == 0.0
    ensures q.Normal(point).Dot(q.v2) == 0.0
    ensures q.Normal(point) == q.HitNormal().Neg()
  {
    var c := q.v1.Cross(q.v2);
    CrossProperties(q.v1, q.v2);
    DotSymmetric(q.v1, c);
    DotSymmetric(q.v2, c);
    HitNormalIsReversedCross(q);
    CrossProperties(q.v2, q.v1);
    assert q.HitNormal().Neg() == c.Neg().Neg();
  }

  /** The area of a quad is the length of its normal. */
  lemma {:induction false} QuadArea(q: Quad, point: Vec3, sqrt: real -> real)
    requires Numerics.IsSqrt(sqrt)
    ensures 0.0 <= q.Area(sqrt) && Numerics.Sq(q.Area(sqrt)) == q.Normal(point).LengthSquared()
  {
    LengthIsRoot(q.v1.Cross(q.v2), sqrt);
  }

  /**
   * The one-sided test never rejects: normal . (v1 x v2) = -|v1 x v2|^2,
   * which is never positive.
   */
  lemma {:induction false} OneSidedNeverRejects(q: Quad)
    ensures q.HitNormal().Dot(q.v1.Cross(q.v2)) == -q.v1.Cross(q.v2).LengthSquared()
    ensures q.HitNormal().Dot(q.v1.Cross(q.v2)) <= 0.0
  {
    HitNormalIsReversedCross(q);
    VectorAlgebra.CrossDotReversed(q.v1, q.v2);
    LengthSquaredPositive(q.v1.Cross(q.v2));
  }

  /** The one-sided flag makes no difference to `hit`. */
  lemma OneSidedIsIrrelevant(q: Quad, self: ObjRef, r: Ray, rec: HitRecord, mappedNormal: Vec3 -> Vec3, sqrt: real -> real)
    ensures q.(oneSided := true).Hit(self, r, rec, mappedNormal, sqrt) == q.(oneSided := false).Hit(self, r, rec, mappedNormal, sqrt)
  {
    OneSidedNeverRejects(q);
  }

  /** `find_alpha_beta` inverts `get_point`: find_alpha_beta(get_point(a, b)) = (a, b, 0). */
  lemma {:induction false} FindAlphaBetaInverts(q: Quad, a: real, b: real)
    requires q.NonDegenerate()
    ensures q.FindAlphaBeta(q.GetPoint(a, b)) == Vec3(a, b, 0.0)
  {
    LengthSquaredPositive(q.v2.Cross(q.v1));
    assert q.GetPoint(a, b).Sub(q.location) == q.v1.Scale(a).Add(q.v2.Scale(b));
    AlphaOfCombination(q.v1, q.v2, a, b);
    BetaOfCombination(q.v1, q.v2, a, b);
  }

  /** With n = (v2 x v1) / |v2 x v1|^2, (v2 x (a v1 + b v2)) . n = a. */
  lemma AlphaOfCombination(v1: Vec3, v2: Vec3, a: real, b: real)
    requires v2.Cross(v1).LengthSquared() > 0.0
    ensures var m := v2.Cross(v1);
            v2.Cross(v1.Scale(a).Add(v2.Scale(b))).Dot(m.Div(m.LengthSquared())) == a
  {
    var m := v2.Cross(v1);
    var L := m.LengthSquared();
    VectorAlgebra.CrossOfCombination(v1, v2, a, b);
    DotDiv(m.Scale(a), m, L);
    VectorAlgebra.DotScale(m, m, a);
    VectorAlgebra.MulDivCancel(a, L);
  }

  /** With n = (v2 x v1) / |v2 x v1|^2, (v1 x (a v1 + b v2)) . (-n) = b. */
  lemma BetaOfCombination(v1: Vec3, v2: Vec3, a: real, b: real)
    requires v2.Cross(v1).LengthSquared() > 0.0
    ensures var m := v2.Cross(v1);
            v1.Cross(v1.Scale(a).Add(v2.Scale(b))).Dot(m.Div(m.LengthSquared()).Neg()) == b
  {
    var m := v2.Cross(v1);
    var L := m.LengthSquared();
    var n := m.Div(L);
    VectorAlgebra.CrossOfCombination(v2, v1, b, a);
    assert v1.Scale(a).Add(v2.Scale(b)) == v2.Scale(b).Add(v1.Scale(a));
    CrossProperties(v1, v2);
    NegPair(m.Scale(b), n);
    assert v1.Cross(v2).Scale(b) == m.Scale(b).Neg();
    DotDiv(m.Scale(b), m, L);
    VectorAlgebra.DotScale(m, m, b);
    VectorAlgebra.MulDivCancel(b, L);
  }

  lemma NegPair(p: Vec3, n: Vec3)
    ensures p.Neg().Dot(n.Neg()) == p.Dot(n)
  {
  }

  /** `find_alpha_beta` recovers the parameters of every point `get_point` gives. */
  lemma ToUVInverts(q: Quad, point: Vec3)
    requires q.NonDegenerate()
    ensures forall a: real, b: real :: point == q.GetPoint(a, b) ==> q.FindAlphaBeta(point) == Vec3(a, b, 0.0)
  {
    forall a: real, b: real | point == q.GetPoint(a, b)
      ensures q.FindAlphaBeta(point) == Vec3(a, b, 0.0)
    {
      FindAlphaBetaInverts(q, a, b);
    }
  }
}
