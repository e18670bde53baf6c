/**
 * The sphere of src/object/sphere.cpp: a centre `location` and a radius.
 * `hit` solves |origin + lambda direction - location|^2 = radius^2 for
 * lambda and keeps the nearest root that is not behind the ray's origin.
 */
module Spheres {
  import opened Wrappers
  import opened Vectors
  import opened Rays
  import opened HitRecords
  import Numerics

  datatype Sphere = Sphere(location: Vec3, radius: real)
  {
    /** The coefficients a, b, c of a lambda^2 + b lambda + c = 0 that `hit` sets up. */
    function Coefficients(r: Ray): (real, real, real)
    {
      var a := r.direction.Dot(r.direction);
      var b := Numerics.Mul(r.direction.Dot(r.origin.Sub(location)), 2.0);
      var c := location.Sub(r.origin).Dot(location.Sub(r.origin)) - Numerics.Mul(radius, radius);
      (a, b, c)
    }

    /** b^2 - 4ac, the value `difference_of_products(b, b, 4a, c)` stands for. */
    function Discriminant(r: Ray): real
    {
      var (a, b, c) := Coefficients(r);
      Numerics.Sq(b) - Numerics.Mul(Numerics.Mul(4.0, a), c)
    }

    /** The smaller and the larger root (-b -/+ sqrt(disc)) / 2a. */
    function Roots(r: Ray, sqrt: real -> real): (roots: (real, real))
      requires r.direction != Zero
      ensures Numerics.Mul(Coefficients(r).0, roots.0 + roots.1) == -Coefficients(r).1
    {
      var (a, b, c) := Coefficients(r);
      LengthSquaredPositive(r.direction);
      var s := sqrt(Discriminant(r));
      RootSum(a, b, s);
      ((-b - s) / Numerics.Mul(2.0, a), (-b + s) / Numerics.Mul(2.0, a))
    }

    /**
     * `hit(r, record)`: fails on a negative discriminant without writing
     * the record. Otherwise the smaller root is stored in record.lambda; if
     * it is negative the larger root replaces it, and if that is negative
     * too the test fails with only lambda written. On success the hit point,
     * the normal, the texture coordinates and the object are filled in.
     * mappedNormal and toUv stand for `mapped_normal` and `to_uv`.
     */
    function Hit(self: ObjRef, r: Ray, rec: HitRecord, mappedNormal: Vec3 -> Vec3, toUv: Vec3 -> Vec3,
                 sqrt: real -> real): (o: HitOutcome)
      requires r.direction != Zero
      ensures Discriminant(r) < 0.0 ==> !o.hit && o.record == rec
      ensures !o.hit ==> o.record.(lambda := rec.lambda) == rec
      ensures !o.hit && 0.0 <= Discriminant(r) ==> o.record.lambda == Roots(r, sqrt).1 < 0.0 && Roots(r, sqrt).0 < 0.0
      ensures o.hit ==> 0.0 <= Discriminant(r) && 0.0 <= o.record.lambda
      ensures o.hit ==> o.record.lambda == Roots(r, sqrt).0 || o.record.lambda == Roots(r, sqrt).1
      ensures o.hit && 0.0 <= Roots(r, sqrt).0 ==> o.record.lambda == Roots(r, sqrt).0
      ensures o.hit ==> o.record.hitPoint == r.At(o.record.lambda) && o.record.obj == Some(self)
      ensures o.hit ==> o.record.uv == toUv(o.record.hitPoint)
    {
      if Discriminant(r) < 0.0 then HitOutcome(false, rec)
      else
        var (near, far) := Roots(r, sqrt);
        var lambda := if near < 0.0 then far else near;
        if lambda < 0.0 then HitOutcome(false, rec.(lambda := lambda))
        else
          var hitPoint := r.At(lambda);
          var filled := SetNormal(rec.(lambda := lambda, hitPoint := hitPoint), r, mappedNormal(hitPoint), sqrt);
          HitOutcome(true, filled.(uv := toUv(hitPoint), obj := Some(self)))
    }

    /** `normal(point)`: the unit vector from the centre to point. */
    function Normal(point: Vec3, sqrt: real -> real): Vec3
    {
      point.Sub(location).Unit(sqrt)
    }

    /** `area()`: 4 pi r^2. */
    function Area(): real
    {
      Numerics.Mul(Numerics.Mul(4.0, Numerics.PI), Numerics.Mul(radius, radius))
    }
  }

  /** A sphere's area is never negative. */
  lemma AreaNonNegative(s: Sphere)
    ensures 0.0 <= s.Area()
  {
    Numerics.SquarePos(s.radius);
    Numerics.MulNonneg(Numerics.Mul(4.0, Numerics.PI), Numerics.Mul(s.radius, s.radius));
  }

  /** With a real square root the smaller root is at most the larger one. */
  lemma RootsOrdered(s: Sphere, r: Ray, sqrt: real -> real)
    requires Numerics.IsSqrt(sqrt) && r.direction != Zero && 0.0 <= s.Discriminant(r)
    ensures s.Roots(r, sqrt).0 <= s.Roots(r, sqrt).1
  {
    LengthSquaredPositive(r.direction);
    var (a, b, c) := s.Coefficients(r);
    var q := sqrt(s.Discriminant(r));
    OrderedQuotients(-b, q, Numerics.Mul(2.0, a));
  }

  lemma OrderedQuotients(p: real, q: real, d: real)
    requires 0.0 <= q && 0.0 < d
    ensures (p - q) / d <= (p + q) / d
  {
  }

  /**
   * Both roots lie on the sphere: the point at either of them is at
   * squared distance radius^2 from the centre. So does every successful
   * hit point.
   */
  lemma {:induction false} RootsOnSurface(s: Sphere, r: Ray, sqrt: real -> real)
    requires Numerics.IsSqrt(sqrt) && r.direction != Zero && 0.0 <= s.Discriminant(r)
    ensures r.At(s.Roots(r, sqrt).0).Sub(s.location).LengthSquared() == Numerics.Sq(s.radius)
    ensures r.At(s.Roots(r, sqrt).1).Sub(s.location).LengthSquared() == Numerics.Sq(s.radius)
  {
    LengthSquaredPositive(r.direction);
    var (a, b, c) := s.Coefficients(r);
    var q := sqrt(s.Discriminant(r));
    var (t1, t2) := s.Roots(r, sqrt);
    QuadraticRoot(a, b, c, q, -1.0);
    QuadraticRoot(a, b, c, q, 1.0);
    assert t1 == (-b + Numerics.Mul(-1.0, q)) / Numerics.Mul(2.0, a);
    assert t2 == (-b + Numerics.Mul(1.0, q)) / Numerics.Mul(2.0, a);
    PointAtSquaredDistance(s, r, t1);
    PointAtSquaredDistance(s, r, t2);
  }

  /** Every successful hit point lies on the sphere. */
  lemma HitOnSurface(s: Sphere, self: ObjRef, r: Ray, rec: HitRecord, mappedNormal: Vec3 -> Vec3,
                     toUv: Vec3 -> Vec3, sqrt: real -> real)
    requires Numerics.IsSqrt(sqrt) && r.direction != Zero
    ensures var o := s.Hit(self, r, rec, mappedNormal, toUv, sqrt);
            o.hit ==> o.record.hitPoint.Sub(s.location).LengthSquared() == Numerics.Sq(s.radius)
  {
    if 0.0 <= s.Discriminant(r) {
      RootsOnSurface(s, r, sqrt);
    }
  }

  /**
   * A successful hit is at the nearest root that is not behind the origin:
   * no root in [0, lambda) exists.
   */
  lemma HitIsNearest(s: Sphere, self: ObjRef, r: Ray, rec: HitRecord, mappedNormal: Vec3 -> Vec3,
                     toUv: Vec3 -> Vec3, sqrt: real -> real)
    requires Numerics.IsSqrt(sqrt) && r.direction != Zero
    ensures var o := s.Hit(self, r, rec, mappedNormal, toUv, sqrt);
            o.hit ==> forall t :: t in [s.Roots(r, sqrt).0, s.Roots(r, sqrt).1] && 0.0 <= t ==> o.record.lambda <= t
  {
    if 0.0 <= s.Discriminant(r) {
      RootsOrdered(s, r, sqrt);
    }
  }

  /** |at(t) - centre|^2 - radius^2 = a t^2 + b t + c. */
  lemma {:induction false} PointAtSquaredDistance(s: Sphere, r: Ray, t: real)
    ensures var (a, b, c) := s.Coefficients(r);
            r.At(t).Sub(s.location).LengthSquared() - Numerics.Sq(s.radius)
              == Numerics.Mul(a, Numerics.Sq(t)) + Numerics.Mul(b, t) + c
  {
    var w := r.origin.Sub(s.location);
    ShiftedSquare(w.x, r.direction.x, t);
    ShiftedSquare(w.y, r.direction.y, t);
    ShiftedSquare(w.z, r.direction.z, t);
    assert s.location.Sub(r.origin) == w.Neg();
    NegSquare(w.x);
    NegSquare(w.y);
    NegSquare(w.z);
    var a := r.direction.Dot(r.direction);
    var dw := r.direction.Dot(w);
    CollectTerms(dw, r.direction.x, r.direction.y, r.direction.z, w.x, w.y, w.z, t);
    CollectSquares(a, r.direction.x, r.direction.y, r.direction.z, t);
  }

  lemma ShiftedSquare(w: real, d: real, t: real)
    ensures Numerics.Mul(w + Numerics.Mul(d, t), w + Numerics.Mul(d, t))
         == Numerics.Mul(w, w) + 2.0 * Numerics.Mul(Numerics.Mul(d, w), t) + Numerics.Mul(Numerics.Mul(d, d), Numerics.Sq(t))
  {
  }

  lemma NegSquare(w: real)
    ensures Numerics.Mul(-w, -w) == Numerics.Mul(w, w)
  {
  }

  lemma CollectTerms(dw: real, dx: real, dy: real, dz: real, wx: real, wy: real, wz: real, t: real)
    requires dw == Numerics.Mul(dx, wx) + Numerics.Mul(dy, wy) + Numerics.Mul(dz, wz)
    ensures 2.0 * Numerics.Mul(Numerics.Mul(dx, wx), t) + 2.0 * Numerics.Mul(Numerics.Mul(dy, wy), t)
          + 2.0 * Numerics.Mul(Numerics.Mul(dz, wz), t)
         == Numerics.Mul(Numerics.Mul(dw, 2.0), t)
  {
  }

  lemma CollectSquares(a: real, dx: real, dy: real, dz: real, t: real)
    requires a == Numerics.Mul(dx, dx) + Numerics.Mul(dy, dy) + Numerics.Mul(dz, dz)
    ensures Numerics.Mul(Numerics.Mul(dx, dx), Numerics.Sq(t)) + Numerics.Mul(Numerics.Mul(dy, dy), Numerics.Sq(t))
          + Numerics.Mul(Numerics.Mul(dz, dz), Numerics.Sq(t))
         == Numerics.Mul(a, Numerics.Sq(t))
  {
  }

  /**
   * t = (-b + e q) / 2a with e = +1 or -1 and q^2 = b^2 - 4ac solves
   * a t^2 + b t + c = 0.
   */
  lemma {:induction false} QuadraticRoot(a: real, b: real, c: real, q: real, e: real)
    requires a != 0.0 && (e == 1.0 || e == -1.0)
    requires Numerics.Sq(q) == Numerics.Sq(b) - Numerics.Mul(Numerics.Mul(4.0, a), c)
    ensures var t := (-b + Numerics.Mul(e, q)) / Numerics.Mul(2.0, a);
            Numerics.Mul(a, Numerics.Sq(t)) + Numerics.Mul(b, t) + c == 0.0
  {
    var t := (-b + Numerics.Mul(e, q)) / Numerics.Mul(2.0, a);
    var k := Numerics.Mul(2.0, a);
    assert Numerics.Mul(k, t) == -b + Numerics.Mul(e, q);
    assert Numerics.Sq(Numerics.Mul(e, q)) == Numerics.Sq(q);
    ExpandRoot(a, b, c, t, Numerics.Mul(e, q));
  }

  /** If 2 a t = -b + p and p^2 = b^2 - 4ac then a t^2 + b t + c = 0. */
  lemma ExpandRoot(a: real, b: real, c: real, t: real, p: real)
    requires a != 0.0
    requires Numerics.Mul(Numerics.Mul(2.0, a), t) == -b + p
    requires Numerics.Sq(p) == Numerics.Sq(b) - Numerics.Mul(Numerics.Mul(4.0, a), c)
    ensures Numerics.Mul(a, Numerics.Sq(t)) + Numerics.Mul(b, t) + c == 0.0
  {
    assert p == Numerics.Mul(Numerics.Mul(2.0, a), t) + b;
    assert Numerics.Sq(p) == Numerics.Mul(Numerics.Mul(4.0, a), Numerics.Mul(a, Numerics.Sq(t)) + Numerics.Mul(b, t)) + Numerics.Sq(b);
    assert Numerics.Mul(Numerics.Mul(4.0, a), Numerics.Mul(a, Numerics.Sq(t)) + Numerics.Mul(b, t) + c) == 0.0;
  }

  /** The two roots of a x^2 + b x + c add up to -b / a. */
  lemma RootSum(a: real, b: real, s: real)
    requires a != 0.0
    ensures Numerics.Mul(a, (-b - s) / Numerics.Mul(2.0, a) + (-b + s) / Numerics.Mul(2.0, a)) == -b
  {
    var d := Numerics.Mul(2.0, a);
    assert (-b - s) / d + (-b + s) / d == (-2.0 * b) / d;
    assert Numerics.Mul(a, (-2.0 * b) / d) == -b;
  }
}
