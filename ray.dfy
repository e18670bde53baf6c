/** The ray of src/ds/ray.cpp: a point of origin, a direction and a time stamp. */
module Rays {
  import opened Vectors
  import Numerics

  datatype Ray = Ray(origin: Vec3, direction: Vec3, time: real)
  {
    /** `at(t)`: the point origin + direction t. */
    function At(t: real): Vec3
    {
      origin.Add(direction.Scale(t))
    }

    /**
     * `can_refract(normal, mu)`: with cos = min(-unit(direction) . normal, 1),
     * refraction is possible iff mu sqrt(1 - cos^2) <= 1. A negative radicand
     * makes `std::sqrt` return NaN, which compares false.
     */
    predicate CanRefract(normal: Vec3, mu: real, sqrt: real -> real)
    {
      RefractsAt(direction.Unit(sqrt).Dot(normal), mu, sqrt)
    }

    /** `nudge_forward()`: the origin moved 0.01 along the unit direction. */
    function NudgeForward(sqrt: real -> real): (r: Ray)
      ensures r.direction == direction && r.time == time
    {
      Ray(origin.Add(direction.Unit(sqrt).Scale(0.01)), direction, time)
    }
  }

  /** The scalar test of `can_refract` for d = unit(direction) . normal. */
  predicate RefractsAt(d: real, mu: real, sqrt: real -> real)
  {
    var cos := Numerics.Min(-d, 1.0);
    var radicand := 1.0 - Numerics.Sq(cos);
    0.0 <= radicand && Numerics.Mul(mu, sqrt(radicand)) <= 1.0
  }

  /** The two-argument constructor `Ray(origin, direction)`, which sets the time to 0. */
  function MakeRay(origin: Vec3, direction: Vec3): (r: Ray)
    ensures r.origin == origin && r.direction == direction && r.time == 0.0
  {
    Ray(origin, direction, 0.0)
  }

  /** A ray starts at its origin, and at(t) - origin is t times the direction. */
  lemma AtProperties(r: Ray, t: real)
    ensures r.At(0.0) == r.origin
    ensures r.At(t).Sub(r.origin) == r.direction.Scale(t)
  {
  }

  /** The squared length of v - n in terms of the dot products. */
  lemma {:induction false} LengthSquaredOfSub(u: Vec3, n: Vec3)
    ensures u.Sub(n).LengthSquared() == u.LengthSquared() - 2.0 * u.Dot(n) + n.LengthSquared()
    ensures u.Add(n).LengthSquared() == u.LengthSquared() + 2.0 * u.Dot(n) + n.LengthSquared()
  {
    SquareOfDifference(u.x, n.x);
    SquareOfDifference(u.y, n.y);
    SquareOfDifference(u.z, n.z);
  }

  lemma SquareOfDifference(a: real, b: real)
    ensures Numerics.Mul(a - b, a - b) == Numerics.Mul(a, a) - 2.0 * Numerics.Mul(a, b) + Numerics.Mul(b, b)
    ensures Numerics.Mul(a + b, a + b) == Numerics.Mul(a, a) + 2.0 * Numerics.Mul(a, b) + Numerics.Mul(b, b)
  {
  }

  /** The dot product of two vectors of length at most one lies in [-1, 1]. */
  lemma {:induction false} UnitDotBounded(u: Vec3, n: Vec3)
    requires u.LengthSquared() <= 1.0 && n.LengthSquared() <= 1.0
    ensures -1.0 <= u.Dot(n) <= 1.0
  {
    LengthSquaredOfSub(u, n);
    LengthSquaredPositive(u.Sub(n));
    LengthSquaredPositive(u.Add(n));
  }

  /** A square at most one has its root in [-1, 1]. */
  lemma SquareAtMostOne(s: real)
    requires 0.0 <= s && Numerics.Sq(s) <= 1.0
    ensures s <= 1.0
  {
    if 1.0 < s {
      Numerics.SquareBelow(1.0, s);
    }
  }

  lemma SquareOfBounded(c: real)
    requires -1.0 <= c <= 1.0
    ensures Numerics.Sq(c) <= 1.0
  {
    var b := Numerics.Abs(c);
    assert Numerics.Sq(c) == Numerics.Sq(b);
    if b < 1.0 {
      Numerics.SquareBelow(b, 1.0);
    }
  }

  /**
   * A ray passing into a medium that is not denser (mu <= 1) through a
   * unit normal can always refract.
   */
  lemma {:induction false} CanRefractWhenNotDenser(r: Ray, normal: Vec3, mu: real, sqrt: real -> real)
    requires Numerics.IsSqrt(sqrt)
    requires normal.LengthSquared() == 1.0 && mu <= 1.0
    ensures r.CanRefract(normal, mu, sqrt)
  {
    var u := r.direction.Unit(sqrt);
    UnitAtMostOne(r.direction, sqrt);
    UnitDotBounded(u, normal);
    RefractScalar(u.Dot(normal), mu, sqrt);
  }

  /** The scalar part of the refraction test, for a cosine already known to be in [-1, 1]. */
  lemma RefractScalar(d: real, mu: real, sqrt: real -> real)
    requires Numerics.IsSqrt(sqrt)
    requires -1.0 <= d <= 1.0 && mu <= 1.0
    ensures RefractsAt(d, mu, sqrt)
  {
    var cos := Numerics.Min(-d, 1.0);
    SquareOfBounded(cos);
    Numerics.SquarePos(cos);
    var s := sqrt(1.0 - Numerics.Sq(cos));
    SquareAtMostOne(s);
    if mu <= 0.0 {
      Numerics.MulLe(mu, 0.0, s);
    } else {
      Numerics.MulLe(mu, 1.0, s);
    }
  }

  /**
   * Nudging keeps the direction and the time and moves the origin by
   * exactly 0.01 along a non-zero direction.
   */
  lemma {:induction false} NudgeForwardMoves(r: Ray, sqrt: real -> real)
    requires Numerics.IsSqrt(sqrt)
    ensures r.NudgeForward(sqrt).direction == r.direction && r.NudgeForward(sqrt).time == r.time
    ensures r.direction != Zero ==>
      r.NudgeForward(sqrt).origin.Sub(r.origin) == r.direction.Unit(sqrt).Scale(0.01)
    ensures r.direction != Zero ==>
      r.NudgeForward(sqrt).origin.Sub(r.origin).LengthSquared() == 0.0001
  {
    if r.direction != Zero {
      var u := r.direction.Unit(sqrt);
      UnitLength(r.direction, sqrt);
      assert r.NudgeForward(sqrt).origin.Sub(r.origin) == u.Scale(0.01);
      ScaleLengthSquared(u, 0.01);
    }
  }

  /** Scaling by c multiplies the squared length by c^2. */
  lemma {:induction false} ScaleLengthSquared(v: Vec3, c: real)
    ensures v.Scale(c).LengthSquared() == Numerics.Mul(Numerics.Sq(c), v.LengthSquared())
  {
    ScaledSquares(v.x, v.y, v.z, c);
  }

  lemma ScaledSquares(a: real, b: real, d: real, c: real)
    ensures Numerics.Mul(Numerics.Mul(a, c), Numerics.Mul(a, c)) + Numerics.Mul(Numerics.Mul(b, c), Numerics.Mul(b, c))
          + Numerics.Mul(Numerics.Mul(d, c), Numerics.Mul(d, c))
         == Numerics.Mul(Numerics.Sq(c), Numerics.Mul(a, a) + Numerics.Mul(b, b) + Numerics.Mul(d, d))
  {
  }
}
