/**
 * Identities of the vector algebra that the hit tests rely on: the
 * coordinates of a point of a plane along two spanning vectors, which
 * `hit_box`, `Quad::find_alpha_beta` and `Plane::to_uv` all recover
 * with the same triple-product quotients.
 */
module VectorAlgebra {
  import opened Vectors
  import Numerics

  /** a x a = 0. */
  lemma CrossSelf(a: Vec3)
    ensures a.Cross(a) == Zero
  {
  }

  lemma CrossComponent(vy: real, vz: real, uy: real, uz: real, a: real, b: real)
    ensures Numerics.Mul(vy, Numerics.Mul(uz, a) + Numerics.Mul(vz, b)) - Numerics.Mul(vz, Numerics.Mul(uy, a) + Numerics.Mul(vy, b))
         == Numerics.Mul(Numerics.Mul(vy, uz) - Numerics.Mul(vz, uy), a)
  {
  }

  /** v x (a u + b v) = a (v x u). */
  lemma {:induction false} CrossOfCombination(u: Vec3, v: Vec3, a: real, b: real)
    ensures v.Cross(u.Scale(a).Add(v.Scale(b))) == v.Cross(u).Scale(a)
  {
    CrossComponent(v.y, v.z, u.y, u.z, a, b);
    CrossComponent(v.z, v.x, u.z, u.x, a, b);
    CrossComponent(v.x, v.y, u.x, u.y, a, b);
  }

  /** (a p) . n = a (p . n). */
  lemma DotScale(p: Vec3, n: Vec3, a: real)
    ensures p.Scale(a).Dot(n) == Numerics.Mul(a, p.Dot(n))
  {
  }

  lemma MulDivCancel(a: real, d: real)
    requires d != 0.0
    ensures Numerics.Mul(a, d) / d == a
  {
  }

  /**
   * For w = a u + b v, the quotients ((v x w) . n) / ((v x u) . n) and
   * ((u x w) . n) / ((u x v) . n) give back a and b.
   */
  lemma {:induction false} CoordinatesOfCombination(u: Vec3, v: Vec3, n: Vec3, a: real, b: real)
    requires v.Cross(u).Dot(n) != 0.0 && u.Cross(v).Dot(n) != 0.0
    ensures v.Cross(u.Scale(a).Add(v.Scale(b))).Dot(n) / v.Cross(u).Dot(n) == a
    ensures u.Cross(u.Scale(a).Add(v.Scale(b))).Dot(n) / u.Cross(v).Dot(n) == b
  {
    CrossOfCombination(u, v, a, b);
    DotScale(v.Cross(u), n, a);
    MulDivCancel(a, v.Cross(u).Dot(n));
    CrossOfCombination(v, u, b, a);
    assert u.Scale(a).Add(v.Scale(b)) == v.Scale(b).Add(u.Scale(a));
    DotScale(u.Cross(v), n, b);
    MulDivCancel(b, u.Cross(v).Dot(n));
  }

  /** Lagrange's identity: |a x b|^2 = |a|^2 |b|^2 - (a . b)^2. */
  lemma Lagrange(a: Vec3, b: Vec3)
    ensures a.Cross(b).LengthSquared()
         == Numerics.Mul(a.LengthSquared(), b.LengthSquared()) - Numerics.Mul(a.Dot(b), a.Dot(b))
  {
  }

  /** (v x u) . (u x v) = -|u x v|^2, so it vanishes only when u x v does. */
  lemma CrossDotReversed(u: Vec3, v: Vec3)
    ensures v.Cross(u).Dot(u.Cross(v)) == -u.Cross(v).LengthSquared()
    ensures u.Cross(v) != Zero ==> v.Cross(u).Dot(u.Cross(v)) < 0.0
  {
    CrossProperties(v, u);
    LengthSquaredPositive(u.Cross(v));
  }
}
