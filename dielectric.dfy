/**
 * The glass material of src/material/dielectric.cpp: Schlick's reflectance
 * and the choice between reflecting and refracting a ray.
 */
module Dielectrics {
  import opened Wrappers
  import opened Vectors
  import opened Rays
  import opened HitRecords
  import Numerics

  /** r0 = ((1 - eta) / (1 + eta))^2, the reflectance at normal incidence. */
  function R0(eta: real): real
    requires eta != -1.0
  {
    Numerics.Sq((1.0 - eta) / (1.0 + eta))
  }

  /**
   * `reflectance(cosine, eta)`: Schlick's approximation
   * r0 + (1 - r0) (1 - cosine)^5. The source divides by 1 + eta.
   */
  function Reflectance(cosine: real, eta: real): real
    requires eta != -1.0
  {
    var r0 := R0(eta);
    r0 + Numerics.Mul(1.0 - r0, Numerics.Pow(1.0 - cosine, 5))
  }

  /** At normal incidence the reflectance is r0. */
  lemma ReflectanceAtNormalIncidence(eta: real)
    requires eta != -1.0
    ensures Reflectance(1.0, eta) == R0(eta)
  {
    assert Numerics.Pow(0.0, 5) == 0.0;
  }

  /** For a positive index, r0 lies in [0, 1). */
  lemma {:induction false} R0InUnit(eta: real)
    requires 0.0 < eta
    ensures 0.0 <= R0(eta) < 1.0
  {
    var q := (1.0 - eta) / (1.0 + eta);
    assert -1.0 < q < 1.0;
    Numerics.SquarePos(q);
    var b := Numerics.Abs(q);
    assert Numerics.Sq(q) == Numerics.Sq(b);
    Numerics.SquareBelow(b, 1.0);
  }

  /**
   * For a cosine in [0, 1] and a positive index the reflectance lies in
   * [r0, 1], and so in [0, 1].
   */
  lemma {:induction false} ReflectanceRange(cosine: real, eta: real)
    requires 0.0 <= cosine <= 1.0 && 0.0 < eta
    ensures R0(eta) <= Reflectance(cosine, eta) <= 1.0
    ensures 0.0 <= Reflectance(cosine, eta)
  {
    R0InUnit(eta);
    var r0 := R0(eta);
    var p := Numerics.Pow(1.0 - cosine, 5);
    Numerics.PowUnit(1.0 - cosine, 5);
    Numerics.MulNonneg(1.0 - r0, p);
    Numerics.MulLe(p, 1.0, 1.0 - r0);
    assert Numerics.Mul(p, 1.0 - r0) == Numerics.Mul(1.0 - r0, p);
  }

  /**
   * `Vec3::refract(n, mu)` as the dielectric calls it: with l = unit(this)
   * and n' = -unit(n), mu l + n' sqrt(1 - mu^2 (1 - (n' . l)^2)) - mu (n' . l) n'.
   * Snell's law holds whatever the root is: n' x t = mu (n' x l), so the
   * part of the ray across the normal scales by mu.
   */
  function Refract(d: Vec3, n: Vec3, mu: real, sqrt: real -> real): (t: Vec3)
    ensures var m := n.Unit(sqrt).Neg(); m.Cross(t) == m.Cross(d.Unit(sqrt)).Scale(mu)
  {
    var l := d.Unit(sqrt);
    var m := n.Unit(sqrt).Neg();
    var c := m.Dot(l);
    var root := sqrt(1.0 - Numerics.Mul(Numerics.Mul(mu, mu), 1.0 - Numerics.Sq(c)));
    var k := Numerics.Mul(mu, c);
    SnellLaw(l, m, mu, root, k);
    l.Scale(mu).Add(m.Scale(root)).Sub(m.Scale(k))
  }

  /** m x (mu l + root m - k m) = mu (m x l). */
  lemma {:induction false} SnellLaw(l: Vec3, m: Vec3, mu: real, root: real, k: real)
    ensures m.Cross(l.Scale(mu).Add(m.Scale(root)).Sub(m.Scale(k))) == m.Cross(l).Scale(mu)
  {
    SnellComponent(m.y, m.z, l.y, l.z, mu, root, k);
    SnellComponent(m.z, m.x, l.z, l.x, mu, root, k);
    SnellComponent(m.x, m.y, l.x, l.y, mu, root, k);
  }

  /** One component of Snell's law: the parts of t along m drop out of m x t. */
  lemma SnellComponent(p: real, q: real, lp: real, lq: real, mu: real, root: real, k: real)
    ensures Numerics.Mul(p, Numerics.Mul(lq, mu) + Numerics.Mul(q, root) - Numerics.Mul(q, k))
          - Numerics.Mul(q, Numerics.Mul(lp, mu) + Numerics.Mul(p, root) - Numerics.Mul(p, k))
         == Numerics.Mul(Numerics.Mul(p, lq) - Numerics.Mul(q, lp), mu)
  {
  }

  /** The relative index `scatter` uses: 1 / ior entering through the front face, ior leaving. */
  function RelativeIndex(frontFace: bool, ior: real): real
    requires ior != 0.0
  {
    if frontFace then 1.0 / ior else ior
  }

  /** What `scatter` produces: the outgoing direction, brdf and ray_prob. */
  datatype Scattered = Scattered(direction: Vec3, brdf: Option<Vec3>, rayProb: real)

  /**
   * `scatter(r, record, brdf, ray_prob)`. `draw` is the value of
   * `random_double(0, 1)`, and `exp` and `sqrt` stand for the library
   * functions. The brdf is attenuation ray_prob / (unit(direction) . normal);
   * it is None where that cosine is 0 and the source divides by zero.
   */
  method Scatter(ior: real, absorption: real, r: Ray, rec: HitRecord, draw: real,
                 exp: real -> real, sqrt: real -> real) returns (s: Scattered)
    requires ior != 0.0 && RelativeIndex(rec.frontFace, ior) != -1.0
    ensures var mu := RelativeIndex(rec.frontFace, ior);
            var u := r.direction.Unit(sqrt);
            var cos := Numerics.Min(-u.Dot(rec.normal), 1.0);
            var refl := Reflectance(cos, mu);
            && (!r.CanRefract(rec.normal, mu, sqrt) ==> s.rayProb == 1.0 && s.direction == u.Reflect(rec.normal))
            && (r.CanRefract(rec.normal, mu, sqrt) && draw < refl ==> s.rayProb == refl && s.direction == u.Reflect(rec.normal))
            && (r.CanRefract(rec.normal, mu, sqrt) && refl <= draw ==> s.rayProb == 1.0 - refl && s.direction == Refract(u, rec.normal, mu, sqrt))
    ensures var att := Attenuation(rec, r, absorption, exp, sqrt);
            var cosine := s.direction.Unit(sqrt).Dot(rec.normal);
            && (cosine == 0.0 <==> s.brdf.None?)
            && (cosine != 0.0 ==> s.brdf == Some(Vec3(att, att, att).Scale(s.rayProb / cosine)))
    ensures 0.0 < ior && r.direction.Unit(sqrt).Dot(rec.normal) <= 0.0 ==> 0.0 <= s.rayProb <= 1.0
  {
    var mu := RelativeIndex(rec.frontFace, ior);
    var unitDirection := r.direction.Unit(sqrt);
    var cosTheta := Numerics.Min(-unitDirection.Dot(rec.normal), 1.0);
    var attenuation := Attenuation(rec, r, absorption, exp, sqrt);
    var refl := Reflectance(cosTheta, mu);
    if 0.0 < ior && 0.0 <= cosTheta {
      ReflectanceRange(cosTheta, mu);
    }
    var brdf := Vec3(attenuation, attenuation, attenuation);
    var direction: Vec3;
    var rayProb: real;
    if !r.CanRefract(rec.normal, mu, sqrt) {
      rayProb := 1.0;
      direction := unitDirection.Reflect(rec.normal);
    } else if draw < refl {
      direction := unitDirection.Reflect(rec.normal);
      rayProb := refl;
    } else {
      direction := Refract(unitDirection, rec.normal, mu, sqrt);
      rayProb := 1.0 - refl;
    }
    var lambertCos := direction.Unit(sqrt).Dot(rec.normal);
    if lambertCos == 0.0 {
      s := Scattered(direction, None, rayProb);
    } else {
      s := Scattered(direction, Some(brdf.Scale(rayProb / lambertCos)), rayProb);
    }
  }

  /** The attenuation: 1 entering, exp(-absorption d) leaving after a path of length d = |lambda direction|. */
  function Attenuation(rec: HitRecord, r: Ray, absorption: real, exp: real -> real, sqrt: real -> real): (a: real)
    ensures rec.frontFace ==> a == 1.0
  {
    if rec.frontFace then 1.0
    else exp(Numerics.Mul(-absorption, r.direction.Scale(rec.lambda).Length(sqrt)))
  }

  /** Entering glass with a positive index uses the index's reciprocal, which is positive too. */
  lemma RelativeIndexPositive(frontFace: bool, ior: real)
    requires 0.0 < ior
    ensures 0.0 < RelativeIndex(frontFace, ior)
    ensures frontFace ==> Numerics.Mul(RelativeIndex(frontFace, ior), ior) == 1.0
  {
  }
}
