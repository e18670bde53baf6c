/**
 * The Blinn-Phong ray tracer of src/world/camera.cpp: `sample_light_rays`,
 * which adds up the diffuse and specular light a surface point receives
 * from one light, and `ray_color`, which adds that up over the scene's
 * lights and follows one reflected or refracted ray per bounce.
 *
 * The material's `phong(r, record)` and texture colour, the lights' sample
 * points and intensities, `std::pow` and the `random_double` draws come in
 * through a `ShadeSampler`.
 */
module Shading {
  import opened Vectors
  import opened Rays
  import opened HitRecords
  import opened Worlds
  import Cameras
  import Dielectrics
  import PointLights
  import Numerics

  /** `Material::PhongParams`. */
  datatype PhongParams = PhongParams(rs: real, ra: real, rd: real, rg: real, rt: real,
                                     alpha: real, gamma: real, mu: real, color: Vec3)

  /**
   * What `sample_light_rays` asks of a light: whether it is a point light,
   * its `sample_point()` for draw i at bounce depth d, and its diffuse and
   * specular intensity at a point.
   */
  datatype LightView = LightView(isPoint: bool, samplePoint: (nat, nat) -> Vec3,
                                 diffuse: Vec3 -> Vec3, specular: Vec3 -> Vec3)

  /**
   * The dispatched and random parts of `ray_color`: the surface's
   * `phong(r, record)` and texture colour, each light's view, the
   * `random_double(0, 1)` draw at each depth, and `std::pow`.
   */
  datatype ShadeSampler = ShadeSampler(
    phong: (Ray, HitRecord) -> PhongParams,
    surfaceColor: HitRecord -> Vec3,
    light: LightRef -> LightView,
    draw: nat -> real,
    pow: (real, real) -> real)

  /** What one light sample gives: nothing when the path is blocked, else a diffuse and a specular part. */
  datatype LightHit = Shadowed | Lit(diffuse: Vec3, specular: Vec3)

  /**
   * The number of samples the loop takes: one for a point light, the
   * requested number for an area light (none when it is not positive).
   */
  function SampleCount(view: LightView, n: int): (count: nat)
    ensures view.isPoint ==> count == 1
    ensures !view.isPoint ==> count == if n < 0 then 0 else n
  {
    if view.isPoint then 1 else if n < 0 then 0 else n
  }

  /** The unit vector from the hit point towards the camera centre. */
  function ToCamera(cam: Cameras.Camera, rec: HitRecord, sqrt: real -> real): Vec3
  {
    cam.center.Sub(rec.hitPoint).Unit(sqrt)
  }

  /**
   * Sample i of `count`: shadowed unless the path from the hit point to the
   * light point is clear, else the diffuse intensity times max(0, l . n)
   * and the specular intensity times pow(max(0, h . n), alpha), both over
   * count, where l is the unit direction to the light and h the unit
   * halfway vector between l and the direction to the camera.
   */
  ghost function LightHitAt(world: World, rec: HitRecord, toCamera: Vec3, view: LightView, params: PhongParams,
                            count: nat, depth: nat, pow: (real, real) -> real, sqrt: real -> real, i: nat): LightHit
    requires 1 <= count
    reads world
  {
    var point := view.samplePoint(depth, i);
    if !ClearPath(world.objects, rec.hitPoint, point, world.hitTest, sqrt) then Shadowed
    else
      var dir := point.Sub(rec.hitPoint).Unit(sqrt);
      var halfway := toCamera.Add(dir).Unit(sqrt);
      Lit(view.diffuse(point).Scale(Numerics.Max(0.0, dir.Dot(rec.normal))).Div(count as real),
          view.specular(point).Scale(pow(Numerics.Max(0.0, halfway.Dot(rec.normal)), params.alpha)).Div(count as real))
  }

  /** The first k of the count samples. */
  ghost function LightHits(world: World, rec: HitRecord, toCamera: Vec3, view: LightView, params: PhongParams,
                           count: nat, depth: nat, pow: (real, real) -> real, sqrt: real -> real, k: nat): (hits: seq<LightHit>)
    requires k <= count
    reads world
    ensures |hits| == k
    decreases k
  {
    if k == 0 then []
    else LightHits(world, rec, toCamera, view, params, count, depth, pow, sqrt, k - 1)
         + [LightHitAt(world, rec, toCamera, view, params, count, depth, pow, sqrt, k - 1)]
  }

  function DiffuseOf(h: LightHit): Vec3
  {
    if h.Lit? then h.diffuse else Zero
  }

  function SpecularOf(h: LightHit): Vec3
  {
    if h.Lit? then h.specular else Zero
  }

  /** The sum of the diffuse parts. */
  function SumDiffuse(hits: seq<LightHit>): Vec3
  {
    if |hits| == 0 then Zero else SumDiffuse(hits[..|hits| - 1]).Add(DiffuseOf(hits[|hits| - 1]))
  }

  /** The sum of the specular parts. */
  function SumSpecular(hits: seq<LightHit>): Vec3
  {
    if |hits| == 0 then Zero else SumSpecular(hits[..|hits| - 1]).Add(SpecularOf(hits[|hits| - 1]))
  }

  /** The specular part of the last lit sample, zero when no sample is lit. */
  function LastSpecular(hits: seq<LightHit>): Vec3
  {
    if |hits| == 0 then Zero
    else if hits[|hits| - 1].Lit? then hits[|hits| - 1].specular
    else LastSpecular(hits[..|hits| - 1])
  }

  /** diffuse rd times the surface colour, plus specular rs. */
  function Combine(diffuse: Vec3, specular: Vec3, params: PhongParams): Vec3
  {
    diffuse.Scale(params.rd).MulComponents(params.color).Add(specular.Scale(params.rs))
  }

  /** All the samples `sample_light_rays` takes of one light. */
  ghost function AllLightHits(cam: Cameras.Camera, world: World, rec: HitRecord, view: LightView, params: PhongParams,
                              n: int, depth: nat, pow: (real, real) -> real, sqrt: real -> real): (hits: seq<LightHit>)
    reads world
    ensures |hits| == SampleCount(view, n)
  {
    var count := SampleCount(view, n);
    LightHits(world, rec, ToCamera(cam, rec, sqrt), view, params, count, depth, pow, sqrt, count)
  }

  /** The light one light gives: the diffuse and the specular parts summed over all samples. */
  ghost function LightTerm(cam: Cameras.Camera, world: World, rec: HitRecord, view: LightView, params: PhongParams,
                           n: int, depth: nat, pow: (real, real) -> real, sqrt: real -> real): Vec3
    reads world
  {
    var hits := AllLightHits(cam, world, rec, view, params, n, depth, pow, sqrt);
    Combine(SumDiffuse(hits), SumSpecular(hits), params)
  }

  /** What `sample_light_rays` returns as written: the specular part is that of the last lit sample only. */
  ghost function LightTermAsWritten(cam: Cameras.Camera, world: World, rec: HitRecord, view: LightView, params: PhongParams,
                                    n: int, depth: nat, pow: (real, real) -> real, sqrt: real -> real): Vec3
    reads world
  {
    var hits := AllLightHits(cam, world, rec, view, params, n, depth, pow, sqrt);
    Combine(SumDiffuse(hits), LastSpecular(hits), params)
  }

  /**
   * One pass of the loop of `sample_light_rays`: the light point of draw i,
   * the `has_path` test, and for a clear path the diffuse and specular
   * parts of the sample.
   */
  method SampleOnce(world: World, rec: HitRecord, toCamera: Vec3, view: LightView, params: PhongParams,
                    count: nat, depth: nat, pow: (real, real) -> real, sqrt: real -> real, i: nat)
    returns (lit: bool, diffuse: Vec3, specular: Vec3)
    requires 1 <= count
    ensures var h := LightHitAt(world, rec, toCamera, view, params, count, depth, pow, sqrt, i);
            && (lit <==> h.Lit?)
            && (lit ==> diffuse == h.diffuse && specular == h.specular)
  {
    var point := view.samplePoint(depth, i);
    lit := world.HasPath(rec.hitPoint, point, sqrt);
    diffuse, specular := Zero, Zero;
    if lit {
      var dir := point.Sub(rec.hitPoint).Unit(sqrt);
      diffuse := view.diffuse(point).Scale(Numerics.Max(0.0, dir.Dot(rec.normal))).Div(count as real);
      var halfway := toCamera.Add(dir).Unit(sqrt);
      specular := view.specular(point).Scale(pow(Numerics.Max(0.0, halfway.Dot(rec.normal)), params.alpha)).Div(count as real);
    }
  }

  /**
   * `sample_light_rays(world, record, light, params, n)` as written: the
   * diffuse part accumulates with `+=`, but the specular part is assigned
   * with `=`, so each lit sample replaces the specular part of the ones
   * before it.
   */
  method SampleLightRaysAsWritten(cam: Cameras.Camera, world: World, rec: HitRecord, view: LightView, params: PhongParams,
                                  n: int, depth: nat, pow: (real, real) -> real, sqrt: real -> real)
    returns (c: Vec3)
    ensures c == LightTermAsWritten(cam, world, rec, view, params, n, depth, pow, sqrt)
  {
    var toCamera := cam.center.Sub(rec.hitPoint).Unit(sqrt);
    var count := SampleCount(view, n);
    var diffuse, specular := Zero, Zero;
    ghost var hits: seq<LightHit> := [];
    for i := 0 to count
      invariant hits == LightHits(world, rec, toCamera, view, params, count, depth, pow, sqrt, i)
      invariant diffuse == SumDiffuse(hits) && specular == LastSpecular(hits)
    {
      var lit, d, sp := SampleOnce(world, rec, toCamera, view, params, count, depth, pow, sqrt, i);
      ghost var h := LightHitAt(world, rec, toCamera, view, params, count, depth, pow, sqrt, i);
      assert (hits + [h])[..i] == hits;
      if lit {
        diffuse := diffuse.Add(d);
        specular := sp;
      } else {
        MulZero(diffuse);
      }
      hits := hits + [h];
    }
    c := Combine(diffuse, specular, params);
  }

  /**
   * `sample_light_rays` with the specular part accumulated like the
   * diffuse one, as the division of every sample by n intends.
   */
  method SampleLightRays(cam: Cameras.Camera, world: World, rec: HitRecord, view: LightView, params: PhongParams,
                         n: int, depth: nat, pow: (real, real) -> real, sqrt: real -> real)
    returns (c: Vec3)
    ensures c == LightTerm(cam, world, rec, view, params, n, depth, pow, sqrt)
  {
    var toCamera := cam.center.Sub(rec.hitPoint).Unit(sqrt);
    var count := SampleCount(view, n);
    var diffuse, specular := Zero, Zero;
    ghost var hits: seq<LightHit> := [];
    for i := 0 to count
      invariant hits == LightHits(world, rec, toCamera, view, params, count, depth, pow, sqrt, i)
      invariant diffuse == SumDiffuse(hits) && specular == SumSpecular(hits)
    {
      var lit, d, sp := SampleOnce(world, rec, toCamera, view, params, count, depth, pow, sqrt, i);
      ghost var h := LightHitAt(world, rec, toCamera, view, params, count, depth, pow, sqrt, i);
      assert (hits + [h])[..i] == hits;
      if lit {
        diffuse := diffuse.Add(d);
        specular := specular.Add(sp);
      } else {
        MulZero(diffuse);
        MulZero(specular);
      }
      hits := hits + [h];
    }
    c := Combine(diffuse, specular, params);
  }

  lemma MulZero(a: Vec3)
    ensures a.Add(Zero) == a
  {
  }

  /** With at most one sample the last specular part is the whole sum. */
  lemma LastSpecularOfOneSample(hits: seq<LightHit>)
    requires |hits| <= 1
    ensures LastSpecular(hits) == SumSpecular(hits)
  {
    if |hits| == 1 {
      assert hits[..0] == [];
    }
  }

  /**
   * A point light is sampled once, so `sample_light_rays` as written and
   * the accumulated form agree on it.
   */
  lemma PointLightTermsAgree(cam: Cameras.Camera, world: World, rec: HitRecord, view: LightView, params: PhongParams,
                             n: int, depth: nat, pow: (real, real) -> real, sqrt: real -> real)
    requires view.isPoint
    ensures LightTermAsWritten(cam, world, rec, view, params, n, depth, pow, sqrt)
         == LightTerm(cam, world, rec, view, params, n, depth, pow, sqrt)
  {
    LastSpecularOfOneSample(AllLightHits(cam, world, rec, view, params, n, depth, pow, sqrt));
  }

  /**
   * Two lit samples with the same non-zero specular part s: the sum is 2 s
   * but the code as written keeps s.
   */
  lemma LastSpecularDropsSamples(d: Vec3, s: Vec3)
    requires s != Zero
    ensures LastSpecular([Lit(d, s), Lit(d, s)]) == s
    ensures SumSpecular([Lit(d, s), Lit(d, s)]) == s.Add(s)
    ensures LastSpecular([Lit(d, s), Lit(d, s)]) != SumSpecular([Lit(d, s), Lit(d, s)])
  {
    var hits := [Lit(d, s), Lit(d, s)];
    assert hits[..1] == [Lit(d, s)];
    assert hits[..1][..0] == [];
    assert SumSpecular(hits[..1]) == Zero.Add(s);
  }

  /** Blocked samples contribute nothing: a fully shadowed point gets no light at all. */
  lemma {:induction false} ShadowedSumsVanish(hits: seq<LightHit>)
    requires forall k | 0 <= k < |hits| :: hits[k].Shadowed?
    ensures SumDiffuse(hits) == Zero && SumSpecular(hits) == Zero && LastSpecular(hits) == Zero
  {
    if |hits| > 0 {
      var front := hits[..|hits| - 1];
      assert forall k | 0 <= k < |front| :: front[k] == hits[k];
      ShadowedSumsVanish(front);
    }
  }

  /** A light none of whose sample points is visible adds nothing, in either form. */
  lemma ShadowedLightIsDark(cam: Cameras.Camera, world: World, rec: HitRecord, view: LightView, params: PhongParams,
                            n: int, depth: nat, pow: (real, real) -> real, sqrt: real -> real)
    requires forall i | 0 <= i < SampleCount(view, n) ::
               !ClearPath(world.objects, rec.hitPoint, view.samplePoint(depth, i), world.hitTest, sqrt)
    ensures LightTerm(cam, world, rec, view, params, n, depth, pow, sqrt) == Zero
    ensures LightTermAsWritten(cam, world, rec, view, params, n, depth, pow, sqrt) == Zero
  {
    var hits := AllLightHits(cam, world, rec, view, params, n, depth, pow, sqrt);
    ShadowedHits(world, rec, ToCamera(cam, rec, sqrt), view, params, SampleCount(view, n), depth, pow, sqrt, SampleCount(view, n));
    ShadowedSumsVanish(hits);
  }

  lemma {:induction false} ShadowedHits(world: World, rec: HitRecord, toCamera: Vec3, view: LightView, params: PhongParams,
                                        count: nat, depth: nat, pow: (real, real) -> real, sqrt: real -> real, k: nat)
    requires k <= count
    requires forall i | 0 <= i < count :: !ClearPath(world.objects, rec.hitPoint, view.samplePoint(depth, i), world.hitTest, sqrt)
    ensures forall j | 0 <= j < k :: LightHits(world, rec, toCamera, view, params, count, depth, pow, sqrt, k)[j].Shadowed?
    decreases k
  {
    if k > 0 {
      ShadowedHits(world, rec, toCamera, view, params, count, depth, pow, sqrt, k - 1);
    }
  }

  /** The light view of a point light. */
  function PointLightView(l: PointLights.PointLight): LightView
  {
    LightView(l.IsPointLight(), (d: nat, i: nat) => l.SamplePoint(), p => l.DiffuseIntensity(p), p => l.SpecularIntensity(p))
  }

  /**
   * A point light is sampled once, at its own position, where it gives its
   * full intensities Id and Is; the sample is lit iff that position is visible.
   */
  lemma PointLightSample(cam: Cameras.Camera, world: World, rec: HitRecord, l: PointLights.PointLight, params: PhongParams,
                         n: int, depth: nat, pow: (real, real) -> real, sqrt: real -> real)
    ensures var hits := AllLightHits(cam, world, rec, PointLightView(l), params, n, depth, pow, sqrt);
            && |hits| == 1
            && (hits[0].Lit? <==> ClearPath(world.objects, rec.hitPoint, l.point, world.hitTest, sqrt))
            && (hits[0].Lit? ==> hits[0].diffuse == l.Id.Scale(Numerics.Max(0.0, l.point.Sub(rec.hitPoint).Unit(sqrt).Dot(rec.normal))))
  {
    var view := PointLightView(l);
    PointLightSampledOnce(cam, world, rec, l, params, n, depth, pow, sqrt);
    assert view.samplePoint(depth, 0) == l.point;
    assert view.diffuse(l.point) == l.Id;
    DivOne(l.Id.Scale(Numerics.Max(0.0, l.point.Sub(rec.hitPoint).Unit(sqrt).Dot(rec.normal))));
  }

  lemma DivOne(v: Vec3)
    ensures v.Div(1.0) == v
  {
  }

  lemma PointLightSampledOnce(cam: Cameras.Camera, world: World, rec: HitRecord, l: PointLights.PointLight, params: PhongParams,
                              n: int, depth: nat, pow: (real, real) -> real, sqrt: real -> real)
    ensures AllLightHits(cam, world, rec, PointLightView(l), params, n, depth, pow, sqrt)
         == [LightHitAt(world, rec, ToCamera(cam, rec, sqrt), PointLightView(l), params, 1, depth, pow, sqrt, 0)]
  {
    assert LightHits(world, rec, ToCamera(cam, rec, sqrt), PointLightView(l), params, 1, depth, pow, sqrt, 0) == [];
  }

  /** base plus the light term of each light in turn. */
  ghost function LightsSum(base: Vec3, cam: Cameras.Camera, world: World, rec: HitRecord, lights: seq<LightRef>,
                           params: PhongParams, depth: nat, s: ShadeSampler, sqrt: real -> real): Vec3
    reads world
  {
    if |lights| == 0 then base
    else LightsSum(base, cam, world, rec, lights[..|lights| - 1], params, depth, s, sqrt)
           .Add(LightTerm(cam, world, rec, s.light(lights[|lights| - 1]), params, cam.arealightSamples, depth, s.pow, sqrt))
  }

  /**
   * The ray `ray_color` follows from a hit, with the weight of its colour.
   * A surface with gamma < 1 is transparent: with mu its relative index
   * (1 / mu through the front face, the quotient taken as 0 for mu = 0), a
   * ray that cannot refract is reflected without the nudge; otherwise the
   * draw below the reflectance reflects the unit direction and the rest
   * refracts, weighted 1 - gamma. An opaque surface reflects the unit
   * direction. The reflectance divides by 1 + mu; at mu = -1 the quotient
   * is not finite and every draw refracts, which the model writes as a
   * reflectance of 0.
   */
  function Bounce(r: Ray, rec: HitRecord, p: PhongParams, draw: real, sqrt: real -> real): (b: (Ray, real))
    ensures b.1 == p.rg || (p.gamma < 1.0 && b.1 == 1.0 - p.gamma)
    ensures 1.0 <= p.gamma ==> b.1 == p.rg
    ensures b.0.time == 0.0
  {
    var n := rec.normal;
    var reflected := MakeRay(rec.hitPoint, r.direction.Reflect(n).Unit(sqrt));
    if p.gamma < 1.0 then
      var mu := RelativeIndex(rec, p);
      if r.CanRefract(n, mu, sqrt) then
        var refl := if mu == -1.0 then 0.0 else Dielectrics.Reflectance(r.direction.Unit(sqrt).Neg().Dot(n), mu);
        if draw < refl then (reflected.NudgeForward(sqrt), p.rg)
        else (MakeRay(rec.hitPoint, Dielectrics.Refract(r.direction.Unit(sqrt), n, mu, sqrt)).NudgeForward(sqrt), 1.0 - p.gamma)
      else (reflected, p.rg)
    else (MakeRay(rec.hitPoint, r.direction.Unit(sqrt).Reflect(n).Unit(sqrt)).NudgeForward(sqrt), p.rg)
  }

  /** The relative index at a transparent surface. */
  function RelativeIndex(rec: HitRecord, p: PhongParams): real
  {
    if rec.frontFace then Numerics.Quotient(1.0, p.mu) else p.mu
  }

  /** For a non-zero index the camera's relative index is the dielectric's. */
  lemma RelativeIndexAgrees(rec: HitRecord, p: PhongParams)
    requires p.mu != 0.0
    ensures RelativeIndex(rec, p) == Dielectrics.RelativeIndex(rec.frontFace, p.mu)
    ensures 0.0 < p.mu ==> 0.0 < RelativeIndex(rec, p)
  {
    if 0.0 < p.mu {
      Dielectrics.RelativeIndexPositive(rec.frontFace, p.mu);
    }
  }

  /**
   * At a transparent surface that can refract, a draw below r0 always
   * reflects, because Schlick's reflectance never falls below r0: the ray
   * leaves along the nudged mirror direction with weight rg.
   */
  lemma BounceBelowR0Reflects(r: Ray, rec: HitRecord, p: PhongParams, draw: real, sqrt: real -> real)
    requires p.gamma < 1.0 && 0.0 < RelativeIndex(rec, p)
    requires r.CanRefract(rec.normal, RelativeIndex(rec, p), sqrt)
    requires 0.0 <= r.direction.Unit(sqrt).Neg().Dot(rec.normal) <= 1.0
    requires draw < Dielectrics.R0(RelativeIndex(rec, p))
    ensures Bounce(r, rec, p, draw, sqrt) == (MakeRay(rec.hitPoint, r.direction.Reflect(rec.normal).Unit(sqrt)).NudgeForward(sqrt), p.rg)
  {
    Dielectrics.ReflectanceRange(r.direction.Unit(sqrt).Neg().Dot(rec.normal), RelativeIndex(rec, p));
  }

  /** A ray that cannot refract at a transparent surface is reflected without the nudge, with weight rg. */
  lemma BounceTotalReflection(r: Ray, rec: HitRecord, p: PhongParams, draw: real, sqrt: real -> real)
    requires p.gamma < 1.0 && !r.CanRefract(rec.normal, RelativeIndex(rec, p), sqrt)
    ensures Bounce(r, rec, p, draw, sqrt).0.origin == rec.hitPoint
    ensures Bounce(r, rec, p, draw, sqrt).1 == p.rg
  {
  }

  /**
   * The colour `ray_color(r, world, depth)` computes: the clamped
   * background on a miss; at depth 0 the surface's texture colour; else
   * the ambient colour plus the light of every light, times gamma, plus the
   * weighted colour of the bounced ray one level down, clamped to [0, 1].
   */
  ghost function Shade(cam: Cameras.Camera, world: World, r: Ray, depth: nat, s: ShadeSampler, sqrt: real -> real): Vec3
    reads world
    decreases depth, 1
  {
    var closest := world.Closest(r);
    if !closest.0 then cam.background(r.direction).Clamp(0.0, 1.0)
    else if depth == 0 then s.surfaceColor(closest.1)
    else ShadeHit(cam, world, r, closest.1, depth, s, sqrt)
  }

  /** The colour at a hit with record rec when depth > 0. */
  ghost function ShadeHit(cam: Cameras.Camera, world: World, r: Ray, rec: HitRecord, depth: nat, s: ShadeSampler, sqrt: real -> real): Vec3
    requires 0 < depth
    reads world
    decreases depth, 0
  {
    var p := s.phong(r, rec);
    var local := LightsSum(Cameras.One.Scale(p.ra).MulComponents(p.color), cam, world, rec, world.lights, p, depth, s, sqrt).Scale(p.gamma);
    var b := Bounce(r, rec, p, s.draw(depth), sqrt);
    local.Add(Shade(cam, world, b.0, depth - 1, s, sqrt).Scale(b.1)).Clamp(0.0, 1.0)
  }

  /** The ambient colour plus `sample_light_rays` for every light of the scene, in order. */
  method LocalLight(cam: Cameras.Camera, world: World, rec: HitRecord, params: PhongParams, depth: nat, s: ShadeSampler, sqrt: real -> real)
    returns (color: Vec3)
    ensures color == LightsSum(Cameras.One.Scale(params.ra).MulComponents(params.color), cam, world, rec, world.lights, params, depth, s, sqrt)
  {
    var base := Cameras.One.Scale(params.ra).MulComponents(params.color);
    color := base;
    var lights := world.lights;
    for l := 0 to |lights|
      invariant color == LightsSum(base, cam, world, rec, lights[..l], params, depth, s, sqrt)
    {
      var c := SampleLightRays(cam, world, rec, s.light(lights[l]), params, cam.arealightSamples, depth, s.pow, sqrt);
      assert lights[..l + 1][..l] == lights[..l];
      color := color.Add(c);
    }
    assert lights[..|lights|] == lights;
  }

  /**
   * `ray_color(r, world, depth)`: the closest hit, the ambient colour plus
   * `sample_light_rays` for every light in turn, scaled by gamma, plus the
   * colour of the bounced ray one level down, clamped.
   */
  method RayColor(cam: Cameras.Camera, world: World, r: Ray, depth: nat, s: ShadeSampler, sqrt: real -> real)
    returns (color: Vec3)
    ensures color == Shade(cam, world, r, depth, s, sqrt)
    decreases depth, 1
  {
    var hit, record := world.Hit(r, NewRecord());
    assert (hit, record) == world.Closest(r);
    if !hit {
      return cam.background(r.direction).Clamp(0.0, 1.0);
    }
    if depth == 0 {
      return s.surfaceColor(record);
    }
    color := HitColor(cam, world, r, record, depth, s, sqrt);
  }

  /** The hit case of `ray_color` at depth > 0. */
  method HitColor(cam: Cameras.Camera, world: World, r: Ray, rec: HitRecord, depth: nat, s: ShadeSampler, sqrt: real -> real)
    returns (color: Vec3)
    requires 0 < depth
    ensures color == ShadeHit(cam, world, r, rec, depth, s, sqrt)
    decreases depth, 0
  {
    var params := s.phong(r, rec);
    color := LocalLight(cam, world, rec, params, depth, s, sqrt);
    color := color.Scale(params.gamma);
    var b := Bounce(r, rec, params, s.draw(depth), sqrt);
    var bounced := RayColor(cam, world, b.0, depth - 1, s, sqrt);
    color := color.Add(bounced.Scale(b.1)).Clamp(0.0, 1.0);
  }

  /** Every colour `ray_color` returns lies in [0, 1], except the unclamped texture colour at depth 0. */
  lemma ShadeInUnitBox(cam: Cameras.Camera, world: World, r: Ray, depth: nat, s: ShadeSampler, sqrt: real -> real)
    requires !world.Closest(r).0 || 0 < depth
    ensures Shade(cam, world, r, depth, s, sqrt).InBox(0.0, 1.0)
  {
  }

  /**
   * A surface whose bounced ray has weight 0 shows only its local light:
   * the ambient colour plus the light of every light, times gamma, clamped.
   */
  lemma ShadeWithoutBounce(cam: Cameras.Camera, world: World, r: Ray, depth: nat, s: ShadeSampler, sqrt: real -> real)
    requires world.Closest(r).0 && 0 < depth
    requires Bounce(r, world.Closest(r).1, s.phong(r, world.Closest(r).1), s.draw(depth), sqrt).1 == 0.0
    ensures var rec := world.Closest(r).1;
            var p := s.phong(r, rec);
            Shade(cam, world, r, depth, s, sqrt)
            == LightsSum(Cameras.One.Scale(p.ra).MulComponents(p.color), cam, world, rec, world.lights, p, depth, s, sqrt).Scale(p.gamma).Clamp(0.0, 1.0)
  {
    var rec := world.Closest(r).1;
    var b := Bounce(r, rec, s.phong(r, rec), s.draw(depth), sqrt);
    ScaleByZero(Shade(cam, world, b.0, depth - 1, s, sqrt));
  }

  lemma ScaleByZero(v: Vec3)
    ensures v.Scale(0.0) == Zero
  {
  }

  /** An opaque surface (gamma >= 1) without a mirror term (rg = 0) shows only its local light. */
  lemma OpaqueMatteHasNoBounce(r: Ray, rec: HitRecord, p: PhongParams, draw: real, sqrt: real -> real)
    requires 1.0 <= p.gamma && p.rg == 0.0
    ensures Bounce(r, rec, p, draw, sqrt).1 == 0.0
  {
  }
}
