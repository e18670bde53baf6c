/**
 * The path tracer of src/world/camera.cpp: the camera's primary rays, the
 * explicit light sample of `sample_light`, and `single_path_color`, which
 * follows one path for at most depth bounces and weights each bounce's
 * radiance by the product of the throughputs before it.
 *
 * What the materials and objects compute by dynamic dispatch, and what the
 * source draws at random, come in through a `PathSampler`: at bounce i the
 * tracer uses the i-th scatter sample, light choice and light point.
 */
module Cameras {
  import opened Wrappers
  import opened Vectors
  import opened Rays
  import opened HitRecords
  import opened Worlds
  import Materials
  import Numerics

  const One: Vec3 := Vec3(1.0, 1.0, 1.0)

  /**
   * The settings and viewport geometry `initialize` leaves in the camera.
   * `background` is `background_texture->read_texture_uv` as a function of
   * a ray's direction (the spherical mapping in between is not modelled).
   */
  datatype Camera = Camera(
    imageWidth: nat, imageHeight: nat, samplesPerPixel: nat, maxDepth: nat,
    usePathTracer: bool, useSceneSig: bool, useLightSampling: bool, arealightSamples: int,
    center: Vec3, pixel00: Vec3, pixelDu: Vec3, pixelDv: Vec3,
    defocusAngle: real, defocusDiskU: Vec3, defocusDiskV: Vec3,
    background: Vec3 -> Vec3)

  /** The viewport point at pixel coordinates (du, dv). */
  function PixelPoint(cam: Camera, du: real, dv: real): Vec3
  {
    cam.pixel00.Add(cam.pixelDu.Scale(du)).Add(cam.pixelDv.Scale(dv))
  }

  /** `defocus_disk_sample()` for the drawn point p of the unit disk. */
  function DefocusDiskSample(cam: Camera, p: Vec3): (d: Vec3)
    ensures p.x == 0.0 && p.y == 0.0 ==> d == cam.center
  {
    cam.center.Add(cam.defocusDiskU.Scale(p.x)).Add(cam.defocusDiskV.Scale(p.y))
  }

  /** The ray from the lens towards the viewport point (du, dv), at the given time. */
  function LensRay(cam: Camera, du: real, dv: real, disk: Vec3, time: real): (r: Ray)
    ensures cam.defocusAngle <= 0.0 ==> r.origin == cam.center
    ensures 0.0 < cam.defocusAngle ==> r.origin == DefocusDiskSample(cam, disk)
    ensures r.At(1.0) == PixelPoint(cam, du, dv)
    ensures r.time == time
  {
    var origin := if cam.defocusAngle <= 0.0 then cam.center else DefocusDiskSample(cam, disk);
    var r := Ray(origin, PixelPoint(cam, du, dv).Sub(origin), time);
    assert r.direction.Scale(1.0) == r.direction;
    r
  }

  /**
   * `ray(du, dv)`: the parameters are `int`, so the camera aims at the
   * centre of a whole pixel.
   */
  function PixelRay(cam: Camera, du: int, dv: int, disk: Vec3, time: real): (r: Ray)
    ensures r.At(1.0) == PixelPoint(cam, du as real, dv as real)
  {
    LensRay(cam, du as real, dv as real, disk, time)
  }

  /**
   * The column (or row) `sample_pixel` passes to `ray` for pixel i and a
   * jitter drawn from [-0.5, 0.5]: i + jitter is converted to `int`.
   */
  function SampleOffsetAsWritten(i: nat, jitter: real): int
  {
    Numerics.Trunc(i as real + jitter)
  }

  /**
   * The conversion throws the jitter away: a sample of pixel i > 0 aims at
   * the centre of pixel i - 1 whenever the jitter is negative and at the
   * centre of pixel i otherwise, so no sample ever lands between centres.
   */
  lemma SampleOffsetAsWrittenIsWhole(i: nat, jitter: real)
    requires -0.5 <= jitter <= 0.5
    ensures 0 < i && jitter < 0.0 ==> SampleOffsetAsWritten(i, jitter) == i - 1
    ensures i == 0 || 0.0 <= jitter ==> SampleOffsetAsWritten(i, jitter) == i
  {
  }

  /** Pixel 3 with jitter -0.25 is sampled at the centre of pixel 2. */
  lemma SampleOffsetAsWrittenExample()
    ensures SampleOffsetAsWritten(3, -0.25) == 2
  {
  }

  /**
   * The jittered primary ray: it passes through the viewport point within
   * half a pixel of the centre of pixel (i, j).
   */
  function JitteredRay(cam: Camera, i: nat, j: nat, jx: real, jy: real, disk: Vec3, time: real): (r: Ray)
    requires -0.5 <= jx <= 0.5 && -0.5 <= jy <= 0.5
    ensures exists du: real, dv: real :: (&& i as real - 0.5 <= du <= i as real + 0.5
                                          && j as real - 0.5 <= dv <= j as real + 0.5
                                          && r.At(1.0) == PixelPoint(cam, du, dv))
  {
    LensRay(cam, i as real + jx, j as real + jy, disk, time)
  }

  /** What the material's `scatter` returns for one bounce. */
  datatype ScatterSample = ScatterSample(direction: Vec3, brdf: Vec3, pdf: real)

  /**
   * The dispatched and random parts of a path: the material's `scatter`
   * at bounce i, the `rand()` of `random_light` and the light's
   * `sample_point()` at bounce i, the light's `area()` and `normal(p)`,
   * and the surface material's `color(record)`.
   */
  datatype PathSampler = PathSampler(
    scatter: (Ray, HitRecord, nat) -> ScatterSample,
    lightDraw: nat -> nat,
    lightPoint: (ObjRef, nat) -> Vec3,
    lightArea: ObjRef -> real,
    lightNormal: (ObjRef, Vec3) -> Vec3,
    surfaceColor: HitRecord -> Vec3)

  /** The material a record points to, if any. */
  function MaterialOf(rec: HitRecord): set<Materials.Material>
  {
    if rec.obj.Some? then {rec.obj.value.material} else {}
  }

  /** The materials of the registered emissives. */
  function EmissiveMaterials(world: World): set<Materials.Material>
    reads world
  {
    set e | e in world.emissives :: e.material
  }

  /** The material is a `Lambertian` (a record without an object has no material). */
  predicate IsLambertian(rec: HitRecord)
  {
    rec.obj.Some? && rec.obj.value.material.kind.Lambertian?
  }

  /** The emission of the material hit, zero without an object. */
  function EmissionOf(rec: HitRecord): Vec3
    reads MaterialOf(rec)
  {
    if rec.obj.Some? then rec.obj.value.material.Emission() else Zero
  }

  predicate EmissiveAt(rec: HitRecord)
    reads MaterialOf(rec)
  {
    rec.obj.Some? && rec.obj.value.material.IsEmissive()
  }

  /**
   * The light's contribution `sample_light` returns once the path to the
   * light point is clear: emission times max(0, ray_prob (l . n)) times the
   * surface colour, where ray_prob is the light's projected area over the
   * squared distance, over 2 pi. At distance 0 the quotient is taken as 0.
   */
  function LightContribution(light: ObjRef, point: Vec3, rec: HitRecord, s: PathSampler, sqrt: real -> real): (c: Vec3)
    reads light.material
    ensures light.material.Emission() == Zero ==> c == Zero
  {
    var toLight := point.Sub(rec.hitPoint);
    var dist := toLight.Length(sqrt);
    var projected := Numerics.Mul(-toLight.Unit(sqrt).Dot(s.lightNormal(light, point).Unit(sqrt)), s.lightArea(light));
    var rayProb := Numerics.Quotient(projected, Numerics.Mul(dist, dist)) / (2.0 * Numerics.PI);
    var weight := Numerics.Max(0.0, Numerics.Mul(rayProb, toLight.Unit(sqrt).Dot(rec.normal)));
    ZeroScaled(light.material.Emission(), weight, s.surfaceColor(rec));
    light.material.Emission().Scale(weight).MulComponents(s.surfaceColor(rec))
  }

  /** The zero vector stays zero under scaling and the componentwise product. */
  lemma ZeroScaled(e: Vec3, k: real, color: Vec3)
    ensures e == Zero ==> e.Scale(k).MulComponents(color) == Zero
  {
  }


  /**
   * The outcome of `sample_light` at bounce i: the contribution and the
   * light it was taken from, which is set only when the path is clear.
   */
  ghost function LightSample(world: World, rec: HitRecord, s: PathSampler, i: nat, sqrt: real -> real): (Vec3, Option<ObjRef>)
    reads world, EmissiveMaterials(world)
  {
    if !IsLambertian(rec) then (Zero, None)
    else
      var light := world.RandomLight(s.lightDraw(i));
      if light.None? then (Zero, None)
      else
        var p := s.lightPoint(light.value, i);
        if !ClearPath(world.objects, rec.hitPoint, p, world.hitTest, sqrt) then (Zero, None)
        else (LightContribution(light.value, p, rec, s, sqrt), Some(light.value))
  }

  /**
   * `sample_light(world, record, hit_light)`: zero for a non-Lambertian
   * surface, for a scene without emissives and for a blocked light point;
   * `hit_light` is set exactly when the path to the light point is clear,
   * and in particular whenever the sample is non-zero.
   */
  method SampleLight(world: World, rec: HitRecord, s: PathSampler, i: nat, sqrt: real -> real)
    returns (c: Vec3, hitLight: Option<ObjRef>)
    ensures (c, hitLight) == LightSample(world, rec, s, i, sqrt)
    ensures !IsLambertian(rec) || |world.emissives| == 0 ==> c == Zero && hitLight.None?
    ensures hitLight.Some? <==> (&& IsLambertian(rec) && |world.emissives| > 0
                                 && ClearPath(world.objects, rec.hitPoint, s.lightPoint(world.emissives[s.lightDraw(i) % |world.emissives|], i), world.hitTest, sqrt))
    ensures hitLight.Some? ==> hitLight.value in world.emissives
    ensures c != Zero ==> hitLight.Some?
  {
    if !IsLambertian(rec) {
      return Zero, None;
    }
    var light := world.RandomLight(s.lightDraw(i));
    if light.None? {
      return Zero, None;
    }
    var p := s.lightPoint(light.value, i);
    var clear := world.HasPath(rec.hitPoint, p, sqrt);
    if !clear {
      return Zero, None;
    }
    hitLight := light;
    c := LightContribution(light.value, p, rec, s, sqrt);
  }

  /** Π_{k<i} throughput[k] componentwise; the empty product is (1, 1, 1). */
  function PrefixProduct(throughput: seq<Vec3>, i: nat): Vec3
    requires i <= |throughput|
    decreases i
  {
    if i == 0 then One else PrefixProduct(throughput, i - 1).MulComponents(throughput[i - 1])
  }

  /** Σ_{i<n} radiances[i] · Π_{k<i} throughput[k]. */
  function WeightedSum(radiances: seq<Vec3>, throughput: seq<Vec3>, n: nat): Vec3
    requires n <= |radiances| && n <= |throughput|
    decreases n
  {
    if n == 0 then Zero
    else WeightedSum(radiances, throughput, n - 1).Add(radiances[n - 1].MulComponents(PrefixProduct(throughput, n - 1)))
  }

  /** The radiance a path carries to the camera. */
  function PathRadiance(radiances: seq<Vec3>, throughput: seq<Vec3>): Vec3
    requires |radiances| <= |throughput|
  {
    WeightedSum(radiances, throughput, |radiances|)
  }

  lemma MulOne(a: Vec3)
    ensures a.MulComponents(One) == a && One.MulComponents(a) == a
  {
  }

  lemma MulZero(a: Vec3)
    ensures a.MulComponents(Zero) == Zero && Zero.Add(a) == a && a.Add(Zero) == a
  {
  }

  lemma MulAssocComm(a: Vec3, b: Vec3, c: Vec3)
    ensures a.MulComponents(b).MulComponents(c) == a.MulComponents(b.MulComponents(c))
    ensures a.MulComponents(b.MulComponents(c)) == b.MulComponents(a.MulComponents(c))
    ensures a.MulComponents(b) == b.MulComponents(a)
  {
  }

  lemma MulAddDistrib(a: Vec3, b: Vec3, c: Vec3)
    ensures a.MulComponents(b.Add(c)) == a.MulComponents(b).Add(a.MulComponents(c))
  {
  }

  /** Peeling off the first factor of a prefix product. */
  lemma {:induction false} PrefixProductShift(throughput: seq<Vec3>, k: nat)
    requires k + 1 <= |throughput|
    ensures PrefixProduct(throughput, k + 1) == throughput[0].MulComponents(PrefixProduct(throughput[1..], k))
    decreases k
  {
    if k == 0 {
      MulOne(throughput[0]);
    } else {
      PrefixProductShift(throughput, k - 1);
      assert throughput[1..][k - 1] == throughput[k];
      MulAssocComm(throughput[0], PrefixProduct(throughput[1..], k - 1), throughput[k]);
    }
  }

  lemma {:induction false} WeightedSumShift(radiances: seq<Vec3>, throughput: seq<Vec3>, n: nat)
    requires 1 <= n <= |radiances| && |radiances| <= |throughput|
    ensures WeightedSum(radiances, throughput, n)
         == radiances[0].Add(throughput[0].MulComponents(WeightedSum(radiances[1..], throughput[1..], n - 1)))
    decreases n
  {
    var t0 := throughput[0];
    if n == 1 {
      MulOne(radiances[0]);
      MulZero(t0);
      MulZero(radiances[0]);
    } else {
      WeightedSumShift(radiances, throughput, n - 1);
      var rest := WeightedSum(radiances[1..], throughput[1..], n - 2);
      var pp := PrefixProduct(throughput[1..], n - 2);
      var rn := radiances[n - 1];
      assert radiances[1..][n - 2] == rn;
      PrefixProductShift(throughput, n - 2);
      assert WeightedSum(radiances[1..], throughput[1..], n - 1) == rest.Add(rn.MulComponents(pp));
      MulAssocComm(rn, t0, pp);
      MulAddDistrib(t0, rest, rn.MulComponents(pp));
    }
  }

  /**
   * The accumulated radiance obeys the recursive form of the rendering
   * estimate: what the first bounce emits plus its throughput times what
   * the rest of the path carries.
   */
  lemma PathRadianceRecursive(radiances: seq<Vec3>, throughput: seq<Vec3>)
    requires 0 < |radiances| <= |throughput|
    ensures PathRadiance(radiances, throughput)
         == radiances[0].Add(throughput[0].MulComponents(PathRadiance(radiances[1..], throughput[1..])))
  {
    WeightedSumShift(radiances, throughput, |radiances|);
  }

  lemma PathRadianceEmpty(throughput: seq<Vec3>)
    ensures PathRadiance([], throughput) == Zero
  {
  }

  /**
   * The two loops that end `single_path_color`: the partial products
   * (starting from (1, 1, 1)), then the sum of each radiance times the
   * product of the throughputs before it.
   */
  method AccumulateRadiance(radiances: seq<Vec3>, throughput: seq<Vec3>) returns (total: Vec3)
    requires |radiances| <= |throughput|
    ensures total == PathRadiance(radiances, throughput)
  {
    var partial := [One];
    var product := One;
    for j := 0 to |radiances|
      invariant |partial| == j + 1 && product == PrefixProduct(throughput, j)
      invariant forall k :: 0 <= k <= j ==> partial[k] == PrefixProduct(throughput, k)
    {
      product := product.MulComponents(throughput[j]);
      partial := partial + [product];
    }
    total := Zero;
    for i := 0 to |radiances|
      invariant total == WeightedSum(radiances, throughput, i)
    {
      total := total.Add(radiances[i].MulComponents(partial[i]));
    }
  }

  /** One bounce of a traced path: the ray missed, or it hit with this record. */
  datatype Step = Missed(ray: Ray) | Bounced(ray: Ray, record: HitRecord)

  function StepMaterials(step: Step): set<Materials.Material>
  {
    if step.Bounced? then MaterialOf(step.record) else {}
  }

  /** A path ends at a bounce that missed or hit an emissive material. */
  predicate Ends(step: Step)
    reads StepMaterials(step)
  {
    step.Missed? || EmissiveAt(step.record)
  }

  /** The next ray: from the hit point along the scattered direction, nudged forward. */
  function NextRay(rec: HitRecord, sc: ScatterSample, sqrt: real -> real): (r: Ray)
    ensures r.direction == sc.direction && r.time == 0.0
  {
    MakeRay(rec.hitPoint, sc.direction).NudgeForward(sqrt)
  }

  /** brdf · cos / pdf with cos = unit(scatter direction) . unit(normal); the quotient is 0 for a zero pdf. */
  function Throughput(rec: HitRecord, sc: ScatterSample, sqrt: real -> real): (w: Vec3)
    ensures sc.brdf == Zero || sc.pdf == 0.0 ==> w == Zero
  {
    var w := sc.brdf.Scale(sc.direction.Unit(sqrt).Dot(rec.normal.Unit(sqrt)));
    assert sc.brdf == Zero ==> w == Zero;
    Vec3(Numerics.Quotient(w.x, sc.pdf), Numerics.Quotient(w.y, sc.pdf), Numerics.Quotient(w.z, sc.pdf))
  }

  /**
   * The light sample of a bounce is added only when light sampling is on,
   * the sample is non-zero, and the next ray misses or hits an object
   * other than the sampled light (which would otherwise be counted twice).
   */
  predicate AddsLightSample(useLightSampling: bool, ls: (Vec3, Option<ObjRef>), nextClosest: (bool, HitRecord))
  {
    useLightSampling && ls.0 != Zero && (!nextClosest.0 || nextClosest.1.obj != ls.1)
  }

  /** The radiance recorded for a hit: the emission, plus the light sample when it is added. */
  function BounceRadiance(useLightSampling: bool, emission: Vec3, ls: (Vec3, Option<ObjRef>), nextClosest: (bool, HitRecord)): Vec3
  {
    if AddsLightSample(useLightSampling, ls, nextClosest) then emission.Add(ls.0) else emission
  }

  /** What bounce k records in the two lists. */
  ghost predicate StepRecorded(cam: Camera, world: World, s: PathSampler, sqrt: real -> real, k: nat,
                               step: Step, radiance: Vec3, throughput: Vec3)
    reads world, EmissiveMaterials(world), StepMaterials(step)
  {
    match step
    case Missed(ray) =>
      !world.Closest(ray).0 && radiance == cam.background(ray.direction) && throughput == Zero
    case Bounced(ray, rec) =>
      var sc := s.scatter(ray, rec, k);
      && world.Closest(ray) == (true, rec)
      && throughput == Throughput(rec, sc, sqrt)
      && radiance == BounceRadiance(cam.useLightSampling, EmissionOf(rec), LightSample(world, rec, s, k, sqrt),
                                    world.Closest(NextRay(rec, sc, sqrt)))
  }

  /** Bounce k hit a non-emissive surface and bounce k + 1 follows its scattered ray. */
  ghost predicate Continued(s: PathSampler, sqrt: real -> real, steps: seq<Step>, k: nat)
    requires k + 1 < |steps|
    reads StepMaterials(steps[k])
  {
    && steps[k].Bounced? && !Ends(steps[k])
    && steps[k + 1].ray == NextRay(steps[k].record, s.scatter(steps[k].ray, steps[k].record, k), sqrt)
  }

  /**
   * The radiance of a hit in the loop of `single_path_color`: the emission,
   * and with light sampling on the light sample, unless it is zero or the
   * next ray hits the light it was taken from.
   */
  method HitRadiance(cam: Camera, world: World, rec: HitRecord, next: Ray, k: nat, s: PathSampler, sqrt: real -> real)
    returns (radiance: Vec3)
    ensures radiance == BounceRadiance(cam.useLightSampling, EmissionOf(rec), LightSample(world, rec, s, k, sqrt), world.Closest(next))
  {
    radiance := EmissionOf(rec);
    if cam.useLightSampling {
      var lightSample, light := SampleLight(world, rec, s, k, sqrt);
      if lightSample != Zero {
        var nextHit, nextRecord := world.Hit(next, NewRecord());
        ghost var nextClosest := world.Closest(next);
        assert (nextHit, nextRecord) == nextClosest;
        assert LightSample(world, rec, s, k, sqrt) == (lightSample, light);
        if !nextHit {
          radiance := radiance.Add(lightSample);
        } else if nextRecord.obj != light {
          radiance := radiance.Add(lightSample);
        }
        assert radiance == BounceRadiance(true, EmissionOf(rec), (lightSample, light), nextClosest);
      } else {
        assert LightSample(world, rec, s, k, sqrt).0 == Zero;
      }
    }
  }

  /**
   * One pass of the loop of `single_path_color` for bounce k: the world
   * query, and on a hit the scatter sample, the next ray and the radiance.
   * The loop stops after a miss or an emissive hit.
   */
  method TraceBounce(cam: Camera, world: World, ray: Ray, k: nat, s: PathSampler, sqrt: real -> real)
    returns (step: Step, radiance: Vec3, throughput: Vec3, next: Ray, stop: bool)
    ensures step.ray == ray
    ensures StepRecorded(cam, world, s, sqrt, k, step, radiance, throughput)
    ensures stop <==> Ends(step)
    ensures step.Bounced? ==> next == NextRay(step.record, s.scatter(ray, step.record, k), sqrt)
  {
    var hit, record := world.Hit(ray, NewRecord());
    assert (hit, record) == world.Closest(ray);
    if !hit {
      return Missed(ray), cam.background(ray.direction), Zero, ray, true;
    }
    var sc := s.scatter(ray, record, k);
    throughput := Throughput(record, sc, sqrt);
    next := NextRay(record, sc, sqrt);
    radiance := HitRadiance(cam, world, record, next, k, s, sqrt);
    step := Bounced(ray, record);
    stop := EmissiveAt(record);
  }

  /**
   * Every bounce k of the lists records what `StepRecorded` says. The
   * recorded hits may point at any material, so the path predicates read
   * the whole heap.
   */
  ghost predicate Recorded(cam: Camera, world: World, s: PathSampler, sqrt: real -> real,
                           steps: seq<Step>, radiances: seq<Vec3>, throughput: seq<Vec3>)
    reads *
  {
    && |steps| == |radiances| == |throughput|
    && forall k | 0 <= k < |steps| :: StepRecorded(cam, world, s, sqrt, k, steps[k], radiances[k], throughput[k])
  }

  /** Every bounce but the last continues into the next. */
  ghost predicate Chained(s: PathSampler, sqrt: real -> real, steps: seq<Step>)
    reads *
  {
    forall k | 0 <= k < |steps| - 1 :: Continued(s, sqrt, steps, k)
  }

  lemma RecordedExtend(cam: Camera, world: World, s: PathSampler, sqrt: real -> real,
                       steps: seq<Step>, radiances: seq<Vec3>, throughput: seq<Vec3>,
                       step: Step, radiance: Vec3, tp: Vec3)
    requires Recorded(cam, world, s, sqrt, steps, radiances, throughput)
    requires StepRecorded(cam, world, s, sqrt, |steps|, step, radiance, tp)
    ensures Recorded(cam, world, s, sqrt, steps + [step], radiances + [radiance], throughput + [tp])
  {
    var steps', rads', tps' := steps + [step], radiances + [radiance], throughput + [tp];
    forall k | 0 <= k < |steps'|
      ensures StepRecorded(cam, world, s, sqrt, k, steps'[k], rads'[k], tps'[k])
    {
      if k < |steps| {
        assert steps'[k] == steps[k] && rads'[k] == radiances[k] && tps'[k] == throughput[k];
      }
    }
  }

  /** The path is open: its last bounce hit a non-emissive surface and ray is the scattered ray from there. */
  ghost predicate Open(s: PathSampler, sqrt: real -> real, steps: seq<Step>, ray: Ray)
    reads *
  {
    0 < |steps| ==> (&& steps[|steps| - 1].Bounced? && !Ends(steps[|steps| - 1])
                     && ray == NextRay(steps[|steps| - 1].record, s.scatter(steps[|steps| - 1].ray, steps[|steps| - 1].record, |steps| - 1), sqrt))
  }

  lemma ChainedExtend(s: PathSampler, sqrt: real -> real, steps: seq<Step>, step: Step)
    requires Chained(s, sqrt, steps)
    requires Open(s, sqrt, steps, step.ray)
    ensures Chained(s, sqrt, steps + [step])
  {
    var steps' := steps + [step];
    forall k | 0 <= k < |steps'| - 1
      ensures Continued(s, sqrt, steps', k)
    {
      assert steps'[k] == steps[k];
      if k + 1 < |steps| {
        assert steps'[k + 1] == steps[k + 1];
        assert Continued(s, sqrt, steps, k);
      }
    }
  }

  /** One more bounce keeps the lists recorded and chained, and leaves the path open unless the bounce ends it. */
  lemma BounceExtends(cam: Camera, world: World, s: PathSampler, sqrt: real -> real,
                      steps: seq<Step>, radiances: seq<Vec3>, throughput: seq<Vec3>, ray: Ray,
                      step: Step, radiance: Vec3, tp: Vec3, next: Ray)
    requires Recorded(cam, world, s, sqrt, steps, radiances, throughput)
    requires Chained(s, sqrt, steps) && Open(s, sqrt, steps, ray)
    requires step.ray == ray && StepRecorded(cam, world, s, sqrt, |steps|, step, radiance, tp)
    requires step.Bounced? ==> next == NextRay(step.record, s.scatter(ray, step.record, |steps|), sqrt)
    ensures Recorded(cam, world, s, sqrt, steps + [step], radiances + [radiance], throughput + [tp])
    ensures Chained(s, sqrt, steps + [step])
    ensures !Ends(step) ==> Open(s, sqrt, steps + [step], next)
  {
    RecordedExtend(cam, world, s, sqrt, steps, radiances, throughput, step, radiance, tp);
    ChainedExtend(s, sqrt, steps, step);
  }

  /**
   * `single_path_color(starting_ray, world, depth)`. The path makes at most
   * depth bounces (at least one when depth > 0), recording a radiance and
   * a throughput for each; a miss records the background with zero
   * throughput and ends the path, and so does a hit on an emissive
   * material; every other bounce continues along its scattered ray. The
   * colour is the accumulated radiance of the recorded lists.
   */
  method SinglePathColor(cam: Camera, start: Ray, world: World, depth: int, s: PathSampler, sqrt: real -> real)
    returns (color: Vec3, ghost steps: seq<Step>, ghost radiances: seq<Vec3>, ghost throughput: seq<Vec3>)
    ensures |steps| == |radiances| == |throughput|
    ensures |steps| <= (if depth < 0 then 0 else depth)
    ensures 0 < depth ==> 0 < |steps|
    ensures color == PathRadiance(radiances, throughput)
    ensures 0 < |steps| ==> steps[0].ray == start
    ensures Recorded(cam, world, s, sqrt, steps, radiances, throughput)
    ensures Chained(s, sqrt, steps)
    ensures 0 < |steps| < depth ==> Ends(steps[|steps| - 1])
  {
    var rads: seq<Vec3> := [];
    var tps: seq<Vec3> := [];
    steps := [];
    var ray := start;
    var i := 0;
    while i < depth
      invariant 0 <= i <= (if depth < 0 then 0 else depth)
      invariant |steps| == |rads| == |tps| == i
      invariant i == 0 ==> ray == start
      invariant 0 < i ==> steps[0].ray == start
      invariant Recorded(cam, world, s, sqrt, steps, rads, tps)
      invariant Chained(s, sqrt, steps)
      invariant Open(s, sqrt, steps, ray)
    {
      var step, radiance, tp, next, stop := TraceBounce(cam, world, ray, i, s, sqrt);
      BounceExtends(cam, world, s, sqrt, steps, rads, tps, ray, step, radiance, tp, next);
      steps := steps + [step];
      rads := rads + [radiance];
      tps := tps + [tp];
      ray := next;
      i := i + 1;
      if stop {
        break;
      }
    }
    radiances, throughput := rads, tps;
    color := AccumulateRadiance(rads, tps);
  }
}
