/**
 * One pixel of src/world/camera.cpp: `scene_signature_color`, which shows
 * the surface normal as a colour, and `sample_pixel`, which averages
 * samples_per_pixel jittered samples taken with the path tracer, the
 * signature colour or the Phong shader, as the camera's flags choose.
 */
module Pixels {
  import opened Vectors
  import opened Rays
  import opened HitRecords
  import opened Worlds
  import opened Cameras
  import Shading
  import Numerics

  /**
   * `scene_signature_color` for the closest hit of the ray: black on a
   * miss, otherwise the unit normal moved from [-1, 1] to [0, 1].
   */
  function Signature(closest: (bool, HitRecord), sqrt: real -> real): Vec3
  {
    if !closest.0 then Zero else closest.1.normal.Unit(sqrt).Add(One).Div(2.0)
  }

  /** The signature colour of a hit gives its unit normal back. */
  lemma SignatureDecodes(closest: (bool, HitRecord), sqrt: real -> real)
    requires closest.0
    ensures Signature(closest, sqrt).Scale(2.0).Sub(One) == closest.1.normal.Unit(sqrt)
  {
  }

  /** A component of a vector of length at most one lies in [-1, 1]. */
  lemma ComponentOfShort(a: real, rest: real)
    requires 0.0 <= rest && Numerics.Sq(a) + rest <= 1.0
    ensures -1.0 <= a <= 1.0
  {
    if 1.0 < a {
      Numerics.SquareBelow(1.0, a);
    } else if a < -1.0 {
      assert Numerics.Sq(-a) == Numerics.Sq(a);
      Numerics.SquareBelow(1.0, -a);
    }
  }

  /** Every signature colour is a valid colour. */
  lemma SignatureInUnitBox(closest: (bool, HitRecord), sqrt: real -> real)
    requires Numerics.IsSqrt(sqrt)
    ensures Signature(closest, sqrt).InBox(0.0, 1.0)
  {
    if closest.0 {
      var u := closest.1.normal.Unit(sqrt);
      UnitAtMostOne(closest.1.normal, sqrt);
      Numerics.SquarePos(u.x);
      Numerics.SquarePos(u.y);
      Numerics.SquarePos(u.z);
      ComponentOfShort(u.x, Numerics.Sq(u.y) + Numerics.Sq(u.z));
      ComponentOfShort(u.y, Numerics.Sq(u.x) + Numerics.Sq(u.z));
      ComponentOfShort(u.z, Numerics.Sq(u.x) + Numerics.Sq(u.y));
    }
  }

  /** `scene_signature_color(starting_ray, world)`. */
  method SceneSignatureColor(world: World, r: Ray, sqrt: real -> real) returns (c: Vec3)
    ensures c == Signature(world.Closest(r), sqrt)
  {
    var hit, record := world.Hit(r, NewRecord());
    assert (hit, record) == world.Closest(r);
    if !hit {
      return Zero;
    }
    c := record.normal.Unit(sqrt).Add(One).Div(2.0);
  }

  /** The running sum of `sample_pixel`: (0, 0, 0) plus each colour in turn. */
  function Sum(colors: seq<Vec3>): Vec3
  {
    if |colors| == 0 then Zero else Sum(colors[..|colors| - 1]).Add(colors[|colors| - 1])
  }

  /**
   * The sum divided by the number of samples. With no samples the source
   * divides zero by zero; the model gives black.
   */
  function Mean(colors: seq<Vec3>): Vec3
  {
    if |colors| == 0 then Zero else Sum(colors).Div(|colors| as real)
  }

  lemma MulSucc(a: real, n: real)
    ensures Numerics.Mul(a, n - 1.0) + a == Numerics.Mul(a, n)
  {
    assert a * (n - 1.0) == a * n - a;
  }

  lemma MulDiv(a: real, n: real)
    requires n != 0.0
    ensures Numerics.Mul(a, n) / n == a
  {
  }

  /** The sum of n copies of a colour is n times the colour. */
  lemma {:induction false} SumConstant(colors: seq<Vec3>, c: Vec3)
    requires forall k | 0 <= k < |colors| :: colors[k] == c
    ensures Sum(colors) == c.Scale(|colors| as real)
  {
    if |colors| == 0 {
      assert c.Scale(0.0) == Zero;
    } else {
      var n := |colors| as real;
      SumConstant(colors[..|colors| - 1], c);
      MulSucc(c.x, n);
      MulSucc(c.y, n);
      MulSucc(c.z, n);
    }
  }

  /** Averaging samples that agree gives that colour. */
  lemma MeanConstant(colors: seq<Vec3>, c: Vec3)
    requires 0 < |colors|
    requires forall k | 0 <= k < |colors| :: colors[k] == c
    ensures Mean(colors) == c
  {
    var n := |colors| as real;
    SumConstant(colors, c);
    MulDiv(c.x, n);
    MulDiv(c.y, n);
    MulDiv(c.z, n);
  }

  /** Each component of a sum of valid colours lies in [0, number of colours]. */
  lemma {:induction false} SumInBox(colors: seq<Vec3>)
    requires forall k | 0 <= k < |colors| :: colors[k].InBox(0.0, 1.0)
    ensures Sum(colors).InBox(0.0, |colors| as real)
  {
    if |colors| != 0 {
      SumInBox(colors[..|colors| - 1]);
    }
  }

  lemma DivAtMostOne(a: real, n: real)
    requires 0.0 < n && 0.0 <= a <= n
    ensures 0.0 <= a / n <= 1.0
  {
  }

  /** The average of valid colours is a valid colour. */
  lemma MeanInUnitBox(colors: seq<Vec3>)
    requires forall k | 0 <= k < |colors| :: colors[k].InBox(0.0, 1.0)
    ensures Mean(colors).InBox(0.0, 1.0)
  {
    if |colors| != 0 {
      var n := |colors| as real;
      var total := Sum(colors);
      SumInBox(colors);
      DivAtMostOne(total.x, n);
      DivAtMostOne(total.y, n);
      DivAtMostOne(total.z, n);
    }
  }

  /**
   * What `sample_pixel` draws for sample k: the jitter in x and y from
   * `random_double(-0.5, 0.5)`, the defocus disk point and the ray time,
   * and the draws of the path tracer and of the shader.
   */
  datatype PixelSampler = PixelSampler(
    jitter: nat -> (real, real),
    disk: nat -> Vec3,
    time: nat -> real,
    path: nat -> PathSampler,
    shade: nat -> Shading.ShadeSampler)

  /**
   * `random_double(-0.5, 0.5)` lies in [-0.5, 0.5]: the upper end is drawn
   * when `rand()` returns `RAND_MAX`.
   */
  ghost predicate JitterInRange(s: PixelSampler)
  {
    forall k: nat :: -0.5 <= s.jitter(k).0 <= 0.5 && -0.5 <= s.jitter(k).1 <= 0.5
  }

  /** The primary ray of sample k of pixel (i, j). */
  function SampleRay(cam: Camera, s: PixelSampler, i: nat, j: nat, k: nat): Ray
    requires JitterInRange(s)
  {
    JitteredRay(cam, i, j, s.jitter(k).0, s.jitter(k).1, s.disk(k), s.time(k))
  }

  /** The bounces `single_path_color` recorded for one sample, with their radiances and throughputs. */
  datatype Trace = Trace(steps: seq<Step>, radiances: seq<Vec3>, throughput: seq<Vec3>)

  /** c is the colour `single_path_color` returns for the ray after at most depth bounces, recorded in t. */
  ghost predicate TracedPath(cam: Camera, world: World, r: Ray, depth: nat, s: PathSampler, sqrt: real -> real, c: Vec3, t: Trace)
    reads *
  {
    && Recorded(cam, world, s, sqrt, t.steps, t.radiances, t.throughput)
    && |t.steps| <= depth
    && (0 < depth ==> 0 < |t.steps|)
    && c == PathRadiance(t.radiances, t.throughput)
    && (0 < |t.steps| ==> t.steps[0].ray == r)
    && Chained(s, sqrt, t.steps)
    && (0 < |t.steps| < depth ==> Ends(t.steps[|t.steps| - 1]))
  }

  /** c is the colour of sample k of pixel (i, j) under the camera's flags (t records a traced path). */
  ghost predicate SampleColored(cam: Camera, world: World, s: PixelSampler, sqrt: real -> real, i: nat, j: nat, k: nat, c: Vec3, t: Trace)
    requires JitterInRange(s)
    reads *
  {
    var r := SampleRay(cam, s, i, j, k);
    if cam.usePathTracer then TracedPath(cam, world, r, cam.maxDepth, s.path(k), sqrt, c, t)
    else if cam.useSceneSig then c == Signature(world.Closest(r), sqrt)
    else c == Shading.Shade(cam, world, r, cam.maxDepth, s.shade(k), sqrt)
  }

  /** The path tracer's colour for a ray, with the path it traced. */
  method TracePath(cam: Camera, world: World, r: Ray, s: PathSampler, sqrt: real -> real) returns (c: Vec3, ghost t: Trace)
    ensures TracedPath(cam, world, r, cam.maxDepth, s, sqrt, c, t)
  {
    ghost var steps, radiances, throughput;
    c, steps, radiances, throughput := SinglePathColor(cam, r, world, cam.maxDepth, s, sqrt);
    t := Trace(steps, radiances, throughput);
  }

  /** The colour of one sample, as the flags choose. */
  method SampleColor(cam: Camera, world: World, s: PixelSampler, sqrt: real -> real, i: nat, j: nat, k: nat)
    returns (c: Vec3, ghost t: Trace)
    requires JitterInRange(s)
    ensures SampleColored(cam, world, s, sqrt, i, j, k, c, t)
  {
    var r := SampleRay(cam, s, i, j, k);
    t := Trace([], [], []);
    if cam.usePathTracer {
      c, t := TracePath(cam, world, r, s.path(k), sqrt);
    } else if cam.useSceneSig {
      c := SceneSignatureColor(world, r, sqrt);
    } else {
      c := Shading.RayColor(cam, world, r, cam.maxDepth, s.shade(k), sqrt);
    }
  }

  /** Sample k of pixel (i, j) has colour samples[k], for every recorded k. */
  ghost predicate Colored(cam: Camera, world: World, s: PixelSampler, sqrt: real -> real, i: nat, j: nat,
                          samples: seq<Vec3>, traces: seq<Trace>)
    requires JitterInRange(s)
    reads *
  {
    && |samples| == |traces|
    && forall k | 0 <= k < |samples| :: SampleColored(cam, world, s, sqrt, i, j, k, samples[k], traces[k])
  }

  /** The samples of pixel (i, j): one per sample index, each taken as the flags choose. */
  ghost predicate Sampled(cam: Camera, world: World, s: PixelSampler, sqrt: real -> real, i: nat, j: nat,
                          samples: seq<Vec3>, traces: seq<Trace>)
    requires JitterInRange(s)
    reads *
  {
    |samples| == cam.samplesPerPixel && Colored(cam, world, s, sqrt, i, j, samples, traces)
  }

  lemma ColoredExtend(cam: Camera, world: World, s: PixelSampler, sqrt: real -> real, i: nat, j: nat,
                      samples: seq<Vec3>, traces: seq<Trace>, c: Vec3, t: Trace)
    requires JitterInRange(s)
    requires Colored(cam, world, s, sqrt, i, j, samples, traces)
    requires SampleColored(cam, world, s, sqrt, i, j, |samples|, c, t)
    ensures Colored(cam, world, s, sqrt, i, j, samples + [c], traces + [t])
    ensures Sum(samples + [c]) == Sum(samples).Add(c)
  {
    var samples', traces' := samples + [c], traces + [t];
    forall k | 0 <= k < |samples'|
      ensures SampleColored(cam, world, s, sqrt, i, j, k, samples'[k], traces'[k])
    {
      if k < |samples| {
        assert samples'[k] == samples[k] && traces'[k] == traces[k];
      } else {
        assert k == |samples| && samples'[k] == c && traces'[k] == t;
      }
    }
    assert samples'[..|samples|] == samples;
  }

  /**
   * `sample_pixel(world, i, j)`: the mean of the samples, each through a
   * ray that passes within half a pixel of the centre of (i, j).
   */
  method SamplePixel(cam: Camera, world: World, s: PixelSampler, sqrt: real -> real, i: nat, j: nat)
    returns (color: Vec3, ghost samples: seq<Vec3>, ghost traces: seq<Trace>)
    requires JitterInRange(s)
    ensures Sampled(cam, world, s, sqrt, i, j, samples, traces)
    ensures color == Mean(samples)
  {
    var total := Zero;
    samples, traces := [], [];
    for k := 0 to cam.samplesPerPixel
      invariant |samples| == k
      invariant total == Sum(samples)
      invariant Colored(cam, world, s, sqrt, i, j, samples, traces)
    {
      var c, t := SampleColor(cam, world, s, sqrt, i, j, k);
      ColoredExtend(cam, world, s, sqrt, i, j, samples, traces, c, t);
      samples, traces := samples + [c], traces + [t];
      total := total.Add(c);
    }
    if cam.samplesPerPixel == 0 {
      color := Zero;
    } else {
      color := total.Div(cam.samplesPerPixel as real);
    }
  }

  /** With the signature shader and valid normals folded in, every pixel is a valid colour. */
  lemma SignaturePixelInUnitBox(cam: Camera, world: World, s: PixelSampler, sqrt: real -> real,
                                i: nat, j: nat, samples: seq<Vec3>, traces: seq<Trace>)
    requires Numerics.IsSqrt(sqrt) && JitterInRange(s)
    requires !cam.usePathTracer && cam.useSceneSig
    requires Sampled(cam, world, s, sqrt, i, j, samples, traces)
    ensures Mean(samples).InBox(0.0, 1.0)
  {
    forall k | 0 <= k < |samples|
      ensures samples[k].InBox(0.0, 1.0)
    {
      SignatureInUnitBox(world.Closest(SampleRay(cam, s, i, j, k)), sqrt);
    }
    MeanInUnitBox(samples);
  }
}
