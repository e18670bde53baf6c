/**
 * `KDTree::BoundingBox` of src/ds/kdtree.cpp: an axis-aligned box given by
 * its min and max corners, the slab test of a ray against it, the split at
 * a coordinate, the longest side, the strict containment tests, and
 * `_compute_bounding_box`.
 */
module BoundingBoxes {
  import opened Vectors
  import opened Rays
  import Numerics

  datatype Box = Box(min: Vec3, max: Vec3)
  {
    /**
     * `split(axis, value)`: the left box ends and the right box starts at
     * value on the axis; every other coordinate is kept.
     */
    function Split(axis: Axis, value: real): (boxes: (Box, Box))
      ensures boxes.0.min == min && boxes.1.max == max
      ensures boxes.0.max.Get(axis) == value && boxes.1.min.Get(axis) == value
      ensures forall i: Axis :: i != axis ==> boxes.0.max.Get(i) == max.Get(i) && boxes.1.min.Get(i) == min.Get(i)
    {
      (Box(min, max.With(axis, value)), Box(min.With(axis, value), max))
    }

    /** The side length max[i] - min[i]. */
    function Extent(i: Axis): real
    {
      max.Get(i) - min.Get(i)
    }

    /**
     * `longest_dim()`: scans the axes keeping the first strictly longer
     * side, starting from -DBL_MAX and axis -1. The result stays -1 only
     * when no side is longer than -DBL_MAX.
     */
    method LongestDim() returns (axis: int)
      ensures axis == -1 <==> forall i: Axis :: Extent(i) <= -Numerics.DBL_MAX
      ensures axis != -1 ==> 0 <= axis < 3
      ensures axis != -1 ==> forall i: Axis :: Extent(i) <= Extent(axis)
      ensures axis != -1 ==> forall i: Axis :: i < axis ==> Extent(i) < Extent(axis)
    {
      axis := -1;
      var dimLength := -Numerics.DBL_MAX;
      for i := 0 to 3
        invariant -1 <= axis < i
        invariant axis == -1 ==> dimLength == -Numerics.DBL_MAX
        invariant axis == -1 <==> forall j: Axis :: j < i ==> Extent(j) <= -Numerics.DBL_MAX
        invariant axis != -1 ==> dimLength == Extent(axis)
        invariant forall j: Axis :: j < i ==> Extent(j) <= dimLength
        invariant axis != -1 ==> forall j: Axis :: j < axis ==> Extent(j) < Extent(axis)
      {
        var len := Extent(i);
        if len > dimLength {
          dimLength := len;
          axis := i;
        }
      }
    }

    /** The interval of ray parameters on the slab of axis i, in increasing order. */
    function SlabTimes(r: Ray, i: Axis): (real, real)
      requires r.direction.Get(i) != 0.0
    {
      var dir := r.direction.Get(i);
      var t1 := (min.Get(i) - r.origin.Get(i)) / dir;
      var t2 := (max.Get(i) - r.origin.Get(i)) / dir;
      if t1 > t2 then (t2, t1) else (t1, t2)
    }

    /**
     * The interval [lambda_min, lambda_max] after the first k axes of the
     * loop in `hit`: axes with a zero direction component are skipped.
     */
    function SlabInterval(r: Ray, k: nat): (real, real)
      requires k <= 3
    {
      if k == 0 then (-Numerics.DBL_MAX, Numerics.DBL_MAX)
      else
        var (lo, hi) := SlabInterval(r, k - 1);
        if r.direction.Get(k - 1) == 0.0 then (lo, hi)
        else
          var (t1, t2) := SlabTimes(r, k - 1);
          (if t1 > lo then t1 else lo, if t2 < hi then t2 else hi)
    }

    /**
     * `hit(r, lambda_min, lambda_max)`: narrows [-DBL_MAX, DBL_MAX] slab by
     * slab and reports a hit iff the interval is not empty and does not lie
     * wholly behind the origin.
     */
    method Hit(r: Ray) returns (hit: bool, lambdaMin: real, lambdaMax: real)
      ensures (lambdaMin, lambdaMax) == SlabInterval(r, 3)
      ensures hit <==> lambdaMin <= lambdaMax && 0.0 <= lambdaMax
    {
      lambdaMin, lambdaMax := -Numerics.DBL_MAX, Numerics.DBL_MAX;
      for i := 0 to 3
        invariant (lambdaMin, lambdaMax) == SlabInterval(r, i)
      {
        var dir := r.direction.Get(i);
        if dir == 0.0 {
          continue;
        }
        var t1 := (min.Get(i) - r.origin.Get(i)) / dir;
        var t2 := (max.Get(i) - r.origin.Get(i)) / dir;
        if t1 > t2 {
          t1, t2 := t2, t1;
        }
        if t1 > lambdaMin {
          lambdaMin := t1;
        }
        if t2 < lambdaMax {
          lambdaMax := t2;
        }
      }
      if lambdaMin > lambdaMax {
        return false, lambdaMin, lambdaMax;
      }
      if lambdaMax < 0.0 {
        return false, lambdaMin, lambdaMax;
      }
      return true, lambdaMin, lambdaMax;
    }

    /** The point's coordinate on axis i lies between the two bounds, in either order. */
    predicate OnSlab(p: Vec3, i: Axis)
    {
      Numerics.Min(min.Get(i), max.Get(i)) <= p.Get(i) <= Numerics.Max(min.Get(i), max.Get(i))
    }

    /** `inside(point)`: strictly inside on all three axes. */
    predicate Inside(p: Vec3)
    {
      min.x < p.x < max.x && min.y < p.y < max.y && min.z < p.z < max.z
    }

    /** `inside(triangle)`: every vertex strictly inside. */
    predicate InsideAll(vertices: seq<Vec3>)
    {
      forall k :: 0 <= k < |vertices| ==> Inside(vertices[k])
    }

    /** Closed containment, which `_compute_bounding_box` guarantees. */
    predicate Contains(p: Vec3)
    {
      min.x <= p.x <= max.x && min.y <= p.y <= max.y && min.z <= p.z <= max.z
    }
  }

  /**
   * A parameter t lies in the slab interval after k axes iff it is within
   * [-DBL_MAX, DBL_MAX] and the ray point at t lies on every slab among the
   * first k axes whose direction component is non-zero.
   */
  lemma {:induction false} SlabIntervalMeaning(b: Box, r: Ray, k: nat, t: real)
    requires k <= 3
    ensures var (lo, hi) := b.SlabInterval(r, k);
            lo <= t <= hi <==>
              -Numerics.DBL_MAX <= t <= Numerics.DBL_MAX &&
              forall i: Axis :: i < k && r.direction.Get(i) != 0.0 ==> b.OnSlab(r.At(t), i)
  {
    if k > 0 {
      SlabIntervalMeaning(b, r, k - 1, t);
      var i: Axis := k - 1;
      if r.direction.Get(i) != 0.0 {
        SlabTimesMeaning(b, r, i, t);
      }
    }
  }

  /** On one axis, t lies between the two slab times iff the ray point at t lies on the slab. */
  lemma {:induction false} SlabTimesMeaning(b: Box, r: Ray, i: Axis, t: real)
    requires r.direction.Get(i) != 0.0
    ensures var (t1, t2) := b.SlabTimes(r, i);
            t1 <= t <= t2 <==> b.OnSlab(r.At(t), i)
  {
    var d := r.direction.Get(i);
    var o := r.origin.Get(i);
    assert r.At(t).Get(i) == o + Numerics.Mul(d, t);
    QuotientBound(b.min.Get(i) - o, d, t);
    QuotientBound(b.max.Get(i) - o, d, t);
  }

  /**
   * For d != 0, comparing t with a / d is comparing d t with a, the
   * comparison turned round when d is negative.
   */
  lemma QuotientBound(a: real, d: real, t: real)
    requires d != 0.0
    ensures 0.0 < d ==> (a / d <= t <==> a <= Numerics.Mul(d, t)) && (t <= a / d <==> Numerics.Mul(d, t) <= a)
    ensures d < 0.0 ==> (a / d <= t <==> Numerics.Mul(d, t) <= a) && (t <= a / d <==> a <= Numerics.Mul(d, t))
  {
    var q := a / d;
    assert Numerics.Mul(d, t) - a == Numerics.Mul(t - q, d);
    SignOfProduct(t - q, d);
  }

  lemma SignOfProduct(x: real, d: real)
    requires d != 0.0
    ensures 0.0 < d ==> (0.0 <= Numerics.Mul(x, d) <==> 0.0 <= x)
    ensures d < 0.0 ==> (0.0 <= Numerics.Mul(x, d) <==> x <= 0.0)
  {
    if x > 0.0 && d > 0.0 { Numerics.MulPos(x, d); }
    if x < 0.0 && d > 0.0 { Numerics.MulPos(-x, d); }
    if x > 0.0 && d < 0.0 { Numerics.MulPos(x, -d); }
    if x < 0.0 && d < 0.0 { Numerics.MulPos(-x, -d); }
  }

  /**
   * When `hit` reports a hit, lambda_min <= lambda_max, lambda_max >= 0,
   * and the ray point at lambda_max lies on every slab the ray is not
   * parallel to: the ray reaches the box at a parameter that is not negative.
   */
  lemma {:induction false} HitReachesBox(b: Box, r: Ray, lambdaMin: real, lambdaMax: real)
    requires (lambdaMin, lambdaMax) == b.SlabInterval(r, 3)
    requires lambdaMin <= lambdaMax && 0.0 <= lambdaMax
    ensures forall i: Axis :: r.direction.Get(i) != 0.0 ==> b.OnSlab(r.At(lambdaMax), i)
  {
    SlabIntervalMeaning(b, r, 3, lambdaMax);
  }

  /** The smallest box holding every point: the bounds `_compute_bounding_box` computes. */
  function BoundsOf(points: seq<Vec3>): Box
    requires |points| > 0
  {
    if |points| == 1 then Box(points[0], points[0])
    else Extend(BoundsOf(points[..|points| - 1]), points[|points| - 1])
  }

  /** The box grown to take in p, one `std::min`/`std::max` per axis. */
  function Extend(b: Box, p: Vec3): Box
  {
    Box(Vec3(Numerics.Min(b.min.x, p.x), Numerics.Min(b.min.y, p.y), Numerics.Min(b.min.z, p.z)),
        Vec3(Numerics.Max(b.max.x, p.x), Numerics.Max(b.max.y, p.y), Numerics.Max(b.max.z, p.z)))
  }

  /**
   * `_compute_bounding_box(points)`: starts from the box of the first point
   * and widens it by every point in turn. The source reads points[0], so the
   * list must not be empty.
   */
  method ComputeBoundingBox(points: seq<Vec3>) returns (box: Box)
    requires |points| > 0
    ensures box == BoundsOf(points)
  {
    box := Box(points[0], points[0]);
    for k := 0 to |points|
      invariant k == 0 ==> box == Box(points[0], points[0])
      invariant 0 < k ==> box == BoundsOf(points[..k])
    {
      var vertex := points[k];
      var mn, mx := box.min, box.max;
      for i := 0 to 3
        invariant forall j: Axis :: j < i ==> mn.Get(j) == Numerics.Min(box.min.Get(j), vertex.Get(j))
        invariant forall j: Axis :: j < i ==> mx.Get(j) == Numerics.Max(box.max.Get(j), vertex.Get(j))
        invariant forall j: Axis :: i <= j ==> mn.Get(j) == box.min.Get(j) && mx.Get(j) == box.max.Get(j)
      {
        mn := mn.With(i, Numerics.Min(mn.Get(i), vertex.Get(i)));
        mx := mx.With(i, Numerics.Max(mx.Get(i), vertex.Get(i)));
      }
      assert Box(mn, mx) == Extend(box, vertex) by {
        assert mn.Get(0) == mn.x && mn.Get(1) == mn.y && mn.Get(2) == mn.z;
        assert mx.Get(0) == mx.x && mx.Get(1) == mx.y && mx.Get(2) == mx.z;
      }
      if k == 0 {
        assert points[..1] == [points[0]];
      } else {
        assert points[..k + 1][..k] == points[..k];
      }
      box := Box(mn, mx);
    }
    assert points[..|points|] == points;
  }

  /** The computed box contains every point, and on every axis each bound is attained by some point. */
  lemma {:induction false} BoundsOfContains(points: seq<Vec3>, i: Axis)
    requires |points| > 0
    ensures forall k :: 0 <= k < |points| ==> BoundsOf(points).Contains(points[k])
    ensures exists k :: 0 <= k < |points| && points[k].Get(i) == BoundsOf(points).min.Get(i)
    ensures exists k :: 0 <= k < |points| && points[k].Get(i) == BoundsOf(points).max.Get(i)
  {
    if |points| > 1 {
      var init := points[..|points| - 1];
      BoundsOfContains(init, i);
      var b := BoundsOf(init);
      var n := |points| - 1;
      ExtendGet(b, points[n], i);
      forall k | 0 <= k < |points|
        ensures BoundsOf(points).Contains(points[k])
      {
        if k < n {
          assert points[k] == init[k];
        }
      }
      var k1 :| 0 <= k1 < |init| && init[k1].Get(i) == b.min.Get(i);
      var k2 :| 0 <= k2 < |init| && init[k2].Get(i) == b.max.Get(i);
      assert points[k1] == init[k1] && points[k2] == init[k2];
      if points[n].Get(i) < b.min.Get(i) {
        assert points[n].Get(i) == BoundsOf(points).min.Get(i);
      } else {
        assert points[k1].Get(i) == BoundsOf(points).min.Get(i);
      }
      if points[n].Get(i) > b.max.Get(i) {
        assert points[n].Get(i) == BoundsOf(points).max.Get(i);
      } else {
        assert points[k2].Get(i) == BoundsOf(points).max.Get(i);
      }
    } else {
      assert points[0].Get(i) == BoundsOf(points).min.Get(i);
    }
  }

  lemma ExtendGet(b: Box, p: Vec3, i: Axis)
    ensures Extend(b, p).min.Get(i) == Numerics.Min(b.min.Get(i), p.Get(i))
    ensures Extend(b, p).max.Get(i) == Numerics.Max(b.max.Get(i), p.Get(i))
  {
  }

  /** The unbounded box of `BoundingBox()`: [-DBL_MAX, DBL_MAX] on every axis. */
  function Unbounded(): (b: Box)
    ensures forall i: Axis :: b.min.Get(i) == -Numerics.DBL_MAX && b.max.Get(i) == Numerics.DBL_MAX
  {
    Box(Vec3(-Numerics.DBL_MAX, -Numerics.DBL_MAX, -Numerics.DBL_MAX),
        Vec3(Numerics.DBL_MAX, Numerics.DBL_MAX, Numerics.DBL_MAX))
  }
}
