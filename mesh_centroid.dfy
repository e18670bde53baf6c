/**
 * `compute_mesh_centroid` of src/utils.cpp: the area-weighted mean of the
 * centres of a mesh's triangles. The source asks each triangle for a
 * `center()` that `Triangle` does not declare (its only `center` takes a
 * point and moves the triangle); the centre here is the centroid that
 * `center(point)` computes, (3 location + u + v) / 3.
 */
module MeshCentroids {
  import opened Vectors
  import opened Triangles
  import Numerics

  /** The sum of area * centre over the triangles. */
  function WeightedCenters(tris: seq<Tri>, sqrt: real -> real): Vec3
  {
    if |tris| == 0 then Zero
    else
      var t := tris[|tris| - 1];
      WeightedCenters(tris[..|tris| - 1], sqrt).Add(t.Centroid().Scale(t.Area(sqrt)))
  }

  /** The sum of the areas. */
  function TotalArea(tris: seq<Tri>, sqrt: real -> real): real
  {
    if |tris| == 0 then 0.0 else TotalArea(tris[..|tris| - 1], sqrt) + tris[|tris| - 1].Area(sqrt)
  }

  /**
   * `compute_mesh_centroid(triangles)`: accumulates area * centre and the
   * total area, then divides. The source divides by zero for a mesh of no
   * area, so the total area must not be zero.
   */
  method ComputeMeshCentroid(tris: seq<Tri>, sqrt: real -> real) returns (centroid: Vec3)
    requires TotalArea(tris, sqrt) != 0.0
    ensures centroid == WeightedCenters(tris, sqrt).Div(TotalArea(tris, sqrt))
  {
    centroid := Zero;
    var totalArea := 0.0;
    var i := 0;
    while i < |tris|
      invariant 0 <= i <= |tris|
      invariant centroid == WeightedCenters(tris[..i], sqrt)
      invariant totalArea == TotalArea(tris[..i], sqrt)
    {
      var center := tris[i].Centroid();
      var area := tris[i].Area(sqrt);
      assert tris[..i + 1][..i] == tris[..i];
      centroid := centroid.Add(center.Scale(area));
      totalArea := totalArea + area;
      i := i + 1;
    }
    assert tris[..i] == tris;
    centroid := centroid.Div(totalArea);
  }

  /** The centroid of a one-triangle mesh of non-zero area is that triangle's centre. */
  lemma {:induction false} SingleTriangleCentroid(t: Tri, sqrt: real -> real)
    requires t.Area(sqrt) != 0.0
    ensures TotalArea([t], sqrt) == t.Area(sqrt)
    ensures WeightedCenters([t], sqrt).Div(TotalArea([t], sqrt)) == t.Centroid()
  {
    assert [t][..0] == [];
    var c := t.Centroid();
    var a := t.Area(sqrt);
    assert WeightedCenters([t], sqrt) == Zero.Add(c.Scale(a));
    ScaleDivCancels(c, a);
  }

  /** Scaling by a non-zero a and dividing by a gives the vector back. */
  lemma ScaleDivCancels(c: Vec3, a: real)
    requires a != 0.0
    ensures Zero.Add(c.Scale(a)).Div(a) == c
  {
    MulDivCancels(c.x, a);
    MulDivCancels(c.y, a);
    MulDivCancels(c.z, a);
  }

  lemma MulDivCancels(x: real, a: real)
    requires a != 0.0
    ensures Numerics.Mul(x, a) / a == x
  {
  }

  /** Moving every triangle by the same offset moves the centroid by that offset. */
  lemma {:induction false} CentroidTranslates(tris: seq<Tri>, d: Vec3, sqrt: real -> real)
    ensures WeightedCenters(Translated(tris, d), sqrt)
         == WeightedCenters(tris, sqrt).Add(d.Scale(TotalArea(tris, sqrt)))
    ensures TotalArea(Translated(tris, d), sqrt) == TotalArea(tris, sqrt)
  {
    if |tris| > 0 {
      var init := tris[..|tris| - 1];
      var t := tris[|tris| - 1];
      assert Translated(tris, d)[..|tris| - 1] == Translated(init, d);
      CentroidTranslates(init, d, sqrt);
      var a := t.Area(sqrt);
      var moved := t.(location := t.location.Add(d));
      assert moved.Area(sqrt) == a;
      assert moved.Centroid() == t.Centroid().Add(d);
      assert Translated(tris, d)[|tris| - 1] == moved;
      StepTranslates(WeightedCenters(init, sqrt), t.Centroid(), d, TotalArea(init, sqrt), a);
    }
  }

  /** One more triangle, moved by d, keeps the sums moved by d times the total area. */
  lemma StepTranslates(w: Vec3, c: Vec3, d: Vec3, total: real, a: real)
    ensures w.Add(d.Scale(total)).Add(c.Add(d).Scale(a)) == w.Add(c.Scale(a)).Add(d.Scale(total + a))
  {
    ScaleAddDistributes(c, d, a);
    ScaleSum(d, total, a);
  }

  /** Every triangle moved by d. */
  function Translated(tris: seq<Tri>, d: Vec3): (r: seq<Tri>)
    ensures |r| == |tris|
    ensures forall k :: 0 <= k < |tris| ==> r[k] == tris[k].(location := tris[k].location.Add(d))
  {
    seq(|tris|, k requires 0 <= k < |tris| => tris[k].(location := tris[k].location.Add(d)))
  }

  lemma ScaleAddDistributes(c: Vec3, d: Vec3, a: real)
    ensures c.Add(d).Scale(a) == c.Scale(a).Add(d.Scale(a))
  {
  }

  lemma ScaleSum(d: Vec3, p: real, q: real)
    ensures d.Scale(p + q) == d.Scale(p).Add(d.Scale(q))
  {
  }
}
