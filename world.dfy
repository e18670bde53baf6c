/**
 * The scene of src/world/world.cpp: the object, light and emissive lists,
 * the closest-hit query, the two visibility tests, the random choice of
 * an emissive object and the photon-map lookup.
 *
 * Objects are references (`HitRecords.ObjRef`); what `obj->hit(r, rec)`
 * does is the scene's `hitTest`, which takes the record as the previous
 * call left it and returns whether it hit and the record it leaves.
 */
module Worlds {
  import opened Wrappers
  import opened Vectors
  import opened Rays
  import opened HitRecords
  import Numerics

  type HitTest = (ObjRef, Ray, HitRecord) -> HitOutcome

  /** The lower end of the accepted distance window. */
  const LAMBDA_MIN: real := 0.001

  /** A photon gathers around a point within this squared distance. */
  const PHOTON_RADIUS_SQ: real := 0.025

  /** A light of the scene; only its identity matters here. */
  datatype LightRef = LightRef(id: nat, isPoint: bool)

  datatype Photon = Photon(point: Vec3, color: Vec3)

  /**
   * The record `curr_record` holds before the next object is tested: the
   * default record at first, after that whatever the last test left.
   */
  function Carried(prev: seq<HitOutcome>): HitRecord
  {
    if |prev| == 0 then NewRecord() else prev[|prev| - 1].record
  }

  /**
   * The outcomes of testing the objects in order, each test starting from
   * the record the previous one left.
   */
  function Outcomes(objects: seq<ObjRef>, r: Ray, hitTest: HitTest): (outs: seq<HitOutcome>)
    ensures |outs| == |objects|
    decreases |objects|
  {
    if |objects| == 0 then []
    else
      var prev := Outcomes(objects[..|objects| - 1], r, hitTest);
      prev + [hitTest(objects[|objects| - 1], r, Carried(prev))]
  }

  lemma OutcomesStep(objects: seq<ObjRef>, r: Ray, hitTest: HitTest, k: nat)
    requires k < |objects|
    ensures Outcomes(objects[..k + 1], r, hitTest)
         == Outcomes(objects[..k], r, hitTest) + [hitTest(objects[k], r, Carried(Outcomes(objects[..k], r, hitTest)))]
  {
    assert objects[..k + 1][..k] == objects[..k];
  }

  /** A reported hit whose distance lies in the window (0.001, DBL_MAX). */
  predicate InWindow(o: HitOutcome)
  {
    o.hit && LAMBDA_MIN < o.record.lambda < Numerics.DBL_MAX
  }

  /**
   * What `hit(r, record)` promises: it reports a hit iff some outcome lies
   * in the window; the record is then the in-window hit with the least
   * distance, and the earliest of equally near ones; on a miss the
   * caller's record is untouched.
   */
  ghost predicate ClosestOf(outs: seq<HitOutcome>, rec: HitRecord, hit: bool, record: HitRecord)
  {
    && (hit <==> exists k :: 0 <= k < |outs| && InWindow(outs[k]))
    && (!hit ==> record == rec)
    && (hit ==> exists k :: (&& 0 <= k < |outs| && InWindow(outs[k]) && record == outs[k].record
                             && (forall j :: 0 <= j < |outs| && InWindow(outs[j]) ==> record.lambda <= outs[j].record.lambda)
                             && (forall j :: 0 <= j < k && InWindow(outs[j]) ==> record.lambda < outs[j].record.lambda)))
  }

  /**
   * The record the loop of `World::hit` ends with: lambda_max starts at
   * DBL_MAX and shrinks to each accepted hit, and a hit is accepted only
   * when strictly nearer than lambda_max and beyond 0.001.
   */
  function Scan(outs: seq<HitOutcome>, rec: HitRecord): (res: (bool, HitRecord))
    decreases |outs|
  {
    if |outs| == 0 then (false, rec)
    else
      var prev := Scan(outs[..|outs| - 1], rec);
      var o := outs[|outs| - 1];
      var lambdaMax := if prev.0 then prev.1.lambda else Numerics.DBL_MAX;
      if o.hit && o.record.lambda < lambdaMax && o.record.lambda > LAMBDA_MIN then (true, o.record) else prev
  }

  /** The scan finds the nearest in-window hit, the first of equally near ones. */
  lemma {:induction false} ScanClosest(outs: seq<HitOutcome>, rec: HitRecord)
    ensures ClosestOf(outs, rec, Scan(outs, rec).0, Scan(outs, rec).1)
    decreases |outs|
  {
    if |outs| > 0 {
      var n := |outs| - 1;
      var init := outs[..n];
      assert outs == init + [outs[n]];
      ScanClosest(init, rec);
      var prev := Scan(init, rec);
      var o := outs[n];
      var lambdaMax := if prev.0 then prev.1.lambda else Numerics.DBL_MAX;
      if o.hit && o.record.lambda < lambdaMax && o.record.lambda > LAMBDA_MIN {
        ClosestAccept(init, o, rec, prev.0, prev.1);
      } else {
        ClosestKeep(init, o, rec, prev.0, prev.1);
      }
    }
  }

  /** A hit strictly nearer than the best so far and beyond 0.001 becomes the closest. */
  lemma ClosestAccept(init: seq<HitOutcome>, o: HitOutcome, rec: HitRecord, hit: bool, record: HitRecord)
    requires ClosestOf(init, rec, hit, record)
    requires o.hit && o.record.lambda < (if hit then record.lambda else Numerics.DBL_MAX) && o.record.lambda > LAMBDA_MIN
    ensures ClosestOf(init + [o], rec, true, o.record)
  {
    var outs := init + [o];
    assert forall j :: 0 <= j < |init| ==> outs[j] == init[j];
    assert InWindow(outs[|init|]);
  }

  /** Any other outcome leaves the closest hit as it was. */
  lemma ClosestKeep(init: seq<HitOutcome>, o: HitOutcome, rec: HitRecord, hit: bool, record: HitRecord)
    requires ClosestOf(init, rec, hit, record)
    requires !(o.hit && o.record.lambda < (if hit then record.lambda else Numerics.DBL_MAX) && o.record.lambda > LAMBDA_MIN)
    ensures ClosestOf(init + [o], rec, hit, record)
  {
    var outs := init + [o];
    assert forall j :: 0 <= j < |init| ==> outs[j] == init[j];
    if hit {
      var k :| (&& 0 <= k < |init| && InWindow(init[k]) && record == init[k].record
                && (forall j :: 0 <= j < |init| && InWindow(init[j]) ==> record.lambda <= init[j].record.lambda)
                && (forall j :: 0 <= j < k && InWindow(init[j]) ==> record.lambda < init[j].record.lambda));
      assert InWindow(outs[k]);
    }
  }

  /** The loop of `World::hit`, threading curr_record through the tests. */
  method ClosestHit(objects: seq<ObjRef>, r: Ray, rec: HitRecord, hitTest: HitTest) returns (hit: bool, record: HitRecord)
    ensures (hit, record) == Scan(Outcomes(objects, r, hitTest), rec)
    ensures ClosestOf(Outcomes(objects, r, hitTest), rec, hit, record)
  {
    var currRecord := NewRecord();
    var lambdaMax := Numerics.DBL_MAX;
    hit := false;
    record := rec;
    ghost var outs: seq<HitOutcome> := [];
    for i := 0 to |objects|
      invariant outs == Outcomes(objects[..i], r, hitTest) && currRecord == Carried(outs)
      invariant (hit, record) == Scan(outs, rec)
      invariant lambdaMax == if hit then record.lambda else Numerics.DBL_MAX
    {
      OutcomesStep(objects, r, hitTest, i);
      var o := hitTest(objects[i], r, currRecord);
      assert (outs + [o])[..|outs|] == outs;
      outs := outs + [o];
      currRecord := o.record;
      if !o.hit {
        continue;
      }
      if o.record.lambda < lambdaMax && o.record.lambda > LAMBDA_MIN {
        lambdaMax := o.record.lambda;
        record := o.record;
        hit := true;
      }
    }
    assert objects[..|objects|] == objects;
    ScanClosest(outs, rec);
  }

  /**
   * The segment from a to b is clear: every in-window hit along the ray
   * from a towards b lies beyond b less 0.001.
   */
  ghost predicate ClearPath(objects: seq<ObjRef>, a: Vec3, b: Vec3, hitTest: HitTest, sqrt: real -> real)
  {
    var outs := Outcomes(objects, PathRay(a, b, sqrt), hitTest);
    forall k :: 0 <= k < |outs| && InWindow(outs[k]) ==> outs[k].record.lambda > b.Sub(a).Length(sqrt) - LAMBDA_MIN
  }

  /** The ray `has_path(a, b)` casts: from a along the unit vector towards b. */
  function PathRay(a: Vec3, b: Vec3, sqrt: real -> real): (r: Ray)
    ensures r.origin == a && r.direction == b.Sub(a).Unit(sqrt)
  {
    MakeRay(a, b.Sub(a).Unit(sqrt))
  }

  /**
   * `has_path(a, b)`: comparing the nearest hit with the distance to b
   * amounts to asking that every in-window hit lie beyond b less 0.001.
   */
  method HasClearPath(objects: seq<ObjRef>, a: Vec3, b: Vec3, hitTest: HitTest, sqrt: real -> real) returns (clear: bool)
    ensures clear <==> ClearPath(objects, a, b, hitTest, sqrt)
  {
    var r := MakeRay(a, b.Sub(a).Unit(sqrt));
    var hit, rec := ClosestHit(objects, r, NewRecord(), hitTest);
    if !hit {
      return true;
    }
    clear := rec.lambda > b.Sub(a).Length(sqrt) - LAMBDA_MIN;
  }

  /**
   * `has_path(r, obj)` as written: the loop skips obj itself and then
   * tests obj again instead of the current object. Both tests start from a
   * fresh record, so they agree, the distance is never strictly smaller,
   * and the answer is only whether obj is hit.
   */
  method HasPathToObjectAsWritten(objects: seq<ObjRef>, r: Ray, obj: ObjRef, hitTest: HitTest) returns (clear: bool)
    ensures clear <==> hitTest(obj, r, NewRecord()).hit
  {
    var objRec := hitTest(obj, r, NewRecord());
    if !objRec.hit {
      return false;
    }
    for i := 0 to |objects|
    {
      if objects[i] == obj {
        continue;
      }
      var rec := hitTest(obj, r, NewRecord());
      if !rec.hit {
        continue;
      }
      if rec.record.lambda < objRec.record.lambda && rec.record.lambda > LAMBDA_MIN {
        return false;
      }
    }
    return true;
  }

  /** Some object other than obj is hit in the window nearer than obj. */
  predicate Blocked(objects: seq<ObjRef>, r: Ray, obj: ObjRef, hitTest: HitTest)
  {
    exists k :: (&& 0 <= k < |objects| && objects[k] != obj
                 && hitTest(objects[k], r, NewRecord()).hit
                 && LAMBDA_MIN < hitTest(objects[k], r, NewRecord()).record.lambda < hitTest(obj, r, NewRecord()).record.lambda)
  }

  /**
   * `has_path(r, obj)` with the current object tested in the loop: clear
   * iff obj is hit and no other object is hit nearer than it.
   */
  method HasPathToObject(objects: seq<ObjRef>, r: Ray, obj: ObjRef, hitTest: HitTest) returns (clear: bool)
    ensures clear <==> hitTest(obj, r, NewRecord()).hit && !Blocked(objects, r, obj, hitTest)
  {
    var objRec := hitTest(obj, r, NewRecord());
    if !objRec.hit {
      return false;
    }
    for i := 0 to |objects|
      invariant !exists k :: (&& 0 <= k < i && objects[k] != obj
                              && hitTest(objects[k], r, NewRecord()).hit
                              && LAMBDA_MIN < hitTest(objects[k], r, NewRecord()).record.lambda < objRec.record.lambda)
    {
      if objects[i] == obj {
        continue;
      }
      var rec := hitTest(objects[i], r, NewRecord());
      if !rec.hit {
        continue;
      }
      if rec.record.lambda < objRec.record.lambda && rec.record.lambda > LAMBDA_MIN {
        return false;
      }
    }
    return true;
  }

  /** The photons within the gathering radius of point, in list order. */
  function NearPhotons(photons: seq<Photon>, point: Vec3): (near: seq<Photon>)
    ensures |near| <= |photons|
    decreases |photons|
  {
    if |photons| == 0 then []
    else
      var p := photons[|photons| - 1];
      NearPhotons(photons[..|photons| - 1], point)
        + (if p.point.Sub(point).LengthSquared() < PHOTON_RADIUS_SQ then [p] else [])
  }

  lemma {:induction false} NearPhotonsMembers(photons: seq<Photon>, point: Vec3, p: Photon)
    ensures p in NearPhotons(photons, point) <==> p in photons && p.point.Sub(point).LengthSquared() < PHOTON_RADIUS_SQ
    decreases |photons|
  {
    if |photons| > 0 {
      var init := photons[..|photons| - 1];
      NearPhotonsMembers(init, point, p);
      assert photons == init + [photons[|photons| - 1]];
    }
  }

  /** The sum of the photons' colours. */
  function SumColors(photons: seq<Photon>): Vec3
    decreases |photons|
  {
    if |photons| == 0 then Zero
    else SumColors(photons[..|photons| - 1]).Add(photons[|photons| - 1].color)
  }

  lemma NearPhotonsStep(photons: seq<Photon>, point: Vec3, k: nat)
    requires k < |photons|
    ensures NearPhotons(photons[..k + 1], point)
         == NearPhotons(photons[..k], point)
            + (if photons[k].point.Sub(point).LengthSquared() < PHOTON_RADIUS_SQ then [photons[k]] else [])
  {
    assert photons[..k + 1][..k] == photons[..k];
  }

  lemma SumColorsAppend(photons: seq<Photon>, p: Photon)
    ensures SumColors(photons + [p]) == SumColors(photons).Add(p.color)
  {
    assert (photons + [p])[..|photons|] == photons;
  }

  /** (c / n) * (n / N) is c / N for non-zero n and N. */
  lemma ScaleCancels(c: Vec3, n: real, total: real)
    requires n != 0.0 && total != 0.0
    ensures c.Div(n).Scale(n / total) == c.Div(total)
  {
    assert Numerics.Mul(c.x / n, n / total) == c.x / total;
    assert Numerics.Mul(c.y / n, n / total) == c.y / total;
    assert Numerics.Mul(c.z / n, n / total) == c.z / total;
  }

  /**
   * The scene: `objects` in insertion order, the `lights`, the
   * `emissives` registered by `add`, and the photons the forward pass
   * stores (that pass is not part of this model).
   */
  class World {
    var objects: seq<ObjRef>
    var lights: seq<LightRef>
    var emissives: seq<ObjRef>
    var photons: seq<Photon>
    /** `obj->hit(r, record)` for every object. */
    const hitTest: HitTest

    /** Every registered emissive is a smooth object of the scene. */
    ghost predicate Valid()
      reads this
    {
      forall e | e in emissives :: e in objects && e.smooth
    }

    /** `World()`: an empty scene. */
    constructor (hitTest: HitTest)
      ensures objects == [] && lights == [] && emissives == [] && photons == []
      ensures this.hitTest == hitTest && Valid()
    {
      objects := [];
      lights := [];
      emissives := [];
      photons := [];
      this.hitTest := hitTest;
    }

    /**
     * `add(obj)`: obj is appended to the objects, and also to the
     * emissives iff it is a smooth object with an emissive material.
     */
    method Add(obj: ObjRef)
      requires Valid()
      modifies this
      ensures objects == old(objects) + [obj]
      ensures emissives == old(emissives) + (if obj.smooth && obj.material.IsEmissive() then [obj] else [])
      ensures lights == old(lights) && photons == old(photons)
      ensures Valid()
    {
      objects := objects + [obj];
      if !obj.smooth {
        return;
      }
      if obj.material.IsEmissive() {
        emissives := emissives + [obj];
      }
    }

    /** `add_light(light)`: appends to the lights and changes nothing else. */
    method AddLight(light: LightRef)
      modifies this
      ensures lights == old(lights) + [light]
      ensures objects == old(objects) && emissives == old(emissives) && photons == old(photons)
    {
      lights := lights + [light];
    }

    /** `hit(r, record)`: the closest in-window hit over the objects in order. */
    method Hit(r: Ray, rec: HitRecord) returns (hit: bool, record: HitRecord)
      ensures (hit, record) == Scan(Outcomes(objects, r, hitTest), rec)
      ensures ClosestOf(Outcomes(objects, r, hitTest), rec, hit, record)
    {
      hit, record := ClosestHit(objects, r, rec, hitTest);
    }

    /** What `hit(r, record)` reports when started from a default record. */
    function Closest(r: Ray): (bool, HitRecord)
      reads this
    {
      Scan(Outcomes(objects, r, hitTest), NewRecord())
    }

    /** `has_path(a, b)`. */
    method HasPath(a: Vec3, b: Vec3, sqrt: real -> real) returns (clear: bool)
      ensures clear <==> ClearPath(objects, a, b, hitTest, sqrt)
    {
      clear := HasClearPath(objects, a, b, hitTest, sqrt);
    }

    /**
     * `has_path(r, obj)` with the loop testing the current object, as the
     * comparison evidently intends; HasPathToObjectAsWritten keeps the
     * loop as written.
     */
    method HasPathTo(r: Ray, obj: ObjRef) returns (clear: bool)
      ensures clear <==> hitTest(obj, r, NewRecord()).hit && !Blocked(objects, r, obj, hitTest)
    {
      clear := HasPathToObject(objects, r, obj, hitTest);
    }

    /**
     * `random_light()`: no light iff there are no emissives, otherwise the
     * emissive that the draw (the value of `rand()`) selects.
     */
    function RandomLight(draw: nat): (l: Option<ObjRef>)
      reads this
      ensures l.None? <==> |emissives| == 0
      ensures l.Some? ==> l.value in emissives
      ensures Valid() && l.Some? ==> l.value in objects && l.value.smooth
    {
      if |emissives| == 0 then None else Some(emissives[draw % |emissives|])
    }

    /**
     * `photon_map_color(point)`: zero when no photon is near; otherwise the
     * mean colour of the near photons times their share of all photons,
     * which is their summed colour over the number of photons.
     */
    method PhotonMapColor(point: Vec3) returns (c: Vec3)
      ensures |NearPhotons(photons, point)| == 0 ==> c == Zero
      ensures |NearPhotons(photons, point)| > 0 ==> c == SumColors(NearPhotons(photons, point)).Div(|photons| as real)
    {
      var color := Zero;
      var count := 0;
      for i := 0 to |photons|
        invariant color == SumColors(NearPhotons(photons[..i], point))
        invariant count == |NearPhotons(photons[..i], point)|
      {
        NearPhotonsStep(photons, point, i);
        if photons[i].point.Sub(point).LengthSquared() < PHOTON_RADIUS_SQ {
          SumColorsAppend(NearPhotons(photons[..i], point), photons[i]);
          color := color.Add(photons[i].color);
          count := count + 1;
        } else {
          var near := NearPhotons(photons[..i], point);
          assert near + [] == near;
        }
      }
      assert photons[..|photons|] == photons;
      if count == 0 {
        return Zero;
      }
      ScaleCancels(color, count as real, |photons| as real);
      c := color.Div(count as real).Scale(count as real / |photons| as real);
    }
  }
}
