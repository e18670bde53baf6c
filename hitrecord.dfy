/**
 * The hit record of src/world/hitrecord.cpp and the object references it
 * carries. A record is a value that the hit tests fill in; `setNormal`
 * returns the record with its normal and front_face fields replaced.
 */
module HitRecords {
  import opened Wrappers
  import opened Vectors
  import opened Rays
  import Materials
  import Numerics

  /**
   * A reference to a scene object: id stands for its address, material is
   * the material it points to, and smooth says whether it is a
   * `SmoothObject` (every kind except a mesh).
   */
  datatype ObjRef = ObjRef(id: nat, material: Materials.Material, smooth: bool)

  datatype HitRecord = HitRecord(
    hitPoint: Vec3,
    lambda: real,
    normal: Vec3,
    obj: Option<ObjRef>,
    uv: Vec3,
    frontFace: bool)

  /** What a hit test reports: whether it hit, and the record as it left it. */
  datatype HitOutcome = HitOutcome(hit: bool, record: HitRecord)

  /**
   * `HitRecord()`: hit_point and normal are zero. The fields the source
   * leaves uninitialised are given fixed values.
   */
  function NewRecord(): (rec: HitRecord)
    ensures rec.hitPoint == Zero && rec.normal == Zero && rec.obj.None?
  {
    HitRecord(Zero, 0.0, Zero, None, Zero, false)
  }

  /**
   * `setNormal(r, outward_normal)`: the normal is stored facing against the
   * ray, and front_face says whether the outward normal already did.
   */
  function SetNormal(rec: HitRecord, r: Ray, outward: Vec3, sqrt: real -> real): (out: HitRecord)
    ensures out.frontFace <==> r.direction.Dot(outward) <= 0.0
    ensures out.normal == (if out.frontFace then outward else outward.Neg()).Unit(sqrt)
    ensures out.(normal := rec.normal, frontFace := rec.frontFace) == rec
  {
    if r.direction.Dot(outward) > 0.0 then
      rec.(normal := outward.Neg().Unit(sqrt), frontFace := false)
    else
      rec.(normal := outward.Unit(sqrt), frontFace := true)
  }

  /** `outward_normal()`: the stored normal, turned back when the hit was on the back face. */
  function OutwardNormal(rec: HitRecord): Vec3
  {
    if rec.frontFace then rec.normal else rec.normal.Neg()
  }

  /** The stored normal never points along the ray. */
  lemma {:induction false} SetNormalOpposesRay(rec: HitRecord, r: Ray, outward: Vec3, sqrt: real -> real)
    requires Numerics.IsSqrt(sqrt)
    ensures r.direction.Dot(SetNormal(rec, r, outward, sqrt).normal) <= 0.0
  {
    var w := if r.direction.Dot(outward) > 0.0 then outward.Neg() else outward;
    assert r.direction.Dot(outward.Neg()) == -r.direction.Dot(outward);
    assert r.direction.Dot(w) <= 0.0;
    UnitDirection(w, sqrt);
    var l := w.Length(sqrt);
    if l != 0.0 {
      DotDiv(r.direction, w, l);
      assert r.direction.Dot(w.Div(l)) == r.direction.Dot(w) / l;
    } else {
      assert w.Unit(sqrt) == Zero;
    }
  }

  /** `outward_normal()` recovers the unit outward normal given to `setNormal`. */
  lemma {:induction false} OutwardNormalRecovers(rec: HitRecord, r: Ray, outward: Vec3, sqrt: real -> real)
    ensures OutwardNormal(SetNormal(rec, r, outward, sqrt)) == outward.Unit(sqrt)
  {
    NegUnit(outward, sqrt);
  }

  /** The length used by `unit()` is positive for a non-zero vector. */
  lemma UnitDirection(w: Vec3, sqrt: real -> real)
    requires Numerics.IsSqrt(sqrt)
    ensures 0.0 <= w.Length(sqrt)
  {
    LengthSquaredPositive(w);
  }

  lemma DotDiv(a: Vec3, w: Vec3, l: real)
    requires l != 0.0
    ensures a.Dot(w.Div(l)) == a.Dot(w) / l
  {
    DivShares(a.x, w.x, a.y, w.y, a.z, w.z, l);
  }

  lemma DivShares(p: real, q: real, s: real, t: real, u: real, v: real, l: real)
    requires l != 0.0
    ensures Numerics.Mul(p, q / l) + Numerics.Mul(s, t / l) + Numerics.Mul(u, v / l)
         == (Numerics.Mul(p, q) + Numerics.Mul(s, t) + Numerics.Mul(u, v)) / l
  {
  }

  /** unit(-w) == -unit(w). */
  lemma NegUnit(w: Vec3, sqrt: real -> real)
    ensures w.Neg().Unit(sqrt).Neg() == w.Unit(sqrt)
  {
    assert w.Neg().LengthSquared() == w.LengthSquared();
  }
}
