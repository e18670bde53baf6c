/**
 * The earlier scene of world/world.cpp: objects and lights only, with the
 * same closest-hit query and visibility tests as the later scene, which
 * this model shares.
 */
module EarlyWorlds {
  import opened Vectors
  import opened Rays
  import opened HitRecords
  import opened Worlds

  class World {
    var objects: seq<ObjRef>
    var lights: seq<LightRef>
    /** `obj->hit(r, record)` for every object. */
    const hitTest: HitTest

    /** `World()`: an empty scene. */
    constructor (hitTest: HitTest)
      ensures objects == [] && lights == [] && this.hitTest == hitTest
    {
      objects := [];
      lights := [];
      this.hitTest := hitTest;
    }

    /** `add(obj)`: appends to the objects; there is no emissive registry. */
    method Add(obj: ObjRef)
      modifies this
      ensures objects == old(objects) + [obj] && lights == old(lights)
    {
      objects := objects + [obj];
    }

    /** `add_light(light)`: appends to the lights and changes nothing else. */
    method AddLight(light: LightRef)
      modifies this
      ensures lights == old(lights) + [light] && objects == old(objects)
    {
      lights := lights + [light];
    }

    /** `hit(r, record)`: the closest in-window hit over the objects in order. */
    method Hit(r: Ray, rec: HitRecord) returns (hit: bool, record: HitRecord)
      ensures (hit, record) == Scan(Outcomes(objects, r, hitTest), rec)
      ensures ClosestOf(Outcomes(objects, r, hitTest), rec, hit, record)
    {
      hit, record := ClosestHit(objects, r, rec, hitTest);
    }

    /** `has_path(a, b)`. */
    method HasPath(a: Vec3, b: Vec3, sqrt: real -> real) returns (clear: bool)
      ensures clear <==> ClearPath(objects, a, b, hitTest, sqrt)
    {
      clear := HasClearPath(objects, a, b, hitTest, sqrt);
    }

    /**
     * `has_path(r, obj)` with the loop testing the current object, as the
     * comparison evidently intends; HasPathToObjectAsWritten keeps the
     * loop as written.
     */
    method HasPathTo(r: Ray, obj: ObjRef) returns (clear: bool)
      ensures clear <==> hitTest(obj, r, NewRecord()).hit && !Blocked(objects, r, obj, hitTest)
    {
      clear := HasPathToObject(objects, r, obj, hitTest);
    }
  }
}
