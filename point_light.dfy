/**
 * The point light of light/point_light.cpp: a position with a diffuse and a
 * specular intensity that it gives off only at that exact position.
 */
module PointLights {
  import opened Vectors

  datatype PointLight = PointLight(point: Vec3, Id: Vec3, Is: Vec3)
  {
    /** `diffuse_intensity(p)`: Id at the light's own point, zero anywhere else. */
    function DiffuseIntensity(p: Vec3): (r: Vec3)
      ensures p == point ==> r == Id
      ensures p != point ==> r == Zero
    {
      if point.Equals(p) then Id else Zero
    }

    /** `specular_intensity(p)`: Is at the light's own point, zero anywhere else. */
    function SpecularIntensity(p: Vec3): (r: Vec3)
      ensures p == point ==> r == Is
      ensures p != point ==> r == Zero
    {
      if point.Equals(p) then Is else Zero
    }

    /** `is_point_light()`. */
    predicate IsPointLight()
    {
      true
    }

    /** `sample_point()`: the light's position. */
    function SamplePoint(): (p: Vec3)
      ensures p == point
    {
      point
    }
  }

  /** Sampling the light and asking for its intensity there gives the full intensities. */
  lemma SampledIntensities(l: PointLight)
    ensures l.DiffuseIntensity(l.SamplePoint()) == l.Id
    ensures l.SpecularIntensity(l.SamplePoint()) == l.Is
    ensures l.IsPointLight()
  {
  }
}
