/**
 * The material base class of src/material/material.cpp: a texture, an
 * optional normal map, and an emission colour that can be set after
 * construction. The material kind stands for the subclass (the source tells
 * Lambertian materials apart with a `dynamic_cast`).
 */
module Materials {
  import opened Wrappers
  import opened Vectors
  import Matrices
  import Textures
  import Numerics

  datatype MaterialKind =
    | Lambertian
    | Dielectric(refractionIndex: real, absorption: real)
    | Metal
    | Phong
    | Plain

  class Material {
    const kind: MaterialKind
    const texture: Textures.TextureRef
    const normalMap: Option<Textures.ImageTexture>
    var emissionValue: Vec3

    /** `Material(texture, normal_map)`: the emission starts at zero. */
    constructor (kind: MaterialKind, texture: Textures.TextureRef, normalMap: Option<Textures.ImageTexture>)
      ensures this.kind == kind && this.texture == texture && this.normalMap == normalMap
      ensures emissionValue == Zero
      ensures !IsEmissive()
    {
      this.kind := kind;
      this.texture := texture;
      this.normalMap := normalMap;
      emissionValue := Zero;
    }

    /** `Dielectric(refraction_index, absorption)`: a white solid texture and no normal map. */
    constructor MakeDielectric(refractionIndex: real, absorption: real)
      ensures kind == Dielectric(refractionIndex, absorption)
      ensures texture == Textures.Solid(Vec3(1.0, 1.0, 1.0)) && normalMap == None
      ensures emissionValue == Zero
    {
      kind := Dielectric(refractionIndex, absorption);
      texture := Textures.Solid(Vec3(1.0, 1.0, 1.0));
      normalMap := None;
      emissionValue := Zero;
    }

    /** `emission()`. */
    function Emission(): Vec3
      reads this
    {
      emissionValue
    }

    /** `emission(color)`: afterwards `emission()` returns color. */
    method SetEmission(color: Vec3)
      modifies this
      ensures Emission() == color
    {
      emissionValue := color;
    }

    /** `is_emissive()`: the squared length of the emission is positive. */
    predicate IsEmissive()
      reads this
    {
      emissionValue.LengthSquared() > 0.0
    }

    /** What `normal` needs: a normal map is read inside the unit square. */
    predicate NormalReadable(uv: Vec3)
    {
      normalMap.Some? ==> normalMap.value.Valid() && 0.0 <= uv.x < 1.0 && 0.0 <= uv.y < 1.0
    }

    /**
     * `normal(tbn, n, uv)`: n itself without a normal map, otherwise the
     * decoded texel taken from tangent space to world space by tbn.
     */
    function Normal(tbn: Matrices.Mat3, n: Vec3, uv: Vec3): (r: Vec3)
      requires NormalReadable(uv)
      ensures normalMap.None? ==> r == n
      ensures normalMap.Some? ==> r == tbn.MulVec(DecodeNormal(normalMap.value.ReadRgb255(uv)))
    {
      if normalMap.None? then n
      else tbn.MulVec(DecodeNormal(normalMap.value.ReadRgb255(uv)))
    }

    /** `color(record)`: the texture read at the record's uv and hit point. */
    function Color(uv: Vec3, hitPoint: Vec3): Vec3
      requires texture.Readable(uv)
    {
      texture.ReadTextureUV(uv, hitPoint)
    }
  }

  /** A material is emissive exactly when its emission is not the zero vector. */
  lemma IsEmissiveIffNonZero(m: Material)
    ensures m.IsEmissive() <==> m.Emission() != Zero
  {
    LengthSquaredPositive(m.emissionValue);
  }

  /** The normal-map decoding 2c / 255 - 1 of one channel. */
  function DecodeChannel(c: real): real
  {
    c * 2.0 / 255.0 - 1.0
  }

  /** `normal * 2.0 / 255 + Vec3(-1, -1, -1)`. */
  function DecodeNormal(rgb: Vec3): (n: Vec3)
    ensures n == Vec3(DecodeChannel(rgb.x), DecodeChannel(rgb.y), DecodeChannel(rgb.z))
  {
    rgb.Scale(2.0).Div(255.0).Add(Vec3(-1.0, -1.0, -1.0))
  }

  /**
   * A channel in [0, 255] decodes into [-1, 1]: 0 gives -1, 255 gives 1,
   * and the decoding is strictly increasing, so it loses no channel value.
   */
  lemma DecodeChannelRange(c: real, d: real)
    requires 0.0 <= c <= 255.0
    ensures -1.0 <= DecodeChannel(c) <= 1.0
    ensures DecodeChannel(0.0) == -1.0 && DecodeChannel(255.0) == 1.0
    ensures c < d ==> DecodeChannel(c) < DecodeChannel(d)
  {
  }
}
