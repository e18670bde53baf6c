/**
 * The textures of src/texture: the photon grid every texture owns
 * (texture.cpp), the checkerboard (checkerboard.cpp) and the image texture
 * (image_texture.cpp) read from a row-major array of 8-bit RGB pixels.
 */
module Textures {
  import opened Wrappers
  import opened Vectors
  import Numerics

  /** The photon grid is 400 cells wide and 400 cells high. */
  const PHOTON_MAP_WIDTH: nat := 400
  const PHOTON_MAP_HEIGHT: nat := 400

  /** An 8-bit colour channel. */
  newtype byte = b: int | 0 <= b < 256

  /** `struct rgb_pixel`. */
  datatype Pixel = Pixel(red: byte, green: byte, blue: byte)

  /**
   * The photon grid of the base class `Texture`: a flat buffer of
   * width x height colours, one per cell, row-major.
   */
  class Texture {
    const photonMapWidth: nat
    const photonMapHeight: nat
    const photonTexture: array<Vec3>

    ghost predicate Valid()
      reads this
    {
      photonMapWidth == PHOTON_MAP_WIDTH && photonMapHeight == PHOTON_MAP_HEIGHT
      && photonTexture.Length == photonMapWidth * photonMapHeight
    }

    /** The constructor allocates a 400 x 400 grid of default (zero) colours. */
    constructor ()
      ensures Valid() && fresh(photonTexture)
      ensures photonTexture.Length == 160000
      ensures forall k :: 0 <= k < photonTexture.Length ==> photonTexture[k] == Zero
    {
      photonMapWidth := PHOTON_MAP_WIDTH;
      photonMapHeight := PHOTON_MAP_HEIGHT;
      photonTexture := new Vec3[PHOTON_MAP_WIDTH * PHOTON_MAP_HEIGHT](_ => Zero);
    }

    /**
     * `store_photon(uv, color)`: adds color to the cell y * width + x with
     * x = size_t(uv[0] * width) and y = size_t(uv[1] * height). The source
     * does not check the index, so uv must lie in [0, 1) x [0, 1).
     */
    method StorePhoton(uv: Vec3, color: Vec3)
      requires Valid()
      requires 0.0 <= uv.x < 1.0 && 0.0 <= uv.y < 1.0
      modifies photonTexture
      ensures photonTexture[PhotonCell(uv)] == old(photonTexture[PhotonCell(uv)]).Add(color)
      ensures forall k :: 0 <= k < photonTexture.Length && k != PhotonCell(uv) ==>
        photonTexture[k] == old(photonTexture[k])
    {
      var x := Numerics.Trunc(Numerics.Mul(uv.x, photonMapWidth as real));
      var y := Numerics.Trunc(Numerics.Mul(uv.y, photonMapHeight as real));
      Numerics.MulBelow(uv.x, PHOTON_MAP_WIDTH as real);
      Numerics.MulBelow(uv.y, PHOTON_MAP_HEIGHT as real);
      Numerics.GridIndex(y, x, photonMapHeight, photonMapWidth);
      photonTexture[y * photonMapWidth + x] := photonTexture[y * photonMapWidth + x].Add(color);
    }
  }

  /** The cell of `store_photon` for uv, as a column and a row of the grid. */
  function PhotonColumn(uv: Vec3): (x: nat)
    requires 0.0 <= uv.x < 1.0
    ensures x < PHOTON_MAP_WIDTH
    ensures x as real <= uv.x * PHOTON_MAP_WIDTH as real < x as real + 1.0
  {
    Numerics.MulBelow(uv.x, PHOTON_MAP_WIDTH as real);
    Numerics.Trunc(Numerics.Mul(uv.x, PHOTON_MAP_WIDTH as real))
  }

  function PhotonRow(uv: Vec3): (y: nat)
    requires 0.0 <= uv.y < 1.0
    ensures y < PHOTON_MAP_HEIGHT
    ensures y as real <= uv.y * PHOTON_MAP_HEIGHT as real < y as real + 1.0
  {
    Numerics.MulBelow(uv.y, PHOTON_MAP_HEIGHT as real);
    Numerics.Trunc(Numerics.Mul(uv.y, PHOTON_MAP_HEIGHT as real))
  }

  /** The flat index of that cell: row-major, inside the grid. */
  function PhotonCell(uv: Vec3): (k: nat)
    requires 0.0 <= uv.x < 1.0 && 0.0 <= uv.y < 1.0
    ensures k < PHOTON_MAP_WIDTH * PHOTON_MAP_HEIGHT
    ensures k / PHOTON_MAP_WIDTH == PhotonRow(uv) && k % PHOTON_MAP_WIDTH == PhotonColumn(uv)
  {
    Numerics.GridIndex(PhotonRow(uv), PhotonColumn(uv), PHOTON_MAP_HEIGHT, PHOTON_MAP_WIDTH);
    Numerics.GridIndexInverse(PhotonRow(uv), PhotonColumn(uv), PHOTON_MAP_WIDTH);
    PhotonRow(uv) * PHOTON_MAP_WIDTH + PhotonColumn(uv)
  }

  /** Two uv points share a photon cell exactly when they share its column and its row. */
  lemma PhotonCellInjective(a: Vec3, b: Vec3)
    requires 0.0 <= a.x < 1.0 && 0.0 <= a.y < 1.0
    requires 0.0 <= b.x < 1.0 && 0.0 <= b.y < 1.0
    ensures PhotonCell(a) == PhotonCell(b) <==> PhotonColumn(a) == PhotonColumn(b) && PhotonRow(a) == PhotonRow(b)
  {
  }

  /** `CheckerboardTexture`: two colours alternating over the unit cubes of space. */
  datatype Checkerboard = Checkerboard(evenColor: Vec3, oddColor: Vec3)
  {
    /**
     * `read_texture_uv(uv, point)`: the odd colour when
     * floor(x) + floor(y) + floor(z) has a non-zero C++ remainder modulo 2.
     */
    function ReadTextureUV(uv: Vec3, point: Vec3): Vec3
    {
      if Numerics.CppRem(CoordSum(point), 2) != 0 then oddColor else evenColor
    }

    /** `read_rgb255` is not implemented and throws. */
    function ReadRgb255(uv: Vec3): (r: Result<Vec3>)
      ensures r.Failure? && r.error == "Not implemented"
    {
      Failure("Not implemented")
    }

    /** `photon_map` is always zero. */
    function PhotonMap(point: Vec3): (r: Vec3)
      ensures r == Zero
    {
      Zero
    }
  }

  /** The integer floor(x) + floor(y) + floor(z). */
  function CoordSum(p: Vec3): int
  {
    p.x.Floor + p.y.Floor + p.z.Floor
  }

  /**
   * The checkerboard is the even colour exactly on cubes whose coordinate
   * sum is even (in the mathematical sense), whatever uv is; a negative odd
   * sum has C++ remainder -1, which is still odd.
   */
  lemma CheckerboardParity(c: Checkerboard, uv: Vec3, point: Vec3)
    ensures c.ReadTextureUV(uv, point) == (if CoordSum(point) % 2 == 0 then c.evenColor else c.oddColor)
    ensures CoordSum(point) < 0 && CoordSum(point) % 2 == 1 ==> Numerics.CppRem(CoordSum(point), 2) == -1
  {
    var s := CoordSum(point);
    var r := Numerics.CppRem(s, 2);
    if s < 0 {
      assert r == 0 || r == -1;
      assert s == Numerics.CppDiv(s, 2) * 2 + r;
    }
  }

  /** The checkerboard ignores uv. */
  lemma CheckerboardIgnoresUV(c: Checkerboard, uv1: Vec3, uv2: Vec3, point: Vec3)
    ensures c.ReadTextureUV(uv1, point) == c.ReadTextureUV(uv2, point)
  {
  }

  /** Moving the point by exactly one along any axis swaps the two colours. */
  lemma {:induction false} CheckerboardShiftFlips(c: Checkerboard, uv: Vec3, point: Vec3, i: Axis)
    ensures c.ReadTextureUV(uv, point.With(i, point.Get(i) + 1.0))
         == (if CoordSum(point) % 2 == 0 then c.oddColor else c.evenColor)
    ensures CoordSum(point.With(i, point.Get(i) + 1.0)) == CoordSum(point) + 1
  {
    var q := point.With(i, point.Get(i) + 1.0);
    assert (point.Get(i) + 1.0).Floor == point.Get(i).Floor + 1;
    assert CoordSum(q) == CoordSum(point) + 1;
    CheckerboardParity(c, uv, point);
    CheckerboardParity(c, uv, q);
  }

  /**
   * `ImageTexture`: a width x height image of 8-bit RGB pixels, row-major.
   * The stb_image loader that fills it is not part of this model.
   */
  datatype ImageTexture = ImageTexture(imageWidth: int, imageHeight: int, pixels: seq<Pixel>)
  {
    predicate Valid()
    {
      0 < imageWidth && 0 < imageHeight && |pixels| == imageWidth * imageHeight
    }

    /**
     * The pixel index of `read_rgb255`: floor(uv.y h) * w + floor(uv.x w).
     * The source does not check it, so uv must lie in [0, 1) x [0, 1).
     */
    function PixelIndex(uv: Vec3): (k: int)
      requires Valid() && 0.0 <= uv.x < 1.0 && 0.0 <= uv.y < 1.0
      ensures 0 <= k < |pixels|
      ensures k % imageWidth == Numerics.Mul(uv.x, imageWidth as real).Floor
      ensures k / imageWidth == Numerics.Mul(uv.y, imageHeight as real).Floor
    {
      Numerics.MulBelow(uv.x, imageWidth as real);
      Numerics.MulBelow(uv.y, imageHeight as real);
      var u := Numerics.Mul(uv.x, imageWidth as real).Floor;
      var v := Numerics.Mul(uv.y, imageHeight as real).Floor;
      Numerics.GridIndex(v, u, imageHeight, imageWidth);
      Numerics.GridIndexInverse(v, u, imageWidth);
      v * imageWidth + u
    }

    /** `read_rgb255(uv)`: the pixel under uv, each channel in [0, 255]. */
    function ReadRgb255(uv: Vec3): (c: Vec3)
      requires Valid() && 0.0 <= uv.x < 1.0 && 0.0 <= uv.y < 1.0
      ensures c == Vec3(pixels[PixelIndex(uv)].red as real, pixels[PixelIndex(uv)].green as real,
                        pixels[PixelIndex(uv)].blue as real)
      ensures 0.0 <= c.x <= 255.0 && 0.0 <= c.y <= 255.0 && 0.0 <= c.z <= 255.0
    {
      var p := pixels[PixelIndex(uv)];
      Vec3(p.red as real, p.green as real, p.blue as real)
    }

    /** `read_texture_uv(uv, point)`: each channel c becomes (c / 255)^2, which lies in [0, 1]. */
    function ReadTextureUV(uv: Vec3, point: Vec3): (t: Vec3)
      requires Valid() && 0.0 <= uv.x < 1.0 && 0.0 <= uv.y < 1.0
      ensures InUnit(t.x) && InUnit(t.y) && InUnit(t.z)
      ensures t.x == Numerics.Sq(ReadRgb255(uv).x / 255.0)
      ensures t.y == Numerics.Sq(ReadRgb255(uv).y / 255.0)
      ensures t.z == Numerics.Sq(ReadRgb255(uv).z / 255.0)
    {
      var c := ReadRgb255(uv).Div(255.0);
      SquareInUnit(c.x);
      SquareInUnit(c.y);
      SquareInUnit(c.z);
      c.MulComponents(c)
    }

    /** `photon_map` is always zero. */
    function PhotonMap(point: Vec3): (r: Vec3)
      ensures r == Zero
    {
      Zero
    }
  }

  predicate InUnit(v: real)
  {
    0.0 <= v <= 1.0
  }

  lemma SquareInUnit(v: real)
    requires InUnit(v)
    ensures InUnit(Numerics.Mul(v, v))
  {
    Numerics.MulNonneg(v, v);
    Numerics.MulLe(v, 1.0, v);
  }

  /**
   * The texture a material points to: a `SolidTexture` of one colour, a
   * checkerboard or an image.
   */
  datatype TextureRef = Solid(color: Vec3) | Checker(board: Checkerboard) | Image(image: ImageTexture)
  {
    /** What `read_texture_uv` may be called with: an image is only read inside [0, 1) x [0, 1). */
    predicate Readable(uv: Vec3)
    {
      Image? ==> image.Valid() && 0.0 <= uv.x < 1.0 && 0.0 <= uv.y < 1.0
    }

    /** The virtual `read_texture_uv` of the three texture kinds. */
    function ReadTextureUV(uv: Vec3, point: Vec3): (t: Vec3)
      requires Readable(uv)
      ensures Solid? ==> t == color
      ensures Checker? ==> t == board.evenColor || t == board.oddColor
      ensures Image? ==> InUnit(t.x) && InUnit(t.y) && InUnit(t.z)
    {
      match this
      case Solid(c) => c
      case Checker(b) => b.ReadTextureUV(uv, point)
      case Image(i) => i.ReadTextureUV(uv, point)
    }
  }
}
