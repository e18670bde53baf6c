/**
 * The image of src/world/camera.cpp: the flat pixel buffer that
 * `render_multithreaded` fills row by row and `render` fills by pushing,
 * pixel (i, j) at index i + j * width in both, and `export_p6`, which
 * writes three gamma-corrected bytes per pixel.
 */
module Images {
  import opened Vectors
  import opened Cameras
  import opened Pixels
  import opened Worlds
  import Textures
  import Numerics

  /** Row j of an image of width w: the colours of pixels (0, j) to (w - 1, j). */
  function Row(w: nat, j: nat, color: (nat, nat) -> Vec3): (row: seq<Vec3>)
    ensures |row| == w
    ensures forall i | 0 <= i < w :: row[i] == color(i, j)
  {
    seq(w, (i: int) requires 0 <= i => color(i, j))
  }

  /** The first h rows of an image of width w, one after the other. */
  function Layout(w: nat, h: nat, color: (nat, nat) -> Vec3): seq<Vec3>
  {
    if h == 0 then [] else Layout(w, h - 1, color) + Row(w, h - 1, color)
  }

  lemma {:induction false} LayoutLength(w: nat, h: nat, color: (nat, nat) -> Vec3)
    ensures |Layout(w, h, color)| == w * h
  {
    if h != 0 {
      LayoutLength(w, h - 1, color);
      assert w * h == w * (h - 1) + w;
    }
  }

  /** Rows cover the disjoint ranges [j * w, (j + 1) * w) of the buffer. */
  lemma {:induction false} LayoutRow(w: nat, h: nat, color: (nat, nat) -> Vec3, j: nat)
    requires j < h
    ensures |Layout(w, h, color)| == w * h
    ensures j * w + w <= w * h
    ensures Layout(w, h, color)[j * w .. j * w + w] == Row(w, j, color)
  {
    LayoutLength(w, h - 1, color);
    RowOffsets(w, h, j);
    if j < h - 1 {
      LayoutRow(w, h - 1, color, j);
      PrefixSlice(Layout(w, h - 1, color), Row(w, h - 1, color), j * w, j * w + w);
    } else {
      SuffixSlice(Layout(w, h - 1, color), Row(w, h - 1, color));
    }
  }

  /** The offsets of row j within the first h rows and within the first h - 1. */
  lemma RowOffsets(w: nat, h: nat, j: nat)
    requires j < h
    ensures w * h == w * (h - 1) + w
    ensures j < h - 1 ==> j * w + w <= w * (h - 1)
    ensures j == h - 1 ==> j * w == w * (h - 1)
  {
    if j < h - 1 {
      MulLeft(j + 1, h - 1, w);
    }
  }

  lemma PrefixSlice<T>(a: seq<T>, b: seq<T>, lo: nat, hi: nat)
    requires lo <= hi <= |a|
    ensures (a + b)[lo .. hi] == a[lo .. hi]
  {
  }

  lemma SuffixSlice<T>(a: seq<T>, b: seq<T>)
    ensures (a + b)[|a| .. |a| + |b|] == b
  {
  }

  /** Pixel (i, j) is stored at index i + j * w. */
  lemma LayoutIndex(w: nat, h: nat, color: (nat, nat) -> Vec3, i: nat, j: nat)
    requires i < w && j < h
    ensures i + j * w < |Layout(w, h, color)| == w * h
    ensures Layout(w, h, color)[i + j * w] == color(i, j)
  {
    LayoutLength(w, h, color);
    LayoutRow(w, h, color, j);
    assert Layout(w, h, color)[i + j * w] == Layout(w, h, color)[j * w .. j * w + w][i];
  }

  lemma MulLeft(a: int, b: int, c: int)
    requires 0 <= a <= b && 0 <= c
    ensures a * c <= b * c
  {
    assert b * c == a * c + (b - a) * c;
  }

  /** Index k of the buffer holds pixel (k % w, k / w). */
  lemma PixelOfIndex(w: nat, h: nat, k: nat)
    requires k < w * h
    ensures 0 < w && k % w < w && k / w < h
    ensures k % w + (k / w) * w == k
  {
    assert 0 < w;
    if h <= k / w {
      MulLeft(h, k / w, w);
    }
  }

  /** Distinct pixels are stored at distinct indices. */
  lemma IndexUnique(w: nat, i: nat, j: nat, i': nat, j': nat)
    requires i < w && i' < w && i + j * w == i' + j' * w
    ensures i == i' && j == j'
  {
    Numerics.GridIndexInverse(j, i, w);
    Numerics.GridIndexInverse(j', i', w);
  }

  /** The buffer read index by index: entry k is the colour of pixel (k % w, k / w). */
  lemma LayoutByIndex(w: nat, h: nat, color: (nat, nat) -> Vec3, k: nat)
    requires k < w * h
    ensures |Layout(w, h, color)| == w * h
    ensures 0 < w && Layout(w, h, color)[k] == color(k % w, k / w)
  {
    LayoutLength(w, h, color);
    PixelOfIndex(w, h, k);
    LayoutIndex(w, h, color, k % w, k / w);
  }

  /**
   * The buffer of `render_multithreaded` with its threads run one row after
   * the other: `pixels[i + j * image_width] = sample_pixel(world, i, j)`,
   * with the colour of pixel (i, j) given as color(i, j).
   */
  method RenderBuffer(w: nat, h: nat, color: (nat, nat) -> Vec3) returns (pixels: array<Vec3>)
    ensures fresh(pixels)
    ensures pixels[..] == Layout(w, h, color)
  {
    pixels := new Vec3[w * h](_ => Zero);
    for j := 0 to h
      invariant pixels.Length == w * h
      invariant j * w <= w * h
      invariant pixels[..j * w] == Layout(w, j, color)
    {
      RenderRow(pixels, w, h, j, color);
    }
    assert pixels[..] == pixels[..h * w];
  }

  /**
   * The work of the thread for row j in `render_multithreaded`: pixels
   * (0, j) to (w - 1, j) written to indices j * w to j * w + w - 1.
   */
  method RenderRow(pixels: array<Vec3>, w: nat, h: nat, j: nat, color: (nat, nat) -> Vec3)
    requires pixels.Length == w * h && j < h
    requires pixels[..j * w] == Layout(w, j, color)
    modifies pixels
    ensures (j + 1) * w <= w * h
    ensures pixels[..(j + 1) * w] == Layout(w, j + 1, color)
    ensures forall k | (j + 1) * w <= k < pixels.Length :: pixels[k] == old(pixels[k])
  {
    assert (j + 1) * w == j * w + w;
    MulLeft(j + 1, h, w);
    for i := 0 to w
      invariant j * w + i <= w * h
      invariant pixels[..j * w + i] == Layout(w, j, color) + Row(w, j, color)[..i]
      invariant forall k | (j + 1) * w <= k < pixels.Length :: pixels[k] == old(pixels[k])
    {
      Numerics.GridIndex(j, i, h, w);
      pixels[i + j * w] := color(i, j);
      assert Row(w, j, color)[..i + 1] == Row(w, j, color)[..i] + [color(i, j)];
    }
    assert Row(w, j, color)[..w] == Row(w, j, color);
  }

  /** Entry k of a buffer of width w holds c, sampled as `sample_pixel(world, k % w, k / w)` does it. */
  ghost predicate PixelRendered(cam: Camera, world: World, s: (nat, nat) -> PixelSampler, sqrt: real -> real,
                                k: nat, c: Vec3, sample: seq<Vec3>, trace: seq<Trace>)
    requires forall i: nat, j: nat :: JitterInRange(s(i, j))
    requires 0 < cam.imageWidth
    reads *
  {
    var i, j := k % cam.imageWidth, k / cam.imageWidth;
    Sampled(cam, world, s(i, j), sqrt, i, j, sample, trace) && c == Mean(sample)
  }

  /** Every entry before index |pixels| holds its sampled pixel. */
  ghost predicate Rendered(cam: Camera, world: World, s: (nat, nat) -> PixelSampler, sqrt: real -> real,
                           pixels: seq<Vec3>, samples: seq<seq<Vec3>>, traces: seq<seq<Trace>>)
    requires forall i: nat, j: nat :: JitterInRange(s(i, j))
    reads *
  {
    && 0 < cam.imageWidth
    && |pixels| == |samples| == |traces|
    && forall k | 0 <= k < |pixels| :: PixelRendered(cam, world, s, sqrt, k, pixels[k], samples[k], traces[k])
  }

  lemma RenderedExtend(cam: Camera, world: World, s: (nat, nat) -> PixelSampler, sqrt: real -> real,
                       pixels: seq<Vec3>, samples: seq<seq<Vec3>>, traces: seq<seq<Trace>>,
                       i: nat, j: nat, c: Vec3, sample: seq<Vec3>, trace: seq<Trace>)
    requires forall i: nat, j: nat :: JitterInRange(s(i, j))
    requires Rendered(cam, world, s, sqrt, pixels, samples, traces)
    requires i < cam.imageWidth && |pixels| == i + j * cam.imageWidth
    requires Sampled(cam, world, s(i, j), sqrt, i, j, sample, trace) && c == Mean(sample)
    ensures Rendered(cam, world, s, sqrt, pixels + [c], samples + [sample], traces + [trace])
  {
    var w := cam.imageWidth;
    var pixels', samples', traces' := pixels + [c], samples + [sample], traces + [trace];
    Numerics.GridIndexInverse(j, i, w);
    assert PixelRendered(cam, world, s, sqrt, |pixels|, c, sample, trace);
    forall k | 0 <= k < |pixels'|
      ensures PixelRendered(cam, world, s, sqrt, k, pixels'[k], samples'[k], traces'[k])
    {
      if k < |pixels| {
        assert pixels'[k] == pixels[k] && samples'[k] == samples[k] && traces'[k] == traces[k];
      } else {
        assert k == |pixels| && pixels'[k] == c && samples'[k] == sample && traces'[k] == trace;
      }
    }
  }

  /**
   * `render(world, filename)`: the pixels pushed row by row, left to
   * right, so that pixel (k % width, k / width) lands at index k, which
   * is index i + j * width of `render_multithreaded`.
   */
  method Render(cam: Camera, world: World, s: (nat, nat) -> PixelSampler, sqrt: real -> real)
    returns (pixels: seq<Vec3>, ghost samples: seq<seq<Vec3>>, ghost traces: seq<seq<Trace>>)
    requires forall i: nat, j: nat :: JitterInRange(s(i, j))
    ensures |pixels| == cam.imageWidth * cam.imageHeight
    ensures 0 < cam.imageWidth ==> Rendered(cam, world, s, sqrt, pixels, samples, traces)
  {
    var w, h := cam.imageWidth, cam.imageHeight;
    pixels, samples, traces := [], [], [];
    if w == 0 {
      return;
    }
    for j := 0 to h
      invariant |pixels| == j * w <= w * h
      invariant Rendered(cam, world, s, sqrt, pixels, samples, traces)
    {
      assert (j + 1) * w == j * w + w;
      MulLeft(j + 1, h, w);
      for i := 0 to w
        invariant |pixels| == i + j * w
        invariant Rendered(cam, world, s, sqrt, pixels, samples, traces)
      {
        var c, sample, trace := SamplePixel(cam, world, s(i, j), sqrt, i, j);
        RenderedExtend(cam, world, s, sqrt, pixels, samples, traces, i, j, c, sample, trace);
        pixels, samples, traces := pixels + [c], samples + [sample], traces + [trace];
      }
    }
  }

  /**
   * One channel as `export_p6` writes it: the square root of the value
   * (gamma 2), clamped to [0, 0.999], times 256, converted to `uint8_t`.
   */
  function Quantize(v: real, sqrt: real -> real): (b: Textures.byte)
  {
    var q := Numerics.Trunc(Numerics.Clamp(0.0, sqrt(v), 0.999) * 256.0);
    assert q <= 255;
    q as Textures.byte
  }

  /** Black and everything darker is written as 0. */
  lemma QuantizeBlack(v: real, sqrt: real -> real)
    requires sqrt(v) <= 0.0
    ensures Quantize(v, sqrt) == 0
  {
  }

  /** Everything from the top of the clamp up is written as 255. */
  lemma QuantizeWhite(v: real, sqrt: real -> real)
    requires 0.999 <= sqrt(v)
    ensures Quantize(v, sqrt) == 255
  {
  }

  /** A brighter channel is never written as a smaller byte. */
  lemma QuantizeMonotone(a: real, b: real, sqrt: real -> real)
    requires sqrt(a) <= sqrt(b)
    ensures Quantize(a, sqrt) <= Quantize(b, sqrt)
  {
  }

  /** The three bytes of one pixel, in the order x, y, z. */
  function PixelBytes(p: Vec3, sqrt: real -> real): seq<Textures.byte>
  {
    [Quantize(p.Get(0), sqrt), Quantize(p.Get(1), sqrt), Quantize(p.Get(2), sqrt)]
  }

  /** The pixel data of `export_p6`: the bytes of every pixel, in order. */
  function P6Data(pixels: seq<Vec3>, sqrt: real -> real): seq<Textures.byte>
  {
    if |pixels| == 0 then [] else P6Data(pixels[..|pixels| - 1], sqrt) + PixelBytes(pixels[|pixels| - 1], sqrt)
  }

  /** Three bytes per pixel, and byte 3k + c is channel c of pixel k. */
  lemma {:induction false} P6DataIndex(pixels: seq<Vec3>, sqrt: real -> real)
    ensures |P6Data(pixels, sqrt)| == 3 * |pixels|
    ensures forall k: nat, c: Axis | k < |pixels| :: P6Data(pixels, sqrt)[3 * k + c] == Quantize(pixels[k].Get(c), sqrt)
  {
    if |pixels| != 0 {
      var n := |pixels| - 1;
      P6DataIndex(pixels[..n], sqrt);
      var pre, last := P6Data(pixels[..n], sqrt), PixelBytes(pixels[n], sqrt);
      assert P6Data(pixels, sqrt) == pre + last;
      forall k: nat, c: Axis | k < |pixels|
        ensures P6Data(pixels, sqrt)[3 * k + c] == Quantize(pixels[k].Get(c), sqrt)
      {
        if k < n {
          assert pixels[..n][k] == pixels[k];
          assert (pre + last)[3 * k + c] == pre[3 * k + c];
        } else {
          assert (pre + last)[3 * k + c] == last[c];
        }
      }
    }
  }

  /**
   * `export_p6(filename, pixels)` without the file: the buffer of
   * 3 * |pixels| bytes, filled channel by channel.
   */
  method ExportP6(pixels: seq<Vec3>, sqrt: real -> real) returns (data: array<Textures.byte>)
    ensures fresh(data)
    ensures data[..] == P6Data(pixels, sqrt)
  {
    data := new Textures.byte[3 * |pixels|];
    var j := 0;
    for k := 0 to |pixels|
      invariant j == 3 * k
      invariant data[..j] == P6Data(pixels[..k], sqrt)
    {
      P6DataStep(pixels, k, sqrt);
      WritePixel(data, j, pixels[k], sqrt);
      j := j + 3;
    }
    assert pixels[..|pixels|] == pixels;
  }

  /** P6Data of one more pixel appends that pixel's bytes. */
  lemma P6DataStep(pixels: seq<Vec3>, k: nat, sqrt: real -> real)
    requires k < |pixels|
    ensures P6Data(pixels[..k + 1], sqrt) == P6Data(pixels[..k], sqrt) + PixelBytes(pixels[k], sqrt)
  {
    assert pixels[..k + 1][..k] == pixels[..k];
  }

  /** The inner loop of `export_p6`: the three channel bytes of pixel p, written at j, j + 1 and j + 2. */
  method WritePixel(data: array<Textures.byte>, j: nat, p: Vec3, sqrt: real -> real)
    requires j + 3 <= data.Length
    modifies data
    ensures data[..j + 3] == old(data[..j]) + PixelBytes(p, sqrt)
    ensures data[j + 3..] == old(data[j + 3..])
  {
    ghost var prefix := data[..j];
    for c := 0 to 3
      invariant data[..j + c] == prefix + PixelBytes(p, sqrt)[..c]
      invariant data[j + 3..] == old(data[j + 3..])
    {
      data[j + c] := Quantize(p.Get(c), sqrt);
      assert data[..j + c + 1] == data[..j + c] + [data[j + c]];
    }
  }
}
