/**
 * Images as the interpreter sees them: a colour mode and a sequence of
 * pixels, each pixel a sequence of 8-bit channel values. The per-channel
 * transforms (`_threshold` via `Image.point`, `ImageOps.invert`) are pure
 * functions; alpha compositing (`alpha_to_color`) happens inside the image
 * library and is taken as a parameter `blend`.
 */
module Raster {

  datatype Mode = RGB | RGBA

  type Pixel = seq<int>

  datatype Image = Image(mode: Mode, pixels: seq<Pixel>)

  datatype Rgb = Rgb(r: int, g: int, b: int)

  /** The default background colour of the tool. */
  const White := Rgb(255, 255, 255)

  predicate IsByte(v: int) { 0 <= v <= 255 }

  predicate ValidColor(c: Rgb) { IsByte(c.r) && IsByte(c.g) && IsByte(c.b) }

  function Channels(m: Mode): nat
  {
    match m
    case RGB => 3
    case RGBA => 4
  }

  predicate ValidPixel(p: Pixel, m: Mode)
  {
    |p| == Channels(m) && forall k :: 0 <= k < |p| ==> IsByte(p[k])
  }

  /** Every pixel has the mode's number of channels, each an 8-bit value. */
  predicate ValidImage(im: Image)
  {
    forall i :: 0 <= i < |im.pixels| ==> ValidPixel(im.pixels[i], im.mode)
  }

  /** Same mode and geometry: only channel values may differ. */
  predicate SameShape(a: Image, b: Image)
  {
    a.mode == b.mode && |a.pixels| == |b.pixels| &&
    forall i :: 0 <= i < |a.pixels| ==> |a.pixels[i]| == |b.pixels[i]|
  }

  // ------------------------------------------------------------ threshold

  /** `_threshold`: dark channel values (at or below the level) become 0. */
  function ThresholdChannel(level: int, v: int): (r: int)
    ensures r == v || r == 0
    ensures r != 0 ==> level < r
    ensures level < v ==> r == v
  {
    if v <= level then 0 else v
  }

  function ThresholdPixel(level: int, p: Pixel): (q: Pixel)
    ensures |q| == |p|
    ensures forall k :: 0 <= k < |q| ==> q[k] == p[k] || q[k] == 0
    ensures forall k :: 0 <= k < |q| && q[k] != 0 ==> level < q[k]
    ensures forall k :: 0 <= k < |q| && level < p[k] ==> q[k] == p[k]
  {
    seq(|p|, k requires 0 <= k < |p| => ThresholdChannel(level, p[k]))
  }

  /** `im.point(_threshold)`: the remap runs on every channel, alpha included. */
  function ThresholdImage(im: Image, level: int): (r: Image)
    ensures SameShape(r, im)
  {
    Image(im.mode, seq(|im.pixels|, i requires 0 <= i < |im.pixels| => ThresholdPixel(level, im.pixels[i])))
  }

  /** Thresholding keeps every channel an 8-bit value. */
  lemma ThresholdKeepsValid(im: Image, level: int)
    requires ValidImage(im)
    ensures ValidImage(ThresholdImage(im, level))
  {
  }

  /** Two thresholds in a row act as one at the higher level. */
  lemma ThresholdCompose(im: Image, a: int, b: int)
    ensures ThresholdImage(ThresholdImage(im, a), b) == ThresholdImage(im, if a < b then b else a)
  {
    var m := if a < b then b else a;
    var lhs, rhs := ThresholdImage(ThresholdImage(im, a), b), ThresholdImage(im, m);
    forall i | 0 <= i < |im.pixels|
      ensures lhs.pixels[i] == rhs.pixels[i]
    {
      assert ThresholdPixel(b, ThresholdPixel(a, im.pixels[i])) == ThresholdPixel(m, im.pixels[i]);
    }
    assert lhs.pixels == rhs.pixels;
  }

  /** Thresholding twice at one level is the same as thresholding once. */
  lemma ThresholdIdempotent(im: Image, level: int)
    ensures ThresholdImage(ThresholdImage(im, level), level) == ThresholdImage(im, level)
  {
    ThresholdCompose(im, level, level);
  }

  /** `t0` leaves a valid image unchanged (only zeros map to zero). */
  lemma ThresholdZeroIsIdentity(im: Image)
    requires ValidImage(im)
    ensures ThresholdImage(im, 0) == im
  {
    var r := ThresholdImage(im, 0);
    forall i | 0 <= i < |im.pixels|
      ensures r.pixels[i] == im.pixels[i]
    {
      assert ValidPixel(im.pixels[i], im.mode);
    }
    assert r.pixels == im.pixels;
  }

  // --------------------------------------------------------------- invert

  function InvertPixel(p: Pixel): (q: Pixel)
    ensures |q| == |p|
    ensures forall k :: 0 <= k < |q| ==> p[k] + q[k] == 255
    ensures forall k :: 0 <= k < |q| && IsByte(p[k]) ==> IsByte(q[k])
  {
    seq(|p|, k requires 0 <= k < |p| => 255 - p[k])
  }

  /** `ImageOps.invert`: every channel `v` becomes `255 - v`. */
  function InvertBands(im: Image): (r: Image)
    ensures SameShape(r, im)
  {
    Image(im.mode, seq(|im.pixels|, i requires 0 <= i < |im.pixels| => InvertPixel(im.pixels[i])))
  }

  /** Inverting the bands twice restores every channel. */
  lemma InvertBandsInvolutive(im: Image)
    ensures InvertBands(InvertBands(im)) == im
  {
    var r := InvertBands(InvertBands(im));
    forall i | 0 <= i < |im.pixels|
      ensures r.pixels[i] == im.pixels[i]
    {
      assert InvertPixel(InvertPixel(im.pixels[i])) == im.pixels[i];
    }
    assert r.pixels == im.pixels;
  }

  /**
   * A compositing function as `alpha_to_color` uses it: it lays one RGBA
   * pixel over an opaque background colour and yields an RGB pixel. Its
   * arithmetic and rounding belong to the image library.
   */
  ghost predicate BlendOk(blend: (Pixel, Rgb) -> Pixel)
  {
    forall p, c :: ValidPixel(p, RGBA) && ValidColor(c) ==> ValidPixel(blend(p, c), RGB)
  }

  /** `alpha_to_color`: the RGBA image pasted over a plain background, as RGB. */
  function Flatten(im: Image, background: Rgb, blend: (Pixel, Rgb) -> Pixel): (r: Image)
    ensures r.mode == RGB && |r.pixels| == |im.pixels|
  {
    Image(RGB, seq(|im.pixels|, i requires 0 <= i < |im.pixels| => blend(im.pixels[i], background)))
  }

  /**
   * `invert_image`: an RGBA image is first flattened onto the background
   * colour, so the inverted result is always RGB.
   */
  function InvertImage(im: Image, background: Rgb, blend: (Pixel, Rgb) -> Pixel): (r: Image)
    ensures r.mode == RGB && |r.pixels| == |im.pixels|
    ensures im.mode == RGB ==> InvertBands(r) == im
    ensures im.mode == RGBA ==>
      forall i :: 0 <= i < |r.pixels| ==> r.pixels[i] == InvertPixel(blend(im.pixels[i], background))
  {
    var flat := if im.mode == RGBA then Flatten(im, background, blend) else im;
    InvertBandsInvolutive(flat);
    InvertBands(flat)
  }

  /** On an RGB image invert is an involution, whatever the backgrounds. */
  lemma InvertImageInvolutive(im: Image, c1: Rgb, c2: Rgb, blend: (Pixel, Rgb) -> Pixel)
    requires im.mode == RGB
    ensures InvertImage(InvertImage(im, c1, blend), c2, blend) == im
  {
    InvertBandsInvolutive(InvertImage(im, c1, blend));
  }

  /** Inverting a valid image over a valid background gives a valid RGB image. */
  lemma InvertImageKeepsValid(im: Image, background: Rgb, blend: (Pixel, Rgb) -> Pixel)
    requires BlendOk(blend) && ValidColor(background) && ValidImage(im)
    ensures ValidImage(InvertImage(im, background, blend))
  {
    var flat := if im.mode == RGBA then Flatten(im, background, blend) else im;
    assert ValidImage(flat) by {
      forall i | 0 <= i < |flat.pixels|
        ensures ValidPixel(flat.pixels[i], flat.mode)
      {
        assert ValidPixel(im.pixels[i], im.mode);
      }
    }
    var r := InvertImage(im, background, blend);
    assert r == InvertBands(flat);
    forall i | 0 <= i < |r.pixels|
      ensures ValidPixel(r.pixels[i], RGB)
    {
      assert ValidPixel(flat.pixels[i], RGB);
    }
  }
}
