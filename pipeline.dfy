/**
 * The per-file command loop and the two process-wide values it reads and
 * writes: the threshold level and the background colour.
 */
module Pipeline {
  import opened Raster
  import opened Directive

  /** The module globals `threshold` and `background_color`. */
  datatype State = State(threshold: int, background: Rgb)

  /** Their values when the program starts. */
  const Defaults := State(0, White)

  /** One command applied to the current image. */
  function Step(st: State, im: Image, c: Cmd, blend: (Pixel, Rgb) -> Pixel): (r: (State, Image))
    ensures r.0.threshold == if c.Threshold? then c.level else st.threshold
    ensures r.0.background == if c.SetBackground? then c.color else st.background
    ensures |r.1.pixels| == |im.pixels|
    ensures r.1.mode == if c.Invert? then RGB else im.mode
    ensures c.SetBackground? ==> r.1 == im
  {
    match c
    case Invert => (st, InvertImage(im, st.background, blend))
    case Threshold(level) => (st.(threshold := level), ThresholdImage(im, level))
    case SetBackground(color) => (st.(background := color), im)
  }

  /** The command list applied in order, threading the state. */
  function Run(st: State, im: Image, cmds: seq<Cmd>, blend: (Pixel, Rgb) -> Pixel): (r: (State, Image))
    ensures |r.1.pixels| == |im.pixels|
    ensures im.mode == RGB ==> r.1.mode == RGB
    ensures (forall k :: 0 <= k < |cmds| ==> !cmds[k].Threshold?) ==> r.0.threshold == st.threshold
    ensures (forall k :: 0 <= k < |cmds| ==> !cmds[k].SetBackground?) ==> r.0.background == st.background
    decreases |cmds|
  {
    if cmds == [] then (st, im)
    else
      var prev := Run(st, im, cmds[..|cmds| - 1], blend);
      Step(prev.0, prev.1, cmds[|cmds| - 1], blend)
  }

  /** Running two lists back to back is running their concatenation. */
  lemma {:induction false} RunAppend(st: State, im: Image, a: seq<Cmd>, b: seq<Cmd>, blend: (Pixel, Rgb) -> Pixel)
    ensures Run(st, im, a + b, blend) == Run(Run(st, im, a, blend).0, Run(st, im, a, blend).1, b, blend)
    decreases |b|
  {
    if b == [] {
      assert a + b == a;
    } else {
      assert (a + b)[..|a + b| - 1] == a + b[..|b| - 1];
      RunAppend(st, im, a, b[..|b| - 1], blend);
    }
  }

  /** No `t` at index above `k` (k = -1: none at all). */
  predicate NoThresholdAfter(cmds: seq<Cmd>, k: int)
  {
    forall j :: 0 <= j < |cmds| && k < j ==> !cmds[j].Threshold?
  }

  /** No `b` at index above `k` (k = -1: none at all). */
  predicate NoBackgroundAfter(cmds: seq<Cmd>, k: int)
  {
    forall j :: 0 <= j < |cmds| && k < j ==> !cmds[j].SetBackground?
  }

  /**
   * The threshold level after a run is the one the last `t` set, or the
   * level before the run when there is no `t`.
   */
  lemma {:induction false} ThresholdPersists(st: State, im: Image, cmds: seq<Cmd>, k: int, blend: (Pixel, Rgb) -> Pixel)
    requires -1 <= k < |cmds| && NoThresholdAfter(cmds, k)
    requires k >= 0 ==> cmds[k].Threshold?
    ensures Run(st, im, cmds, blend).0.threshold == if k < 0 then st.threshold else cmds[k].level
    decreases |cmds|
  {
    if cmds != [] && k != |cmds| - 1 {
      ThresholdPersists(st, im, cmds[..|cmds| - 1], k, blend);
    }
  }

  /**
   * The background colour after a run is the one the last `b` set, or the
   * colour before the run when there is no `b`.
   */
  lemma {:induction false} BackgroundPersists(st: State, im: Image, cmds: seq<Cmd>, k: int, blend: (Pixel, Rgb) -> Pixel)
    requires -1 <= k < |cmds| && NoBackgroundAfter(cmds, k)
    requires k >= 0 ==> cmds[k].SetBackground?
    ensures Run(st, im, cmds, blend).0.background == if k < 0 then st.background else cmds[k].color
    decreases |cmds|
  {
    if cmds != [] && k != |cmds| - 1 {
      BackgroundPersists(st, im, cmds[..|cmds| - 1], k, blend);
    }
  }

  /**
   * The stored threshold is never read before a `t` overwrites it: the
   * image a run produces does not depend on the level it starts from.
   */
  lemma {:induction false} ThresholdStateUnread(st: State, t: int, im: Image, cmds: seq<Cmd>, blend: (Pixel, Rgb) -> Pixel)
    ensures Run(st, im, cmds, blend).1 == Run(st.(threshold := t), im, cmds, blend).1
    ensures Run(st, im, cmds, blend).0.background == Run(st.(threshold := t), im, cmds, blend).0.background
    decreases |cmds|
  {
    if cmds != [] {
      ThresholdStateUnread(st, t, im, cmds[..|cmds| - 1], blend);
    }
  }

  /**
   * An RGB image never meets the background colour: whatever state a run
   * starts from, it produces the same RGB image.
   */
  lemma {:induction false} RgbIgnoresState(st1: State, st2: State, im: Image, cmds: seq<Cmd>, blend: (Pixel, Rgb) -> Pixel)
    requires im.mode == RGB
    ensures Run(st1, im, cmds, blend).1 == Run(st2, im, cmds, blend).1
    ensures Run(st1, im, cmds, blend).1.mode == RGB
    decreases |cmds|
  {
    if cmds != [] {
      RgbIgnoresState(st1, st2, im, cmds[..|cmds| - 1], blend);
    }
  }

  /** The result is RGB exactly when the input was RGB or the list inverts. */
  lemma {:induction false} RunMode(st: State, im: Image, cmds: seq<Cmd>, blend: (Pixel, Rgb) -> Pixel)
    ensures Run(st, im, cmds, blend).1.mode == RGB <==>
      im.mode == RGB || exists j :: 0 <= j < |cmds| && cmds[j] == Invert
    decreases |cmds|
  {
    if cmds != [] {
      var init := cmds[..|cmds| - 1];
      RunMode(st, im, init, blend);
      if exists j :: 0 <= j < |init| && init[j] == Invert {
        var j :| 0 <= j < |init| && init[j] == Invert;
        assert cmds[j] == Invert;
      }
      if exists j :: 0 <= j < |cmds| && cmds[j] == Invert {
        var j :| 0 <= j < |cmds| && cmds[j] == Invert;
        if j < |init| {
          assert init[j] == Invert;
        }
      }
    }
  }

  /**
   * Valid inputs, valid colours and parsed commands keep the image and the
   * background colour valid through a run.
   */
  lemma {:induction false} RunKeepsValid(st: State, im: Image, cmds: seq<Cmd>, blend: (Pixel, Rgb) -> Pixel)
    requires BlendOk(blend) && ValidImage(im) && ValidColor(st.background)
    requires forall j :: 0 <= j < |cmds| ==> cmds[j].Valid()
    ensures ValidImage(Run(st, im, cmds, blend).1) && ValidColor(Run(st, im, cmds, blend).0.background)
    decreases |cmds|
  {
    if cmds != [] {
      var init := cmds[..|cmds| - 1];
      RunKeepsValid(st, im, init, blend);
      var prev := Run(st, im, init, blend);
      match cmds[|cmds| - 1]
      case Invert => InvertImageKeepsValid(prev.1, prev.0.background, blend);
      case Threshold(level) => ThresholdKeepsValid(prev.1, level);
      case SetBackground(_) =>
    }
  }

  /**
   * `i,tL,i` on an RGB image forces light colours to white: a channel at or
   * above `255 - L` becomes 255 and every other channel is kept.
   */
  lemma LightToWhite(st: State, im: Image, level: int, blend: (Pixel, Rgb) -> Pixel)
    requires im.mode == RGB
    ensures var r := Run(st, im, [Invert, Threshold(level), Invert], blend).1;
      SameShape(r, im) &&
      forall i, k :: 0 <= i < |im.pixels| && 0 <= k < |im.pixels[i]| ==>
        r.pixels[i][k] == if im.pixels[i][k] >= 255 - level then 255 else im.pixels[i][k]
  {
    var cmds := [Invert, Threshold(level), Invert];
    assert cmds[..2][..1] == [Invert] && cmds[..2] == [Invert, Threshold(level)] && [Invert][..0] == [];
    var a := InvertImage(im, st.background, blend);
    var b := ThresholdImage(a, level);
    var c := InvertImage(b, st.background, blend);
    assert Run(st, im, [Invert], blend) == (st, a);
    assert Run(st, im, cmds[..2], blend) == (st.(threshold := level), b);
    assert Run(st, im, cmds, blend).1 == c;
    forall i, k | 0 <= i < |im.pixels| && 0 <= k < |im.pixels[i]|
      ensures c.pixels[i][k] == if im.pixels[i][k] >= 255 - level then 255 else im.pixels[i][k]
    {
      assert a.pixels[i] == InvertPixel(im.pixels[i]);
      assert b.pixels[i] == ThresholdPixel(level, a.pixels[i]);
      assert c.pixels[i] == InvertPixel(b.pixels[i]);
    }
  }

  /**
   * The process-wide values of the program and the operations that read
   * and write them. `blend` is the image library's alpha compositing.
   */
  class Converter {
    var threshold: int
    var backgroundColor: Rgb
    const blend: (Pixel, Rgb) -> Pixel

    /** The globals at program start: threshold 0, white background. */
    constructor (blend: (Pixel, Rgb) -> Pixel)
      ensures Globals() == Defaults && this.blend == blend
    {
      threshold := 0;
      backgroundColor := White;
      this.blend := blend;
    }

    function Globals(): State
      reads this
    {
      State(threshold, backgroundColor)
    }

    /** `set_threshold`: store the level, then remap every channel with it. */
    method SetThreshold(im: Image, level: int) returns (out: Image)
      modifies this
      ensures threshold == level && backgroundColor == old(backgroundColor)
      ensures out == ThresholdImage(im, level)
    {
      threshold := level;
      out := ThresholdImage(im, threshold);
    }

    /** `set_background`: store the colour and hand it back. */
    method SetBackground(color: Rgb) returns (r: Rgb)
      modifies this
      ensures backgroundColor == color && threshold == old(threshold)
      ensures r == color
    {
      backgroundColor := color;
      r := backgroundColor;
    }

    /** `invert_image`: flatten RGBA onto the current background, then invert. */
    method InvertImage(im: Image) returns (out: Image)
      ensures out == Raster.InvertImage(im, backgroundColor, blend)
      ensures out.mode == RGB && |out.pixels| == |im.pixels|
      ensures im.mode == RGB ==> InvertBands(out) == im
      ensures im.mode == RGBA ==>
        forall i :: 0 <= i < |out.pixels| ==> out.pixels[i] == InvertPixel(blend(im.pixels[i], backgroundColor))
    {
      var flat := im;
      if im.mode == RGBA {
        flat := Flatten(im, backgroundColor, blend);
      }
      out := InvertBands(flat);
    }

    /** The command loop for one file: each command in order, reassigning the image. */
    method Apply(im: Image, cmds: seq<Cmd>) returns (out: Image)
      modifies this
      ensures (Globals(), out) == Run(old(Globals()), im, cmds, blend)
    {
      out := im;
      for i := 0 to |cmds|
        invariant (Globals(), out) == Run(old(Globals()), im, cmds[..i], blend)
      {
        assert cmds[..i + 1][..i] == cmds[..i];
        match cmds[i]
        case Invert =>
          out := InvertImage(out);
        case Threshold(level) =>
          out := SetThreshold(out, level);
        case SetBackground(color) =>
          var _ := SetBackground(color);
      }
      assert cmds[..|cmds|] == cmds;
    }
  }
}
