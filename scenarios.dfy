/**
 * Whole command lines run through the interpreter, with file names that
 * expand to themselves.
 */
module Scenarios {
  import opened Wrappers
  import opened Text
  import opened Raster
  import opened Directive
  import opened Pipeline
  import opened Interpreter

  /** A pattern that matches exactly the file it names. */
  function Literal(pattern: string): seq<string> { [pattern] }

  lemma ThresholdDirective()
    ensures DirectiveText("-t32") == "t32"
    ensures NoEmptyTokenReached(Split("t32", ','))
    ensures ParseDirective("t32") == Success([Threshold(32)])
  {
    assert Lower("t32") == "t32";
    assert "-t32"[1..] == "t32";
    SplitNoSeparator("t32", ',');
    assert IntToString(32) == "32";
    ThresholdToken(32);
    assert "t" + "32" == "t32";
    assert ParseToken("t32") == Success(Some(Threshold(32)));
    assert ["t32"][1..] == [];
    assert Split("t32", ',') == ["t32"];
    assert ParseTokens(["t32"][1..]) == Success([]);
    assert Entry(Some(Threshold(32))) + [] == [Threshold(32)];
  }

  /** A directive of one token without commas parses to that token's entry. */
  lemma OneToken(tok: string)
    requires tok != [] && ',' !in tok && ParseToken(tok).Success?
    ensures NoEmptyTokenReached(Split(tok, ','))
    ensures ParseDirective(tok) == Success(Entry(ParseToken(tok).value))
  {
    SplitNoSeparator(tok, ',');
    assert [tok][1..] == [];
    assert ParseTokens([tok][1..]) == Success([]);
    assert Entry(ParseToken(tok).value) + [] == Entry(ParseToken(tok).value);
  }

  const Black := Rgb(0, 0, 0)

  lemma InvertDirective()
    ensures DirectiveText("-i") == "i"
    ensures NoEmptyTokenReached(Split("i", ','))
    ensures ParseDirective("i") == Success([Invert])
  {
    assert "-i"[1..] == "i";
    assert Lower("i") == "i";
    OneToken("i");
  }

  lemma BlackDirective()
    ensures DirectiveText("-B000000") == "b000000"
    ensures NoEmptyTokenReached(Split("b000000", ','))
    ensures ParseDirective("b000000") == Success([SetBackground(Black)])
  {
    assert "-B000000"[1..] == "B000000";
    assert Lower("B000000")[0] == 'b';
    assert Lower("B000000") == "b000000";
    assert Hex2(0) == "00";
    assert "b" + HexColor(Black) == "b000000";
    BackgroundToken(Black);
    OneToken("b000000");
  }

  /** One run of a single-token directive: its parse. */
  function ParsedList(d: string): seq<Cmd>
    requires d != [] && NoEmptyTokenReached(Split(DirectiveText(d), ','))
    requires ParseDirective(DirectiveText(d)).Success?
  {
    ParseDirective(DirectiveText(d)).value
  }

  /**
   * One directive and one file, from any configuration: the file is read as
   * it currently is, backed up, and overwritten with the converted image.
   */
  lemma OneGroup(d: string, f: string, cfg: Config, trace: seq<Event>, open: string -> Image, blend: (Pixel, Rgb) -> Pixel)
    requires d != [] && d[0] == '-' && f != [] && f[0] != '-'
    requires NoEmptyTokenReached(Split(DirectiveText(d), ',')) && ParseDirective(DirectiveText(d)).Success?
    ensures NoCrash([d, f], cfg.directive.Some?, Literal)
    ensures var cs := ParsedList(d);
      var original := Content(open, cfg.disk, f);
      var r := Run(cfg.state, original, cs, blend);
      Interp([d, f], cfg, trace, Literal, open, blend) ==
        Outcome(trace + [Converted(f, r.1, cs, DirectiveText(d))], 0,
                Config(r.0, cfg.disk[f + ".bak" := original][f := r.1], cs, Some(DirectiveText(d))))
  {
    assert Expand([f], Literal) == [f];
    assert [f][..0] == [];
    assert [d] + [f] == [d, f];
    DirectiveGovernsFiles(d, [f], cfg, trace, Literal, open, blend);
  }

  /**
   * Two groups of one directive and one file each: the second group starts
   * from the configuration and the trace the first one left.
   */
  lemma TwoGroups(d1: string, f1: string, d2: string, f2: string, open: string -> Image, blend: (Pixel, Rgb) -> Pixel)
    requires d1 != [] && d1[0] == '-' && d2 != [] && d2[0] == '-'
    requires f1 != [] && f1[0] != '-' && f2 != [] && f2[0] != '-'
    requires NoEmptyTokenReached(Split(DirectiveText(d1), ',')) && ParseDirective(DirectiveText(d1)).Success?
    requires NoEmptyTokenReached(Split(DirectiveText(d2), ',')) && ParseDirective(DirectiveText(d2)).Success?
    ensures NoCrash([d1, f1, d2, f2], false, Literal)
    ensures var o1 := Interp([d1, f1], Start, [], Literal, open, blend);
      o1.exit == 0 && NoCrash([d2, f2], true, Literal) &&
      Interp([d1, f1, d2, f2], Start, [], Literal, open, blend) == Interp([d2, f2], o1.config, o1.trace, Literal, open, blend)
  {
    var g1, g2 := [d1, f1], [d2, f2];
    assert g1 + g2 == [d1, f1, d2, f2];
    OneGroup(d1, f1, Start, [], open, blend);
    OneGroup(d2, f2, Start, [], open, blend);
    assert NoCrash(g1 + g2, false, Literal) by {
      NoCrashAppend(g1, g2, false);
    }
    InterpAppend(g1, g2, Start, [], Literal, open, blend);
  }

  /** A group that parses and a crash-free continuation make a crash-free whole. */
  lemma NoCrashAppend(g1: seq<string>, g2: seq<string>, started: bool)
    requires |g1| == 2 && g1[0] != [] && g1[0][0] == '-' && g1[1] != [] && g1[1][0] != '-'
    requires NoEmptyTokenReached(Split(DirectiveText(g1[0]), ',')) && ParseDirective(DirectiveText(g1[0])).Success?
    requires NoCrash(g2, true, Literal)
    ensures NoCrash(g1 + g2, started, Literal)
  {
    assert (g1 + g2)[1..] == [g1[1]] + g2;
    assert ([g1[1]] + g2)[1..] == g2;
  }

  /** `-i f` from any configuration: `f` as it currently is, inverted. */
  lemma InvertGroup(f: string, cfg: Config, trace: seq<Event>, open: string -> Image, blend: (Pixel, Rgb) -> Pixel)
    requires f != [] && f[0] != '-'
    ensures NoCrash(["-i", f], cfg.directive.Some?, Literal)
    ensures var original := Content(open, cfg.disk, f);
      var inverted := InvertImage(original, cfg.state.background, blend);
      Interp(["-i", f], cfg, trace, Literal, open, blend) ==
        Outcome(trace + [Converted(f, inverted, [Invert], "i")], 0,
                Config(cfg.state, cfg.disk[f + ".bak" := original][f := inverted], [Invert], Some("i")))
  {
    InvertDirective();
    OneGroup("-i", f, cfg, trace, open, blend);
    assert [Invert][..0] == [];
  }

  /** `-t32 f` from any configuration: `f` as it currently is, remapped at 32. */
  lemma ThresholdGroup(f: string, cfg: Config, trace: seq<Event>, open: string -> Image, blend: (Pixel, Rgb) -> Pixel)
    requires f != [] && f[0] != '-'
    ensures NoCrash(["-t32", f], cfg.directive.Some?, Literal)
    ensures var original := Content(open, cfg.disk, f);
      var remapped := ThresholdImage(original, 32);
      Interp(["-t32", f], cfg, trace, Literal, open, blend) ==
        Outcome(trace + [Converted(f, remapped, [Threshold(32)], "t32")], 0,
                Config(cfg.state.(threshold := 32), cfg.disk[f + ".bak" := original][f := remapped], [Threshold(32)], Some("t32")))
  {
    ThresholdDirective();
    OneGroup("-t32", f, cfg, trace, open, blend);
    assert [Threshold(32)][..0] == [];
  }

  /** `-B000000 f` from any configuration: black becomes the background and `f` is saved unchanged. */
  lemma BlackGroup(f: string, cfg: Config, trace: seq<Event>, open: string -> Image, blend: (Pixel, Rgb) -> Pixel)
    requires f != [] && f[0] != '-'
    ensures NoCrash(["-B000000", f], cfg.directive.Some?, Literal)
    ensures var original := Content(open, cfg.disk, f);
      Interp(["-B000000", f], cfg, trace, Literal, open, blend) ==
        Outcome(trace + [Converted(f, original, [SetBackground(Black)], "b000000")], 0,
                Config(cfg.state.(background := Black), cfg.disk[f + ".bak" := original][f := original],
                       [SetBackground(Black)], Some("b000000")))
  {
    BlackDirective();
    OneGroup("-B000000", f, cfg, trace, open, blend);
    assert [SetBackground(Black)][..0] == [];
  }

  /**
   * `-t32` on a pixel with channels 20, 200 and 32: the dark channels
   * become 0 and the bright one stays 200. The original is kept as the
   * backup.
   */
  lemma ThresholdEndToEnd(open: string -> Image, blend: (Pixel, Rgb) -> Pixel)
    requires open("a.png") == Image(RGB, [[20, 200, 32]])
    ensures NoCrash(["-t32", "a.png"], false, Literal)
    ensures Interp(["-t32", "a.png"], Start, [], Literal, open, blend) ==
      Outcome([Converted("a.png", Image(RGB, [[0, 200, 0]]), [Threshold(32)], "t32")], 0,
              Config(State(32, White), map["a.png.bak" := open("a.png"), "a.png" := Image(RGB, [[0, 200, 0]])],
                     [Threshold(32)], Some("t32")))
  {
    ThresholdFromStart("a.png", open, blend);
    assert "a.png" + ".bak" == "a.png.bak";
  }

  /** `-t32 f` at program start, on the one-pixel image of `ThresholdEndToEnd`. */
  lemma ThresholdFromStart(f: string, open: string -> Image, blend: (Pixel, Rgb) -> Pixel)
    requires f != [] && f[0] != '-' && open(f) == Image(RGB, [[20, 200, 32]])
    ensures NoCrash(["-t32", f], false, Literal)
    ensures Interp(["-t32", f], Start, [], Literal, open, blend) ==
      Outcome([Converted(f, Image(RGB, [[0, 200, 0]]), [Threshold(32)], "t32")], 0,
              Config(State(32, White), map[f + ".bak" := open(f), f := Image(RGB, [[0, 200, 0]])],
                     [Threshold(32)], Some("t32")))
  {
    ThresholdGroup(f, Start, [], open, blend);
    assert ThresholdImage(open(f), 32) == Image(RGB, [[0, 200, 0]]) by {
      assert ThresholdImage(open(f), 32).pixels[0] == [0, 200, 0];
    }
    assert Content(open, Start.disk, f) == open(f);
  }

  /**
   * `-i f1 -t32 f2`: `f1` is inverted and saved, then `f2` is read as the
   * files stand at that point and remapped at 32.
   */
  lemma InvertThenThreshold(f1: string, f2: string, open: string -> Image, blend: (Pixel, Rgb) -> Pixel)
    requires f1 != [] && f1[0] != '-' && f2 != [] && f2[0] != '-'
    ensures NoCrash(["-i", f1, "-t32", f2], false, Literal)
    ensures var o := Interp(["-i", f1, "-t32", f2], Start, [], Literal, open, blend);
      var inverted := InvertImage(open(f1), White, blend);
      var disk1 := map[f1 + ".bak" := open(f1)][f1 := inverted];
      var second := Content(open, disk1, f2);
      o.exit == 0 && o.config.state == State(32, White) &&
      o.trace == [Converted(f1, inverted, [Invert], "i"), Converted(f2, ThresholdImage(second, 32), [Threshold(32)], "t32")] &&
      o.config.disk == disk1[f2 + ".bak" := second][f2 := ThresholdImage(second, 32)]
  {
    InvertDirective();
    ThresholdDirective();
    TwoGroups("-i", f1, "-t32", f2, open, blend);
    InvertGroup(f1, Start, [], open, blend);
    var o1 := Interp(["-i", f1], Start, [], Literal, open, blend);
    ThresholdGroup(f2, o1.config, o1.trace, open, blend);
  }

  /**
   * `-B000000 f1 -i f2`: `f1` is saved unchanged and black becomes the
   * background; `f2` is then inverted with that background in force.
   */
  lemma BlackThenInvert(f1: string, f2: string, open: string -> Image, blend: (Pixel, Rgb) -> Pixel)
    requires f1 != [] && f1[0] != '-' && f2 != [] && f2[0] != '-'
    ensures NoCrash(["-B000000", f1, "-i", f2], false, Literal)
    ensures var o := Interp(["-B000000", f1, "-i", f2], Start, [], Literal, open, blend);
      var disk1 := map[f1 + ".bak" := open(f1)][f1 := open(f1)];
      o.exit == 0 && o.config.state == State(0, Black) &&
      o.trace == [Converted(f1, open(f1), [SetBackground(Black)], "b000000"),
                  Converted(f2, InvertImage(Content(open, disk1, f2), Black, blend), [Invert], "i")]
  {
    BlackDirective();
    InvertDirective();
    TwoGroups("-B000000", f1, "-i", f2, open, blend);
    BlackGroup(f1, Start, [], open, blend);
    var o1 := Interp(["-B000000", f1], Start, [], Literal, open, blend);
    InvertGroup(f2, o1.config, o1.trace, open, blend);
  }

  /**
   * `-i image1.png -t32 image2.png`: the first file is inverted, the second
   * thresholded at 32, each with its own list.
   */
  lemma InvertOneThresholdAnother(open: string -> Image, blend: (Pixel, Rgb) -> Pixel)
    ensures NoCrash(["-i", "image1.png", "-t32", "image2.png"], false, Literal)
    ensures var o := Interp(["-i", "image1.png", "-t32", "image2.png"], Start, [], Literal, open, blend);
      o.exit == 0 && o.config.state == State(32, White) &&
      o.trace == [Converted("image1.png", InvertImage(open("image1.png"), White, blend), [Invert], "i"),
                  Converted("image2.png", ThresholdImage(open("image2.png"), 32), [Threshold(32)], "t32")]
  {
    InvertThenThreshold("image1.png", "image2.png", open, blend);
    assert "image2.png"[5] != "image1.png"[5];
    assert |"image2.png"| != |"image1.png" + ".bak"|;
  }

  /**
   * `-i a.png -t32 a.png`: the second group reads back what the first one
   * saved, so it thresholds the inverted image; the backup left at the end
   * holds the inverted image, not the original.
   */
  lemma SameFileTwice(open: string -> Image, blend: (Pixel, Rgb) -> Pixel)
    ensures NoCrash(["-i", "a.png", "-t32", "a.png"], false, Literal)
    ensures var o := Interp(["-i", "a.png", "-t32", "a.png"], Start, [], Literal, open, blend);
      var inverted := InvertImage(open("a.png"), White, blend);
      o.exit == 0 &&
      o.trace == [Converted("a.png", inverted, [Invert], "i"),
                  Converted("a.png", ThresholdImage(inverted, 32), [Threshold(32)], "t32")] &&
      Content(open, o.config.disk, "a.png") == ThresholdImage(inverted, 32) &&
      Content(open, o.config.disk, "a.png.bak") == inverted
  {
    InvertThenThreshold("a.png", "a.png", open, blend);
    assert "a.png" + ".bak" == "a.png.bak";
  }

  /**
   * `-B000000 a.png -i b.png`: the black background set for the first file
   * is still in force when the second, an RGBA image, is inverted, so it is
   * flattened onto black and comes out RGB. The first file passes through
   * unchanged.
   */
  lemma BackgroundCarriesOver(open: string -> Image, blend: (Pixel, Rgb) -> Pixel)
    requires open("b.png").mode == RGBA
    ensures NoCrash(["-B000000", "a.png", "-i", "b.png"], false, Literal)
    ensures var o := Interp(["-B000000", "a.png", "-i", "b.png"], Start, [], Literal, open, blend);
      o.exit == 0 && o.config.state == State(0, Black) &&
      o.trace == [Converted("a.png", open("a.png"), [SetBackground(Black)], "b000000"),
                  Converted("b.png", InvertBands(Flatten(open("b.png"), Black, blend)), [Invert], "i")]
  {
    BlackThenInvert("a.png", "b.png", open, blend);
    assert "b.png"[0] != "a.png"[0];
    assert |"b.png"| != |"a.png" + ".bak"|;
  }

  lemma DecimalOf300()
    ensures IntToString(300) == "300"
  {
    assert Decimal(3) == "3";
    assert Decimal(30) == Decimal(3) + "0";
    assert Decimal(300) == Decimal(30) + "0";
  }

  /**
   * `- i *.png *.jpg`, as the help text writes its last example: the bare `-`
   * is an empty directive, whose single empty token crashes `cmd[0]`.
   */
  lemma SpacedHelpExampleCrashes(glob: string -> seq<string>)
    ensures !NoCrash(["-", "i", "*.png", "*.jpg"], false, glob)
  {
    assert DirectiveText("-") == [];
    assert Split([], ',') == [[]];
  }

  /** `t300` on its own: an integer, but out of range. */
  lemma Threshold300Token()
    ensures ParseToken("t300") == Failure(ThresholdOutOfRange)
  {
    DecimalOf300();
    ThresholdToken(300);
    assert "t" + "300" == "t300";
  }

  lemma OutOfRangeDirective()
    ensures DirectiveText("-i,t300") == "i,t300"
    ensures NoEmptyTokenReached(Split("i,t300", ','))
    ensures ParseDirective("i,t300") == Failure(ThresholdOutOfRange)
  {
    assert "-i,t300"[1..] == "i,t300";
    LowerUnchanged("i,t300");
    assert Split("i,t300", ',') == ["i", "t300"] by {
      SplitPrefix("i", "t300", ',');
      SplitNoSeparator("t300", ',');
      assert "i" + [','] + "t300" == "i,t300";
    }
    Threshold300Token();
    assert ParseTokens(["i", "t300"]) == Failure(ThresholdOutOfRange) by {
      assert ParseToken("i") == Success(Some(Invert));
      assert ["i", "t300"][1..] == ["t300"];
      assert ParseTokens(["t300"]) == Failure(ThresholdOutOfRange);
    }
  }

  /**
   * A group that converts one file, then a directive that fails: the program
   * exits with that directive's code and whatever follows is never looked at.
   */
  lemma GroupThenFailure(d1: string, f1: string, d2: string, rest: seq<string>,
                         open: string -> Image, blend: (Pixel, Rgb) -> Pixel)
    requires d1 != [] && d1[0] == '-' && f1 != [] && f1[0] != '-' && d2 != [] && d2[0] == '-'
    requires NoEmptyTokenReached(Split(DirectiveText(d1), ',')) && ParseDirective(DirectiveText(d1)).Success?
    requires NoEmptyTokenReached(Split(DirectiveText(d2), ',')) && ParseDirective(DirectiveText(d2)).Failure?
    ensures NoCrash([d1, f1, d2] + rest, false, Literal)
    ensures var cs := ParsedList(d1);
      var r := Run(Defaults, open(f1), cs, blend);
      Interp([d1, f1, d2] + rest, Start, [], Literal, open, blend) ==
        Outcome([Converted(f1, r.1, cs, DirectiveText(d1))], ParseDirective(DirectiveText(d2)).error,
                Config(r.0, map[f1 + ".bak" := open(f1), f1 := r.1], cs, Some(DirectiveText(d1))))
  {
    var g1, g2 := [d1, f1], [d2] + rest;
    var cs := ParsedList(d1);
    var r := Run(Defaults, open(f1), cs, blend);
    var cfg1 := Config(r.0, map[f1 + ".bak" := open(f1), f1 := r.1], cs, Some(DirectiveText(d1)));
    FailingDirectiveHalts(d2, rest, cfg1, [Converted(f1, r.1, cs, DirectiveText(d1))], Literal, open, blend);
    NoCrashAppend(g1, g2, false);
    assert g1 + g2 == [d1, f1, d2] + rest;
    InterpAppend(g1, g2, Start, [], Literal, open, blend);
    FirstGroup(d1, f1, open, blend);
  }

  /** The first group of a run, from the program's starting configuration. */
  lemma FirstGroup(d: string, f: string, open: string -> Image, blend: (Pixel, Rgb) -> Pixel)
    requires d != [] && d[0] == '-' && f != [] && f[0] != '-'
    requires NoEmptyTokenReached(Split(DirectiveText(d), ',')) && ParseDirective(DirectiveText(d)).Success?
    ensures NoCrash([d, f], false, Literal)
    ensures var cs := ParsedList(d);
      var r := Run(Defaults, open(f), cs, blend);
      Interp([d, f], Start, [], Literal, open, blend) ==
        Outcome([Converted(f, r.1, cs, DirectiveText(d))], 0,
                Config(r.0, map[f + ".bak" := open(f), f := r.1], cs, Some(DirectiveText(d))))
  {
    OneGroup(d, f, Start, [], open, blend);
    assert Content(open, Start.disk, f) == open(f);
  }

  /**
   * `-i a.png -i,t300 ...`: `a.png` is converted; the second directive stops
   * the program with exit code 2 before any later argument is touched.
   */
  lemma OutOfRangeHalts(rest: seq<string>, open: string -> Image, blend: (Pixel, Rgb) -> Pixel)
    ensures NoCrash(["-i", "a.png", "-i,t300"] + rest, false, Literal)
    ensures var o := Interp(["-i", "a.png", "-i,t300"] + rest, Start, [], Literal, open, blend);
      o.exit == ThresholdOutOfRange && o.config.state == Defaults &&
      o.trace == [Converted("a.png", InvertImage(open("a.png"), White, blend), [Invert], "i")]
  {
    InvertDirective();
    OutOfRangeDirective();
    GroupThenFailure("-i", "a.png", "-i,t300", rest, open, blend);
    assert [Invert][..0] == [];
  }
}
