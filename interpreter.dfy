/**
 * The main program: a left-to-right walk over the command-line arguments.
 * A token starting with `-` replaces the current command list; any other
 * token is expanded to file names and each file is converted with the
 * current list. File system access is abstract: `glob` expands a pattern
 * and `open` gives each file's image before the run. What the run itself
 * writes (a backup and the converted image per file) is kept in a map, and a
 * file read again later in the run is read from there. Each conversion is
 * also recorded as one event.
 */
module Interpreter {
  import opened Wrappers
  import opened Text
  import opened Raster
  import opened Directive
  import opened Pipeline

  /**
   * What the loop carries from token to token: the pipeline globals, the
   * files the run has written so far (backups and converted images), the
   * current command list and the directive text it was parsed from (None
   * until the first directive, when the source's `commands` is unbound).
   */
  datatype Config = Config(state: State, disk: map<string, Image>, commands: seq<Cmd>, directive: Option<string>)

  /** One file converted: backed up and overwritten with `image`. */
  datatype Event = Converted(file: string, image: Image, commands: seq<Cmd>, directive: string)

  /** The conversions done, the exit status and the final configuration. */
  datatype Outcome = Outcome(trace: seq<Event>, exit: ExitCode, config: Config)

  /** The program's starting configuration. */
  const Start := Config(Defaults, map[], [], None)

  /** The directive text of a `-` token: the rest of the token, lower-cased. */
  function DirectiveText(arg: string): string
    requires arg != []
  {
    Lower(arg[1..])
  }

  /**
   * The exact condition under which the argument loop does not crash: no
   * empty argument (`arg[0]`), no empty directive token reached (`cmd[0]`),
   * and no file converted before the first directive (`commands` unbound).
   */
  predicate NoCrash(args: seq<string>, started: bool, glob: string -> seq<string>)
    decreases |args|
  {
    args == [] ||
    (args[0] != [] &&
     if args[0][0] == '-' then
       var toks := Split(DirectiveText(args[0]), ',');
       NoEmptyTokenReached(toks) && (ParseTokens(toks).Failure? || NoCrash(args[1..], true, glob))
     else
       (started || glob(args[0]) == []) && NoCrash(args[1..], started, glob))
  }

  /** The image stored under `f`: what the run wrote there, else what was there before. */
  function Content(open: string -> Image, disk: map<string, Image>, f: string): Image
  {
    if f in disk then disk[f] else open(f)
  }

  /**
   * One file converted: it is read as it currently is, renamed to
   * `<file>.bak`, run through the command list, and the result is saved
   * under the file's own name.
   */
  function ConvertFile(cfg: Config, f: string, open: string -> Image, blend: (Pixel, Rgb) -> Pixel): (r: (Config, Event))
    requires cfg.directive.Some?
    ensures r.0.commands == cfg.commands && r.0.directive == cfg.directive
    ensures r.1.file == f && r.1.commands == cfg.commands && r.1.directive == cfg.directive.value
  {
    var original := Content(open, cfg.disk, f);
    var done := Run(cfg.state, original, cfg.commands, blend);
    (cfg.(state := done.0, disk := cfg.disk[f + ".bak" := original][f := done.1]),
     Converted(f, done.1, cfg.commands, cfg.directive.value))
  }

  /**
   * The effect of one conversion on the files: the file holds the converted
   * image, which is the command list applied to what the file held; the
   * backup holds what the file held; every other file is as it was.
   */
  lemma ConvertFileEffect(cfg: Config, f: string, g: string, open: string -> Image, blend: (Pixel, Rgb) -> Pixel)
    requires cfg.directive.Some?
    ensures var r := ConvertFile(cfg, f, open, blend);
      var done := Run(cfg.state, Content(open, cfg.disk, f), cfg.commands, blend);
      r.1.image == done.1 && r.0.state == done.0 &&
      Content(open, r.0.disk, f) == r.1.image &&
      Content(open, r.0.disk, f + ".bak") == Content(open, cfg.disk, f) &&
      (g != f && g != f + ".bak" ==> Content(open, r.0.disk, g) == Content(open, cfg.disk, g))
  {
    assert f + ".bak" != f by {
      assert |f + ".bak"| != |f|;
    }
  }

  /**
   * The files of one file token converted in order, each starting from the
   * state and the files the previous one left.
   */
  function ConvertFiles(files: seq<string>, cfg: Config, open: string -> Image, blend: (Pixel, Rgb) -> Pixel): (r: (Config, seq<Event>))
    requires files == [] || cfg.directive.Some?
    ensures r.0.commands == cfg.commands && r.0.directive == cfg.directive
    decreases |files|
  {
    if files == [] then (cfg, [])
    else
      var prev := ConvertFiles(files[..|files| - 1], cfg, open, blend);
      var one := ConvertFile(prev.0, files[|files| - 1], open, blend);
      (one.0, prev.1 + [one.1])
  }

  /**
   * The files the conversions in `trace` have written, with their contents,
   * defined from the history alone: each conversion backs its file up with
   * the content it had, then stores the converted image under its name.
   */
  function Saved(open: string -> Image, trace: seq<Event>): map<string, Image>
    decreases |trace|
  {
    if trace == [] then map[]
    else
      var before := Saved(open, trace[..|trace| - 1]);
      var last := trace[|trace| - 1];
      before[last.file + ".bak" := Content(open, before, last.file)][last.file := last.image]
  }

  /** What opening `f` yields once the conversions in `trace` are done. */
  function Read(open: string -> Image, trace: seq<Event>, f: string): Image
  {
    Content(open, Saved(open, trace), f)
  }

  /**
   * After a conversion, its file holds the converted image, its backup holds
   * what the file held before, and every other file is as it was.
   */
  lemma ReadAfterConvert(open: string -> Image, trace: seq<Event>, ev: Event, g: string)
    ensures Read(open, trace + [ev], ev.file) == ev.image
    ensures Read(open, trace + [ev], ev.file + ".bak") == Read(open, trace, ev.file)
    ensures g != ev.file && g != ev.file + ".bak" ==> Read(open, trace + [ev], g) == Read(open, trace, g)
  {
    assert (trace + [ev])[..|trace|] == trace;
    assert ev.file + ".bak" != ev.file by {
      assert |ev.file + ".bak"| != |ev.file|;
    }
  }

  /** A file the run has neither converted nor used as a backup still holds its original image. */
  lemma {:induction false} ReadUntouched(open: string -> Image, trace: seq<Event>, f: string)
    requires forall k :: 0 <= k < |trace| ==> trace[k].file != f && trace[k].file + ".bak" != f
    ensures Read(open, trace, f) == open(f)
    decreases |trace|
  {
    if trace != [] {
      var init, last := trace[..|trace| - 1], trace[|trace| - 1];
      assert trace == init + [last];
      ReadUntouched(open, init, f);
      ReadAfterConvert(open, init, last, f);
    }
  }

  /**
   * The files converting leaves behind are exactly those the history of
   * conversions determines: if the files so far match the history, they
   * still match it once the new conversions are added to it.
   */
  lemma {:induction false} ConvertFilesSaved(files: seq<string>, cfg: Config, open: string -> Image, trace: seq<Event>,
                                             blend: (Pixel, Rgb) -> Pixel)
    requires files == [] || cfg.directive.Some?
    requires cfg.disk == Saved(open, trace)
    ensures ConvertFiles(files, cfg, open, blend).0.disk == Saved(open, trace + ConvertFiles(files, cfg, open, blend).1)
    decreases |files|
  {
    if files == [] {
      assert trace + [] == trace;
    } else {
      var prev := ConvertFiles(files[..|files| - 1], cfg, open, blend);
      ConvertFilesSaved(files[..|files| - 1], cfg, open, trace, blend);
      var one := ConvertFile(prev.0, files[|files| - 1], open, blend);
      assert trace + (prev.1 + [one.1]) == (trace + prev.1) + [one.1];
      SavedStep(open, trace + prev.1, one.1);
    }
  }

  /** One step of `Saved`. */
  lemma SavedStep(open: string -> Image, trace: seq<Event>, ev: Event)
    ensures var before := Saved(open, trace);
      Saved(open, trace + [ev]) == before[ev.file + ".bak" := Content(open, before, ev.file)][ev.file := ev.image]
  {
    assert (trace + [ev])[..|trace|] == trace;
  }

  /**
   * One event per file, in the files' order, each recording the current
   * command list and its directive text.
   */
  lemma {:induction false} ConvertFilesEvents(files: seq<string>, cfg: Config, open: string -> Image, blend: (Pixel, Rgb) -> Pixel)
    requires cfg.directive.Some?
    ensures var evs := ConvertFiles(files, cfg, open, blend).1;
      |evs| == |files| &&
      forall k :: 0 <= k < |files| ==>
        evs[k].file == files[k] && evs[k].commands == cfg.commands && evs[k].directive == cfg.directive.value
    decreases |files|
  {
    if files != [] {
      ConvertFilesEvents(files[..|files| - 1], cfg, open, blend);
    }
  }

  /**
   * Each event's image is the command list applied, from the state the
   * previous files left, to the file as the conversions before it left it:
   * a name converted earlier in the run is read back from what was saved.
   */
  lemma {:induction false} ConvertFilesImages(files: seq<string>, cfg: Config, open: string -> Image,
                                              blend: (Pixel, Rgb) -> Pixel, k: nat)
    requires cfg.directive.Some? && k < |files|
    ensures var before := ConvertFiles(files[..k], cfg, open, blend).0;
      |ConvertFiles(files, cfg, open, blend).1| == |files| &&
      ConvertFiles(files, cfg, open, blend).1[k].image ==
        Run(before.state, Content(open, before.disk, files[k]), cfg.commands, blend).1
    decreases |files|
  {
    ConvertFilesEvents(files, cfg, open, blend);
    var init := files[..|files| - 1];
    if k < |files| - 1 {
      ConvertFilesImages(init, cfg, open, blend, k);
      assert init[..k] == files[..k];
      ConvertFilesEvents(init, cfg, open, blend);
    } else {
      assert init == files[..k];
      ConvertFileEffect(ConvertFiles(init, cfg, open, blend).0, files[k], files[k], open, blend);
    }
  }

  /** Converting one more file: `ConvertFiles` on a prefix one file longer. */
  lemma ConvertFilesSnoc(files: seq<string>, j: nat, cfg: Config, open: string -> Image, blend: (Pixel, Rgb) -> Pixel)
    requires j < |files| && cfg.directive.Some?
    ensures var prev := ConvertFiles(files[..j], cfg, open, blend);
      var one := ConvertFile(prev.0, files[j], open, blend);
      ConvertFiles(files[..j + 1], cfg, open, blend) == (one.0, prev.1 + [one.1])
  {
    assert files[..j + 1][..j] == files[..j];
  }

  /** The argument loop, from configuration `cfg` with `trace` already done. */
  function Interp(args: seq<string>, cfg: Config, trace: seq<Event>, glob: string -> seq<string>,
                  open: string -> Image, blend: (Pixel, Rgb) -> Pixel): (o: Outcome)
    requires NoCrash(args, cfg.directive.Some?, glob)
    ensures |trace| <= |o.trace| && o.trace[..|trace|] == trace
    ensures 0 <= o.exit <= 4
    ensures cfg.directive.Some? ==> o.config.directive.Some?
    ensures o.config.directive.None? ==> o.trace == trace && o.config.commands == cfg.commands
    decreases |args|
  {
    if args == [] then Outcome(trace, 0, cfg)
    else if args[0][0] == '-' then
      var text := DirectiveText(args[0]);
      match ParseDirective(text)
      case Failure(e) => Outcome(trace, e, cfg)
      case Success(cs) => Interp(args[1..], cfg.(commands := cs, directive := Some(text)), trace, glob, open, blend)
    else
      var done := ConvertFiles(glob(args[0]), cfg, open, blend);
      Interp(args[1..], done.0, trace + done.1, glob, open, blend)
  }

  /**
   * Over a whole run, the files written are those the history of
   * conversions determines.
   */
  lemma {:induction false} InterpSaved(args: seq<string>, cfg: Config, trace: seq<Event>, glob: string -> seq<string>,
                                       open: string -> Image, blend: (Pixel, Rgb) -> Pixel)
    requires NoCrash(args, cfg.directive.Some?, glob)
    requires cfg.disk == Saved(open, trace)
    ensures var o := Interp(args, cfg, trace, glob, open, blend);
      o.config.disk == Saved(open, o.trace)
    decreases |args|
  {
    if args != [] {
      if args[0][0] == '-' {
        var text := DirectiveText(args[0]);
        if ParseDirective(text).Success? {
          InterpSaved(args[1..], cfg.(commands := ParseDirective(text).value, directive := Some(text)), trace, glob, open, blend);
        }
      } else {
        ConvertFilesSaved(glob(args[0]), cfg, open, trace, blend);
        var done := ConvertFiles(glob(args[0]), cfg, open, blend);
        InterpSaved(args[1..], done.0, trace + done.1, glob, open, blend);
      }
    }
  }

  /** The file names a run of file tokens expands to, in order. */
  function Expand(args: seq<string>, glob: string -> seq<string>): seq<string>
    decreases |args|
  {
    if args == [] then [] else glob(args[0]) + Expand(args[1..], glob)
  }

  predicate AllFileTokens(args: seq<string>)
  {
    forall k :: 0 <= k < |args| ==> args[k] != [] && args[k][0] != '-'
  }

  /**
   * The state and the files carry over from file to file: converting two
   * runs of files back to back is converting them as one run.
   */
  lemma {:induction false} ConvertFilesAppend(f1: seq<string>, f2: seq<string>, cfg: Config,
                                              open: string -> Image, blend: (Pixel, Rgb) -> Pixel)
    requires cfg.directive.Some?
    ensures var a := ConvertFiles(f1, cfg, open, blend);
      var b := ConvertFiles(f2, a.0, open, blend);
      ConvertFiles(f1 + f2, cfg, open, blend) == (b.0, a.1 + b.1)
    decreases |f2|
  {
    var a := ConvertFiles(f1, cfg, open, blend);
    if f2 == [] {
      assert f1 + f2 == f1;
      assert a.1 + [] == a.1;
    } else {
      var init, last := f2[..|f2| - 1], f2[|f2| - 1];
      assert (f1 + f2)[..|f1 + f2| - 1] == f1 + init;
      assert (f1 + f2)[|f1 + f2| - 1] == last;
      ConvertFilesAppend(f1, init, cfg, open, blend);
      var b := ConvertFiles(init, a.0, open, blend);
      var one := ConvertFile(b.0, last, open, blend);
      assert (a.1 + b.1) + [one.1] == a.1 + (b.1 + [one.1]);
    }
  }

  /**
   * The argument loop is sequential: running `a + b` is running `a`, then,
   * unless `a` exited, running `b` from where `a` left off.
   */
  lemma {:induction false} InterpAppend(a: seq<string>, b: seq<string>, cfg: Config, trace: seq<Event>,
                                        glob: string -> seq<string>, open: string -> Image, blend: (Pixel, Rgb) -> Pixel)
    requires NoCrash(a + b, cfg.directive.Some?, glob)
    ensures NoCrash(a, cfg.directive.Some?, glob)
    ensures var o := Interp(a, cfg, trace, glob, open, blend);
      (o.exit == 0 ==> NoCrash(b, o.config.directive.Some?, glob)) &&
      Interp(a + b, cfg, trace, glob, open, blend) ==
        if o.exit == 0 then Interp(b, o.config, o.trace, glob, open, blend) else o
    decreases |a|
  {
    if a == [] {
      assert a + b == b;
    } else {
      assert (a + b)[0] == a[0];
      assert (a + b)[1..] == a[1..] + b;
      if a[0][0] == '-' {
        var text := DirectiveText(a[0]);
        if ParseDirective(text).Success? {
          var cs := ParseDirective(text).value;
          InterpAppend(a[1..], b, cfg.(commands := cs, directive := Some(text)), trace, glob, open, blend);
        }
      } else {
        var done := ConvertFiles(glob(a[0]), cfg, open, blend);
        InterpAppend(a[1..], b, done.0, trace + done.1, glob, open, blend);
      }
    }
  }

  /** One file token: its files are converted and the loop goes on. */
  lemma InterpFileToken(args: seq<string>, cfg: Config, trace: seq<Event>,
                        glob: string -> seq<string>, open: string -> Image, blend: (Pixel, Rgb) -> Pixel)
    requires args != [] && args[0] != [] && args[0][0] != '-'
    requires NoCrash(args, cfg.directive.Some?, glob)
    ensures NoCrash(args[1..], cfg.directive.Some?, glob)
    ensures cfg.directive.Some? || glob(args[0]) == []
    ensures var done := ConvertFiles(glob(args[0]), cfg, open, blend);
      Interp(args, cfg, trace, glob, open, blend) == Interp(args[1..], done.0, trace + done.1, glob, open, blend)
  {
  }

  /** Dropping the first of several file tokens leaves file tokens. */
  lemma AllFileTokensTail(args: seq<string>)
    requires args != [] && AllFileTokens(args)
    ensures args[0] != [] && args[0][0] != '-' && AllFileTokens(args[1..])
  {
    forall k | 0 <= k < |args| - 1 ensures args[1..][k] != [] && args[1..][k][0] != '-' {
      assert args[1..][k] == args[k + 1];
    }
  }

  /**
   * After the first directive, a run of file tokens never crashes; before
   * it, a file token that matches any file does (`commands` is unbound), and
   * so does an empty argument anywhere.
   */
  lemma {:induction false} NoCrashFileTokens(args: seq<string>, glob: string -> seq<string>)
    ensures AllFileTokens(args) ==> NoCrash(args, true, glob)
    ensures args != [] && args[0] != [] && args[0][0] != '-' && glob(args[0]) != [] ==> !NoCrash(args, false, glob)
    ensures args != [] && args[0] == [] ==> !NoCrash(args, false, glob) && !NoCrash(args, true, glob)
    decreases |args|
  {
    if args != [] && AllFileTokens(args) {
      AllFileTokensTail(args);
      NoCrashFileTokens(args[1..], glob);
    }
  }

  /** The files of several file tokens: the first token's, then the rest's. */
  lemma ExpandCons(args: seq<string>, glob: string -> seq<string>)
    requires args != []
    ensures Expand(args, glob) == glob(args[0]) + Expand(args[1..], glob)
  {
  }

  /**
   * Before the first directive, file tokens that do not crash match no file,
   * so they convert nothing and leave everything as it was.
   */
  lemma {:induction false} FileTokensBeforeDirective(args: seq<string>, cfg: Config, trace: seq<Event>,
                                                     glob: string -> seq<string>, open: string -> Image, blend: (Pixel, Rgb) -> Pixel)
    requires cfg.directive.None? && AllFileTokens(args) && NoCrash(args, false, glob)
    ensures Expand(args, glob) == []
    ensures Interp(args, cfg, trace, glob, open, blend) == Outcome(trace, 0, cfg)
    decreases |args|
  {
    if args != [] {
      AllFileTokensTail(args);
      InterpFileToken(args, cfg, trace, glob, open, blend);
      assert ConvertFiles(glob(args[0]), cfg, open, blend) == (cfg, []);
      assert trace + [] == trace;
      FileTokensBeforeDirective(args[1..], cfg, trace, glob, open, blend);
      ExpandCons(args, glob);
    }
  }

  /**
   * File tokens alone convert every file they expand to, in order, with the
   * current command list, threading the state and the files from one file
   * to the next.
   */
  lemma {:induction false} FileTokensConvert(args: seq<string>, cfg: Config, trace: seq<Event>,
                                             glob: string -> seq<string>, open: string -> Image, blend: (Pixel, Rgb) -> Pixel)
    requires AllFileTokens(args) && NoCrash(args, cfg.directive.Some?, glob)
    ensures cfg.directive.Some? || Expand(args, glob) == []
    ensures var done := ConvertFiles(Expand(args, glob), cfg, open, blend);
      Interp(args, cfg, trace, glob, open, blend) == Outcome(trace + done.1, 0, done.0)
    decreases |args|
  {
    if cfg.directive.None? {
      FileTokensBeforeDirective(args, cfg, trace, glob, open, blend);
      assert trace + [] == trace;
    } else if args == [] {
      assert trace + [] == trace;
    } else {
      var first := ConvertFiles(glob(args[0]), cfg, open, blend);
      var later := ConvertFiles(Expand(args[1..], glob), first.0, open, blend);
      assert Interp(args, cfg, trace, glob, open, blend) == Outcome(trace + first.1 + later.1, 0, later.0) by {
        AllFileTokensTail(args);
        InterpFileToken(args, cfg, trace, glob, open, blend);
        FileTokensConvert(args[1..], first.0, trace + first.1, glob, open, blend);
      }
      assert ConvertFiles(Expand(args, glob), cfg, open, blend) == (later.0, first.1 + later.1) by {
        ExpandConvert(args, cfg, glob, open, blend);
      }
      assert trace + first.1 + later.1 == trace + (first.1 + later.1);
    }
  }

  /** Converting what several file tokens expand to: the first token's files, then the rest's. */
  lemma ExpandConvert(args: seq<string>, cfg: Config, glob: string -> seq<string>,
                      open: string -> Image, blend: (Pixel, Rgb) -> Pixel)
    requires args != [] && cfg.directive.Some?
    ensures var first := ConvertFiles(glob(args[0]), cfg, open, blend);
      var later := ConvertFiles(Expand(args[1..], glob), first.0, open, blend);
      ConvertFiles(Expand(args, glob), cfg, open, blend) == (later.0, first.1 + later.1)
  {
    ExpandCons(args, glob);
    ConvertFilesAppend(glob(args[0]), Expand(args[1..], glob), cfg, open, blend);
  }

  /**
   * A directive followed by file tokens: the list it parses to replaces the
   * current one wholesale, and every file those tokens expand to is converted
   * with exactly that list, in order, starting from the state and files left
   * so far.
   */
  lemma DirectiveGovernsFiles(arg: string, files: seq<string>, cfg: Config, trace: seq<Event>,
                              glob: string -> seq<string>, open: string -> Image, blend: (Pixel, Rgb) -> Pixel)
    requires arg != [] && arg[0] == '-' && AllFileTokens(files)
    requires NoEmptyTokenReached(Split(DirectiveText(arg), ','))
    requires ParseDirective(DirectiveText(arg)).Success?
    requires NoCrash(files, true, glob)
    ensures NoCrash([arg] + files, cfg.directive.Some?, glob)
    ensures var text := DirectiveText(arg);
      var cs := ParseDirective(text).value;
      var done := ConvertFiles(Expand(files, glob), cfg.(commands := cs, directive := Some(text)), open, blend);
      done.0.commands == cs && done.0.directive == Some(text) &&
      Interp([arg] + files, cfg, trace, glob, open, blend) == Outcome(trace + done.1, 0, done.0)
  {
    var text := DirectiveText(arg);
    assert ([arg] + files)[0] == arg && ([arg] + files)[1..] == files;
    FileTokensConvert(files, cfg.(commands := ParseDirective(text).value, directive := Some(text)), trace, glob, open, blend);
  }

  /**
   * A directive that fails to parse stops the program with its exit code:
   * nothing after it is converted, whatever follows.
   */
  lemma FailingDirectiveHalts(arg: string, rest: seq<string>, cfg: Config, trace: seq<Event>,
                              glob: string -> seq<string>, open: string -> Image, blend: (Pixel, Rgb) -> Pixel)
    requires arg != [] && arg[0] == '-'
    requires NoEmptyTokenReached(Split(DirectiveText(arg), ','))
    requires ParseDirective(DirectiveText(arg)).Failure?
    ensures NoCrash([arg] + rest, cfg.directive.Some?, glob)
    ensures Interp([arg] + rest, cfg, trace, glob, open, blend) ==
      Outcome(trace, ParseDirective(DirectiveText(arg)).error, cfg)
    ensures ParseDirective(DirectiveText(arg)).error != 0
  {
    assert ([arg] + rest)[0] == arg;
  }

  /**
   * The loop over the files one file token matches: each is backed up,
   * converted with the current command list and written back, reading a
   * file the run wrote earlier from `disk`.
   */
  method ConvertEach(conv: Converter, files: seq<string>, commandList: seq<Cmd>, commands: Option<string>,
                     disk0: map<string, Image>, open: string -> Image)
    returns (events: seq<Event>, disk: map<string, Image>)
    requires files == [] || commands.Some?
    modifies conv
    ensures var done := ConvertFiles(files, Config(old(conv.Globals()), disk0, commandList, commands), open, conv.blend);
      Config(conv.Globals(), disk, commandList, commands) == done.0 && events == done.1
  {
    ghost var cfg0 := Config(conv.Globals(), disk0, commandList, commands);
    events, disk := [], disk0;
    assert files[..0] == [];
    for j := 0 to |files|
      invariant Config(conv.Globals(), disk, commandList, commands) == ConvertFiles(files[..j], cfg0, open, conv.blend).0
      invariant events == ConvertFiles(files[..j], cfg0, open, conv.blend).1
    {
      ConvertFilesSnoc(files, j, cfg0, open, conv.blend);
      var filename := files[j];
      var im := if filename in disk then disk[filename] else open(filename);
      disk := disk[filename + ".bak" := im];
      im := conv.Apply(im, commandList);
      disk := disk[filename := im];
      events := events + [Converted(filename, im, commandList, commands.value)];
    }
    assert files[..|files|] == files;
  }

  /**
   * The main program's loop over the arguments. `disk` holds the files it
   * writes: the backups and the converted images.
   */
  method Interpret(conv: Converter, args: seq<string>, glob: string -> seq<string>, open: string -> Image)
    returns (trace: seq<Event>, exit: ExitCode, disk: map<string, Image>)
    requires NoCrash(args, false, glob)
    modifies conv
    ensures var o := Interp(args, Config(old(conv.Globals()), map[], [], None), [], glob, open, conv.blend);
      trace == o.trace && exit == o.exit && conv.Globals() == o.config.state && disk == o.config.disk
    ensures disk == Saved(open, trace)
  {
    ghost var start := Config(conv.Globals(), map[], [], None);
    InterpSaved(args, start, [], glob, open, conv.blend);
    var commandList: seq<Cmd> := [];
    var commands: Option<string> := None;
    trace, disk := [], map[];
    assert args[0..] == args;
    for i := 0 to |args|
      invariant NoCrash(args[i..], commands.Some?, glob)
      invariant Interp(args, start, [], glob, open, conv.blend) ==
        Interp(args[i..], Config(conv.Globals(), disk, commandList, commands), trace, glob, open, conv.blend)
    {
      assert args[i..][1..] == args[i + 1..];
      var arg := args[i];
      if arg[0] == '-' {
        var text := Lower(arg[1..]);
        var parsed := SetCommand(text);
        if parsed.Failure? {
          return trace, parsed.error, disk;
        }
        commandList := parsed.value;
        commands := Some(text);
      } else {
        var events, written := ConvertEach(conv, glob(arg), commandList, commands, disk, open);
        trace, disk := trace + events, written;
      }
    }
    exit := 0;
  }
}
