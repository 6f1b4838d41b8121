# image_convert, modelled in Dafny

`image_convert.py` is a small command-line tool built on PIL. It edits image files in place. Its argument list alternates two kinds of token:

- A directive token starts with `-`. It holds a comma-separated list of one-letter commands:
  - `i` inverts the image;
  - `tNNN` sets the low-intensity threshold;
  - `bHHHHHH` sets the background colour used to flatten transparent images;
  - `h` and `?` print help.
- A file token is a glob pattern. Every file it matches is opened and run through the most recent directive's commands. The original file is renamed to `.bak`, and the result is saved under the original name.

Two settings are global and persist across files and across directives: the threshold (default 0) and the background colour (default white).

The model has one module per part of the program:

| module | file | models |
|---|---|---|
| `Wrappers` | `wrappers.dfy` | `Option` and `Result` |
| `Text` | `text.dfy` | the subset of Python string handling the tool uses: `str.split`, ASCII `str.lower`, `int(s)`, `int(s, 16)`, clamped slicing |
| `Raster` | `raster.dfy` | images as a mode and a sequence of pixels; the per-channel threshold remap; `ImageOps.invert`; flattening of RGBA images onto the background |
| `Directive` | `directive.dfy` | `set_command`, as a specification `ParseDirective` and as the loop `SetCommand` proved against it; the exit codes 1 to 4 |
| `Pipeline` | `pipeline.dfy` | the two global settings as `State`; one command as `Step`; a command list as `Run`; the class `Converter`, whose fields `threshold` and `backgroundColor` are updated in place by `SetThreshold`, `SetBackground` and `Apply` (the per-file command loop) |
| `Interpreter` | `interpreter.dfy` | the main loop over `argv`, as a specification `Interp` that yields a trace of conversions, the files written and an exit code, and as the method `Interpret`, proved to equal it |
| `Scenarios` | `scenarios.dfy` | whole command lines evaluated end to end: examples from the tool's help text and a few more (a file named twice, a background carried over, a failing directive after a group) |

Three of the tool's dependencies are parameters of the model:

- `glob: string -> seq<string>` expands a file token.
- `open: string -> Image` gives the content each file had when the run started.
- `blend: (Pixel, Rgb) -> Pixel` is PIL's alpha paste of one RGBA pixel onto the background colour.

A conversion is recorded as an `Event` holding the file name, the image saved under that name, the commands applied and the directive text; the events are what the tool reports on stdout. The files the run itself writes are kept in a map `disk` from file name to image. Converting `f` stores the content `f` had at that moment under `f.bak` and the converted image under `f`. A file is read from `disk` when the run has already written it, and from `open` otherwise, so a file named twice on one command line is converted the second time from what the first conversion saved.

## Verifying

All seven files are verified together. Both of these commands finish with 0 errors and no time-outs:

```
dafny verify *.dfy
dafny verify --resource-limit 2000000 --verification-time-limit 0 --warn-contradictory-assumptions *.dfy
```

## Model

| member | source | states |
|---|---|---|
| Text.Split | image_convert.py:65 | `str.split` yields at least one piece, and no piece contains the separator |
| Text.JoinSplit | image_convert.py:65 | splitting on `,` and joining back with `,` gives the original text, so no character of a directive is lost or invented |
| Text.SplitJoin | image_convert.py:65 | splitting a join of separator-free tokens gives back exactly those tokens |
| Text.SplitPrefix | image_convert.py:65 | a token followed by `,` becomes the first element of the split, and the rest is split independently |
| Text.Lower | image_convert.py:155 | lower-casing keeps the length and leaves no upper-case letter; each upper-case ASCII letter becomes the letter 32 code points above it, and every other character is unchanged |
| Text.ParseInt | image_convert.py:81 | `int()` succeeds exactly on a non-empty run of decimal digits with an optional leading sign; unsigned digits give a non-negative value, and only a `-` gives a negative one |
| Text.ParseIntPrefixes | image_convert.py:81 | `int()` ignores a leading `+` and a leading zero, so `t+32`, `t032` and `t32` give the same threshold |
| Text.ParseIntToString | image_convert.py:81 | `int()` reads back every integer written in decimal, sign included |
| Text.ParseHex | image_convert.py:92 | `int(_, 16)` on the slices the tool gives it: it succeeds exactly on a non-empty run of ASCII hex digits with an optional leading sign (the other forms Python accepts are listed under Left out); unsigned digits give a non-negative value, and only a `-` gives a negative one |
| Text.Slice | image_convert.py:92 | Python slicing with clamping: the slice is empty when `i` is at or past the end, ends at `j` when `j` is within the text and at the end otherwise, and holds the characters from position `i` on |
| Text.Hex2Value | image_convert.py:92 | every byte written as two hex digits is read back by `int(_, 16)` |
| Raster.ThresholdChannel | image_convert.py:130-133 | `_threshold` either keeps a channel value or sets it to 0; a value above the level is kept, and a non-zero result is above the level |
| Raster.ThresholdPixel | image_convert.py:130-133 | applied to every channel of a pixel: same length, each channel kept or zeroed, values above the level kept |
| Raster.ThresholdImage | image_convert.py:130-139 | the threshold remap keeps the image's mode and shape |
| Raster.ThresholdKeepsValid | image_convert.py:130-133 | the remap maps channel values in 0..255 to values in 0..255 |
| Raster.ThresholdCompose | image_convert.py:130-139 | remapping at level a and then at level b is remapping once at max(a, b) |
| Raster.ThresholdIdempotent | image_convert.py:130-139 | remapping twice at the same level is remapping once |
| Raster.ThresholdZeroIsIdentity | image_convert.py:130-133 | `t0` leaves every valid image unchanged |
| Raster.InvertPixel | image_convert.py:127 | each inverted channel and the original add up to 255, so bytes stay bytes |
| Raster.InvertBands | image_convert.py:127 | inversion keeps the mode and shape |
| Raster.InvertBandsInvolutive | image_convert.py:127 | inverting twice gives the original image |
| Raster.Flatten | image_convert.py:108-121 | flattening gives an RGB image with one blended pixel per source pixel |
| Raster.InvertImage | image_convert.py:124-127 | the result is always RGB and has as many pixels as the input; an RGB input is inverted directly; an RGBA input is first blended pixel by pixel onto the background colour |
| Raster.InvertImageInvolutive | image_convert.py:124-127 | on RGB images, inverting twice gives back the image, whatever the background colours |
| Raster.InvertImageKeepsValid | image_convert.py:124-127 | inversion keeps channel values in 0..255 when the blend does |
| Directive.ParseBackground | image_convert.py:90-96 | a background argument yields a colour if and only if each of the slices [0:2], [2:4] and [4:6] is non-empty and all hex; the colour's components are then the hex values of those three slices, and so are bytes; an argument of four characters or fewer is always rejected |
| Directive.ShortAndMalformedBackgrounds | image_convert.py:90-96 | `12345` is read as (0x12, 0x34, 0x5), the last slice being the single digit `5`; `zz0000` is rejected |
| Directive.HexSliceIsByte | image_convert.py:92 | a non-empty slice of at most two hex digits has a value in 0..255 |
| Directive.ParseHexColor | image_convert.py:90-96 | every colour written as six hex digits is read back exactly |
| Directive.ParseToken | image_convert.py:68-103 | the outcome of one token by its first letter: `i` only without an argument (else code 1); `t` with an integer argument gives exactly that threshold when it is in 0..255 and code 2 otherwise, and a non-integer gives code 3; `b` with a well-formed colour gives exactly that colour, anything else code 4 (a signed component included, see Left out); `h` and `?` add nothing; any other letter fails with code 4 |
| Directive.ThresholdToken | image_convert.py:79-88 | `t` followed by any decimal integer yields that threshold when it is in 0..255, and code 2 otherwise |
| Directive.BackgroundToken | image_convert.py:90-96 | `b` followed by any colour in hex yields that colour |
| Directive.NoEmptyTokenReached | image_convert.py:70 | directives whose tokens are all non-empty never reach `cmd[0]` on an empty token, and a directive that does not crash starts with a non-empty token |
| Directive.ParseTokens | image_convert.py:68-105 | a failure carries one of the exit codes 1 to 4; on success every command is within range and there are no more commands than tokens |
| Directive.ParseDirective | image_convert.py:63-105 | `set_command` on a whole directive: a failure carries one of the exit codes 1 to 4; on success every command is within range and there are no more commands than comma-separated tokens |
| Directive.ParseTokensSucceeds | image_convert.py:68-105 | a directive succeeds if and only if every one of its tokens parses |
| Directive.ParseTokensEntries | image_convert.py:63-105 | on success, the list holds exactly the commands of the non-help tokens, in order |
| Directive.ParseTokensFailure | image_convert.py:68-103 | on failure, the exit code is that of the first failing token, and every token before it parsed |
| Directive.ParseTokensIgnoresRest | image_convert.py:68-103 | once a token fails, the tokens after it have no effect (the process exits) |
| Directive.SetCommand | image_convert.py:63-105 | the loop over the tokens returns exactly the parse of the directive, stopping at the first failing token with its exit code |
| Directive.ParseBackgroundAsWritten | image_convert.py:92 | the parse as written, which lets `int(_, 16)` accept a sign, agrees with the corrected parse wherever the corrected one succeeds |
| Directive.SignFreeAgrees | image_convert.py:92 | the as-written and corrected parses agree on every argument with no sign among its first six characters |
| Directive.NegativeComponentAccepted | image_convert.py:92 | as written, `b-f0000` is accepted with the out-of-range colour (-15, 0, 0); the corrected parse rejects it |
| Pipeline.Step | image_convert.py:166-177 | one command: `t` sets the threshold and `b` the background, leaving the other unchanged; `b` leaves the image as it is; `i` makes it RGB, the others keep its mode; the pixel count never changes |
| Pipeline.Run | image_convert.py:166-177 | a command list keeps the pixel count and keeps RGB images RGB; without a `t` command the threshold is unchanged, without a `b` command the background is |
| Pipeline.RunAppend | image_convert.py:166-177 | running a command list is running its prefix and then its suffix from the state and image the prefix left |
| Pipeline.ThresholdPersists | image_convert.py:136-139 | after a command list, the global threshold is the level of its last `t` command, or the earlier value when it has none |
| Pipeline.BackgroundPersists | image_convert.py:142-145 | after a command list, the background is the colour of its last `b` command, or the earlier colour when it has none |
| Pipeline.ThresholdStateUnread | image_convert.py:130-139 | the stored threshold never influences an image or the background; only a `t` command's own level does |
| Pipeline.RgbIgnoresState | image_convert.py:124-127 | an RGB image's result does not depend on the global settings, and it stays RGB |
| Pipeline.RunMode | image_convert.py:124-127 | the result is RGB if and only if the input was RGB or the list contains an invert |
| Pipeline.RunKeepsValid | image_convert.py:166-177 | valid commands keep images and the background colour within 0..255 |
| Pipeline.LightToWhite | image_convert.py:49-50 | on RGB images, `i,tL,i` sets every channel of at least 255-L to 255 and keeps every other channel |
| Pipeline.Converter.constructor | image_convert.py:9-11 | the globals start at threshold 0 and white background |
| Pipeline.Converter.SetThreshold | image_convert.py:136-139 | stores the level, keeps the background, and returns the image remapped at that level |
| Pipeline.Converter.SetBackground | image_convert.py:142-145 | stores and returns the colour, keeping the threshold |
| Pipeline.Converter.InvertImage | image_convert.py:124-127 | reads the stored background colour. The result is RGB with as many pixels as the input. On RGB input it is the inversion. On RGBA input each pixel is the inversion of the blended pixel |
| Pipeline.Converter.Apply | image_convert.py:166-177 | the per-file loop leaves the fields and the image exactly as the command-list semantics prescribe from the old fields |
| Interpreter.NoCrashFileTokens | image_convert.py:152-181 | after a directive, file tokens never crash the loop; before any directive, a file token that matches a file crashes on the unbound `commands`; an empty argument always crashes on `arg[0]` |
| Interpreter.ConvertFile | image_convert.py:161-181 | converting one file keeps the command list and the directive, and records an event for that file with that list and text |
| Interpreter.ConvertFileEffect | image_convert.py:161-180 | the file is read as it currently is and converted with the current list; afterwards it holds the converted image, its `.bak` holds what it held before, and every other file is unchanged |
| Interpreter.ConvertFiles | image_convert.py:161-181 | the files of one token converted in order keep the command list and directive, one event per file |
| Interpreter.ReadAfterConvert | image_convert.py:179-180 | after a conversion, reading the file gives the saved image, reading its `.bak` gives what the file held before, and every other file reads as before |
| Interpreter.ReadUntouched | image_convert.py:162 | a file that no conversion wrote, directly or as a backup, reads as it was when the run started |
| Interpreter.ConvertFilesSaved | image_convert.py:161-180 | the files written while converting a token's matches are exactly those the history of conversions determines |
| Interpreter.Interp | image_convert.py:150-181 | the argument loop only adds conversions to the history, exits with 0 or one of the codes 1 to 4, keeps a directive once one was given, and converts nothing before the first directive |
| Interpreter.InterpSaved | image_convert.py:150-181 | over a whole run, the files written are exactly those the history of conversions determines |
| Interpreter.ConvertFilesEvents | image_convert.py:161-181 | one conversion per matched file, in glob order; each records the file, the current command list and the directive text |
| Interpreter.ConvertFilesImages | image_convert.py:161-177 | the k-th file is converted from the settings left by the files before it, starting from that file's content as the earlier conversions left it |
| Interpreter.ConvertFilesAppend | image_convert.py:161-177 | converting two file lists is converting the first and then the second from the settings and the files it left |
| Interpreter.InterpAppend | image_convert.py:152-181 | interpreting `a + b` is interpreting `a`, then `b` from where `a` stopped, unless `a` already exited with a code |
| Interpreter.InterpFileToken | image_convert.py:159-181 | a file token converts exactly the files its pattern matches, and processing continues with the next token |
| Interpreter.FileTokensConvert | image_convert.py:159-181 | a run of file tokens converts, in order, all the files their patterns match, and leaves the command list unchanged |
| Interpreter.FileTokensBeforeDirective | image_convert.py:159-181 | before the first directive, file tokens that do not crash match no file: they convert nothing, and the run ends with exit 0 and the trace and configuration unchanged |
| Interpreter.DirectiveGovernsFiles | image_convert.py:152-166 | a directive that parses applies its commands to every file named after it, until the next directive |
| Interpreter.FailingDirectiveHalts | image_convert.py:154-157 | a directive that fails to parse ends the run with its non-zero exit code, and nothing after it is converted |
| Interpreter.ConvertEach | image_convert.py:161-180 | the loop over one token's files leaves the globals, the written files and the events exactly as the conversion specification prescribes |
| Interpreter.Interpret | image_convert.py:150-181 | the loop over the arguments produces exactly the trace, exit code, final globals and written files of the interpreter specification, and the files written are those the trace determines |
| Scenarios.OneGroup | image_convert.py:152-181 | one directive and one file, from any configuration: the file is read as it currently is, backed up and overwritten with the converted image |
| Scenarios.TwoGroups | image_convert.py:152-181 | a second group starts from the configuration, the files and the trace the first one left |
| Scenarios.InvertGroup | image_convert.py:43-44 | `-i f` inverts `f` as it currently is with the current background |
| Scenarios.ThresholdGroup | image_convert.py:46-47 | `-t32 f` stores threshold 32 and remaps `f` as it currently is |
| Scenarios.BlackGroup | image_convert.py:34-38 | `-B000000 f` makes black the background and saves `f` unchanged |
| Scenarios.ThresholdFromStart | image_convert.py:46-47 | `-t32 f` at program start on the pixel (20, 200, 32) gives (0, 200, 0), with the original kept as the backup |
| Scenarios.ThresholdEndToEnd | image_convert.py:46-47 | `-t32 a.png` turns the pixel (20, 200, 32) into (0, 200, 0) and leaves the original in `a.png.bak` |
| Scenarios.InvertThenThreshold | image_convert.py:52-53 | `-i f1 -t32 f2` inverts `f1`, then remaps `f2` as the files stand after the first conversion |
| Scenarios.BlackThenInvert | image_convert.py:34-38 | `-B000000 f1 -i f2` saves `f1` unchanged, then inverts `f2` with black as the background |
| Scenarios.SameFileTwice | image_convert.py:161-180 | `-i a.png -t32 a.png` thresholds the inverted image the first group saved; afterwards `a.png` holds that result and `a.png.bak` the inverted image |
| Scenarios.InvertOneThresholdAnother | image_convert.py:52-53 | `-i image1.png -t32 image2.png` inverts the first file and remaps the second at level 32 |
| Scenarios.BackgroundCarriesOver | image_convert.py:34-38 | a background set by one directive (`-B000000`, lower-cased first) is still used to flatten an RGBA file under a later directive |
| Scenarios.SpacedHelpExampleCrashes | image_convert.py:55-56 | the help example `- i *.png *.jpg` crashes: the bare `-` yields one empty token, so `cmd[0]` fails |
| Scenarios.OutOfRangeDirective | image_convert.py:82-84 | the directive `i,t300` fails with code 2 |
| Scenarios.GroupThenFailure | image_convert.py:152-157 | after one group, a failing directive ends the run with its code, keeping the conversion and the files the group wrote |
| Scenarios.FirstGroup | image_convert.py:152-181 | the first group of a run reads its file from `open` and writes the file and its backup |
| Scenarios.OutOfRangeHalts | image_convert.py:82-84 | after a successful group, the directive `-i,t300` stops the run with code 2, whatever follows it |

## Left out

- Image files: decoding, encoding and the saved format are not modelled. `Image.open` of a file the run has not written is the `open` parameter. Saving is exact: a file read back later in the run gives exactly the image that was saved, although the real save re-encodes it in its original format (which can be lossy, or drop the mode).
- Alpha compositing: the arithmetic of `alpha_to_color` (`Image.new` plus `paste` with the alpha mask) is the `blend` parameter. `BlendOk` only assumes that it yields three bytes from valid inputs.
- Image modes: only RGB and RGBA images are modelled. Grey-scale, palette and other PIL modes are not.
- The filesystem: `glob` is the `glob` parameter, so the order of matches is whatever it returns. It is a fixed function: it does not see the `.bak` files or other files written earlier in the run. Errors raised by opening, renaming or saving a file are not modelled.
- Output: the help text and all messages printed to stdout and stderr are not modelled. `h` and `?` are therefore modelled as adding no command. An exit is the `exit` code of the `Outcome`.
- Text.ParseInt: does not accept the surrounding whitespace, underscores or non-ASCII decimal digits that Python's `int()` also accepts, so a quoted `-t 32` exits with code 3 in the model. It also has no length limit, whereas Python 3.11 and later raise `ValueError` on decimal text of more than 4300 digits, which the tool reports with code 3 where the model gives code 2.
- Text.ParseHex: does not accept the other forms `int(_, 16)` accepts: surrounding whitespace, an underscore between digits, a `0x` prefix and non-ASCII decimal digits. Of these only whitespace and non-ASCII digits fit in the two-character slices read at line 92; see `Directive.ParseBackground`.
- Directive.ParseBackground: does not accept whitespace around a slice or non-ASCII decimal digits in it, both of which `int(_, 16)` accepts. So a quoted `-b f0000` exits with code 4 in the model, whereas the code reads it as (15, 0, 0).
- Text.Lower: folds only ASCII letters; Python's Unicode case mapping is not modelled.
- Directive.SetCommand: requires that no token it reaches is empty. An empty token (for example the directive `-` or `-i,,t3`) makes `cmd[0]` raise an uncaught `IndexError`, so that crash is excluded rather than modelled.
- Scenarios.SpacedHelpExampleCrashes: the help text's last example, `- i *.png *.jpg`, is among the excluded crashes. The bare `-` is an empty directive, and its one empty token makes `cmd[0]` raise `IndexError`; the lemma proves `NoCrash` false for it, so the model gives it no outcome.
- Interpreter.Interpret: requires `NoCrash`. It excludes two uncaught errors of the script:
  - an empty argument, where `arg[0]` raises `IndexError`;
  - an empty token in a directive that is reached before any failing token, where `cmd[0]` raises `IndexError`;
  - a file token that matches files before any directive was given, where the progress message reads the unbound name `commands`.
- Directive.ParseBackground: deliberately rejects a sign in a colour component, which the code as written accepts; see Findings.
- Directive.ParseToken: rejects with code 4 a `b` token with a signed colour slice, such as `b+f0000` or `b-f0000`, which the code as written accepts (`b+f0000` even gives the valid colour (15, 0, 0)); this follows from the corrected `ParseBackground`. It shares the whitespace and digit differences of `ParseInt` and `ParseBackground`.
- Directive.ParseTokens: inherits the signed-colour, whitespace and digit differences of `ParseToken`.
- Directive.ParseDirective: inherits the signed-colour, whitespace and digit differences of `ParseToken`.
- Directive.SetCommand: returns code 4 for a directive with a signed colour slice, where the code as written appends the colour and goes on.
- Interpreter.Interp: stops with code 4 at a directive with a signed colour slice, where the code as written goes on converting.
- Interpreter.Interpret: stops with code 4 at a directive with a signed colour slice, where the code as written goes on converting.

Notes on how `image_convert.py` behaves, which the model follows except where stated:

- A background argument is accepted when it has at least five characters and each of the slices [0:2], [2:4] and [4:6] is non-empty hex. So `b12345` is read as (0x12, 0x34, 0x5), and characters after the sixth are ignored. The model departs from the code for a slice with a sign (see Findings), surrounding whitespace or non-ASCII digits (see Left out).
- A threshold applies to every band, including the alpha band of an RGBA image.
- Inversion always yields an RGB image.

## Findings

| source | as written | input that shows it | evidently intended | confidence | as-written member | corrected member |
|---|---|---|---|---|---|---|
| image_convert.py:92 | each colour component is read with `int(slice, 16)`, which accepts a leading `+` or `-` | directive `-b-f0000` sets the background to (-15, 0, 0), which is not a colour | each component is exactly one or two hex digits, giving a value in 0..255; any other argument exits with code 4 | medium, not executed | Directive.NegativeComponentAccepted | Directive.ParseBackground |
