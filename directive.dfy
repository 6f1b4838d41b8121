/**
 * `set_command`: a lower-cased, comma-separated directive string becomes an
 * ordered list of typed commands, or the process exits with a fixed code on
 * the first bad token.
 */
module Directive {
  import opened Wrappers
  import opened Text
  import opened Raster

  /** One pipeline step. `h` and `?` print help and add no step. */
  datatype Cmd = Invert | Threshold(level: int) | SetBackground(color: Rgb)
  {
    /** The command letter the step was parsed from. */
    function Letter(): char
    {
      match this
      case Invert => 'i'
      case Threshold(_) => 't'
      case SetBackground(_) => 'b'
    }

    /** The argument ranges the parser guarantees. */
    predicate Valid()
    {
      match this
      case Invert => true
      case Threshold(level) => IsByte(level)
      case SetBackground(color) => ValidColor(color)
    }
  }

  type ExitCode = int

  const InvertTakesNoArgument: ExitCode := 1
  const ThresholdOutOfRange: ExitCode := 2
  const ThresholdNotInteger: ExitCode := 3
  const BackgroundNotHex: ExitCode := 4
  const UnknownCommand: ExitCode := 4

  predicate IsCommandLetter(c: char) { c == 'i' || c == 't' || c == 'b' }

  predicate IsHelpLetter(c: char) { c == 'h' || c == '?' }

  // ------------------------------------------------------------ background

  /** A slice of the `b` argument read as one colour component. */
  function HexComponent(arg: string, i: nat): Option<int>
  {
    var piece := Slice(arg, i, i + 2);
    if piece != [] && AllHexDigits(piece) then Some(HexValue(piece)) else None
  }

  /**
   * The `b` argument: positions 0-1, 2-3 and 4-5 each read as hex. Each slice
   * must be one or two hex digits; characters past position 5 are ignored.
   */
  function ParseBackground(arg: string): (r: Option<Rgb>)
    ensures r.Some? <==>
      Slice(arg, 0, 2) != [] && AllHexDigits(Slice(arg, 0, 2)) &&
      Slice(arg, 2, 4) != [] && AllHexDigits(Slice(arg, 2, 4)) &&
      Slice(arg, 4, 6) != [] && AllHexDigits(Slice(arg, 4, 6))
    ensures r.Some? ==>
      r.value == Rgb(HexValue(Slice(arg, 0, 2)), HexValue(Slice(arg, 2, 4)), HexValue(Slice(arg, 4, 6)))
    ensures r.Some? ==> ValidColor(r.value)
    ensures |arg| <= 4 ==> r.None?
  {
    match (HexComponent(arg, 0), HexComponent(arg, 2), HexComponent(arg, 4))
    case (Some(r), Some(g), Some(b)) =>
      assert IsByte(r) && IsByte(g) && IsByte(b) by {
        HexSliceIsByte(arg, 0);
        HexSliceIsByte(arg, 2);
        HexSliceIsByte(arg, 4);
      }
      Some(Rgb(r, g, b))
    case _ => None
  }

  lemma HexSliceIsByte(arg: string, i: nat)
    requires HexComponent(arg, i).Some?
    ensures IsByte(HexComponent(arg, i).value)
  {
    var piece := Slice(arg, i, i + 2);
    if |piece| == 2 {
      var hi := piece[..1];
      assert piece[..|piece| - 1] == hi && hi[..0] == [];
      assert HexValue(hi) == HexDigitValue(piece[0]) <= 15;
      assert HexValue(piece) == HexValue(hi) * 16 + HexDigitValue(piece[1]);
    } else {
      assert |piece| == 1 && piece[..|piece| - 1] == [];
      assert HexValue(piece) == HexValue([]) * 16 + HexDigitValue(piece[0]);
    }
  }

  /** The six-digit hex text of a colour, as a user writes it after `b`. */
  function HexColor(c: Rgb): string
    requires ValidColor(c)
  {
    Hex2(c.r) + Hex2(c.g) + Hex2(c.b)
  }

  /** Writing a colour in hex and reading it back gives the same colour. */
  lemma ParseHexColor(c: Rgb)
    requires ValidColor(c)
    ensures ParseBackground(HexColor(c)) == Some(c)
  {
    var s := HexColor(c);
    assert Slice(s, 0, 2) == Hex2(c.r);
    assert Slice(s, 2, 4) == Hex2(c.g);
    assert Slice(s, 4, 6) == Hex2(c.b);
    Hex2Value(c.r);
    Hex2Value(c.g);
    Hex2Value(c.b);
  }

  /**
   * Five characters are enough: the last slice is a single digit. A slice
   * that is not hex makes the whole argument fail.
   */
  lemma ShortAndMalformedBackgrounds()
    ensures ParseBackground("12345") == Some(Rgb(0x12, 0x34, 0x5))
    ensures ParseBackground("zz0000") == None
  {
    assert Slice("12345", 0, 2) == "12" && "12"[..1] == "1" && "1"[..0] == [];
    assert Slice("12345", 2, 4) == "34" && "34"[..1] == "3" && "3"[..0] == [];
    assert Slice("12345", 4, 6) == "5" && "5"[..0] == [];
    assert !IsHexDigit(Slice("zz0000", 0, 2)[0]);
  }

  // ----------------------------------------------------------------- token

  /**
   * One token: its first character is the command letter, the rest its
   * argument. Help yields `Success(None)`; a step yields `Success(Some(_))`.
   */
  function ParseToken(tok: string): (r: Result<Option<Cmd>, ExitCode>)
    requires tok != []
    ensures r.Success? && r.value.Some? ==> r.value.value.Letter() == tok[0] && r.value.value.Valid()
    ensures r.Success? && r.value.None? <==> IsHelpLetter(tok[0])
    ensures r.Failure? ==> 1 <= r.error <= 4
    ensures tok[0] == 'i' ==> (r.Success? <==> |tok| == 1) && (r.Failure? ==> r.error == InvertTakesNoArgument)
    ensures tok[0] == 't' ==> (r.Failure? <==> !(ParseInt(tok[1..]).Some? && IsByte(ParseInt(tok[1..]).value)))
    ensures tok[0] == 't' && ParseInt(tok[1..]).None? ==> r == Failure(ThresholdNotInteger)
    ensures tok[0] == 't' && ParseInt(tok[1..]).Some? ==>
      r == (if IsByte(ParseInt(tok[1..]).value) then Success(Some(Threshold(ParseInt(tok[1..]).value))) else Failure(ThresholdOutOfRange))
    ensures tok[0] == 'b' && ParseBackground(tok[1..]).Some? ==>
      r == Success(Some(SetBackground(ParseBackground(tok[1..]).value)))
    ensures tok[0] == 'b' ==> (r.Failure? <==> ParseBackground(tok[1..]).None?) && (r.Failure? ==> r.error == BackgroundNotHex)
    ensures !IsCommandLetter(tok[0]) && !IsHelpLetter(tok[0]) ==> r == Failure(UnknownCommand)
  {
    var command, arg := tok[0], tok[1..];
    if command == 'i' then
      if arg != [] then Failure(InvertTakesNoArgument) else Success(Some(Invert))
    else if command == 't' then
      match ParseInt(arg)
      case None => Failure(ThresholdNotInteger)
      case Some(n) => if n < 0 || n > 255 then Failure(ThresholdOutOfRange) else Success(Some(Threshold(n)))
    else if command == 'b' then
      match ParseBackground(arg)
      case None => Failure(BackgroundNotHex)
      case Some(rgb) => Success(Some(SetBackground(rgb)))
    else if IsHelpLetter(command) then Success(None)
    else Failure(UnknownCommand)
  }

  /** `t` followed by any integer's decimal text: a step in range, exit 2 out of it. */
  lemma ThresholdToken(n: int)
    ensures ParseToken("t" + IntToString(n)) ==
      if IsByte(n) then Success(Some(Threshold(n))) else Failure(ThresholdOutOfRange)
  {
    assert ("t" + IntToString(n))[1..] == IntToString(n);
    ParseIntToString(n);
  }

  /** `b` followed by a colour's hex text gives back that colour. */
  lemma BackgroundToken(c: Rgb)
    requires ValidColor(c)
    ensures ParseToken("b" + HexColor(c)) == Success(Some(SetBackground(c)))
  {
    assert ("b" + HexColor(c))[1..] == HexColor(c);
    ParseHexColor(c);
  }

  // ---------------------------------------------------------------- tokens

  /**
   * `cmd[0]` raises IndexError on an empty token; the exact condition under
   * which no empty token is reached before the parse stops.
   */
  predicate NoEmptyTokenReached(toks: seq<string>)
    ensures (forall k :: 0 <= k < |toks| ==> toks[k] != []) ==> NoEmptyTokenReached(toks)
    ensures NoEmptyTokenReached(toks) && toks != [] ==> toks[0] != []
    decreases |toks|
  {
    toks == [] || (toks[0] != [] && (ParseToken(toks[0]).Failure? || NoEmptyTokenReached(toks[1..])))
  }

  function Entry(o: Option<Cmd>): seq<Cmd>
  {
    match o
    case None => []
    case Some(c) => [c]
  }

  /** The token loop of `set_command`, stopping at the first failure. */
  function ParseTokens(toks: seq<string>): (r: Result<seq<Cmd>, ExitCode>)
    requires NoEmptyTokenReached(toks)
    ensures r.Failure? ==> 1 <= r.error <= 4
    ensures r.Success? ==> forall k :: 0 <= k < |r.value| ==> r.value[k].Valid()
    ensures r.Success? ==> |r.value| <= |toks|
    decreases |toks|
  {
    if toks == [] then Success([])
    else
      match ParseToken(toks[0])
      case Failure(e) => Failure(e)
      case Success(o) =>
        match ParseTokens(toks[1..])
        case Failure(e) => Failure(e)
        case Success(rest) => Success(Entry(o) + rest)
  }

  /** `set_command(cmds)` on the whole directive string. */
  function ParseDirective(cmds: string): (r: Result<seq<Cmd>, ExitCode>)
    requires NoEmptyTokenReached(Split(cmds, ','))
    ensures r.Failure? ==> 1 <= r.error <= 4
    ensures r.Success? ==> forall k :: 0 <= k < |r.value| ==> r.value[k].Valid()
    ensures r.Success? ==> |r.value| <= |Split(cmds, ',')|
  {
    ParseTokens(Split(cmds, ','))
  }

  /** The tokens that name a step (`i`, `t` or `b`), in order. */
  function CommandTokens(toks: seq<string>): seq<string>
    decreases |toks|
  {
    if toks == [] then []
    else if toks[0] != [] && IsCommandLetter(toks[0][0]) then [toks[0]] + CommandTokens(toks[1..])
    else CommandTokens(toks[1..])
  }

  /** Parsing succeeds exactly when every token parses on its own. */
  lemma {:induction false} ParseTokensSucceeds(toks: seq<string>)
    requires NoEmptyTokenReached(toks)
    ensures ParseTokens(toks).Success? <==>
      forall k :: 0 <= k < |toks| ==> toks[k] != [] && ParseToken(toks[k]).Success?
    decreases |toks|
  {
    if toks != [] && ParseToken(toks[0]).Success? {
      ParseTokensSucceeds(toks[1..]);
      assert forall k :: 1 <= k < |toks| ==> toks[k] == toks[1..][k - 1];
    }
  }

  /**
   * On success the list holds one entry per `i`/`t`/`b` token, in token
   * order: entry k is the step parsed from the k-th such token.
   */
  lemma {:induction false} ParseTokensEntries(toks: seq<string>)
    requires NoEmptyTokenReached(toks) && ParseTokens(toks).Success?
    ensures var cs, ct := ParseTokens(toks).value, CommandTokens(toks);
      |cs| == |ct| &&
      forall k :: 0 <= k < |cs| ==> ct[k] != [] && ParseToken(ct[k]) == Success(Some(cs[k]))
    decreases |toks|
  {
    if toks != [] {
      ParseTokensEntries(toks[1..]);
      var cs, ct := ParseTokens(toks).value, CommandTokens(toks);
      var rest, restTokens := ParseTokens(toks[1..]).value, CommandTokens(toks[1..]);
      match ParseToken(toks[0]).value
      case None =>
        assert cs == rest && ct == restTokens;
      case Some(c) =>
        assert cs == [c] + rest && ct == [toks[0]] + restTokens;
        assert forall k :: 1 <= k < |cs| ==> cs[k] == rest[k - 1] && ct[k] == restTokens[k - 1];
    }
  }

  /** Fail-fast: a failure is the first failing token's code. */
  lemma {:induction false} ParseTokensFailure(toks: seq<string>) returns (k: nat)
    requires NoEmptyTokenReached(toks) && ParseTokens(toks).Failure?
    ensures k < |toks| && toks[k] != [] && ParseToken(toks[k]) == Failure(ParseTokens(toks).error)
    ensures forall j :: 0 <= j < k ==> toks[j] != [] && ParseToken(toks[j]).Success?
    decreases |toks|
  {
    if ParseToken(toks[0]).Failure? {
      k := 0;
    } else {
      var k' := ParseTokensFailure(toks[1..]);
      k := k' + 1;
      assert forall j :: 1 <= j < k ==> toks[j] == toks[1..][j - 1];
    }
  }

  /** Fail-fast: once a prefix fails, nothing after it is looked at. */
  lemma {:induction false} ParseTokensIgnoresRest(pre: seq<string>, post: seq<string>)
    requires NoEmptyTokenReached(pre) && ParseTokens(pre).Failure?
    ensures NoEmptyTokenReached(pre + post)
    ensures ParseTokens(pre + post) == ParseTokens(pre)
    decreases |pre|
  {
    assert (pre + post)[0] == pre[0];
    if ParseToken(pre[0]).Success? {
      assert (pre + post)[1..] == pre[1..] + post;
      ParseTokensIgnoresRest(pre[1..], post);
    }
  }

  // ---------------------------------------------------------------- method

  /** The list built so far in front of what the rest of the tokens give. */
  function Prepend(acc: seq<Cmd>, r: Result<seq<Cmd>, ExitCode>): Result<seq<Cmd>, ExitCode>
  {
    match r
    case Success(rest) => Success(acc + rest)
    case Failure(e) => Failure(e)
  }

  /** One successful token moves its entry from the rest onto the list built so far. */
  lemma PrependStep(acc: seq<Cmd>, toks: seq<string>)
    requires toks != [] && NoEmptyTokenReached(toks) && ParseToken(toks[0]).Success?
    ensures Prepend(acc, ParseTokens(toks)) ==
      Prepend(acc + Entry(ParseToken(toks[0]).value), ParseTokens(toks[1..]))
  {
    var e := Entry(ParseToken(toks[0]).value);
    match ParseTokens(toks[1..])
    case Failure(_) =>
    case Success(rest) =>
      assert acc + (e + rest) == (acc + e) + rest;
  }

  /** `set_command`: the loop over tokens with its early exits. */
  method SetCommand(cmds: string) returns (r: Result<seq<Cmd>, ExitCode>)
    requires NoEmptyTokenReached(Split(cmds, ','))
    ensures r == ParseDirective(cmds)
    ensures r.Success? ==> forall k :: 0 <= k < |r.value| ==> r.value[k].Valid()
  {
    var commands := Split(cmds, ',');
    var cmdList: seq<Cmd> := [];
    assert commands[0..] == commands;
    assert Prepend([], ParseTokens(commands)) == ParseTokens(commands) by {
      if ParseTokens(commands).Success? {
        assert [] + ParseTokens(commands).value == ParseTokens(commands).value;
      }
    }
    for i := 0 to |commands|
      invariant NoEmptyTokenReached(commands[i..])
      invariant ParseTokens(commands) == Prepend(cmdList, ParseTokens(commands[i..]))
      invariant forall k :: 0 <= k < |cmdList| ==> cmdList[k].Valid()
    {
      var cmd := commands[i];
      assert commands[i..][1..] == commands[i + 1..];
      var command, arg := cmd[0], cmd[1..];
      if command == 'i' {
        if arg != [] {
          return Failure(InvertTakesNoArgument);
        }
        PrependStep(cmdList, commands[i..]);
        cmdList := cmdList + [Invert];
      } else if command == 't' {
        var thresh := ParseInt(arg);
        if thresh.None? {
          return Failure(ThresholdNotInteger);
        }
        if thresh.value < 0 || thresh.value > 255 {
          return Failure(ThresholdOutOfRange);
        }
        PrependStep(cmdList, commands[i..]);
        cmdList := cmdList + [Threshold(thresh.value)];
      } else if command == 'b' {
        var rgb := ParseBackground(arg);
        if rgb.None? {
          return Failure(BackgroundNotHex);
        }
        PrependStep(cmdList, commands[i..]);
        cmdList := cmdList + [SetBackground(rgb.value)];
      } else if IsHelpLetter(command) {
        // the help text is printed; no step is added
        PrependStep(cmdList, commands[i..]);
        assert cmdList + [] == cmdList;
      } else {
        return Failure(UnknownCommand);
      }
    }
    assert commands[|commands|..] == [];
    assert cmdList + [] == cmdList;
    return Success(cmdList);
  }

  // -------------------------------------------------------------- finding

  /**
   * The `b` argument as the source reads it: `int(slice, 16)` also accepts a
   * leading sign, so a component can come out negative.
   */
  function ParseBackgroundAsWritten(arg: string): (r: Option<Rgb>)
    ensures ParseBackground(arg).Some? ==> r == ParseBackground(arg)
  {
    match (ParseHex(Slice(arg, 0, 2)), ParseHex(Slice(arg, 2, 4)), ParseHex(Slice(arg, 4, 6)))
    case (Some(r), Some(g), Some(b)) => Some(Rgb(r, g, b))
    case _ => None
  }

  /**
   * The correction only matters for signs: when none of the first six
   * characters is `+` or `-`, both readings agree.
   */
  lemma SignFreeAgrees(arg: string)
    requires forall k :: 0 <= k < |arg| && k < 6 ==> arg[k] != '+' && arg[k] != '-'
    ensures ParseBackgroundAsWritten(arg) == ParseBackground(arg)
  {
    SignFreeSliceAgrees(arg, 0);
    SignFreeSliceAgrees(arg, 2);
    SignFreeSliceAgrees(arg, 4);
  }

  lemma SignFreeSliceAgrees(arg: string, i: nat)
    requires i <= 4
    requires forall k :: 0 <= k < |arg| && k < 6 ==> arg[k] != '+' && arg[k] != '-'
    ensures ParseHex(Slice(arg, i, i + 2)) == HexComponent(arg, i)
  {
    var piece := Slice(arg, i, i + 2);
    if piece != [] {
      assert piece[0] == arg[i];
    }
  }

  /** `b-f0000` is accepted as written and sets a red component of -15. */
  lemma NegativeComponentAccepted()
    ensures ParseBackgroundAsWritten("-f0000") == Some(Rgb(-15, 0, 0))
    ensures !ValidColor(ParseBackgroundAsWritten("-f0000").value)
    ensures ParseBackground("-f0000") == None
  {
    var s := "-f0000";
    SignedSlice();
    ZeroSlice();
    assert Slice(s, 0, 2) == "-f";
    assert Slice(s, 2, 4) == "00";
    assert Slice(s, 4, 6) == "00";
    assert HexComponent(s, 0) == None by {
      assert !IsHexDigit("-f"[0]);
    }
  }

  lemma SignedSlice()
    ensures ParseHex("-f") == Some(-15)
  {
    assert "-f"[1..] == "f";
    assert "f"[..0] == [];
    assert HexValue("f") == 15;
  }

  lemma ZeroSlice()
    ensures ParseHex("00") == Some(0)
  {
    assert "00"[..1] == "0";
    assert "0"[..0] == [];
    assert HexValue("00") == 0;
  }
}
