/**
 * The few Python string primitives the directive parser relies on:
 * `str.split`, `str.lower`, slicing, and `int(s)` / `int(s, 16)`.
 */
module Text {
  import opened Wrappers

  // ---------------------------------------------------------------- split

  /** `s.split(sep)`: the pieces between separators, always at least one. */
  function Split(s: string, sep: char): (parts: seq<string>)
    ensures |parts| >= 1
    ensures forall k :: 0 <= k < |parts| ==> sep !in parts[k]
    decreases |s|
  {
    if s == [] then [[]]
    else
      var rest := Split(s[1..], sep);
      if s[0] == sep then [[]] + rest
      else [[s[0]] + rest[0]] + rest[1..]
  }

  /** `sep.join(parts)`, the inverse of `Split`. */
  function Join(parts: seq<string>, sep: char): string
    requires |parts| >= 1
    decreases |parts|
  {
    if |parts| == 1 then parts[0] else parts[0] + [sep] + Join(parts[1..], sep)
  }

  /** Splitting loses nothing: joining the pieces back gives the input. */
  lemma {:induction false} JoinSplit(s: string, sep: char)
    ensures Join(Split(s, sep), sep) == s
    decreases |s|
  {
    if s != [] {
      var rest := Split(s[1..], sep);
      JoinSplit(s[1..], sep);
      if s[0] == sep {
        assert Split(s, sep)[1..] == rest;
      } else {
        var parts := Split(s, sep);
        if |rest| == 1 {
          assert parts == [[s[0]] + rest[0]];
        } else {
          assert parts[1..] == rest[1..];
          assert Join(rest, sep) == rest[0] + [sep] + Join(rest[1..], sep);
        }
      }
    }
  }

  /** Pieces free of the separator are recovered exactly by splitting their join. */
  lemma {:induction false} SplitJoin(parts: seq<string>, sep: char)
    requires |parts| >= 1
    requires forall k :: 0 <= k < |parts| ==> sep !in parts[k]
    ensures Split(Join(parts, sep), sep) == parts
    decreases |parts|
  {
    if |parts| == 1 {
      SplitNoSeparator(parts[0], sep);
    } else {
      SplitJoin(parts[1..], sep);
      SplitPrefix(parts[0], Join(parts[1..], sep), sep);
      assert [parts[0]] + parts[1..] == parts;
    }
  }

  lemma {:induction false} SplitNoSeparator(s: string, sep: char)
    requires sep !in s
    ensures Split(s, sep) == [s]
    decreases |s|
  {
    if s != [] {
      SplitNoSeparator(s[1..], sep);
      assert s[0] != sep;
      assert [s[0]] + s[1..] == s;
    }
  }

  lemma {:induction false} SplitPrefix(p: string, t: string, sep: char)
    requires sep !in p
    ensures Split(p + [sep] + t, sep) == [p] + Split(t, sep)
    decreases |p|
  {
    if p == [] {
      assert p + [sep] + t == [sep] + t;
      assert ([sep] + t)[1..] == t;
    } else {
      assert (p + [sep] + t)[1..] == p[1..] + [sep] + t;
      SplitPrefix(p[1..], t, sep);
      assert (p + [sep] + t)[0] == p[0] && p[0] != sep;
      assert [p[0]] + p[1..] == p;
      assert ([p[1..]] + Split(t, sep))[1..] == Split(t, sep);
    }
  }

  // ---------------------------------------------------------------- lower

  predicate IsUpper(c: char) { 'A' <= c <= 'Z' }

  function LowerChar(c: char): char
  {
    if IsUpper(c) then (c as int + 32) as char else c
  }

  /** `s.lower()` on ASCII letters. */
  function Lower(s: string): (r: string)
    ensures |r| == |s|
    ensures forall k :: 0 <= k < |r| ==> !IsUpper(r[k])
    ensures forall k :: 0 <= k < |r| && !IsUpper(s[k]) ==> r[k] == s[k]
    ensures forall k :: 0 <= k < |r| && IsUpper(s[k]) ==> r[k] as int == s[k] as int + 32
  {
    seq(|s|, k requires 0 <= k < |s| => LowerChar(s[k]))
  }

  /** Text with no upper-case letter is its own lower-case form. */
  lemma LowerUnchanged(s: string)
    requires forall k :: 0 <= k < |s| ==> !IsUpper(s[k])
    ensures Lower(s) == s
  {
  }

  // ------------------------------------------------------- decimal int()

  predicate IsDigit(c: char) { '0' <= c <= '9' }

  predicate AllDigits(s: string) { forall k :: 0 <= k < |s| ==> IsDigit(s[k]) }

  /** The value of a run of decimal digits, most significant first. */
  function DigitsValue(s: string): nat
    requires AllDigits(s)
    decreases |s|
  {
    if s == [] then 0 else DigitsValue(s[..|s| - 1]) * 10 + (s[|s| - 1] as int - '0' as int)
  }

  /** The decimal digits of `n` with no leading zero, as `str(n)` writes them. */
  function Decimal(n: nat): (s: string)
    ensures s != [] && AllDigits(s)
    decreases n
  {
    if n < 10 then [('0' as int + n) as char] else Decimal(n / 10) + [('0' as int + n % 10) as char]
  }

  /** `str(n)` for any integer. */
  function IntToString(n: int): string
  {
    if n < 0 then "-" + Decimal(-n) else Decimal(n)
  }

  /**
   * `int(s)` for an optional sign followed by at least one decimal digit;
   * `None` stands for the ValueError Python raises on anything else.
   */
  function ParseInt(s: string): (r: Option<int>)
    ensures r.Some? <==> (s != [] && AllDigits(s)) || (|s| >= 2 && (s[0] == '+' || s[0] == '-') && AllDigits(s[1..]))
    ensures (s != [] && AllDigits(s)) ==> r.Some? && r.value >= 0
    ensures r.Some? && r.value < 0 ==> s[0] == '-'
  {
    if s != [] && (s[0] == '+' || s[0] == '-') then
      var digits := s[1..];
      if digits != [] && AllDigits(digits) then
        var v: int := DigitsValue(digits);
        Some(if s[0] == '-' then -v else v)
      else None
    else if s != [] && AllDigits(s) then Some(DigitsValue(s))
    else None
  }

  lemma {:induction false} DecimalValue(n: nat)
    ensures DigitsValue(Decimal(n)) == n
    decreases n
  {
    if n >= 10 {
      DecimalValue(n / 10);
      var s := Decimal(n);
      assert s[..|s| - 1] == Decimal(n / 10);
    }
  }

  /** `int(str(n)) == n` for every integer. */
  lemma ParseIntToString(n: int)
    ensures ParseInt(IntToString(n)) == Some(n)
  {
    if n < 0 {
      var d := Decimal(-n);
      DecimalValue(-n);
      assert IntToString(n) == "-" + d;
      assert ("-" + d)[1..] == d;
      var v: int := DigitsValue(d);
      assert ParseInt("-" + d) == Some(-v);
    } else {
      var d := Decimal(n);
      DecimalValue(n);
      assert IsDigit(d[0]);
      assert ParseInt(d) == Some(DigitsValue(d));
    }
  }

  /** A leading zero does not change the value of a run of digits. */
  lemma {:induction false} LeadingZero(d: string)
    requires AllDigits(d)
    ensures AllDigits("0" + d) && DigitsValue("0" + d) == DigitsValue(d)
    decreases |d|
  {
    if d != [] {
      var z := "0" + d;
      assert z[..|z| - 1] == "0" + d[..|d| - 1];
      LeadingZero(d[..|d| - 1]);
    }
  }

  /** `int('+' + d) == int(d)`, and leading zeros are ignored, so `032`, `+32` and `32` agree. */
  lemma ParseIntPrefixes(d: string)
    requires d != [] && AllDigits(d)
    ensures ParseInt("+" + d) == ParseInt(d)
    ensures ParseInt("0" + d) == ParseInt(d)
  {
    assert ("+" + d)[1..] == d;
    LeadingZero(d);
  }

  // ----------------------------------------------------------- hex int()

  predicate IsHexDigit(c: char) { IsDigit(c) || 'a' <= c <= 'f' || 'A' <= c <= 'F' }

  predicate AllHexDigits(s: string) { forall k :: 0 <= k < |s| ==> IsHexDigit(s[k]) }

  function HexDigitValue(c: char): (v: int)
    requires IsHexDigit(c)
    ensures 0 <= v < 16
  {
    if IsDigit(c) then c as int - '0' as int
    else if 'a' <= c <= 'f' then c as int - 'a' as int + 10
    else c as int - 'A' as int + 10
  }

  /** The value of a run of hexadecimal digits, most significant first. */
  function HexValue(s: string): nat
    requires AllHexDigits(s)
    decreases |s|
  {
    if s == [] then 0 else HexValue(s[..|s| - 1]) * 16 + HexDigitValue(s[|s| - 1])
  }

  /**
   * `int(s, 16)` for an optional sign followed by at least one hex digit
   * (the only forms a two-character slice can take, whitespace aside).
   */
  function ParseHex(s: string): (r: Option<int>)
    ensures r.Some? <==> (s != [] && AllHexDigits(s)) || (|s| >= 2 && (s[0] == '+' || s[0] == '-') && AllHexDigits(s[1..]))
    ensures (s != [] && AllHexDigits(s)) ==> r.Some? && r.value >= 0
    ensures r.Some? && r.value < 0 ==> s[0] == '-'
  {
    if s != [] && (s[0] == '+' || s[0] == '-') then
      var digits := s[1..];
      if digits != [] && AllHexDigits(digits) then
        var v: int := HexValue(digits);
        Some(if s[0] == '-' then -v else v)
      else None
    else if s != [] && AllHexDigits(s) then Some(HexValue(s))
    else None
  }

  /** `s[i:j]` with Python's clamping of indices past the end. */
  function Slice(s: string, i: nat, j: nat): (r: string)
    requires i <= j
    ensures |r| == if |s| <= i then 0 else if j <= |s| then j - i else |s| - i
    ensures forall k :: 0 <= k < |r| ==> r[k] == s[i + k]
  {
    var lo := if i <= |s| then i else |s|;
    var hi := if j <= |s| then j else |s|;
    s[lo..hi]
  }

  function HexChar(d: nat): char
    requires d < 16
  {
    if d < 10 then ('0' as int + d) as char else ('a' as int + d - 10) as char
  }

  /** The two lower-case hex digits of a byte, as `'%02x' % v` writes them. */
  function Hex2(v: nat): (s: string)
    requires v < 256
    ensures |s| == 2 && AllHexDigits(s)
  {
    [HexChar(v / 16), HexChar(v % 16)]
  }

  /** Two hex digits read back give the byte they were written from. */
  lemma Hex2Value(v: nat)
    requires v < 256
    ensures HexValue(Hex2(v)) == v
  {
    var s := Hex2(v);
    var hi, lo := HexChar(v / 16), HexChar(v % 16);
    assert HexDigitValue(hi) == v / 16;
    assert HexDigitValue(lo) == v % 16;
    assert s[..|s| - 1] == [hi];
    assert [hi][..0] == [];
    assert HexValue([hi]) == HexValue([]) * 16 + HexDigitValue(hi);
    assert HexValue(s) == HexValue([hi]) * 16 + HexDigitValue(lo);
  }
}
