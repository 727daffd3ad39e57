/**
 * `SigilPointCodec`: a Sigil point in a pattern asset is the string `"x, y"`. Encoding
 * writes both coordinates with `Integer.toString`; decoding splits the string at its first
 * comma (`split(",", 2)`), strips white space around both halves (`String.strip`) and
 * parses each with `Integer.parseInt`. The schema constrains asset authors to
 * `SIGIL_POINT_PATTERN`: one digit 0..3, a comma, one digit 0..3, with spaces or tabs around
 * each digit. The decoder itself does not check the pattern.
 *
 * The library functions the codec calls are modelled as far as it relies on them.
 */
module SigilPointCodec {
  import opened JavaLang
  import opened SigilEncoding
  import opened SigilPoints

  // ---------------------------------------------------------------------------------------
  // Decimal notation: `Integer.toString(int)` and `Integer.parseInt(String)`

  /**
   * The zero of the run of ten decimal digits (general category Nd) that holds `c`, or -1
   * when `c` is not a decimal digit. `parseInt` reads its digits with `Character.digit(c, 10)`,
   * one UTF-16 unit at a time, so its digits are the 37 runs of the Basic Multilingual Plane:
   * ASCII first, then the 36 others in increasing order. A digit outside the plane arrives as
   * two surrogates, and neither is a digit.
   */
  function DigitRunZero(c: char): (z: int)
    ensures z == -1 || z <= c as int < z + 10
  {
    if '0' <= c <= '9' then '0' as int else OtherRunZero(c)
  }

  /** The zero of the non-ASCII run that holds `c`, or -1. */
  function OtherRunZero(c: char): (z: int)
    ensures z == -1 || z <= c as int < z + 10
  {
    if c < '\U{0660}' then -1
    else if c <= '\U{0669}' then 0x0660
    else if c < '\U{06F0}' then -1
    else if c <= '\U{06F9}' then 0x06F0
    else if c < '\U{07C0}' then -1
    else if c <= '\U{07C9}' then 0x07C0
    else if c < '\U{0966}' then -1
    else if c <= '\U{096F}' then 0x0966
    else if c < '\U{09E6}' then -1
    else if c <= '\U{09EF}' then 0x09E6
    else if c < '\U{0A66}' then -1
    else if c <= '\U{0A6F}' then 0x0A66
    else if c < '\U{0AE6}' then -1
    else if c <= '\U{0AEF}' then 0x0AE6
    else if c < '\U{0B66}' then -1
    else if c <= '\U{0B6F}' then 0x0B66
    else if c < '\U{0BE6}' then -1
    else if c <= '\U{0BEF}' then 0x0BE6
    else if c < '\U{0C66}' then -1
    else if c <= '\U{0C6F}' then 0x0C66
    else if c < '\U{0CE6}' then -1
    else if c <= '\U{0CEF}' then 0x0CE6
    else if c < '\U{0D66}' then -1
    else if c <= '\U{0D6F}' then 0x0D66
    else if c < '\U{0DE6}' then -1
    else if c <= '\U{0DEF}' then 0x0DE6
    else if c < '\U{0E50}' then -1
    else if c <= '\U{0E59}' then 0x0E50
    else if c < '\U{0ED0}' then -1
    else if c <= '\U{0ED9}' then 0x0ED0
    else if c < '\U{0F20}' then -1
    else if c <= '\U{0F29}' then 0x0F20
    else if c < '\U{1040}' then -1
    else if c <= '\U{1049}' then 0x1040
    else if c < '\U{1090}' then -1
    else if c <= '\U{1099}' then 0x1090
    else if c < '\U{17E0}' then -1
    else if c <= '\U{17E9}' then 0x17E0
    else if c < '\U{1810}' then -1
    else if c <= '\U{1819}' then 0x1810
    else if c < '\U{1946}' then -1
    else if c <= '\U{194F}' then 0x1946
    else if c < '\U{19D0}' then -1
    else if c <= '\U{19D9}' then 0x19D0
    else if c < '\U{1A80}' then -1
    else if c <= '\U{1A89}' then 0x1A80
    else if c < '\U{1A90}' then -1
    else if c <= '\U{1A99}' then 0x1A90
    else if c < '\U{1B50}' then -1
    else if c <= '\U{1B59}' then 0x1B50
    else if c < '\U{1BB0}' then -1
    else if c <= '\U{1BB9}' then 0x1BB0
    else if c < '\U{1C40}' then -1
    else if c <= '\U{1C49}' then 0x1C40
    else if c < '\U{1C50}' then -1
    else if c <= '\U{1C59}' then 0x1C50
    else if c < '\U{A620}' then -1
    else if c <= '\U{A629}' then 0xA620
    else if c < '\U{A8D0}' then -1
    else if c <= '\U{A8D9}' then 0xA8D0
    else if c < '\U{A900}' then -1
    else if c <= '\U{A909}' then 0xA900
    else if c < '\U{A9D0}' then -1
    else if c <= '\U{A9D9}' then 0xA9D0
    else if c < '\U{A9F0}' then -1
    else if c <= '\U{A9F9}' then 0xA9F0
    else if c < '\U{AA50}' then -1
    else if c <= '\U{AA59}' then 0xAA50
    else if c < '\U{ABF0}' then -1
    else if c <= '\U{ABF9}' then 0xABF0
    else if c < '\U{FF10}' then -1
    else if c <= '\U{FF19}' then 0xFF10
    else -1
  }

  /** `Character.digit(c, 10) >= 0`: `c` lies in one of the runs. */
  predicate IsDigit(c: char) { DigitRunZero(c) >= 0 }

  predicate AllDigits(s: string)
  {
    forall i :: 0 <= i < |s| ==> IsDigit(s[i])
  }

  /** The value of a digit: its distance from the zero of its run. */
  function DigitValue(c: char): (d: nat)
    requires IsDigit(c)
    ensures d < 10
    ensures '0' <= c <= '9' ==> d == c as int - '0' as int
  {
    (c as int) - DigitRunZero(c)
  }

  /** The ASCII digit `Integer.toString` writes for `d`. */
  function DigitChar(d: int): (c: char)
    requires 0 <= d < 10
    ensures '0' <= c <= '9' && IsDigit(c) && DigitValue(c) == d
  {
    (('0' as int) + d) as char
  }

  /** The decimal digits of `n`, without leading zeros. */
  function NatToString(n: nat): (s: string)
    ensures |s| >= 1 && AllDigits(s)
    ensures |s| > 1 ==> s[0] != '0'
  {
    if n < 10 then [DigitChar(n)] else NatToString(n / 10) + [DigitChar(n % 10)]
  }

  /** `Integer.toString(n)`: a minus sign for a negative number, then the digits of its magnitude. */
  function IntToString(n: int): string
  {
    if n < 0 then "-" + NatToString(-n) else NatToString(n)
  }

  /** The number a string of decimal digits denotes. */
  function DigitsValue(s: string): nat
    requires AllDigits(s)
  {
    if |s| == 0 then 0 else 10 * DigitsValue(s[..|s| - 1]) + DigitValue(s[|s| - 1])
  }

  /**
   * `Integer.parseInt(s)`: an optional sign followed by at least one digit, and a value
   * that fits in an `int`; anything else throws a NumberFormatException.
   */
  function ParseInt(s: string): Result<Int32>
  {
    if |s| == 0 then Threw(NumberFormat)
    else
      var negative := s[0] == '-';
      var digits := if s[0] == '-' || s[0] == '+' then s[1..] else s;
      if |digits| == 0 || !AllDigits(digits) then Threw(NumberFormat)
      else
        var v: int := if negative then -(DigitsValue(digits) as int) else DigitsValue(digits);
        if INT_MIN <= v <= INT_MAX then Returned(v) else Threw(NumberFormat)
  }

  /** A lone digit of any run parses to its value. */
  lemma ParseOneDigit(c: char)
    requires IsDigit(c)
    ensures ParseInt([c]) == Returned(DigitValue(c))
  {
    assert DigitsValue([c]) == 10 * DigitsValue([]) + DigitValue(c);
  }

  lemma {:induction false} NatToStringValue(n: nat)
    ensures DigitsValue(NatToString(n)) == n
  {
    if n >= 10 {
      var s, c := NatToString(n / 10), DigitChar(n % 10);
      NatToStringValue(n / 10);
      assert (s + [c])[..|s|] == s;
    }
  }

  /** Parsing reads back every `int` that `Integer.toString` writes, negative ones included. */
  lemma ParseIntToString(n: Int32)
    ensures ParseInt(IntToString(n)) == Returned(n)
  {
    if n < 0 {
      ParseNegative(n);
    } else {
      ParseNonNegative(n);
    }
  }

  lemma ParseNonNegative(n: Int32)
    requires n >= 0
    ensures ParseInt(IntToString(n)) == Returned(n)
  {
    var s := NatToString(n);
    NatToStringValue(n);
    assert IsDigit(s[0]);
  }

  lemma ParseNegative(n: Int32)
    requires n < 0
    ensures ParseInt(IntToString(n)) == Returned(n)
  {
    var m: nat := -(n as int);
    var s := NatToString(m);
    NatToStringValue(m);
    var t := "-" + s;
    assert IntToString(n) == t;
    assert t[0] == '-' && t[1..] == s;
    assert -(DigitsValue(s) as int) == n;
  }

  /** A coordinate below ten is written as its single digit. */
  lemma IntToStringDigit(n: Int32)
    requires 0 <= n < 10
    ensures IntToString(n) == [DigitChar(n)]
  {
  }

  // ---------------------------------------------------------------------------------------
  // `String.strip` and `String.split(",", 2)`

  predicate AllWhitespace(s: string)
  {
    forall i :: 0 <= i < |s| ==> IsWhitespace(s[i])
  }

  /** The string without its leading white space. */
  function StripLeading(s: string): (r: string)
    ensures |r| <= |s| && r == s[|s| - |r|..]
    ensures AllWhitespace(s[..|s| - |r|])
    ensures r == [] || !IsWhitespace(r[0])
  {
    if |s| > 0 && IsWhitespace(s[0]) then
      var r := StripLeading(s[1..]);
      assert s[..|s| - |r|] == [s[0]] + s[1..][..|s| - 1 - |r|];
      r
    else s
  }

  /** The string without its trailing white space. */
  function StripTrailing(s: string): (r: string)
    ensures |r| <= |s| && r == s[..|r|]
    ensures AllWhitespace(s[|r|..])
    ensures r == [] || !IsWhitespace(r[|r| - 1])
  {
    if |s| > 0 && IsWhitespace(s[|s| - 1]) then
      var r := StripTrailing(s[..|s| - 1]);
      assert s[|r|..] == s[..|s| - 1][|r|..] + [s[|s| - 1]];
      r
    else s
  }

  /** `String.strip`. */
  function Strip(s: string): string
  {
    StripTrailing(StripLeading(s))
  }

  /** `s.indexOf(',')`. */
  function IndexOfComma(s: string): (i: int)
    ensures -1 <= i < |s|
    ensures i == -1 <==> ',' !in s
    ensures i >= 0 ==> s[i] == ',' && ',' !in s[..i]
  {
    if |s| == 0 then -1
    else if s[0] == ',' then 0
    else
      var j := IndexOfComma(s[1..]);
      if j < 0 then -1
      else
        assert s[..j + 1] == [s[0]] + s[1..][..j];
        j + 1
  }

  /**
   * `s.split(",", 2)`: the whole string when it has no comma, otherwise the parts before and
   * after its first comma.
   */
  function SplitAtFirstComma(s: string): (r: seq<string>)
    ensures ',' !in s ==> r == [s]
    ensures ',' in s ==> |r| == 2 && s == r[0] + "," + r[1] && ',' !in r[0]
  {
    var i := IndexOfComma(s);
    if i < 0 then [s]
    else
      assert s == s[..i] + "," + s[i + 1..];
      [s[..i], s[i + 1..]]
  }

  // ---------------------------------------------------------------------------------------
  // The codec

  /** `encode`: the coordinates written as `x + ", " + y`. */
  function Encode(p: SigilPoint): string
  {
    IntToString(p.x) + ", " + IntToString(p.y)
  }

  /**
   * `decode` on the string value: `x` is parsed before `split[1]` is read, so a string
   * without a comma fails in the parser when its whole text is not a number, and on the
   * missing array element otherwise.
   */
  function Decode(value: string): Result<SigilPoint>
  {
    var split := SplitAtFirstComma(value);
    var x := ParseInt(Strip(split[0]));
    if x.Threw? then Threw(x.error)
    else if |split| < 2 then Threw(ArrayIndexOutOfBounds)
    else
      var y := ParseInt(Strip(split[1]));
      if y.Threw? then Threw(y.error)
      else Returned(SigilPoint(x.value, y.value))
  }

  /** A space or a tab: the white space the pattern allows. */
  predicate IsBlank(c: char) { c == ' ' || c == '\t' }

  predicate IsGridDigit(c: char) { '0' <= c <= '3' }

  /** The string after its leading spaces and tabs (`[ \t]*`). */
  function SkipBlanks(s: string): string
  {
    if |s| > 0 && IsBlank(s[0]) then SkipBlanks(s[1..]) else s
  }

  /**
   * `SIGIL_POINT_PATTERN`, `^[ \t]*[0123][ \t]*,[ \t]*[0123][ \t]*$`, matched against the
   * whole string. Each `[ \t]*` is followed by a character it cannot match, so consuming
   * all blanks at each step is the only way to match; the stages below read the pattern
   * from left to right.
   */
  predicate MatchesPattern(s: string)
  {
    MatchesFromFirstDigit(SkipBlanks(s))
  }

  /** `[0123][ \t]*,[ \t]*[0123][ \t]*$`, after the leading blanks. */
  predicate MatchesFromFirstDigit(a: string)
  {
    |a| > 0 && IsGridDigit(a[0]) && MatchesFromComma(SkipBlanks(a[1..]))
  }

  /** `,[ \t]*[0123][ \t]*$`. */
  predicate MatchesFromComma(b: string)
  {
    |b| > 0 && b[0] == ',' && MatchesFromSecondDigit(SkipBlanks(b[1..]))
  }

  /** `[0123][ \t]*$`. */
  predicate MatchesFromSecondDigit(c: string)
  {
    |c| > 0 && IsGridDigit(c[0]) && SkipBlanks(c[1..]) == []
  }

  predicate AllBlank(s: string)
  {
    forall i :: 0 <= i < |s| ==> IsBlank(s[i])
  }

  // ---------------------------------------------------------------------------------------
  // Properties

  /** Stripping a string that neither starts nor ends with white space changes nothing. */
  lemma StripUnpadded(s: string)
    requires |s| > 0 && !IsWhitespace(s[0]) && !IsWhitespace(s[|s| - 1])
    ensures Strip(s) == s
  {
  }

  /** Leading white space goes, then nothing else. */
  lemma {:induction false} StripLeadingPadded(w: string, s: string)
    requires AllWhitespace(w) && |s| > 0 && !IsWhitespace(s[0])
    ensures StripLeading(w + s) == s
  {
    if |w| > 0 {
      assert (w + s)[1..] == w[1..] + s;
      StripLeadingPadded(w[1..], s);
    }
  }

  /** Trailing white space goes, then nothing else. */
  lemma {:induction false} StripTrailingPadded(s: string, w: string)
    requires AllWhitespace(w) && |s| > 0 && !IsWhitespace(s[|s| - 1])
    ensures StripTrailing(s + w) == s
  {
    if |w| > 0 {
      assert (s + w)[..|s + w| - 1] == s + w[..|w| - 1];
      StripTrailingPadded(s, w[..|w| - 1]);
    }
  }

  /** Stripping a character padded with white space on both sides leaves that character. */
  lemma StripPadded(u: string, c: char, w: string)
    requires AllWhitespace(u) && AllWhitespace(w) && !IsWhitespace(c)
    ensures Strip(u + [c] + w) == [c]
  {
    assert u + [c] + w == u + ([c] + w);
    StripLeadingPadded(u, [c] + w);
    StripTrailingPadded([c], w);
  }

  /** The first comma of `a + "," + b` is the one after `a` when `a` has none. */
  lemma SplitAfter(a: string, b: string)
    requires ',' !in a
    ensures SplitAtFirstComma(a + "," + b) == [a, b]
  {
    var s := a + "," + b;
    var i := IndexOfComma(s);
    assert s[|a|] == ',';
    assert s[..|a|] == a && s[|a| + 1..] == b;
  }

  lemma IntToStringShape(n: int)
    ensures var s := IntToString(n);
      |s| > 0 && ',' !in s && !IsWhitespace(s[0]) && !IsWhitespace(s[|s| - 1])
  {
    var s := IntToString(n);
    if n < 0 {
      assert s[1..] == NatToString(-n);
    }
    assert forall i :: 0 <= i < |s| ==> s[i] == '-' || IsDigit(s[i]);
  }

  /** Decoding reads back every encoded point: each `int` pair, negative coordinates included. */
  lemma DecodeEncode(p: SigilPoint)
    ensures Decode(Encode(p)) == Returned(p)
  {
    var a, b := IntToString(p.x), IntToString(p.y);
    EncodeShape(p);
    IntToStringShape(p.x);
    StripUnpadded(a);
    StripSpaced(p.y);
    ParseIntToString(p.x);
    ParseIntToString(p.y);
    DecodeParts(Encode(p), a, " " + b, p.x, p.y);
  }

  /** A string whose two comma-separated parts parse decodes to the point of those numbers. */
  lemma DecodeParts(value: string, a: string, b: string, x: Int32, y: Int32)
    requires SplitAtFirstComma(value) == [a, b]
    requires ParseInt(Strip(a)) == Returned(x) && ParseInt(Strip(b)) == Returned(y)
    ensures Decode(value) == Returned(SigilPoint(x, y))
  {
  }

  /** Stripping the space before a written coordinate leaves the coordinate. */
  lemma StripSpaced(n: Int32)
    ensures Strip(" " + IntToString(n)) == IntToString(n)
  {
    var b := IntToString(n);
    IntToStringShape(n);
    StripLeadingPadded(" ", b);
    StripTrailingPadded(b, "");
    assert b + "" == b;
  }

  /** Encoding never fails and writes the coordinates separated by a comma and a space. */
  lemma EncodeShape(p: SigilPoint)
    ensures var s := Encode(p); SplitAtFirstComma(s) == [IntToString(p.x), " " + IntToString(p.y)]
  {
    IntToStringShape(p.x);
    assert Encode(p) == IntToString(p.x) + "," + (" " + IntToString(p.y));
    SplitAfter(IntToString(p.x), " " + IntToString(p.y));
  }

  lemma SkipNoBlanks(s: string)
    requires |s| > 0 && !IsBlank(s[0])
    ensures SkipBlanks(s) == s
  {
  }

  lemma SkipOneBlank(c: char, t: string)
    requires IsBlank(c)
    ensures SkipBlanks([c] + t) == SkipBlanks(t)
  {
    assert ([c] + t)[1..] == t;
  }

  /** The encoding of every grid point matches the pattern. */
  lemma EncodeMatchesPattern(p: SigilPoint)
    requires IsInBounds(p)
    ensures MatchesPattern(Encode(p))
  {
    IntToStringDigit(p.x);
    IntToStringDigit(p.y);
    var d1, d2 := DigitChar(p.x), DigitChar(p.y);
    var s := Encode(p);
    assert s == [d1] + ([','] + ([' '] + [d2]));
    SkipNoBlanks(s);
    assert s[1..] == [','] + ([' '] + [d2]);
    SkipNoBlanks(s[1..]);
    assert s[1..][1..] == [' '] + [d2];
    SkipOneBlank(' ', [d2]);
    SkipNoBlanks([d2]);
    assert [d2][1..] == [];
    assert MatchesFromSecondDigit([d2]);
  }

  /** Blanks are white space to `String.strip`. */
  lemma BlanksAreWhitespace(s: string)
    requires forall i :: 0 <= i < |s| ==> IsBlank(s[i])
    ensures AllWhitespace(s) && ',' !in s
  {
  }

  /** A digit 0..3 padded with blanks parses as that digit. */
  lemma ParsePaddedDigit(u: string, c: char, w: string)
    requires forall i :: 0 <= i < |u| ==> IsBlank(u[i])
    requires forall i :: 0 <= i < |w| ==> IsBlank(w[i])
    requires IsGridDigit(c)
    ensures ParseInt(Strip(u + [c] + w)) == Returned(DigitValue(c))
    ensures 0 <= DigitValue(c) < GRID_SIZE
  {
    BlanksAreWhitespace(u);
    BlanksAreWhitespace(w);
    StripPadded(u, c, w);
    assert DigitsValue([c]) == DigitValue(c) by {
      assert [c][..0] == [];
    }
  }

  /** The string a pattern stage starts from is the rest of `s` after some blanks. */
  lemma {:induction false} SkipBlanksSplit(s: string) returns (u: string)
    ensures AllBlank(u) && s == u + SkipBlanks(s)
  {
    if |s| > 0 && IsBlank(s[0]) {
      var t := SkipBlanksSplit(s[1..]);
      u := [s[0]] + t;
      assert s == [s[0]] + s[1..];
    } else {
      u := [];
    }
  }

  /** A string matching the pattern is two grid digits and a comma, each padded with blanks. */
  lemma PatternParts(s: string) returns (u: string, d1: char, v: string, w: string, d2: char, z: string)
    requires MatchesPattern(s)
    ensures AllBlank(u) && AllBlank(v) && AllBlank(w) && AllBlank(z)
    ensures IsGridDigit(d1) && IsGridDigit(d2)
    ensures s == (u + [d1] + v) + "," + (w + [d2] + z)
  {
    var a := SkipBlanks(s);
    u := SkipBlanksSplit(s);
    d1 := a[0];
    var a' := a[1..];
    var b := SkipBlanks(a');
    v := SkipBlanksSplit(a');
    var b' := b[1..];
    var c := SkipBlanks(b');
    w := SkipBlanksSplit(b');
    d2 := c[0];
    var c' := c[1..];
    z := SkipBlanksSplit(c');
    assert c' == z + [];
    Assemble(s, u, a, d1, a', v, b, b', w, c, d2, c', z);
  }

  lemma Assemble(s: string, u: string, a: string, d1: char, a': string, v: string, b: string,
                 b': string, w: string, c: string, d2: char, c': string, z: string)
    requires s == u + a && |a| > 0 && a[0] == d1 && a' == a[1..] && a' == v + b
    requires |b| > 0 && b[0] == ',' && b' == b[1..] && b' == w + c
    requires |c| > 0 && c[0] == d2 && c' == c[1..] && c' == z
    ensures s == (u + [d1] + v) + "," + (w + [d2] + z)
  {
    assert a == [d1] + a';
    assert b == [','] + b';
    assert c == [d2] + c';
  }

  /** Every string the pattern admits decodes, and to a point on the grid. */
  lemma PatternDecodesInGrid(s: string)
    requires MatchesPattern(s)
    ensures Decode(s).Returned? && IsInBounds(Decode(s).value)
  {
    var u, d1, v, w, d2, z := PatternParts(s);
    ParsePaddedDigit(u, d1, v);
    ParsePaddedDigit(w, d2, z);
    BlanksAreWhitespace(u);
    BlanksAreWhitespace(v);
    assert ',' !in u + [d1] + v;
    SplitAfter(u + [d1] + v, w + [d2] + z);
  }

  /** A string without a comma never decodes; when its text is a number, `split[1]` is what fails. */
  lemma NoCommaFails(s: string)
    requires ',' !in s
    ensures Decode(s).Threw?
    ensures ParseInt(Strip(s)).Returned? ==> Decode(s) == Threw(ArrayIndexOutOfBounds)
  {
  }

  /** `String.strip` removes white space from the two ends only. */
  lemma StripSlice(s: string) returns (i: nat, j: nat)
    ensures i <= j <= |s| && Strip(s) == s[i..j]
    ensures AllWhitespace(s[..i]) && AllWhitespace(s[j..])
  {
    var r := StripLeading(s);
    var t := StripTrailing(r);
    i := |s| - |r|;
    j := i + |t|;
    assert r == s[i..];
    assert Strip(s) == t == r[..|t|];
    assert s[i..j] == r[..|t|];
    assert s[j..] == r[|t|..];
  }

  /** A comma is not white space, so it survives stripping. */
  lemma CommaSurvivesStrip(s: string)
    requires ',' in s
    ensures ',' in Strip(s)
  {
    var i, j := StripSlice(s);
    var k :| 0 <= k < |s| && s[k] == ',';
    assert forall m :: 0 <= m < i ==> s[..i][m] == s[m];
    assert forall m :: j <= m < |s| ==> s[j..][m - j] == s[m];
    assert i <= k < j;
    assert Strip(s)[k - i] == ',';
  }

  /** No number contains a comma. */
  lemma ParseRejectsComma(t: string)
    requires ',' in t
    ensures ParseInt(t).Threw?
  {
    var k :| 0 <= k < |t| && t[k] == ',';
    if t[0] == '-' || t[0] == '+' {
      assert t[1..][k - 1] == ',';
    }
  }

  /** Only the first comma splits: the rest stays in the second half and fails to parse. */
  lemma LaterCommaFails(a: string, b: string)
    requires ',' !in a && ',' in b
    ensures Decode(a + "," + b).Threw?
  {
    SplitAfter(a, b);
    CommaSurvivesStrip(b);
    ParseRejectsComma(Strip(b));
  }

  /** The Arabic-Indic and the fullwidth three, stripped of the space before them, parse as 3. */
  lemma OtherThrees()
    ensures ParseInt(Strip("\U{0663}")) == Returned(3)
    ensures ParseInt(Strip(" \U{FF13}")) == Returned(3)
  {
    StripPadded("", '\U{0663}', "");
    StripPadded(" ", '\U{FF13}', "");
    assert "" + ['\U{0663}'] + "" == "\U{0663}" && " " + ['\U{FF13}'] + "" == " \U{FF13}";
    assert IsDigit('\U{0663}') && DigitValue('\U{0663}') == 3;
    assert IsDigit('\U{FF13}') && DigitValue('\U{FF13}') == 3;
    ParseOneDigit('\U{0663}');
    ParseOneDigit('\U{FF13}');
  }

  /**
   * `decode` reads the decimal digits of other scripts too: an Arabic-Indic three, a comma,
   * a space and a fullwidth three decode to the point (3, 3).
   */
  lemma DecodeOtherScripts()
    ensures Decode("\U{0663}, \U{FF13}") == Returned(SigilPoint(3, 3))
  {
    var a, b := "\U{0663}", " \U{FF13}";
    assert a + "," + b == "\U{0663}, \U{FF13}";
    SplitAfter(a, b);
    OtherThrees();
    DecodeParts(a + "," + b, a, b, 3, 3);
  }
}
