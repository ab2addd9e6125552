// The pieces of Python's str and int parsing the toolkit relies on: whitespace stripping,
// splitting at a separator, and base-16 digits.
module PyStr {
  import opened Wrappers

  /** The characters `str.strip()` and `str.split()` treat as whitespace
      (CPython's `Py_UNICODE_ISSPACE`): tab to carriage return, the four ASCII separators
      U+001C..U+001F, the space, U+0085, U+00A0, U+1680, U+2000..U+200A, the line and
      paragraph separators, U+202F, U+205F and U+3000. */
  predicate IsSpace(c: char) {
    var n := c as int;
    (0x09 <= n <= 0x0D) || (0x1C <= n <= 0x20) || n == 0x85 || n == 0xA0 || n == 0x1680
    || (0x2000 <= n <= 0x200A) || n == 0x2028 || n == 0x2029 || n == 0x202F || n == 0x205F
    || n == 0x3000
  }

  /** The bytes `int(bytes)` skips around its digits (CPython's `Py_ISSPACE`): only the space
      and tab to carriage return. */
  predicate IsByteSpace(c: char) {
    c == ' ' || c == '\t' || c == '\n' || c == '\r' || c == '\U{000B}' || c == '\U{000C}'
  }

  /** The characters `int(str, base)` skips around its digits: CPython first turns only
      non-ASCII whitespace into a space, keeping every character below 127 as it is, and then
      skips `Py_ISSPACE`. So U+001C..U+001F are not skipped, while U+0085 or U+3000 are. */
  predicate IsIntSpace(c: char) {
    IsByteSpace(c) || (c as int >= 0x7F && IsSpace(c))
  }

  /** Which of the three whitespace sets a strip removes. */
  datatype Whitespace = StrSpace | ByteSpace | IntSpace

  predicate IsWhite(w: Whitespace, c: char) {
    match w
    case StrSpace => IsSpace(c)
    case ByteSpace => IsByteSpace(c)
    case IntSpace => IsIntSpace(c)
  }

  /** The bytes whitespace is part of the str whitespace. */
  lemma ByteSpaceIsSpace(c: char)
    requires IsByteSpace(c)
    ensures IsSpace(c)
  {
  }

  function StripLeft(w: Whitespace, s: string): (r: string)
    ensures |r| <= |s| && r == s[|s| - |r|..]
    ensures r != [] ==> !IsWhite(w, r[0])
    ensures forall i :: 0 <= i < |s| - |r| ==> IsWhite(w, s[i])
  {
    if s != [] && IsWhite(w, s[0]) then StripLeft(w, s[1..]) else s
  }

  function StripRight(w: Whitespace, s: string): (r: string)
    ensures |r| <= |s| && r == s[..|r|]
    ensures r != [] ==> !IsWhite(w, r[|r| - 1])
    ensures forall i :: |r| <= i < |s| ==> IsWhite(w, s[i])
  {
    if s != [] && IsWhite(w, s[|s| - 1]) then StripRight(w, s[..|s| - 1]) else s
  }

  /** Both ends stripped: the result starts and ends outside the set (StripSpan: and only
      characters of the set were cut). */
  function StripAs(w: Whitespace, s: string): (r: string)
    ensures r == [] || (!IsWhite(w, r[0]) && !IsWhite(w, r[|r| - 1]))
  {
    StripRight(w, StripLeft(w, s))
  }

  /** `s.strip()` on a str. */
  function Strip(s: string): (r: string)
    ensures r == [] || (!IsSpace(r[0]) && !IsSpace(r[|r| - 1]))
  {
    StripAs(StrSpace, s)
  }

  /** The strip `int(bytes)` applies, on the bytes read as characters. */
  function StripBytes(s: string): (r: string)
    ensures r == [] || (!IsByteSpace(r[0]) && !IsByteSpace(r[|r| - 1]))
  {
    StripAs(ByteSpace, s)
  }

  /** Only whitespace is removed: the strip is the span of s after its leading whitespace,
      and every character cut off at either end is in the set. */
  lemma StripSpan(w: Whitespace, s: string)
    ensures |s| - |StripLeft(w, s)| + |StripAs(w, s)| <= |s|
    ensures forall i :: 0 <= i < |StripAs(w, s)| ==> StripAs(w, s)[i] == s[|s| - |StripLeft(w, s)| + i]
    ensures forall i :: 0 <= i < |s| - |StripLeft(w, s)| ==> IsWhite(w, s[i])
    ensures forall i :: |s| - |StripLeft(w, s)| + |StripAs(w, s)| <= i < |s| ==> IsWhite(w, s[i])
  {
    var l := StripLeft(w, s);
    var r := StripRight(w, l);
    assert StripAs(w, s) == r;
    SpanCut(w, s, l, r);
  }

  /** A left cut l of s and a right cut r of l leave r as a span of s, with whitespace cut. */
  lemma SpanCut(w: Whitespace, s: string, l: string, r: string)
    requires |l| <= |s| && l == s[|s| - |l|..]
    requires forall i :: 0 <= i < |s| - |l| ==> IsWhite(w, s[i])
    requires |r| <= |l| && r == l[..|r|]
    requires forall i :: |r| <= i < |l| ==> IsWhite(w, l[i])
    ensures |s| - |l| + |r| <= |s|
    ensures forall i :: 0 <= i < |r| ==> r[i] == s[|s| - |l| + i]
    ensures forall i :: 0 <= i < |s| - |l| ==> IsWhite(w, s[i])
    ensures forall i :: |s| - |l| + |r| <= i < |s| ==> IsWhite(w, s[i])
  {
    var k := |s| - |l|;
    forall i | k + |r| <= i < |s|
      ensures IsWhite(w, s[i])
    {
      assert s[i] == l[i - k];
    }
  }

  /** A string that starts and ends outside the set strips to itself. */
  lemma StripAsTrimmed(w: Whitespace, s: string)
    requires s == [] || (!IsWhite(w, s[0]) && !IsWhite(w, s[|s| - 1]))
    ensures StripAs(w, s) == s
  {
  }

  lemma StripTrimmed(s: string)
    requires s == [] || (!IsSpace(s[0]) && !IsSpace(s[|s| - 1]))
    ensures Strip(s) == s
  {
    StripAsTrimmed(StrSpace, s);
  }

  lemma StripBytesTrimmed(s: string)
    requires s == [] || (!IsByteSpace(s[0]) && !IsByteSpace(s[|s| - 1]))
    ensures StripBytes(s) == s
  {
    StripAsTrimmed(ByteSpace, s);
  }

  /** Index of the first occurrence of c in s, if any. */
  function IndexOf(s: string, c: char): (r: Option<nat>)
    ensures r.Some? ==> r.value < |s| && s[r.value] == c && forall i :: 0 <= i < r.value ==> s[i] != c
    ensures r.None? ==> forall i :: 0 <= i < |s| ==> s[i] != c
  {
    if s == [] then None
    else if s[0] == c then Some(0)
    else match IndexOf(s[1..], c)
      case None => None
      case Some(i) => Some(i + 1)
  }

  /** Appending c after a string free of c puts the first c right there. */
  lemma {:induction false} IndexOfAfter(a: string, c: char, b: string)
    requires IndexOf(a, c).None?
    ensures IndexOf(a + [c] + b, c) == Some(|a|)
  {
    if a != [] {
      assert (a + [c] + b)[1..] == a[1..] + [c] + b;
      IndexOfAfter(a[1..], c, b);
    }
  }

  /** The value of one base-16 digit, either case. */
  function HexDigit(c: char): (r: Option<int>)
    ensures r.Some? ==> 0 <= r.value < 16
  {
    if '0' <= c <= '9' then Some(c as int - '0' as int)
    else if 'a' <= c <= 'f' then Some(c as int - 'a' as int + 10)
    else if 'A' <= c <= 'F' then Some(c as int - 'A' as int + 10)
    else None
  }

  predicate IsHexDigit(c: char) {
    HexDigit(c).Some?
  }

  /** `int(s, 16)` on a non-empty run of hex digits; anything else is refused. */
  function ParseHex(s: string): (r: Result<nat>)
    ensures r.Ok? <==> s != [] && forall i :: 0 <= i < |s| ==> IsHexDigit(s[i])
  {
    if s == [] then Err(MalformedHex)
    else if |s| == 1 then
      match HexDigit(s[0])
      case None => Err(MalformedHex)
      case Some(d) => Ok(d)
    else
      var hi := ParseHex(s[..|s| - 1]);
      match HexDigit(s[|s| - 1])
      case None => Err(MalformedHex)
      case Some(d) => if hi.Err? then Err(MalformedHex) else Ok(hi.value * 16 + d)
  }

  lemma HexDigitNotSpace(c: char)
    requires IsHexDigit(c)
    ensures !IsSpace(c)
  {
  }

  /** Upper-case hex digit for 0..15. */
  function HexChar(d: int): (c: char)
    requires 0 <= d < 16
    ensures HexDigit(c) == Some(d)
  {
    if d < 10 then ('0' as int + d) as char else ('A' as int + d - 10) as char
  }

  /** `f"{n:X}"`: the shortest upper-case base-16 spelling of n. */
  function ToHex(n: nat): (s: string)
    ensures s != [] && forall i :: 0 <= i < |s| ==> IsHexDigit(s[i])
    decreases n
  {
    if n < 16 then [HexChar(n)] else ToHex(n / 16) + [HexChar(n % 16)]
  }

  /** Parsing a hex spelling gives the number back. */
  lemma {:induction false} ParseToHex(n: nat)
    ensures ParseHex(ToHex(n)) == Ok(n)
    decreases n
  {
    if n >= 16 {
      ParseToHex(n / 16);
      var s := ToHex(n);
      assert s[..|s| - 1] == ToHex(n / 16);
    }
  }

  /** The digits after an optional "0x"/"0X" prefix. */
  function Unprefixed(s: string): (r: string)
    ensures |r| <= |s| && r == s[|s| - |r|..]
  {
    if |s| >= 2 && s[0] == '0' && (s[1] == 'x' || s[1] == 'X') then s[2..] else s
  }

  /** A parsed magnitude with its sign applied; every failure is a malformed number. */
  function Signed(negative: bool, p: Result<nat>): (r: Result<int>)
    ensures r.Ok? <==> p.Ok?
    ensures r.Ok? ==> r.value == if negative then -(p.value as int) else p.value as int
    ensures r.Err? ==> r.error == MalformedHex
  {
    match p
    case Err(_) => Err(MalformedHex)
    case Ok(v) => Ok(if negative then -(v as int) else v as int)
  }

  /** `int(t, 16)`: surrounding whitespace, an optional sign and an optional "0x"/"0X" prefix
      around a non-empty run of hex digits. */
  function PyInt16(t: string): (r: Result<int>)
    ensures r.Err? ==> r.error == MalformedHex
  {
    SignedHex(StripAs(IntSpace, t))
  }

  /** The sign and prefix rules of `int(u, 16)` on text that has already been stripped. */
  function SignedHex(u: string): (r: Result<int>)
    ensures r.Err? ==> r.error == MalformedHex
  {
    if u != [] && (u[0] == '-' || u[0] == '+') then Signed(u[0] == '-', ParseHex(Unprefixed(u[1..])))
    else Signed(false, ParseHex(Unprefixed(u)))
  }

  /** Text with nothing to strip is read by its sign and prefix rules alone, stripped or not. */
  lemma PyInt16Trimmed(u: string)
    requires u != [] && !IsSpace(u[0]) && !IsSpace(u[|u| - 1])
    ensures PyInt16(Strip(u)) == SignedHex(u)
    ensures PyInt16(u) == SignedHex(u)
  {
    StripTrimmed(u);
    StripAsTrimmed(IntSpace, u);
  }

  /** `int(str, 16)` does not skip an ASCII separator that only `str.strip()` treats as
      whitespace: a U+001C before the hex digits is refused. */
  lemma PyInt16KeepsSeparator(c: char, h: string)
    requires IsSpace(c) && !IsIntSpace(c)
    requires h != [] && forall i :: 0 <= i < |h| ==> IsHexDigit(h[i])
    ensures PyInt16([c] + h) == Err(MalformedHex)
  {
    var m := [c] + h;
    HexDigitsPlain(h);
    LastOfConcat([c], h);
    IntSpaceIsSpace(h[|h| - 1]);
    StripAsTrimmed(IntSpace, m);
    SignedHexRefuses(m);
  }

  /** `int(str, 16)` does skip its own whitespace, U+3000 or a tab say, before the digits. */
  lemma PyInt16SkipsSpace(c: char, h: string, v: nat)
    requires IsIntSpace(c)
    requires ParseHex(h) == Ok(v)
    ensures PyInt16([c] + h) == Ok(v)
  {
    var m := [c] + h;
    HexDigitsPlain(h);
    IntSpaceIsSpace(h[0]);
    IntSpaceIsSpace(h[|h| - 1]);
    assert m[1..] == h;
    assert StripLeft(IntSpace, m) == StripLeft(IntSpace, h);
    StripAsTrimmed(IntSpace, h);
  }

  /** The int whitespace is part of the str whitespace. */
  lemma IntSpaceIsSpace(c: char)
    ensures IsIntSpace(c) ==> IsSpace(c)
  {
  }

  /** Text starting with neither a sign nor a hex digit is not a hex number. */
  lemma SignedHexRefuses(m: string)
    requires m != [] && m[0] != '-' && m[0] != '+' && !IsHexDigit(m[0])
    ensures SignedHex(m) == Err(MalformedHex)
  {
    assert Unprefixed(m) == m;
    assert ParseHex(m).Err?;
  }

  /** Hex digits have no space at either end, no sign and no "0x" prefix. */
  lemma HexDigitsPlain(t: string)
    requires t != [] && forall i :: 0 <= i < |t| ==> IsHexDigit(t[i])
    ensures !IsSpace(t[0]) && !IsSpace(t[|t| - 1])
    ensures Unprefixed(t) == t && t[0] != '-' && t[0] != '+'
  {
    HexDigitNotSpace(t[0]);
    HexDigitNotSpace(t[|t| - 1]);
    assert IsHexDigit(t[0]);
    if |t| >= 2 {
      assert IsHexDigit(t[1]);
    }
  }

  /** Plain hex digits of value v are read by `int(t, 16)` as v, stripped or not. */
  lemma PyInt16Plain(t: string, v: nat)
    requires ParseHex(t) == Ok(v)
    ensures PyInt16(t).Ok? && PyInt16(t).value == v
    ensures PyInt16(Strip(t)).Ok? && PyInt16(Strip(t)).value == v
  {
    HexDigitsPlain(t);
    PyInt16Trimmed(t);
  }

  /** The last character of p + h is the last of h. */
  lemma LastOfConcat(p: string, h: string)
    requires h != []
    ensures (p + h)[|p + h| - 1] == h[|h| - 1]
  {
  }

  /** "0x" + h starts with '0' and loses exactly its prefix to `Unprefixed`. */
  lemma UnprefixedOf(h: string)
    ensures ("0x" + h)[0] == '0'
    ensures Unprefixed("0x" + h) == h
  {
    assert ("0x" + h)[2..] == h;
  }

  /** The sign rules read "0x" + h as the value of h. */
  lemma SignedHexPrefixed(h: string, v: nat)
    requires ParseHex(h) == Ok(v)
    ensures SignedHex("0x" + h).Ok? && SignedHex("0x" + h).value == v
  {
    UnprefixedOf(h);
  }

  /** "-" + h starts with the sign, and h follows it. */
  lemma SignOf(h: string)
    ensures ("-" + h)[0] == '-'
    ensures ("-" + h)[1..] == h
  {
  }

  /** The sign rules read "-" + h, for hex digits h, as minus the value of h. */
  lemma SignedHexNegated(h: string, v: nat)
    requires ParseHex(h) == Ok(v)
    ensures SignedHex("-" + h).Ok? && SignedHex("-" + h).value == -(v as int)
  {
    SignOf(h);
    HexDigitsPlain(h);
  }

  /** `int("0x" + h, 16)`, stripped or not, reads the digits h. */
  lemma PyInt16Prefixed(h: string, v: nat)
    requires ParseHex(h) == Ok(v)
    ensures PyInt16(Strip("0x" + h)).Ok? && PyInt16(Strip("0x" + h)).value == v
  {
    UnprefixedOf(h);
    HexDigitsPlain(h);
    LastOfConcat("0x", h);
    PyInt16Trimmed("0x" + h);
    SignedHexPrefixed(h, v);
  }

  /** `int("-" + h, 16)`, stripped or not, is minus the value of the digits h. */
  lemma PyInt16Negated(h: string, v: nat)
    requires ParseHex(h) == Ok(v)
    ensures PyInt16(Strip("-" + h)).Ok? && PyInt16(Strip("-" + h)).value == -(v as int)
  {
    SignOf(h);
    HexDigitsPlain(h);
    LastOfConcat("-", h);
    PyInt16Trimmed("-" + h);
    SignedHexNegated(h, v);
  }

  /** The value of one decimal digit. */
  function DecDigit(c: char): (r: Option<int>)
    ensures r.Some? <==> '0' <= c <= '9'
    ensures r.Some? ==> 0 <= r.value < 10
  {
    if '0' <= c <= '9' then Some(c as int - '0' as int) else None
  }

  /** A non-empty run of decimal digits read as a number; anything else is refused. */
  function ParseDec(s: string): (r: Result<nat>)
    ensures r.Ok? <==> s != [] && forall i :: 0 <= i < |s| ==> '0' <= s[i] <= '9'
  {
    if s == [] then Err(NotAnInteger)
    else if |s| == 1 then
      match DecDigit(s[0])
      case None => Err(NotAnInteger)
      case Some(d) => Ok(d)
    else
      var hi := ParseDec(s[..|s| - 1]);
      match DecDigit(s[|s| - 1])
      case None => Err(NotAnInteger)
      case Some(d) => if hi.Err? then Err(NotAnInteger) else Ok(hi.value * 10 + d)
  }

  /** `int(t)`: surrounding whitespace and an optional sign around a non-empty run of decimal
      digits; every other text is refused. */
  function PyInt10(t: string): (r: Result<int>)
    ensures r.Err? ==> r.error == NotAnInteger
    ensures StripBytes(t) == [] ==> r.Err?
  {
    SignedDec(StripBytes(t))
  }

  /** The sign rule of `int(u)` on text that has already been stripped. */
  function SignedDec(u: string): (r: Result<int>)
    ensures r.Err? ==> r.error == NotAnInteger
    ensures u == [] ==> r.Err?
    ensures r.Ok? <==> if u != [] && (u[0] == '-' || u[0] == '+') then ParseDec(u[1..]).Ok? else ParseDec(u).Ok?
  {
    if u != [] && (u[0] == '-' || u[0] == '+') then
      match ParseDec(u[1..])
      case Err(_) => Err(NotAnInteger)
      case Ok(v) => Ok(if u[0] == '-' then -(v as int) else v as int)
    else
      match ParseDec(u)
      case Err(_) => Err(NotAnInteger)
      case Ok(v) => Ok(v as int)
  }

  /** The decimal digit for 0..9. */
  function DecChar(d: int): (c: char)
    requires 0 <= d < 10
    ensures DecDigit(c) == Some(d)
  {
    ('0' as int + d) as char
  }

  /** `str(n)`: the shortest decimal spelling of n. */
  function ToDec(n: nat): (s: string)
    ensures s != [] && forall i :: 0 <= i < |s| ==> '0' <= s[i] <= '9'
    decreases n
  {
    if n < 10 then [DecChar(n)] else ToDec(n / 10) + [DecChar(n % 10)]
  }

  /** Parsing a decimal spelling gives the number back. */
  lemma {:induction false} ParseToDec(n: nat)
    ensures ParseDec(ToDec(n)) == Ok(n)
    decreases n
  {
    if n >= 10 {
      ParseToDec(n / 10);
      var s := ToDec(n);
      assert s[..|s| - 1] == ToDec(n / 10);
    }
  }

  /** `int(str(n))` is n. */
  lemma PyInt10RoundTrip(n: nat)
    ensures PyInt10(ToDec(n)) == Ok(n)
  {
    var d := ToDec(n);
    ParseToDec(n);
    DecDigitsPlain(d);
    StripBytesTrimmed(d);
  }

  /** Decimal digits have no space at either end and no sign. */
  lemma DecDigitsPlain(d: string)
    requires d != [] && forall i :: 0 <= i < |d| ==> '0' <= d[i] <= '9'
    ensures !IsSpace(d[0]) && !IsSpace(d[|d| - 1]) && d[0] != '-' && d[0] != '+'
    ensures !IsByteSpace(d[0]) && !IsByteSpace(d[|d| - 1])
  {
  }

  /** `int("-" + str(n))` is -n. */
  lemma PyInt10Negative(n: nat)
    ensures PyInt10("-" + ToDec(n)) == Ok(-(n as int))
  {
    var d := ToDec(n);
    SignedDigitsTrimmed(d);
    ParseToDec(n);
    SignedDecNegative(d, n);
  }

  /** A minus sign before decimal digits leaves nothing for `int(bytes)` to strip. */
  lemma SignedDigitsTrimmed(d: string)
    requires d != [] && forall i :: 0 <= i < |d| ==> '0' <= d[i] <= '9'
    ensures StripBytes("-" + d) == "-" + d
  {
    SignOf(d);
    DecDigitsPlain(d);
    LastOfConcat("-", d);
    StripBytesTrimmed("-" + d);
  }

  /** The sign rule reads "-" + d, for the digits d of n, as -n. */
  lemma SignedDecNegative(d: string, n: nat)
    requires ParseDec(d) == Ok(n)
    ensures SignedDec("-" + d) == Ok(-(n as int))
  {
    SignOf(d);
  }

  /** Whitespace around the digits is ignored: `int(" " + str(n) + "\n")` is n. */
  lemma PyInt10Padded(n: nat)
    ensures PyInt10(" " + ToDec(n) + "\n") == Ok(n)
  {
    var d := ToDec(n);
    DecDigitsPlain(d);
    StripPadded(d);
    PyInt10RoundTrip(n);
  }

  /** One space before and a newline after a word strip away. */
  lemma StripPadded(d: string)
    requires d != [] && !IsByteSpace(d[0]) && !IsByteSpace(d[|d| - 1])
    ensures StripBytes(" " + d + "\n") == d
  {
    var w := " " + d + "\n";
    assert w[1..] == d + "\n";
    assert StripLeft(ByteSpace, w) == StripLeft(ByteSpace, d + "\n");
    assert StripLeft(ByteSpace, d + "\n") == d + "\n";
    assert (d + "\n")[..|d|] == d;
    assert StripRight(ByteSpace, d + "\n") == StripRight(ByteSpace, d);
    StripBytesTrimmed(d);
  }

  /** `str.strip()` removes a whitespace character of the whole set at either end,
      U+001C or U+3000 as much as a space. */
  lemma StripSeparators(c: char, t: string, d: char)
    requires IsSpace(c) && IsSpace(d)
    requires t != [] && !IsSpace(t[0]) && !IsSpace(t[|t| - 1])
    ensures Strip([c] + t + [d]) == t
  {
    var u := [c] + t + [d];
    assert u[1..] == t + [d];
    assert StripLeft(StrSpace, u) == StripLeft(StrSpace, t + [d]);
    assert StripLeft(StrSpace, t + [d]) == t + [d];
    assert (t + [d])[..|t|] == t;
    assert StripRight(StrSpace, t + [d]) == StripRight(StrSpace, t);
    StripTrimmed(t);
  }

  /** `int(bytes)` strips only `Py_ISSPACE`: a str-only whitespace character before the
      digits, a U+001C byte say, is refused where `int(str)` would skip it. */
  lemma PyInt10KeepsSeparator(c: char, n: nat)
    requires IsSpace(c) && !IsByteSpace(c)
    ensures PyInt10([c] + ToDec(n)) == Err(NotAnInteger)
  {
    var d := ToDec(n);
    var m := [c] + d;
    DecDigitsPlain(d);
    LastOfConcat([c], d);
    StripBytesTrimmed(m);
    SignedDecRefuses(m);
  }

  /** Text starting with neither a sign nor a digit is not a decimal number. */
  lemma SignedDecRefuses(m: string)
    requires m != [] && m[0] != '-' && m[0] != '+' && !('0' <= m[0] <= '9')
    ensures SignedDec(m) == Err(NotAnInteger)
  {
    assert ParseDec(m).Err?;
  }

  /** ASCII `str.upper()`, exact on the characters `decode_gsc_text` produces. */
  function AsciiUpper(s: string): (t: string)
    ensures |t| == |s|
  {
    seq(|s|, i requires 0 <= i < |s| => if 'a' <= s[i] <= 'z' then (s[i] as int - 32) as char else s[i])
  }

  /** ASCII `str.lower()`. */
  function AsciiLower(s: string): (t: string)
    ensures |t| == |s|
  {
    seq(|s|, i requires 0 <= i < |s| => if 'A' <= s[i] <= 'Z' then (s[i] as int + 32) as char else s[i])
  }
}
