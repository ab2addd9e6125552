// The console front end's byte parsing and its raw-address edit (run_emulator.py): the text a
// user types for a byte string, and the single-byte write to a typed hex address.
module Console {
  import opened Wrappers
  import opened Codec
  import opened PyStr

  // ---------------------------------------------------------------------------
  // The string operations `_parse_bytes` is built from
  // ---------------------------------------------------------------------------

  /** `s.replace(",", " ")`. */
  function CommasToSpaces(s: string): (r: string)
    ensures |r| == |s|
  {
    seq(|s|, i requires 0 <= i < |s| => if s[i] == ',' then ' ' else s[i])
  }

  /** `s.replace("0x", rep)`: occurrences found left to right, none overlapping. */
  function Replace0x(s: string, rep: string): (r: string)
    decreases |s|
  {
    if |s| >= 2 && s[0] == '0' && s[1] == 'x' then rep + Replace0x(s[2..], rep)
    else if s == [] then []
    else [s[0]] + Replace0x(s[1..], rep)
  }

  /** The separators `_parse_bytes` blanks out: commas, then every "0x". */
  function Cleaned(s: string): string {
    Replace0x(CommasToSpaces(s), " ")
  }

  predicate NoSpace(w: string) {
    forall j :: 0 <= j < |w| ==> !IsSpace(w[j])
  }

  predicate AllSpace(w: string) {
    forall j :: 0 <= j < |w| ==> IsSpace(w[j])
  }

  /** Length of the run of non-whitespace at the start of t. */
  function TokenEnd(t: string): (n: nat)
    ensures n <= |t| && forall j :: 0 <= j < n ==> !IsSpace(t[j])
    ensures n < |t| ==> IsSpace(t[n])
  {
    if t == [] || IsSpace(t[0]) then 0 else 1 + TokenEnd(t[1..])
  }

  /** `s.split()`: whitespace skipped, and each maximal run of non-whitespace one token, in
      order. */
  function Tokens(s: string): (ts: seq<string>)
    decreases |s|
  {
    if s == [] then []
    else if IsSpace(s[0]) then Tokens(s[1..])
    else
      var n := TokenEnd(s);
      [s[..n]] + Tokens(s[n..])
  }

  /** Every token is a non-empty run of non-whitespace. */
  lemma {:induction false} TokenIsWord(s: string, i: nat)
    requires i < |Tokens(s)|
    ensures Tokens(s)[i] != [] && NoSpace(Tokens(s)[i])
    decreases |s|
  {
    if IsSpace(s[0]) {
      TokenIsWord(s[1..], i);
    } else {
      var n := TokenEnd(s);
      var rest := Tokens(s[n..]);
      assert Tokens(s) == [s[..n]] + rest;
      if i == 0 {
        assert Tokens(s)[0] == s[..n];
        assert forall j :: 0 <= j < n ==> s[..n][j] == s[j];
      } else {
        assert Tokens(s)[i] == rest[i - 1];
        TokenIsWord(s[n..], i - 1);
      }
    }
  }

  // ---------------------------------------------------------------------------
  // Python's conversions
  // ---------------------------------------------------------------------------

  /** Every character of t is a hex digit. */
  predicate AllHex(t: string) {
    forall i :: 0 <= i < |t| ==> IsHexDigit(t[i])
  }

  /** Byte i of bs is the hex pair at 2i, 2i+1 of t, high digit first. */
  predicate PairsValue(t: string, bs: seq<Byte>)
    requires AllHex(t)
  {
    |bs| == |t| / 2
    && forall i :: 0 <= i < |t| / 2 ==> bs[i] == HexDigit(t[2 * i]).value * 16 + HexDigit(t[2 * i + 1]).value
  }

  /** `bytes.fromhex(t)` on a token of even length: each pair of hex digits is one byte. */
  function FromHexPairs(t: string): (r: Result<seq<Byte>>)
    requires |t| % 2 == 0
    ensures r.Ok? <==> AllHex(t)
    ensures r.Ok? ==> |r.value| == |t| / 2
    ensures r.Ok? ==> forall i :: 0 <= i < |t| / 2 ==>
              r.value[i] == HexDigit(t[2 * i]).value * 16 + HexDigit(t[2 * i + 1]).value
    ensures r.Err? ==> r.error == MalformedHex
    decreases |t|
  {
    if t == [] then Ok([])
    else if HexDigit(t[0]).None? || HexDigit(t[1]).None? then Err(MalformedHex)
    else
      match FromHexPairs(t[2..])
      case Err(e) => Err(e)
      case Ok(rest) => Ok([HexDigit(t[0]).value * 16 + HexDigit(t[1]).value] + rest)
  }

  /** `int(p, 16)` of every token, in order. */
  function TokenValues(ts: seq<string>): (vs: seq<Result<int>>)
    ensures |vs| == |ts|
  {
    seq(|ts|, i requires 0 <= i < |ts| => PyInt16(ts[i]))
  }

  /** `bytes(...)` over the converted tokens: taken in turn, the first that is not a number, or
      is outside 0..255, stops the conversion. */
  function Collect(vs: seq<Result<int>>): (r: Result<seq<Byte>>)
    ensures r.Ok? ==> |r.value| == |vs|
  {
    if vs == [] then Ok([])
    else if vs[0].Err? then Err(vs[0].error)
    else if !(0 <= vs[0].value < 0x100) then Err(ByteOutOfRange)
    else
      match Collect(vs[1..])
      case Err(e) => Err(e)
      case Ok(rest) => Ok([vs[0].value] + rest)
  }

  /** A converted token that is a byte. */
  predicate IsByteValue(v: Result<int>) {
    v.Ok? && 0 <= v.value < 0x100
  }

  predicate AllByteValues(vs: seq<Result<int>>) {
    forall i :: 0 <= i < |vs| ==> IsByteValue(vs[i])
  }

  /** bs holds the converted values, in order. */
  predicate BytesOf(vs: seq<Result<int>>, bs: seq<Byte>) {
    |bs| == |vs| && forall i :: 0 <= i < |vs| ==> vs[i] == Ok(bs[i])
  }

  /** The conversion succeeds exactly when every value is a byte, and then keeps them in order. */
  lemma {:induction false} CollectExact(vs: seq<Result<int>>)
    ensures Collect(vs).Ok? <==> AllByteValues(vs)
    ensures Collect(vs).Ok? ==> BytesOf(vs, Collect(vs).value)
  {
    if vs != [] {
      CollectExact(vs[1..]);
      assert forall i :: 1 <= i < |vs| ==> vs[i] == vs[1..][i - 1];
    }
  }

  /** Of the first token that is not a byte, the error is the conversion's own when it is not a
      number, and out-of-range otherwise. */
  lemma {:induction false} CollectFirstError(vs: seq<Result<int>>, k: int)
    requires 0 <= k < |vs| && !IsByteValue(vs[k])
    requires forall i :: 0 <= i < k ==> IsByteValue(vs[i])
    ensures Collect(vs) == if vs[k].Err? then Err(vs[k].error) else Err(ByteOutOfRange)
  {
    if k > 0 {
      assert forall i :: 0 <= i < k - 1 ==> vs[1..][i] == vs[i + 1];
      CollectFirstError(vs[1..], k - 1);
    }
  }

  // ---------------------------------------------------------------------------
  // `_parse_bytes`
  // ---------------------------------------------------------------------------

  /** `_parse_bytes(s)`: nothing for no tokens; one token is a compact hex string of whole
      pairs; several tokens are one byte each. */
  function ParseBytes(s: string): (r: Result<seq<Byte>>)
    ensures Tokens(Cleaned(s)) == [] ==> r == Ok([])
    ensures |Tokens(Cleaned(s))| == 1 && |Tokens(Cleaned(s))[0]| % 2 == 1 ==> r == Err(OddHexLength)
    ensures |Tokens(Cleaned(s))| == 1 && |Tokens(Cleaned(s))[0]| % 2 == 0 ==>
              (r.Ok? <==> AllHex(Tokens(Cleaned(s))[0])) && (r.Ok? ==> PairsValue(Tokens(Cleaned(s))[0], r.value))
    ensures |Tokens(Cleaned(s))| >= 2 ==>
              (r.Ok? <==> AllByteValues(TokenValues(Tokens(Cleaned(s)))))
              && (r.Ok? ==> BytesOf(TokenValues(Tokens(Cleaned(s))), r.value))
  {
    var parts := Tokens(Cleaned(s));
    if |parts| == 0 then Ok([])
    else if |parts| == 1 then
      if |parts[0]| % 2 != 0 then Err(OddHexLength) else FromHexPairs(parts[0])
    else
      CollectExact(TokenValues(parts));
      Collect(TokenValues(parts))
  }

  // ---------------------------------------------------------------------------
  // The three spellings of a byte string the prompt accepts
  // ---------------------------------------------------------------------------

  /** A byte as two upper-case hex digits. */
  function Hex2(b: Byte): (s: string)
    ensures |s| == 2 && IsHexDigit(s[0]) && IsHexDigit(s[1])
  {
    [HexChar(b / 16), HexChar(b % 16)]
  }

  /** "1234": the pairs run together. */
  function CompactHex(bs: seq<Byte>): (s: string)
    ensures |s| == 2 * |bs| && AllHex(s)
  {
    if bs == [] then [] else Hex2(bs[0]) + CompactHex(bs[1..])
  }

  /** "12 34": the pairs separated by single spaces. */
  function SpacedHex(bs: seq<Byte>): (s: string)
    ensures forall i :: 0 <= i < |s| ==> s[i] == ' ' || IsHexDigit(s[i])
  {
    if bs == [] then []
    else if |bs| == 1 then Hex2(bs[0])
    else Hex2(bs[0]) + " " + SpacedHex(bs[1..])
  }

  /** "0x12,0x34": each pair with a "0x" prefix, separated by commas. */
  function PrefixedHex(bs: seq<Byte>): string {
    if bs == [] then []
    else if |bs| == 1 then "0x" + Hex2(bs[0])
    else "0x" + Hex2(bs[0]) + "," + PrefixedHex(bs[1..])
  }

  /** What `_parse_bytes` makes of the prefixed spelling once the separators are blanked. */
  function PrefixedCleaned(bs: seq<Byte>): string {
    if bs == [] then []
    else if |bs| == 1 then " " + Hex2(bs[0])
    else " " + Hex2(bs[0]) + " " + PrefixedCleaned(bs[1..])
  }

  /** The two-digit spelling of each byte, in order. */
  function HexTokens(bs: seq<Byte>): (ts: seq<string>)
    ensures |ts| == |bs| && forall i :: 0 <= i < |bs| ==> ts[i] == Hex2(bs[i])
  {
    if bs == [] then [] else [Hex2(bs[0])] + HexTokens(bs[1..])
  }

  // ---------------------------------------------------------------------------
  // Lemmas about the pieces
  // ---------------------------------------------------------------------------

  /** Leading whitespace does not change the tokens. */
  lemma {:induction false} TokensAfterSpace(pre: string, x: string)
    requires AllSpace(pre)
    ensures Tokens(pre + x) == Tokens(x)
  {
    if pre != [] {
      assert (pre + x)[0] == pre[0] && IsSpace(pre[0]);
      assert (pre + x)[1..] == pre[1..] + x;
      TokensAfterSpace(pre[1..], x);
    } else {
      assert pre + x == x;
    }
  }

  lemma {:induction false} TokenEndWord(w: string, rest: string)
    requires NoSpace(w)
    requires rest == [] || IsSpace(rest[0])
    ensures TokenEnd(w + rest) == |w|
  {
    if w != [] {
      assert (w + rest)[0] == w[0];
      assert (w + rest)[1..] == w[1..] + rest;
      TokenEndWord(w[1..], rest);
    } else {
      assert w + rest == rest;
    }
  }

  /** A word of non-whitespace followed by whitespace or the end is the next token. */
  lemma TokensCons(pre: string, w: string, rest: string)
    requires AllSpace(pre) && w != [] && NoSpace(w)
    requires rest == [] || IsSpace(rest[0])
    ensures Tokens(pre + w + rest) == [w] + Tokens(rest)
  {
    assert pre + w + rest == pre + (w + rest);
    TokensAfterSpace(pre, w + rest);
    TokenEndWord(w, rest);
    assert (w + rest)[0] == w[0];
    assert (w + rest)[..|w|] == w;
    assert (w + rest)[|w|..] == rest;
  }

  /** Text free of commas and of the letter x passes the separator replacement unchanged. */
  lemma {:induction false} CleanedPlain(s: string)
    requires forall i :: 0 <= i < |s| ==> s[i] != ',' && s[i] != 'x'
    ensures Cleaned(s) == s
  {
    assert CommasToSpaces(s) == s;
    Replace0xPlain(s, " ");
  }

  lemma {:induction false} Replace0xPlain(s: string, rep: string)
    requires forall i :: 0 <= i < |s| ==> s[i] != 'x'
    ensures Replace0x(s, rep) == s
    decreases |s|
  {
    if s != [] {
      Replace0xPlain(s[1..], rep);
    }
  }

  lemma CommasSplit(a: string, b: string)
    ensures CommasToSpaces(a + b) == CommasToSpaces(a) + CommasToSpaces(b)
  {
  }

  /** A text with no x, whose next character is not an x either, passes unchanged. */
  lemma {:induction false} Replace0xPrefix(a: string, b: string, rep: string)
    requires forall i :: 0 <= i < |a| ==> a[i] != 'x'
    requires b == [] || b[0] != 'x'
    ensures Replace0x(a + b, rep) == a + Replace0x(b, rep)
    decreases |a|
  {
    if a != [] {
      assert (a + b)[1..] == a[1..] + b;
      Replace0xPrefix(a[1..], b, rep);
      assert a == [a[0]] + a[1..];
    } else {
      assert a + b == b;
    }
  }

  /** Two hex digits: no comma, no x. */
  predicate IsPair(h: string) {
    |h| == 2 && IsHexDigit(h[0]) && IsHexDigit(h[1])
  }

  lemma CommasPair(h: string, tail: string)
    requires IsPair(h)
    ensures CommasToSpaces("0x" + (h + ("," + tail))) == "0x" + (h + (" " + CommasToSpaces(tail)))
  {
    CommasSplit("0x", h + ("," + tail));
    CommasSplit(h, "," + tail);
    CommasSplit(",", tail);
    assert CommasToSpaces(h) == h;
    assert CommasToSpaces("0x") == "0x";
    assert CommasToSpaces(",") == " ";
  }

  lemma ReplacePair(h: string, c: string)
    requires IsPair(h)
    ensures Replace0x("0x" + (h + (" " + c)), " ") == " " + (h + (" " + Replace0x(c, " ")))
  {
    assert ("0x" + (h + (" " + c)))[2..] == h + (" " + c);
    Replace0xPrefix(h, " " + c, " ");
    assert (" " + c)[1..] == c;
  }

  lemma CleanedLastPair(h: string)
    requires IsPair(h)
    ensures Cleaned("0x" + h) == " " + h
  {
    CommasSplit("0x", h);
    assert CommasToSpaces(h) == h;
    assert CommasToSpaces("0x") == "0x";
    assert ("0x" + h)[2..] == h;
    Replace0xPlain(h, " ");
  }

  /** Blanking the separators of the prefixed spelling. */
  lemma {:induction false} PrefixedIsCleaned(bs: seq<Byte>)
    ensures Cleaned(PrefixedHex(bs)) == PrefixedCleaned(bs)
  {
    if bs != [] {
      var h := Hex2(bs[0]);
      if |bs| == 1 {
        CleanedLastPair(h);
      } else {
        var tail := PrefixedHex(bs[1..]);
        assert PrefixedHex(bs) == "0x" + (h + ("," + tail));
        CommasPair(h, tail);
        ReplacePair(h, CommasToSpaces(tail));
        PrefixedIsCleaned(bs[1..]);
        assert PrefixedCleaned(bs) == " " + (h + (" " + PrefixedCleaned(bs[1..])));
      }
    }
  }

  /** The spelling of a byte is a word: two characters, neither of them whitespace. */
  lemma Hex2Word(b: Byte)
    ensures Hex2(b) != [] && NoSpace(Hex2(b))
  {
    HexDigitNotSpace(Hex2(b)[0]);
    HexDigitNotSpace(Hex2(b)[1]);
  }

  /** The spaced spelling splits into one token per byte. */
  lemma {:induction false} SpacedTokens(bs: seq<Byte>)
    ensures Tokens(SpacedHex(bs)) == HexTokens(bs)
  {
    if bs != [] {
      Hex2Word(bs[0]);
    }
    if |bs| == 1 {
      TokensCons("", Hex2(bs[0]), "");
      assert "" + Hex2(bs[0]) + "" == SpacedHex(bs);
    } else if |bs| > 1 {
      var tail := SpacedHex(bs[1..]);
      TokensCons("", Hex2(bs[0]), " " + tail);
      assert "" + Hex2(bs[0]) + (" " + tail) == SpacedHex(bs);
      TokensAfterSpace(" ", tail);
      SpacedTokens(bs[1..]);
    }
  }

  /** The blanked prefixed spelling splits into one token per byte. */
  lemma {:induction false} PrefixedTokens(bs: seq<Byte>)
    ensures Tokens(PrefixedCleaned(bs)) == HexTokens(bs)
  {
    if bs != [] {
      Hex2Word(bs[0]);
    }
    if |bs| == 1 {
      TokensCons(" ", Hex2(bs[0]), "");
      assert " " + Hex2(bs[0]) + "" == PrefixedCleaned(bs);
    } else if |bs| > 1 {
      var tail := PrefixedCleaned(bs[1..]);
      TokensCons(" ", Hex2(bs[0]), " " + tail);
      assert " " + Hex2(bs[0]) + (" " + tail) == PrefixedCleaned(bs);
      TokensAfterSpace(" ", tail);
      PrefixedTokens(bs[1..]);
    }
  }

  lemma ParseHex2(b: Byte)
    ensures ParseHex(Hex2(b)) == Ok(b)
  {
    var h := Hex2(b);
    assert h[..1] == [HexChar(b / 16)];
  }

  /** `int(p, 16)` reads a two-digit pair back as its byte. */
  lemma Hex2Value(b: Byte)
    ensures PyInt16(Hex2(b)) == Ok(b)
  {
    ParseHex2(b);
    PyInt16Plain(Hex2(b), b);
  }

  /** The pairs of the compact spelling decode to the bytes. */
  lemma {:induction false} CompactPairs(bs: seq<Byte>)
    ensures FromHexPairs(CompactHex(bs)) == Ok(bs)
  {
    if bs != [] {
      var s := CompactHex(bs);
      assert s[0] == HexChar(bs[0] / 16) && s[1] == HexChar(bs[0] % 16);
      assert s[2..] == CompactHex(bs[1..]);
      CompactPairs(bs[1..]);
      assert bs == [bs[0]] + bs[1..];
    }
  }

  lemma {:induction false} CollectBytes(vs: seq<Result<int>>, bs: seq<Byte>)
    requires |vs| == |bs| && forall i :: 0 <= i < |vs| ==> vs[i] == Ok(bs[i])
    ensures Collect(vs) == Ok(bs)
  {
    if vs != [] {
      assert forall i :: 0 <= i < |vs| - 1 ==> vs[1..][i] == vs[i + 1];
      CollectBytes(vs[1..], bs[1..]);
      assert bs == [bs[0]] + bs[1..];
    }
  }

  lemma HexTokensBytes(bs: seq<Byte>)
    ensures Collect(TokenValues(HexTokens(bs))) == Ok(bs)
  {
    var vs := TokenValues(HexTokens(bs));
    forall i | 0 <= i < |vs|
      ensures vs[i] == Ok(bs[i])
    {
      Hex2Value(bs[i]);
    }
    CollectBytes(vs, bs);
  }

  // ---------------------------------------------------------------------------
  // What `_parse_bytes` promises
  // ---------------------------------------------------------------------------

  /** A token ends at the first whitespace, whatever follows the text it was found in. */
  lemma {:induction false} TokenEndExtended(a: string, x: string)
    requires TokenEnd(a) < |a|
    ensures TokenEnd(a + x) == TokenEnd(a)
  {
    if !IsSpace(a[0]) {
      assert (a + x)[0] == a[0];
      assert (a + x)[1..] == a[1..] + x;
      TokenEndExtended(a[1..], x);
    }
  }

  /** Leading whitespace is skipped. */
  lemma TokensSkip(s: string)
    requires s != [] && IsSpace(s[0])
    ensures Tokens(s) == Tokens(s[1..])
  {
  }

  /** A leading word is the first token. */
  lemma TokensWord(s: string)
    requires s != [] && !IsSpace(s[0])
    ensures Tokens(s) == [s[..TokenEnd(s)]] + Tokens(s[TokenEnd(s)..])
  {
  }

  /** Every whitespace character separates tokens as a space does: `s.split()` breaks at
      U+001C..U+001F, U+0085, U+3000 and the rest of the set just as at ' '. */
  lemma {:induction false} AnySpaceSeparates(a: string, c: char, b: string)
    requires IsSpace(c)
    ensures Tokens(a + [c] + b) == Tokens(a + " " + b)
    decreases |a|
  {
    assert a + [c] + b == a + ([c] + b) && a + " " + b == a + (" " + b);
    if a == [] {
      SpaceFirst(c, b);
    } else if IsSpace(a[0]) {
      SkipThen(a, [c] + b);
      SkipThen(a, " " + b);
      assert a[1..] + ([c] + b) == a[1..] + [c] + b && a[1..] + (" " + b) == a[1..] + " " + b;
      AnySpaceSeparates(a[1..], c, b);
    } else if TokenEnd(a) < |a| {
      var r := a[TokenEnd(a)..];
      WordThen(a, [c] + b);
      WordThen(a, " " + b);
      assert r + ([c] + b) == r + [c] + b && r + (" " + b) == r + " " + b;
      AnySpaceSeparates(r, c, b);
    } else {
      WordFirst(a, c, b);
    }
  }

  /** Whitespace at the start of a is skipped, whatever follows a. */
  lemma SkipThen(a: string, x: string)
    requires a != [] && IsSpace(a[0])
    ensures Tokens(a + x) == Tokens(a[1..] + x)
  {
    assert (a + x)[0] == a[0];
    TokensSkip(a + x);
    assert (a + x)[1..] == a[1..] + x;
  }

  /** A word that ends inside a is the first token, whatever follows a. */
  lemma WordThen(a: string, x: string)
    requires a != [] && !IsSpace(a[0]) && TokenEnd(a) < |a|
    ensures Tokens(a + x) == [a[..TokenEnd(a)]] + Tokens(a[TokenEnd(a)..] + x)
  {
    var n := TokenEnd(a);
    TokenEndExtended(a, x);
    assert (a + x)[0] == a[0];
    TokensWord(a + x);
    assert (a + x)[..n] == a[..n];
    assert (a + x)[n..] == a[n..] + x;
  }

  /** A separator at the start is skipped like a space. */
  lemma SpaceFirst(c: char, b: string)
    requires IsSpace(c)
    ensures Tokens([c] + b) == Tokens(" " + b)
  {
    TokensSkip([c] + b);
    TokensSkip(" " + b);
    assert ([c] + b)[1..] == b && (" " + b)[1..] == b;
  }

  /** A word of non-whitespace followed by a separator is one token, as before a space. */
  lemma WordFirst(a: string, c: char, b: string)
    requires IsSpace(c) && a != [] && TokenEnd(a) == |a|
    ensures Tokens(a + [c] + b) == Tokens(a + " " + b)
  {
    assert NoSpace(a);
    TokensCons("", a, [c] + b);
    TokensCons("", a, " " + b);
    assert "" + a + ([c] + b) == a + [c] + b && "" + a + (" " + b) == a + " " + b;
    SpaceFirst(c, b);
  }

  /** `_parse_bytes` sees only the tokens. */
  lemma SameTokensParse(s: string, t: string)
    requires Tokens(Cleaned(s)) == Tokens(Cleaned(t))
    ensures ParseBytes(s) == ParseBytes(t)
  {
  }

  /** Two bytes separated by any whitespace character, "12\U{001C}34" say, parse as the two
      bytes, as when a space separates them. */
  lemma SeparatorParses(x: Byte, c: char, y: Byte)
    requires IsSpace(c)
    ensures ParseBytes(Hex2(x) + [c] + Hex2(y)) == Ok([x, y])
  {
    var bs: seq<Byte> := [x, y];
    var s := Hex2(x) + [c] + Hex2(y);
    var t := SpacedHex(bs);
    assert bs[1..] == [y];
    assert SpacedHex([y]) == Hex2(y);
    assert t == Hex2(x) + " " + Hex2(y);
    AnySpaceSeparates(Hex2(x), c, Hex2(y));
    SeparatorClean(s);
    SeparatorClean(t);
    SameTokensParse(s, t);
    SpacedParses(bs);
  }

  /** Hex digits and whitespace contain no comma and no 'x', so cleaning leaves them. */
  lemma SeparatorClean(s: string)
    requires forall i :: 0 <= i < |s| ==> IsHexDigit(s[i]) || IsSpace(s[i])
    ensures Cleaned(s) == s
  {
    CleanedPlain(s);
  }

  /** Commas and "0x" are only separators: the compact, the spaced and the prefixed spelling
      of a byte string all parse back to it. */
  lemma SpellingsAgree(bs: seq<Byte>)
    ensures ParseBytes(CompactHex(bs)) == Ok(bs)
    ensures ParseBytes(SpacedHex(bs)) == Ok(bs)
    ensures ParseBytes(PrefixedHex(bs)) == Ok(bs)
  {
    CompactParses(bs);
    SpacedParses(bs);
    PrefixedParses(bs);
  }

  lemma CompactParses(bs: seq<Byte>)
    ensures ParseBytes(CompactHex(bs)) == Ok(bs)
  {
    var s := CompactHex(bs);
    CleanedPlain(s);
    if bs == [] {
      assert Tokens(s) == [];
    } else {
      forall i | 0 <= i < |s|
        ensures !IsSpace(s[i])
      {
        HexDigitNotSpace(s[i]);
      }
      TokensCons("", s, "");
      assert "" + s + "" == s;
      CompactPairs(bs);
    }
  }

  lemma SpacedParses(bs: seq<Byte>)
    ensures ParseBytes(SpacedHex(bs)) == Ok(bs)
  {
    var s := SpacedHex(bs);
    CleanedPlain(s);
    SpacedTokens(bs);
    if |bs| == 1 {
      CompactPairs(bs);
      assert CompactHex(bs) == Hex2(bs[0]);
    } else if |bs| > 1 {
      HexTokensBytes(bs);
    }
  }

  lemma PrefixedParses(bs: seq<Byte>)
    ensures ParseBytes(PrefixedHex(bs)) == Ok(bs)
  {
    PrefixedIsCleaned(bs);
    PrefixedTokens(bs);
    if |bs| == 1 {
      CompactPairs(bs);
      assert CompactHex(bs) == Hex2(bs[0]);
    } else if |bs| > 1 {
      HexTokensBytes(bs);
    }
  }

  // ---------------------------------------------------------------------------
  // The raw-address edit of `prompt_memory_edit`
  // ---------------------------------------------------------------------------

  /** `int(raw_target.lower().replace("0x", ""), 16)`. */
  function ParseAddress(target: string): Result<int> {
    PyInt16(Replace0x(AsciiLower(target), ""))
  }

  /** `max(0, min(255, val))`. */
  function ClampByte(v: int): (b: Byte)
    ensures 0 <= v <= 0xFF ==> b == v
    ensures v < 0 ==> b == 0
    ensures v > 0xFF ==> b == 0xFF
  {
    if v < 0 then 0 else if v > 0xFF then 0xFF else v
  }

  /** Lower-casing keeps a hex digit's value. */
  lemma {:induction false} ParseHexLower(s: string)
    ensures ParseHex(AsciiLower(s)) == ParseHex(s)
    decreases |s|
  {
    if |s| > 1 {
      assert AsciiLower(s)[..|s| - 1] == AsciiLower(s[..|s| - 1]);
      ParseHexLower(s[..|s| - 1]);
    }
  }

  /** The lower-cased spelling of n: still hex digits, with no x in it, read as n. */
  lemma LowerHex(n: nat)
    ensures var l := AsciiLower(ToHex(n));
      Replace0x(l, "") == l && PyInt16(l) == Ok(n)
  {
    var h := ToHex(n);
    var l := AsciiLower(h);
    assert forall i :: 0 <= i < |l| ==> IsHexDigit(l[i]) && l[i] != 'x' by {
      forall i | 0 <= i < |l|
        ensures IsHexDigit(l[i]) && l[i] != 'x'
      {
        assert IsHexDigit(h[i]);
      }
    }
    Replace0xPlain(l, "");
    ParseToHex(n);
    ParseHexLower(h);
    PyInt16Plain(l, n);
  }

  /** Lower-casing leaves a "0x" prefix alone. */
  lemma LowerPrefixed(h: string)
    ensures AsciiLower("0x" + h) == "0x" + AsciiLower(h)
  {
    var a := AsciiLower("0x" + h);
    var b := "0x" + AsciiLower(h);
    forall i | 0 <= i < |a|
      ensures a[i] == b[i]
    {
      if i >= 2 {
        assert ("0x" + h)[i] == h[i - 2];
      }
    }
  }

  /** An address typed as upper-case hex, with or without "0x", is read back exactly. */
  lemma AddressRoundTrip(n: nat)
    ensures ParseAddress(ToHex(n)) == Ok(n)
    ensures ParseAddress("0x" + ToHex(n)) == Ok(n)
  {
    var h := ToHex(n);
    var l := AsciiLower(h);
    LowerHex(n);
    LowerPrefixed(h);
    assert ("0x" + l)[2..] == l;
    assert Replace0x("0x" + l, "") == l;
  }

  /** An ASCII separator left inside the address, as in "0x\U{001C}10", is not skipped by
      `int(..., 16)`: the address is refused, so the edit writes nothing. */
  lemma AddressKeepsSeparator(c: char, n: nat)
    requires IsSpace(c) && !IsIntSpace(c)
    ensures ParseAddress("0x" + [c] + ToHex(n)) == Err(MalformedHex)
  {
    var h := ToHex(n);
    var l := AsciiLower(h);
    LowerHex(n);
    ParseToHex(n);
    ParseHexLower(h);
    LowerSeparated(c, h);
    BlankPrefixSeparated(c, l);
    PyInt16KeepsSeparator(c, l);
  }

  /** Lower-casing "0x" + [c] + h, for c not an upper-case letter, lower-cases only h. */
  lemma LowerSeparated(c: char, h: string)
    requires !('A' <= c <= 'Z')
    ensures AsciiLower("0x" + [c] + h) == "0x" + [c] + AsciiLower(h)
  {
    var a := AsciiLower("0x" + [c] + h);
    var b := "0x" + [c] + AsciiLower(h);
    forall i | 0 <= i < |a|
      ensures a[i] == b[i]
    {
      if i >= 3 {
        assert ("0x" + [c] + h)[i] == h[i - 3];
      }
    }
  }

  /** Removing "0x" from "0x" + [c] + l, for c other than '0', leaves [c] and l's own removal. */
  lemma BlankPrefixSeparated(c: char, l: string)
    requires c != '0'
    ensures Replace0x("0x" + [c] + l, "") == [c] + Replace0x(l, "")
  {
    var t := "0x" + [c] + l;
    assert t[2..] == [c] + l;
    assert ([c] + l)[1..] == l;
  }

  /** The raw-address fallback: the typed address, the value clamped to a byte, and one byte
      written there. A target that is not hex, or an address outside the memory, writes
      nothing. */
  method RawAddressEdit(memory: array<Byte>, target: string, value: int) returns (r: Result<int>)
    modifies memory
    ensures ParseAddress(target).Err? ==> r == Err(ParseAddress(target).error) && memory[..] == old(memory[..])
    ensures ParseAddress(target).Ok? && !(0 <= ParseAddress(target).value < memory.Length) ==>
              r == Err(AddressOutOfRange(ParseAddress(target).value, 1)) && memory[..] == old(memory[..])
    ensures ParseAddress(target).Ok? && 0 <= ParseAddress(target).value < memory.Length ==>
              r == Ok(ParseAddress(target).value)
              && memory[..] == old(memory[..])[ParseAddress(target).value := ClampByte(value)]
  {
    var parsed := ParseAddress(target);
    if parsed.Err? {
      return Err(parsed.error);
    }
    var addr := parsed.value;
    if !(0 <= addr < memory.Length) {
      return Err(AddressOutOfRange(addr, 1));
    }
    memory[addr] := ClampByte(value);
    r := Ok(addr);
  }
}
