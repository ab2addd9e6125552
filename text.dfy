// The game's text encoding as the GUI reads and writes names: upper and lower case letters,
// digits and spaces, ended by a 0x50 terminator (run_emulator_gui.py).
module GscText {
  import opened Codec
  import opened PyStr

  const Terminator := 0x50
  const SpaceCode := 0x7F

  /** The character a non-terminator byte stands for; 0x00 and 0x7F are spaces, anything
      unknown shows as '?'. */
  function ByteChar(b: Byte): (c: char)
    ensures b == SpaceCode || b == 0x00 ==> c == ' '
    ensures !(b == 0x00 || b == SpaceCode || 0x80 <= b <= 0x99 || 0xA0 <= b <= 0xB9 || 0xF6 <= b) ==> c == '?'
    ensures 0x80 <= b <= 0x99 ==> 'A' <= c <= 'Z'
    ensures 0xA0 <= b <= 0xB9 ==> 'a' <= c <= 'z'
    ensures 0xF6 <= b ==> '0' <= c <= '9'
  {
    if b == 0x7F || b == 0x00 then ' '
    else if 0x80 <= b <= 0x99 then ('A' as int + (b - 0x80)) as char
    else if 0xA0 <= b <= 0xB9 then ('a' as int + (b - 0xA0)) as char
    else if 0xF6 <= b <= 0xFF then ('0' as int + (b - 0xF6)) as char
    else '?'
  }

  /** The characters the encoder knows. */
  predicate InCharset(c: char) {
    c == ' ' || 'A' <= c <= 'Z' || 'a' <= c <= 'z' || '0' <= c <= '9'
  }

  /** The only whitespace in the character set is the space. */
  lemma CharsetSpace(c: char)
    requires InCharset(c) && c != ' '
    ensures !IsSpace(c)
  {
  }

  /** The byte a character is written as; anything outside the character set becomes a space.
      No character is written as the terminator. */
  function CharByte(c: char): (b: Byte)
    ensures b != Terminator
    ensures ByteChar(b) == if InCharset(c) then c else ' '
  {
    if c == ' ' then 0x7F
    else if 'A' <= c <= 'Z' then 0x80 + (c as int - 'A' as int)
    else if 'a' <= c <= 'z' then 0xA0 + (c as int - 'a' as int)
    else if '0' <= c <= '9' then 0xF6 + (c as int - '0' as int)
    else 0x7F
  }

  /** Distinct characters of the set get distinct bytes. */
  lemma CharByteInjective(c: char, d: char)
    requires InCharset(c) && InCharset(d) && c != d
    ensures CharByte(c) != CharByte(d)
  {
    assert ByteChar(CharByte(c)) == c && ByteChar(CharByte(d)) == d;
  }

  function MapChars(bs: seq<Byte>): (s: string)
    ensures |s| == |bs|
  {
    seq(|bs|, i requires 0 <= i < |bs| => ByteChar(bs[i]))
  }

  function MapBytes(s: string): (bs: seq<Byte>)
    ensures |bs| == |s|
  {
    seq(|s|, i requires 0 <= i < |s| => CharByte(s[i]))
  }

  /** Characters outside the set replaced by spaces. */
  function Normalize(s: string): (t: string)
    ensures |t| == |s|
    ensures forall i :: 0 <= i < |t| ==> InCharset(s[i]) ==> t[i] == s[i]
  {
    seq(|s|, i requires 0 <= i < |s| => if InCharset(s[i]) then s[i] else ' ')
  }

  /** Number of bytes before the first terminator (all of them if there is none). */
  function TextEnd(raw: seq<Byte>): (n: nat)
    ensures n <= |raw|
    ensures forall i :: 0 <= i < n ==> raw[i] != Terminator
    ensures n < |raw| ==> raw[n] == Terminator
  {
    if raw == [] || raw[0] == Terminator then 0 else 1 + TextEnd(raw[1..])
  }

  /** The text ends at n when no byte before n is a terminator and byte n, if any, is one. */
  lemma TextEndAt(raw: seq<Byte>, n: nat)
    requires n <= |raw|
    requires forall j :: 0 <= j < n ==> raw[j] != Terminator
    requires n < |raw| ==> raw[n] == Terminator
    ensures TextEnd(raw) == n
  {
  }

  /** `decode_gsc_text`: the characters before the terminator, stripped of surrounding spaces. */
  function GscDecode(raw: seq<Byte>): (s: string)
    ensures |s| <= TextEnd(raw)
    ensures s == [] || (s[0] != ' ' && s[|s| - 1] != ' ')
  {
    Strip(MapChars(raw[..TextEnd(raw)]))
  }

  /** How many characters of text the encoder takes: as many as fit, none for a size <= 0. */
  function Taken(text: string, size: int): (n: nat)
    ensures n <= |text|
    ensures size > 0 ==> n <= size
  {
    if size <= 0 then 0 else if |text| < size then |text| else size
  }

  /** `encode_gsc_text(text, size)`: exactly max(size, 0) bytes; the characters that fit, then
      terminators. A text shorter than the field is always terminated. */
  function GscEncode(text: string, size: int): (b: seq<Byte>)
    ensures |b| == if size < 0 then 0 else size
    ensures 0 <= |text| < size ==> b[|text|] == Terminator
  {
    if size <= 0 then []
    else MapBytes(text[..Taken(text, size)]) + seq(size - Taken(text, size), _ => Terminator)
  }

  /** Decoding what was encoded gives back the characters that fit, with unknown characters as
      spaces, stripped. */
  lemma DecodeEncode(text: string, size: int)
    ensures GscDecode(GscEncode(text, size)) == Strip(Normalize(text[..Taken(text, size)]))
  {
    var n := Taken(text, size);
    var raw := GscEncode(text, size);
    if size > 0 {
      assert raw[..n] == MapBytes(text[..n]);
      assert forall j :: 0 <= j < n ==> raw[j] == CharByte(text[j]);
      TextEndAt(raw, n);
      assert MapChars(raw[..n]) == Normalize(text[..n]);
    } else {
      assert TextEnd(raw) == 0;
      assert MapChars(raw[..0]) == Normalize(text[..0]);
    }
  }

  /** A name made of letters, digits and inner spaces that fits in the field reads back as itself. */
  lemma NameRoundTrip(text: string, size: int)
    requires |text| <= size
    requires forall i :: 0 <= i < |text| ==> InCharset(text[i])
    requires text == [] || (text[0] != ' ' && text[|text| - 1] != ' ')
    ensures GscDecode(GscEncode(text, size)) == text
  {
    DecodeEncode(text, size);
    assert text[..Taken(text, size)] == text;
    assert Normalize(text) == text;
    if text != [] {
      CharsetSpace(text[0]);
      CharsetSpace(text[|text| - 1]);
    }
    StripTrimmed(text);
  }

  /** The decoding loop of `decode_gsc_text`. */
  method DecodeGscText(raw: seq<Byte>) returns (s: string)
    ensures s == GscDecode(raw)
  {
    var out: string := [];
    var i := 0;
    while i < |raw|
      invariant i <= TextEnd(raw)
      invariant out == MapChars(raw[..i])
    {
      if raw[i] == Terminator {
        break;
      }
      out := out + [ByteChar(raw[i])];
      i := i + 1;
    }
    assert raw[..TextEnd(raw)] == raw[..i];
    s := Strip(out);
  }

  /** The encoding loop of `encode_gsc_text`: characters while there is room, one terminator,
      terminators up to the size, then the first size bytes. */
  method EncodeGscText(text: string, size: int) returns (b: seq<Byte>)
    ensures b == GscEncode(text, size)
  {
    var n := Taken(text, size);
    var out: seq<Byte> := [];
    var i := 0;
    while i < |text|
      invariant i <= n
      invariant out == MapBytes(text[..i])
    {
      if |out| >= size {
        break;
      }
      out := out + [CharByte(text[i])];
      i := i + 1;
    }
    assert i == n;
    out := out + [Terminator];
    while |out| < size
      invariant n < |out|
      invariant out == MapBytes(text[..n]) + seq(|out| - n, _ => Terminator)
      invariant size > 0 ==> |out| <= size || |out| == n + 1
    {
      out := out + [Terminator];
    }
    // With size <= 0 only the terminator was added, and Python's out[:size] is empty.
    if size <= 0 {
      b := [];
    } else {
      b := out[..size];
    }
  }
}
