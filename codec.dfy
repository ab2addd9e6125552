// Fixed-width integer and binary-coded-decimal codecs of the GSC memory library
// (gsc_memory_lib.py and its near-duplicate gsc_ram_fields.py).
module Codec {

  /** One byte of emulator memory. */
  type Byte = x: int | 0 <= x < 0x100

  // ---------------------------------------------------------------------------
  // Arithmetic facts the codecs rest on
  // ---------------------------------------------------------------------------

  /** Division with a remainder in range is unique. */
  lemma DivModUnique(v: int, d: int, q: int, r: int)
    requires d > 0 && 0 <= r < d && v == d * q + r
    ensures v / d == q && v % d == r
  {
    var q', r' := v / d, v % d;
    assert v == d * q' + r';
    var k := q - q';
    assert d * q == d * q' + d * k;
    assert d * k == r' - r;
    if k >= 1 {
      MulAtLeast(d, k);
    } else if k <= -1 {
      MulAtLeast(d, -k);
    }
  }

  lemma MulAtLeast(d: int, k: int)
    requires d > 0 && k >= 1
    ensures d * k >= d
  {
  }

  /** Splitting off the low byte: v mod 256*m is the low byte plus 256 times the rest mod m. */
  lemma ModSplit(v: int, m: int)
    requires m > 0
    ensures v % (0x100 * m) == v % 0x100 + 0x100 * ((v / 0x100) % m)
    ensures v / (0x100 * m) == (v / 0x100) / m
  {
    var q := v / 0x100;
    var q2, r2 := q / m, q % m;
    assert v == 0x100 * q + v % 0x100;
    assert q == m * q2 + r2;
    assert v == (0x100 * m) * q2 + (0x100 * r2 + v % 0x100);
    DivModUnique(v, 0x100 * m, q2, 0x100 * r2 + v % 0x100);
  }

  // ---------------------------------------------------------------------------
  // U8 / U16 / U24: decode and truncating encode
  // ---------------------------------------------------------------------------

  /** Python's `v & 0xFF`, valid for negative v too (Euclidean and floor modulo agree here). */
  function Low8(v: int): (b: Byte)
    ensures (v - b) % 0x100 == 0
  {
    v % 0x100
  }

  /** `bytes(n)`: n zero bytes. */
  function Zeros(n: nat): (z: seq<Byte>)
    ensures |z| == n && forall i :: 0 <= i < n ==> z[i] == 0
  {
    seq(n, _ => 0)
  }

  /** `_decode_u16_le`: `b[0] | (b[1] << 8)`; the bit fields do not overlap, so `|` is `+`. */
  function DecodeU16Le(b: seq<Byte>): (v: int)
    requires |b| >= 2
    ensures 0 <= v < 0x10000
    ensures v % 0x100 == b[0] && v / 0x100 == b[1]
  {
    var v: int := b[0] as int + 0x100 * b[1] as int;
    DivModUnique(v, 0x100, b[1], b[0]);
    v
  }

  /** `_decode_u16_be`: `(b[0] << 8) | b[1]`. */
  function DecodeU16Be(b: seq<Byte>): (v: int)
    requires |b| >= 2
    ensures 0 <= v < 0x10000
    ensures v / 0x100 == b[0] && v % 0x100 == b[1]
  {
    var v: int := 0x100 * b[0] as int + b[1] as int;
    DivModUnique(v, 0x100, b[0], b[1]);
    v
  }

  /** `_decode_u24_le`: `b[0] | (b[1] << 8) | (b[2] << 16)`. */
  function DecodeU24Le(b: seq<Byte>): (v: int)
    requires |b| >= 3
    ensures 0 <= v < 0x100_0000
    ensures v % 0x100 == b[0] && (v / 0x100) % 0x100 == b[1] && v / 0x1_0000 == b[2]
  {
    var v: int := b[0] as int + 0x100 * b[1] as int + 0x1_0000 * b[2] as int;
    DivModUnique(v, 0x100, b[1] as int + 0x100 * b[2] as int, b[0]);
    DivModUnique(b[1] as int + 0x100 * b[2] as int, 0x100, b[2], b[1]);
    ModSplit(v, 0x100);
    v
  }

  /** `_encode_u16_le`: the low 16 bits of v, low byte first. */
  function EncodeU16Le(v: int): (b: seq<Byte>)
    ensures |b| == 2 && DecodeU16Le(b) == v % 0x1_0000
  {
    ModSplit(v, 0x100);
    [v % 0x100, (v / 0x100) % 0x100]
  }

  /** `_encode_u16_be`: the low 16 bits of v, high byte first. */
  function EncodeU16Be(v: int): (b: seq<Byte>)
    ensures |b| == 2 && DecodeU16Be(b) == v % 0x1_0000
  {
    ModSplit(v, 0x100);
    [(v / 0x100) % 0x100, v % 0x100]
  }

  /** `_encode_u24_le`: the low 24 bits of v, least significant byte first. */
  function EncodeU24Le(v: int): (b: seq<Byte>)
    ensures |b| == 3 && DecodeU24Le(b) == v % 0x100_0000
  {
    ModSplit(v, 0x1_0000);
    ModSplit(v / 0x100, 0x100);
    ModSplit(v, 0x100);
    [v % 0x100, (v / 0x100) % 0x100, (v / 0x1_0000) % 0x100]
  }

  /** The big-endian 16-bit encoding is the byte-reverse of the little-endian one. */
  lemma U16EndianReverse(v: int)
    ensures EncodeU16Be(v) == [EncodeU16Le(v)[1], EncodeU16Le(v)[0]]
  {
  }

  /** Decoding an encoding gives back v mod 2^8, 2^16 and 2^24; in range it is v itself. */
  lemma {:induction false} FixedWidthRoundTrip(v: int)
    ensures Low8(v) == v % 0x100
    ensures DecodeU16Le(EncodeU16Le(v)) == v % 0x1_0000
    ensures DecodeU16Be(EncodeU16Be(v)) == v % 0x1_0000
    ensures DecodeU24Le(EncodeU24Le(v)) == v % 0x100_0000
    ensures 0 <= v < 0x1_0000 ==> DecodeU16Le(EncodeU16Le(v)) == v && DecodeU16Be(EncodeU16Be(v)) == v
    ensures 0 <= v < 0x100_0000 ==> DecodeU24Le(EncodeU24Le(v)) == v
  {
  }

  /** Encoders keep only the low bits: values congruent modulo the width encode alike. */
  lemma EncodersKeepLowBits(v: int, k: int)
    ensures EncodeU16Le(v + 0x1_0000 * k) == EncodeU16Le(v)
    ensures EncodeU16Be(v + 0x1_0000 * k) == EncodeU16Be(v)
    ensures EncodeU24Le(v + 0x100_0000 * k) == EncodeU24Le(v)
  {
    var w := v + 0x1_0000 * k;
    ModSplit(v, 0x100);
    ModSplit(w, 0x100);
    DivModUnique(w, 0x1_0000, v / 0x1_0000 + k, v % 0x1_0000);
    var u := v + 0x100_0000 * k;
    ModSplit(v, 0x1_0000);
    ModSplit(u, 0x1_0000);
    ModSplit(v / 0x100, 0x100);
    ModSplit(u / 0x100, 0x100);
    DivModUnique(u, 0x100_0000, v / 0x100_0000 + k, v % 0x100_0000);
  }

  // ---------------------------------------------------------------------------
  // U24_BCD: six decimal digits packed two to a byte, high nibble first
  // ---------------------------------------------------------------------------

  /** The digit list `_decode_u24_bcd` builds: high then low nibble of every byte, in order. */
  function Nibbles(b: seq<Byte>): (d: seq<int>)
    ensures |d| == 2 * |b|
    ensures forall i :: 0 <= i < |b| ==> d[2 * i] == b[i] / 0x10 && d[2 * i + 1] == b[i] % 0x10
  {
    if b == [] then [] else Nibbles(b[..|b| - 1]) + [b[|b| - 1] / 0x10, b[|b| - 1] % 0x10]
  }

  /** The multiply-accumulate `val = val * 10 + d` over a digit list; digits above 9 are used as they are. */
  function DigitsValue(ds: seq<int>): int
  {
    if ds == [] then 0 else DigitsValue(ds[..|ds| - 1]) * 10 + ds[|ds| - 1]
  }

  /** `_decode_u24_bcd` as a value; it never fails and accepts any number of bytes. */
  function BcdDecode(b: seq<Byte>): int
  {
    DigitsValue(Nibbles(b))
  }

  /** For three bytes the decoder weighs the six nibbles by 10^5 .. 10^0, whatever their value. */
  lemma BcdDecodeThreeBytes(b: seq<Byte>)
    requires |b| == 3
    ensures BcdDecode(b) == 100000 * (b[0] as int / 0x10) + 10000 * (b[0] as int % 0x10)
                            + 1000 * (b[1] as int / 0x10) + 100 * (b[1] as int % 0x10)
                            + 10 * (b[2] as int / 0x10) + b[2] as int % 0x10
  {
    var d := Nibbles(b);
    DigitsValueSix(d);
  }

  /** Six digits weigh 10^5 .. 10^0. */
  lemma DigitsValueSix(d: seq<int>)
    requires |d| == 6
    ensures DigitsValue(d) == 100000 * d[0] + 10000 * d[1] + 1000 * d[2] + 100 * d[3] + 10 * d[4] + d[5]
  {
    var d1, d2, d3, d4, d5 := d[..1], d[..2], d[..3], d[..4], d[..5];
    assert d1[..0] == [];
    assert DigitsValue(d1) == d[0];
    assert d2[..1] == d1;
    assert DigitsValue(d2) == 10 * d[0] + d[1];
    assert d3[..2] == d2;
    assert DigitsValue(d3) == 100 * d[0] + 10 * d[1] + d[2];
    assert d4[..3] == d3;
    assert DigitsValue(d4) == 1000 * d[0] + 100 * d[1] + 10 * d[2] + d[3];
    assert d5[..4] == d4;
    assert DigitsValue(d5) == 10000 * d[0] + 1000 * d[1] + 100 * d[2] + 10 * d[3] + d[4];
    assert d[..5] == d5;
  }

  /** `_encode_u24_bcd`'s silent clamp to 0..999999. */
  function ClampBcd(v: int): (c: int)
    ensures 0 <= c <= 999999
    ensures 0 <= v <= 999999 ==> c == v
    ensures v < 0 ==> c == 0
    ensures v > 999999 ==> c == 999999
  {
    if v < 0 then 0 else if v > 999999 then 999999 else v
  }

  function Pow10(n: nat): (p: nat)
    ensures p >= 1
  {
    if n == 0 then 1 else 10 * Pow10(n - 1)
  }

  /** A decimal digit, as `int(ch)` yields it for a character of `f"{v:06d}"`. */
  type Digit = x: int | 0 <= x <= 9

  /** The last n decimal digits of v, most significant first (`f"{v:06d}"` for n = 6). */
  function DecimalDigits(v: nat, n: nat): (ds: seq<Digit>)
    ensures |ds| == n
  {
    if n == 0 then [] else DecimalDigits(v / 10, n - 1) + [v % 10]
  }

  /** Reading the last n decimal digits back gives v modulo 10^n. */
  lemma {:induction false} DecimalDigitsValue(v: nat, n: nat)
    ensures DigitsValue(DecimalDigits(v, n)) == v % Pow10(n)
  {
    if n > 0 {
      var ds := DecimalDigits(v, n);
      assert ds[..|ds| - 1] == DecimalDigits(v / 10, n - 1);
      DecimalDigitsValue(v / 10, n - 1);
      ModTen(v, Pow10(n - 1));
    }
  }

  /** Peeling the last decimal digit off a remainder. */
  lemma ModTen(v: nat, p: nat)
    requires p >= 1
    ensures ((v / 10) % p) * 10 + v % 10 == v % (10 * p)
  {
    var q, r := (v / 10) / p, (v / 10) % p;
    assert v / 10 == p * q + r;
    assert v == (10 * p) * q + (10 * r + v % 10);
    DivModUnique(v, 10 * p, q, 10 * r + v % 10);
  }

  /** Packs a digit list two to a byte, the first of each pair in the high nibble:
      `(n[i] << 4) | n[i + 1]`, which is `16 * n[i] + n[i + 1]` for digits. */
  function PackNibbles(ds: seq<Digit>): (b: seq<Byte>)
  {
    if |ds| < 2 then []
    else PackNibbles(ds[..|ds| - 2]) + [ds[|ds| - 2] as int * 0x10 + ds[|ds| - 1]]
  }

  /** Appending a byte appends its two nibbles. */
  lemma NibblesSnoc(a: seq<Byte>, x: Byte)
    ensures Nibbles(a + [x]) == Nibbles(a) + [x / 0x10, x % 0x10]
  {
    assert (a + [x])[..|a|] == a;
  }

  /** Splitting packed bytes into nibbles recovers the digits. */
  lemma {:induction false} NibblesOfPacked(ds: seq<Digit>)
    requires |ds| % 2 == 0
    ensures Nibbles(PackNibbles(ds)) == ds
  {
    if |ds| >= 2 {
      var pre := ds[..|ds| - 2];
      var hi, lo := ds[|ds| - 2], ds[|ds| - 1];
      var x: Byte := hi as int * 0x10 + lo;
      var packed := PackNibbles(pre);
      assert PackNibbles(ds) == packed + [x];
      calc {
        Nibbles(PackNibbles(ds));
        Nibbles(packed + [x]);
        { NibblesSnoc(packed, x); }
        Nibbles(packed) + [x / 0x10, x % 0x10];
        { NibblesOfPacked(pre); DivModUnique(x, 0x10, hi, lo); }
        pre + [hi, lo];
        ds;
      }
    }
  }

  /** Three packed bytes, spelled out. */
  lemma PackSix(ds: seq<Digit>)
    requires |ds| == 6
    ensures PackNibbles(ds) == [ds[0] as int * 0x10 + ds[1], ds[2] as int * 0x10 + ds[3], ds[4] as int * 0x10 + ds[5]]
  {
    var d2, d4 := ds[..2], ds[..4];
    assert d2[..0] == [];
    assert PackNibbles(d2) == [ds[0] as int * 0x10 + ds[1]];
    assert d4[..2] == d2;
    assert PackNibbles(d4) == [ds[0] as int * 0x10 + ds[1], ds[2] as int * 0x10 + ds[3]];
    assert ds[..4] == d4;
  }

  /** `_encode_u24_bcd` as a value: clamp, six decimal digits, packed into three bytes. */
  function BcdEncode(v: int): (b: seq<Byte>)
    ensures |b| == 3
    ensures forall i :: 0 <= i < 3 ==> b[i] / 0x10 <= 9 && b[i] % 0x10 <= 9
  {
    var ds := DecimalDigits(ClampBcd(v), 6);
    PackSix(ds);
    var b := PackNibbles(ds);
    NibblesOfPacked(ds);
    assert forall i :: 0 <= i < 3 ==> b[i] / 0x10 == Nibbles(b)[2 * i] && b[i] % 0x10 == Nibbles(b)[2 * i + 1];
    b
  }

  /** decode(encode(v)) == v on 0..999999, and the clamped value elsewhere. */
  lemma BcdRoundTrip(v: int)
    ensures BcdDecode(BcdEncode(v)) == ClampBcd(v)
    ensures 0 <= v <= 999999 ==> BcdDecode(BcdEncode(v)) == v
  {
    var c := ClampBcd(v);
    var ds := DecimalDigits(c, 6);
    assert BcdEncode(v) == PackNibbles(ds);
    NibblesOfPacked(ds);
    assert BcdDecode(BcdEncode(v)) == DigitsValue(ds);
    DecimalDigitsValue(c, 6);
    assert Pow10(6) == 1000000;
    DivModUnique(c, 1000000, 0, c);
  }

  /** The vector `00 00 12` for 12. */
  lemma BcdEncodeTwelve()
    ensures BcdEncode(12) == [0x00, 0x00, 0x12]
  {
    BcdEncodeSpelled(12);
    DivModUnique(12, 10, 1, 2);
    DivModUnique(1, 10, 0, 1);
  }

  /** The vector `12 34 56` for 123456. */
  lemma BcdEncodeSixDigits()
    ensures BcdEncode(123456) == [0x12, 0x34, 0x56]
  {
    BcdEncodeSpelled(123456);
    DivModUnique(123456, 100000, 1, 23456);
    DivModUnique(123456, 10000, 12, 3456);
    DivModUnique(123456, 1000, 123, 456);
    DivModUnique(123456, 100, 1234, 56);
    DivModUnique(123456, 10, 12345, 6);
    DivModUnique(1, 10, 0, 1);
    DivModUnique(12, 10, 1, 2);
    DivModUnique(123, 10, 12, 3);
    DivModUnique(1234, 10, 123, 4);
    DivModUnique(12345, 10, 1234, 5);
  }

  /** Negative values clamp to 0 and encode as `00 00 00`. */
  lemma BcdEncodeClampLow(v: int)
    requires v < 0
    ensures BcdEncode(v) == [0x00, 0x00, 0x00]
  {
    BcdEncodeSpelled(0);
  }

  /** Values above 999999 clamp and encode as `99 99 99`. */
  lemma BcdEncodeClampHigh(v: int)
    requires v > 999999
    ensures BcdEncode(v) == [0x99, 0x99, 0x99]
  {
    BcdEncodeSpelled(999999);
    DivModUnique(999999, 100000, 9, 99999);
    DivModUnique(999999, 10000, 99, 9999);
    DivModUnique(999999, 1000, 999, 999);
    DivModUnique(999999, 100, 9999, 99);
    DivModUnique(999999, 10, 99999, 9);
    DivModUnique(99, 10, 9, 9);
    DivModUnique(999, 10, 99, 9);
    DivModUnique(9999, 10, 999, 9);
    DivModUnique(99999, 10, 9999, 9);
  }

  /** Byte i of the encoding holds decimal digits 2i and 2i+1 of the clamped value. */
  lemma BcdEncodeSpelled(v: int)
    requires 0 <= v <= 999999
    ensures BcdEncode(v) == [(v / 100000) % 10 * 0x10 + (v / 10000) % 10,
                             (v / 1000) % 10 * 0x10 + (v / 100) % 10,
                             (v / 10) % 10 * 0x10 + v % 10]
  {
    DecimalDigitsSix(v);
    PackSix(DecimalDigits(v, 6));
  }

  lemma DivTen(v: nat, b: nat)
    requires b > 0
    ensures (v / 10) / b == v / (10 * b)
  {
    var q, r := v / 10, v % 10;
    var q2, r2 := q / b, q % b;
    assert v == (10 * b) * q2 + (10 * r2 + r);
    DivModUnique(v, 10 * b, q2, 10 * r2 + r);
  }

  /** The six digits `f"{v:06d}"` spells, as quotients of v. */
  lemma DecimalDigitsSix(v: nat)
    ensures DecimalDigits(v, 6) == [(v / 100000) % 10, (v / 10000) % 10, (v / 1000) % 10,
                                    (v / 100) % 10, (v / 10) % 10, v % 10]
  {
    var v1 := v / 10;
    var v2 := v1 / 10;
    var v3 := v2 / 10;
    var v4 := v3 / 10;
    var v5 := v4 / 10;
    assert DecimalDigits(v5, 1) == [v5 % 10];
    assert DecimalDigits(v4, 2) == [v5 % 10, v4 % 10];
    assert DecimalDigits(v3, 3) == [v5 % 10, v4 % 10, v3 % 10];
    assert DecimalDigits(v2, 4) == [v5 % 10, v4 % 10, v3 % 10, v2 % 10];
    assert DecimalDigits(v1, 5) == [v5 % 10, v4 % 10, v3 % 10, v2 % 10, v1 % 10];
    assert DecimalDigits(v, 6) == [v5 % 10, v4 % 10, v3 % 10, v2 % 10, v1 % 10, v % 10];
    DivTen(v, 10);
    DivTen(v, 100);
    DivTen(v, 1000);
    DivTen(v, 10000);
  }

  /** `_decode_u24_bcd`: build the nibble list, then multiply-accumulate it. */
  method DecodeU24Bcd(b: seq<Byte>) returns (val: int)
    ensures val == BcdDecode(b)
  {
    var digits: seq<int> := [];
    var i := 0;
    while i < |b|
      invariant 0 <= i <= |b|
      invariant digits == Nibbles(b[..i])
    {
      var x := b[i];
      digits := digits + [x / 0x10];
      digits := digits + [x % 0x10];
      assert b[..i + 1][..i] == b[..i];
      i := i + 1;
    }
    assert b[..i] == b;
    val := 0;
    var j := 0;
    while j < |digits|
      invariant 0 <= j <= |digits|
      invariant val == DigitsValue(digits[..j])
    {
      assert digits[..j + 1][..j] == digits[..j];
      val := val * 10 + digits[j];
      j := j + 1;
    }
    assert digits[..j] == digits;
  }

  /** Packing one more digit pair appends one byte. */
  lemma PackNibblesStep(ds: seq<Digit>, i: nat)
    requires i + 2 <= |ds|
    ensures PackNibbles(ds[..i + 2]) == PackNibbles(ds[..i]) + [ds[i] as int * 0x10 + ds[i + 1]]
  {
    assert ds[..i + 2][..i] == ds[..i];
  }

  /** `_encode_u24_bcd`: clamp, format six digits, append one byte per digit pair. */
  method EncodeU24Bcd(v: int) returns (out: seq<Byte>)
    ensures out == BcdEncode(v)
  {
    var w := v;
    if w < 0 {
      w := 0;
    }
    if w > 999999 {
      w := 999999;
    }
    var nibbles := DecimalDigits(w, 6);
    out := [];
    var i := 0;
    while i < 6
      invariant i == 0 || i == 2 || i == 4 || i == 6
      invariant out == PackNibbles(nibbles[..i])
    {
      PackNibblesStep(nibbles, i);
      out := out + [nibbles[i] as int * 0x10 + nibbles[i + 1]];
      i := i + 2;
    }
    assert nibbles[..6] == nibbles;
    assert w == ClampBcd(v);
  }
}
