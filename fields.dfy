// Typed RAM fields: the encoding tag, the field descriptor, and read_field / write_field over a
// flat emulator memory (gsc_memory_lib.py and its duplicate gsc_ram_fields.py).
module Fields {
  import opened Wrappers
  import opened Codec
  import opened PyStr

  datatype Encoding = U8 | U16Le | U16Be | U24Le | U24Bcd | Bytes | TextGsc

  /** One RAM field: its catalog key, address, size in bytes, encoding and description. */
  datatype MemField = MemField(key: string, addr: int, size: int, enc: Encoding, doc: string)

  /** What a field holds: a number for the numeric encodings, the raw bytes for the blob ones. */
  datatype Value = Num(n: int) | Blob(data: seq<Byte>)

  predicate IsBlob(enc: Encoding) {
    enc.Bytes? || enc.TextGsc?
  }

  /** The number of bytes a numeric encoding writes. */
  function Width(enc: Encoding): nat
    requires !IsBlob(enc)
  {
    match enc
    case U8 => 1
    case U16Le => 2
    case U16Be => 2
    case U24Le => 3
    case U24Bcd => 3
  }

  // ---------------------------------------------------------------------------
  // The emulator accessors over a flat memory
  // ---------------------------------------------------------------------------

  /** `read_mem(addr, size)`: the bytes at addr..addr+size, or a failure off the memory. */
  function ReadMem(mem: seq<Byte>, addr: int, size: int): (r: Result<seq<Byte>>)
    ensures r.Ok? <==> 0 <= addr && 0 <= size && addr + size <= |mem|
    ensures r.Ok? ==> |r.value| == size && forall i :: 0 <= i < size ==> r.value[i] == mem[addr + i]
  {
    if 0 <= addr && 0 <= size && addr + size <= |mem| then Ok(mem[addr..addr + size])
    else Err(AddressOutOfRange(addr, size))
  }

  /** True when `after` is `before` with `data` written at addr and every other byte as it was. */
  ghost predicate SplicedAt(before: seq<Byte>, after: seq<Byte>, addr: int, data: seq<Byte>) {
    |after| == |before| && 0 <= addr && addr + |data| <= |before|
    && (forall i :: 0 <= i < |data| ==> after[addr + i] == data[i])
    && (forall i :: 0 <= i < |before| && !(addr <= i < addr + |data|) ==> after[i] == before[i])
  }

  /** `write_mem(addr, data)`: the memory with data spliced in at addr. */
  function WriteMem(mem: seq<Byte>, addr: int, data: seq<Byte>): (r: Result<seq<Byte>>)
    ensures r.Ok? <==> 0 <= addr && addr + |data| <= |mem|
    ensures r.Ok? ==> SplicedAt(mem, r.value, addr, data)
  {
    if 0 <= addr && addr + |data| <= |mem| then
      var after := mem[..addr] + data + mem[addr + |data|..];
      assert forall i :: 0 <= i < |data| ==> after[addr + i] == data[i];
      Ok(after)
    else Err(AddressOutOfRange(addr, |data|))
  }

  /** Reading back the span just written gives the data written. */
  lemma ReadOwnWrite(mem: seq<Byte>, addr: int, data: seq<Byte>)
    requires WriteMem(mem, addr, data).Ok?
    ensures ReadMem(WriteMem(mem, addr, data).value, addr, |data|) == Ok(data)
  {
    var after := WriteMem(mem, addr, data).value;
    assert after[addr..addr + |data|] == data;
  }

  // ---------------------------------------------------------------------------
  // read_field
  // ---------------------------------------------------------------------------

  /** The decode step of `read_field`: the blob encodings return the bytes unchanged, U8 the
      first byte; indexing past the bytes read raises, except for BCD, which takes any length. */
  function Decode(enc: Encoding, raw: seq<Byte>): (r: Result<Value>)
    ensures r.Err? <==> !IsBlob(enc) && !enc.U24Bcd? && |raw| < Width(enc)
    ensures IsBlob(enc) ==> r == Ok(Blob(raw))
    ensures enc.U8? && r.Ok? ==> r.value == Num(raw[0])
    ensures enc.U16Le? && r.Ok? ==> r.value == Num(DecodeU16Le(raw))
    ensures enc.U16Be? && r.Ok? ==> r.value == Num(DecodeU16Be(raw))
    ensures enc.U24Le? && r.Ok? ==> r.value == Num(DecodeU24Le(raw))
    ensures enc.U24Bcd? ==> r == Ok(Num(BcdDecode(raw)))
    ensures r.Ok? && !IsBlob(enc) ==> r.value.Num? && 0 <= r.value.n
    ensures r.Ok? && !IsBlob(enc) && !enc.U24Bcd? ==> r.value.n < Pow256(Width(enc))
  {
    match enc
    case U8 => if |raw| < 1 then Err(ShortRead) else Ok(Num(raw[0]))
    case U16Le => if |raw| < 2 then Err(ShortRead) else Ok(Num(DecodeU16Le(raw)))
    case U16Be => if |raw| < 2 then Err(ShortRead) else Ok(Num(DecodeU16Be(raw)))
    case U24Le => if |raw| < 3 then Err(ShortRead) else Ok(Num(DecodeU24Le(raw)))
    case U24Bcd => BcdDecodeNonNegative(raw); Ok(Num(BcdDecode(raw)))
    case Bytes => Ok(Blob(raw))
    case TextGsc => Ok(Blob(raw))
  }

  function Pow256(n: nat): nat {
    if n == 0 then 1 else 0x100 * Pow256(n - 1)
  }

  lemma {:induction false} DigitsValueNonNegative(ds: seq<int>)
    requires forall i :: 0 <= i < |ds| ==> 0 <= ds[i]
    ensures DigitsValue(ds) >= 0
  {
    if ds != [] {
      DigitsValueNonNegative(ds[..|ds| - 1]);
    }
  }

  lemma BcdDecodeNonNegative(raw: seq<Byte>)
    ensures BcdDecode(raw) >= 0
  {
    var ds := Nibbles(raw);
    forall i | 0 <= i < |ds|
      ensures 0 <= ds[i]
    {
      if i % 2 == 0 {
        assert ds[2 * (i / 2)] == raw[i / 2] / 0x10;
      } else {
        assert ds[2 * (i / 2) + 1] == raw[i / 2] % 0x10;
      }
    }
    DigitsValueNonNegative(ds);
  }

  /** `read_field(read_mem, field)`: read `field.size` bytes at `field.addr` and decode them. */
  function ReadField(mem: seq<Byte>, f: MemField): (r: Result<Value>)
    ensures ReadMem(mem, f.addr, f.size).Err? ==> r == Err(AddressOutOfRange(f.addr, f.size))
    ensures ReadMem(mem, f.addr, f.size).Ok? ==> r == Decode(f.enc, mem[f.addr..f.addr + f.size])
    ensures r.Ok? && IsBlob(f.enc) ==> r.value == Blob(mem[f.addr..f.addr + f.size])
    ensures r.Ok? && f.enc.U8? ==> r.value == Num(mem[f.addr])
  {
    var raw :- ReadMem(mem, f.addr, f.size);
    Decode(f.enc, raw)
  }

  // ---------------------------------------------------------------------------
  // write_field
  // ---------------------------------------------------------------------------

  /** Python's `bytes(value)`: an integer n gives n zero bytes, a byte string itself. */
  function ToBytes(value: Value): (r: Result<seq<Byte>>)
    ensures r.Err? <==> value.Num? && value.n < 0
    ensures r.Ok? && value.Num? ==> |r.value| == value.n && forall i :: 0 <= i < value.n ==> r.value[i] == 0
    ensures value.Blob? ==> r == Ok(value.data)
  {
    match value
    case Num(n) => if n < 0 then Err(NegativeByteCount) else Ok(seq(n, _ => 0))
    case Blob(b) => Ok(b)
  }

  /** A byte string read as ASCII text, one character per byte. */
  function AsText(b: seq<Byte>): (t: string)
    ensures |t| == |b|
  {
    seq(|b|, i requires 0 <= i < |b| => b[i] as char)
  }

  /** Every character of t fits in a byte. */
  predicate ByteChars(t: string) {
    forall i :: 0 <= i < |t| ==> t[i] as int < 0x100
  }

  /** The bytes of a text whose characters all fit in a byte. */
  function AsciiBytes(t: string): (b: seq<Byte>)
    requires ByteChars(t)
    ensures |b| == |t|
  {
    seq(|t|, i requires 0 <= i < |t| => t[i] as int)
  }

  /** Python's `int(value)`: a number is itself, a byte string is read as decimal text with
      optional surrounding whitespace and sign. */
  function IntOf(value: Value): (r: Result<int>)
    ensures value.Num? ==> r == Ok(value.n)
    ensures value.Blob? ==> r == PyInt10(AsText(value.data))
  {
    match value
    case Num(n) => Ok(n)
    case Blob(b) => PyInt10(AsText(b))
  }

  /** The encoding of an integer under a numeric encoding: U8 keeps the low byte, the others
      truncate or clamp as their encoders do. */
  function EncodeNum(enc: Encoding, n: int): (r: seq<Byte>)
    requires !IsBlob(enc)
    ensures |r| == Width(enc)
  {
    match enc
    case U8 => [Low8(n)]
    case U16Le => EncodeU16Le(n)
    case U16Be => EncodeU16Be(n)
    case U24Le => EncodeU24Le(n)
    case U24Bcd => BcdEncode(n)
  }

  /** The bytes `write_field` hands to `write_mem`, or the error it raises first. Numeric
      encodings take `int(value)` and truncate or clamp it; blob encodings take `bytes(value)`
      and demand exactly `field.size` bytes. */
  function EncodeField(f: MemField, value: Value): (r: Result<seq<Byte>>)
    ensures !IsBlob(f.enc) ==> (r.Ok? <==> IntOf(value).Ok?)
    ensures !IsBlob(f.enc) && value.Num? ==> r == Ok(EncodeNum(f.enc, value.n))
    ensures !IsBlob(f.enc) && value.Blob? && r.Err? ==> r == Err(NotAnInteger)
    ensures !IsBlob(f.enc) && r.Ok? ==> r.value == EncodeNum(f.enc, IntOf(value).value)
    ensures IsBlob(f.enc) ==> (r.Ok? <==> ToBytes(value).Ok? && |ToBytes(value).value| == f.size)
    ensures IsBlob(f.enc) && r.Ok? ==> r.value == ToBytes(value).value
    ensures IsBlob(f.enc) && ToBytes(value).Ok? && |ToBytes(value).value| != f.size ==>
              r == Err(SizeMismatch(f.key, f.size, |ToBytes(value).value|))
  {
    if IsBlob(f.enc) then
      var b :- ToBytes(value);
      if |b| != f.size then Err(SizeMismatch(f.key, f.size, |b|)) else Ok(b)
    else
      var n :- IntOf(value);
      Ok(EncodeNum(f.enc, n))
  }

  /** Bytes spelled from a text read back as that text. */
  lemma AsTextOfAscii(t: string)
    requires ByteChars(t)
    ensures AsText(AsciiBytes(t)) == t
  {
  }

  /** On a numeric field, two values with the same `int(value)` write the same bytes. */
  lemma EncodeByInt(f: MemField, v: Value, w: Value)
    requires !IsBlob(f.enc) && IntOf(v) == IntOf(w)
    ensures EncodeField(f, v) == EncodeField(f, w)
  {
  }

  /** `int(b"<digits>")` reads the digits: on a numeric field the ASCII spelling of n writes
      what n writes. */
  lemma EncodeDigitBlob(f: MemField, n: nat)
    requires !IsBlob(f.enc)
    ensures EncodeField(f, Blob(AsciiBytes(ToDec(n)))) == EncodeField(f, Num(n))
  {
    AsTextOfAscii(ToDec(n));
    PyInt10RoundTrip(n);
    EncodeByInt(f, Blob(AsciiBytes(ToDec(n))), Num(n));
  }

  /** `int(b"-<digits of n>")` is -n, so by `EncodeByInt` that byte string writes what -n writes. */
  lemma NegativeDigitsInt(n: nat)
    ensures ByteChars("-" + ToDec(n))
    ensures IntOf(Blob(AsciiBytes("-" + ToDec(n)))) == Ok(-(n as int))
  {
    var t := "-" + ToDec(n);
    SignedDigitsFit(ToDec(n));
    AsTextOfAscii(t);
    PyInt10Negative(n);
  }

  /** A minus sign before decimal digits keeps every character within a byte. */
  lemma SignedDigitsFit(d: string)
    requires forall i :: 0 <= i < |d| ==> '0' <= d[i] <= '9'
    ensures ByteChars("-" + d)
  {
    var t := "-" + d;
    forall i | 0 <= i < |t|
      ensures t[i] as int < 0x100
    {
      if i > 0 {
        assert t[i] == d[i - 1];
      }
    }
  }

  /** `write_field(write_mem, field, value)` over a flat memory: one `write_mem` call at
      `field.addr`, made only once the value has been encoded and checked. */
  function WriteField(mem: seq<Byte>, f: MemField, value: Value): (r: Result<seq<Byte>>)
    ensures EncodeField(f, value).Err? ==> r == Err(EncodeField(f, value).error)
    ensures r.Ok? <==> EncodeField(f, value).Ok? && 0 <= f.addr && f.addr + |EncodeField(f, value).value| <= |mem|
    ensures EncodeField(f, value).Ok? ==> r == WriteMem(mem, f.addr, EncodeField(f, value).value)
    ensures r.Ok? ==> SplicedAt(mem, r.value, f.addr, EncodeField(f, value).value)
  {
    var data :- EncodeField(f, value);
    WriteMem(mem, f.addr, data)
  }

  /** The number a numeric field reads back after n was written to it: n modulo the width, or
      clamped for BCD. */
  function StoredNum(enc: Encoding, n: int): int
    requires !IsBlob(enc)
  {
    match enc
    case U8 => n % 0x100
    case U16Le => n % 0x1_0000
    case U16Be => n % 0x1_0000
    case U24Le => n % 0x100_0000
    case U24Bcd => ClampBcd(n)
  }

  /** Decoding the encoding of n gives n back, modulo the width or clamped for BCD. */
  lemma DecodeEncodeNum(enc: Encoding, n: int)
    requires !IsBlob(enc)
    ensures Decode(enc, EncodeNum(enc, n)) == Ok(Num(StoredNum(enc, n)))
  {
    match enc {
      case U8 =>
        DivModUnique(n, 0x100, n / 0x100, Low8(n));
      case U16Le =>
        FixedWidthRoundTrip(n);
      case U16Be =>
        FixedWidthRoundTrip(n);
      case U24Le =>
        FixedWidthRoundTrip(n);
      case U24Bcd =>
        BcdRoundTrip(n);
    }
  }

  /** The value a field reads back after `value` was written to it. */
  function Stored(f: MemField, value: Value): (v: Value)
    requires EncodeField(f, value).Ok?
  {
    if IsBlob(f.enc) then Blob(ToBytes(value).value) else Num(StoredNum(f.enc, IntOf(value).value))
  }

  /** Write then read on the same field gives the stored value back: the value itself for
      in-range numbers and for blobs of the right size. Numeric fields must span exactly
      their encoding's width, as every catalog field does. */
  lemma WriteThenRead(mem: seq<Byte>, f: MemField, value: Value)
    requires WriteField(mem, f, value).Ok?
    requires !IsBlob(f.enc) ==> f.size == Width(f.enc)
    ensures ReadField(WriteField(mem, f, value).value, f) == Ok(Stored(f, value))
    ensures f.enc.U8? && value.Num? && 0 <= value.n < 0x100 ==> Stored(f, value) == value
    ensures (f.enc.U16Le? || f.enc.U16Be?) && value.Num? && 0 <= value.n < 0x1_0000 ==> Stored(f, value) == value
    ensures f.enc.U24Le? && value.Num? && 0 <= value.n < 0x100_0000 ==> Stored(f, value) == value
    ensures f.enc.U24Bcd? && value.Num? && 0 <= value.n <= 999999 ==> Stored(f, value) == value
    ensures IsBlob(f.enc) && value.Blob? ==> Stored(f, value) == value
  {
    ReadBackStored(mem, f, value);
    StoredInRange(f, value);
  }

  /** The value half of WriteThenRead: in-range numbers and blobs are stored unchanged. */
  lemma StoredInRange(f: MemField, value: Value)
    requires EncodeField(f, value).Ok?
    ensures f.enc.U8? && value.Num? && 0 <= value.n < 0x100 ==> Stored(f, value) == value
    ensures (f.enc.U16Le? || f.enc.U16Be?) && value.Num? && 0 <= value.n < 0x1_0000 ==> Stored(f, value) == value
    ensures f.enc.U24Le? && value.Num? && 0 <= value.n < 0x100_0000 ==> Stored(f, value) == value
    ensures f.enc.U24Bcd? && value.Num? && 0 <= value.n <= 999999 ==> Stored(f, value) == value
    ensures IsBlob(f.enc) && value.Blob? ==> Stored(f, value) == value
  {
    if value.Num? && !IsBlob(f.enc) {
      assert IntOf(value) == Ok(value.n);
    }
  }

  /** The read-back half of WriteThenRead: the bytes written decode to the stored value. */
  lemma ReadBackStored(mem: seq<Byte>, f: MemField, value: Value)
    requires WriteField(mem, f, value).Ok?
    requires !IsBlob(f.enc) ==> f.size == Width(f.enc)
    ensures ReadField(WriteField(mem, f, value).value, f) == Ok(Stored(f, value))
  {
    var data := EncodeField(f, value).value;
    ReadOwnWrite(mem, f.addr, data);
    if !IsBlob(f.enc) {
      DecodeEncodeNum(f.enc, IntOf(value).value);
    }
  }

  /** A write leaves every byte outside `[field.addr, field.addr + width)` as it was. */
  lemma WriteFieldFrame(mem: seq<Byte>, f: MemField, value: Value, i: int)
    requires WriteField(mem, f, value).Ok?
    requires 0 <= i < |mem|
    requires i < f.addr || f.addr + |EncodeField(f, value).value| <= i
    ensures WriteField(mem, f, value).value[i] == mem[i]
  {
  }

  /** The mutating form: `write_field` with `write_mem` storing into the emulator's memory. */
  method WriteFieldInto(mem: array<Byte>, f: MemField, value: Value) returns (r: Result<()>)
    modifies mem
    ensures r.Ok? <==> EncodeField(f, value).Ok? && 0 <= f.addr && f.addr + |EncodeField(f, value).value| <= mem.Length
    ensures r.Ok? <==> WriteField(old(mem[..]), f, value).Ok?
    ensures r.Ok? ==> mem[..] == WriteField(old(mem[..]), f, value).value
    ensures r.Err? ==> r.error == WriteField(old(mem[..]), f, value).error && mem[..] == old(mem[..])
  {
    var encoded := EncodeField(f, value);
    if encoded.Err? {
      return Err(encoded.error);
    }
    var data := encoded.value;
    if !(0 <= f.addr && f.addr + |data| <= mem.Length) {
      return Err(AddressOutOfRange(f.addr, |data|));
    }
    ghost var before := mem[..];
    ghost var want := WriteMem(before, f.addr, data).value;
    assert WriteField(before, f, value) == Ok(want);
    forall i | 0 <= i < |data| {
      mem[f.addr + i] := data[i];
    }
    assert forall i :: 0 <= i < mem.Length ==> mem[i] == want[i];
    assert mem[..] == want;
    r := Ok(());
  }
}
