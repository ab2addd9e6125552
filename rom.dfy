// ROM helpers: bank:address to file offset, inclusive hex ranges, and reading ROM fields
// out of the cartridge image (gsc_memory_lib.py).
module Rom {
  import opened Wrappers
  import opened Codec
  import opened PyStr
  import Catalog

  /** A Game Boy `bank:addr` pointer. */
  datatype RomBankAddr = RomBankAddr(bank: int, addr: int)

  /** A half-open range of file offsets. */
  datatype RomRange = RomRange(startOff: int, endOffExcl: int, desc: string)

  const BankSize := 0x4000

  /** The address window a bank is seen through: 0x0000-0x3FFF for bank 0, 0x4000-0x7FFF above. */
  predicate InWindow(p: RomBankAddr) {
    if p.bank == 0 then 0 <= p.addr <= 0x3FFF else 0x4000 <= p.addr <= 0x7FFF
  }

  /** `bankaddr_to_file_offset`: bank 0 is the identity on its window; bank b >= 1 maps its
      window onto b * 0x4000 .. b * 0x4000 + 0x3FFF. The offset lies in the bank's 16 KiB slice. */
  function BankAddrToFileOffset(p: RomBankAddr): (r: Result<int>)
    ensures r.Ok? <==> p.bank >= 0 && InWindow(p)
    ensures p.bank < 0 ==> r == Err(NegativeBank)
    ensures p.bank == 0 && !InWindow(p) ==> r == Err(BankZeroAddrOutOfRange)
    ensures p.bank > 0 && !InWindow(p) ==> r == Err(BankedAddrOutOfRange)
    ensures r.Ok? ==> p.bank * BankSize <= r.value < (p.bank + 1) * BankSize
    ensures r.Ok? ==> r.value - p.bank * BankSize == p.addr % BankSize
  {
    if p.bank < 0 then Err(NegativeBank)
    else if p.bank == 0 then
      if !(0x0000 <= p.addr <= 0x3FFF) then Err(BankZeroAddrOutOfRange) else Ok(p.addr)
    else if !(0x4000 <= p.addr <= 0x7FFF) then Err(BankedAddrOutOfRange)
    else Ok(p.bank * BankSize + (p.addr - 0x4000))
  }

  /** The pointer that reaches a file offset: the inverse of the translation. */
  function FileOffsetToBankAddr(off: nat): (p: RomBankAddr)
    ensures p.bank >= 0 && InWindow(p)
  {
    if off < BankSize then RomBankAddr(0, off) else RomBankAddr(off / BankSize, BankSize + off % BankSize)
  }

  /** Translation is a bijection between in-window pointers and file offsets. */
  lemma BankAddrRoundTrip(p: RomBankAddr, off: nat)
    ensures BankAddrToFileOffset(FileOffsetToBankAddr(off)) == Ok(off)
    ensures BankAddrToFileOffset(p).Ok? ==> FileOffsetToBankAddr(BankAddrToFileOffset(p).value) == p
  {
    if off >= BankSize {
      var q := FileOffsetToBankAddr(off);
      assert off == BankSize * (off / BankSize) + off % BankSize;
    }
    if BankAddrToFileOffset(p).Ok? && p.bank > 0 {
      var o := BankAddrToFileOffset(p).value;
      assert o == BankSize * p.bank + (p.addr - 0x4000);
      DivModUnique(o, BankSize, p.bank, p.addr - 0x4000);
    }
  }

  /** Test vectors: 0:0000 and 0:3FFF stay put, 1:4000 is 0x4000, 2:4000 is 0x8000; 0:4000 and
      1:3FFF are refused. */
  lemma BankAddrVectors()
    ensures BankAddrToFileOffset(RomBankAddr(0, 0x0000)) == Ok(0x0000)
    ensures BankAddrToFileOffset(RomBankAddr(0, 0x3FFF)) == Ok(0x3FFF)
    ensures BankAddrToFileOffset(RomBankAddr(1, 0x4000)) == Ok(0x4000)
    ensures BankAddrToFileOffset(RomBankAddr(2, 0x4000)) == Ok(0x8000)
    ensures BankAddrToFileOffset(RomBankAddr(0, 0x4000)).Err?
    ensures BankAddrToFileOffset(RomBankAddr(1, 0x3FFF)).Err?
  {
  }

  // ---------------------------------------------------------------------------
  // Inclusive hex ranges
  // ---------------------------------------------------------------------------

  /** `text.split("-", 1)` unpacked into two halves: the text before and after the first dash. */
  function SplitAtDash(text: string): (r: Option<(string, string)>)
    ensures r.None? <==> IndexOf(text, '-').None?
    ensures r.Some? ==> text == r.value.0 + "-" + r.value.1
    ensures r.Some? ==> forall i :: 0 <= i < |r.value.0| ==> r.value.0[i] != '-'
  {
    match IndexOf(text, '-')
    case None => None
    case Some(d) =>
      assert text == text[..d] + "-" + text[d + 1..];
      Some((text[..d], text[d + 1..]))
  }

  /** `parse_hex_range("S-E")`: split at the first dash, read both halves with `int(half.strip(), 16)`
      (so a sign and a "0x" prefix are accepted), and make the end exclusive. */
  function ParseHexRange(text: string, desc: string): (r: Result<RomRange>)
    ensures SplitAtDash(text).None? ==> r == Err(MissingDash)
    ensures SplitAtDash(text).Some? ==> r == RangeOfHalves(SplitAtDash(text).value.0, SplitAtDash(text).value.1, desc)
  {
    match SplitAtDash(text)
    case None => Err(MissingDash)
    case Some((a, b)) => RangeOfHalves(a, b, desc)
  }

  /** The two halves of a split range, each read by `int(half.strip(), 16)`; the end becomes
      exclusive. Either half failing to parse is a malformed number. */
  function RangeOfHalves(a: string, b: string, desc: string): (r: Result<RomRange>)
    ensures r.Ok? <==> PyInt16(Strip(a)).Ok? && PyInt16(Strip(b)).Ok?
    ensures r.Err? ==> r == Err(MalformedHex)
    ensures r.Ok? ==> r.value.startOff == PyInt16(Strip(a)).value
                      && r.value.endOffExcl == PyInt16(Strip(b)).value + 1
                      && r.value.desc == desc
  {
    match PyInt16(Strip(a))
    case Err(e) => Err(e)
    case Ok(start) =>
      match PyInt16(Strip(b))
      case Err(e) => Err(e)
      case Ok(endInclusive) => Ok(RomRange(start, endInclusive + 1, desc))
  }

  /** Hex digits contain no dash. */
  lemma HexDigitsNoDash(t: string)
    requires forall i :: 0 <= i < |t| ==> IsHexDigit(t[i])
    ensures forall i :: 0 <= i < |t| ==> t[i] != '-'
    ensures IndexOf(t, '-').None?
  {
    forall i | 0 <= i < |t|
      ensures t[i] != '-'
    {
      assert IsHexDigit(t[i]);
    }
  }

  lemma NoDashInHex(n: nat)
    ensures forall i :: 0 <= i < |ToHex(n)| ==> ToHex(n)[i] != '-'
    ensures IndexOf(ToHex(n), '-').None?
  {
    HexDigitsNoDash(ToHex(n));
  }

  lemma ParseStrippedHex(n: nat)
    ensures PyInt16(Strip(ToHex(n))) == Ok(n)
  {
    ParseToHex(n);
    PyInt16Plain(ToHex(n), n);
  }

  /** Spelling an inclusive range `S-E` in hex and parsing it gives the range [S, E + 1). */
  lemma ParseHexRangeRoundTrip(s: nat, e: nat, desc: string)
    ensures ParseHexRange(ToHex(s) + "-" + ToHex(e), desc) == Ok(RomRange(s, e + 1, desc))
  {
    NoDashInHex(s);
    ParseStrippedHex(s);
    ParseStrippedHex(e);
    ParseHexRangeHalves(ToHex(s), ToHex(e), s, e + 1, desc);
  }

  /** A first half free of dashes is split off at the dash that follows it. */
  lemma SplitAfterWord(a: string, b: string)
    requires forall i :: 0 <= i < |a| ==> a[i] != '-'
    ensures SplitAtDash(a + "-" + b).Some?
    ensures SplitAtDash(a + "-" + b).value.0 == a && SplitAtDash(a + "-" + b).value.1 == b
  {
    IndexOfAfter(a, '-', b);
    var text := a + "-" + b;
    assert text[..|a|] == a && text[|a| + 1..] == b;
  }

  /** Putting "0x" in front of a dash-free text keeps it dash-free. */
  lemma PrefixedNoDash(h: string)
    requires forall i :: 0 <= i < |h| ==> h[i] != '-'
    ensures forall i :: 0 <= i < |"0x" + h| ==> ("0x" + h)[i] != '-'
  {
    forall i | 0 <= i < |"0x" + h|
      ensures ("0x" + h)[i] != '-'
    {
      if i >= 2 {
        assert ("0x" + h)[i] == h[i - 2];
      }
    }
  }

  /** A dash-free first half and a second half that both parse give the range they spell. */
  lemma ParseHexRangeHalves(a: string, b: string, x: int, z: int, desc: string)
    requires forall i :: 0 <= i < |a| ==> a[i] != '-'
    requires PyInt16(Strip(a)).Ok? && PyInt16(Strip(a)).value == x
    requires PyInt16(Strip(b)).Ok? && PyInt16(Strip(b)).value == z - 1
    ensures ParseHexRange(a + "-" + b, desc) == Ok(RomRange(x, z, desc))
  {
    SplitAfterWord(a, b);
    RangeFields(RangeOfHalves(a, b, desc), x, z, desc);
  }

  /** A parsed range is determined by its three fields. */
  lemma RangeFields(r: Result<RomRange>, x: int, z: int, desc: string)
    requires r.Ok? && r.value.startOff == x && r.value.endOffExcl == z && r.value.desc == desc
    ensures r == Ok(RomRange(x, z, desc))
  {
  }

  /** A "0x" prefix is accepted on both halves: "0x<S>-0x<E>" is [S, E + 1), as "0x10-0x20"
      is [16, 33). */
  lemma ParseHexRangePrefixed(s: nat, e: nat, desc: string)
    ensures ParseHexRange(("0x" + ToHex(s)) + "-" + ("0x" + ToHex(e)), desc) == Ok(RomRange(s, e + 1, desc))
  {
    var a := "0x" + ToHex(s);
    NoDashInHex(s);
    PrefixedNoDash(ToHex(s));
    ParseToHex(s);
    ParseToHex(e);
    PyInt16Prefixed(ToHex(s), s);
    PyInt16Prefixed(ToHex(e), e);
    ParseHexRangeHalves(a, "0x" + ToHex(e), s, e + 1, desc);
  }

  /** A sign after the dash belongs to the end: for hex digits a and b of values x and y,
      "a--b" is [x, 1 - y), as "5--3" is [5, -2). */
  lemma ParseHexRangeSigned(a: string, b: string, x: nat, y: nat, desc: string)
    requires ParseHex(a) == Ok(x) && ParseHex(b) == Ok(y)
    ensures ParseHexRange(a + "-" + ("-" + b), desc).Ok?
    ensures ParseHexRange(a + "-" + ("-" + b), desc).value.startOff == x
    ensures ParseHexRange(a + "-" + ("-" + b), desc).value.endOffExcl == 1 - y
    ensures ParseHexRange(a + "-" + ("-" + b), desc).value.desc == desc
  {
    HexDigitsNoDash(a);
    PyInt16Plain(a, x);
    PyInt16Negated(b, y);
    ParseHexRangeHalves(a, "-" + b, x, 1 - y, desc);
  }

  /** A text without a dash, and a range with nothing after the dash, are refused. */
  lemma ParseHexRangeRefusals(s: nat, desc: string)
    ensures ParseHexRange(ToHex(s), desc) == Err(MissingDash)
    ensures ParseHexRange(ToHex(s) + "-", desc) == Err(MalformedHex)
  {
    NoDashInHex(s);
    var text := ToHex(s) + "-";
    IndexOfAfter(ToHex(s), '-', []);
    assert ToHex(s) + ['-'] + [] == text;
    assert text[..|ToHex(s)|] == ToHex(s) && text[|ToHex(s)| + 1..] == [];
    ParseStrippedHex(s);
  }

  // ---------------------------------------------------------------------------
  // Reading the image
  // ---------------------------------------------------------------------------

  /** A Python slice bound: negative counts from the end, then clamped to 0..n. */
  function SliceBound(i: int, n: nat): (j: nat)
    ensures j <= n
    ensures 0 <= i <= n ==> j == i
  {
    var k := if i < 0 then i + n else i;
    if k < 0 then 0 else if k > n then n else k
  }

  /** `s[a:b]` with Python's rules: never fails, clamps, and is empty when the bounds cross. */
  function PySlice(s: seq<Byte>, a: int, b: int): (r: seq<Byte>)
    ensures |r| <= |s|
    ensures 0 <= a <= b <= |s| ==> r == s[a..b]
    ensures 0 <= b <= a ==> r == []
  {
    var lo, hi := SliceBound(a, |s|), SliceBound(b, |s|);
    if lo >= hi then [] else s[lo..hi]
  }

  /** `read_rom_range`: the bytes of the range, cut short at the end of the image. */
  function ReadRomRange(rom: seq<Byte>, r: RomRange): (b: seq<Byte>)
    ensures 0 <= r.startOff <= r.endOffExcl <= |rom| ==> b == rom[r.startOff..r.endOffExcl]
    ensures 0 <= r.startOff <= |rom| <= r.endOffExcl ==> b == rom[r.startOff..]
  {
    PySlice(rom, r.startOff, r.endOffExcl)
  }

  /** `read_rom_bankaddr`: size bytes at the translated offset. */
  function ReadRomBankAddr(rom: seq<Byte>, p: RomBankAddr, size: int): (r: Result<seq<Byte>>)
    ensures r.Ok? <==> BankAddrToFileOffset(p).Ok?
    ensures r.Err? ==> r.error == BankAddrToFileOffset(p).error
    ensures r.Ok? && 0 <= size && BankAddrToFileOffset(p).value + size <= |rom| ==>
              var off := BankAddrToFileOffset(p).value; r.value == rom[off..off + size]
  {
    var off :- BankAddrToFileOffset(p);
    Ok(PySlice(rom, off, off + size))
  }

  datatype RomLocKind = FileRange | BankAddr

  /** A named ROM location: a file range, or a bank pointer plus a size. */
  datatype RomField = RomField(key: string, kind: RomLocKind, desc: string,
                               fileRange: Option<RomRange>, bankAddr: Option<RomBankAddr>, size: Option<int>)

  /** `read_rom_field`: dispatch on the kind; a location missing its range, pointer or size fails. */
  function ReadRomField(rom: seq<Byte>, f: RomField): (r: Result<seq<Byte>>)
    ensures f.kind.FileRange? ==> (r.Ok? <==> f.fileRange.Some?)
    ensures f.kind.FileRange? && f.fileRange.None? ==> r == Err(MissingFileRange(f.key))
    ensures f.kind.FileRange? && r.Ok? ==> r.value == ReadRomRange(rom, f.fileRange.value)
    ensures f.kind.BankAddr? ==>
              (r.Ok? <==> f.bankAddr.Some? && f.size.Some? && BankAddrToFileOffset(f.bankAddr.value).Ok?)
    ensures f.kind.BankAddr? && (f.bankAddr.None? || f.size.None?) ==> r == Err(MissingBankAddr(f.key))
    ensures f.kind.BankAddr? && f.bankAddr.Some? && f.size.Some? ==>
              r == ReadRomBankAddr(rom, f.bankAddr.value, f.size.value)
  {
    match f.kind
    case FileRange =>
      if f.fileRange.None? then Err(MissingFileRange(f.key))
      else Ok(ReadRomRange(rom, f.fileRange.value))
    case BankAddr =>
      if f.bankAddr.None? || f.size.None? then Err(MissingBankAddr(f.key))
      else ReadRomBankAddr(rom, f.bankAddr.value, f.size.value)
  }

  /** A pointer field whose pointer translates reads size bytes at the translated offset when
      the image holds them, and fails with the translation's error otherwise. */
  lemma PointerFieldBytes(rom: seq<Byte>, f: RomField)
    requires f.kind.BankAddr? && f.bankAddr.Some? && f.size.Some?
    ensures BankAddrToFileOffset(f.bankAddr.value).Err? ==>
              ReadRomField(rom, f) == Err(BankAddrToFileOffset(f.bankAddr.value).error)
    ensures BankAddrToFileOffset(f.bankAddr.value).Ok? && 0 <= f.size.value
            && BankAddrToFileOffset(f.bankAddr.value).value + f.size.value <= |rom| ==>
              var off := BankAddrToFileOffset(f.bankAddr.value).value;
              ReadRomField(rom, f) == Ok(rom[off..off + f.size.value])
  {
  }

  function RangeField(key: string, desc: string, r: RomRange): RomField {
    RomField(key, FileRange, desc, Some(r), None, None)
  }

  function PointerField(key: string, desc: string, p: RomBankAddr): RomField {
    RomField(key, BankAddr, desc, None, Some(p), Some(2))
  }

  /** ROM_FIELDS, with each `parse_hex_range` already applied. */
  const RomFields: seq<(string, RomField)> := [
    ("ptr.all_tileset_pointers", PointerField("ptr.all_tileset_pointers", "Pointer to all tileset pointers (Bank 0)", RomBankAddr(0, 0x2DFD))),
    ("ptr.all_tileset_pointers_part2", PointerField("ptr.all_tileset_pointers_part2", "Pointer to all tileset pointers part 2 (Bank 0)", RomBankAddr(0, 0x2E0F))),
    ("ptr.colors_second_part", PointerField("ptr.colors_second_part", "Pointer to Colors (Second part) (Bank 0)", RomBankAddr(0, 0x2E50))),
    ("ptr.pokemon_stats", PointerField("ptr.pokemon_stats", "Pointer to Pokémon stats (Bank 0)", RomBankAddr(0, 0x3A8E))),
    ("wild.ptr_johto_land", RangeField("wild.ptr_johto_land", "Pointer to Johto Pokemon (Land)", RomRange(0x2AA74, 0x2AA76, "Pointer to Johto Pokemon (Land)"))),
    ("wild.johto_land", RangeField("wild.johto_land", "Johto Wild Pokemon (Land)", RomRange(0x2AB35, 0x2B668, "Johto Wild Pokemon (Land)"))),
    ("wild.johto_water", RangeField("wild.johto_water", "Johto Wild Pokemon (Water)", RomRange(0x2B669, 0x2B7BF, "Johto Wild Pokemon (Water)"))),
    ("wild.kanto_land", RangeField("wild.kanto_land", "Kanto Wild Pokemon (Land)", RomRange(0x2B7C0, 0x2BD42, "Kanto Wild Pokemon (Land)"))),
    ("wild.kanto_water", RangeField("wild.kanto_water", "Kanto Wild Pokemon (Water)", RomRange(0x2BD43, 0x2BE1B, "Kanto Wild Pokemon (Water)"))),
    ("trainers.battle_ptrs", RangeField("trainers.battle_ptrs", "Pointers to Trainer Battles", RomRange(0x3993E, 0x399C1, "Pointers to Trainer Battles"))),
    ("trainers.pokemon_data", RangeField("trainers.pokemon_data", "Trainers Pokemon Data", RomRange(0x399C1, 0x3B685, "Trainers Pokemon Data"))),
    ("pokedex.abc_order", RangeField("pokedex.abc_order", "ABC Pokedex Order", RomRange(0x40C65, 0x40D60, "ABC Pokedex Order"))),
    ("pokedex.new_order", RangeField("pokedex.new_order", "New Pokedex Order", RomRange(0x40D60, 0x40E5C, "New Pokedex Order"))),
    ("pokedex.types_text", RangeField("pokedex.types_text", "Types (POKEDEX)", RomRange(0x40FFE, 0x41086, "Types (POKEDEX)"))),
    ("moves.move_data", RangeField("moves.move_data", "Moves Data", RomRange(0x41AFE, 0x421DC, "Moves Data"))),
    ("moves.ptr_table_pokemon_moves_evol", RangeField("moves.ptr_table_pokemon_moves_evol", "Pointers to Pokemon Moves/Evolution Data", RomRange(0x427BD, 0x429B3, "Pointers to Pokemon Moves/Evolution Data"))),
    ("moves.pokemon_moves_evol_data", RangeField("moves.pokemon_moves_evol_data", "Pokemon Moves/Evolution Data", RomRange(0x429B3, 0x43E57, "Pokemon Moves/Evolution Data"))),
    ("pokepics.pointers", RangeField("pokepics.pointers", "Pointers to Pokepics", RomRange(0x48000, 0x485E0, "Pointers to Pokepics"))),
    ("pokepics.graphics", RangeField("pokepics.graphics", "Pokemon Graphics blob", RomRange(0x485E0, 0x4C000, "Pokemon Graphics"))),
    ("maps.bank_pointers", RangeField("maps.bank_pointers", "Map Bank Pointers", RomRange(0x940ED, 0x94121, "Map Bank Pointers"))),
    ("maps.primary_headers", RangeField("maps.primary_headers", "Map Primary Headers", RomRange(0x94121, 0x94E12, "Map Primary Headers"))),
    ("maps.secondary_headers", RangeField("maps.secondary_headers", "Map Secondary Headers", RomRange(0x94E12, 0x965F9, "Map Secondary Headers")))
  ]

  /** `build_rom_catalog()`: a copy of ROM_FIELDS. */
  function BuildRomCatalog(): Catalog.Dict<RomField> {
    Catalog.FromPairs(RomFields)
  }

  /** The ROM catalog holds every table key, each mapped to a field that carries that key and
      that reads without error from any image. */
  lemma RomCatalogContents(rom: seq<Byte>, k: string)
    ensures Catalog.DictValid(BuildRomCatalog())
    ensures k in BuildRomCatalog().entries <==> exists i :: 0 <= i < |RomFields| && RomFields[i].0 == k
    ensures k in BuildRomCatalog().entries ==>
              BuildRomCatalog().entries[k].key == k && ReadRomField(rom, BuildRomCatalog().entries[k]).Ok?
  {
    Catalog.FromPairsValid(RomFields);
    if k in BuildRomCatalog().entries {
      Catalog.FromPairsEntry(RomFields, k);
      var i :| 0 <= i < |RomFields| && RomFields[i] == (k, BuildRomCatalog().entries[k]);
      RomFieldsReadable(i, rom);
    }
    if exists i :: 0 <= i < |RomFields| && RomFields[i].0 == k {
      var i :| 0 <= i < |RomFields| && RomFields[i].0 == k;
      Catalog.FromPairsHas(RomFields, i);
    }
  }

  /** Every table location can be read: each range is well ordered and each pointer is in window,
      so reading a field of an image that covers it yields exactly its bytes. */
  lemma RomFieldsReadable(i: int, rom: seq<Byte>)
    requires 0 <= i < |RomFields|
    ensures RomFields[i].1.key == RomFields[i].0
    ensures ReadRomField(rom, RomFields[i].1).Ok?
    ensures RomFields[i].1.kind.FileRange? ==>
              var r := RomFields[i].1.fileRange.value;
              0 <= r.startOff < r.endOffExcl
              && (r.endOffExcl <= |rom| ==> ReadRomField(rom, RomFields[i].1).value == rom[r.startOff..r.endOffExcl])
  {
  }

  lemma HexSpellingJohtoLand()
    ensures ToHex(0x2AB35) == "2AB35" && ToHex(0x2B667) == "2B667"
  {
    assert HexChar(2) == '2' && HexChar(3) == '3' && HexChar(5) == '5' && HexChar(6) == '6' && HexChar(7) == '7';
    assert HexChar(10) == 'A' && HexChar(11) == 'B';
    assert 0x2A / 16 == 2 && 0x2A % 16 == 10;
    assert ToHex(0x2A) == "2A";
    assert 0x2AB / 16 == 0x2A && 0x2AB % 16 == 11;
    assert ToHex(0x2AB) == "2AB";
    assert 0x2AB3 / 16 == 0x2AB && 0x2AB3 % 16 == 3;
    assert ToHex(0x2AB3) == "2AB3";
    assert 0x2AB35 / 16 == 0x2AB3 && 0x2AB35 % 16 == 5;
    assert 0x2B / 16 == 2 && 0x2B % 16 == 11;
    assert ToHex(0x2B) == "2B";
    assert 0x2B6 / 16 == 0x2B && 0x2B6 % 16 == 6;
    assert ToHex(0x2B6) == "2B6";
    assert 0x2B66 / 16 == 0x2B6 && 0x2B66 % 16 == 6;
    assert ToHex(0x2B66) == "2B66";
    assert 0x2B667 / 16 == 0x2B66 && 0x2B667 % 16 == 7;
  }

  /** `parse_hex_range("2AB35-2B667")`, the Johto land table, is [0x2AB35, 0x2B668). */
  lemma JohtoLandRange(text: string)
    requires text == "2AB35-2B667"
    ensures ParseHexRange(text, "Johto Wild Pokemon (Land)") == Ok(RomRange(0x2AB35, 0x2B668, "Johto Wild Pokemon (Land)"))
  {
    HexSpellingJohtoLand();
    assert text == ToHex(0x2AB35) + "-" + ToHex(0x2B667);
    ParseHexRangeRoundTrip(0x2AB35, 0x2B667, "Johto Wild Pokemon (Land)");
  }
}
