# Pokémon Gold/Silver memory toolkit — a Dafny model

This project models the byte-level core of a toolkit that reads and edits the RAM and ROM of
Pokémon Gold and Silver while the game runs in an emulator, and proves properties of that model.
The emulator memory is a flat 64 KiB space of bytes. `read_mem(addr, size)` reads a span of it and
`write_mem(addr, data)` splices data into it (`Memory.Splice`). On top of those two accessors the
toolkit has five layers, and the model covers each of them:

- **Codecs** (`Codec`, `Fields`). Fixed-width unsigned integers are U8, U16 little- and big-endian
  and U24 little-endian. Numbers can also be stored as 3-byte binary-coded decimal (BCD), clamped
  to 0..999999. Opaque byte blobs (`BYTES`, `TEXT_GSC`) have their length checked on write.
  `read_field` and `write_field` dispatch on the encoding tag. The Python code has two copies of
  this layer, in `gsc_memory_lib.py` and `gsc_ram_fields.py`. The model defines it once, and the
  table below cites both copies.
- **Address arithmetic and catalogs** (`RamMap`, `Catalog`, `Rom`):
  - the party slots, with a 0x30-byte stride for structs and 0x0B for names;
  - the species list and the Johto badge bits;
  - the 17 per-slot fields;
  - the RAM field catalog and snapshots of it;
  - ROM bank-address translation;
  - `"S-E"` hex ranges;
  - ROM field reads and the ROM catalog.
- **The game's text codec** (`GscText`). Letters, digits and the space map to their byte codes,
  and 0x50 is the terminator.
- **The GUI's editing actions** (`Bag`, `Party`, `Gui`). The bag is a list of (id, quantity) pairs
  ended by 0xFF. The GUI reads it, writes it, adds or sets an item, removes one, and adds a Rare
  Candy. It can also delete a party member, compacting the species list and shifting the slots
  down, or append a new member. `Gui.EmulatorApp` is a class that holds the emulator memory as an
  `array` together with the `active_party_slot` and `dirty` fields that these actions update.
- **The console editor** (`Console`). `_parse_bytes` reads hex byte strings and the raw-address
  edit writes one clamped byte.

Python's string and integer built-ins that this code relies on are in `PyStr`: `strip`, `find`,
ASCII `upper` and `lower`, `int(s, 16)` with its sign and `0x` prefix, and `int(b)` of a decimal
byte string. Three whitespace sets are kept apart. `str.strip()` and `str.split()` use Python's
`str.isspace()` set (`PyStr.IsSpace`): tab to carriage return, U+001C..U+001F, the space, U+0085,
U+00A0 and the Unicode space separators. `int(b)` on bytes skips only the space and tab to
carriage return (`PyStr.IsByteSpace`). `int(s, 16)` on a str skips those six and the non-ASCII
characters of the `str.isspace()` set, but not U+001C..U+001F (`PyStr.IsIntSpace`). The shared `Result`, `Option` and
error datatypes are in `Wrappers`. Bytes are `int`s in 0..255, and Python's `& 0xFF`,
`>> 8` and `<< 4` are written as modulo, division and multiplication. All values involved are
non-negative or are taken modulo a positive power of two, so Dafny's Euclidean operators agree
with Python's floor operators.

Each imperative loop of the source is a `method` proved equal to a specification function. The
properties are then proved about that function. These loops are:

- the BCD digit accumulator and packer;
- the text encoder and decoder;
- the bag reader, normaliser, layout, add-or-set and Rare Candy scan;
- the catalog builder and the snapshot loop;
- the party slot-shifting loop.

`write_field` over a real array is `Fields.WriteFieldInto`. The GUI actions are methods of
`Gui.EmulatorApp` that modify its `mem` array. Their postconditions give the new memory as a
specification function of the old one, together with the flags they set.

## Model

| member | source | states |
|---|---|---|
| Codec.DecodeU16Le | gsc_memory_lib.py:231-232 | the result is the first byte plus 256 times the second, so it lies in 0..0xFFFF |
| Codec.DecodeU16Be | gsc_ram_fields.py:47-48 | the result is 256 times the first byte plus the second, in 0..0xFFFF |
| Codec.DecodeU24Le | gsc_memory_lib.py:239-240 | the result is b0 + 256·b1 + 65536·b2, in 0..0xFFFFFF |
| Codec.EncodeU16Le | gsc_ram_fields.py:66-67 | two bytes, the low byte of v first, then the next byte |
| Codec.EncodeU16Be | gsc_memory_lib.py:258-259 | two bytes, the high byte of v's low 16 bits first |
| Codec.EncodeU24Le | gsc_memory_lib.py:262-263 | three bytes holding v's low 24 bits, least significant first |
| Codec.U16EndianReverse | gsc_memory_lib.py:254-259 | the big-endian 16-bit encoding is the reverse of the little-endian one |
| Codec.FixedWidthRoundTrip | gsc_memory_lib.py:231-263 | decoding an encoding gives v mod 2^8, 2^16 or 2^24, for every integer v, negative ones included; in range it gives v |
| Codec.EncodersKeepLowBits | gsc_ram_fields.py:66-75 | values that agree modulo 2^16 (2^24) have the same 16-bit (24-bit) encodings: only the low bits are kept |
| Codec.BcdDecodeThreeBytes | gsc_memory_lib.py:243-251 | three bytes decode to the six nibbles weighted by 10^5..10^0, even when a nibble is above 9 (the decoder never fails) |
| Codec.ClampBcd | gsc_memory_lib.py:267-270 | the value clamped into 0..999999: unchanged in range, 0 below, 999999 above |
| Codec.DecimalDigitsValue | gsc_memory_lib.py:271-272 | the n digits of `f"{v:0nd}"` read back give v mod 10^n |
| Codec.NibblesOfPacked | gsc_memory_lib.py:273-275 | splitting packed digit pairs back into high and low nibbles gives the digits |
| Codec.BcdEncode | gsc_memory_lib.py:266-276 | always three bytes in which every nibble is 0..9 |
| Codec.BcdRoundTrip | gsc_memory_lib.py:243-276 | decode(encode(v)) is the clamped v for every v, and v itself on 0..999999 |
| Codec.BcdEncodeSpelled | gsc_ram_fields.py:78-88 | byte i holds decimal digits 2i and 2i+1 of the clamped value, high nibble first |
| Codec.BcdEncodeTwelve | gsc_memory_lib.py:266-276 | 12 encodes as `00 00 12` |
| Codec.BcdEncodeSixDigits | gsc_memory_lib.py:266-276 | 123456 encodes as `12 34 56` |
| Codec.BcdEncodeClampLow | gsc_ram_fields.py:79-80 | every negative value encodes as `00 00 00` |
| Codec.BcdEncodeClampHigh | gsc_ram_fields.py:81-82 | every value above 999999 encodes as `99 99 99` |
| Codec.DecodeU24Bcd | gsc_ram_fields.py:55-63 | the nibble-list and `val * 10 + d` loops return the BCD value of the bytes |
| Codec.EncodeU24Bcd | gsc_ram_fields.py:78-88 | the clamp, format and pair-packing loop returns the BCD encoding |
| Fields.ReadMem | run_emulator_gui.py:57-58 | a read succeeds exactly when the span lies in memory, and then returns the bytes there |
| Fields.WriteMem | run_emulator_gui.py:61-62 | a write succeeds exactly when the span lies in memory; the data is at addr and every other byte is unchanged |
| Fields.ReadOwnWrite | run_emulator_gui.py:57-62 | reading back the span just written gives the data |
| Fields.Decode | gsc_memory_lib.py:284-299 | blobs come back unchanged; U8 gives the first byte, U16 LE/BE and U24 LE their decoder's value, each failing on a short read; BCD always gives the BCD value |
| Fields.BcdDecodeNonNegative | gsc_memory_lib.py:293-294 | a BCD field always reads as a non-negative number |
| Fields.ReadField | gsc_ram_fields.py:95-113 | a read off memory fails with the access error; otherwise the result is `Decode` of the field's encoding on exactly the `size` bytes at `addr`: the bytes themselves for a blob, the first byte for U8, the decoder's value for the other numeric encodings |
| Fields.ToBytes | gsc_memory_lib.py:319 | `bytes(value)`: n zero bytes for a non-negative integer n, an error for a negative one, the bytes themselves for a blob |
| Fields.EncodeField | gsc_memory_lib.py:302-330 | numeric encodings succeed exactly when `int(value)` does (always for an integer, for a byte string only when it spells a decimal number) and yield the encoder's bytes of that integer; blob encodings succeed exactly on a `bytes(value)` of the field's size and yield it; a wrong size is the size-mismatch error |
| Fields.EncodeDigitBlob | gsc_memory_lib.py:302-304 | on a numeric field the ASCII digits of n, as in `int(b"12") == 12`, write exactly what n writes |
| Fields.NegativeDigitsInt | gsc_memory_lib.py:302-304 | `int(b"-<digits of n>")` is -n |
| Fields.EncodeByInt | gsc_memory_lib.py:302-316 | on a numeric field, two values with the same `int(value)` write the same bytes |
| Fields.WriteField | gsc_ram_fields.py:116-145 | an encoding error is returned and nothing is written; the write succeeds exactly when the value encodes and the encoding fits in memory at `field.addr`, and then the result is the memory with the encoding spliced in there |
| Fields.DecodeEncodeNum | gsc_memory_lib.py:284-316 | decoding a numeric encoding of n gives n modulo the encoding's width, or n clamped to 0..999999 for BCD |
| Fields.WriteThenRead | gsc_memory_lib.py:283-330 | reading a field after writing it gives the value modulo the width (clamped for BCD), so in-range numbers and blobs of the right size come back unchanged |
| Fields.WriteFieldFrame | gsc_memory_lib.py:302-330 | a write changes no byte outside [addr, addr + encoded length) |
| Fields.WriteFieldInto | gsc_ram_fields.py:116-145 | the in-place write succeeds exactly when the value encodes and fits in the array at `field.addr` (exactly when `WriteField` does), then leaves the array equal to its result; on failure it reports the same error and leaves the array unchanged |
| RamMap.PartyMonBase | gsc_ram_map.py:243-246 | fails exactly for slots outside 0..5; otherwise it is a multiple of 0x30 past 0xDA2A, and the struct ends before the OT names |
| RamMap.PartyMonFieldAddr | gsc_ram_map.py:249-250 | fails exactly when the slot is out of range; otherwise it is the slot's base plus the offset |
| RamMap.PartyOtNameAddr | gsc_memory_lib.py:186-190 | fails exactly for slots outside 0..5; otherwise it is a multiple of 0x0B into the OT-name table, which ends before the nicknames |
| RamMap.PartyNicknameAddr | gsc_memory_lib.py:192-196 | fails exactly for slots outside 0..5; otherwise it is a multiple of 0x0B into the six-entry nickname table |
| RamMap.SlotStrides | gsc_memory_lib.py:186-205 | consecutive slots are 0x30 apart for structs and 0x0B apart for names |
| RamMap.SlotsDisjoint | gsc_memory_lib.py:186-202 | distinct slots own disjoint structs, OT names and nicknames |
| RamMap.PartyBlockLayout | gsc_ram_map.py:208-214 | the count byte, six species entries (0xDA23..0xDA28), the terminator at 0xDA29 and the first struct at 0xDA2A follow each other, and slot 5's struct ends at 0xDB4A where the OT names start |
| RamMap.StructOffsetsOrdered | gsc_ram_map.py:216-240 | the struct offsets are strictly increasing and all below 0x30 |
| RamMap.JohtoBadgeBits | gsc_ram_map.py:133-140 | the eight badge masks are single bits, pairwise disjoint, and their OR is 0xFF |
| Catalog.CoreTableWellFormed | gsc_memory_lib.py:333-363 | RAM_FIELDS_CORE has 29 entries; each key is its field's key, each numeric field spans its encoding's width, and no key looks like a per-slot key |
| Catalog.FieldsTableWellFormed | gsc_ram_fields.py:148-178 | the same three facts for the 28 entries of FIELDS |
| Catalog.PartyLayoutWellFormed | gsc_ram_fields.py:208-230 | the 17 per-slot fields lie inside the struct, have their encoding's width, and have distinct names |
| Catalog.PartyKey | gsc_memory_lib.py:366-387 | a per-slot key `party[slot].<name>` always starts with `party[` |
| Catalog.PartyKeyInjective | gsc_memory_lib.py:366-387 | two per-slot keys are equal only for the same slot and name |
| Catalog.PartyFieldsForSlot | gsc_memory_lib.py:366-387 | fails exactly for slots outside 0..5, and otherwise gives 17 fields |
| Catalog.PartyFieldAt | gsc_ram_fields.py:208-230 | field p of a slot has key `party[slot].<name p>`, address base(slot) + offset p, and the layout's size and encoding |
| Catalog.PartyFieldsInsideStruct | gsc_memory_lib.py:366-387 | every per-slot field lies inside [base, base + 0x30) and spans its encoding's width |
| Catalog.PartyFieldsBelowAt | gsc_memory_lib.py:390-392 | `iter_all_party_fields` lists the slots in order: field p of slot s sits at position 17·s + p |
| Catalog.AllPartyKeysDistinct | gsc_ram_fields.py:233-235 | no two of the 102 per-slot fields share a key |
| Catalog.BuildCatalog | gsc_memory_lib.py:395-400 | the copy-then-insert loop builds the catalog function's dict |
| Catalog.CatalogWellFormed | gsc_ram_fields.py:238-243 | the catalog lists each key once, and every key maps to a field that carries that key |
| Catalog.CatalogKeepsFixed | gsc_ram_fields.py:238-243 | with or without the party fields, every fixed-table key is in the catalog with the entry `dict(table)` gives it, so no fixed entry is overwritten and `build_catalog(False)` is the table |
| Catalog.CatalogHasPartyField | gsc_memory_lib.py:395-400 | with the party fields, field p of every slot s is in the catalog under `party[s].<name>` |
| Catalog.CatalogOnlyKeys | gsc_memory_lib.py:395-400 | with the party fields, every catalog key is a table key or one of the 102 `party[s].<name>` keys; for a table with distinct keys and none that looks like a per-slot key, the catalog has exactly as many entries as the table plus 102 |
| Catalog.FromPairsEntry | gsc_memory_lib.py:396 | every entry of `dict(pairs)` is one of the pairs |
| Catalog.SnapshotContents | gsc_memory_lib.py:403-407 | a snapshot succeeds exactly when every requested key is known and readable, and then holds exactly the requested keys, each mapped to `read_field` of its field |
| Catalog.Snapshot | gsc_ram_fields.py:246-255 | the loop builds the full catalog and returns the snapshot of the requested keys, or of every catalog key for `keys=None` |
| Catalog.SnapshotStep | gsc_ram_fields.py:252-254 | one more key: an unknown key raises the key error, a failed read raises its error, otherwise the value joins the result |
| Catalog.SnapshotStopsAtError | gsc_ram_fields.py:252-254 | once a prefix of the keys fails, the whole snapshot fails with that error |
| Catalog.SnapshotAllKeys | gsc_ram_fields.py:246-250 | with `keys=None` and every field readable, the snapshot succeeds and its keys are exactly the catalog's keys |
| Rom.BankAddrToFileOffset | gsc_memory_lib.py:420-429 | a negative bank, bank 0 outside 0x0000..0x3FFF and a bank ≥ 1 outside 0x4000..0x7FFF each fail with their own error; otherwise the offset lies in the bank's 16 KiB block at the address's position within the window |
| Rom.BankAddrRoundTrip | gsc_memory_lib.py:420-429 | the translation is a bijection between in-window pointers and file offsets |
| Rom.BankAddrVectors | gsc_memory_lib.py:420-429 | 0:0000 and 0:3FFF stay put, 1:4000 is 0x4000, 2:4000 is 0x8000, and 0:4000 and 1:3FFF are refused |
| Rom.SplitAtDash | gsc_memory_lib.py:440 | splits exactly when the text has a dash, into the text before the first dash and the text after it |
| Rom.ParseHexRange | gsc_memory_lib.py:439-443 | a text without a dash fails with the missing-dash error; otherwise the result is the range of the two halves around the first dash |
| Rom.RangeOfHalves | gsc_memory_lib.py:441-443 | succeeds exactly when both halves, stripped, read as `int(half, 16)`; the start is the first half's value and the exclusive end the second's plus one; a failure is the malformed-number error |
| Rom.ParseHexRangePrefixed | gsc_memory_lib.py:441-442 | a `0x` prefix on both halves is accepted: `0x<S>-0x<E>` is [S, E + 1), as `0x10-0x20` is [16, 33) |
| Rom.ParseHexRangeSigned | gsc_memory_lib.py:440-442 | a minus sign after the dash belongs to the end: `a--b` is [a, 1 - b), as `5--3` is [5, -2) |
| Rom.ParseHexRangeRefusals | gsc_memory_lib.py:440-442 | a text without a dash is the missing-dash error, and nothing after the dash is the malformed-number error |
| Rom.ParseHexRangeRoundTrip | gsc_memory_lib.py:439-443 | the hex spelling `S-E` of any inclusive range parses to [S, E + 1) |
| Rom.JohtoLandRange | gsc_memory_lib.py:452 | `"2AB35-2B667"` is the range [0x2AB35, 0x2B668) |
| Rom.SliceBound | gsc_memory_lib.py:472 | a Python slice bound lands in 0..n and is unchanged when already inside |
| Rom.PySlice | gsc_memory_lib.py:472 | `s[a:b]` never fails, is the exact slice for in-range bounds, and is empty when the bounds cross |
| Rom.ReadRomRange | gsc_memory_lib.py:471-472 | the bytes of the range, cut short at the end of the image |
| Rom.ReadRomBankAddr | gsc_memory_lib.py:475-477 | fails exactly when the pointer does not translate, with the translation's error; otherwise it returns size bytes at the translated offset when the image holds them |
| Rom.ReadRomField | gsc_memory_lib.py:495-504 | a file range with no range, or a pointer field with no pointer or size, fails with its own error; otherwise it is `read_rom_range` of the range or `read_rom_bankaddr` of the pointer and size |
| Rom.PointerFieldBytes | gsc_memory_lib.py:475-477 | a pointer field returns the translation's error, or exactly size bytes at the translated offset when the image holds them |
| Rom.RomCatalogContents | gsc_memory_lib.py:507-534 | the ROM catalog holds exactly the table's keys, each mapped to a field that carries the key and reads without error |
| Rom.RomFieldsReadable | gsc_memory_lib.py:507-530 | every ROM_FIELDS range is well ordered and every pointer is inside its window |
| GscText.ByteChar | run_emulator_gui.py:80-92 | 0x00 and 0x7F are spaces, the letter and digit ranges decode to letters and digits, and every other byte shows as `?` |
| GscText.CharByte | run_emulator_gui.py:102-111 | no character is written as the terminator, and decoding a character's byte gives the character back when it is in the set, and a space otherwise |
| GscText.CharByteInjective | run_emulator_gui.py:102-109 | distinct characters of the set get distinct bytes |
| GscText.TextEnd | run_emulator_gui.py:77-79 | the index of the first 0x50, or the length when there is none |
| GscText.GscDecode | run_emulator_gui.py:74-93 | the result is no longer than the text before the terminator, and has no leading or trailing space |
| GscText.GscEncode | run_emulator_gui.py:96-116 | always exactly max(size, 0) bytes, with a terminator right after a text shorter than the field |
| GscText.DecodeEncode | run_emulator_gui.py:74-116 | decoding an encoding gives the characters that fit, with unknown characters as spaces, stripped |
| GscText.NameRoundTrip | run_emulator_gui.py:74-116 | a text of letters, digits and inner spaces that fits in the field is read back exactly |
| GscText.DecodeGscText | run_emulator_gui.py:74-93 | the decoding loop returns the decoded text |
| GscText.EncodeGscText | run_emulator_gui.py:96-116 | the encoding loop returns the encoded bytes |
| Bag.ItemsFrom | run_emulator_gui.py:1084-1096 | every entry read has an id in 1..254, and the entries fit in the bytes read |
| Bag.ReadBound | run_emulator_gui.py:1082-1083 | the 41-byte list reads as at most 20 entries |
| Bag.ReadBagItems | run_emulator_gui.py:1080-1096 | the reading loop returns the items of the list |
| Bag.ClampQty | run_emulator_gui.py:1110 | the quantity clamped into 1..99: unchanged in range, 1 below, 99 above |
| Bag.Keep | run_emulator_gui.py:1105-1111 | the kept entries are all storable, with no more entries than the input |
| Bag.KeepSingle | run_emulator_gui.py:1106-1111 | one entry is dropped exactly when its id's low byte is 0 or 0xFF, and otherwise becomes that low byte with the quantity clamped to 1..99 |
| Bag.KeepConcat | run_emulator_gui.py:1105-1111 | the loop keeps order and handles each entry alone: normalising a + b gives the normalised a followed by the normalised b |
| Bag.KeepMembers | run_emulator_gui.py:1105-1111 | an entry is kept exactly when it is the masked id and clamped quantity of an input entry whose masked id is neither 0 nor 0xFF |
| Bag.KeepVector | run_emulator_gui.py:1106-1111 | (0x120, 150) is stored as (0x20, 99); ids 0x100 and 0x1FF are dropped; quantity 0 becomes 1 |
| Bag.Normalized | run_emulator_gui.py:1105-1113 | at most 20 storable entries, a prefix of the kept list, and all of it when fewer than 20 are kept |
| Bag.NormalizedStorable | run_emulator_gui.py:1105-1113 | a list of at most 20 storable entries normalises to itself |
| Bag.BagLayout | run_emulator_gui.py:1115-1124 | the layout is always 41 bytes |
| Bag.LayoutBytes | run_emulator_gui.py:1115-1124 | the layout is the pairs, then 0xFF, then zeros |
| Bag.LayoutReadsFrom | run_emulator_gui.py:1080-1124 | reading the layout of a storable list from entry k on gives the entries from k on |
| Bag.WriteReadBack | run_emulator_gui.py:1080-1127 | reading back what was written gives exactly the normalised list |
| Bag.NormalizeItems | run_emulator_gui.py:1104-1113 | the normalising loop and the cut return the normalised list |
| Bag.LayoutBag | run_emulator_gui.py:1115-1124 | the layout loop returns the layout |
| Bag.EncodeBag | run_emulator_gui.py:1098-1127 | the list bytes are the layout of the normalised list, and the count byte is its length modulo 256 |
| Bag.Replaced | run_emulator_gui.py:1146-1151 | the list keeps its length |
| Bag.AddOrSetEntries | run_emulator_gui.py:1143-1153 | afterwards the id is present, with the new quantity wherever it occurs; every other entry keeps its place and quantity; the list grows by one entry exactly when the id was absent |
| Bag.SetQuantity | run_emulator_gui.py:1144-1153 | the entry-by-entry loop returns the add-or-set list |
| Bag.Without | run_emulator_gui.py:1165 | no entry has the id, every other entry is kept, nothing new appears, and a list without the id is unchanged |
| Bag.WithoutConcat | run_emulator_gui.py:1165 | the comprehension keeps order and repeats: removing from a + b gives the result for a followed by the result for b |
| Bag.WithoutSingle | run_emulator_gui.py:1165 | one entry is dropped exactly when it has the id |
| Bag.WithoutVector | run_emulator_gui.py:1165 | [A, X, A, B] without X's id is [A, A, B] |
| Bag.AddOrSetStored | run_emulator_gui.py:1135-1156 | on a storable list, setting an id in 1..254 with a quantity in 1..99 writes back exactly the edited list, except that a new item on a full 20-entry list is dropped and the list is unchanged |
| Bag.AddTerminatorIdDropped | run_emulator_gui.py:1138-1155 | id 255 passes the 1..255 check, but normalisation drops it and the list comes back unchanged |
| Bag.RemoveStored | run_emulator_gui.py:1162-1166 | removing from a storable list writes back exactly the remaining entries |
| Bag.CandyScan | run_emulator_gui.py:765-772 | a found candy's quantity byte follows a 0x20 id at an even offset; a found terminator is a 0xFF at an even offset with a byte after it |
| Bag.CandyScanFirst | run_emulator_gui.py:765-772 | the scan stops at the first mark: no even offset it passed holds 0xFF or 0x20, and when it runs out no even offset before the last byte does |
| Bag.PlanCandy | run_emulator_gui.py:774-783 | a bump targets a byte of the list; an insert leaves room for two more bytes |
| Bag.ScanForCandy | run_emulator_gui.py:763-772 | the scanning loop returns the plan |
| Bag.ScanFindsCandy | run_emulator_gui.py:765-772 | the scan finds a candy exactly when the list as read holds one |
| Bag.BumpReadsBack | run_emulator_gui.py:774-776 | bumping the byte the scan found raises the first candy entry by one, capped at 99 |
| Bag.InsertReadsBack | run_emulator_gui.py:785-789 | writing at the terminator appends exactly one candy entry to the list as read |
| Bag.RareCandyEffect | run_emulator_gui.py:755-798 | a bump happens exactly when a candy is held and raises its first entry; an insert appends one candy to the list as read |
| Party.SlotAddresses | run_emulator_gui.py:1276-1290 | the GUI's slot regions are the ones the RAM map gives for the slot |
| Party.SpeciesList | run_emulator_gui.py:1261 | the species list is seven bytes |
| Party.Members | run_emulator_gui.py:1244 | the party has as many members as the count byte says |
| Party.WriteSlotSlot | run_emulator_gui.py:1276-1290 | filling slot k gives slot k the new bytes and leaves every other slot as it was |
| Party.WriteSlotOutside | run_emulator_gui.py:1276-1290 | filling slot k changes no byte outside slot k's struct and names |
| Party.WriteSlotSpecies | run_emulator_gui.py:1276-1290 | filling a slot leaves the species list alone |
| Party.DeletedSpecies | run_emulator_gui.py:1264-1272 | the new species list is seven bytes ending in 0xFF |
| Party.DeletedSpeciesShape | run_emulator_gui.py:1264-1272 | the entries before the slot are kept, the later ones move up one place, zeros fill from the new count, and byte 6 is 0xFF |
| Party.ShiftDownSlot | run_emulator_gui.py:1276-1284 | after the shift, slots from..last-1 hold their successors' struct, OT name and nickname, and the other slots are unchanged |
| Party.ShiftDownOutside | run_emulator_gui.py:1276-1284 | the shift writes nothing outside the party structs and names |
| Party.SlotsDetermine | run_emulator_gui.py:1276-1284 | two memories that agree outside the party structs and names and agree on every slot are equal |
| Party.ShiftPass | run_emulator_gui.py:1276-1284 | one pass of the loop extends the shift by one slot |
| Party.ShiftedIsShiftDown | run_emulator_gui.py:1276-1284 | once every pass has run, the memory is the shift of the original |
| Party.DeleteParty | run_emulator_gui.py:1243-1293 | an empty party and an empty slot are refused with their own errors, and a delete succeeds exactly when slot < count ≤ 6 |
| Party.DeletedByte | run_emulator_gui.py:1257-1293 | outside the structs and names, a delete writes only the count (down by one) and the species list |
| Party.DeletedSlot | run_emulator_gui.py:1276-1290 | after a delete, slot k holds the old slot k before the deleted one, the old slot k + 1 from it on, and the last slot is cleared |
| Party.DeletedMember | run_emulator_gui.py:1257-1293 | member k after a delete is the old member k before the slot and the old member k + 1 from it on |
| Party.DeleteMembers | run_emulator_gui.py:1243-1293 | deleting removes exactly the member in the slot, keeps the others in order, and lowers the count by one |
| Party.DeleteClears | run_emulator_gui.py:1264-1293 | after a delete, the species list is the old one without the entry, zero-filled from the new count, with 0xFF last |
| Party.FourBytes | run_emulator_gui.py:898-901 | the moves and PPs padded or cut to four bytes |
| Party.NewMonStruct | run_emulator_gui.py:881-941 | the new struct is 0x30 bytes |
| Party.NewMonHeadFields | run_emulator_gui.py:893-908 | species, held item 0, the four moves, trainer id 0 and the experience sit at their RAM-map offsets |
| Party.NewMonMiddleFields | run_emulator_gui.py:910-924 | zero stat experience, IVs 0x88 0x88, the PPs, happiness 70, no Pokérus, no caught data, the level and no status sit at their offsets |
| Party.NewMonStatFields | run_emulator_gui.py:926-941 | current and maximum HP and the five stats are written big-endian at their offsets |
| Party.NewMonReadsBack | run_emulator_gui.py:881-941 | for a level in 1..100 the new member reads back with that level, experience level³ and HP 10 + 3·level |
| Party.CubeBound | run_emulator_gui.py:907 | for a level in 1..100, `min(0xFFFFFF, level**3)` is level³ |
| Party.AppendedSpecies | run_emulator_gui.py:872-878 | the species list after an append is seven bytes ending in 0xFF |
| Party.AppendedSpeciesShape | run_emulator_gui.py:872-878 | the old entries are kept, the new species goes at the old count, zeros follow, and 0xFF is last |
| Party.AppendParty | run_emulator_gui.py:860-953 | an append fails with "party is full" exactly when the count is at least 6 |
| Party.AppendIsWrite | run_emulator_gui.py:868-953 | an append is the count and species writes followed by filling the old count's slot with the new member |
| Party.AppendedByte | run_emulator_gui.py:868-879 | outside the structs and names, an append writes only the count (up by one) and the species list |
| Party.AppendedSlot | run_emulator_gui.py:881-953 | after an append, the old count's slot holds the new member's bytes and earlier slots are unchanged |
| Party.AppendSpeciesList | run_emulator_gui.py:871-879 | after an append, the species list holds the old entries, the new species, zeros, and 0xFF |
| Party.AppendMembers | run_emulator_gui.py:860-956 | appending adds exactly one member, the new one, after the old members |
| Party.AppendedMember | run_emulator_gui.py:860-953 | member k after an append is the old member k, or the new one at the old count |
| Party.DeleteUndoesAppend | run_emulator_gui.py:860-956 | deleting the member just appended gives back the old members and count |
| Gui.BagWriteReadBack | run_emulator_gui.py:1080-1127 | after the bag is written, reading it gives exactly the normalised list; the count byte holds its length; nothing outside the count byte and the list changes |
| Gui.AppendSteps | run_emulator_gui.py:868-953 | the source's sequence of writes, with the OT name read back after the struct write, is the modelled append |
| Gui.EmulatorApp.constructor | run_emulator_gui.py:148-157 | a new app wraps the memory, with slot 0 active and nothing changed |
| Gui.EmulatorApp.WriteMem | run_emulator_gui.py:61-62 | the array becomes the old memory with the data spliced in |
| Gui.EmulatorApp.SetActivePartySlot | run_emulator_gui.py:629-630 | the active slot becomes the requested slot clamped to 0..5, and nothing else changes |
| Gui.EmulatorApp.DeletePartyPokemon | run_emulator_gui.py:1243-1300 | refuses an empty party and an empty slot, stops when the confirmation is refused, and fails on a count above 6; otherwise the memory becomes `Party.DeleteParty` of the old one, `dirty` is set, the count drops by one, and the active slot becomes `max(0, min(slot, new_count - 1))` (0 once the party is empty); every other outcome changes nothing |
| Gui.EmulatorApp.WriteDeletion | run_emulator_gui.py:1257-1293 | the species write, the shifting loop, the clearing of the last slot and the count write produce `Party.DeleteParty` |
| Gui.EmulatorApp.ShiftSlotsDown | run_emulator_gui.py:1276-1284 | the shifting loop leaves the memory equal to the shift of the old one |
| Gui.EmulatorApp.CopySlotDown | run_emulator_gui.py:1277-1284 | one pass copies slot i + 1's struct, OT name and nickname into slot i |
| Gui.EmulatorApp.ClearSlot | run_emulator_gui.py:1286-1290 | the slot gets a zero struct and two empty names |
| Gui.EmulatorApp.AppendPartyPokemon | run_emulator_gui.py:860-956 | a full party is refused and nothing changes; otherwise the memory becomes `Party.AppendParty` of the old one, the new slot becomes active, and `dirty` is set |
| Gui.EmulatorApp.WritePartyHeader | run_emulator_gui.py:868-879 | the count and species writes produce the append header |
| Gui.EmulatorApp.ReadBagItems | run_emulator_gui.py:1080-1096 | returns the items of the memory's bag list, at most 20 of them |
| Gui.EmulatorApp.WriteBagItems | run_emulator_gui.py:1098-1127 | the memory becomes the bag write of the items |
| Gui.EmulatorApp.InventoryAddOrSet | run_emulator_gui.py:1135-1160 | an id outside 1..255 is refused and nothing changes; otherwise the new memory is the bag write of the add-or-set list, so the bag reads back as the normalised add-or-set of the old bag with the clamped quantity, the count byte matches, nothing outside the bag changes, and `dirty` is set |
| Gui.EmulatorApp.InventoryRemove | run_emulator_gui.py:1162-1171 | the new memory is the bag write of the list without the id, so the bag reads back as the old one without the id, the count byte matches, nothing outside the bag changes, and `dirty` is set |
| Gui.EmulatorApp.AddRareCandy | run_emulator_gui.py:755-798 | a held candy is bumped in place; otherwise, when there is room, a candy is written over the terminator and the count byte goes up by one modulo 256; otherwise nothing changes. In terms of the list as read, the first candy gains one, or one candy is appended, or the list is unchanged |
| PyStr.Strip | run_emulator.py:144 | `str.strip()`: the result has no character of the `str.isspace()` set at either end |
| PyStr.StripTrimmed | run_emulator.py:144 | text with no whitespace at either end strips to itself |
| PyStr.StripSpan | run_emulator.py:144 | only whitespace is removed: the stripped text is the span of the text after its leading whitespace, and every character cut off at either end is whitespace |
| PyStr.StripSeparators | gsc_memory_lib.py:441-442 | any character of the set at either end is stripped, U+001C and U+3000 as much as a space |
| PyStr.PyInt10KeepsSeparator | gsc_memory_lib.py:302-304 | `int(b)` on bytes does not skip a character that only `str` treats as whitespace: a U+001C byte before the digits is refused |
| PyStr.ParseHex | run_emulator.py:117 | the digit core of `int(s, 16)`: succeeds exactly on a non-empty string of hex digits |
| PyStr.ParseToHex | gsc_memory_lib.py:439-443 | parsing the hex spelling of n gives n |
| Console.TokenIsWord | run_emulator.py:108 | every token of `split()` is a non-empty run of characters outside the `str.isspace()` set |
| Console.AnySpaceSeparates | run_emulator.py:108 | `split()` breaks at every character of the set exactly as at a space: the tokens are the same |
| Console.SeparatorParses | run_emulator.py:105-117 | two bytes spelled as hex and separated by any whitespace character, U+001C say, parse as those two bytes |
| Console.FromHexPairs | run_emulator.py:116 | `bytes.fromhex` on an even-length token succeeds exactly when every character is a hex digit, and then byte i is 16 × digit 2i + digit 2i+1 |
| PyStr.PyInt16 | run_emulator.py:117 | `int(t, 16)` fails only with a malformed-number error |
| PyStr.PyInt16KeepsSeparator | run_emulator.py:143 | `int(t, 16)` does not skip U+001C..U+001F: such a character before hex digits is refused |
| PyStr.PyInt16SkipsSpace | run_emulator.py:143 | `int(t, 16)` skips a leading character of its own whitespace set, a tab or U+3000 say, and reads the digits after it |
| Console.AddressKeepsSeparator | run_emulator.py:143 | a raw-address target such as `0x<U+001C>10` is refused by `int(..., 16)`, so the edit writes nothing |
| PyStr.PyInt16Plain | gsc_memory_lib.py:441-442 | plain hex digits of value v read as v, stripped or not |
| PyStr.PyInt16Prefixed | gsc_memory_lib.py:441-442 | `0x` followed by hex digits of value v reads as v |
| PyStr.PyInt16Negated | gsc_memory_lib.py:441-442 | `-` followed by hex digits of value v reads as -v |
| PyStr.PyInt10RoundTrip | gsc_memory_lib.py:302-304 | `int(str(n))` is n |
| PyStr.PyInt10Negative | gsc_memory_lib.py:302-304 | `int("-" + str(n))` is -n |
| Console.CollectExact | run_emulator.py:117 | converting the tokens succeeds exactly when every token is a hex number in 0..255, and keeps their values in order |
| Console.CollectFirstError | run_emulator.py:117 | the error raised is the one of the first token that is not a byte |
| Console.ParseBytes | run_emulator.py:105-117 | no tokens give empty bytes; one odd-length token is refused; one even token succeeds exactly when it is all hex digits, and byte i is then 16 × digit 2i + digit 2i+1; several tokens succeed exactly when each reads as a hex number in 0..255, and the bytes are those values in order |
| Console.SpellingsAgree | run_emulator.py:105-117 | the compact (`1234`), spaced (`12 34`) and prefixed (`0x12,0x34`) spellings of any byte string all parse to that byte string |
| Console.ClampByte | run_emulator.py:146 | `max(0, min(255, val))`: unchanged in range, 0 below, 255 above |
| Console.AddressRoundTrip | run_emulator.py:143 | an address typed as upper-case hex, with or without `0x`, is read back exactly |
| Console.RawAddressEdit | run_emulator.py:143-147 | a malformed address is an error and leaves memory unchanged; an address outside memory is an error and leaves memory unchanged; otherwise exactly one byte changes, to the clamped value |

## Left out

- Emulator lifecycle and I/O are not modelled: PyBoy construction, `tick` loops, key handling,
  save states and autosave. They are library calls and file I/O. The memory is a parameter, and
  the emulator is not part of this model.
- The customtkinter UI is not modelled: widgets, tab refreshers, status text and the edit-buffer
  filtering after a delete. The delete confirmation dialog is the `confirmed` parameter of
  `Gui.EmulatorApp.DeletePartyPokemon`.
- PokéAPI move suggestions are network calls. `Party.NewMonStruct` and
  `Gui.EmulatorApp.AppendPartyPokemon` take the moves and PPs as parameters.
- The `names` module is not part of this model. `names.parse_choice` becomes the item-id
  parameter. `names.species_name(...).upper()` becomes the `nickname` parameter, already
  upper-cased.
- Python's `int(text, 0)` parsing of the user's quantity and value is library behaviour. It is the
  `qty` parameter of `Gui.EmulatorApp.InventoryAddOrSet` and the `value` parameter of
  `Console.RawAddressEdit`. A failure there makes the source do nothing, which the model leaves
  out.
- `PyStr.PyInt16` does not model the whole of Python's `int(s, 16)`.
  - It models surrounding whitespace, a sign and a `0x`/`0X` prefix; `PyStr.ParseHex` is only
    its digit core.
  - It does not accept `_` digit separators.
  - It does not turn non-ASCII decimal digits, such as fullwidth `１０`, into ASCII digits as
    CPython does before parsing.
  - `AsciiUpper`/`AsciiLower` change ASCII letters only, with no Unicode case mapping.
- `PyStr.PyInt10` models Python's `int(b)` on a byte string, which `write_field` applies to a
  byte-string value of a numeric field: the whitespace of `Py_ISSPACE` (`PyStr.IsByteSpace`), an
  optional sign and decimal digits.
  It does not accept `_` digit separators.
- `Catalog.Snapshot` returns a `map`, so the insertion order of the Python dict it builds is not
  part of its result. The catalog itself keeps its key order (`Catalog.Dict.order`).
- `Console.RawAddressEdit` models only the fallback branch of `prompt_memory_edit`. That branch is
  taken when the target is not a catalog key. The catalog lookup and the field-key branch
  (run_emulator.py:130-140) are not modelled, and neither is the printed confirmation.
- `Console.RawAddressEdit` treats an address outside 0..0xFFFF, a negative one included, as an
  error that writes nothing. PyBoy's own handling of such an index, and of writes to ROM and I/O
  registers, is not modelled.
- `Fields.ReadMem` and `Fields.WriteMem` model the emulator accessors over a flat memory that
  refuses a span running off it. Python's clamping of a slice of a `bytearray` is not modelled.
- `Gui.EmulatorApp.AppendPartyPokemon` writes the new struct as one 0x30-byte block. The source
  writes it field by field. `Party.NewMonHeadFields`, `Party.NewMonMiddleFields` and
  `Party.NewMonStatFields` show that every field lands at its offset. The order of the
  individual writes is not modelled.
- Float speed control (`clamp_speed`, `apply_speed`) and `time.time()` throttling are not modelled.
  They are floating point and clock reads.
- The address-constant tables are enumeration only. The model keeps the constants its operations
  use. `RIVAL_NAME` (gsc_memory_lib.py:84) has its end before its start and is not used.
- `llm_client.py` is an HTTP client and is not part of this model.
- The heal, cure and revive actions of the GUI and `_apply_edits` are not modelled. They are field
  writes through `write_field`, and that function is modelled.
