// Party layout and badge constants of the Gold/Silver RAM map, and the slot address helpers
// (gsc_ram_map.py, repeated in gsc_memory_lib.py and gsc_ram_fields.py).
module RamMap {
  import opened Wrappers

  const PartyCount := 0xDA22
  const PartySpeciesListStart := 0xDA23
  const PartySpeciesListEnd := 0xDA28
  const PartySpeciesListTerminator := 0xDA29

  const PartyMonStructSize := 0x30
  const PartyMon1Base := 0xDA2A

  /** Offsets inside one 0x30-byte party struct, in the order the map lists them. */
  const SpeciesOff := 0x00
  const HeldItemOff := 0x01
  const MovesOff := 0x02
  const IdOff := 0x06
  const ExpOff := 0x08
  const HpEvOff := 0x0B
  const AtkEvOff := 0x0D
  const DefEvOff := 0x0F
  const SpdEvOff := 0x11
  const SpcEvOff := 0x13
  const IvAdOff := 0x15
  const IvSsOff := 0x16
  const PpOff := 0x17
  const HappinessOff := 0x1B
  const PokerusOff := 0x1C
  const CaughtDataOff := 0x1D
  const LevelOff := 0x1F
  const StatusOff := 0x20
  const HpOff := 0x22
  const MaxHpOff := 0x24
  const AtkOff := 0x26
  const DefOff := 0x28
  const SpdOff := 0x2A
  const SpdefOff := 0x2C
  const SpatkOff := 0x2E

  const StructOffsets: seq<int> := [
    SpeciesOff, HeldItemOff, MovesOff, IdOff, ExpOff, HpEvOff, AtkEvOff, DefEvOff, SpdEvOff,
    SpcEvOff, IvAdOff, IvSsOff, PpOff, HappinessOff, PokerusOff, CaughtDataOff, LevelOff,
    StatusOff, HpOff, MaxHpOff, AtkOff, DefOff, SpdOff, SpdefOff, SpatkOff
  ]

  /** Eleven bytes per name: ten characters and a 0x50 terminator. */
  const PartyNameLen := 0x0B
  const PartyOtNamesStart := 0xDB4A
  const PartyNicknamesStart := 0xDB8C

  const JohtoBadgesAddr := 0xD57C
  const KantoBadgesAddr := 0xD57D

  /** Falkner, Bugsy, Whitney, Morty, Jasmine, Chuck, Pryce, Clair. */
  const JohtoBadgeMasks: seq<bv8> := [0x01, 0x02, 0x04, 0x08, 0x10, 0x20, 0x40, 0x80]

  predicate IsSlot(slot: int) {
    0 <= slot <= 5
  }

  /** Start of the party struct of a slot; slots outside 0..5 are rejected. */
  function PartyMonBase(slot: int): (r: Result<int>)
    ensures r.Ok? <==> IsSlot(slot)
    ensures r.Ok? ==> PartyMon1Base <= r.value && r.value + PartyMonStructSize <= PartyOtNamesStart
    ensures r.Ok? ==> (r.value - PartyMon1Base) % PartyMonStructSize == 0
  {
    if !IsSlot(slot) then Err(SlotOutOfRange)
    else Ok(PartyMon1Base + slot * PartyMonStructSize)
  }

  /** Address of a field of a slot's struct; the slot check is the only one. */
  function PartyMonFieldAddr(slot: int, offset: int): (r: Result<int>)
    ensures r.Ok? <==> IsSlot(slot)
    ensures r.Ok? ==> r.value - offset == PartyMonBase(slot).value
  {
    var base :- PartyMonBase(slot);
    Ok(base + offset)
  }

  /** Start of a slot's original-trainer name. */
  function PartyOtNameAddr(slot: int): (r: Result<int>)
    ensures r.Ok? <==> IsSlot(slot)
    ensures r.Ok? ==> PartyOtNamesStart <= r.value && r.value + PartyNameLen <= PartyNicknamesStart
    ensures r.Ok? ==> (r.value - PartyOtNamesStart) % PartyNameLen == 0
  {
    if !IsSlot(slot) then Err(SlotOutOfRange)
    else Ok(PartyOtNamesStart + slot * PartyNameLen)
  }

  /** Start of a slot's nickname. */
  function PartyNicknameAddr(slot: int): (r: Result<int>)
    ensures r.Ok? <==> IsSlot(slot)
    ensures r.Ok? ==> PartyNicknamesStart <= r.value && r.value + PartyNameLen <= PartyNicknamesStart + 6 * PartyNameLen
    ensures r.Ok? ==> (r.value - PartyNicknamesStart) % PartyNameLen == 0
  {
    if !IsSlot(slot) then Err(SlotOutOfRange)
    else Ok(PartyNicknamesStart + slot * PartyNameLen)
  }

  /** Consecutive slots are one struct, or one name, apart. */
  lemma SlotStrides(slot: int)
    requires 0 <= slot < 5
    ensures PartyMonBase(slot + 1).value - PartyMonBase(slot).value == PartyMonStructSize
    ensures PartyOtNameAddr(slot + 1).value - PartyOtNameAddr(slot).value == PartyNameLen
    ensures PartyNicknameAddr(slot + 1).value - PartyNicknameAddr(slot).value == PartyNameLen
  {
  }

  /** Distinct slots own disjoint structs and disjoint names. */
  lemma SlotsDisjoint(s: int, t: int)
    requires IsSlot(s) && IsSlot(t) && s < t
    ensures PartyMonBase(s).value + PartyMonStructSize <= PartyMonBase(t).value
    ensures PartyOtNameAddr(s).value + PartyNameLen <= PartyOtNameAddr(t).value
    ensures PartyNicknameAddr(s).value + PartyNameLen <= PartyNicknameAddr(t).value
  {
  }

  /** The count byte, six species entries, the terminator, then the six structs, the six OT
      names and the six nicknames follow one another with no gap. */
  lemma PartyBlockLayout()
    ensures PartyCount + 1 == PartySpeciesListStart
    ensures PartySpeciesListEnd - PartySpeciesListStart + 1 == 6
    ensures PartySpeciesListTerminator == PartySpeciesListEnd + 1
    ensures PartyMon1Base == PartySpeciesListTerminator + 1
    ensures PartyMonBase(5).value + PartyMonStructSize == PartyOtNamesStart == 0xDB4A
    ensures PartyOtNameAddr(5).value + PartyNameLen == PartyNicknamesStart
  {
  }

  /** The struct offsets are listed in increasing order and all fall inside the struct. */
  lemma StructOffsetsOrdered()
    ensures forall i, j :: 0 <= i < j < |StructOffsets| ==> StructOffsets[i] < StructOffsets[j]
    ensures forall i :: 0 <= i < |StructOffsets| ==> 0 <= StructOffsets[i] < PartyMonStructSize
  {
  }

  function OrAll(ms: seq<bv8>): bv8 {
    if ms == [] then 0 else OrAll(ms[..|ms| - 1]) | ms[|ms| - 1]
  }

  predicate SingleBit(m: bv8) {
    m != 0 && m & (m - 1) == 0
  }

  /** Each Johto badge is its own bit, and together they fill the byte. */
  lemma JohtoBadgeBits()
    ensures |JohtoBadgeMasks| == 8
    ensures forall i :: 0 <= i < 8 ==> SingleBit(JohtoBadgeMasks[i])
    ensures forall i, j :: 0 <= i < j < 8 ==> JohtoBadgeMasks[i] & JohtoBadgeMasks[j] == 0
    ensures OrAll(JohtoBadgeMasks) == 0xFF
  {
    var m := JohtoBadgeMasks;
    assert m[..0] == [];
    assert OrAll(m[..1]) == 0x01 by { assert m[..1][..0] == m[..0]; }
    assert OrAll(m[..2]) == 0x03 by { assert m[..2][..1] == m[..1]; }
    assert OrAll(m[..3]) == 0x07 by { assert m[..3][..2] == m[..2]; }
    assert OrAll(m[..4]) == 0x0F by { assert m[..4][..3] == m[..3]; }
    assert OrAll(m[..5]) == 0x1F by { assert m[..5][..4] == m[..4]; }
    assert OrAll(m[..6]) == 0x3F by { assert m[..6][..5] == m[..5]; }
    assert OrAll(m[..7]) == 0x7F by { assert m[..7][..6] == m[..6]; }
    assert m[..8][..7] == m[..7] && m[..8] == m;
  }
}
