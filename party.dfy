// The party block as the GUI edits it: deleting a member (shifting the species list, structs and
// names down) and appending one, over the flat emulator memory (run_emulator_gui.py).
module Party {
  import opened Wrappers
  import opened Codec
  import opened RamMap
  import opened GscText
  import opened Memory
  import opened PyStr

  /** First byte after the party block: the end of the sixth nickname. */
  const PartyBlockEnd := PartyNicknamesStart + 6 * PartyNameLen

  /** The player's name, TRAINER_NAME = 0xD1A3..0xD1AC inclusive. */
  const TrainerNameStart := 0xD1A3
  const TrainerNameLen := 0xD1AC - 0xD1A3 + 1

  // ---------------------------------------------------------------------------
  // The slots' regions
  // ---------------------------------------------------------------------------

  function MonAt(k: int): nat
    requires IsSlot(k)
  {
    PartyMon1Base + PartyMonStructSize * k
  }

  function OtAt(k: int): nat
    requires IsSlot(k)
  {
    PartyOtNamesStart + PartyNameLen * k
  }

  function NickAt(k: int): nat
    requires IsSlot(k)
  {
    PartyNicknamesStart + PartyNameLen * k
  }

  /** The slot regions the GUI writes are the ones the RAM map gives for the slot. */
  lemma SlotAddresses(k: int)
    requires IsSlot(k)
    ensures MonAt(k) == PartyMonBase(k).value
    ensures OtAt(k) == PartyOtNameAddr(k).value
    ensures NickAt(k) == PartyNicknameAddr(k).value
  {
  }

  /** Whether address a belongs to slot k's struct, OT name or nickname. */
  predicate InSlot(a: int, k: int)
    requires IsSlot(k)
  {
    MonAt(k) <= a < MonAt(k) + PartyMonStructSize
    || OtAt(k) <= a < OtAt(k) + PartyNameLen
    || NickAt(k) <= a < NickAt(k) + PartyNameLen
  }

  /** What one slot holds: its struct, its OT name and its nickname. */
  datatype SlotBytes = SlotBytes(mon: seq<Byte>, ot: seq<Byte>, nick: seq<Byte>)

  function SlotOf(m: seq<Byte>, k: int): SlotBytes
    requires |m| == MemSize && IsSlot(k)
  {
    SlotBytes(m[MonAt(k)..MonAt(k) + PartyMonStructSize],
              m[OtAt(k)..OtAt(k) + PartyNameLen],
              m[NickAt(k)..NickAt(k) + PartyNameLen])
  }

  /** The species list: six entries and the terminator byte. */
  function SpeciesList(m: seq<Byte>): (s: seq<Byte>)
    requires |m| == MemSize
    ensures |s| == 7
  {
    m[PartySpeciesListStart..PartySpeciesListStart + 7]
  }

  /** One party member: its species-list entry and its slot. */
  datatype Member = Member(species: Byte, slot: SlotBytes)

  /** The party as the game sees it: the first `count` species entries and slots. */
  function Members(m: seq<Byte>): (ms: seq<Member>)
    requires |m| == MemSize && m[PartyCount] <= 6
    ensures |ms| == m[PartyCount]
  {
    seq(m[PartyCount], k requires 0 <= k < m[PartyCount] => Member(m[PartySpeciesListStart + k], SlotOf(m, k)))
  }

  /** The span [addr, addr + n) meets none of slot k's regions. */
  predicate Avoids(addr: int, n: int, k: int)
    requires IsSlot(k)
  {
    (addr + n <= MonAt(k) || MonAt(k) + PartyMonStructSize <= addr)
    && (addr + n <= OtAt(k) || OtAt(k) + PartyNameLen <= addr)
    && (addr + n <= NickAt(k) || NickAt(k) + PartyNameLen <= addr)
  }

  /** A write that avoids slot k leaves slot k as it was. */
  lemma WriteKeepsSlot(m: seq<Byte>, addr: nat, data: seq<Byte>, k: int)
    requires |m| == MemSize && addr + |data| <= |m| && IsSlot(k) && Avoids(addr, |data|, k)
    ensures SlotOf(Splice(m, addr, data), k) == SlotOf(m, k)
  {
    SpliceElsewhere(m, addr, data, MonAt(k), PartyMonStructSize);
    SpliceElsewhere(m, addr, data, OtAt(k), PartyNameLen);
    SpliceElsewhere(m, addr, data, NickAt(k), PartyNameLen);
  }

  /** Writing a whole struct replaces the slot's struct and nothing else of the slot. */
  lemma WriteMon(m: seq<Byte>, k: int, d: seq<Byte>)
    requires |m| == MemSize && IsSlot(k) && |d| == PartyMonStructSize
    ensures SlotOf(Splice(m, MonAt(k), d), k) == SlotOf(m, k).(mon := d)
  {
    SpliceRead(m, MonAt(k), d);
    SpliceElsewhere(m, MonAt(k), d, OtAt(k), PartyNameLen);
    SpliceElsewhere(m, MonAt(k), d, NickAt(k), PartyNameLen);
  }

  lemma WriteOt(m: seq<Byte>, k: int, d: seq<Byte>)
    requires |m| == MemSize && IsSlot(k) && |d| == PartyNameLen
    ensures SlotOf(Splice(m, OtAt(k), d), k) == SlotOf(m, k).(ot := d)
  {
    SpliceRead(m, OtAt(k), d);
    SpliceElsewhere(m, OtAt(k), d, MonAt(k), PartyMonStructSize);
    SpliceElsewhere(m, OtAt(k), d, NickAt(k), PartyNameLen);
  }

  lemma WriteNick(m: seq<Byte>, k: int, d: seq<Byte>)
    requires |m| == MemSize && IsSlot(k) && |d| == PartyNameLen
    ensures SlotOf(Splice(m, NickAt(k), d), k) == SlotOf(m, k).(nick := d)
  {
    SpliceRead(m, NickAt(k), d);
    SpliceElsewhere(m, NickAt(k), d, MonAt(k), PartyMonStructSize);
    SpliceElsewhere(m, NickAt(k), d, OtAt(k), PartyNameLen);
  }

  /** A slot's three regions have the sizes of the RAM map. */
  predicate Sized(s: SlotBytes) {
    |s.mon| == PartyMonStructSize && |s.ot| == PartyNameLen && |s.nick| == PartyNameLen
  }

  /** Three `write_mem` calls filling slot k: the struct, then the OT name, then the nickname. */
  function WriteSlot(m: seq<Byte>, k: int, s: SlotBytes): (r: seq<Byte>)
    requires |m| == MemSize && IsSlot(k) && Sized(s)
    ensures |r| == MemSize
  {
    Splice(Splice(Splice(m, MonAt(k), s.mon), OtAt(k), s.ot), NickAt(k), s.nick)
  }

  /** Filling a slot leaves the species list alone. */
  lemma WriteSlotSpecies(m: seq<Byte>, k: int, s: SlotBytes)
    requires |m| == MemSize && IsSlot(k) && Sized(s)
    ensures SpeciesList(WriteSlot(m, k, s)) == SpeciesList(m)
  {
    var m1 := Splice(m, MonAt(k), s.mon);
    var m2 := Splice(m1, OtAt(k), s.ot);
    SpliceElsewhere(m, MonAt(k), s.mon, PartySpeciesListStart, 7);
    SpliceElsewhere(m1, OtAt(k), s.ot, PartySpeciesListStart, 7);
    SpliceElsewhere(m2, NickAt(k), s.nick, PartySpeciesListStart, 7);
  }

  /** Filling slot k gives slot k the new bytes and leaves every other slot as it was. */
  lemma WriteSlotSlot(m: seq<Byte>, k: int, s: SlotBytes, j: int)
    requires |m| == MemSize && IsSlot(k) && Sized(s) && IsSlot(j)
    ensures SlotOf(WriteSlot(m, k, s), j) == if j == k then s else SlotOf(m, j)
  {
    var m1 := Splice(m, MonAt(k), s.mon);
    var m2 := Splice(m1, OtAt(k), s.ot);
    if j == k {
      WriteMon(m, k, s.mon);
      WriteOt(m1, k, s.ot);
      WriteNick(m2, k, s.nick);
    } else {
      WriteKeepsSlot(m, MonAt(k), s.mon, j);
      WriteKeepsSlot(m1, OtAt(k), s.ot, j);
      WriteKeepsSlot(m2, NickAt(k), s.nick, j);
    }
  }

  /** Filling slot k changes no byte outside slot k. */
  lemma WriteSlotOutside(m: seq<Byte>, k: int, s: SlotBytes, a: int)
    requires |m| == MemSize && IsSlot(k) && Sized(s) && 0 <= a < MemSize && !InSlot(a, k)
    ensures WriteSlot(m, k, s)[a] == m[a]
  {
    var m1 := Splice(m, MonAt(k), s.mon);
    var m2 := Splice(m1, OtAt(k), s.ot);
    SpliceAt(m, MonAt(k), s.mon, a);
    SpliceAt(m1, OtAt(k), s.ot, a);
    SpliceAt(m2, NickAt(k), s.nick, a);
  }

  // ---------------------------------------------------------------------------
  // Deleting a member
  // ---------------------------------------------------------------------------

  /** The species list after removing `slot` from a party of `count`: earlier entries kept,
      later ones one place down, zeros from the new count on, the terminator last. */
  function DeletedSpecies(sp: seq<Byte>, slot: int, count: int): (r: seq<Byte>)
    requires |sp| == 7
    ensures |r| == 7 && r[6] == 0xFF
  {
    seq(7, i requires 0 <= i < 7 =>
      if i == 6 then 0xFF else if i < slot then sp[i] else if i < count - 1 then sp[i + 1] else 0)
  }

  /** The removed entry's successors move up one place; zeros fill the list from the new count
      and the terminator stays last. */
  lemma DeletedSpeciesShape(sp: seq<Byte>, slot: int, count: int)
    requires |sp| == 7 && 0 <= slot < count <= 6
    ensures DeletedSpecies(sp, slot, count) == sp[..slot] + sp[slot + 1..count] + Zeros(7 - count) + [0xFF]
  {
  }

  /** Where byte a of the party block comes from once slots from + 1..last have each moved one
      slot down: the struct, OT name or nickname byte one slot further on, or a itself. */
  function ShiftSource(from: int, last: int, a: int): (src: int)
    requires 0 <= from <= last <= 5
    ensures 0 <= a < MemSize ==> 0 <= src < MemSize
  {
    if MonAt(from) <= a < MonAt(last) then a + PartyMonStructSize
    else if OtAt(from) <= a < OtAt(last) then a + PartyNameLen
    else if NickAt(from) <= a < NickAt(last) then a + PartyNameLen
    else a
  }

  /** The shifting loop `for i in range(from, last)` once it has run: each pass fills slot i
      with the struct, OT name and nickname of slot i + 1, so every byte of slots from..last-1
      ends up holding the matching byte of the next slot and every other byte is as it was. */
  function ShiftDown(m: seq<Byte>, from: int, last: int): (r: seq<Byte>)
    requires |m| == MemSize && 0 <= from <= last <= 5
    ensures |r| == MemSize
  {
    seq(MemSize, a requires 0 <= a < MemSize => m[ShiftSource(from, last, a)])
  }

  /** A shifted slot holds its successor's struct, OT name and nickname. */
  lemma ShiftDownMoved(m: seq<Byte>, from: int, last: int, k: int)
    requires |m| == MemSize && 0 <= from <= k < last <= 5
    ensures SlotOf(ShiftDown(m, from, last), k) == SlotOf(m, k + 1)
  {
    var r := ShiftDown(m, from, last);
    forall a | MonAt(k) <= a < MonAt(k) + PartyMonStructSize
      ensures r[a] == m[a + PartyMonStructSize]
    {
    }
    forall a | OtAt(k) <= a < OtAt(k) + PartyNameLen
      ensures r[a] == m[a + PartyNameLen]
    {
    }
    forall a | NickAt(k) <= a < NickAt(k) + PartyNameLen
      ensures r[a] == m[a + PartyNameLen]
    {
    }
    assert r[MonAt(k)..MonAt(k) + PartyMonStructSize] == m[MonAt(k + 1)..MonAt(k + 1) + PartyMonStructSize];
    assert r[OtAt(k)..OtAt(k) + PartyNameLen] == m[OtAt(k + 1)..OtAt(k + 1) + PartyNameLen];
    assert r[NickAt(k)..NickAt(k) + PartyNameLen] == m[NickAt(k + 1)..NickAt(k + 1) + PartyNameLen];
  }

  /** A slot outside from..last-1 is left as it was. */
  lemma ShiftDownKept(m: seq<Byte>, from: int, last: int, k: int)
    requires |m| == MemSize && 0 <= from <= last <= 5 && IsSlot(k) && (k < from || last <= k)
    ensures SlotOf(ShiftDown(m, from, last), k) == SlotOf(m, k)
  {
    var r := ShiftDown(m, from, last);
    forall a | MonAt(k) <= a < MonAt(k) + PartyMonStructSize
      ensures r[a] == m[a]
    {
    }
    forall a | OtAt(k) <= a < OtAt(k) + PartyNameLen
      ensures r[a] == m[a]
    {
    }
    forall a | NickAt(k) <= a < NickAt(k) + PartyNameLen
      ensures r[a] == m[a]
    {
    }
    assert r[MonAt(k)..MonAt(k) + PartyMonStructSize] == m[MonAt(k)..MonAt(k) + PartyMonStructSize];
    assert r[OtAt(k)..OtAt(k) + PartyNameLen] == m[OtAt(k)..OtAt(k) + PartyNameLen];
    assert r[NickAt(k)..NickAt(k) + PartyNameLen] == m[NickAt(k)..NickAt(k) + PartyNameLen];
  }

  /** After the shift, slots from..last-1 hold their successors, the others are as they were. */
  lemma ShiftDownSlot(m: seq<Byte>, from: int, last: int, k: int)
    requires |m| == MemSize && 0 <= from <= last <= 5 && IsSlot(k)
    ensures SlotOf(ShiftDown(m, from, last), k) == if from <= k < last then SlotOf(m, k + 1) else SlotOf(m, k)
  {
    if from <= k < last {
      ShiftDownMoved(m, from, last, k);
    } else {
      ShiftDownKept(m, from, last, k);
    }
  }

  /** The shift writes nothing outside the party structs and names. */
  lemma ShiftDownOutside(m: seq<Byte>, from: int, last: int, a: int)
    requires |m| == MemSize && 0 <= from <= last <= 5 && 0 <= a < MemSize
    requires a < PartyMon1Base || PartyBlockEnd <= a
    ensures ShiftDown(m, from, last)[a] == m[a]
  {
  }

  /** Every address of the party structs and names belongs to some slot. */
  lemma BlockSlot(a: int) returns (k: int)
    requires PartyMon1Base <= a < PartyBlockEnd
    ensures IsSlot(k) && InSlot(a, k)
  {
    if a < PartyOtNamesStart {
      k := (a - PartyMon1Base) / PartyMonStructSize;
    } else if a < PartyNicknamesStart {
      k := (a - PartyOtNamesStart) / PartyNameLen;
    } else {
      k := (a - PartyNicknamesStart) / PartyNameLen;
    }
  }

  /** Two memories that agree outside the party structs and names and on every slot are equal. */
  lemma SlotsDetermine(m: seq<Byte>, n: seq<Byte>)
    requires |m| == MemSize && |n| == MemSize
    requires forall a :: 0 <= a < MemSize && (a < PartyMon1Base || PartyBlockEnd <= a) ==> m[a] == n[a]
    requires forall k :: IsSlot(k) ==> SlotOf(m, k) == SlotOf(n, k)
    ensures m == n
  {
    forall a | 0 <= a < MemSize
      ensures m[a] == n[a]
    {
      if PartyMon1Base <= a < PartyBlockEnd {
        var k := BlockSlot(a);
        var s, t := SlotOf(m, k), SlotOf(n, k);
        if MonAt(k) <= a < MonAt(k) + PartyMonStructSize {
          assert m[a] == s.mon[a - MonAt(k)] && n[a] == t.mon[a - MonAt(k)];
        } else if OtAt(k) <= a < OtAt(k) + PartyNameLen {
          assert m[a] == s.ot[a - OtAt(k)] && n[a] == t.ot[a - OtAt(k)];
        } else {
          assert m[a] == s.nick[a - NickAt(k)] && n[a] == t.nick[a - NickAt(k)];
        }
      }
    }
  }

  /** Memory m is orig part way through the shifting loop: the passes for slots from..i-1 have
      run, so those slots hold their successors and every other slot and every byte outside
      the party structs and names is as in orig. */
  ghost predicate ShiftedUpTo(orig: seq<Byte>, m: seq<Byte>, from: int, i: int)
    requires |orig| == MemSize && |m| == MemSize && 0 <= from <= i <= 5
  {
    (forall k :: from <= k < i ==> SlotOf(m, k) == SlotOf(orig, k + 1))
    && (forall k :: IsSlot(k) && !(from <= k < i) ==> SlotOf(m, k) == SlotOf(orig, k))
    && (forall a :: 0 <= a < MemSize && (a < PartyMon1Base || PartyBlockEnd <= a) ==> m[a] == orig[a])
  }

  /** One more pass, filling slot i from slot i + 1, extends the shift to slot i. */
  lemma ShiftPass(orig: seq<Byte>, m: seq<Byte>, from: int, i: int)
    requires |orig| == MemSize && |m| == MemSize && 0 <= from <= i < 5
    requires ShiftedUpTo(orig, m, from, i)
    ensures ShiftedUpTo(orig, WriteSlot(m, i, SlotOf(m, i + 1)), from, i + 1)
  {
    var r := WriteSlot(m, i, SlotOf(m, i + 1));
    forall k | from <= k < i + 1
      ensures SlotOf(r, k) == SlotOf(orig, k + 1)
    {
      WriteSlotSlot(m, i, SlotOf(m, i + 1), k);
    }
    forall k | IsSlot(k) && !(from <= k < i + 1)
      ensures SlotOf(r, k) == SlotOf(orig, k)
    {
      WriteSlotSlot(m, i, SlotOf(m, i + 1), k);
    }
    forall a | 0 <= a < MemSize && (a < PartyMon1Base || PartyBlockEnd <= a)
      ensures r[a] == orig[a]
    {
      WriteSlotOutside(m, i, SlotOf(m, i + 1), a);
    }
  }

  /** Once the passes up to last - 1 have run, the memory is the shift of the original. */
  lemma ShiftedIsShiftDown(orig: seq<Byte>, m: seq<Byte>, from: int, last: int)
    requires |orig| == MemSize && |m| == MemSize && 0 <= from <= last <= 5
    requires ShiftedUpTo(orig, m, from, last)
    ensures m == ShiftDown(orig, from, last)
  {
    var r := ShiftDown(orig, from, last);
    forall k | IsSlot(k)
      ensures SlotOf(m, k) == SlotOf(r, k)
    {
      ShiftDownSlot(orig, from, last, k);
    }
    forall a | 0 <= a < MemSize && (a < PartyMon1Base || PartyBlockEnd <= a)
      ensures m[a] == r[a]
    {
      ShiftDownOutside(orig, from, last, a);
    }
    SlotsDetermine(m, r);
  }

  /** What a cleared slot holds: a zeroed struct and two empty names. */
  function EmptySlot(): (s: SlotBytes)
    ensures Sized(s)
  {
    SlotBytes(Zeros(PartyMonStructSize), GscEncode("", PartyNameLen), GscEncode("", PartyNameLen))
  }

  /** `_delete_party_pokemon` with the confirmation given: refuse an empty party or an empty
      slot; otherwise rewrite the species list, shift the later slots down, clear the last
      slot and store the new count. A count above six makes the species shift index past the
      list, so nothing is written. */
  function DeleteParty(m: seq<Byte>, slot: int): (r: Result<seq<Byte>>)
    requires |m| == MemSize && IsSlot(slot)
    ensures m[PartyCount] == 0 ==> r == Err(PartyEmpty)
    ensures m[PartyCount] > 0 && slot >= m[PartyCount] ==> r == Err(SlotEmpty)
    ensures r.Ok? <==> slot < m[PartyCount] <= 6
    ensures r.Ok? ==> |r.value| == MemSize
  {
    var count := m[PartyCount];
    if count == 0 then Err(PartyEmpty)
    else if slot >= count then Err(SlotEmpty)
    else if count > 6 then Err(SpeciesIndexError)
    else
      var m1 := Splice(m, PartySpeciesListStart, DeletedSpecies(SpeciesList(m), slot, count));
      var m2 := ShiftDown(m1, slot, count - 1);
      var m3 := WriteSlot(m2, count - 1, EmptySlot());
      Ok(Splice(m3, PartyCount, [count - 1]))
  }

  /** Outside the structs and names a delete writes only the count and the species list. */
  lemma DeletedByte(m: seq<Byte>, slot: int, a: int)
    requires |m| == MemSize && IsSlot(slot) && DeleteParty(m, slot).Ok?
    requires 0 <= a < MemSize && (a < PartyMon1Base || PartyBlockEnd <= a)
    ensures DeleteParty(m, slot).value[a] ==
              if a == PartyCount then m[PartyCount] - 1
              else if PartySpeciesListStart <= a < PartySpeciesListStart + 7
              then DeletedSpecies(SpeciesList(m), slot, m[PartyCount])[a - PartySpeciesListStart]
              else m[a]
  {
    var count := m[PartyCount];
    var sp := DeletedSpecies(SpeciesList(m), slot, count);
    var m1 := Splice(m, PartySpeciesListStart, sp);
    var m2 := ShiftDown(m1, slot, count - 1);
    var m3 := WriteSlot(m2, count - 1, EmptySlot());
    SpliceAt(m3, PartyCount, [count - 1], a);
    WriteSlotOutside(m2, count - 1, EmptySlot(), a);
    ShiftDownOutside(m1, slot, count - 1, a);
    SpliceAt(m, PartySpeciesListStart, sp, a);
  }

  /** Slot k after a delete: slot k (before `slot`) or k + 1 (from `slot` on) of the old party,
      or the cleared slot at the old last position. */
  lemma DeletedSlot(m: seq<Byte>, slot: int, k: int)
    requires |m| == MemSize && IsSlot(slot) && DeleteParty(m, slot).Ok?
    requires 0 <= k < m[PartyCount]
    ensures SlotOf(DeleteParty(m, slot).value, k) ==
              if k == m[PartyCount] - 1 then EmptySlot() else if k < slot then SlotOf(m, k) else SlotOf(m, k + 1)
  {
    var count := m[PartyCount];
    var sp := DeletedSpecies(SpeciesList(m), slot, count);
    var m1 := Splice(m, PartySpeciesListStart, sp);
    var m2 := ShiftDown(m1, slot, count - 1);
    var m3 := WriteSlot(m2, count - 1, EmptySlot());
    assert DeleteParty(m, slot).value == Splice(m3, PartyCount, [count - 1]);
    WriteKeepsSlot(m3, PartyCount, [count - 1], k);
    WriteSlotSlot(m2, count - 1, EmptySlot(), k);
    if k < count - 1 {
      ShiftDownSlot(m1, slot, count - 1, k);
      var j := if k < slot then k else k + 1;
      WriteKeepsSlot(m, PartySpeciesListStart, sp, j);
      assert SlotOf(m3, k) == SlotOf(m2, k) == SlotOf(m1, j) == SlotOf(m, j);
    }
  }

  /** Member k after a delete: the old member k before `slot`, the old member k + 1 from it on. */
  lemma DeletedMember(m: seq<Byte>, slot: int, k: int)
    requires |m| == MemSize && IsSlot(slot) && DeleteParty(m, slot).Ok?
    requires 0 <= k < m[PartyCount] - 1
    ensures var r := DeleteParty(m, slot).value;
            r[PartyCount] == m[PartyCount] - 1
            && Members(r)[k] == Members(m)[if k < slot then k else k + 1]
  {
    var r := DeleteParty(m, slot).value;
    DeletedByte(m, slot, PartyCount);
    DeletedByte(m, slot, PartySpeciesListStart + k);
    DeletedSlot(m, slot, k);
    var j := if k < slot then k else k + 1;
    assert r[PartySpeciesListStart + k] == m[PartySpeciesListStart + j];
    assert SlotOf(r, k) == SlotOf(m, j);
    assert Members(r)[k] == Member(r[PartySpeciesListStart + k], SlotOf(r, k));
    assert Members(m)[j] == Member(m[PartySpeciesListStart + j], SlotOf(m, j));
  }

  /** Deleting removes exactly the member in `slot`: the others keep their order. */
  lemma DeleteMembers(m: seq<Byte>, slot: int)
    requires |m| == MemSize && IsSlot(slot) && DeleteParty(m, slot).Ok?
    ensures DeleteParty(m, slot).value[PartyCount] == m[PartyCount] - 1
    ensures Members(DeleteParty(m, slot).value) == Members(m)[..slot] + Members(m)[slot + 1..]
  {
    var count := m[PartyCount];
    var r := DeleteParty(m, slot).value;
    DeletedByte(m, slot, PartyCount);
    var ms := Members(m);
    var want := ms[..slot] + ms[slot + 1..];
    forall k | 0 <= k < count - 1
      ensures Members(r)[k] == want[k]
    {
      DeletedMember(m, slot, k);
      if k < slot {
        assert want[k] == ms[k];
      } else {
        assert want[k] == ms[k + 1];
      }
    }
    assert |Members(r)| == |want|;
  }

  /** After a delete the species list is the old one without the entry, zero-filled from the new
      count and terminated; the freed slot is cleared; no byte outside the party block changes. */
  lemma DeleteClears(m: seq<Byte>, slot: int, a: int)
    requires |m| == MemSize && IsSlot(slot) && DeleteParty(m, slot).Ok?
    requires 0 <= a < MemSize && (a < PartyCount || PartyBlockEnd <= a)
    ensures var r := DeleteParty(m, slot).value;
            var count := m[PartyCount];
            SpeciesList(r) == SpeciesList(m)[..slot] + SpeciesList(m)[slot + 1..count] + Zeros(7 - count) + [0xFF]
            && SlotOf(r, count - 1) == EmptySlot()
            && r[a] == m[a]
  {
    var count := m[PartyCount];
    var r := DeleteParty(m, slot).value;
    var sp := DeletedSpecies(SpeciesList(m), slot, count);
    DeletedSlot(m, slot, count - 1);
    DeletedByte(m, slot, a);
    forall i | 0 <= i < 7
      ensures SpeciesList(r)[i] == sp[i]
    {
      DeletedByte(m, slot, PartySpeciesListStart + i);
    }
    DeletedSpeciesShape(SpeciesList(m), slot, count);
  }

  // ---------------------------------------------------------------------------
  // Appending a member
  // ---------------------------------------------------------------------------

  /** `(list(xs) + [0, 0, 0, 0])[:4]`, each entry masked to a byte. */
  function FourBytes(xs: seq<int>): (b: seq<Byte>)
    ensures |b| == 4
  {
    seq(4, i requires 0 <= i < 4 => if i < |xs| then Low8(xs[i]) else 0)
  }

  /** The experience placeholder `min(0xFFFFFF, level ** 3)`. */
  function StartExp(level: int): int {
    var cube := level * level * level;
    if cube < 0xFF_FFFF then cube else 0xFF_FFFF
  }

  function MaxOf(a: int, b: int): int {
    if a >= b then a else b
  }

  /** Offsets 0x00..0x0A: species, no held item, the four moves, trainer id 0, experience. */
  function MonHead(species: int, level: int, moves: seq<int>): (h: seq<Byte>)
    ensures |h| == HpEvOff
  {
    [Low8(species), 0] + FourBytes(moves) + EncodeU16Be(0) + EncodeU24Le(StartExp(level))
  }

  /** Offsets 0x0B..0x21: no stat experience, IVs 0x88 0x88, the PPs, happiness 70, no Pokérus,
      no caught data, the level, no status and the unused byte. */
  function MonMiddle(level: int, pps: seq<int>): (b: seq<Byte>)
    ensures |b| == HpOff - HpEvOff
  {
    Zeros(10) + [0x88, 0x88] + FourBytes(pps) + [70, 0] + Zeros(2) + [Low8(level)] + EncodeU16Be(0)
  }

  /** Offsets 0x22..0x2F: current and maximum HP, then attack, defense, speed, special defense
      and special attack. */
  function MonStats(level: int): (b: seq<Byte>)
    ensures |b| == PartyMonStructSize - HpOff
  {
    var maxHp := MaxOf(12, 10 + level * 3);
    var stat := MaxOf(5, 5 + level * 2);
    EncodeU16Be(maxHp) + EncodeU16Be(maxHp) + EncodeU16Be(stat) + EncodeU16Be(stat)
    + EncodeU16Be(stat) + EncodeU16Be(stat) + EncodeU16Be(stat)
  }

  /** The 0x30-byte struct `_append_party_pokemon` writes: every byte of the struct is written
      exactly once, in offset order. */
  function NewMonStruct(species: int, level: int, moves: seq<int>, pps: seq<int>): (s: seq<Byte>)
    ensures |s| == PartyMonStructSize
  {
    MonHead(species, level, moves) + MonMiddle(level, pps) + MonStats(level)
  }

  /** The identity fields sit at their RAM-map offsets. */
  lemma NewMonHeadFields(species: int, level: int, moves: seq<int>, pps: seq<int>)
    ensures var s := NewMonStruct(species, level, moves, pps);
            s[SpeciesOff] == Low8(species) && s[HeldItemOff] == 0
            && s[MovesOff..MovesOff + 4] == FourBytes(moves)
            && s[IdOff..IdOff + 2] == EncodeU16Be(0) && s[ExpOff..ExpOff + 3] == EncodeU24Le(StartExp(level))
  {
    var s := NewMonStruct(species, level, moves, pps);
    var h := MonHead(species, level, moves);
    assert s[..HpEvOff] == h;
    assert h[MovesOff..MovesOff + 4] == FourBytes(moves);
    assert h[IdOff..IdOff + 2] == EncodeU16Be(0);
    assert h[ExpOff..ExpOff + 3] == EncodeU24Le(StartExp(level));
  }

  /** The training and condition fields sit at their RAM-map offsets. */
  lemma NewMonMiddleFields(species: int, level: int, moves: seq<int>, pps: seq<int>)
    ensures var s := NewMonStruct(species, level, moves, pps);
            s[HpEvOff..IvAdOff] == Zeros(10) && s[IvAdOff] == 0x88 && s[IvSsOff] == 0x88
            && s[PpOff..PpOff + 4] == FourBytes(pps) && s[HappinessOff] == 70 && s[PokerusOff] == 0
            && s[CaughtDataOff..LevelOff] == Zeros(2) && s[LevelOff] == Low8(level)
            && s[StatusOff..HpOff] == EncodeU16Be(0)
  {
    var s := NewMonStruct(species, level, moves, pps);
    var b := MonMiddle(level, pps);
    assert s[HpEvOff..HpOff] == b;
    assert b[..10] == Zeros(10);
    assert b[PpOff - HpEvOff..PpOff - HpEvOff + 4] == FourBytes(pps);
    assert b[CaughtDataOff - HpEvOff..LevelOff - HpEvOff] == Zeros(2);
    assert b[StatusOff - HpEvOff..] == EncodeU16Be(0);
  }

  /** The battle stats sit at their RAM-map offsets. */
  lemma NewMonStatFields(species: int, level: int, moves: seq<int>, pps: seq<int>)
    ensures var s := NewMonStruct(species, level, moves, pps);
            s[HpOff..HpOff + 2] == s[MaxHpOff..MaxHpOff + 2] == EncodeU16Be(MaxOf(12, 10 + level * 3))
            && s[AtkOff..AtkOff + 2] == s[DefOff..DefOff + 2] == s[SpdOff..SpdOff + 2]
               == s[SpdefOff..SpdefOff + 2] == s[SpatkOff..SpatkOff + 2] == EncodeU16Be(MaxOf(5, 5 + level * 2))
  {
    var s := NewMonStruct(species, level, moves, pps);
    var b := MonStats(level);
    assert s[HpOff..] == b;
  }

  /** For a level the dialog allows (1..100) the new member reads back as that level, with
      level-cubed experience and full HP of 10 + 3 * level. */
  lemma NewMonReadsBack(species: int, level: int, moves: seq<int>, pps: seq<int>)
    requires 1 <= level <= 100
    ensures var s := NewMonStruct(species, level, moves, pps);
            s[LevelOff] == level && DecodeU24Le(s[ExpOff..ExpOff + 3]) == level * level * level
            && DecodeU16Be(s[HpOff..HpOff + 2]) == DecodeU16Be(s[MaxHpOff..MaxHpOff + 2]) == 10 + level * 3
  {
    NewMonLevel(species, level, moves, pps);
    NewMonExp(species, level, moves, pps);
    NewMonHp(species, level, moves, pps);
  }

  lemma NewMonLevel(species: int, level: int, moves: seq<int>, pps: seq<int>)
    requires 1 <= level <= 100
    ensures NewMonStruct(species, level, moves, pps)[LevelOff] == level
  {
    NewMonMiddleFields(species, level, moves, pps);
  }

  lemma NewMonExp(species: int, level: int, moves: seq<int>, pps: seq<int>)
    requires 1 <= level <= 100
    ensures DecodeU24Le(NewMonStruct(species, level, moves, pps)[ExpOff..ExpOff + 3]) == level * level * level
  {
    NewMonHeadFields(species, level, moves, pps);
    CubeBound(level);
    var c := StartExp(level);
    assert DecodeU24Le(EncodeU24Le(c)) == c;
  }

  lemma NewMonHp(species: int, level: int, moves: seq<int>, pps: seq<int>)
    requires 1 <= level <= 100
    ensures var s := NewMonStruct(species, level, moves, pps);
            DecodeU16Be(s[HpOff..HpOff + 2]) == DecodeU16Be(s[MaxHpOff..MaxHpOff + 2]) == 10 + level * 3
  {
    NewMonStatFields(species, level, moves, pps);
    assert MaxOf(12, 10 + level * 3) == 10 + level * 3;
  }

  lemma CubeBound(level: int)
    requires 1 <= level <= 100
    ensures StartExp(level) == level * level * level && 1 <= StartExp(level) <= 1_000_000
  {
    var sq := level * level;
    assert 1 <= sq <= 10_000 by {
      assert sq <= 100 * level;
    }
    assert sq * level <= sq * 100;
  }

  /** The species list after appending at `slot` (the old count): the new species, zeros after
      it, the terminator last. */
  function AppendedSpecies(sp: seq<Byte>, slot: int, species: int): (r: seq<Byte>)
    requires |sp| == 7
    ensures |r| == 7 && r[6] == 0xFF
  {
    seq(7, i requires 0 <= i < 7 =>
      if i == 6 then 0xFF else if i == slot then Low8(species) else if i > slot then 0 else sp[i])
  }

  /** The OT name the new member gets: the player's name, or "TRAINER" when it decodes empty. */
  function TrainerOt(m: seq<Byte>): string
    requires |m| == MemSize
  {
    var t := GscDecode(m[TrainerNameStart..TrainerNameStart + TrainerNameLen]);
    AsciiUpper(if t == [] then "TRAINER" else t)
  }

  /** `_append_party_pokemon`: refuse a full party; otherwise bump the count, put the species at
      the end of the list, write the new struct and the two names. The OT name is the player's
      name as read after the struct is written. `nickname` is the upper-cased species name the
      name tables give, `moves` and `pps` the suggested moves. */
  function AppendParty(m: seq<Byte>, species: int, level: int, moves: seq<int>, pps: seq<int>, nickname: string)
    : (r: Result<seq<Byte>>)
    requires |m| == MemSize
    ensures r.Err? <==> m[PartyCount] >= 6
    ensures r.Err? ==> r.error == PartyFull
    ensures r.Ok? ==> |r.value| == MemSize
  {
    var count := m[PartyCount];
    if count >= 6 then Err(PartyFull)
    else
      var m1 := Splice(m, PartyCount, [Low8(count + 1)]);
      var m2 := Splice(m1, PartySpeciesListStart, AppendedSpecies(SpeciesList(m1), count, species));
      var m3 := Splice(m2, MonAt(count), NewMonStruct(species, level, moves, pps));
      var ot := TrainerOt(m3);
      var nick := if nickname == [] then "POKEMON" else nickname;
      var m4 := Splice(m3, OtAt(count), GscEncode(ot, PartyNameLen));
      Ok(Splice(m4, NickAt(count), GscEncode(nick, PartyNameLen)))
  }

  /** The member `_append_party_pokemon` adds. */
  function NewMember(m: seq<Byte>, species: int, level: int, moves: seq<int>, pps: seq<int>, nickname: string)
    : (n: Member)
    requires |m| == MemSize
    ensures Sized(n.slot)
  {
    Member(Low8(species), SlotBytes(NewMonStruct(species, level, moves, pps),
                                    GscEncode(TrainerOt(m), PartyNameLen),
                                    GscEncode(if nickname == [] then "POKEMON" else nickname, PartyNameLen)))
  }

  /** The count and species writes, which come before the slot's. */
  function AppendHeader(m: seq<Byte>, species: int): (r: seq<Byte>)
    requires |m| == MemSize && m[PartyCount] < 6
    ensures |r| == MemSize
  {
    var count := m[PartyCount];
    Splice(Splice(m, PartyCount, [Low8(count + 1)]), PartySpeciesListStart,
           AppendedSpecies(SpeciesList(m), count, species))
  }

  /** An append is the header writes followed by filling the old count's slot with the new
      member; the player's name is outside the party block, so reading it after the struct
      write gives what it was before. */
  lemma AppendIsWrite(m: seq<Byte>, species: int, level: int, moves: seq<int>, pps: seq<int>, nickname: string)
    requires |m| == MemSize && m[PartyCount] < 6
    ensures AppendParty(m, species, level, moves, pps, nickname).value
            == WriteSlot(AppendHeader(m, species), m[PartyCount], NewMember(m, species, level, moves, pps, nickname).slot)
  {
    var count := m[PartyCount];
    var st := NewMonStruct(species, level, moves, pps);
    var h := AppendHeader(m, species);
    HeaderFacts(m, species);
    var m3 := Splice(h, MonAt(count), st);
    SpliceElsewhere(h, MonAt(count), st, TrainerNameStart, TrainerNameLen);
    TrainerOtKept(m, m3);
    AppendUnfold(m, species, level, moves, pps, nickname);
  }

  /** The header writes as `_append_party_pokemon` does them, re-reading the species list after
      the count write; they do not touch the player's name. */
  lemma HeaderFacts(m: seq<Byte>, species: int)
    requires |m| == MemSize && m[PartyCount] < 6
    ensures var m1 := Splice(m, PartyCount, [Low8(m[PartyCount] + 1)]);
            AppendHeader(m, species) == Splice(m1, PartySpeciesListStart, AppendedSpecies(SpeciesList(m1), m[PartyCount], species))
            && AppendHeader(m, species)[TrainerNameStart..TrainerNameStart + TrainerNameLen]
               == m[TrainerNameStart..TrainerNameStart + TrainerNameLen]
  {
    var count := m[PartyCount];
    var m1 := Splice(m, PartyCount, [Low8(count + 1)]);
    SpliceElsewhere(m, PartyCount, [Low8(count + 1)], PartySpeciesListStart, 7);
    SpliceElsewhere(m, PartyCount, [Low8(count + 1)], TrainerNameStart, TrainerNameLen);
    SpliceElsewhere(m1, PartySpeciesListStart, AppendedSpecies(SpeciesList(m), count, species),
                    TrainerNameStart, TrainerNameLen);
  }

  /** The OT name depends only on the player's name bytes. */
  lemma TrainerOtKept(m: seq<Byte>, m3: seq<Byte>)
    requires |m| == |m3| == MemSize
    requires m3[TrainerNameStart..TrainerNameStart + TrainerNameLen] == m[TrainerNameStart..TrainerNameStart + TrainerNameLen]
    ensures TrainerOt(m3) == TrainerOt(m)
  {
  }

  lemma AppendUnfold(m: seq<Byte>, species: int, level: int, moves: seq<int>, pps: seq<int>, nickname: string)
    requires |m| == MemSize && m[PartyCount] < 6
    ensures var count := m[PartyCount];
            var m1 := Splice(m, PartyCount, [Low8(count + 1)]);
            var m2 := Splice(m1, PartySpeciesListStart, AppendedSpecies(SpeciesList(m1), count, species));
            var m3 := Splice(m2, MonAt(count), NewMonStruct(species, level, moves, pps));
            var nick := if nickname == [] then "POKEMON" else nickname;
            AppendParty(m, species, level, moves, pps, nickname)
            == Ok(Splice(Splice(m3, OtAt(count), GscEncode(TrainerOt(m3), PartyNameLen)), NickAt(count),
                         GscEncode(nick, PartyNameLen)))
  {
  }

  /** Outside the structs and names an append writes only the count and the species list. */
  lemma AppendedByte(m: seq<Byte>, species: int, level: int, moves: seq<int>, pps: seq<int>, nickname: string, a: int)
    requires |m| == MemSize && m[PartyCount] < 6
    requires 0 <= a < MemSize && (a < PartyMon1Base || PartyBlockEnd <= a)
    ensures AppendParty(m, species, level, moves, pps, nickname).value[a] ==
              if a == PartyCount then m[PartyCount] + 1
              else if PartySpeciesListStart <= a < PartySpeciesListStart + 7
              then AppendedSpecies(SpeciesList(m), m[PartyCount], species)[a - PartySpeciesListStart]
              else m[a]
  {
    var count := m[PartyCount];
    var s := NewMember(m, species, level, moves, pps, nickname).slot;
    AppendIsWrite(m, species, level, moves, pps, nickname);
    WriteSlotOutside(AppendHeader(m, species), count, s, a);
    HeaderByte(m, species, a);
  }

  lemma HeaderByte(m: seq<Byte>, species: int, a: int)
    requires |m| == MemSize && m[PartyCount] < 6 && 0 <= a < MemSize
    ensures AppendHeader(m, species)[a] ==
              if a == PartyCount then m[PartyCount] + 1
              else if PartySpeciesListStart <= a < PartySpeciesListStart + 7
              then AppendedSpecies(SpeciesList(m), m[PartyCount], species)[a - PartySpeciesListStart]
              else m[a]
  {
    var count := m[PartyCount];
    var m1 := Splice(m, PartyCount, [Low8(count + 1)]);
    SpliceAt(m1, PartySpeciesListStart, AppendedSpecies(SpeciesList(m), count, species), a);
    SpliceAt(m, PartyCount, [Low8(count + 1)], a);
  }

  /** Slot k after an append: the new member's bytes in the old count's slot, earlier slots kept. */
  lemma AppendedSlot(m: seq<Byte>, species: int, level: int, moves: seq<int>, pps: seq<int>, nickname: string, k: int)
    requires |m| == MemSize && 0 <= k <= m[PartyCount] < 6
    ensures SlotOf(AppendParty(m, species, level, moves, pps, nickname).value, k) ==
              if k == m[PartyCount] then NewMember(m, species, level, moves, pps, nickname).slot else SlotOf(m, k)
  {
    var count := m[PartyCount];
    var s := NewMember(m, species, level, moves, pps, nickname).slot;
    AppendIsWrite(m, species, level, moves, pps, nickname);
    WriteSlotSlot(AppendHeader(m, species), count, s, k);
    var m1 := Splice(m, PartyCount, [Low8(count + 1)]);
    WriteKeepsSlot(m, PartyCount, [Low8(count + 1)], k);
    WriteKeepsSlot(m1, PartySpeciesListStart, AppendedSpecies(SpeciesList(m), count, species), k);
  }

  /** The new species goes after the old entries, zeros after it, the terminator last. */
  lemma AppendedSpeciesShape(sp: seq<Byte>, count: int, species: int)
    requires |sp| == 7 && 0 <= count < 6
    ensures AppendedSpecies(sp, count, species) == sp[..count] + [Low8(species)] + Zeros(5 - count) + [0xFF]
  {
  }

  /** After an append the species list holds the old entries, the new species, zeros after it
      and the terminator last. */
  lemma AppendSpeciesList(m: seq<Byte>, species: int, level: int, moves: seq<int>, pps: seq<int>, nickname: string)
    requires |m| == MemSize && m[PartyCount] < 6
    ensures var r := AppendParty(m, species, level, moves, pps, nickname).value;
            SpeciesList(r) == SpeciesList(m)[..m[PartyCount]] + [Low8(species)] + Zeros(5 - m[PartyCount]) + [0xFF]
  {
    var count := m[PartyCount];
    var h := AppendHeader(m, species);
    var sp := AppendedSpecies(SpeciesList(m), count, species);
    var m1 := Splice(m, PartyCount, [Low8(count + 1)]);
    SpliceRead(m1, PartySpeciesListStart, sp);
    assert SpeciesList(h) == sp;
    AppendIsWrite(m, species, level, moves, pps, nickname);
    WriteSlotSpecies(h, count, NewMember(m, species, level, moves, pps, nickname).slot);
    AppendedSpeciesShape(SpeciesList(m), count, species);
  }

  /** Appending adds exactly one member at the end. */
  lemma AppendMembers(m: seq<Byte>, species: int, level: int, moves: seq<int>, pps: seq<int>, nickname: string)
    requires |m| == MemSize && m[PartyCount] < 6
    ensures var r := AppendParty(m, species, level, moves, pps, nickname).value;
            r[PartyCount] == m[PartyCount] + 1
            && Members(r) == Members(m) + [NewMember(m, species, level, moves, pps, nickname)]
  {
    var count := m[PartyCount];
    var r := AppendParty(m, species, level, moves, pps, nickname).value;
    AppendedByte(m, species, level, moves, pps, nickname, PartyCount);
    var nm := NewMember(m, species, level, moves, pps, nickname);
    var want := Members(m) + [nm];
    forall k | 0 <= k < count + 1
      ensures Members(r)[k] == want[k]
    {
      AppendedMember(m, species, level, moves, pps, nickname, k);
      if k < count {
        assert want[k] == Members(m)[k];
      } else {
        assert want[k] == nm;
      }
    }
    assert |Members(r)| == |want|;
  }

  /** Member k after the header writes and filling the old count's slot with s: the old member
      k, or the new species with s at the old count. */
  lemma HeaderSlotMember(m: seq<Byte>, species: int, s: SlotBytes, k: int)
    requires |m| == MemSize && 0 <= k <= m[PartyCount] < 6 && Sized(s)
    ensures var r := WriteSlot(AppendHeader(m, species), m[PartyCount], s);
            r[PartyCount] == m[PartyCount] + 1
            && Members(r)[k] == if k < m[PartyCount] then Members(m)[k] else Member(Low8(species), s)
  {
    var count := m[PartyCount];
    var h := AppendHeader(m, species);
    var r := WriteSlot(h, count, s);
    DivModUnique(count + 1, 0x100, 0, count + 1);
    WriteSlotOutside(h, count, s, PartyCount);
    HeaderByte(m, species, PartyCount);
    WriteSlotOutside(h, count, s, PartySpeciesListStart + k);
    HeaderByte(m, species, PartySpeciesListStart + k);
    WriteSlotSlot(h, count, s, k);
    var m1 := Splice(m, PartyCount, [Low8(count + 1)]);
    WriteKeepsSlot(m, PartyCount, [Low8(count + 1)], k);
    WriteKeepsSlot(m1, PartySpeciesListStart, AppendedSpecies(SpeciesList(m), count, species), k);
    assert Members(r)[k] == Member(r[PartySpeciesListStart + k], SlotOf(r, k));
    if k < count {
      assert Members(m)[k] == Member(m[PartySpeciesListStart + k], SlotOf(m, k));
    }
  }

  /** Member k after an append: the old member k, or the new one at the old count. */
  lemma AppendedMember(m: seq<Byte>, species: int, level: int, moves: seq<int>, pps: seq<int>, nickname: string, k: int)
    requires |m| == MemSize && 0 <= k <= m[PartyCount] < 6
    ensures var r := AppendParty(m, species, level, moves, pps, nickname).value;
            r[PartyCount] == m[PartyCount] + 1
            && Members(r)[k] == if k < m[PartyCount] then Members(m)[k] else NewMember(m, species, level, moves, pps, nickname)
  {
    var n := NewMember(m, species, level, moves, pps, nickname);
    AppendIsWrite(m, species, level, moves, pps, nickname);
    HeaderSlotMember(m, species, n.slot, k);
  }

  /** Deleting the member just appended gives back the party as it was. */
  lemma DeleteUndoesAppend(m: seq<Byte>, species: int, level: int, moves: seq<int>, pps: seq<int>, nickname: string)
    requires |m| == MemSize && m[PartyCount] < 6
    ensures var r := AppendParty(m, species, level, moves, pps, nickname).value;
            r[PartyCount] == m[PartyCount] + 1
            && DeleteParty(r, m[PartyCount]).Ok? && Members(DeleteParty(r, m[PartyCount]).value) == Members(m)
  {
    var r := AppendParty(m, species, level, moves, pps, nickname).value;
    AppendMembers(m, species, level, moves, pps, nickname);
    DeleteMembers(r, m[PartyCount]);
    var ms := Members(m) + [NewMember(m, species, level, moves, pps, nickname)];
    assert ms[..m[PartyCount]] + ms[m[PartyCount] + 1..] == Members(m);
  }
}
