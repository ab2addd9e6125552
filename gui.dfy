// The GUI's editing actions over the live emulator memory: deleting and appending party members,
// the bag's add-or-set, remove and Rare Candy actions, and the active party slot
// (run_emulator_gui.py).
module Gui {
  import opened Wrappers
  import opened Codec
  import opened RamMap
  import opened GscText
  import opened Memory
  import Party
  import Bag

  /** How an action ended: carried out, refused with the reason the GUI reports, or called off
      at the confirmation dialog. */
  datatype Outcome = Done | Refused(error: Error) | Cancelled

  /** The 41 bytes of the bag list. */
  function BagArea(m: seq<Byte>): (b: seq<Byte>)
    requires |m| == MemSize
    ensures |b| == Bag.BagLen
  {
    m[Bag.BagItemsStart..Bag.BagItemsStart + Bag.BagLen]
  }

  /** The bag as `_read_bag_items` sees it. */
  function BagItems(m: seq<Byte>): seq<Bag.Entry>
    requires |m| == MemSize
  {
    Bag.ItemsFrom(BagArea(m), 0)
  }

  /** Outside [lo, hi) the two memories agree. */
  predicate SameOutside(m: seq<Byte>, m': seq<Byte>, lo: nat, hi: nat)
    requires lo <= hi <= |m| == |m'|
  {
    m[..lo] == m'[..lo] && m[hi..] == m'[hi..]
  }

  /** Writing the list and then its count byte touches only the count byte and the list. */
  lemma BagWriteFrame(m: seq<Byte>, data: seq<Byte>, count: seq<Byte>)
    requires |m| == MemSize && |data| == Bag.BagLen && |count| == 1
    ensures var r := Splice(Splice(m, Bag.BagItemsStart, data), Bag.BagItemCount, count);
            BagArea(r) == data && r[Bag.BagItemCount] == count[0] &&
            SameOutside(m, r, Bag.BagItemCount, Bag.BagItemsEndOfList + 1)
  {
    var m1 := Splice(m, Bag.BagItemsStart, data);
    SpliceAt(m1, Bag.BagItemCount, count, Bag.BagItemCount);
    SpliceRead(m, Bag.BagItemsStart, data);
    SpliceElsewhere(m1, Bag.BagItemCount, count, Bag.BagItemsStart, Bag.BagLen);
    SpliceElsewhere(m, Bag.BagItemsStart, data, 0, Bag.BagItemCount);
    SpliceElsewhere(m1, Bag.BagItemCount, count, 0, Bag.BagItemCount);
    var hi := Bag.BagItemsEndOfList + 1;
    SpliceElsewhere(m, Bag.BagItemsStart, data, hi, MemSize - hi);
    SpliceElsewhere(m1, Bag.BagItemCount, count, hi, MemSize - hi);
  }

  /** The header writes followed by the struct, OT name and nickname writes, the OT name read
      back after the struct write, make up the modelled append. */
  lemma AppendSteps(m0: seq<Byte>, species: int, level: int, moves: seq<int>, pps: seq<int>, nickname: string,
                    h: seq<Byte>, m3: seq<Byte>, m4: seq<Byte>, m5: seq<Byte>)
    requires |m0| == MemSize && m0[PartyCount] < 6 && h == Party.AppendHeader(m0, species)
    requires m3 == Splice(h, Party.MonAt(m0[PartyCount]), Party.NewMonStruct(species, level, moves, pps))
    requires m4 == Splice(m3, Party.OtAt(m0[PartyCount]), GscEncode(Party.TrainerOt(m3), PartyNameLen))
    requires m5 == Splice(m4, Party.NickAt(m0[PartyCount]),
                          GscEncode(if nickname == [] then "POKEMON" else nickname, PartyNameLen))
    ensures Party.AppendParty(m0, species, level, moves, pps, nickname) == Ok(m5)
  {
    var c := m0[PartyCount];
    var st := Party.NewMonStruct(species, level, moves, pps);
    Party.HeaderFacts(m0, species);
    SpliceElsewhere(h, Party.MonAt(c), st, Party.TrainerNameStart, Party.TrainerNameLen);
    Party.TrainerOtKept(m0, m3);
    Party.AppendIsWrite(m0, species, level, moves, pps, nickname);
  }

  /** `_write_bag_items` on a memory: the normalised list laid out over the 41 bytes, then its
      length in the count byte. */
  function BagWrite(m: seq<Byte>, items: seq<Bag.Entry>): (r: seq<Byte>)
    requires |m| == MemSize
    ensures |r| == MemSize
  {
    var norm := Bag.Normalized(items);
    Splice(Splice(m, Bag.BagItemsStart, Bag.BagLayout(norm)), Bag.BagItemCount, [Low8(|norm|)])
  }

  /** After the bag is written, reading it back gives exactly the normalised list, the count
      byte holds its length, and nothing outside the count byte and the list has changed. */
  lemma BagWriteReadBack(m: seq<Byte>, items: seq<Bag.Entry>)
    requires |m| == MemSize
    ensures BagItems(BagWrite(m, items)) == Bag.Normalized(items)
    ensures BagWrite(m, items)[Bag.BagItemCount] == |Bag.Normalized(items)|
    ensures SameOutside(m, BagWrite(m, items), Bag.BagItemCount, Bag.BagItemsEndOfList + 1)
  {
    var norm := Bag.Normalized(items);
    var data := Bag.BagLayout(norm);
    DivModUnique(|norm|, 0x100, 0, |norm|);
    assert Low8(|norm|) == |norm|;
    BagWriteFrame(m, data, [Low8(|norm|)]);
    Bag.WriteReadBack(items);
  }

  class EmulatorApp {
    /** The emulator's memory, as `pyboy.memory` exposes it. */
    const mem: array<Byte>
    var activePartySlot: int
    /** Set by every edit that reaches memory. */
    var dirty: bool

    predicate Valid()
      reads this
    {
      mem.Length == MemSize && 0 <= activePartySlot <= 5
    }

    constructor(memory: array<Byte>)
      requires memory.Length == MemSize
      ensures Valid() && mem == memory && activePartySlot == 0 && !dirty
    {
      mem := memory;
      activePartySlot := 0;
      dirty := false;
    }

    /** `write_mem(addr, data)`: one slice assignment into the emulator's memory. */
    method WriteMem(addr: nat, data: seq<Byte>)
      requires addr + |data| <= mem.Length
      modifies mem
      ensures mem[..] == Splice(old(mem[..]), addr, data)
    {
      forall j | addr <= j < addr + |data| {
        mem[j] := data[j - addr];
      }
    }

    /** `_set_active_party_slot`: the requested slot clamped to 0..5. */
    method SetActivePartySlot(slot: int)
      requires Valid()
      modifies this
      ensures Valid()
      ensures 0 <= slot <= 5 ==> activePartySlot == slot
      ensures slot < 0 ==> activePartySlot == 0
      ensures slot > 5 ==> activePartySlot == 5
      ensures dirty == old(dirty)
    {
      activePartySlot := if slot < 0 then 0 else if slot > 5 then 5 else slot;
    }

    /** `_delete_party_pokemon`: refuse an empty party or an empty active slot, ask for
        confirmation, then shift the species list, the structs and the names down over the
        deleted member, clear the last slot, store the new count and keep the active slot on an
        occupied one. */
    method DeletePartyPokemon(confirmed: bool) returns (outcome: Outcome)
      requires Valid()
      modifies this, mem
      ensures Valid()
      ensures var count := old(mem[PartyCount]);
              var slot := old(activePartySlot);
              outcome == if count == 0 then Refused(PartyEmpty)
                         else if slot >= count then Refused(SlotEmpty)
                         else if !confirmed then Cancelled
                         else if count > 6 then Refused(SpeciesIndexError)
                         else Done
      ensures outcome != Done ==>
                mem[..] == old(mem[..]) && activePartySlot == old(activePartySlot) && dirty == old(dirty)
      ensures outcome == Done ==>
                Party.DeleteParty(old(mem[..]), old(activePartySlot)) == Ok(mem[..]) && dirty
      ensures outcome == Done ==>
                mem[PartyCount] == old(mem[PartyCount]) - 1 &&
                activePartySlot == (if mem[PartyCount] > 0
                                    then (if old(activePartySlot) < mem[PartyCount] - 1 then old(activePartySlot) else mem[PartyCount] - 1)
                                    else 0)
    {
      var count := mem[PartyCount];
      if count <= 0 {
        return Refused(PartyEmpty);
      }
      var slot := activePartySlot;
      if slot >= count {
        return Refused(SlotEmpty);
      }
      if !confirmed {
        return Cancelled;
      }
      if count > 6 {
        // `species[i + 1]` runs past the six entries before anything is written.
        return Refused(SpeciesIndexError);
      }
      WriteDeletion(slot, count);
      var newCount := count - 1;
      activePartySlot := if newCount > 0 then (if slot < newCount - 1 then slot else newCount - 1) else 0;
      dirty := true;
      outcome := Done;
    }

    /** The writes of a confirmed delete: the shifted species list, the shifted slots, the
        cleared last slot and the new count. */
    method WriteDeletion(slot: int, count: int)
      requires Valid() && count == mem[PartyCount] && 0 <= slot < count <= 6
      modifies mem
      ensures Party.DeleteParty(old(mem[..]), slot) == Ok(mem[..])
    {
      ghost var m0 := mem[..];
      var species := Party.DeletedSpecies(mem[PartySpeciesListStart..PartySpeciesListStart + 7], slot, count);
      assert mem[PartySpeciesListStart..PartySpeciesListStart + 7] == Party.SpeciesList(m0);
      WriteMem(PartySpeciesListStart, species);
      ShiftSlotsDown(slot, count - 1);
      ClearSlot(count - 1);
      WriteMem(PartyCount, [count - 1]);
    }

    /** The shifting loop: for each slot from `from` up to `last` - 1, the next slot's data is
        copied down into it. */
    method ShiftSlotsDown(from: int, last: int)
      requires Valid() && 0 <= from <= last <= 5
      modifies mem
      ensures mem[..] == Party.ShiftDown(old(mem[..]), from, last)
    {
      ghost var m1 := mem[..];
      var i := from;
      while i < last
        invariant from <= i <= last
        invariant Party.ShiftedUpTo(m1, mem[..], from, i)
        modifies mem
      {
        ghost var before := mem[..];
        CopySlotDown(i);
        Party.ShiftPass(m1, before, from, i);
        i := i + 1;
      }
      Party.ShiftedIsShiftDown(m1, mem[..], from, last);
    }

    /** One pass of the shifting loop: slot i takes slot i + 1's struct, OT name and nickname,
        each read just before it is written. */
    method CopySlotDown(i: int)
      requires Valid() && 0 <= i < 5
      modifies mem
      ensures mem[..] == Party.WriteSlot(old(mem[..]), i, Party.SlotOf(old(mem[..]), i + 1))
    {
      ghost var m0 := mem[..];
      ghost var s := Party.SlotOf(m0, i + 1);
      var srcStruct := mem[Party.MonAt(i + 1)..Party.MonAt(i + 1) + PartyMonStructSize];
      assert srcStruct == s.mon;
      WriteMem(Party.MonAt(i), srcStruct);
      ghost var m1 := mem[..];
      var srcOt := mem[Party.OtAt(i + 1)..Party.OtAt(i + 1) + PartyNameLen];
      SpliceElsewhere(m0, Party.MonAt(i), s.mon, Party.OtAt(i + 1), PartyNameLen);
      assert srcOt == s.ot;
      WriteMem(Party.OtAt(i), srcOt);
      var srcNick := mem[Party.NickAt(i + 1)..Party.NickAt(i + 1) + PartyNameLen];
      SpliceElsewhere(m0, Party.MonAt(i), s.mon, Party.NickAt(i + 1), PartyNameLen);
      SpliceElsewhere(m1, Party.OtAt(i), s.ot, Party.NickAt(i + 1), PartyNameLen);
      assert srcNick == s.nick;
      WriteMem(Party.NickAt(i), srcNick);
    }

    /** Clearing the last slot: a zeroed struct and two empty names. */
    method ClearSlot(k: int)
      requires Valid() && IsSlot(k)
      modifies mem
      ensures mem[..] == Party.WriteSlot(old(mem[..]), k, Party.EmptySlot())
    {
      WriteMem(Party.MonAt(k), Zeros(PartyMonStructSize));
      WriteMem(Party.OtAt(k), GscEncode("", PartyNameLen));
      WriteMem(Party.NickAt(k), GscEncode("", PartyNameLen));
    }

    /** `_append_party_pokemon`: refuse a full party; otherwise bump the count, extend the
        species list, write the new struct, OT name and nickname into the first free slot and
        make it the active one. */
    method AppendPartyPokemon(species: int, level: int, moves: seq<int>, pps: seq<int>, nickname: string)
      returns (outcome: Outcome)
      requires Valid()
      modifies this, mem
      ensures Valid()
      ensures var a := Party.AppendParty(old(mem[..]), species, level, moves, pps, nickname);
              if a.Err? then
                outcome == Refused(a.error) && mem[..] == old(mem[..]) &&
                activePartySlot == old(activePartySlot) && dirty == old(dirty)
              else
                outcome == Done && mem[..] == a.value && activePartySlot == old(mem[PartyCount]) && dirty
    {
      var count := mem[PartyCount];
      if count >= 6 {
        return Refused(PartyFull);
      }
      ghost var m0 := mem[..];
      var slot := count;
      WritePartyHeader(species);
      ghost var h := mem[..];
      WriteMem(Party.MonAt(slot), Party.NewMonStruct(species, level, moves, pps));
      ghost var m3 := mem[..];
      var trainer := Party.TrainerOt(mem[..]);
      var nick := if nickname == [] then "POKEMON" else nickname;
      WriteMem(Party.OtAt(slot), GscEncode(trainer, PartyNameLen));
      ghost var m4 := mem[..];
      WriteMem(Party.NickAt(slot), GscEncode(nick, PartyNameLen));
      AppendSteps(m0, species, level, moves, pps, nickname, h, m3, m4, mem[..]);
      activePartySlot := slot;
      dirty := true;
      outcome := Done;
    }

    /** The count and species-list writes of `_append_party_pokemon`: the count goes up by one,
        then the species list is re-read and the new species put at the old count. */
    method WritePartyHeader(species: int)
      requires Valid() && mem[PartyCount] < 6
      modifies mem
      ensures mem[..] == Party.AppendHeader(old(mem[..]), species)
    {
      ghost var m0 := mem[..];
      var count := mem[PartyCount];
      WriteMem(PartyCount, [Low8(count as int + 1)]);
      var speciesList := mem[PartySpeciesListStart..PartySpeciesListStart + 7];
      WriteMem(PartySpeciesListStart, Party.AppendedSpecies(speciesList, count, species));
      Party.HeaderFacts(m0, species);
    }

    /** `_read_bag_items` on the live memory. */
    method ReadBagItems() returns (items: seq<Bag.Entry>)
      requires Valid()
      ensures items == BagItems(mem[..])
      ensures |items| <= Bag.MaxSlots
    {
      items := Bag.ReadBagItems(mem[Bag.BagItemsStart..Bag.BagItemsStart + Bag.BagLen]);
      Bag.ReadBound(BagArea(mem[..]));
    }

    /** `_write_bag_items`: the two writes. */
    method WriteBagItems(items: seq<Bag.Entry>)
      requires Valid()
      modifies mem
      ensures mem[..] == BagWrite(old(mem[..]), items)
    {
      var data, count := Bag.EncodeBag(items);
      WriteMem(Bag.BagItemsStart, data);
      WriteMem(Bag.BagItemCount, [count]);
    }

    /** `_inventory_add_or_set`: an item id outside 1..255 is refused; otherwise the quantity is
        clamped to 1..99, set on every entry with the id or appended, and the list written back. */
    method InventoryAddOrSet(itemId: int, qty: int) returns (outcome: Outcome)
      requires Valid()
      modifies this, mem
      ensures Valid() && activePartySlot == old(activePartySlot)
      ensures outcome == if 1 <= itemId <= 255 then Done else Refused(ItemIdOutOfRange)
      ensures outcome != Done ==> mem[..] == old(mem[..]) && dirty == old(dirty)
      ensures outcome == Done ==>
                mem[..] == BagWrite(old(mem[..]), Bag.AddOrSet(BagItems(old(mem[..])), itemId, Bag.ClampQty(qty)))
      ensures outcome == Done ==>
                var want := Bag.Normalized(Bag.AddOrSet(BagItems(old(mem[..])), itemId, Bag.ClampQty(qty)));
                BagItems(mem[..]) == want && mem[Bag.BagItemCount] == |want| && dirty &&
                SameOutside(old(mem[..]), mem[..], Bag.BagItemCount, Bag.BagItemsEndOfList + 1)
    {
      if !(1 <= itemId <= 255) {
        return Refused(ItemIdOutOfRange);
      }
      var q := Bag.ClampQty(qty);
      var items := ReadBagItems();
      var newItems := Bag.SetQuantity(items, itemId, q);
      WriteBagItems(newItems);
      BagWriteReadBack(old(mem[..]), newItems);
      dirty := true;
      outcome := Done;
    }

    /** `_inventory_remove`: every entry with the id dropped and the list written back. */
    method InventoryRemove(itemId: int)
      requires Valid()
      modifies this, mem
      ensures Valid() && activePartySlot == old(activePartySlot) && dirty
      ensures mem[..] == BagWrite(old(mem[..]), Bag.Without(BagItems(old(mem[..])), itemId))
      ensures var want := Bag.Normalized(Bag.Without(BagItems(old(mem[..])), itemId));
              BagItems(mem[..]) == want && mem[Bag.BagItemCount] == |want|
      ensures SameOutside(old(mem[..]), mem[..], Bag.BagItemCount, Bag.BagItemsEndOfList + 1)
    {
      var items := ReadBagItems();
      var kept := Bag.Without(items, itemId);
      WriteBagItems(kept);
      BagWriteReadBack(old(mem[..]), kept);
      dirty := true;
    }

    /** `_add_rare_candy`: a held Rare Candy gains one (at most 99); otherwise one is appended
        over the terminator when there is room, and the count byte goes up by one modulo 256;
        otherwise nothing is written. */
    method AddRareCandy()
      requires Valid()
      modifies this, mem
      ensures Valid() && activePartySlot == old(activePartySlot)
      ensures var data := BagArea(old(mem[..]));
              var plan := Bag.PlanCandy(data);
              match plan
              case Bump(q) =>
                mem[..] == Splice(old(mem[..]), Bag.BagItemsStart, Bag.BumpedAt(data, q)) && dirty
              case Insert(t) =>
                mem[..] == Splice(Splice(old(mem[..]), Bag.BagItemCount, [Low8(old(mem[Bag.BagItemCount]) as int + 1)]),
                                  Bag.BagItemsStart, Bag.InsertedAt(data, t)) && dirty
              case LeaveAsIs =>
                mem[..] == old(mem[..]) && dirty == old(dirty)
      ensures var items := BagItems(old(mem[..]));
              BagItems(mem[..]) ==
                if Bag.Has(items, Bag.RareCandy) then Bag.BumpFirst(items, Bag.RareCandy)
                else if Bag.PlanCandy(BagArea(old(mem[..]))).Insert? then items + [Bag.Entry(Bag.RareCandy, 1)]
                else items
    {
      ghost var m0 := mem[..];
      var data := mem[Bag.BagItemsStart..Bag.BagItemsStart + Bag.BagLen];
      Bag.RareCandyEffect(data);
      var plan := Bag.ScanForCandy(data);
      match plan {
        case Bump(q) =>
          WriteMem(Bag.BagItemsStart, Bag.BumpedAt(data, q));
          SpliceRead(m0, Bag.BagItemsStart, Bag.BumpedAt(data, q));
          dirty := true;
        case Insert(t) =>
          var count := mem[Bag.BagItemCount];
          WriteMem(Bag.BagItemCount, [Low8(count as int + 1)]);
          ghost var m1 := mem[..];
          WriteMem(Bag.BagItemsStart, Bag.InsertedAt(data, t));
          SpliceRead(m1, Bag.BagItemsStart, Bag.InsertedAt(data, t));
          dirty := true;
        case LeaveAsIs =>
      }
    }
  }
}
