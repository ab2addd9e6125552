// The RAM field catalog: the fixed field tables, the per-slot party fields, catalog
// construction and snapshots (gsc_memory_lib.py and gsc_ram_fields.py).
module Catalog {
  import opened Wrappers
  import opened Codec
  import opened Fields
  import opened RamMap

  // ---------------------------------------------------------------------------
  // Python's insertion-ordered dict
  // ---------------------------------------------------------------------------

  /** A dict: its keys in insertion order and the key-to-value map. */
  datatype Dict<V> = Dict(order: seq<string>, entries: map<string, V>)

  /** The order lists every key once and only the keys. */
  ghost predicate DictValid<V>(d: Dict<V>) {
    (forall k :: k in d.entries <==> k in d.order)
    && (forall i, j :: 0 <= i < j < |d.order| ==> d.order[i] != d.order[j])
  }

  /** `d[k] = v`: a new key goes to the end, an existing key keeps its place. */
  function Insert<V>(d: Dict<V>, k: string, v: V): Dict<V> {
    Dict(if k in d.entries then d.order else d.order + [k], d.entries[k := v])
  }

  /** A dict display or `dict(pairs)`: the pairs inserted in order. */
  function FromPairs<V>(ps: seq<(string, V)>): Dict<V> {
    if ps == [] then Dict([], map[])
    else Insert(FromPairs(ps[..|ps| - 1]), ps[|ps| - 1].0, ps[|ps| - 1].1)
  }

  /** `for f in fs: cat[f.key] = f`. */
  function InsertFields(d: Dict<MemField>, fs: seq<MemField>): Dict<MemField> {
    if fs == [] then d
    else Insert(InsertFields(d, fs[..|fs| - 1]), fs[|fs| - 1].key, fs[|fs| - 1])
  }

  // ---------------------------------------------------------------------------
  // The fixed tables: RAM_FIELDS_CORE (gsc_memory_lib.py) and FIELDS (gsc_ram_fields.py)
  // ---------------------------------------------------------------------------

  const RamFieldsCore: seq<(string, MemField)> := [
    ("player_sprite_id", MemField("player_sprite_id", 0xD1FF, 1, U8, "Player sprite ID")),
    ("player_clothes", MemField("player_clothes", 0xD203, 1, U8, "Player clothes")),
    ("options", MemField("options", 0xD199, 1, U8, "Options byte")),
    ("trainer_id", MemField("trainer_id", 0xD1A1, 2, U16Le, "Trainer ID")),
    ("player_name", MemField("player_name", 0xD1A3, 10, TextGsc, "Player name (GSC text)")),
    ("wild_battles_enabled", MemField("wild_battles_enabled", 0xD20B, 1, U8, "Wild battles flag")),
    ("player_x", MemField("player_x", 0xD20D, 1, U8, "Player X")),
    ("player_y", MemField("player_y", 0xD20E, 1, U8, "Player Y")),
    ("map_bank", MemField("map_bank", 0xDA00, 1, U8, "Map bank")),
    ("map_number", MemField("map_number", 0xDA01, 1, U8, "Map number")),
    ("overworld_xy", MemField("overworld_xy", 0xDA02, 2, Bytes, "Overworld X then Y")),
    ("money", MemField("money", 0xD573, 3, U24Bcd, "Money (3-byte BCD)")),
    ("mom_money", MemField("mom_money", 0xD576, 3, U24Bcd, "Money held by Mom")),
    ("casino_coins", MemField("casino_coins", 0xD57A, 2, U16Le, "Casino coins")),
    ("johto_badges", MemField("johto_badges", 0xD57C, 1, U8, "Johto badges bitfield")),
    ("kanto_badges", MemField("kanto_badges", 0xD57D, 1, U8, "Kanto badges bitfield")),
    ("party_count", MemField("party_count", 0xDA22, 1, U8, "Party count")),
    ("party_species", MemField("party_species", 0xDA23, 6, Bytes, "Party species list")),
    ("bag_item_count", MemField("bag_item_count", 0xD5B7, 1, U8, "Bag item count")),
    ("key_item_count", MemField("key_item_count", 0xD5E1, 1, U8, "Key item count")),
    ("ball_count", MemField("ball_count", 0xD5FC, 1, U8, "Ball count")),
    ("pc_item_count", MemField("pc_item_count", 0xD616, 1, U8, "PC item count")),
    ("repel_steps", MemField("repel_steps", 0xD9EB, 1, U8, "Repel steps left")),
    ("on_bike_flag", MemField("on_bike_flag", 0xD682, 1, U8, "On bike flag")),
    ("battle_type", MemField("battle_type", 0xD116, 1, U8, "Battle type")),
    ("wild_species", MemField("wild_species", 0xD0ED, 1, U8, "Wild species")),
    ("wild_level", MemField("wild_level", 0xD0FC, 1, U8, "Wild/enemy level")),
    ("your_hp_battle", MemField("your_hp_battle", 0xCB1C, 2, U16Be, "Your HP in battle")),
    ("enemy_status", MemField("enemy_status", 0xD0FD, 1, U8, "Enemy status"))
  ]

  const RamFields: seq<(string, MemField)> := [
    ("player_sprite_id", MemField("player_sprite_id", 0xD1FF, 1, U8, "Player sprite ID")),
    ("player_clothes", MemField("player_clothes", 0xD203, 1, U8, "Player clothes")),
    ("options", MemField("options", 0xD199, 1, U8, "Options byte")),
    ("wild_battles_enabled", MemField("wild_battles_enabled", 0xD20B, 1, U8, "Wild battles flag")),
    ("player_x", MemField("player_x", 0xD20D, 1, U8, "Player X")),
    ("player_y", MemField("player_y", 0xD20E, 1, U8, "Player Y")),
    ("map_bank", MemField("map_bank", 0xDA00, 1, U8, "Map bank")),
    ("map_number", MemField("map_number", 0xDA01, 1, U8, "Map number")),
    ("overworld_xy", MemField("overworld_xy", 0xDA02, 2, Bytes, "Overworld X then Y")),
    ("money", MemField("money", 0xD573, 3, U24Bcd, "Money (3-byte BCD)")),
    ("mom_money", MemField("mom_money", 0xD576, 3, U24Bcd, "Money held by Mom")),
    ("casino_coins", MemField("casino_coins", 0xD57A, 2, U16Le, "Casino coins")),
    ("johto_badges", MemField("johto_badges", 0xD57C, 1, U8, "Johto badge bits")),
    ("kanto_badges", MemField("kanto_badges", 0xD57D, 1, U8, "Kanto badge bits")),
    ("party_count", MemField("party_count", 0xDA22, 1, U8, "Party count")),
    ("party_species", MemField("party_species", 0xDA23, 6, Bytes, "Party species list")),
    ("bag_item_count", MemField("bag_item_count", 0xD5B7, 1, U8, "Bag item count")),
    ("key_item_count", MemField("key_item_count", 0xD5E1, 1, U8, "Key item count")),
    ("ball_count", MemField("ball_count", 0xD5FC, 1, U8, "Ball count")),
    ("pc_item_count", MemField("pc_item_count", 0xD616, 1, U8, "PC item count")),
    ("repel_steps", MemField("repel_steps", 0xD9EB, 1, U8, "Repel steps left")),
    ("on_bike_flag", MemField("on_bike_flag", 0xD682, 1, U8, "On bike flag")),
    ("battle_type", MemField("battle_type", 0xD116, 1, U8, "Battle type")),
    ("wild_species", MemField("wild_species", 0xD0ED, 1, U8, "Wild species")),
    ("wild_level", MemField("wild_level", 0xD0FC, 1, U8, "Wild/enemy level")),
    ("your_hp_battle", MemField("your_hp_battle", 0xCB1C, 2, U16Be, "Your HP in battle")),
    ("enemy_level", MemField("enemy_level", 0xD0FC, 1, U8, "Enemy level")),
    ("enemy_status", MemField("enemy_status", 0xD0FD, 1, U8, "Enemy status"))
  ]

  /** Every dict key in the table is the key its field carries. */
  predicate TableKeysMatch(t: seq<(string, MemField)>) {
    forall i :: 0 <= i < |t| ==> t[i].0 == t[i].1.key
  }

  /** Every numeric field of the table spans exactly its encoding's width. */
  predicate TableWidthsMatch(t: seq<(string, MemField)>) {
    forall i :: 0 <= i < |t| ==> !IsBlob(t[i].1.enc) ==> t[i].1.size == Width(t[i].1.enc)
  }

  /** Starts with `party[`. */
  predicate IsPartyKey(k: string) {
    |k| >= 6 && k[5] == '[' && k[..5] == "party"
  }

  /** No fixed key looks like a per-slot key. */
  predicate NoPartyKeys(t: seq<(string, MemField)>) {
    forall i :: 0 <= i < |t| ==> !IsPartyKey(t[i].0)
  }

  /** Each key of RAM_FIELDS_CORE is its field's key, every numeric field has its encoding's
      width, and no key collides with a per-slot key. */
  lemma CoreTableWellFormed()
    ensures |RamFieldsCore| == 29
    ensures TableKeysMatch(RamFieldsCore)
    ensures TableWidthsMatch(RamFieldsCore)
    ensures NoPartyKeys(RamFieldsCore)
  {
    CoreKeysMatch();
    CoreWidthsMatch();
    CoreNoPartyKeys();
  }

  /** The same three facts for FIELDS. */
  lemma FieldsTableWellFormed()
    ensures |RamFields| == 28
    ensures TableKeysMatch(RamFields)
    ensures TableWidthsMatch(RamFields)
    ensures NoPartyKeys(RamFields)
  {
    FieldsKeysMatch();
    FieldsWidthsMatch();
    FieldsNoPartyKeys();
  }

  lemma CoreKeysMatch()
    ensures TableKeysMatch(RamFieldsCore)
  {
  }

  lemma CoreWidthsMatch()
    ensures TableWidthsMatch(RamFieldsCore)
  {
  }

  lemma CoreNoPartyKeys()
    ensures NoPartyKeys(RamFieldsCore)
  {
  }

  lemma FieldsKeysMatch()
    ensures TableKeysMatch(RamFields)
  {
  }

  lemma FieldsWidthsMatch()
    ensures TableWidthsMatch(RamFields)
  {
  }

  lemma FieldsNoPartyKeys()
    ensures NoPartyKeys(RamFields)
  {
  }

  // ---------------------------------------------------------------------------
  // Per-slot party fields
  // ---------------------------------------------------------------------------

  /** One field of the party struct: name, offset, size, encoding, description. */
  datatype SlotField = SlotField(name: string, off: int, size: int, enc: Encoding, doc: string)

  const PartyLayout: seq<SlotField> := [
    SlotField("species", SpeciesOff, 1, U8, "Species"),
    SlotField("item", HeldItemOff, 1, U8, "Held item"),
    SlotField("moves", MovesOff, 4, Bytes, "Moves"),
    SlotField("id", IdOff, 2, U16Be, "OT/mon ID"),
    SlotField("exp", ExpOff, 3, U24Le, "EXP"),
    SlotField("pp", PpOff, 4, Bytes, "PP"),
    SlotField("happiness", HappinessOff, 1, U8, "Happiness"),
    SlotField("pokerus", PokerusOff, 1, U8, "Pokerus"),
    SlotField("level", LevelOff, 1, U8, "Level"),
    SlotField("status", StatusOff, 2, U16Be, "Status"),
    SlotField("hp", HpOff, 2, U16Be, "HP"),
    SlotField("max_hp", MaxHpOff, 2, U16Be, "Max HP"),
    SlotField("atk", AtkOff, 2, U16Be, "Attack"),
    SlotField("def", DefOff, 2, U16Be, "Defense"),
    SlotField("spd", SpdOff, 2, U16Be, "Speed"),
    SlotField("spdef", SpdefOff, 2, U16Be, "Sp Def"),
    SlotField("spatk", SpatkOff, 2, U16Be, "Sp Atk")
  ]

  /** The layout's fields lie inside the struct, have their encoding's width, and have distinct names. */
  lemma PartyLayoutWellFormed()
    ensures |PartyLayout| == 17
    ensures forall i :: 0 <= i < 17 ==> 0 <= PartyLayout[i].off && PartyLayout[i].off + PartyLayout[i].size <= PartyMonStructSize
    ensures forall i :: 0 <= i < 17 ==> !IsBlob(PartyLayout[i].enc) ==> PartyLayout[i].size == Width(PartyLayout[i].enc)
    ensures forall i, j :: 0 <= i < j < 17 ==> PartyLayout[i].name != PartyLayout[j].name
  {
  }

  /** `f"party[{slot}]"` for a slot 0..5. */
  function SlotPrefix(slot: int): (p: string)
    requires IsSlot(slot)
    ensures |p| == 8 && IsPartyKey(p)
  {
    "party[" + [('0' as int + slot) as char] + "]"
  }

  function PartyKey(slot: int, name: string): (k: string)
    requires IsSlot(slot)
    ensures IsPartyKey(k)
  {
    SlotPrefix(slot) + "." + name
  }

  /** Distinct slots or distinct names give distinct keys. */
  lemma PartyKeyInjective(s: int, n: string, t: int, m: string)
    requires IsSlot(s) && IsSlot(t)
    requires PartyKey(s, n) == PartyKey(t, m)
    ensures s == t && n == m
  {
    assert PartyKey(s, n)[6] == ('0' as int + s) as char;
    assert PartyKey(t, m)[6] == ('0' as int + t) as char;
    assert PartyKey(s, n)[9..] == n;
    assert PartyKey(t, m)[9..] == m;
  }

  /** `party_fields_for_slot(slot)`: the seventeen fields of one slot; slots outside 0..5 fail. */
  function PartyFieldsForSlot(slot: int): (r: Result<seq<MemField>>)
    ensures r.Ok? <==> IsSlot(slot)
    ensures r.Ok? ==> |r.value| == |PartyLayout|
  {
    var base :- PartyMonBase(slot);
    Ok(seq(|PartyLayout|, i requires 0 <= i < |PartyLayout| =>
      var p := PartyLayout[i];
      MemField(PartyKey(slot, p.name), base + p.off, p.size, p.enc, p.doc)))
  }

  /** Field p of a slot is layout entry p, keyed `party[slot].<name>` and placed at the slot's base plus its offset. */
  lemma PartyFieldAt(slot: int, p: int)
    requires IsSlot(slot) && 0 <= p < |PartyLayout|
    ensures PartyFieldsForSlot(slot).value[p].key == PartyKey(slot, PartyLayout[p].name)
    ensures PartyFieldsForSlot(slot).value[p].addr == PartyMonBase(slot).value + PartyLayout[p].off
    ensures PartyFieldsForSlot(slot).value[p].size == PartyLayout[p].size
    ensures PartyFieldsForSlot(slot).value[p].enc == PartyLayout[p].enc
  {
  }

  /** Every per-slot field lies inside its slot's struct and spans its encoding's width. */
  lemma PartyFieldsInsideStruct(slot: int)
    requires IsSlot(slot)
    ensures forall f :: f in PartyFieldsForSlot(slot).value ==>
              PartyMonBase(slot).value <= f.addr && f.addr + f.size <= PartyMonBase(slot).value + PartyMonStructSize
    ensures forall f :: f in PartyFieldsForSlot(slot).value ==> !IsBlob(f.enc) ==> f.size == Width(f.enc)
  {
    PartyLayoutWellFormed();
    forall p | 0 <= p < |PartyLayout| {
      PartyFieldAt(slot, p);
    }
  }

  /** `iter_all_party_fields()` up to slot n: slots 0..n-1 in order. */
  function PartyFieldsBelow(n: int): (fs: seq<MemField>)
    requires 0 <= n <= 6
    ensures |fs| == 17 * n
  {
    if n == 0 then [] else PartyFieldsBelow(n - 1) + PartyFieldsForSlot(n - 1).value
  }

  function AllPartyFields(): seq<MemField> {
    PartyFieldsBelow(6)
  }

  // ---------------------------------------------------------------------------
  // Catalog construction
  // ---------------------------------------------------------------------------

  /** `build_catalog(include_party)`: a copy of the fixed table, then every party field by key. */
  function Catalog(t: seq<(string, MemField)>, includeParty: bool): Dict<MemField> {
    if includeParty then InsertFields(FromPairs(t), AllPartyFields()) else FromPairs(t)
  }

  method BuildCatalog(t: seq<(string, MemField)>, includeParty: bool) returns (cat: Dict<MemField>)
    ensures cat == Catalog(t, includeParty)
  {
    cat := Dict([], map[]);
    var i := 0;
    while i < |t|
      invariant 0 <= i <= |t|
      invariant cat == FromPairs(t[..i])
    {
      assert t[..i + 1][..i] == t[..i];
      cat := Insert(cat, t[i].0, t[i].1);
      i := i + 1;
    }
    assert t[..i] == t;
    if includeParty {
      var all := AllPartyFields();
      var j := 0;
      while j < |all|
        invariant 0 <= j <= |all|
        invariant cat == InsertFields(FromPairs(t), all[..j])
      {
        assert all[..j + 1][..j] == all[..j];
        cat := Insert(cat, all[j].key, all[j]);
        j := j + 1;
      }
      assert all[..j] == all;
    }
  }

  /** Inserting keeps the dict well formed. */
  lemma InsertValid<V>(d: Dict<V>, k: string, v: V)
    requires DictValid(d)
    ensures DictValid(Insert(d, k, v))
  {
  }

  lemma {:induction false} FromPairsValid<V>(ps: seq<(string, V)>)
    ensures DictValid(FromPairs(ps))
  {
    if ps != [] {
      FromPairsValid(ps[..|ps| - 1]);
      InsertValid(FromPairs(ps[..|ps| - 1]), ps[|ps| - 1].0, ps[|ps| - 1].1);
    }
  }

  lemma {:induction false} InsertFieldsValid(d: Dict<MemField>, fs: seq<MemField>)
    requires DictValid(d)
    ensures DictValid(InsertFields(d, fs))
  {
    if fs != [] {
      InsertFieldsValid(d, fs[..|fs| - 1]);
      InsertValid(InsertFields(d, fs[..|fs| - 1]), fs[|fs| - 1].key, fs[|fs| - 1]);
    }
  }

  /** A dict built from pairs whose keys match their fields maps each key to a field carrying it. */
  lemma {:induction false} FromPairsKeysMatch(ps: seq<(string, MemField)>)
    requires TableKeysMatch(ps)
    ensures forall k :: k in FromPairs(ps).entries ==> FromPairs(ps).entries[k].key == k
  {
    if ps != [] {
      FromPairsKeysMatch(ps[..|ps| - 1]);
    }
  }

  lemma {:induction false} InsertFieldsKeysMatch(d: Dict<MemField>, fs: seq<MemField>)
    requires forall k :: k in d.entries ==> d.entries[k].key == k
    ensures forall k :: k in InsertFields(d, fs).entries ==> InsertFields(d, fs).entries[k].key == k
  {
    if fs != [] {
      InsertFieldsKeysMatch(d, fs[..|fs| - 1]);
    }
  }

  /** Inserting fields whose keys all differ from k leaves k's entry alone. */
  lemma {:induction false} InsertFieldsOther(d: Dict<MemField>, fs: seq<MemField>, k: string)
    requires forall i :: 0 <= i < |fs| ==> fs[i].key != k
    ensures k in InsertFields(d, fs).entries <==> k in d.entries
    ensures k in d.entries ==> InsertFields(d, fs).entries[k] == d.entries[k]
  {
    if fs != [] {
      InsertFieldsOther(d, fs[..|fs| - 1], k);
    }
  }

  /** A field inserted after every other field with its key is the one the dict keeps. */
  lemma {:induction false} InsertFieldsLast(d: Dict<MemField>, fs: seq<MemField>, j: int)
    requires 0 <= j < |fs|
    requires forall i :: j < i < |fs| ==> fs[i].key != fs[j].key
    ensures fs[j].key in InsertFields(d, fs).entries && InsertFields(d, fs).entries[fs[j].key] == fs[j]
  {
    if j < |fs| - 1 {
      InsertFieldsLast(d, fs[..|fs| - 1], j);
    }
  }

  /** Every per-slot key is a party key. */
  lemma {:induction false} PartyFieldsBelowKeys(n: int)
    requires 0 <= n <= 6
    ensures forall i :: 0 <= i < |PartyFieldsBelow(n)| ==> IsPartyKey(PartyFieldsBelow(n)[i].key)
  {
    if n > 0 {
      PartyFieldsBelowKeys(n - 1);
    }
  }

  /** The fields of slots below n, listed slot by slot: field p of slot s sits at 17 * s + p. */
  lemma {:induction false} PartyFieldsBelowAt(n: int, s: int, p: int)
    requires 0 <= s < n <= 6 && 0 <= p < 17
    ensures PartyFieldsBelow(n)[17 * s + p] == PartyFieldsForSlot(s).value[p]
  {
    if s < n - 1 {
      PartyFieldsBelowAt(n - 1, s, p);
    }
  }

  /** Each index of the party field list belongs to one slot and one layout entry. */
  lemma PartyFieldsKeyAt(i: int)
    requires 0 <= i < 17 * 6
    ensures IsSlot(i / 17) && AllPartyFields()[i].key == PartyKey(i / 17, PartyLayout[i % 17].name)
  {
    assert i == 17 * (i / 17) + i % 17;
    PartyFieldsBelowAt(6, i / 17, i % 17);
    PartyFieldAt(i / 17, i % 17);
  }

  /** Later party fields never reuse the key of an earlier one. */
  lemma AllPartyKeysDistinct(i: int, j: int)
    requires 0 <= i < j < |AllPartyFields()|
    ensures AllPartyFields()[i].key != AllPartyFields()[j].key
  {
    PartyFieldsKeyAt(i);
    PartyFieldsKeyAt(j);
    PartyLayoutWellFormed();
    var si, pi, sj, pj := i / 17, i % 17, j / 17, j % 17;
    assert i == 17 * si + pi && j == 17 * sj + pj;
    if AllPartyFields()[i].key == AllPartyFields()[j].key {
      PartyKeyInjective(si, PartyLayout[pi].name, sj, PartyLayout[pj].name);
    }
  }

  /** The catalog lists each key once, and each key is the key of the field it maps to. */
  lemma CatalogWellFormed(t: seq<(string, MemField)>, includeParty: bool)
    requires TableKeysMatch(t)
    ensures DictValid(Catalog(t, includeParty))
    ensures forall k :: k in Catalog(t, includeParty).entries ==> Catalog(t, includeParty).entries[k].key == k
  {
    var base := FromPairs(t);
    FromPairsValid(t);
    FromPairsKeysMatch(t);
    if includeParty {
      InsertFieldsValid(base, AllPartyFields());
      InsertFieldsKeysMatch(base, AllPartyFields());
    }
  }

  /** No fixed entry is overwritten: with or without the party fields, entry i of the table
      is in the catalog as `dict(table)` has it. */
  lemma CatalogKeepsFixed(t: seq<(string, MemField)>, includeParty: bool, i: int)
    requires NoPartyKeys(t) && 0 <= i < |t|
    ensures t[i].0 in FromPairs(t).entries && t[i].0 in Catalog(t, includeParty).entries
    ensures Catalog(t, includeParty).entries[t[i].0] == FromPairs(t).entries[t[i].0]
  {
    FromPairsHas(t, i);
    if includeParty {
      PartyFieldsBelowKeys(6);
      InsertFieldsOther(FromPairs(t), AllPartyFields(), t[i].0);
    }
  }

  /** With the party fields, field p of every slot s is in the catalog under `party[s].<name>`. */
  lemma CatalogHasPartyField(t: seq<(string, MemField)>, s: int, p: int)
    requires IsSlot(s) && 0 <= p < 17
    ensures PartyKey(s, PartyLayout[p].name) in Catalog(t, true).entries
    ensures Catalog(t, true).entries[PartyKey(s, PartyLayout[p].name)] == PartyFieldsForSlot(s).value[p]
  {
    var all := AllPartyFields();
    var j := 17 * s + p;
    PartyFieldsBelowAt(6, s, p);
    PartyFieldAt(s, p);
    forall i | j < i < |all|
      ensures all[i].key != all[j].key
    {
      AllPartyKeysDistinct(j, i);
    }
    InsertFieldsLast(FromPairs(t), all, j);
  }

  /** The keys of a table are pairwise distinct. */
  predicate DistinctKeys<V>(t: seq<(string, V)>) {
    forall i, j :: 0 <= i < j < |t| ==> t[i].0 != t[j].0
  }

  /** With the party fields the catalog holds nothing but the table's keys and the 102 per-slot
      keys; when the table's keys are distinct and none looks like a per-slot key, it holds
      exactly |t| + 102 entries. */
  lemma CatalogOnlyKeys(t: seq<(string, MemField)>, k: string)
    ensures k in Catalog(t, true).entries ==>
              (exists i :: 0 <= i < |t| && t[i].0 == k)
              || (exists s, p :: IsSlot(s) && 0 <= p < 17 && k == PartyKey(s, PartyLayout[p].name))
    ensures DistinctKeys(t) && NoPartyKeys(t) ==> |Catalog(t, true).entries| == |t| + 17 * 6
  {
    var all := AllPartyFields();
    if k in Catalog(t, true).entries {
      InsertFieldsFrom(FromPairs(t), all, k);
      if k in FromPairs(t).entries {
        FromPairsEntry(t, k);
      } else {
        var j :| 0 <= j < |all| && all[j].key == k;
        PartyFieldsKeyAt(j);
        PartyLayoutWellFormed();
      }
    }
    if DistinctKeys(t) && NoPartyKeys(t) {
      FromPairsCard(t);
      PartyFieldsBelowKeys(6);
      forall j | 0 <= j < |all|
        ensures all[j].key !in FromPairs(t).entries
      {
        if all[j].key in FromPairs(t).entries {
          FromPairsEntry(t, all[j].key);
        }
      }
      forall i, j | 0 <= i < j < |all|
        ensures all[i].key != all[j].key
      {
        AllPartyKeysDistinct(i, j);
      }
      InsertFieldsCard(FromPairs(t), all);
    }
  }

  /** A key after inserting fields was there before or is the key of one of the fields. */
  lemma {:induction false} InsertFieldsFrom(d: Dict<MemField>, fs: seq<MemField>, k: string)
    requires k in InsertFields(d, fs).entries
    ensures k in d.entries || exists j :: 0 <= j < |fs| && fs[j].key == k
  {
    if fs != [] && fs[|fs| - 1].key != k {
      InsertFieldsFrom(d, fs[..|fs| - 1], k);
      if k !in d.entries {
        var j :| 0 <= j < |fs| - 1 && fs[..|fs| - 1][j].key == k;
        assert fs[j].key == k;
      }
    }
  }

  /** Pairs with distinct keys make a dict with one entry per pair. */
  lemma {:induction false} FromPairsCard<V>(ps: seq<(string, V)>)
    requires DistinctKeys(ps)
    ensures |FromPairs(ps).entries| == |ps|
  {
    if ps != [] {
      var init := ps[..|ps| - 1];
      assert DistinctKeys(init);
      FromPairsCard(init);
      if ps[|ps| - 1].0 in FromPairs(init).entries {
        FromPairsEntry(init, ps[|ps| - 1].0);
      }
    }
  }

  /** Inserting fields with fresh, pairwise distinct keys adds one entry per field. */
  lemma {:induction false} InsertFieldsCard(d: Dict<MemField>, fs: seq<MemField>)
    requires forall j :: 0 <= j < |fs| ==> fs[j].key !in d.entries
    requires forall i, j :: 0 <= i < j < |fs| ==> fs[i].key != fs[j].key
    ensures |InsertFields(d, fs).entries| == |d.entries| + |fs|
  {
    if fs != [] {
      var init := fs[..|fs| - 1];
      var k := fs[|fs| - 1].key;
      InsertFieldsCard(d, init);
      if k in InsertFields(d, init).entries {
        InsertFieldsFrom(d, init, k);
      }
    }
  }

  lemma {:induction false} FromPairsHas<V>(ps: seq<(string, V)>, i: int)
    requires 0 <= i < |ps|
    ensures ps[i].0 in FromPairs(ps).entries
  {
    if i < |ps| - 1 {
      FromPairsHas(ps[..|ps| - 1], i);
    }
  }

  /** Every entry of a dict built from pairs is one of the pairs (the last one given for its key). */
  lemma {:induction false} FromPairsEntry<V>(ps: seq<(string, V)>, k: string)
    requires k in FromPairs(ps).entries
    ensures exists i :: 0 <= i < |ps| && ps[i] == (k, FromPairs(ps).entries[k])
  {
    var last := ps[|ps| - 1];
    if last.0 == k {
      assert ps[|ps| - 1] == (k, FromPairs(ps).entries[k]);
    } else {
      FromPairsEntry(ps[..|ps| - 1], k);
      var i :| 0 <= i < |ps| - 1 && ps[..|ps| - 1][i] == (k, FromPairs(ps[..|ps| - 1]).entries[k]);
      assert ps[i] == (k, FromPairs(ps).entries[k]);
    }
  }

  // ---------------------------------------------------------------------------
  // Snapshots
  // ---------------------------------------------------------------------------

  /** Reading each requested key in turn: the first unknown key or failed read stops it. */
  function SnapshotOf(mem: seq<Byte>, cat: Dict<MemField>, keys: seq<string>): Result<map<string, Value>> {
    if keys == [] then Ok(map[])
    else
      var out :- SnapshotOf(mem, cat, keys[..|keys| - 1]);
      var k := keys[|keys| - 1];
      if k !in cat.entries then Err(UnknownKey(k))
      else
        var v :- ReadField(mem, cat.entries[k]);
        Ok(out[k := v])
  }

  /** A snapshot succeeds exactly when every key is known and readable; it then holds exactly the
      requested keys, each mapped to `read_field` of its field. */
  lemma {:induction false} SnapshotContents(mem: seq<Byte>, cat: Dict<MemField>, keys: seq<string>)
    ensures SnapshotOf(mem, cat, keys).Ok? <==>
              forall i :: 0 <= i < |keys| ==> keys[i] in cat.entries && ReadField(mem, cat.entries[keys[i]]).Ok?
    ensures SnapshotOf(mem, cat, keys).Ok? ==> forall k :: k in SnapshotOf(mem, cat, keys).value <==> k in keys
    ensures SnapshotOf(mem, cat, keys).Ok? ==> forall k :: k in SnapshotOf(mem, cat, keys).value ==>
              k in cat.entries && SnapshotOf(mem, cat, keys).value[k] == ReadField(mem, cat.entries[k]).value
  {
    if keys != [] {
      var pre := keys[..|keys| - 1];
      SnapshotContents(mem, cat, pre);
      assert forall i :: 0 <= i < |pre| ==> pre[i] == keys[i];
      assert keys == pre + [keys[|keys| - 1]];
    }
  }

  /** The keys a snapshot reads: the requested ones, or every catalog key for `keys=None`. */
  function SnapshotKeys(cat: Dict<MemField>, keys: Option<seq<string>>): seq<string> {
    if keys.None? then cat.order else keys.value
  }

  /** `snapshot(read_mem, keys)`: the full catalog, then one `read_field` per requested key. */
  method Snapshot(mem: seq<Byte>, t: seq<(string, MemField)>, keys: Option<seq<string>>)
    returns (r: Result<map<string, Value>>)
    ensures r == SnapshotOf(mem, Catalog(t, true), SnapshotKeys(Catalog(t, true), keys))
  {
    var cat := BuildCatalog(t, true);
    var ks := SnapshotKeys(cat, keys);
    var out: map<string, Value> := map[];
    var i := 0;
    while i < |ks|
      invariant 0 <= i <= |ks|
      invariant SnapshotOf(mem, cat, ks[..i]) == Ok(out)
    {
      SnapshotStep(mem, cat, ks, i);
      var k := ks[i];
      if k !in cat.entries {
        SnapshotStopsAtError(mem, cat, ks, i + 1);
        return Err(UnknownKey(k));
      }
      var v := ReadField(mem, cat.entries[k]);
      if v.Err? {
        SnapshotStopsAtError(mem, cat, ks, i + 1);
        return Err(v.error);
      }
      out := out[k := v.value];
      i := i + 1;
    }
    assert ks[..i] == ks;
    r := Ok(out);
  }

  /** One more key after a successful prefix: an unknown key or a failed read is the error,
      otherwise the value joins the snapshot. */
  lemma SnapshotStep(mem: seq<Byte>, cat: Dict<MemField>, keys: seq<string>, i: int)
    requires 0 <= i < |keys| && SnapshotOf(mem, cat, keys[..i]).Ok?
    ensures keys[i] !in cat.entries ==> SnapshotOf(mem, cat, keys[..i + 1]) == Err(UnknownKey(keys[i]))
    ensures keys[i] in cat.entries && ReadField(mem, cat.entries[keys[i]]).Err? ==>
              SnapshotOf(mem, cat, keys[..i + 1]) == Err(ReadField(mem, cat.entries[keys[i]]).error)
    ensures keys[i] in cat.entries && ReadField(mem, cat.entries[keys[i]]).Ok? ==>
              SnapshotOf(mem, cat, keys[..i + 1]) ==
                Ok(SnapshotOf(mem, cat, keys[..i]).value[keys[i] := ReadField(mem, cat.entries[keys[i]]).value])
  {
    assert keys[..i + 1][..i] == keys[..i];
  }

  /** Once a prefix of the keys fails, the whole snapshot fails the same way. */
  lemma {:induction false} SnapshotStopsAtError(mem: seq<Byte>, cat: Dict<MemField>, keys: seq<string>, i: int)
    requires 0 <= i <= |keys| && SnapshotOf(mem, cat, keys[..i]).Err?
    ensures SnapshotOf(mem, cat, keys) == SnapshotOf(mem, cat, keys[..i])
  {
    if i < |keys| {
      assert keys[..|keys| - 1][..i] == keys[..i];
      SnapshotStopsAtError(mem, cat, keys[..|keys| - 1], i);
    } else {
      assert keys[..i] == keys;
    }
  }

  /** With `keys=None` the snapshot covers the catalog: it fails only if some field cannot be read. */
  lemma SnapshotAllKeys(mem: seq<Byte>, t: seq<(string, MemField)>)
    requires TableKeysMatch(t) && NoPartyKeys(t)
    requires forall k :: k in Catalog(t, true).entries ==> ReadField(mem, Catalog(t, true).entries[k]).Ok?
    ensures SnapshotOf(mem, Catalog(t, true), Catalog(t, true).order).Ok?
    ensures SnapshotOf(mem, Catalog(t, true), Catalog(t, true).order).value.Keys == Catalog(t, true).entries.Keys
  {
    var cat := Catalog(t, true);
    CatalogWellFormed(t, true);
    SnapshotContents(mem, cat, cat.order);
  }
}
