// The bag's item list as the GUI reads and rewrites it: (item id, quantity) pairs ended by 0xFF,
// the add-or-set and remove edits, and the one-click Rare Candy (run_emulator_gui.py).
module Bag {
  import opened Codec

  const BagItemCount := 0xD5B7
  const BagItemsStart := 0xD5B8
  const BagItemsEndOfList := 0xD5E0

  /** Bytes of the list area, the terminator slot included: 41. */
  const BagLen := BagItemsEndOfList - BagItemsStart + 1
  /** Pairs that fit in front of a terminator: 20. */
  const MaxSlots := (BagLen - 1) / 2
  const MaxQty := 99
  const RareCandy := 0x20
  const ListEnd := 0xFF

  /** One bag entry: item id and quantity. */
  datatype Entry = Entry(id: int, qty: int)

  // ---------------------------------------------------------------------------
  // Reading
  // ---------------------------------------------------------------------------

  /** `_read_bag_items` from offset i: pairs up to a 0xFF id or a lone last byte, skipping
      pairs whose id is 0. Every entry holds two bytes of the list. */
  function ItemsFrom(blob: seq<Byte>, i: nat): (items: seq<Entry>)
    ensures forall k :: 0 <= k < |items| ==>
              0 < items[k].id < ListEnd && 0 <= items[k].qty < 0x100
    ensures i <= |blob| ==> 2 * |items| + i <= |blob|
    decreases |blob| - i
  {
    if i >= |blob| || blob[i] == ListEnd || i + 1 >= |blob| then []
    else if blob[i] == 0 then ItemsFrom(blob, i + 2)
    else [Entry(blob[i], blob[i + 1])] + ItemsFrom(blob, i + 2)
  }

  /** A 41-byte list holds at most 20 entries. */
  lemma ReadBound(blob: seq<Byte>)
    requires |blob| == BagLen
    ensures |ItemsFrom(blob, 0)| <= MaxSlots
  {
  }

  /** The items read depend only on the bytes from offset i on. */
  lemma {:induction false} ItemsFromSuffix(a: seq<Byte>, b: seq<Byte>, i: nat)
    requires |a| == |b| && i <= |a| && a[i..] == b[i..]
    ensures ItemsFrom(a, i) == ItemsFrom(b, i)
    decreases |a| - i
  {
    if i < |a| {
      assert a[i] == a[i..][0] == b[i];
      if i + 1 < |a| {
        assert a[i + 1] == a[i..][1] == b[i + 1];
        if i + 2 <= |a| {
          assert a[i + 2..] == a[i..][2..] == b[i..][2..] == b[i + 2..];
          ItemsFromSuffix(a, b, i + 2);
        }
      }
    }
  }

  /** The reading loop of `_read_bag_items`. */
  method ReadBagItems(blob: seq<Byte>) returns (out: seq<Entry>)
    ensures out == ItemsFrom(blob, 0)
  {
    out := [];
    var i := 0;
    while i < |blob|
      invariant out + ItemsFrom(blob, i) == ItemsFrom(blob, 0)
      decreases |blob| - i
    {
      var id := blob[i];
      if id == ListEnd {
        break;
      }
      if i + 1 >= |blob| {
        break;
      }
      if id != 0 {
        assert ItemsFrom(blob, i) == [Entry(id, blob[i + 1])] + ItemsFrom(blob, i + 2);
        out := out + [Entry(id, blob[i + 1])];
      }
      i := i + 2;
    }
  }

  // ---------------------------------------------------------------------------
  // Writing
  // ---------------------------------------------------------------------------

  /** `max(1, min(99, q))`. */
  function ClampQty(q: int): (r: int)
    ensures 1 <= r <= MaxQty
    ensures 1 <= q <= MaxQty ==> r == q
    ensures q < 1 ==> r == 1
    ensures q > MaxQty ==> r == MaxQty
  {
    if MaxQty < q then MaxQty else if q < 1 then 1 else q
  }

  /** An entry the game can hold: a real item id and a quantity of 1 to 99. */
  predicate Storable(e: Entry) {
    0 < e.id < ListEnd && 1 <= e.qty <= MaxQty
  }

  predicate AllStorable(items: seq<Entry>) {
    forall k :: 0 <= k < |items| ==> Storable(items[k])
  }

  /** The normalising loop of `_write_bag_items`: ids taken modulo 256, ids 0 and 0xFF dropped,
      quantities clamped to 1..99, order kept. */
  function Keep(items: seq<Entry>): (r: seq<Entry>)
    ensures |r| <= |items|
    ensures AllStorable(r)
  {
    if items == [] then []
    else
      var last := items[|items| - 1];
      var iid := Low8(last.id);
      Keep(items[..|items| - 1]) + (if iid == 0 || iid == ListEnd then [] else [Entry(iid, ClampQty(last.qty))])
  }

  /** What the normalising loop makes of one entry: nothing when the id's low byte is 0 or
      0xFF, otherwise that low byte with the quantity clamped to 1..99. */
  function KeptEntry(e: Entry): seq<Entry> {
    var iid := Low8(e.id);
    if iid == 0 || iid == ListEnd then [] else [Entry(iid, ClampQty(e.qty))]
  }

  /** One entry is normalised on its own. */
  lemma KeepSingle(e: Entry)
    ensures Keep([e]) == KeptEntry(e)
    ensures Keep([e]) == [] <==> Low8(e.id) == 0 || Low8(e.id) == ListEnd
  {
    assert [e][..0] == [];
  }

  /** The loop treats each entry on its own and keeps the order: normalising a concatenation
      concatenates the normalised parts. */
  lemma {:induction false} KeepConcat(a: seq<Entry>, b: seq<Entry>)
    ensures Keep(a + b) == Keep(a) + Keep(b)
    decreases |b|
  {
    if b == [] {
      assert a + b == a;
    } else {
      var init := b[..|b| - 1];
      assert (a + b)[..|a + b| - 1] == a + init;
      assert (a + b)[|a + b| - 1] == b[|b| - 1];
      KeepConcat(a, init);
    }
  }

  /** An entry is kept exactly when some input entry's id has a low byte other than 0 and
      0xFF, and it is that low byte with the clamped quantity. */
  lemma {:induction false} KeepMembers(items: seq<Entry>, e: Entry)
    ensures e in Keep(items) <==>
              exists j :: 0 <= j < |items| && Low8(items[j].id) != 0 && Low8(items[j].id) != ListEnd
                          && e == Entry(Low8(items[j].id), ClampQty(items[j].qty))
  {
    if items != [] {
      var init := items[..|items| - 1];
      var last := items[|items| - 1];
      KeepMembers(init, e);
      assert Keep(items) == Keep(init) + KeptEntry(last);
      forall j | 0 <= j < |init| ensures init[j] == items[j] { }
    }
  }

  /** The mask and the clamp on a concrete entry: id 0x120 quantity 150 is stored as
      id 0x20 quantity 99, id 0x100 is dropped, and quantity 0 becomes 1. */
  lemma KeepVector()
    ensures Keep([Entry(0x120, 150)]) == [Entry(0x20, 99)]
    ensures Keep([Entry(0x100, 5)]) == []
    ensures Keep([Entry(0x1FF, 5)]) == []
    ensures Keep([Entry(3, 0)]) == [Entry(3, 1)]
  {
    KeepSingle(Entry(0x120, 150));
    KeepSingle(Entry(0x100, 5));
    KeepSingle(Entry(0x1FF, 5));
    KeepSingle(Entry(3, 0));
  }

  /** The normalised list cut to the 20 entries that fit. */
  function Normalized(items: seq<Entry>): (r: seq<Entry>)
    ensures |r| <= MaxSlots
    ensures AllStorable(r)
    ensures |r| <= |Keep(items)| && r == Keep(items)[..|r|]
    ensures |r| < MaxSlots ==> r == Keep(items)
  {
    var n := Keep(items);
    if |n| <= MaxSlots then n else n[..MaxSlots]
  }

  /** A list of storable entries is its own normal form. */
  lemma {:induction false} KeepStorable(items: seq<Entry>)
    requires AllStorable(items)
    ensures Keep(items) == items
  {
    if items != [] {
      var init := items[..|items| - 1];
      assert AllStorable(init) by {
        forall k | 0 <= k < |init| ensures Storable(init[k]) {
          assert init[k] == items[k];
        }
      }
      KeepStorable(init);
      assert Storable(items[|items| - 1]);
      assert items == init + [items[|items| - 1]];
    }
  }

  lemma NormalizedStorable(items: seq<Entry>)
    requires AllStorable(items) && |items| <= MaxSlots
    ensures Normalized(items) == items
  {
    KeepStorable(items);
  }

  /** Id and quantity bytes of each entry, in order. */
  function Pairs(es: seq<Entry>): (b: seq<Byte>)
    ensures |b| == 2 * |es|
  {
    if es == [] then []
    else Pairs(es[..|es| - 1]) + [Low8(es[|es| - 1].id), Low8(es[|es| - 1].qty)]
  }

  lemma {:induction false} PairsAt(es: seq<Entry>, j: nat)
    requires j < |es|
    ensures Pairs(es)[2 * j] == Low8(es[j].id) && Pairs(es)[2 * j + 1] == Low8(es[j].qty)
  {
    if j < |es| - 1 {
      PairsAt(es[..|es| - 1], j);
    }
  }

  /** The 41 bytes `_write_bag_items` lays out for a normalised list: the pairs, a 0xFF
      terminator, zeros after it. */
  function BagLayout(norm: seq<Entry>): (b: seq<Byte>)
    requires |norm| <= MaxSlots
    ensures |b| == BagLen
  {
    Pairs(norm) + [ListEnd] + Zeros(BagLen - 2 * |norm| - 1)
  }

  /** The layout holds the pairs, then the terminator. */
  lemma LayoutBytes(norm: seq<Entry>)
    requires |norm| <= MaxSlots
    ensures forall j :: 0 <= j < 2 * |norm| ==> BagLayout(norm)[j] == Pairs(norm)[j]
    ensures BagLayout(norm)[2 * |norm|] == ListEnd
    ensures forall j :: 2 * |norm| < j < BagLen ==> BagLayout(norm)[j] == 0
  {
  }

  /** One step of the reading: a pair with a real id is read as an entry. */
  lemma ReadStep(blob: seq<Byte>, i: nat)
    requires i + 1 < |blob| && blob[i] != 0 && blob[i] != ListEnd
    ensures ItemsFrom(blob, i) == [Entry(blob[i], blob[i + 1])] + ItemsFrom(blob, i + 2)
  {
  }

  /** A storable entry is laid out as its own id and quantity. */
  lemma LayoutPair(norm: seq<Entry>, k: nat)
    requires |norm| <= MaxSlots && k < |norm| && Storable(norm[k])
    ensures BagLayout(norm)[2 * k] == norm[k].id && BagLayout(norm)[2 * k + 1] == norm[k].qty
  {
    LayoutBytes(norm);
    PairsAt(norm, k);
  }

  /** Reading the layout from entry k on gives the entries from k on. */
  lemma {:induction false} LayoutReadsFrom(norm: seq<Entry>, k: nat)
    requires |norm| <= MaxSlots && AllStorable(norm) && k <= |norm|
    ensures ItemsFrom(BagLayout(norm), 2 * k) == norm[k..]
    decreases |norm| - k
  {
    var b := BagLayout(norm);
    if k < |norm| {
      var e := norm[k];
      assert Storable(e);
      LayoutPair(norm, k);
      ReadStep(b, 2 * k);
      assert ItemsFrom(b, 2 * k) == [Entry(e.id, e.qty)] + ItemsFrom(b, 2 * (k + 1));
      LayoutReadsFrom(norm, k + 1);
      assert norm[k..] == [e] + norm[k + 1..];
    } else {
      LayoutEnd(norm);
    }
  }

  /** Reading stops at the terminator after the last pair. */
  lemma LayoutEnd(norm: seq<Entry>)
    requires |norm| <= MaxSlots
    ensures ItemsFrom(BagLayout(norm), 2 * |norm|) == []
  {
    assert BagLayout(norm)[2 * |norm|] == ListEnd;
  }

  /** Whatever list is written, reading it back gives exactly the normalised list. */
  lemma WriteReadBack(items: seq<Entry>)
    ensures ItemsFrom(BagLayout(Normalized(items)), 0) == Normalized(items)
  {
    LayoutReadsFrom(Normalized(items), 0);
  }

  /** The normalising loop of `_write_bag_items`, then the cut to 20 entries. */
  method NormalizeItems(items: seq<Entry>) returns (norm: seq<Entry>)
    ensures norm == Normalized(items)
  {
    norm := [];
    var i := 0;
    while i < |items|
      invariant 0 <= i <= |items|
      invariant norm == Keep(items[..i])
    {
      var iid := Low8(items[i].id);
      assert items[..i + 1][..i] == items[..i];
      if iid != 0 && iid != ListEnd {
        norm := norm + [Entry(iid, ClampQty(items[i].qty))];
      }
      i := i + 1;
    }
    assert items[..i] == items;
    if |norm| > MaxSlots {
      norm := norm[..MaxSlots];
    }
  }

  /** The layout loop of `_write_bag_items` over a zeroed 41-byte buffer. */
  method LayoutBag(norm: seq<Entry>) returns (data: seq<Byte>)
    requires |norm| <= MaxSlots
    ensures data == BagLayout(norm)
  {
    var buf := new Byte[BagLen](_ => 0);
    var pos := 0;
    var k := 0;
    while k < |norm|
      invariant 0 <= k <= |norm| && pos == 2 * k
      invariant forall j :: 0 <= j < pos ==> buf[j] == Pairs(norm)[j]
      invariant forall j :: pos <= j < BagLen ==> buf[j] == 0
    {
      if pos + 2 > buf.Length {
        break;
      }
      PairsAt(norm, k);
      buf[pos] := Low8(norm[k].id);
      buf[pos + 1] := Low8(norm[k].qty);
      pos := pos + 2;
      k := k + 1;
    }
    if pos < buf.Length {
      buf[pos] := ListEnd;
    }
    LayoutBytes(norm);
    data := buf[..];
  }

  /** The list bytes and the count byte `_write_bag_items` stores. */
  method EncodeBag(items: seq<Entry>) returns (data: seq<Byte>, count: Byte)
    ensures data == BagLayout(Normalized(items))
    ensures count == Low8(|Normalized(items)|)
  {
    var norm := NormalizeItems(items);
    data := LayoutBag(norm);
    count := Low8(|norm|);
  }

  // ---------------------------------------------------------------------------
  // Add or set, remove
  // ---------------------------------------------------------------------------

  predicate Has(items: seq<Entry>, id: int) {
    exists k :: 0 <= k < |items| && items[k].id == id
  }

  /** Every entry with the id takes the new quantity. */
  function Replaced(items: seq<Entry>, id: int, qty: int): (r: seq<Entry>)
    ensures |r| == |items|
  {
    seq(|items|, k requires 0 <= k < |items| => if items[k].id == id then Entry(id, qty) else items[k])
  }

  /** The list `_inventory_add_or_set` builds: the quantity set where the id occurs, the entry
      appended where it does not. */
  function AddOrSet(items: seq<Entry>, id: int, qty: int): (r: seq<Entry>)
  {
    if Has(items, id) then Replaced(items, id, qty) else items + [Entry(id, qty)]
  }

  /** After the edit the id is present, with the new quantity at every place it occurs; every
      other entry keeps its place and contents. */
  lemma AddOrSetEntries(items: seq<Entry>, id: int, qty: int)
    ensures var r := AddOrSet(items, id, qty);
      Has(r, id) &&
      |r| == if Has(items, id) then |items| else |items| + 1
    ensures var r := AddOrSet(items, id, qty);
      forall k :: 0 <= k < |r| ==>
        r[k] == if k < |items| && items[k].id != id then items[k] else Entry(id, qty)
  {
    var r := AddOrSet(items, id, qty);
    if Has(items, id) {
      var w :| 0 <= w < |items| && items[w].id == id;
      assert r[w].id == id;
    } else {
      assert r[|items|].id == id;
    }
  }

  /** The entry-by-entry loop of `_inventory_add_or_set`. */
  method SetQuantity(items: seq<Entry>, id: int, qty: int) returns (r: seq<Entry>)
    ensures r == AddOrSet(items, id, qty)
  {
    var found := false;
    r := [];
    var i := 0;
    while i < |items|
      invariant 0 <= i <= |items|
      invariant r == Replaced(items[..i], id, qty)
      invariant found <==> Has(items[..i], id)
    {
      if items[i].id == id {
        r := r + [Entry(items[i].id, qty)];
        found := true;
      } else {
        r := r + [items[i]];
      }
      assert items[..i + 1][i] == items[i];
      assert forall k :: 0 <= k < i ==> items[..i + 1][k] == items[..i][k];
      i := i + 1;
    }
    assert items[..i] == items;
    if !found {
      r := r + [Entry(id, qty)];
    }
  }

  /** The list comprehension of `_inventory_remove`: every entry with the id dropped, the rest
      kept in order. */
  function Without(items: seq<Entry>, id: int): (r: seq<Entry>)
    ensures |r| <= |items|
    ensures !Has(r, id)
    ensures forall k :: 0 <= k < |r| ==> r[k] in items
    ensures forall e :: e in items && e.id != id ==> e in r
    ensures !Has(items, id) ==> r == items
  {
    if items == [] then []
    else
      var rest := Without(items[1..], id);
      assert forall e :: e in items && e != items[0] ==> e in items[1..];
      if items[0].id == id then rest else [items[0]] + rest
  }

  /** The comprehension tests each entry on its own and keeps the order and duplicates:
      removing from a concatenation concatenates the parts. */
  lemma {:induction false} WithoutConcat(a: seq<Entry>, b: seq<Entry>, id: int)
    ensures Without(a + b, id) == Without(a, id) + Without(b, id)
  {
    if a == [] {
      assert a + b == b;
    } else {
      assert (a + b)[0] == a[0];
      assert (a + b)[1..] == a[1..] + b;
      WithoutConcat(a[1..], b, id);
    }
  }

  /** One entry is dropped exactly when it has the id. */
  lemma WithoutSingle(e: Entry, id: int)
    ensures Without([e], id) == if e.id == id then [] else [e]
  {
    assert [e][1..] == [];
  }

  /** `[A, X, A, B]` without X's id is `[A, A, B]`: order and repeats are kept. */
  lemma WithoutVector()
    ensures Without([Entry(1, 2), Entry(7, 1), Entry(1, 2), Entry(3, 4)], 7)
              == [Entry(1, 2), Entry(1, 2), Entry(3, 4)]
  {
    var l := [Entry(1, 2), Entry(7, 1), Entry(1, 2), Entry(3, 4)];
    assert l[1..] == [Entry(7, 1), Entry(1, 2), Entry(3, 4)];
    assert l[1..][1..] == [Entry(1, 2), Entry(3, 4)];
    assert l[1..][1..][1..] == [Entry(3, 4)];
    assert l[1..][1..][1..][1..] == [];
  }

  /** Setting a real item (ids 1 to 254) with a quantity of 1 to 99 on a list that already holds
      only storable entries is stored exactly, unless the item is new and all 20 places are
      taken: then the list is left as it was. */
  lemma AddOrSetStored(items: seq<Entry>, id: int, qty: int)
    requires AllStorable(items) && |items| <= MaxSlots
    requires 0 < id < ListEnd && 1 <= qty <= MaxQty
    ensures Has(items, id) || |items| < MaxSlots ==>
              Normalized(AddOrSet(items, id, qty)) == AddOrSet(items, id, qty)
    ensures !Has(items, id) && |items| == MaxSlots ==>
              Normalized(AddOrSet(items, id, qty)) == items
  {
    var r := AddOrSet(items, id, qty);
    AddOrSetEntries(items, id, qty);
    assert AllStorable(r) by {
      forall k | 0 <= k < |r| ensures Storable(r[k]) {
        if k < |items| && items[k].id != id {
          assert Storable(items[k]);
        }
      }
    }
    KeepStorable(r);
    if !Has(items, id) && |items| == MaxSlots {
      assert r[..MaxSlots] == items;
    }
  }

  /** Id 255 passes the dialog's 1..255 check but is the terminator: normalisation drops it
      and the list comes back unchanged. */
  lemma AddTerminatorIdDropped(items: seq<Entry>, qty: int)
    requires AllStorable(items) && |items| <= MaxSlots
    ensures Normalized(AddOrSet(items, ListEnd, qty)) == items
  {
    assert !Has(items, ListEnd) by {
      forall k | 0 <= k < |items| ensures items[k].id != ListEnd {
        assert Storable(items[k]);
      }
    }
    var r := items + [Entry(ListEnd, qty)];
    assert r[..|r| - 1] == items;
    KeepStorable(items);
  }

  /** Removing leaves a storable list storable, so it is written back exactly. */
  lemma RemoveStored(items: seq<Entry>, id: int)
    requires AllStorable(items) && |items| <= MaxSlots
    ensures Normalized(Without(items, id)) == Without(items, id)
  {
    var r := Without(items, id);
    assert AllStorable(r) by {
      forall k | 0 <= k < |r| ensures Storable(r[k]) {
        assert r[k] in items;
      }
    }
    NormalizedStorable(r);
  }

  // ---------------------------------------------------------------------------
  // Rare Candy
  // ---------------------------------------------------------------------------

  /** What the pair scan of `_add_rare_candy` stops at. */
  datatype Scan = FoundCandy(qtyIndex: nat) | FoundEnd(term: nat) | ScanExhausted

  /** The scan from offset i over ids at even offsets below the last byte: the first 0xFF or
      Rare Candy id decides. */
  function CandyScan(data: seq<Byte>, i: nat): (s: Scan)
    ensures s.FoundCandy? ==> i < s.qtyIndex < |data| && data[s.qtyIndex - 1] == RareCandy
    ensures s.FoundEnd? ==> i <= s.term && s.term + 1 < |data| && data[s.term] == ListEnd
    ensures s.FoundEnd? ==> s.term == i || i + 2 <= s.term
    ensures s.FoundEnd? ==> (s.term - i) % 2 == 0
    ensures s.FoundCandy? ==> (s.qtyIndex - 1 - i) % 2 == 0
    decreases |data| - i
  {
    if i + 1 >= |data| then ScanExhausted
    else if data[i] == ListEnd then FoundEnd(i)
    else if data[i] == RareCandy then FoundCandy(i + 1)
    else CandyScan(data, i + 2)
  }

  /** No id at an even distance from i, before stop, is the terminator or a Rare Candy. */
  ghost predicate NoMarkBefore(data: seq<Byte>, i: nat, stop: int) {
    forall j :: i <= j < stop && j < |data| && (j - i) % 2 == 0 ==>
      data[j] != ListEnd && data[j] != RareCandy
  }

  /** The scan stops at the first mark: every id it passed over was neither 0xFF nor a Rare
      Candy, and when it runs out no even offset before the last byte holds either. */
  lemma {:induction false} CandyScanFirst(data: seq<Byte>, i: nat)
    ensures CandyScan(data, i).FoundEnd? ==> NoMarkBefore(data, i, CandyScan(data, i).term)
    ensures CandyScan(data, i).FoundCandy? ==> NoMarkBefore(data, i, CandyScan(data, i).qtyIndex - 1)
    ensures CandyScan(data, i).ScanExhausted? ==> NoMarkBefore(data, i, |data| - 1)
    decreases |data| - i
  {
    if i + 1 < |data| && data[i] != ListEnd && data[i] != RareCandy {
      CandyScanFirst(data, i + 2);
      var s := CandyScan(data, i);
      var stop := match s case FoundEnd(t) => t case FoundCandy(q) => q - 1 case ScanExhausted => |data| - 1;
      forall j | i <= j < stop && j < |data| && (j - i) % 2 == 0
        ensures data[j] != ListEnd && data[j] != RareCandy
      {
        if j != i {
          assert (j - (i + 2)) % 2 == 0;
        }
      }
    }
  }

  /** What `_add_rare_candy` does with the list bytes. */
  datatype CandyPlan = Bump(qtyIndex: nat) | Insert(term: nat) | LeaveAsIs

  function PlanCandy(data: seq<Byte>): (p: CandyPlan)
    ensures p.Bump? ==> p.qtyIndex < |data|
    ensures p.Insert? ==> p.term + 2 < |data|
  {
    match CandyScan(data, 0)
    case FoundCandy(q) => Bump(q)
    case FoundEnd(t) => if t + 2 >= |data| then LeaveAsIs else Insert(t)
    case ScanExhausted => LeaveAsIs
  }

  /** The scanning loop of `_add_rare_candy`. */
  method ScanForCandy(data: seq<Byte>) returns (plan: CandyPlan)
    ensures plan == PlanCandy(data)
  {
    var term := -1;
    var found := -1;
    var i := 0;
    while i < |data| - 1
      invariant 0 <= i
      invariant term == -1 && found == -1
      invariant CandyScan(data, i) == CandyScan(data, 0)
      decreases |data| - i
    {
      if data[i] == ListEnd {
        term := i;
        break;
      }
      if data[i] == RareCandy {
        found := i + 1;
        break;
      }
      i := i + 2;
    }
    if found >= 0 {
      plan := Bump(found);
    } else if term < 0 {
      plan := LeaveAsIs;
    } else if term + 2 >= |data| {
      plan := LeaveAsIs;
    } else {
      plan := Insert(term);
    }
  }

  /** The existing candy's quantity plus one, capped at 99. */
  function BumpedAt(data: seq<Byte>, q: nat): (r: seq<Byte>)
    requires q < |data|
    ensures |r| == |data|
  {
    data[q := if data[q] < MaxQty then data[q] + 1 else MaxQty]
  }

  /** One candy written over the terminator, a new terminator after it and a zero after that
      when it fits. */
  function InsertedAt(data: seq<Byte>, t: nat): (r: seq<Byte>)
    requires t + 2 < |data|
    ensures |r| == |data|
  {
    var d := data[t := RareCandy][t + 1 := 1][t + 2 := ListEnd];
    if t + 3 < |data| then d[t + 3 := 0] else d
  }

  /** The first entry with the id gets its quantity raised by one, capped at 99. */
  function BumpFirst(items: seq<Entry>, id: int): (r: seq<Entry>)
    ensures |r| == |items|
  {
    if items == [] then []
    else if items[0].id == id then
      [Entry(id, if MaxQty < items[0].qty + 1 then MaxQty else items[0].qty + 1)] + items[1..]
    else [items[0]] + BumpFirst(items[1..], id)
  }

  /** The scan finds a candy exactly when the read list holds one. */
  lemma {:induction false} ScanFindsCandy(data: seq<Byte>, i: nat)
    ensures CandyScan(data, i).FoundCandy? <==> Has(ItemsFrom(data, i), RareCandy)
    decreases |data| - i
  {
    var items := ItemsFrom(data, i);
    if i + 1 >= |data| || data[i] == ListEnd {
    } else if data[i] == RareCandy {
      assert items[0].id == RareCandy;
    } else {
      ScanFindsCandy(data, i + 2);
      var rest := ItemsFrom(data, i + 2);
      if data[i] == 0 {
        assert items == rest;
      } else {
        assert items == [Entry(data[i], data[i + 1])] + rest;
        HasCons(Entry(data[i], data[i + 1]), rest, RareCandy);
      }
    }
  }

  /** A list with a head entry holds the id when the head or the rest does. */
  lemma HasCons(e: Entry, rest: seq<Entry>, id: int)
    ensures Has([e] + rest, id) <==> e.id == id || Has(rest, id)
  {
    var items := [e] + rest;
    if Has(rest, id) {
      var w :| 0 <= w < |rest| && rest[w].id == id;
      assert items[w + 1].id == id;
    }
    if Has(items, id) && e.id != id {
      var w :| 0 <= w < |items| && items[w].id == id;
      assert rest[w - 1].id == id;
    }
    if e.id == id {
      assert items[0].id == id;
    }
  }

  /** Bumping the byte the scan found raises the first candy entry of the read list. */
  lemma {:induction false} BumpReadsBack(data: seq<Byte>, i: nat)
    requires CandyScan(data, i).FoundCandy?
    ensures ItemsFrom(BumpedAt(data, CandyScan(data, i).qtyIndex), i) == BumpFirst(ItemsFrom(data, i), RareCandy)
    decreases |data| - i
  {
    var q := CandyScan(data, i).qtyIndex;
    var d := BumpedAt(data, q);
    if data[i] == RareCandy {
      assert q == i + 1;
      if i + 2 <= |data| {
        assert d[i + 2..] == data[i + 2..];
        ItemsFromSuffix(d, data, i + 2);
      }
    } else {
      assert d[i] == data[i] && d[i + 1] == data[i + 1];
      BumpReadsBack(data, i + 2);
    }
  }

  /** Inserting at the terminator the scan found appends one candy to the read list. */
  lemma {:induction false} InsertReadsBack(data: seq<Byte>, i: nat)
    requires CandyScan(data, i).FoundEnd? && CandyScan(data, i).term + 2 < |data|
    ensures ItemsFrom(InsertedAt(data, CandyScan(data, i).term), i) == ItemsFrom(data, i) + [Entry(RareCandy, 1)]
    decreases |data| - i
  {
    var t := CandyScan(data, i).term;
    var d := InsertedAt(data, t);
    if t == i {
      assert d[t] == RareCandy && d[t + 1] == 1 && d[t + 2] == ListEnd;
      assert ItemsFrom(d, t + 2) == [];
    } else {
      assert d[i] == data[i] && d[i + 1] == data[i + 1];
      InsertReadsBack(data, i + 2);
    }
  }

  /** `_add_rare_candy` on the list: a candy already held gains one (at most 99); otherwise one
      candy is appended when a terminator leaves room for it; otherwise nothing changes. */
  lemma RareCandyEffect(data: seq<Byte>)
    ensures PlanCandy(data).Bump? <==> Has(ItemsFrom(data, 0), RareCandy)
    ensures PlanCandy(data).Bump? ==>
              ItemsFrom(BumpedAt(data, PlanCandy(data).qtyIndex), 0) == BumpFirst(ItemsFrom(data, 0), RareCandy)
    ensures PlanCandy(data).Insert? ==>
              ItemsFrom(InsertedAt(data, PlanCandy(data).term), 0) == ItemsFrom(data, 0) + [Entry(RareCandy, 1)]
  {
    ScanFindsCandy(data, 0);
    if PlanCandy(data).Bump? {
      BumpReadsBack(data, 0);
    } else if PlanCandy(data).Insert? {
      InsertReadsBack(data, 0);
    }
  }
}
