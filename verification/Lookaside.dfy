/** The table that is taken home at the close of every wrap, through a short list of
    the slots used when that list was long enough, and by a full scan otherwise. */
module Lookaside {
  import opened Memory
  import opened HashTable
  import opened Variables
  import opened Retirement

  class ATL {
    const table: LFHT
    const lookaside: array<nat>
    var lookasideIndex: nat

    ghost predicate Shaped()
      reads this
    {
      table.Shaped() && (lookaside as object) !in {table.entries as object, table.bloom.words as object}
    }

    /** The table holds exactly these stores of the current wrap, and the list has the
        slot of each, as far as it goes. */
    ghost predicate InWrap(stores: seq<Store>)
      reads this, lookaside, table, table.entries, table.bloom, table.bloom.words
    {
      && Shaped() && table.Valid()
      && lookasideIndex == |stores| && (forall i | 0 <= i < |stores| :: stores[i].key != 0)
      && table.Contents() == LastStores(stores)
      && Listed(table.entries[..], lookaside[..], stores) && AllStored(table.entries[..], stores)
    }

    constructor (t: LFHT, size: nat)
      requires t.Valid() && t.Contents() == map[]
      ensures table == t && InWrap([])
    {
      table := t;
      lookaside := new nat[size](_ => 0);
      lookasideIndex := 0;
      new;
      EmptyTable(t.entries[..]);
    }

    /** A wrap that opens on an empty table. */
    method OnWrapOpen()
      requires Shaped() && table.Valid() && table.Contents() == map[]
      modifies this`lookasideIndex
      ensures InWrap([])
    {
      lookasideIndex := 0;
      EmptyTable(table.entries[..]);
    }

    method StoreTo(ptr: nat, value: nat, size: nat, ghost stores: seq<Store>)
      requires InWrap(stores) && ptr != 0 && Used(table.entries[..]) + 1 < table.entries.Length
      modifies this`lookasideIndex, lookaside, table`numItems, table.entries, table.bloom`flags, table.bloom.words
      ensures InWrap(stores + [Store(ptr, value, size)])
    {
      hide LastStores, Listed, AllStored;
      ghost var slots, list := table.entries[..], lookaside[..];
      ghost var s := Store(ptr, value, size);
      var idx := SetInTable(ptr, value, size);
      StoreStep(slots, list, stores, idx, s);
      Remember(idx);
      BackInWrap(slots[idx := Slot(ptr, value, size)], if |stores| < |list| then list[|stores| := idx] else list, stores + [s]);
    }

    method SetInTable(ptr: nat, value: nat, size: nat) returns (idx: nat)
      requires Shaped() && table.Valid() && ptr != 0 && Used(table.entries[..]) + 1 < table.entries.Length
      modifies table`numItems, table.entries, table.bloom`flags, table.bloom.words
      ensures table.Valid() && idx < table.entries.Length && table.entries[..] == old(table.entries[..])[idx := Slot(ptr, value, size)]
      ensures old(table.entries[..])[idx].key == 0 || old(table.entries[..])[idx].key == ptr
      ensures MapOf(table.entries[..]) == MapOf(old(table.entries[..]))[ptr := Datum(value, size)]
      ensures lookaside[..] == old(lookaside[..])
    {
      idx := table.SetItem(ptr, value, size);
    }

    lemma {:induction false} BackInWrap(slots: seq<Slot>, list: seq<nat>, stores: seq<Store>)
      requires Shaped() && table.Valid() && table.entries[..] == slots && lookaside[..] == list && lookasideIndex == |stores|
      requires forall i | 0 <= i < |stores| :: stores[i].key != 0
      requires DistinctKeys(slots) && MapOf(slots) == LastStores(stores) && Listed(slots, list, stores) && AllStored(slots, stores)
      ensures InWrap(stores)
    {
    }

    method Remember(idx: nat)
      requires Shaped() && table.Valid()
      modifies this`lookasideIndex, lookaside
      ensures lookasideIndex == old(lookasideIndex) + 1
      ensures lookaside[..] == if old(lookasideIndex) < lookaside.Length then old(lookaside[..])[old(lookasideIndex) := idx] else old(lookaside[..])
      ensures table.Valid() && table.entries[..] == old(table.entries[..])
    {
      if lookaside.Length > lookasideIndex {
        lookaside[lookasideIndex] := idx;
      }
      lookasideIndex := lookasideIndex + 1;
    }

    /** Take the wrap's stores home and empty the table. */
    method RestoreToCacheHierarchy(home: array<Byte>, ghost stores: seq<Store>)
      requires InWrap(stores) && (home as object) !in {table.entries as object, table.bloom.words as object}
      requires MachineSizes(stores) && FixedWidth(stores) && AllPadded(WritesOf(stores), home.Length)
      modifies lookaside, table.entries, table.bloom, table.bloom.words, home
      ensures AllWithin(WritesOf(stores), home.Length) && home[..] == Replay(old(home[..]), WritesOf(stores))
      ensures table.Valid() && table.Contents() == map[]
    {
      PaddedWithin(WritesOf(stores), home.Length);
      if lookaside.Length > 0 {
        if lookasideIndex == 0 {
          assert table.Contents() == map[];
          return;
        }
        if lookasideIndex <= lookaside.Length {
          RestoreListed(home, stores);
          return;
        }
      }
      RestoreScanned(home, stores);
    }

    /** The short way: only the listed slots. */
    method RestoreListed(home: array<Byte>, ghost stores: seq<Store>)
      requires InWrap(stores) && (home as object) !in {table.entries as object, table.bloom.words as object}
      requires MachineSizes(stores) && FixedWidth(stores) && AllPadded(WritesOf(stores), home.Length) && lookasideIndex <= lookaside.Length
      modifies lookaside, table.entries, table.bloom, table.bloom.words, home
      ensures AllWithin(WritesOf(stores), home.Length) && home[..] == Replay(old(home[..]), WritesOf(stores))
      ensures table.Valid() && table.Contents() == map[]
    {
      hide LastStores;
      ghost var before, slots, list := home[..], table.entries[..], lookaside[..];
      ghost var ws := ListedWrites(slots, list[..lookasideIndex]);
      ListedMakeImage(before, slots, list[..lookasideIndex], stores);
      CopyListed(home, before);
      WriteBackListed(home, Replay(before, ws));
      ReplayTwice(before, ws);
      FreeListed(slots, stores);
      table.bloom.ClearBloom();
      AllFree(table.entries[..]);
    }

    method CopyListed(home: array<Byte>, ghost before: seq<Byte>)
      requires (home as object) != table.entries as object && home[..] == before && lookasideIndex <= lookaside.Length
      requires ListFits(table.entries[..], lookaside[..lookasideIndex], home.Length)
      modifies home
      ensures home[..] == Replay(before, ListedWrites(table.entries[..], lookaside[..lookasideIndex]))
    {
      ghost var list := lookaside[..lookasideIndex];
      ghost var ws := ListedWrites(table.entries[..], list);
      PaddedWithin(ws, home.Length);
      assert ws[..0] == [];
      for i := 0 to lookasideIndex
        invariant home[..] == Replay(before, ws[..i])
      {
        assert lookaside[i] == list[i] && Padded(ws[i], home.Length) && Within(ws[i], home.Length);
        CopyEntryToCache(home, lookaside[i]);
        ReplayOneMore(before, ws, i);
      }
      assert ws[..lookasideIndex] == ws;
    }

    method WriteBackListed(home: array<Byte>, ghost before: seq<Byte>)
      requires (home as object) != table.entries as object && home[..] == before && lookasideIndex <= lookaside.Length
      requires ListFits(table.entries[..], lookaside[..lookasideIndex], home.Length)
      modifies home
      ensures home[..] == Replay(before, ListedWrites(table.entries[..], lookaside[..lookasideIndex]))
    {
      ghost var list := lookaside[..lookasideIndex];
      ghost var ws := ListedWrites(table.entries[..], list);
      PaddedWithin(ws, home.Length);
      assert ws[..0] == [];
      for i := 0 to lookasideIndex
        invariant home[..] == Replay(before, ws[..i])
      {
        assert lookaside[i] == list[i] && Padded(ws[i], home.Length) && Within(ws[i], home.Length);
        WriteBackEntry(home, lookaside[i]);
        ReplayOneMore(before, ws, i);
      }
      assert ws[..lookasideIndex] == ws;
    }

    method CopyEntryToCache(home: array<Byte>, i: nat)
      requires i < table.entries.Length && (home as object) != table.entries as object && Within(SlotWrite(table.entries[i]), home.Length)
      requires MachineSize(table.entries[i].size)
      modifies home
      ensures home[..] == Poke(old(home[..]), table.entries[i].key, SlotWrite(table.entries[i]).data)
    {
      var s := table.entries[i];
      MemCpy(home, s.key, LE(s.size, s.value));
    }

    method WriteBackEntry(home: array<Byte>, i: nat)
      requires i < table.entries.Length && (home as object) != table.entries as object && Padded(SlotWrite(table.entries[i]), home.Length)
      modifies home
      ensures home[..] == Poke(old(home[..]), table.entries[i].key, SlotWrite(table.entries[i]).data)
    {
      var s := table.entries[i];
      NtStore(home, s.key, LE(s.size, s.value));
    }

    /** Free the listed slots, which are all the slots in use. */
    method FreeListed(ghost slots: seq<Slot>, ghost stores: seq<Store>)
      requires Shaped() && table.entries[..] == slots && DistinctKeys(slots) && AllStored(slots, stores)
      requires Listed(slots, lookaside[..], stores) && lookasideIndex == |stores| <= lookaside.Length
      modifies lookaside, table.entries
      ensures forall j | 0 <= j < table.entries.Length :: table.entries[j].key == 0
    {
      ghost var list := lookaside[..];
      for i := 0 to lookasideIndex
        invariant forall k | i <= k < lookaside.Length :: lookaside[k] == list[k]
        invariant forall j | 0 <= j < |slots| :: table.entries[j].key == 0 || table.entries[j] == slots[j]
        invariant forall k | 0 <= k < i :: table.entries[list[k]].key == 0
      {
        table.entries[lookaside[i]] := table.entries[lookaside[i]].(key := 0);
        lookaside[i] := 0;
      }
      forall j | 0 <= j < |slots| ensures table.entries[j].key == 0 {
        if slots[j].key != 0 {
          var k :| 0 <= k < |stores| && stores[k].key == slots[j].key;
          SameSlot(slots, list[k], j);
        }
      }
    }

    /** The long way: every slot in use. */
    method RestoreScanned(home: array<Byte>, ghost stores: seq<Store>)
      requires InWrap(stores) && (home as object) !in {table.entries as object, table.bloom.words as object}
      requires MachineSizes(stores) && FixedWidth(stores) && AllPadded(WritesOf(stores), home.Length)
      modifies table.entries, table.bloom, table.bloom.words, home
      ensures AllWithin(WritesOf(stores), home.Length) && home[..] == Replay(old(home[..]), WritesOf(stores))
      ensures table.Valid() && table.Contents() == map[]
    {
      ghost var before, slots := home[..], table.entries[..];
      ScannedMakeImage(before, slots, stores);
      CopyScanned(home, before);
      WriteBackScanned(home, Replay(before, TableWrites(slots)));
      ReplayTwice(before, TableWrites(slots));
      table.Clear();
    }

    method CopyScanned(home: array<Byte>, ghost before: seq<Byte>)
      requires (home as object) != table.entries as object && home[..] == before && SlotsFit(table.entries[..], home.Length)
      requires MachineSlots(table.entries[..])
      modifies home
      ensures AllWithin(TableWrites(table.entries[..]), home.Length) && home[..] == Replay(before, TableWrites(table.entries[..]))
    {
      ghost var slots := table.entries[..];
      FitPrefixes(slots, home.Length);
      for i := 0 to table.entries.Length
        invariant home[..] == Replay(before, TableWrites(slots[..i]))
      {
        OneMoreSlot(before, slots, i);
        if table.entries[i].key != 0 {
          assert Padded(SlotWrite(slots[i]), home.Length);
          CopyEntryToCache(home, i);
        }
      }
      assert slots[..table.entries.Length] == slots;
    }

    method WriteBackScanned(home: array<Byte>, ghost before: seq<Byte>)
      requires (home as object) != table.entries as object && home[..] == before && SlotsFit(table.entries[..], home.Length)
      modifies home
      ensures AllWithin(TableWrites(table.entries[..]), home.Length) && home[..] == Replay(before, TableWrites(table.entries[..]))
    {
      ghost var slots := table.entries[..];
      FitPrefixes(slots, home.Length);
      for i := 0 to table.entries.Length
        invariant home[..] == Replay(before, TableWrites(slots[..i]))
      {
        OneMoreSlot(before, slots, i);
        if table.entries[i].key != 0 {
          assert Padded(SlotWrite(slots[i]), home.Length);
          WriteBackEntry(home, i);
        }
      }
      assert slots[..table.entries.Length] == slots;
    }
  }

  /** The widths that the copy to the cache has a case for; it asserts that there is no other. */
  predicate MachineSize(size: nat) {
    size == 1 || size == 2 || size == 4 || size == 8
  }

  ghost predicate MachineSizes(stores: seq<Store>) {
    forall i | 0 <= i < |stores| :: MachineSize(stores[i].size)
  }

  ghost predicate MachineSlots(slots: seq<Slot>) {
    forall j | 0 <= j < |slots| && slots[j].key != 0 :: MachineSize(slots[j].size)
  }

  /** Slot numbers, one for each store as far as the list goes. */
  ghost predicate Listed(slots: seq<Slot>, list: seq<nat>, stores: seq<Store>) {
    forall i | 0 <= i < |stores| && i < |list| :: list[i] < |slots| && slots[list[i]].key == stores[i].key
  }

  ghost predicate AllStored(slots: seq<Slot>, stores: seq<Store>) {
    forall j | 0 <= j < |slots| && slots[j].key != 0 :: StoredTo(stores, slots[j].key)
  }

  ghost predicate StoredTo(stores: seq<Store>, key: nat) {
    exists i :: 0 <= i < |stores| && stores[i].key == key
  }

  lemma {:induction false} StoreStep(slots: seq<Slot>, list: seq<nat>, stores: seq<Store>, idx: nat, s: Store)
    requires Listed(slots, list, stores) && AllStored(slots, stores) && idx < |slots|
    requires slots[idx].key == 0 || slots[idx].key == s.key
    requires forall i | 0 <= i < |stores| :: stores[i].key != 0
    ensures var slots', stores' := slots[idx := Slot(s.key, s.value, s.size)], stores + [s];
            && Listed(slots', if |stores| < |list| then list[|stores| := idx] else list, stores')
            && AllStored(slots', stores')
            && LastStores(stores') == LastStores(stores)[s.key := Datum(s.value, s.size)]
  {
    var slots', stores' := slots[idx := Slot(s.key, s.value, s.size)], stores + [s];
    assert stores'[..|stores|] == stores;
    forall j | 0 <= j < |slots'| && slots'[j].key != 0 ensures StoredTo(stores', slots'[j].key) {
      if j == idx {
        assert stores'[|stores|].key == slots'[j].key;
      } else {
        var i :| 0 <= i < |stores| && stores[i].key == slots[j].key;
        assert stores'[i].key == slots'[j].key;
      }
    }
  }

  lemma {:induction false} EmptyTable(slots: seq<Slot>)
    requires DistinctKeys(slots) && MapOf(slots) == map[]
    ensures forall j | 0 <= j < |slots| :: slots[j].key == 0
  {
    forall j | 0 <= j < |slots| ensures slots[j].key == 0 {
      if slots[j].key != 0 {
        SlotInMap(slots, j);
        assert false;
      }
    }
  }

  /** The writes of the listed slots, in the order of the list. */
  ghost function ListedWrites(slots: seq<Slot>, list: seq<nat>): (ws: seq<Write>)
    requires forall i | 0 <= i < |list| :: list[i] < |slots|
    ensures |ws| == |list| && forall i | 0 <= i < |list| :: ws[i] == SlotWrite(slots[list[i]])
  {
    seq(|list|, i requires 0 <= i < |list| => SlotWrite(slots[list[i]]))
  }

  ghost predicate ListFits(slots: seq<Slot>, list: seq<nat>, size: nat) {
    (forall i | 0 <= i < |list| :: list[i] < |slots| && MachineSize(slots[list[i]].size)) && AllPadded(ListedWrites(slots, list), size)
  }

  lemma {:induction false} SameSlot(slots: seq<Slot>, i: nat, j: nat)
    requires DistinctKeys(slots) && i < |slots| && j < |slots| && slots[i].key == slots[j].key != 0
    ensures i == j
  {
  }

  /** What is known of the slot of a stored key. */
  lemma {:induction false} SlotOfStore(slots: seq<Slot>, stores: seq<Store>, j: nat)
    requires DistinctKeys(slots) && MapOf(slots) == LastStores(stores) && FixedWidth(stores) && j < |slots| && slots[j].key != 0
    requires StoredTo(stores, slots[j].key)
    ensures slots[j].key in LastStores(stores) && LastStores(stores)[slots[j].key] == Datum(slots[j].value, slots[j].size)
    ensures exists i :: 0 <= i < |stores| && stores[i].key == slots[j].key && stores[i].size == slots[j].size
  {
    SlotInMap(slots, j);
    KeysOfStores(stores);
  }

  lemma {:induction false} KeysOfStores(stores: seq<Store>)
    ensures forall k | k in LastStores(stores) :: exists i :: 0 <= i < |stores| && stores[i].key == k && stores[i].size == LastStores(stores)[k].size
    ensures forall i | 0 <= i < |stores| :: stores[i].key in LastStores(stores)
  {
    if stores != [] {
      var n := |stores| - 1;
      KeysOfStores(stores[..n]);
      forall k | k in LastStores(stores) ensures exists i :: 0 <= i < |stores| && stores[i].key == k && stores[i].size == LastStores(stores)[k].size {
        if k == stores[n].key {
          assert stores[n].size == LastStores(stores)[k].size;
        } else {
          var i :| 0 <= i < n && stores[..n][i].key == k && stores[..n][i].size == LastStores(stores[..n])[k].size;
          assert stores[i] == stores[..n][i];
        }
      }
      forall i | 0 <= i < |stores| ensures stores[i].key in LastStores(stores) {
        if i < n { assert stores[..n][i] == stores[i]; }
      }
    }
  }

  lemma {:induction false} StorePadded(stores: seq<Store>, i: nat, size: nat)
    requires AllPadded(WritesOf(stores), size) && i < |stores|
    ensures stores[i].key + (stores[i].size + 3) / 4 * 4 <= size
  {
    assert Padded(WritesOf(stores)[i], size);
  }

  /** The listed slots hold what the stores of the wrap come to, in whatever order and
      however often the list names them. */
  lemma {:induction false} ListedMakeImage(home: seq<Byte>, slots: seq<Slot>, list: seq<nat>, stores: seq<Store>)
    requires DistinctKeys(slots) && MapOf(slots) == LastStores(stores) && MachineSizes(stores) && FixedWidth(stores)
    requires |list| == |stores| && Listed(slots, list, stores) && (forall i | 0 <= i < |stores| :: stores[i].key != 0)
    requires AllPadded(WritesOf(stores), |home|)
    ensures ListFits(slots, list, |home|) && AllWithin(ListedWrites(slots, list), |home|) && AllWithin(WritesOf(stores), |home|)
    ensures Replay(home, ListedWrites(slots, list)) == Replay(home, WritesOf(stores))
  {
    var ws, m := ListedWrites(slots, list), LastStores(stores);
    PaddedWithin(WritesOf(stores), |home|);
    ListedFits(slots, list, stores, |home|);
    PaddedWithin(ws, |home|);
    forall k | k in m ensures exists i :: 0 <= i < |ws| && ws[i].dest == k {
      KeysOfStores(stores);
      var i :| 0 <= i < |stores| && stores[i].key == k;
      assert ws[i].dest == k;
    }
    StoresMakeImage(home, stores);
    WritesMakeImage(home, ws, m);
    ImageUnique(Replay(home, ws), Replay(home, WritesOf(stores)), home, m);
  }

  lemma {:induction false} ListedFits(slots: seq<Slot>, list: seq<nat>, stores: seq<Store>, size: nat)
    requires DistinctKeys(slots) && MapOf(slots) == LastStores(stores) && MachineSizes(stores) && FixedWidth(stores)
    requires |list| == |stores| && Listed(slots, list, stores) && (forall i | 0 <= i < |stores| :: stores[i].key != 0)
    requires AllPadded(WritesOf(stores), size)
    ensures ListFits(slots, list, size)
    ensures var ws, m := ListedWrites(slots, list), LastStores(stores);
            forall i | 0 <= i < |ws| :: ws[i].dest in m && ws[i].dest == stores[i].key && ws[i] == VarWrite(ws[i].dest, m[ws[i].dest])
  {
    var ws, m := ListedWrites(slots, list), LastStores(stores);
    forall i | 0 <= i < |ws|
      ensures Padded(ws[i], size) && MachineSize(slots[list[i]].size)
      ensures ws[i].dest in m && ws[i] == VarWrite(ws[i].dest, m[ws[i].dest])
    {
      ListedSlot(slots, list, stores, i, size);
    }
  }

  lemma {:induction false} ListedSlot(slots: seq<Slot>, list: seq<nat>, stores: seq<Store>, i: nat, size: nat)
    requires DistinctKeys(slots) && MapOf(slots) == LastStores(stores) && MachineSizes(stores) && FixedWidth(stores)
    requires |list| == |stores| && Listed(slots, list, stores) && i < |stores| && stores[i].key != 0
    requires AllPadded(WritesOf(stores), size)
    ensures var w := SlotWrite(slots[list[i]]);
            && Padded(w, size) && MachineSize(slots[list[i]].size) && w.dest in LastStores(stores) && w == VarWrite(w.dest, LastStores(stores)[w.dest])
  {
    SlotOfStore(slots, stores, list[i]);
    var j :| 0 <= j < |stores| && stores[j].key == slots[list[i]].key && stores[j].size == slots[list[i]].size;
    StorePadded(stores, j, size);
  }

  /** So do all the slots in use. */
  lemma {:induction false} ScannedMakeImage(home: seq<Byte>, slots: seq<Slot>, stores: seq<Store>)
    requires DistinctKeys(slots) && MapOf(slots) == LastStores(stores) && MachineSizes(stores) && FixedWidth(stores) && AllStored(slots, stores)
    requires AllPadded(WritesOf(stores), |home|)
    ensures SlotsFit(slots, |home|) && MachineSlots(slots) && AllWithin(TableWrites(slots), |home|) && AllWithin(WritesOf(stores), |home|)
    ensures Replay(home, TableWrites(slots)) == Replay(home, WritesOf(stores))
  {
    PaddedWithin(WritesOf(stores), |home|);
    forall j | 0 <= j < |slots| && slots[j].key != 0 ensures Padded(SlotWrite(slots[j]), |home|) && MachineSize(slots[j].size) {
      SlotOfStore(slots, stores, j);
      var i :| 0 <= i < |stores| && stores[i].key == slots[j].key && stores[i].size == slots[j].size;
      StorePadded(stores, i, |home|);
    }
    TableWritesFit(slots, |home|);
    PaddedWithin(TableWrites(slots), |home|);
    StoresMakeImage(home, stores);
    OverlayIsImage(home, slots);
    ImageUnique(Replay(home, TableWrites(slots)), Replay(home, WritesOf(stores)), home, LastStores(stores));
  }
}
