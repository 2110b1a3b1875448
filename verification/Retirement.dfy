/** Taking a hash alias table home: slot by slot in the background, or at the close
    of a wrap with a lookaside list of the slots that were used. */
module Retirement {
  import opened Memory
  import opened HashTable
  import opened Variables

  function SlotWrite(s: Slot): Write {
    VarWrite(s.key, Datum(s.value, s.size))
  }

  /** The loop asserts that no slot in use is two bytes wide; for more than eight bytes
      the value would be a pointer. */
  predicate Storable(size: nat) {
    size <= 8 && size != 2
  }

  /** The writes of the slots in use, in slot order. */
  ghost function TableWrites(slots: seq<Slot>): seq<Write> {
    if slots == [] then []
    else
      var s := slots[|slots| - 1];
      TableWrites(slots[..|slots| - 1]) + if s.key != 0 then [SlotWrite(s)] else []
  }

  /** Every slot in use can be stored home. */
  ghost predicate SlotsFit(slots: seq<Slot>, size: nat) {
    forall i | 0 <= i < |slots| && slots[i].key != 0 :: Padded(SlotWrite(slots[i]), size)
  }

  lemma {:induction false} TableWritesFit(slots: seq<Slot>, size: nat)
    requires SlotsFit(slots, size)
    ensures AllPadded(TableWrites(slots), size)
  {
    if slots != [] {
      TableWritesFit(slots[..|slots| - 1], size);
    }
  }

  /** Each of them is the write of a slot in use. */
  lemma {:induction false} SlotOfWrite(slots: seq<Slot>, w: Write) returns (j: nat)
    requires w in TableWrites(slots)
    ensures j < |slots| && slots[j].key != 0 && w == SlotWrite(slots[j])
  {
    j := |slots| - 1;
    if !(slots[j].key != 0 && w == SlotWrite(slots[j])) {
      j := SlotOfWrite(slots[..j], w);
    }
  }

  /** No slot in use is left out. */
  lemma {:induction false} WriteOfSlot(slots: seq<Slot>, j: nat)
    requires j < |slots| && slots[j].key != 0
    ensures SlotWrite(slots[j]) in TableWrites(slots)
  {
    if j < |slots| - 1 {
      WriteOfSlot(slots[..|slots| - 1], j);
    }
  }

  /** Home memory overlaid by a table whose variables do not overlap. */
  lemma {:induction false} OverlayIsImage(home: seq<Byte>, slots: seq<Slot>)
    requires DistinctKeys(slots) && Disjoint(MapOf(slots)) && AllWithin(TableWrites(slots), |home|)
    ensures ImageOf(Replay(home, TableWrites(slots)), home, MapOf(slots))
  {
    var ws, m := TableWrites(slots), MapOf(slots);
    forall i | 0 <= i < |ws| ensures ws[i].dest in m && ws[i] == VarWrite(ws[i].dest, m[ws[i].dest]) {
      var j := SlotOfWrite(slots, ws[i]);
      SlotInMap(slots, j);
    }
    forall k | k in m ensures exists i :: 0 <= i < |ws| && ws[i].dest == k {
      var j :| 0 <= j < |slots| && slots[j].key != 0 && slots[j].key == k;
      WriteOfSlot(slots, j);
      var i :| 0 <= i < |ws| && ws[i] == SlotWrite(slots[j]);
      assert ws[i].dest == k;
    }
    WritesMakeImage(home, ws, m);
  }

  /** The retirement loop: store each slot home, then free it. */
  method RestoreAllElements(t: LFHT, home: array<Byte>)
    requires t.Valid() && (home as object) !in {t.entries as object, t.bloom.words as object} && SlotsFit(t.entries[..], home.Length)
    requires forall i | 0 <= i < t.entries.Length && t.entries[i].key != 0 :: Storable(t.entries[i].size)
    modifies t`numItems, t.entries, t.bloom, t.bloom.words, home
    ensures t.Valid() && t.Contents() == map[] && t.numItems == 0
    ensures AllWithin(TableWrites(old(t.entries[..])), home.Length)
    ensures home[..] == Replay(old(home[..]), TableWrites(old(t.entries[..])))
  {
    hide TableWrites, Replay, SlotsFit;
    RestoreElements(t, home);
    t.numItems := 0;
    t.bloom.ClearBloom();
    AllFree(t.entries[..]);
  }

  method RestoreElements(t: LFHT, home: array<Byte>)
    requires (home as object) != t.entries as object && SlotsFit(t.entries[..], home.Length)
    requires forall i | 0 <= i < t.entries.Length && t.entries[i].key != 0 :: Storable(t.entries[i].size)
    modifies t.entries, home
    ensures forall i | 0 <= i < t.entries.Length :: t.entries[i].key == 0
    ensures AllWithin(TableWrites(old(t.entries[..])), home.Length)
    ensures home[..] == Replay(old(home[..]), TableWrites(old(t.entries[..])))
  {
    hide TableWrites, Replay, Storable;
    ghost var slots, before := t.entries[..], home[..];
    FitPrefixes(slots, home.Length);
    NoSlotYet(before, slots);
    for i := 0 to t.entries.Length
      invariant forall j | 0 <= j < i :: t.entries[j].key == 0
      invariant forall j | i <= j < t.entries.Length :: t.entries[j] == slots[j]
      invariant home[..] == Replay(before, TableWrites(slots[..i]))
    {
      OneMoreSlot(before, slots, i);
      RestoreElement(t, home, i);
    }
    assert slots[..t.entries.Length] == slots;
  }

  lemma {:induction false} NoSlotYet(home: seq<Byte>, slots: seq<Slot>)
    ensures AllWithin(TableWrites(slots[..0]), |home|) && Replay(home, TableWrites(slots[..0])) == home
  {
  }

  /** One slot's turn. */
  method RestoreElement(t: LFHT, home: array<Byte>, i: nat)
    requires i < t.entries.Length && (home as object) != t.entries as object
    requires t.entries[i].key != 0 ==> Padded(SlotWrite(t.entries[i]), home.Length) && Storable(t.entries[i].size)
    modifies t.entries, home
    ensures t.entries[..] == old(t.entries[..])[i := old(t.entries[i]).(key := 0)]
    ensures home[..] == if old(t.entries[i].key) == 0 then old(home[..])
                        else Poke(old(home[..]), old(t.entries[i].key), LE(old(t.entries[i].size), old(t.entries[i].value)))
  {
    var s := t.entries[i];
    if s.key != 0 {
      NtStore(home, s.key, LE(s.size, s.value));
      t.entries[i] := s.(key := 0);
    }
  }

  lemma {:induction false} FitPrefixes(slots: seq<Slot>, size: nat)
    requires SlotsFit(slots, size)
    ensures forall i | 0 <= i <= |slots| :: AllWithin(TableWrites(slots[..i]), size)
    ensures AllWithin(TableWrites(slots), size)
  {
    forall i | 0 <= i <= |slots| ensures AllWithin(TableWrites(slots[..i]), size) {
      TableWritesFit(slots[..i], size);
      PaddedWithin(TableWrites(slots[..i]), size);
    }
    assert slots[..|slots|] == slots;
  }

  lemma {:induction false} OneMoreSlot(home: seq<Byte>, slots: seq<Slot>, i: nat)
    requires i < |slots| && AllWithin(TableWrites(slots[..i]), |home|) && AllWithin(TableWrites(slots[..i + 1]), |home|)
    requires slots[i].key != 0 ==> Within(SlotWrite(slots[i]), |home|)
    ensures Replay(home, TableWrites(slots[..i + 1])) ==
            if slots[i].key == 0 then Replay(home, TableWrites(slots[..i]))
            else Poke(Replay(home, TableWrites(slots[..i])), slots[i].key, LE(slots[i].size, slots[i].value))
  {
    assert slots[..i + 1][..i] == slots[..i];
    var ws := TableWrites(slots[..i]);
    assert ws + [] == ws;
    if slots[i].key != 0 {
      assert (ws + [SlotWrite(slots[i])])[..|ws|] == ws;
    }
  }

  lemma {:induction false} AllFree(slots: seq<Slot>)
    requires forall j | 0 <= j < |slots| :: slots[j].key == 0
    ensures DistinctKeys(slots) && MapOf(slots) == map[] && (slots != [] ==> HasFree(slots))
  {
    if slots != [] {
      assert slots[0].key == 0;
    }
  }
}
