/** Any number of wraps one after the other: what one of them has used of the log and of
    the alias table is there for the next. */
module WrapRuns {
  import opened Memory
  import opened WrapLog
  import opened LogAliasTable
  import opened WrapSoftware

  /** A list of writes that one wrap may make: there is room for it in an empty log and in an
      empty table, whatever bytes home memory has. */
  ghost predicate WrapFits(ws: seq<Write>, length: nat, parity: nat, size: nat) {
    && Appendable(ZeroBytes(length), ws, parity) && RoomChecked(ZeroBytes(length), ws, parity, size)
    && AllPadded(ws, length)
    && |ws| <= MAX_LAT_ENTRIES && DataBytes(ws) < MAX_LAT_DATA
  }

  /** How long the entries are does not depend on what is in home memory. */
  lemma {:induction false} SameLength(home: seq<Byte>, other: seq<Byte>, ws: seq<Write>, parity: nat)
    requires |home| == |other| && Appendable(other, ws, parity)
    ensures Appendable(home, ws, parity) && |Body(home, ws, parity)| == |Body(other, ws, parity)|
  {
    forall i | 0 <= i < |ws| ensures CanAppend(home, ws[i], parity) {
      assert CanAppend(other, ws[i], parity);
    }
    if ws != [] {
      SameLength(home, other, ws[1..], parity);
      EntryLength(home, ws[0], parity);
      EntryLength(other, ws[0], parity);
    }
  }

  /** When its turn comes every write of such a list is accepted. */
  lemma {:induction false} TurnFits(home: seq<Byte>, ws: seq<Write>, parity: nat, size: nat, i: nat)
    requires WrapFits(ws, |home|, parity, size) && i < |ws|
    ensures Appendable(home, ws[..i], parity) && RoomOnLog(home, ws[..i], parity, ws[i], size) && RoomFor(ws[..i], ws[i])
    ensures CanAppend(home, ws[i], parity) && Padded(ws[i], |home|)
  {
    hide Body, RoomFor, DataBytes;
    var zero := ZeroBytes(|home|);
    assert CanAppend(zero, ws[i], parity);
    assert RoomOnLog(zero, ws[..i], parity, ws[i], size);
    SameLength(home, zero, ws[..i], parity);
    RoomForAll(ws, i);
  }

  /** The writes of a wrap that has just been opened. */
  method AllWrites(system: WrapImplSoftware, ws: seq<Write>, token: nat)
    requires system.Valid() && system.numOpen > 0 && system.Pending() == [] && token == system.wrapToken
    requires WrapFits(ws, system.home.Length, system.log.flagEntry % 2, system.log.sizeOfLog)
    modifies system.log`currentLocation, system.log`stored, system.log.log
    modifies system.table`lastIndex, system.table`lastData, system.table.entries, system.table.data, system.table.bloom, system.table.bloom.words
    ensures system.Valid() && system.Pending() == ws
  {
    hide LE, Body, HasEntries, Replay, Poke, RoomFor, DataBytes, WrapFits, WritesOf, TableOk, CanAppend, Padded, RoomOnLog, Appendable;
    for i := 0 to |ws|
      invariant system.Valid() && system.Pending() == ws[..i]
    {
      TurnFits(system.home[..], ws, system.log.flagEntry % 2, system.log.sizeOfLog, i);
      assert ws[i] == Write(ws[i].dest, ws[i].data) && ws[..i + 1] == ws[..i] + [ws[i]];
      system.WrapImplWrite(ws[i].dest, ws[i].data, token);
    }
    assert ws[..|ws|] == ws;
  }

  /** One wrap: open, all its writes, close. Whatever earlier wraps have left in the log and in
      the table, the same lists of writes are accepted. */
  method OneWrap(system: WrapImplSoftware, ws: seq<Write>)
    requires system.Valid() && system.numOpen == 0 && system.wo + 1 < 0x8000_0000
    requires WrapFits(ws, system.home.Length, 1 - system.log.flagEntry % 2, system.log.sizeOfLog)
    modifies system, system.log, system.log.log, system.table, system.table.entries, system.table.data, system.table.bloom, system.table.bloom.words, system.home
    ensures system.Valid() && system.numOpen == 0 && system.wo == old(system.wo) + 1
    ensures system.log.flagEntry % 2 == 1 - old(system.log.flagEntry) % 2 && system.log.sizeOfLog == old(system.log.sizeOfLog)
    ensures AllWithin(ws, system.home.Length) && system.home[..] == Replay(old(system.home[..]), ws)
    ensures system.log.Closed(old(system.home[..]), ws)
  {
    hide LE, Body, HasEntries, Replay, Poke, WrapFits, WritesOf, TableOk, IsWrapLogComplete, Singles, OpenStores, LogStores, DataBytes, Appendable;
    var token := system.WrapImplOpen();
    AllWrites(system, ws, token);
    assert system.home[..] == old(system.home[..]);
    system.WrapImplClose(token);
  }

  ghost function AllOf(wraps: seq<seq<Write>>): seq<Write> {
    if wraps == [] then [] else AllOf(wraps[..|wraps| - 1]) + wraps[|wraps| - 1]
  }

  /** Each of these wraps fits, with the parity that it will have. */
  ghost predicate AllFit(wraps: seq<seq<Write>>, length: nat, parity: nat, size: nat) {
    forall i | 0 <= i < |wraps| :: WrapFits(wraps[i], length, (parity + i) % 2, size)
  }

  /** A run of wraps on one system: as long as each of them fits on its own, every one is carried
      out, and home memory ends with all their writes in order. */
  method RunWraps(system: WrapImplSoftware, wraps: seq<seq<Write>>)
    requires system.Valid() && system.numOpen == 0 && system.wo + |wraps| < 0x8000_0000
    requires AllFit(wraps, system.home.Length, 1 - system.log.flagEntry % 2, system.log.sizeOfLog)
    modifies system, system.log, system.log.log, system.table, system.table.entries, system.table.data, system.table.bloom, system.table.bloom.words, system.home
    ensures system.Valid() && system.numOpen == 0
    ensures AllWithin(AllOf(wraps), system.home.Length) && system.home[..] == Replay(old(system.home[..]), AllOf(wraps))
  {
    hide WrapFits, Replay, TableOk, WritesOf, LE, AllOf;
    ghost var before, parity, size := system.home[..], 1 - system.log.flagEntry % 2, system.log.sizeOfLog;
    NoWrapsYet(before, wraps);
    for i := 0 to |wraps|
      invariant system.Valid() && system.numOpen == 0 && system.wo == old(system.wo) + i
      invariant 1 - system.log.flagEntry % 2 == (parity + i) % 2 && system.log.sizeOfLog == size
      invariant AllWithin(AllOf(wraps[..i]), |before|) && system.home[..] == Replay(before, AllOf(wraps[..i]))
    {
      assert WrapFits(wraps[i], system.home.Length, (parity + i) % 2, size);
      OneWrap(system, wraps[i]);
      OneWrapMore(before, wraps, i);
    }
    assert wraps[..|wraps|] == wraps;
  }

  lemma {:induction false} NoWrapsYet(home: seq<Byte>, wraps: seq<seq<Write>>)
    ensures AllWithin(AllOf(wraps[..0]), |home|) && Replay(home, AllOf(wraps[..0])) == home
  {
  }

  lemma {:induction false} OneWrapMore(home: seq<Byte>, wraps: seq<seq<Write>>, i: nat)
    requires i < |wraps| && AllWithin(AllOf(wraps[..i]), |home|) && AllWithin(wraps[i], |home|)
    ensures AllWithin(AllOf(wraps[..i + 1]), |home|)
    ensures Replay(home, AllOf(wraps[..i + 1])) == Replay(Replay(home, AllOf(wraps[..i])), wraps[i])
  {
    assert wraps[..i + 1][..i] == wraps[..i];
    ReplayAppend(home, AllOf(wraps[..i]), wraps[i]);
  }
}
