/** A wrap whose writes are left to the cache, and the next wrap in the same log: what
    a crash then finds. */
module Reopening {
  import opened Wrappers
  import opened Memory
  import opened WrapLog
  import opened LogAliasTable
  import opened WrapSoftware
  import opened CrashAtomicity

  /** Recovery from a closed log finds the writes. */
  lemma {:induction false} ClosedIsRecovered(log: seq<Byte>, flagEntry: nat, home: seq<Byte>, ws: seq<Write>)
    requires |log| >= ENTRIES_AT && flagEntry < 4 && log[FLAG_AT..FLAG_AT + 4] == LE(4, flagEntry)
    requires IsWrapLogComplete(log) && AllWithin(ws, |home|) && forall i | 0 <= i < |ws| :: Decodable(ws[i])
    requires Appendable(home, ws, flagEntry % 2) && HasEntries(log, ENTRIES_AT, flagEntry % 2, home, ws)
    ensures Recover(Persistent(log, home)) == Some(Replay(home, ws))
  {
    hide HasEntries, LE, UnLE, Decode, Replay;
    Widths();
    UnLERoundTrip(4, flagEntry);
    assert flagEntry == flagEntry % 2 + 2;
    ClosedLogReadsBack(log, home, ws, flagEntry % 2);
  }

  lemma {:induction false} OpenIsEmpty(log: seq<Byte>, flagEntry: nat, home: seq<Byte>)
    requires |log| >= ENTRIES_AT && flagEntry < 2 && log[FLAG_AT..FLAG_AT + 4] == LE(4, flagEntry)
    ensures Recover(Persistent(log, home)) == Some(home)
  {
    Invalidated(log, flagEntry);
  }

  lemma {:induction false} ByteSeen(home: seq<Byte>)
    requires |home| == 16
    ensures var ws := [Write(4, [7])]; AllWithin(ws, 16) && Replay(home, ws) == home[4 := 7]
  {
    var ws := [Write(4, [7])];
    assert ws[..0] == [] && Within(ws[0], 16);
  }

  /** There is all the room in the log and in the table. */
  lemma {:induction false} NothingYet(system: WrapImplSoftware)
    requires system.Valid() && system.numOpen > 0 && system.Pending() == []
    ensures system.log.currentLocation == ENTRIES_AT && system.table.lastIndex == 0
    ensures system.log.flagEntry < 2 && system.wrapToken == system.wo
  {
    hide LE, Singles, OpenStores;
  }

  /** A wrap of one byte, from open to close. */
  method OneByte(system: WrapImplSoftware)
    requires system.Valid() && system.numOpen == 0 && system.wo == 1 && system.log.sizeOfLog >= 64 && system.table.delayWriteBack
    requires system.home.Length == 16
    modifies system, system.log, system.log.log, system.table, system.table.entries, system.table.data, system.table.bloom, system.table.bloom.words, system.home
    ensures system.Valid() && system.numOpen == 0 && system.wo == 2 && system.table.flushed == []
    ensures var ws := [Write(4, [7])];
            && AllWithin(ws, 16) && system.home[..] == Replay(old(system.home[..]), ws)
            && system.log.Closed(old(system.home[..]), ws)
  {
    hide Replay, Poke, LE, Body, HasEntries, LogStores, OpenStores, Singles, WritesOf, TableOk, Marked, IsWrapLogComplete;
    var token := system.WrapImplOpen();
    NothingYet(system);
    system.WrapImplWrite(4, [7], token);
    assert system.Pending() == [Write(4, [7])] && system.home[..] == old(system.home[..]);
    system.WrapImplClose(token);
  }

  /** The wrap is closed and its byte is nowhere but in the log and the cache. */
  ghost predicate ClosedUnflushed(system: WrapImplSoftware)
    reads system, system.log, system.log.log, system.table, system.table.entries, system.table.data, system.table.bloom, system.table.bloom.words, system.home
  {
    && system.Valid() && system.numOpen == 0 && system.wo == 2 && system.table.flushed == []
    && system.home[..] == ZeroBytes(16)[4 := 7]
    && Recover(Persistent(system.log.log[..], ZeroBytes(16))) == Some(system.home[..])
  }

  /** A new system that has made this one wrap, with write-back left to the cache. */
  method Closed(home: array<Byte>, memory: array<Byte>, size: nat) returns (system: WrapImplSoftware)
    requires home.Length == 16 && home[..] == ZeroBytes(16) && memory != home
    requires 64 <= size < 0x8000_0000 && size + 16 <= memory.Length
    modifies home, memory
    ensures system.home == home && system.log.log == memory && system.table.delayWriteBack && ClosedUnflushed(system)
    ensures fresh({system, system.log, system.table} + system.table.Own())
  {
    hide Replay, Poke, LE, Body, HasEntries, Decode, Recover, IsWrapLogComplete, TableOk;
    var log := new WrapLogger(size, memory);
    system := new WrapImplSoftware(home, log, true);
    ghost var before, ws := home[..], [Write(4, [7])];
    ByteSeen(before);
    OneByte(system);
    ClosedIsRecovered(memory[..], log.flagEntry, before, ws);
  }

  /** Open, one byte, close, open again. While the first log is closed recovery finds the byte;
      once it is open again recovery finds nothing, and the byte has never been written back. */
  method OpenedTooEarly(home: array<Byte>, memory: array<Byte>, size: nat) returns (system: WrapImplSoftware, ghost closed: seq<Byte>)
    requires home.Length == 16 && home[..] == ZeroBytes(16) && memory != home
    requires 64 <= size < 0x8000_0000 && size + 16 <= memory.Length
    modifies home, memory
    ensures system.home == home && system.log.log == memory && system.Valid() && system.numOpen == 1
    ensures system.table.delayWriteBack && system.table.flushed == []
    ensures home[..] == ZeroBytes(16)[4 := 7] && system.Pending() == []
    ensures |closed| == memory.Length
            && memory[..] == Poke(Poke(closed, FLAG_AT, LE(4, system.log.flagEntry)), WRAP_ID_AT, LE(4, system.wrapToken))
    ensures Recover(Persistent(closed, ZeroBytes(16))) == Some(home[..])
    ensures Recover(Persistent(memory[..], ZeroBytes(16))) == Some(ZeroBytes(16)) != Some(home[..])
  {
    hide Replay, Poke, LE, Body, Decode, Recover, IsWrapLogComplete, TableOk;
    system := Closed(home, memory, size);
    closed := memory[..];
    var token := system.WrapImplOpen();
    OpenIsEmpty(memory[..], system.log.flagEntry, ZeroBytes(16));
    assert ZeroBytes(16)[4] != home[..][4];
  }
}
