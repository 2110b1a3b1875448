/** Wraps as a program uses them: nested opens and closes around writes that are
    logged and kept in the alias table until the outermost close. */
module WrapSoftware {
  import opened Memory
  import opened Bloom
  import opened WrapLog
  import opened LogAliasTable

  class WrapImplSoftware {
    const home: array<Byte>
    const log: WrapLogger
    const table: LAT
    // The last token given out, the current one, and how many opens are pending.
    var wo: nat
    var wrapToken: nat
    var numOpen: nat

    /** The parts do not share memory. */
    ghost predicate Apart() {
      && log.log != home && home !in table.Own() && log.log !in table.Own()
    }

    ghost predicate Valid()
      reads this, log, log.log, table, table.entries, table.data, table.bloom, table.bloom.words, home
    {
      && Apart() && log.Valid() && table.Shaped() && wo < 0x8000_0000
      && (numOpen > 0 ==>
            && table.Valid() && log.flagEntry < 2 && log.wrapId == wrapToken && wrapToken == wo
            && AllPadded(table.Writes(), home.Length)
            && log.Holds(home[..], table.Writes()) && table.Exact() && table.Packed())
    }

    /** The writes of the open wrap. */
    ghost function Pending(): seq<Write>
      requires Valid()
      reads this, log, log.log, table, table.entries, table.data, table.bloom, table.bloom.words, home
    {
      if numOpen > 0 then table.Writes() else []
    }

    constructor (memory: array<Byte>, logger: WrapLogger, delay: bool)
      requires logger.Valid() && logger.log != memory
      ensures Valid() && home == memory && log == logger && numOpen == 0 && wrapToken == 0
      ensures table.delayWriteBack == delay && wo == 1 && fresh({table} + table.Own())
    {
      home, log := memory, logger;
      table := new LAT(delay);
      wo, wrapToken, numOpen := 1, 0, 0;
    }

    /** Only the outermost open starts anything. */
    method WrapImplOpen() returns (token: nat)
      requires Valid() && wo + 1 < 0x8000_0000
      modifies this, log, log.log, table`lastIndex, table`lastData, table.bloom, table.bloom.words
      ensures Valid() && numOpen == old(numOpen) + 1 && token == wrapToken
      ensures Pending() == old(Pending()) && log.sizeOfLog == old(log.sizeOfLog)
      ensures wo == if numOpen == 1 then old(wo) + 1 else old(wo)
      ensures numOpen == 1 ==>
                && log.flagEntry == 1 - old(log.flagEntry) % 2
                && log.log[..] == Poke(Poke(old(log.log[..]), FLAG_AT, LE(4, log.flagEntry)), WRAP_ID_AT, LE(4, wo))
    {
      if numOpen == 0 {
        wo := wo + 1;
        wrapToken := wo;
        log.WrapLogOpen(wrapToken, home[..]);
        table.OnWrapOpen();
      }
      numOpen := numOpen + 1;
      token := wrapToken;
    }

    /** Log a write, then keep it in the table; home memory stays as it is. */
    method WrapImplWrite(ptr: nat, src: seq<Byte>, w: nat)
      requires Valid() && numOpen > 0 && w == wrapToken
      requires RoomOnLog(home[..], Pending(), log.Parity(), Write(ptr, src), log.sizeOfLog) && RoomFor(Pending(), Write(ptr, src))
      requires CanAppend(home[..], Write(ptr, src), log.flagEntry % 2) && Padded(Write(ptr, src), home.Length)
      modifies log`currentLocation, log`stored, log.log, table`lastIndex, table`lastData, table.entries, table.data, table.bloom, table.bloom.words
      ensures Valid() && Pending() == old(Pending()) + [Write(ptr, src)]
    {
      hide LE, Body, EntryBytes, TableOk, Marked, DataBytes, WritesOf;
      log.AddWrapLogEntry(home, ptr, src, w, table.Writes());
      table.WriteTo(ptr, src);
    }

    /** Stores of one, two, four or eight bytes. */
    method WrapImplStore(ptr: nat, value: nat, size: nat, w: nat)
      requires Valid() && numOpen > 0 && w == wrapToken && size <= 8
      requires RoomOnLog(home[..], Pending(), log.Parity(), Write(ptr, LE(8, value)[..size]), log.sizeOfLog)
      requires RoomFor(Pending(), Write(ptr, LE(8, value)[..size]))
      requires CanAppend(home[..], Write(ptr, LE(8, value)[..size]), log.flagEntry % 2)
      requires Padded(Write(ptr, LE(8, value)[..size]), home.Length)
      modifies log`currentLocation, log`stored, log.log, table`lastIndex, table.entries, table.bloom, table.bloom.words
      ensures Valid() && Pending() == old(Pending()) + [Write(ptr, LE(8, value)[..size])]
      ensures forall i | 0 <= i < size :: Pow256(i) > 0 && Pending()[|old(Pending())|].data[i] == value / Pow256(i) % 256
    {
      hide LE, Body, EntryBytes, TableOk, Marked, DataBytes, Pow256, WritesOf, EntryHead;
      log.AddWrapLogEntry(home, ptr, LE(8, value)[..size], w, table.Writes());
      table.Store(ptr, value, size);
    }

    /** A read inside a wrap sees home memory with the wrap's writes on it if it meets the
        mark of one, and home memory alone otherwise. */
    method WrapImplRead(buf: array<Byte>, src: nat, size: nat)
      requires Valid() && numOpen > 0 && src + size <= home.Length && size <= buf.Length
      requires buf != home && buf != log.log && buf !in table.Own()
      modifies buf
      ensures AllWithin(Pending(), home.Length) && buf[..size] == ReadValue(home[..], Pending(), src, size)
      ensures Met(Pending(), src, size) || !Touched(Pending(), src, size) ==> buf[..size] == Replay(home[..], Pending())[src..src + size]
    {
      hide Met, Touched, ReadValue, Replay, TableOk;
      PaddedWithin(table.Writes(), home.Length);
      ReadsOwnWrites(home[..], table.Writes(), src, size);
      table.ReadInto(home, buf, src, size);
    }

    /** Only the outermost close ends the wrap: the log is complete before anything
        is copied home, and then all the writes are. */
    method WrapImplClose(w: nat)
      requires Valid() && wrapToken != 0 && numOpen > 0
      modifies this`numOpen, this`wrapToken, log`flagEntry, log`stored, log.log, table`lastIndex, table`flushed, table.entries, home
      ensures Valid() && numOpen == old(numOpen) - 1
      ensures numOpen > 0 ==> home[..] == old(home[..]) && log.log[..] == old(log.log[..]) && Pending() == old(Pending())
      ensures numOpen == 0 ==>
                var ws := old(Pending());
                && AllWithin(ws, home.Length) && home[..] == Replay(old(home[..]), ws)
                && log.Closed(old(home[..]), ws) && log.flagEntry == old(log.flagEntry) + 2
                && log.stored == LogStores(old(home[..]), ws, log.Parity(), old(wrapToken))
                && table.flushed == if table.delayWriteBack then [] else ws
    {
      hide LE, Body, HasEntries, TableOk, Replay, Singles, LogStores, Marked;
      numOpen := numOpen - 1;
      if numOpen == 0 {
        EndWrap();
      }
    }

    method EndWrap()
      requires Apart() && log.Valid() && table.Valid() && log.Holds(home[..], table.Writes())
      requires AllPadded(table.Writes(), home.Length)
      modifies this`wrapToken, log`flagEntry, log`stored, log.log, table`lastIndex, table`flushed, table.entries, home
      ensures log.Valid() && table.Valid() && table.Writes() == [] && wrapToken == 0
      ensures log.flagEntry == old(log.flagEntry) + 2
      ensures var before, ws := old(home[..]), old(table.Writes());
              && AllWithin(ws, home.Length) && home[..] == Replay(before, ws)
              && log.Closed(before, ws)
              && log.stored == LogStores(before, ws, log.Parity(), log.wrapId)
              && table.flushed == if table.delayWriteBack then [] else ws
    {
      hide LE, Body, HasEntries, TableOk, Replay, Singles;
      ghost var before, ws := home[..], table.Writes();
      PaddedWithin(ws, home.Length);
      log.WrapLogClose(before, ws);
      assert table.Valid() && table.Writes() == ws && home[..] == before;
      label closed:
      table.OnWrapClose(home);
      assert log.Closed(before, ws) == old@closed(log.Closed(before, ws));
      wrapToken := 0;
    }
  }
}
