/** The redo log of a wrap: a byte buffer that is used again and again, with a
    parity bit that tells this wrap's entries from what an earlier one left. */
module WrapLog {
  import opened Wrappers
  import opened Memory

  // Layout: size at 0, continuation pointer at 4, wrap id at 12, flag at 16, entries from 20.
  const WRAP_ID_AT := 12
  const FLAG_AT := 16
  const ENTRIES_AT := 20

  /** The mask in front of an entry whose size is not four. */
  function Mask(size: nat, parity: nat): nat {
    size * 4 + 2 + parity
  }

  ghost predicate Loggable(w: Write) {
    |w.data| < 0x2000_0000 && w.dest < 0x1_0000_0000_0000_0000
  }

  /** The sizes fit the mask, and the eight bytes read for a four-byte entry are there. */
  ghost predicate CanAppend(home: seq<Byte>, w: Write, parity: nat) {
    Loggable(w) && (|w.data| == 4 ==> w.dest + parity + 8 <= |home|)
  }

  /** An entry as it is appended. A four-byte entry carries, in place of mask and
      pointer, eight bytes that are read at the pointer's own value plus parity. */
  ghost function EntryBytes(home: seq<Byte>, w: Write, parity: nat): seq<Byte>
    requires CanAppend(home, w, parity)
  {
    EntryHead(home, w, parity) + w.data
  }

  ghost function EntryHead(home: seq<Byte>, w: Write, parity: nat): seq<Byte>
    requires CanAppend(home, w, parity)
  {
    if |w.data| == 4 then home[w.dest + parity..w.dest + parity + 8] else LE(4, Mask(|w.data|, parity)) + LE(8, w.dest)
  }

  ghost predicate Appendable(home: seq<Byte>, ws: seq<Write>, parity: nat) {
    forall i | 0 <= i < |ws| :: CanAppend(home, ws[i], parity)
  }

  ghost function Body(home: seq<Byte>, ws: seq<Write>, parity: nat): seq<Byte>
    requires Appendable(home, ws, parity)
  {
    if ws == [] then [] else EntryBytes(home, ws[0], parity) + Body(home, ws[1..], parity)
  }

  function Signed(v: nat): int {
    if v < 0x8000_0000 then v else v - 0x1_0000_0000
  }

  function IntAt(log: seq<Byte>, at: nat): int
    requires at + 4 <= |log|
  {
    Signed(UnLE(log[at..at + 4]))
  }

  /** The decoder: entries up to the first mask of the other parity or the first
      null destination. None if it would run out of the buffer. */
  function Decode(log: seq<Byte>, at: nat, parity: nat): Option<seq<Write>>
    decreases |log| - at
  {
    if at + 4 > |log| then None
    else
      var i := IntAt(log, at);
      if i % 2 != parity then Some([])
      else if at + 12 > |log| then None
      else
        var dest := UnLE(log[at + 4..at + 12]);
        if dest == 0 then Some([])
        else
          var size := i / 4;
          if size < 0 || at + 12 + size > |log| then None
          else
            var rest := Decode(log, at + 12 + size, parity);
            if rest.None? then None else Some([Write(dest, log[at + 12..at + 12 + size])] + rest.value)
  }

  function ZeroBytes(n: nat): seq<Byte> {
    seq(n, _ => 0)
  }

  /** An entry that the decoder can read back. */
  ghost predicate Decodable(w: Write) {
    |w.data| != 4 && w.dest != 0
  }

  lemma {:induction false} HeadOfEntry(w: Write, parity: nat, home: seq<Byte>)
    requires Loggable(w) && |w.data| != 4 && parity < 2
    ensures var e := EntryBytes(home, w, parity);
            && |e| == 12 + |w.data|
            && Signed(UnLE(e[..4])) == Mask(|w.data|, parity)
            && UnLE(e[4..12]) == w.dest
            && e[12..] == w.data
  {
    Widths();
    var e := EntryBytes(home, w, parity);
    assert e[..4] == LE(4, Mask(|w.data|, parity));
    assert e[4..12] == LE(8, w.dest);
    UnLERoundTrip(4, Mask(|w.data|, parity));
    UnLERoundTrip(8, w.dest);
  }

  /** The two forms of an entry, byte by byte. The mask has the parity in bit 0, a one in bit 1 and
      the size above; a four-byte entry has what home memory holds behind its destination instead. */
  lemma {:induction false} EntryFormat(home: seq<Byte>, w: Write, parity: nat)
    requires CanAppend(home, w, parity) && parity < 2
    ensures var e, n := EntryBytes(home, w, parity), |w.data|;
            if n == 4 then |e| == 12 && e[..8] == home[w.dest + parity..w.dest + parity + 8] && e[8..] == w.data
            else
              && |e| == 12 + n && UnLE(e[4..12]) == w.dest && e[12..] == w.data
              && UnLE(e[..4]) % 2 == parity && UnLE(e[..4]) / 2 % 2 == 1 && UnLE(e[..4]) / 4 == n
  {
    hide LE, UnLE;
    if |w.data| != 4 {
      HeadOfEntry(w, parity, home);
      Widths();
      UnLERoundTrip(4, Mask(|w.data|, parity));
      assert EntryBytes(home, w, parity)[..4] == LE(4, Mask(|w.data|, parity));
    }
  }

  lemma {:induction false} ZeroNumber(n: nat)
    ensures UnLE(ZeroBytes(n)) == 0
  {
    if n > 0 {
      assert ZeroBytes(n)[1..] == ZeroBytes(n - 1);
      ZeroNumber(n - 1);
    }
  }

  lemma {:induction false} Subslice<T>(s: seq<T>, at: nat, t: seq<T>, i: nat, j: nat)
    requires i <= j <= |t| && at + |t| <= |s| && s[at..at + |t|] == t
    ensures s[at + i..at + j] == t[i..j]
  {
    forall k | i <= k < j ensures s[at + k] == t[k] {
      assert s[at..at + |t|][k] == t[k];
    }
  }

  lemma {:induction false} Halves<T>(s: seq<T>, at: nat, a: seq<T>, b: seq<T>)
    requires at + |a + b| <= |s| && s[at..at + |a + b|] == a + b
    ensures s[at..at + |a|] == a && s[at + |a|..at + |a| + |b|] == b
  {
    Subslice(s, at, a + b, 0, |a|);
    Subslice(s, at, a + b, |a|, |a + b|);
    assert (a + b)[0..|a|] == a && (a + b)[|a|..|a + b|] == b;
  }

  lemma {:induction false} Assoc<T>(a: seq<T>, b: seq<T>, c: seq<T>)
    ensures a + (b + c) == (a + b) + c
  {
  }

  /** The decoder stops at the terminator, whichever parity is current. */
  lemma {:induction false} DecodeTerminator(log: seq<Byte>, at: nat, parity: nat)
    requires at + 16 <= |log| && log[at..at + 16] == ZeroBytes(16) && parity < 2
    ensures Decode(log, at, parity) == Some([])
  {
    Subslice(log, at, ZeroBytes(16), 0, 4);
    Subslice(log, at, ZeroBytes(16), 4, 12);
    assert ZeroBytes(16)[0..4] == ZeroBytes(4) && ZeroBytes(16)[4..12] == ZeroBytes(8);
    ZeroNumber(4);
    ZeroNumber(8);
  }

  lemma {:induction false} MaskFields(size: nat, parity: nat)
    requires parity < 2
    ensures Mask(size, parity) % 2 == parity && Mask(size, parity) / 4 == size
  {
  }

  /** The decoder at an entry whose fields are these. */
  lemma {:induction false} DecodeFields(log: seq<Byte>, at: nat, parity: nat, w: Write)
    requires parity < 2 && at + 12 + |w.data| <= |log|
    requires IntAt(log, at) == Mask(|w.data|, parity) && UnLE(log[at + 4..at + 12]) == w.dest
    requires log[at + 12..at + 12 + |w.data|] == w.data
    ensures w.dest == 0 ==> Decode(log, at, parity) == Some([])
    ensures w.dest != 0 ==>
              var rest := Decode(log, at + 12 + |w.data|, parity);
              Decode(log, at, parity) == if rest.None? then None else Some([w] + rest.value)
  {
    MaskFields(|w.data|, parity);
  }

  /** Decoding over one entry. */
  lemma {:induction false} DecodeEntry(log: seq<Byte>, at: nat, parity: nat, w: Write, home: seq<Byte>)
    requires Loggable(w) && |w.data| != 4 && parity < 2 && at + 12 + |w.data| <= |log|
    requires log[at..at + 12 + |w.data|] == EntryBytes(home, w, parity)
    ensures w.dest == 0 ==> Decode(log, at, parity) == Some([])
    ensures w.dest != 0 ==>
              var rest := Decode(log, at + 12 + |w.data|, parity);
              Decode(log, at, parity) == if rest.None? then None else Some([w] + rest.value)
  {
    hide Decode, LE, UnLE, EntryBytes;
    HeadOfEntry(w, parity, home);
    var e := EntryBytes(home, w, parity);
    Subslice(log, at, e, 0, 4);
    Subslice(log, at, e, 4, 12);
    Subslice(log, at, e, 12, |e|);
    assert e[0..4] == e[..4] && e[12..|e|] == e[12..];
    DecodeFields(log, at, parity, w);
  }

  /** A buffer that holds these entries from `at` on, and then the terminator. */
  ghost predicate HasEntries(log: seq<Byte>, at: nat, parity: nat, home: seq<Byte>, ws: seq<Write>)
    requires Appendable(home, ws, parity)
  {
    var body := Body(home, ws, parity) + ZeroBytes(16);
    at + |body| <= |log| && log[at..at + |body|] == body
  }

  lemma {:induction false} FirstEntry(log: seq<Byte>, at: nat, parity: nat, home: seq<Byte>, ws: seq<Write>)
    requires Appendable(home, ws, parity) && HasEntries(log, at, parity, home, ws) && ws != []
    ensures var e := EntryBytes(home, ws[0], parity);
            && |e| == 12 + |ws[0].data| - (if |ws[0].data| == 4 then 4 else 0)
            && at + |e| <= |log| && log[at..at + |e|] == e
            && HasEntries(log, at + |e|, parity, home, ws[1..])
  {
    hide EntryBytes, ZeroBytes;
    var e := EntryBytes(home, ws[0], parity);
    var body := Body(home, ws[1..], parity) + ZeroBytes(16);
    Assoc(e, Body(home, ws[1..], parity), ZeroBytes(16));
    EntryLength(home, ws[0], parity);
    Halves(log, at, e, body);
  }

  lemma {:induction false} EntryLength(home: seq<Byte>, w: Write, parity: nat)
    requires CanAppend(home, w, parity)
    ensures |EntryBytes(home, w, parity)| == |w.data| + if |w.data| == 4 then 8 else 12
  {
  }

  /** Round trip, on a buffer that may hold anything outside the entries and the terminator. */
  lemma {:induction false} DecodeBody(log: seq<Byte>, at: nat, parity: nat, home: seq<Byte>, ws: seq<Write>)
    requires parity < 2 && Appendable(home, ws, parity) && forall i | 0 <= i < |ws| :: Decodable(ws[i])
    requires HasEntries(log, at, parity, home, ws)
    ensures Decode(log, at, parity) == Some(ws)
    decreases |ws|
  {
    hide LE, UnLE, Decode, EntryBytes;
    if ws == [] {
      assert Body(home, ws, parity) + ZeroBytes(16) == ZeroBytes(16);
      DecodeTerminator(log, at, parity);
    } else {
      FirstEntry(log, at, parity, home, ws);
      DecodeEntry(log, at, parity, ws[0], home);
      DecodeBody(log, at + 12 + |ws[0].data|, parity, home, ws[1..]);
      assert [ws[0]] + ws[1..] == ws;
    }
  }

  lemma {:induction false} NumberParity(s: seq<Byte>)
    requires |s| == 4
    ensures Signed(UnLE(s)) % 2 == s[0] % 2
  {
    assert UnLE(s) == s[0] + 256 * UnLE(s[1..]);
  }

  /** The decoder does not get past an entry that it cannot read: a null
      destination, or a four-byte entry for which home memory has the other parity. */
  lemma {:induction false} DecodeStops(log: seq<Byte>, at: nat, parity: nat, home: seq<Byte>, ws: seq<Write>, j: nat)
    requires parity < 2 && Appendable(home, ws, parity) && HasEntries(log, at, parity, home, ws)
    requires j < |ws| && (forall i | 0 <= i < j :: Decodable(ws[i])) && !Decodable(ws[j])
    requires forall a | 0 <= a < |home| :: home[a] % 2 != parity
    ensures Decode(log, at, parity) == Some(ws[..j])
    decreases j
  {
    hide Body, HasEntries, LE, UnLE;
    FirstEntry(log, at, parity, home, ws);
    if j > 0 {
      DecodeEntry(log, at, parity, ws[0], home);
      DecodeStops(log, at + 12 + |ws[0].data|, parity, home, ws[1..], j - 1);
      assert [ws[0]] + ws[1..][..j - 1] == ws[..j];
    } else if |ws[0].data| == 4 {
      var e := EntryBytes(home, ws[0], parity);
      Subslice(log, at, e, 0, 4);
      NumberParity(e[0..4]);
    } else {
      DecodeEntry(log, at, parity, ws[0], home);
    }
  }

  /** Exactly when a log can be read back: whatever home memory holds, the decoder
      returns the entries appended if and only if none of them has four bytes or a
      null destination. */
  lemma {:induction false} RoundTripExactly(ws: seq<Write>, parity: nat, size: nat)
    requires parity < 2 && Appendable(ZeroBytes(size), ws, parity)
    ensures (forall home: seq<Byte>, log: seq<Byte> | Appendable(home, ws, parity) && |home| == size
               && HasEntries(log, ENTRIES_AT, parity, home, ws) :: Decode(log, ENTRIES_AT, parity) == Some(ws))
            <==> (forall i | 0 <= i < |ws| :: Decodable(ws[i]))
  {
    if forall i | 0 <= i < |ws| :: Decodable(ws[i]) {
      forall home: seq<Byte>, log: seq<Byte> | Appendable(home, ws, parity) && |home| == size && HasEntries(log, ENTRIES_AT, parity, home, ws)
        ensures Decode(log, ENTRIES_AT, parity) == Some(ws)
      {
        DecodeBody(log, ENTRIES_AT, parity, home, ws);
      }
    } else {
      var home, log := UnreadableLog(ws, parity, size);
    }
  }

  lemma {:induction false} UnreadableLog(ws: seq<Write>, parity: nat, size: nat) returns (home: seq<Byte>, log: seq<Byte>)
    requires parity < 2 && Appendable(ZeroBytes(size), ws, parity) && exists i :: 0 <= i < |ws| && !Decodable(ws[i])
    ensures |home| == size && Appendable(home, ws, parity) && HasEntries(log, ENTRIES_AT, parity, home, ws)
    ensures Decode(log, ENTRIES_AT, parity) != Some(ws)
  {
    hide Decode, LE, UnLE;
    var j := FirstBad(ws);
    home := seq(size, _ => 1 - parity);
    assert forall i | 0 <= i < |ws| :: CanAppend(ZeroBytes(size), ws[i], parity);
    var body := Body(home, ws, parity) + ZeroBytes(16);
    log := ZeroBytes(ENTRIES_AT) + body;
    assert log[ENTRIES_AT..ENTRIES_AT + |body|] == body;
    DecodeStops(log, ENTRIES_AT, parity, home, ws, j);
  }

  lemma {:induction false} FirstBad(ws: seq<Write>) returns (j: nat)
    requires exists i :: 0 <= i < |ws| && !Decodable(ws[i])
    ensures j < |ws| && !Decodable(ws[j]) && forall i | 0 <= i < j :: Decodable(ws[i])
  {
    j := 0;
    while Decodable(ws[j])
      invariant j < |ws| && forall i | 0 <= i < j :: Decodable(ws[i])
      decreases |ws| - j
    {
      j := j + 1;
    }
  }

  /** The entry at the end. */
  lemma {:induction false} BodyAppend(home: seq<Byte>, ws: seq<Write>, w: Write, parity: nat)
    requires Appendable(home, ws, parity) && CanAppend(home, w, parity)
    ensures Appendable(home, ws + [w], parity)
    ensures Body(home, ws + [w], parity) == Body(home, ws, parity) + EntryBytes(home, w, parity)
  {
    if ws == [] {
      assert ws + [w] == [w];
      assert Body(home, [w], parity) == EntryBytes(home, w, parity) + Body(home, [], parity);
    } else {
      BodyAppend(home, ws[1..], w, parity);
      assert (ws + [w])[1..] == ws[1..] + [w];
      Assoc(EntryBytes(home, ws[0], parity), Body(home, ws[1..], parity), EntryBytes(home, w, parity));
    }
  }

  /** The bytes that opening a wrap stores. */
  ghost function OpenStores(parity: nat, token: nat): seq<Write> {
    Singles(FLAG_AT, LE(4, parity)) + Singles(WRAP_ID_AT, LE(4, token))
  }

  /** All bytes that a wrap stores to the log, in order. */
  ghost function LogStores(home: seq<Byte>, ws: seq<Write>, parity: nat, token: nat): seq<Write>
    requires Appendable(home, ws, parity)
  {
    OpenStores(parity, token) + Singles(ENTRIES_AT, Body(home, ws, parity) + ZeroBytes(16)) + Singles(FLAG_AT, LE(4, parity + 2))
  }

  /** The log with the terminator behind its entries and the flag of a complete one. */
  ghost function AfterClose(log: seq<Byte>, at: nat, flag: nat): seq<Byte>
    requires at + 16 <= |log| && ENTRIES_AT <= |log|
  {
    Poke(Poke(log, at, ZeroBytes(16)), FLAG_AT, LE(4, flag))
  }

  /** What an append checks for in front of the entry `w`, on a log that has these entries. */
  ghost predicate RoomOnLog(home: seq<Byte>, ws: seq<Write>, parity: nat, w: Write, size: nat)
    requires Appendable(home, ws, parity)
  {
    ENTRIES_AT + |Body(home, ws, parity)| + 12 + |w.data| < size
  }

  class WrapLogger {
    // The log is in memory that goes on behind its last byte.
    const log: array<Byte>
    var currentLocation: nat
    var sizeOfLog: nat
    var wrapId: nat
    var flagEntry: nat
    // The bytes stored to the log since the wrap was opened, in order.
    ghost var stored: seq<Write>

    /** Header fields are on the log as they are in the object. */
    ghost predicate Valid()
      reads this, log
    {
      && ENTRIES_AT <= currentLocation <= sizeOfLog && sizeOfLog + 16 <= log.Length
      && flagEntry < 4 && log[FLAG_AT..FLAG_AT + 4] == LE(4, flagEntry)
      && wrapId < 0x1_0000_0000
    }

    ghost function Parity(): nat
      reads this
    {
      flagEntry % 2
    }

    /** The log is open and has these entries so far. */
    ghost predicate Holds(home: seq<Byte>, ws: seq<Write>)
      requires Valid()
      reads this, log
    {
      && flagEntry < 2 && Appendable(home, ws, Parity())
      && log[ENTRIES_AT..currentLocation] == Body(home, ws, Parity())
      && stored == OpenStores(Parity(), wrapId) + Singles(ENTRIES_AT, Body(home, ws, Parity()))
    }

    method StoreToLog(at: nat, d: seq<Byte>)
      requires at + (|d| + 3) / 4 * 4 <= log.Length
      modifies this`stored, log
      ensures log[..] == Poke(old(log[..]), at, d) && stored == old(stored) + Singles(at, d)
    {
      NtStore(log, at, d);
      stored := stored + Singles(at, d);
    }

    constructor (size: nat, memory: array<Byte>)
      requires ENTRIES_AT <= size && size + 16 <= memory.Length && size < 0x8000_0000
      modifies memory
      ensures Valid() && log == memory && sizeOfLog == size && flagEntry == 0 && wrapId == 0
      ensures memory[..ENTRIES_AT] == LE(4, size) + LE(8, 0) + LE(4, 0) + LE(4, 0)
    {
      log := memory;
      currentLocation := ENTRIES_AT;
      sizeOfLog := size;
      wrapId, flagEntry := 0, 0;
      new;
      NtStore(log, 0, LE(4, size));
      NtStore(log, 4, LE(8, 0));
      NtStore(log, WRAP_ID_AT, LE(4, 0));
      NtStore(log, FLAG_AT, LE(4, 0));
    }

    /** Invert the parity, which also marks the log as invalid, and start over. */
    method WrapLogOpen(w: nat, ghost home: seq<Byte>)
      requires Valid() && w < 0x1_0000_0000
      modifies this, log
      ensures Valid() && sizeOfLog == old(sizeOfLog) && wrapId == w
      ensures flagEntry == 1 - old(flagEntry) % 2
      ensures log[..] == Poke(Poke(old(log[..]), FLAG_AT, LE(4, flagEntry)), WRAP_ID_AT, LE(4, w))
      ensures Holds(home, [])
    {
      hide Poke, LE;
      stored := [];
      flagEntry := if flagEntry % 2 == 1 then 0 else 1;
      StoreToLog(FLAG_AT, LE(4, flagEntry));
      wrapId := w;
      StoreToLog(WRAP_ID_AT, LE(4, wrapId));
      currentLocation := ENTRIES_AT;
    }

    method AddWrapLogEntry(home: array<Byte>, ptr: nat, src: seq<Byte>, w: nat, ghost ws: seq<Write>)
      requires Valid() && home != log && Holds(home[..], ws)
      requires w == wrapId && flagEntry < 2
      requires currentLocation + 12 + |src| < sizeOfLog
      requires CanAppend(home[..], Write(ptr, src), flagEntry % 2)
      modifies this`currentLocation, this`stored, log
      ensures Valid() && Holds(home[..], ws + [Write(ptr, src)])
      ensures var e := EntryBytes(home[..], Write(ptr, src), Parity());
              && currentLocation == old(currentLocation) + |e|
              && log[..] == Poke(old(log[..]), old(currentLocation), e)
    {
      hide Singles, Poke, LE, EntryBytes, OpenStores, Body;
      ghost var start, before := currentLocation, log[..];
      StoreEntry(home, ptr, src);
      EntryAppended(before, log[..], start, home[..], ws, Write(ptr, src), Parity());
      EntryStored(OpenStores(Parity(), wrapId), start, home[..], ws, Write(ptr, src), Parity());
    }

    method StoreEntry(home: array<Byte>, ptr: nat, src: seq<Byte>)
      requires home != log && currentLocation + 12 + |src| < sizeOfLog && sizeOfLog + 16 <= log.Length
      requires CanAppend(home[..], Write(ptr, src), flagEntry % 2)
      modifies this`currentLocation, this`stored, log
      ensures var e := EntryBytes(home[..], Write(ptr, src), flagEntry % 2);
              && |e| <= 12 + |src| && currentLocation == old(currentLocation) + |e|
              && log[..] == Poke(old(log[..]), old(currentLocation), e)
              && stored == old(stored) + Singles(old(currentLocation), e)
    {
      hide Singles, Poke, EntryHead;
      ghost var start, before, trace, head := currentLocation, log[..], stored, EntryHead(home[..], Write(ptr, src), flagEntry % 2);
      StoreHead(home, ptr, |src|, head, src);
      StoreToLog(currentLocation, src);
      currentLocation := currentLocation + |src|;
      PokePoke(before, start, head, src);
      SinglesJoin(trace, start, head, src);
    }

    /** Mask and pointer; for four bytes, what home memory holds there instead. */
    method StoreHead(home: array<Byte>, ptr: nat, size: nat, ghost head: seq<Byte>, ghost src: seq<Byte>)
      requires home != log && size == |src| && currentLocation + 12 + size < sizeOfLog && sizeOfLog + 16 <= log.Length
      requires CanAppend(home[..], Write(ptr, src), flagEntry % 2) && head == EntryHead(home[..], Write(ptr, src), flagEntry % 2)
      modifies this`currentLocation, this`stored, log
      ensures |head| <= 12 && currentLocation == old(currentLocation) + |head|
      ensures log[..] == Poke(old(log[..]), old(currentLocation), head)
      ensures stored == old(stored) + Singles(old(currentLocation), head)
    {
      hide Singles, Poke, LE;
      if size == 4 {
        var u := ptr + flagEntry % 2;
        StoreToLog(currentLocation, home[u..u + 8]);
        currentLocation := currentLocation + 8;
      } else {
        ghost var start, before, trace := currentLocation, log[..], stored;
        var mask := size * 4 + 2 + flagEntry % 2;
        StoreToLog(currentLocation, LE(4, mask));
        currentLocation := currentLocation + 4;
        StoreToLog(currentLocation, LE(8, ptr));
        currentLocation := currentLocation + 8;
        PokePoke(before, start, LE(4, mask), LE(8, ptr));
        SinglesJoin(trace, start, LE(4, mask), LE(8, ptr));
      }
    }

    /** The log is complete and holds exactly these entries. */
    ghost predicate Closed(home: seq<Byte>, ws: seq<Write>)
      reads this, log
    {
      Valid() && IsWrapLogComplete(log[..]) && Appendable(home, ws, Parity()) && HasEntries(log[..], ENTRIES_AT, Parity(), home, ws)
    }

    /** Write the terminator, then mark the log as complete. */
    method WrapLogClose(ghost home: seq<Byte>, ghost ws: seq<Write>)
      requires Valid() && Holds(home, ws)
      modifies this`flagEntry, this`stored, log
      ensures flagEntry == old(flagEntry) + 2
      ensures log[..] == AfterClose(old(log[..]), currentLocation, flagEntry)
      ensures Closed(home, ws) && stored == LogStores(home, ws, Parity(), wrapId)
    {
      hide LE, Poke, Body, HasEntries, IsWrapLogComplete, Singles, OpenStores, AfterClose;
      ghost var before := log[..];
      SinglesJoin(OpenStores(Parity(), wrapId), ENTRIES_AT, Body(home, ws, Parity()), ZeroBytes(16));
      Terminate();
      LogClosed(before, log[..], currentLocation, home, ws, flagEntry - 2);
    }

    method Terminate()
      requires Valid()
      modifies this`flagEntry, this`stored, log
      ensures flagEntry == old(flagEntry) + 2
      ensures log[..] == Poke(Poke(Poke(old(log[..]), currentLocation, LE(8, 0)), currentLocation + 8, LE(8, 0)), FLAG_AT, LE(4, flagEntry))
      ensures stored == old(stored) + Singles(currentLocation, ZeroBytes(16)) + Singles(FLAG_AT, LE(4, flagEntry))
    {
      hide Singles, Poke, LE;
      ZeroLE(8);
      SinglesJoin(stored, currentLocation, LE(8, 0), LE(8, 0));
      assert ZeroBytes(8) + ZeroBytes(8) == ZeroBytes(16);
      StoreToLog(currentLocation, LE(8, 0));
      StoreToLog(currentLocation + 8, LE(8, 0));
      flagEntry := flagEntry + 2;
      StoreToLog(FLAG_AT, LE(4, flagEntry));
    }
  }

  /** A log that has been closed reads back what was appended. */
  lemma {:induction false} ClosedLogReadsBack(log: seq<Byte>, home: seq<Byte>, ws: seq<Write>, parity: nat)
    requires parity < 2 && Appendable(home, ws, parity) && HasEntries(log, ENTRIES_AT, parity, home, ws)
    requires forall i | 0 <= i < |ws| :: Decodable(ws[i])
    requires |log| >= ENTRIES_AT && log[FLAG_AT..FLAG_AT + 4] == LE(4, parity + 2)
    ensures IsWrapLogComplete(log) && LogParity(log) == parity && Decode(log, ENTRIES_AT, LogParity(log)) == Some(ws)
  {
    hide LE, UnLE, Decode, Decodable, Appendable, HasEntries;
    Widths();
    UnLERoundTrip(4, parity + 2);
    DecodeBody(log, ENTRIES_AT, parity, home, ws);
  }

  /** Write every entry of a complete log to home memory, then mark the log as invalid. */
  method RestoreWrapLogEntries(log: array<Byte>, home: array<Byte>, ghost ws: seq<Write>) returns (num: nat)
    requires log != home && ENTRIES_AT <= log.Length && IsWrapLogComplete(log[..])
    requires Decode(log[..], ENTRIES_AT, LogParity(log[..])) == Some(ws) && AllPadded(ws, home.Length)
    modifies log, home
    ensures AllWithin(ws, home.Length) && home[..] == Replay(old(home[..]), ws)
    ensures num == |ws|
    ensures log[..] == Poke(Poke(old(log[..]), FLAG_AT, LE(4, LogParity(old(log[..])))), WRAP_ID_AT, LE(4, 0))
    ensures !IsWrapLogComplete(log[..]) && LogParity(log[..]) == LogParity(old(log[..]))
  {
    PaddedWithin(ws, home.Length);
    var flag := UnLE(log[FLAG_AT..FLAG_AT + 4]) % 2;
    num := ReplayEntries(log, home, flag, ws);
    NtStore(log, FLAG_AT, LE(4, flag));
    NtStore(log, WRAP_ID_AT, LE(4, 0));
    Invalidated(log[..], flag);
  }

  /** The loop over the entries, up to the terminator. */
  method ReplayEntries(log: array<Byte>, home: array<Byte>, flag: nat, ghost ws: seq<Write>) returns (num: nat)
    requires log != home && ENTRIES_AT <= log.Length
    requires Decode(log[..], ENTRIES_AT, flag) == Some(ws) && AllPadded(ws, home.Length) && AllWithin(ws, home.Length)
    modifies home
    ensures home[..] == Replay(old(home[..]), ws) && num == |ws|
  {
    hide Decode, Poke;
    var current: nat := ENTRIES_AT;
    num := 0;
    ghost var rest, bytes, before := ws, log[..], home[..];
    assert ws[..0] == [];
    while true
      invariant log[..] == bytes && num <= |ws| && rest == ws[num..]
      invariant Decode(bytes, current, flag) == Some(rest)
      invariant home[..] == Replay(before, ws[..num])
      decreases |ws| - num
    {
      var more, dest, size := ReadEntry(log, bytes, current, flag, rest);
      if !more {
        break;
      }
      assert rest[0] == ws[num] && Padded(ws[num], home.Length);
      NtStore(home, dest, log[current + 12..current + 12 + size]);
      ReplayOneMore(before, ws, num);
      current := current + 12 + size;
      num := num + 1;
      rest := rest[1..];
    }
    assert ws[..num] == ws;
  }

  /** The fields of the entry at `current`, unless the entries end there. */
  method ReadEntry(log: array<Byte>, ghost bytes: seq<Byte>, current: nat, flag: nat, ghost rest: seq<Write>)
    returns (more: bool, dest: nat, size: nat)
    requires bytes == log[..] && Decode(bytes, current, flag) == Some(rest)
    ensures more <==> rest != []
    ensures more ==>
              && current + 12 + size <= log.Length && Decode(bytes, current + 12 + size, flag) == Some(rest[1..])
              && rest[0] == Write(dest, log[current + 12..current + 12 + size])
  {
    more, dest, size := false, 0, 0;
    assert bytes[current..current + 4] == log[current..current + 4];
    var i := Signed(UnLE(log[current..current + 4]));
    if i % 2 == flag {
      assert bytes[current + 4..current + 12] == log[current + 4..current + 12];
      dest := UnLE(log[current + 4..current + 12]);
      if dest != 0 {
        more, size := true, i / 4;
        assert bytes[current + 12..current + 12 + size] == log[current + 12..current + 12 + size];
      }
    }
  }

  ghost function LogParity(log: seq<Byte>): nat
    requires |log| >= ENTRIES_AT
  {
    UnLE(log[FLAG_AT..FLAG_AT + 4]) % 2
  }

  lemma {:induction false} Invalidated(log: seq<Byte>, flag: nat)
    requires |log| >= ENTRIES_AT && flag < 2 && log[FLAG_AT..FLAG_AT + 4] == LE(4, flag)
    ensures !IsWrapLogComplete(log) && LogParity(log) == flag
  {
    Widths();
    UnLERoundTrip(4, flag);
  }

  /** Each of these entries has found the room that an append checks for. */
  ghost predicate RoomChecked(home: seq<Byte>, ws: seq<Write>, parity: nat, size: nat)
    requires Appendable(home, ws, parity)
  {
    forall i | 0 <= i < |ws| :: RoomOnLog(home, ws[..i], parity, ws[i], size)
  }

  lemma {:induction false} EntriesStayInside(home: seq<Byte>, ws: seq<Write>, parity: nat, size: nat)
    requires Appendable(home, ws, parity) && RoomChecked(home, ws, parity, size) && ENTRIES_AT <= size
    ensures ENTRIES_AT + |Body(home, ws, parity)| <= size
  {
    if ws != [] {
      var n := |ws| - 1;
      assert ws[..n] + [ws[n]] == ws;
      BodyAppend(home, ws[..n], ws[n], parity);
    }
  }

  /** After entries that all passed the check, closing keeps to the log's own memory, whatever is
      behind it, exactly when the entries leave sixteen bytes. */
  lemma {:induction false} CloseStaysInside(home: seq<Byte>, ws: seq<Write>, parity: nat, at: nat, size: nat, length: nat)
    requires Appendable(home, ws, parity) && RoomChecked(home, ws, parity, size)
    requires ENTRIES_AT <= size && size + 16 <= length && at == ENTRIES_AT + |Body(home, ws, parity)|
    ensures at <= size
    ensures (forall log: seq<Byte> | |log| == length && log[ENTRIES_AT..at] == Body(home, ws, parity) ::
               AfterClose(log, at, parity + 2)[size..] == log[size..])
            <==> at + 16 <= size
  {
    hide Body, LE;
    EntriesStayInside(home, ws, parity, size);
    if at + 16 > size {
      var log: seq<Byte> := Poke(seq(length, _ => 1), ENTRIES_AT, Body(home, ws, parity));
      assert log[ENTRIES_AT..at] == Body(home, ws, parity);
      assert AfterClose(log, at, parity + 2)[size..][0] == 0 && log[size..][0] == 1;
    }
  }

  /** The room that an append checks for is not enough: here an entry is accepted
      and the terminator ends fifteen bytes behind the log. */
  lemma {:induction false} AppendCheckLeavesNoRoom(home: seq<Byte>)
    ensures var size, w := 64, Write(1, ZeroBytes(31));
            && ENTRIES_AT + 12 + |w.data| < size && CanAppend(home, w, 0)
            && ENTRIES_AT + |EntryBytes(home, w, 0)| + 16 == size + 15
  {
  }

  /** A store behind the entries adds an entry to them. */
  lemma {:induction false} EntryAppended(before: seq<Byte>, after: seq<Byte>, at: nat, home: seq<Byte>, ws: seq<Write>, w: Write, parity: nat)
    requires Appendable(home, ws, parity) && CanAppend(home, w, parity)
    requires ENTRIES_AT <= at && at + |EntryBytes(home, w, parity)| <= |before|
    requires before[ENTRIES_AT..at] == Body(home, ws, parity)
    requires after == Poke(before, at, EntryBytes(home, w, parity))
    ensures Appendable(home, ws + [w], parity)
    ensures after[ENTRIES_AT..at + |EntryBytes(home, w, parity)|] == Body(home, ws + [w], parity)
    ensures after[FLAG_AT..FLAG_AT + 4] == before[FLAG_AT..FLAG_AT + 4]
  {
    BodyAppend(home, ws, w, parity);
    PokedBehind(before, at, EntryBytes(home, w, parity), ENTRIES_AT);
  }

  lemma {:induction false} EntryStored(before: seq<Write>, at: nat, home: seq<Byte>, ws: seq<Write>, w: Write, parity: nat)
    requires Appendable(home, ws, parity) && CanAppend(home, w, parity) && at == ENTRIES_AT + |Body(home, ws, parity)|
    ensures Appendable(home, ws + [w], parity)
    ensures before + Singles(ENTRIES_AT, Body(home, ws, parity)) + Singles(at, EntryBytes(home, w, parity)) ==
            before + Singles(ENTRIES_AT, Body(home, ws + [w], parity))
  {
    BodyAppend(home, ws, w, parity);
    SinglesJoin(before, ENTRIES_AT, Body(home, ws, parity), EntryBytes(home, w, parity));
  }

  lemma {:induction false} PokedBehind(before: seq<Byte>, at: nat, e: seq<Byte>, from: nat)
    requires from <= at && at + |e| <= |before|
    ensures Poke(before, at, e)[from..at + |e|] == before[from..at] + e
    ensures forall i, j | 0 <= i <= j <= from :: Poke(before, at, e)[i..j] == before[i..j]
  {
  }

  ghost predicate IsWrapLogComplete(log: seq<Byte>) {
    |log| >= ENTRIES_AT && UnLE(log[FLAG_AT..FLAG_AT + 4]) / 2 % 2 == 1
  }

  lemma {:induction false} LogClosed(before: seq<Byte>, after: seq<Byte>, at: nat, home: seq<Byte>, ws: seq<Write>, parity: nat)
    requires Appendable(home, ws, parity) && parity < 2 && ENTRIES_AT <= at && at + 16 <= |before|
    requires before[ENTRIES_AT..at] == Body(home, ws, parity)
    requires after == Poke(Poke(Poke(before, at, LE(8, 0)), at + 8, LE(8, 0)), FLAG_AT, LE(4, parity + 2))
    ensures after == AfterClose(before, at, parity + 2)
    ensures after[FLAG_AT..FLAG_AT + 4] == LE(4, parity + 2)
    ensures IsWrapLogComplete(after) && HasEntries(after, ENTRIES_AT, parity, home, ws)
  {
    hide Poke, LE, Body;
    ZeroLE(8);
    ClosedBytes(before, at, parity);
    Widths();
    UnLERoundTrip(4, parity + 2);
  }

  lemma {:induction false} ClosedBytes(before: seq<Byte>, at: nat, parity: nat)
    requires ENTRIES_AT <= at && at + 16 <= |before|
    ensures ZeroBytes(8) + ZeroBytes(8) == ZeroBytes(16)
    ensures var after := Poke(Poke(before, at, ZeroBytes(16)), FLAG_AT, LE(4, parity + 2));
            && Poke(Poke(Poke(before, at, ZeroBytes(8)), at + 8, ZeroBytes(8)), FLAG_AT, LE(4, parity + 2)) == after
            && after[FLAG_AT..FLAG_AT + 4] == LE(4, parity + 2)
            && after[ENTRIES_AT..at + 16] == before[ENTRIES_AT..at] + ZeroBytes(16)
  {
    PokePoke(before, at, ZeroBytes(8), ZeroBytes(8));
    PokedBehind(before, at, ZeroBytes(16), ENTRIES_AT);
    PokedBefore(Poke(before, at, ZeroBytes(16)), FLAG_AT, LE(4, parity + 2));
  }

  lemma {:induction false} PokedBefore(before: seq<Byte>, at: nat, e: seq<Byte>)
    requires at + |e| <= |before|
    ensures Poke(before, at, e)[at..at + |e|] == e
    ensures forall i, j | at + |e| <= i <= j <= |before| :: Poke(before, at, e)[i..j] == before[i..j]
  {
  }

  lemma {:induction false} ZeroLE(n: nat)
    ensures LE(n, 0) == ZeroBytes(n)
  {
    if n > 0 {
      ZeroLE(n - 1);
    }
  }
}
