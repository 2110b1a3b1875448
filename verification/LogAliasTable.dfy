/** The alias table of a wrap: the writes it has made so far, in order, which reads
    overlay on home memory and which closing the wrap copies there. */
module LogAliasTable {
  import opened Memory
  import opened Bloom

  const MAX_LAT_ENTRIES := 65536
  const MAX_LAT_DATA := 524288

  /** Up to eight bytes are kept in the entry, more of them in the data area. */
  datatype Alias = Inline(bytes: seq<Byte>) | InData(offset: nat)

  datatype Entry = Entry(key: nat, size: nat, value: Alias)

  function Payload(e: Entry, data: seq<Byte>): (d: seq<Byte>)
    requires EntryOk(e, |data|)
    ensures |d| == e.size
  {
    if e.value.Inline? then e.value.bytes else data[e.value.offset..e.value.offset + e.size]
  }

  predicate EntryOk(e: Entry, used: nat) {
    match e.value
    case Inline(bytes) => |bytes| == e.size <= 8
    case InData(offset) => e.size > 8 && offset + e.size <= used
  }

  /** The writes that a list of entries stands for. */
  ghost function WritesOf(es: seq<Entry>, data: seq<Byte>): (ws: seq<Write>)
    requires forall i | 0 <= i < |es| :: EntryOk(es[i], |data|)
    ensures |ws| == |es|
    ensures forall i | 0 <= i < |es| :: ws[i] == Write(es[i].key, Payload(es[i], data))
  {
    seq(|es|, i requires 0 <= i < |es| => Write(es[i].key, Payload(es[i], data)))
  }

  /** No two slices of the data area overlap. */
  ghost predicate Apart(e: Entry, f: Entry) {
    e.value.InData? && f.value.InData? ==> e.value.offset + e.size <= f.value.offset
  }

  /** What a read of `[src, src + size)` makes of one entry: the three cases of overlap. */
  function Overlay(buf: seq<Byte>, src: nat, size: nat, key: nat, payload: seq<Byte>): (r: seq<Byte>)
    requires |buf| >= size
    ensures |r| == |buf|
  {
    if key == src && size <= |payload| then
      Poke(buf, 0, payload[..size])
    else if key <= src <= key + |payload| then
      var offset := src - key;
      Poke(buf, 0, payload[offset..offset + if |payload| - offset < size then |payload| - offset else size])
    else if src <= key < src + size then
      var destoffset := key - src;
      Poke(buf, destoffset, payload[..if size - destoffset < |payload| then size - destoffset else |payload|])
    else buf
  }

  /** All three cases, and none, do what the write does within the window that is read. */
  lemma {:induction false} OverlayIsWrite(mem: seq<Byte>, buf: seq<Byte>, src: nat, size: nat, key: nat, payload: seq<Byte>)
    requires src + size <= |mem| && key + |payload| <= |mem| && |buf| >= size && buf[..size] == mem[src..src + size]
    ensures Overlay(buf, src, size, key, payload)[..size] == Poke(mem, key, payload)[src..src + size]
    ensures Overlay(buf, src, size, key, payload)[size..] == buf[size..]
  {
    var r, m := Overlay(buf, src, size, key, payload), Poke(mem, key, payload);
    forall i | 0 <= i < size ensures r[i] == m[src + i] {
      assert buf[..size][i] == mem[src..src + size][i];
    }
  }

  /** The entries in use: well-formed, their slices one behind the other. */
  ghost predicate TableOk(es: seq<Entry>, used: nat) {
    && (forall i | 0 <= i < |es| :: EntryOk(es[i], used))
    && (forall i, j | 0 <= i < j < |es| :: Apart(es[i], es[j]))
  }

  lemma {:induction false} TableAppend(es: seq<Entry>, e: Entry, used: nat, data: seq<Byte>, used': nat, data': seq<Byte>)
    requires TableOk(es, used) && used <= used' <= |data| == |data'| && data'[..used] == data[..used]
    requires EntryOk(e, used') && (e.value.InData? ==> e.value.offset == used)
    ensures TableOk(es, |data|) && TableOk(es + [e], used') && TableOk(es + [e], |data|)
    ensures WritesOf(es + [e], data') == WritesOf(es, data) + [Write(e.key, Payload(e, data'))]
  {
    forall i | 0 <= i < |es| ensures Payload(es[i], data') == Payload(es[i], data) {
      if es[i].value.InData? {
        SliceKept(data, data', es[i].value.offset, es[i].value.offset + es[i].size, used);
      }
    }
  }

  lemma {:induction false} SliceKept(data: seq<Byte>, data': seq<Byte>, a: nat, b: nat, used: nat)
    requires a <= b <= used <= |data| == |data'| && data'[..used] == data[..used]
    ensures data'[a..b] == data[a..b]
  {
    assert data'[..used][a..b] == data[..used][a..b];
  }

  // ---- Room ----

  /** The bytes of these writes that go to the data area. */
  ghost function DataBytes(ws: seq<Write>): nat {
    if ws == [] then 0
    else DataBytes(ws[..|ws| - 1]) + if |ws[|ws| - 1].data| > 8 then |ws[|ws| - 1].data| else 0
  }

  lemma {:induction false} DataBytesAppend(ws: seq<Write>, w: Write)
    ensures DataBytes(ws + [w]) == DataBytes(ws) + if |w.data| > 8 then |w.data| else 0
  {
    assert (ws + [w])[..|ws|] == ws;
  }

  /** After these writes there is room for one more. */
  ghost predicate RoomFor(ws: seq<Write>, w: Write) {
    |ws| < MAX_LAT_ENTRIES && (|w.data| > 8 ==> DataBytes(ws) + |w.data| < MAX_LAT_DATA)
  }

  /** Within the two limits there is room for every write of a list when its turn comes. */
  lemma {:induction false} RoomForAll(ws: seq<Write>, i: nat)
    requires |ws| <= MAX_LAT_ENTRIES && DataBytes(ws) < MAX_LAT_DATA && i < |ws|
    ensures RoomFor(ws[..i], ws[i])
    decreases |ws|
  {
    var n := |ws| - 1;
    if i < n {
      RoomForAll(ws[..n], i);
      assert ws[..n][..i] == ws[..i];
    }
  }

  // ---- What the filter makes of a read ----

  /** The loop over this write's range has set the bit of address `a`. */
  ghost predicate Marks(w: Write, a: nat) {
    exists j: nat :: 4 * j <= |w.data| && SameBit(a, w.dest + 4 * j)
  }

  ghost predicate Marked(ws: seq<Write>, a: nat) {
    exists i :: 0 <= i < |ws| && Marks(ws[i], a)
  }

  lemma {:induction false} MarkedAppend(ws: seq<Write>, w: Write, a: nat)
    ensures Marked(ws + [w], a) <==> Marked(ws, a) || Marks(w, a)
  {
    if Marked(ws, a) {
      var i :| 0 <= i < |ws| && Marks(ws[i], a);
      assert (ws + [w])[i] == ws[i];
    }
    if Marks(w, a) {
      assert (ws + [w])[|ws|] == w;
    }
  }

  /** A read of this range meets the mark of some write. */
  ghost predicate Met(ws: seq<Write>, src: nat, size: nat) {
    exists k: nat :: 4 * k <= size && Marked(ws, src + 4 * k)
  }

  /** Some write covers a byte of the range. */
  ghost predicate Touched(ws: seq<Write>, src: nat, size: nat) {
    exists a: nat :: src <= a < src + size && InFootprint(ws, a)
  }

  /** What a read returns: home memory with the writes on it, if it meets a mark of any. */
  ghost function ReadValue(home: seq<Byte>, ws: seq<Write>, src: nat, size: nat): seq<Byte>
    requires AllWithin(ws, |home|) && src + size <= |home|
  {
    (if Met(ws, src, size) then Replay(home, ws) else home)[src..src + size]
  }

  /** Exactly when reads see the writes of their own wrap, whatever is in memory: if the read
      meets a mark, or no write covers any of it. */
  lemma {:induction false} ReadsOwnWritesExactly(ws: seq<Write>, src: nat, size: nat, length: nat)
    requires AllWithin(ws, length) && src + size <= length
    ensures (forall home: seq<Byte> | |home| == length :: ReadValue(home, ws, src, size) == Replay(home, ws)[src..src + size])
            <==> Met(ws, src, size) || !Touched(ws, src, size)
  {
    if Touched(ws, src, size) && !Met(ws, src, size) {
      var home := StaleRead(ws, src, size, length);
    } else {
      forall home: seq<Byte> | |home| == length ensures ReadValue(home, ws, src, size) == Replay(home, ws)[src..src + size] {
        if !Touched(ws, src, size) {
          forall a | src <= a < src + size ensures home[a] == Replay(home, ws)[a] {
            ReplayAt(home, ws, a);
          }
        }
      }
    }
  }

  lemma {:induction false} ReadsOwnWrites(home: seq<Byte>, ws: seq<Write>, src: nat, size: nat)
    requires AllWithin(ws, |home|) && src + size <= |home|
    ensures Met(ws, src, size) || !Touched(ws, src, size) ==> ReadValue(home, ws, src, size) == Replay(home, ws)[src..src + size]
  {
    ReadsOwnWritesExactly(ws, src, size, |home|);
  }

  /** A memory for which the read does not see them. */
  lemma {:induction false} StaleRead(ws: seq<Write>, src: nat, size: nat, length: nat) returns (home: seq<Byte>)
    requires AllWithin(ws, length) && src + size <= length && Touched(ws, src, size) && !Met(ws, src, size)
    ensures |home| == length && ReadValue(home, ws, src, size) != Replay(home, ws)[src..src + size]
  {
    var a: nat :| src <= a < src + size && InFootprint(ws, a);
    var zero: seq<Byte> := seq(length, _ => 0);
    var b := ReplayShows(zero, ws, a);
    home := zero[a := b];
    assert home[src..src + size][a - src] != Replay(home, ws)[src..src + size][a - src];
  }

  /** Aligned reads of aligned writes meet a mark wherever a byte of them is covered. */
  lemma {:induction false} AlignedReadsMeet(ws: seq<Write>, src: nat, size: nat)
    requires Aligned(src, size) && forall i | 0 <= i < |ws| :: Aligned(ws[i].dest, |ws[i].data|)
    ensures Touched(ws, src, size) ==> Met(ws, src, size)
  {
    if Touched(ws, src, size) {
      var a: nat :| src <= a < src + size && InFootprint(ws, a);
      FootprintIs(ws, a);
      var k :| 0 <= k < |ws| && Covers(ws[k], a);
      var i, j := CommonGranule(ws[k].dest, |ws[k].data|, src, size, a);
      assert SameBit(src + 4 * j, ws[k].dest + 4 * i);
      assert Marks(ws[k], src + 4 * j) && Marked(ws, src + 4 * j);
    }
  }

  class LAT {
    const entries: array<Entry>
    const data: array<Byte>
    const bloom: BloomFilter
    const delayWriteBack: bool
    var lastIndex: nat
    var lastData: nat
    // The writes that the last close has streamed home.
    ghost var flushed: seq<Write>

    /** The table's own memory. */
    ghost predicate Shaped()
      reads this
    {
      && entries.Length == MAX_LAT_ENTRIES && data.Length == MAX_LAT_DATA && bloom.words.Length == BLOOM_SIZE
      && lastIndex <= MAX_LAT_ENTRIES && lastData <= MAX_LAT_DATA
    }

    ghost predicate Valid()
      reads this, entries, bloom, bloom.words
    {
      && Shaped() && bloom.Valid()
      && TableOk(entries[..lastIndex], lastData)
      && (forall i | 0 <= i < lastIndex :: bloom.RangeFlagged(entries[i].key, entries[i].size))
    }

    /** The memory that belongs to the table. */
    ghost function Own(): set<object> {
      {this, entries, data, bloom, bloom.words}
    }

    /** The writes of the wrap so far. */
    ghost function Writes(): (ws: seq<Write>)
      requires Valid()
      reads this, entries, data, bloom, bloom.words
    {
      WritesOf(entries[..lastIndex], data[..])
    }

    /** The filter has the marks of these writes and no others. */
    ghost predicate Exact()
      requires Valid()
      reads this, entries, data, bloom, bloom.words
    {
      forall a: nat :: bloom.Flagged(a) <==> Marked(Writes(), a)
    }

    /** The data area holds what the writes of this wrap have put there and nothing else. */
    ghost predicate Packed()
      requires Valid()
      reads this, entries, data, bloom, bloom.words
    {
      lastData == DataBytes(Writes())
    }

    constructor (delay: bool)
      ensures Shaped() && delayWriteBack == delay
      ensures fresh(entries) && fresh(data) && fresh(bloom) && fresh(bloom.words)
    {
      entries := new Entry[MAX_LAT_ENTRIES](_ => Entry(0, 0, Inline([])));
      data := new Byte[MAX_LAT_DATA](_ => 0);
      bloom := new BloomFilter();
      delayWriteBack := delay;
      lastIndex, lastData := 0, 0;
    }

    method OnWrapOpen()
      requires Shaped()
      modifies this`lastIndex, this`lastData, bloom, bloom.words
      ensures Valid() && Writes() == [] && Exact() && Packed()
    {
      lastIndex, lastData := 0, 0;
      bloom.ClearBloom();
    }

    /** Append a write. */
    method WriteTo(ptr: nat, src: seq<Byte>)
      requires Valid() && lastIndex < MAX_LAT_ENTRIES
      requires |src| > 8 ==> lastData + |src| < MAX_LAT_DATA
      modifies this`lastIndex, this`lastData, entries, data, bloom, bloom.words
      ensures Valid() && Writes() == old(Writes()) + [Write(ptr, src)]
      ensures (old(Exact()) ==> Exact()) && (old(Packed()) ==> Packed())
    {
      hide Marks, Marked;
      ghost var ws, flags, exact := Writes(), bloom.flags, Exact();
      bloom.SetBloomRange(ptr, |src|);
      MarksSet(flags, Write(ptr, src));
      PutWrite(ptr, src);
      DataBytesAppend(ws, Write(ptr, src));
      if exact { ExactAfter(flags, ws, Write(ptr, src)); }
    }

    method PutWrite(ptr: nat, src: seq<Byte>)
      requires Valid() && bloom.RangeFlagged(ptr, |src|) && lastIndex < MAX_LAT_ENTRIES
      requires |src| > 8 ==> lastData + |src| < MAX_LAT_DATA
      modifies this`lastIndex, this`lastData, entries, data
      ensures Valid() && Writes() == old(Writes()) + [Write(ptr, src)]
      ensures lastData == old(lastData) + if |src| > 8 then |src| else 0
    {
      ghost var es, bytes, used := entries[..lastIndex], data[..], lastData;
      if |src| <= 8 {
        entries[lastIndex] := Entry(ptr, |src|, Inline(src));
      } else {
        entries[lastIndex] := Entry(ptr, |src|, InData(lastData));
        MemCpy(data, lastData, src);
        lastData := lastData + |src|;
      }
      TableAppend(es, entries[lastIndex], used, bytes, lastData, data[..]);
      lastIndex := lastIndex + 1;
      assert entries[..lastIndex] == es + [entries[lastIndex - 1]];
    }

    /** Append a store of a machine value. */
    method Store(ptr: nat, value: nat, size: nat)
      requires Valid() && lastIndex < MAX_LAT_ENTRIES && size <= 8
      modifies this`lastIndex, entries, bloom, bloom.words
      ensures Valid() && Writes() == old(Writes()) + [Write(ptr, LE(8, value)[..size])]
      ensures forall i | 0 <= i < size :: Pow256(i) > 0 && Writes()[|old(Writes())|].data[i] == value / Pow256(i) % 256
      ensures (old(Exact()) ==> Exact()) && (old(Packed()) ==> Packed())
    {
      hide Marks, Marked;
      ghost var ws, flags, exact, w := Writes(), bloom.flags, Exact(), Write(ptr, LE(8, value)[..size]);
      bloom.SetBloomRange(ptr, size);
      MarksSet(flags, w);
      PutStore(ptr, value, size);
      DataBytesAppend(ws, w);
      forall i | 0 <= i < size ensures Pow256(i) > 0 && w.data[i] == value / Pow256(i) % 256 {
        LEByte(8, value, i);
      }
      if exact { ExactAfter(flags, ws, w); }
    }

    method PutStore(ptr: nat, value: nat, size: nat)
      requires Valid() && bloom.RangeFlagged(ptr, size) && lastIndex < MAX_LAT_ENTRIES && size <= 8
      modifies this`lastIndex, entries
      ensures Valid() && Writes() == old(Writes()) + [Write(ptr, LE(8, value)[..size])]
    {
      ghost var es := entries[..lastIndex];
      entries[lastIndex] := Entry(ptr, size, Inline(LE(8, value)[..size]));
      TableAppend(es, entries[lastIndex], lastData, data[..], lastData, data[..]);
      lastIndex := lastIndex + 1;
      assert entries[..lastIndex] == es + [entries[lastIndex - 1]];
    }

    /** What the loop over a range has flagged, in terms of the write. */
    lemma {:induction false} MarksSet(before: iset<nat>, w: Write)
      requires forall a: nat :: bloom.Flagged(a) <==> a in before || exists j: nat :: 4 * j <= |w.data| && SameBit(a, w.dest + 4 * j)
      ensures forall a: nat :: bloom.Flagged(a) <==> a in before || Marks(w, a)
    {
    }

    lemma {:induction false} ExactAfter(before: iset<nat>, ws: seq<Write>, w: Write)
      requires Valid() && Writes() == ws + [w]
      requires forall a: nat :: a in before <==> Marked(ws, a)
      requires forall a: nat :: bloom.Flagged(a) <==> a in before || Marks(w, a)
      ensures Exact()
    {
      forall a: nat ensures bloom.Flagged(a) <==> Marked(Writes(), a) {
        MarkedAppend(ws, w, a);
      }
    }

    /** The skip in front of the scan: none of the granules that the read visits is flagged. */
    ghost predicate Skipped(src: nat, size: nat)
      reads bloom
    {
      forall j: nat | 4 * j <= size :: !bloom.Flagged(src + 4 * j)
    }

    /** Every write so far has a range that the filter covers. */
    ghost predicate AllAligned()
      requires Shaped()
      reads this, entries
    {
      forall i | 0 <= i < lastIndex :: Aligned(entries[i].key, entries[i].size)
    }

    /** Read through the table: the bytes that home memory will hold once the wrap is
        closed, unless the filter wrongly skips the scan. */
    method ReadInto(home: array<Byte>, buf: array<Byte>, src: nat, size: nat)
      requires Valid() && AllWithin(Writes(), home.Length)
      requires src + size <= home.Length && size <= buf.Length && buf != home && buf !in Own()
      modifies buf
      ensures !Skipped(src, size) || (Aligned(src, size) && AllAligned()) ==>
                buf[..size] == old(Replay(home[..], Writes())[src..src + size])
      ensures Skipped(src, size) ==> buf[..size] == home[src..src + size]
      ensures Exact() ==> buf[..size] == old(ReadValue(home[..], Writes(), src, size))
      ensures buf[size..] == old(buf[size..])
    {
      ExactSkip(src, size);
      MemCpy(buf, 0, home[src..src + size]);
      assert buf[..size] == home[src..src + size];
      var hit := MayBeListed(src, size);
      if !hit {
        SkipOrScan(home[..], src, size);
        return;
      }
      OverlayAll(home, buf, src, size);
    }

    lemma {:induction false} ExactSkip(src: nat, size: nat)
      requires Valid()
      ensures Exact() ==> (Skipped(src, size) <==> !Met(Writes(), src, size))
    {
    }

    method MayBeListed(src: nat, size: nat) returns (hit: bool)
      requires Valid()
      ensures hit <==> !Skipped(src, size)
    {
      hit := bloom.CheckBloomRange(src, size);
    }

    lemma {:induction false} SkipOrScan(home: seq<Byte>, src: nat, size: nat)
      requires Valid() && AllWithin(Writes(), |home|) && src + size <= |home| && Skipped(src, size)
      ensures Aligned(src, size) && AllAligned() ==> home[src..src + size] == Replay(home, Writes())[src..src + size]
    {
      if Aligned(src, size) && AllAligned() {
        SkipIsSound(home, src, size);
      }
    }

    lemma {:induction false} EntryAt(i: nat)
      requires Valid() && i < lastIndex
      ensures EntryOk(entries[i], data.Length) && i < |Writes()|
      ensures Writes()[i] == Write(entries[i].key, Payload(entries[i], data[..]))
    {
      assert EntryOk(entries[..lastIndex][i], lastData);
    }

    /** Every entry in turn leaves in the buffer what it writes of the range. */
    method OverlayAll(home: array<Byte>, buf: array<Byte>, src: nat, size: nat)
      requires Valid() && AllWithin(Writes(), home.Length)
      requires src + size <= home.Length && size <= buf.Length && buf != home && buf !in Own()
      requires buf[..size] == home[src..src + size]
      modifies buf
      ensures buf[..size] == old(Replay(home[..], Writes())[src..src + size])
      ensures buf[size..] == old(buf[size..])
    {
      hide Poke, Replay, WritesOf, TableOk, Payload, EntryOk, Overlay;
      ghost var ws, before := Writes(), home[..];
      ReplayStart(before, ws);
      for i := 0 to lastIndex
        invariant Valid() && Writes() == ws
        invariant AllWithin(ws[..i], |before|)
        invariant buf[..size] == Replay(before, ws[..i])[src..src + size]
        invariant buf[size..] == old(buf[size..])
      {
        EntryAt(i);
        ReplayOneMore(before, ws, i);
        OverlayIsWrite(Replay(before, ws[..i]), buf[..], src, size, ws[i].dest, ws[i].data);
        OverlayEntry(buf, src, size, entries[i]);
      }
      assert ws[..lastIndex] == ws;
    }

    /** One entry's part in a read. */
    method OverlayEntry(buf: array<Byte>, src: nat, size: nat, e: Entry)
      requires size <= buf.Length && EntryOk(e, data.Length) && buf != data
      modifies buf
      ensures buf[..] == Overlay(old(buf[..]), src, size, e.key, Payload(e, data[..]))
    {
      var alias := if e.value.Inline? then e.value.bytes else data[e.value.offset..e.value.offset + e.size];
      assert alias == Payload(e, data[..]);
      OverlayAlias(buf, src, size, e.key, e.size, alias);
    }

    /** The part of the range that these bytes cover. */
    static method OverlayAlias(buf: array<Byte>, src: nat, size: nat, key: nat, length: nat, alias: seq<Byte>)
      requires size <= buf.Length && length == |alias|
      modifies buf
      ensures buf[..] == Overlay(old(buf[..]), src, size, key, alias)
    {
      hide Poke;
      if key == src && size <= length {
        MemCpy(buf, 0, alias[..if length < size then length else size]);
      } else if key <= src && key + length >= src {
        var offset := src - key;
        MemCpy(buf, 0, alias[offset..offset + if length - offset < size then length - offset else size]);
      } else if key >= src && key < src + size {
        var destoffset := key - src;
        MemCpy(buf, destoffset, alias[..if size - destoffset < length then size - destoffset else length]);
      }
    }

    lemma {:induction false} SkipIsSound(home: seq<Byte>, src: nat, size: nat)
      requires Valid() && AllWithin(Writes(), |home|) && src + size <= |home|
      requires Skipped(src, size) && Aligned(src, size) && AllAligned()
      ensures home[src..src + size] == Replay(home, Writes())[src..src + size]
    {
      var ws := Writes();
      forall a | src <= a < src + size ensures home[a] == Replay(home, ws)[a] {
        forall k | 0 <= k < |ws| ensures !Covers(ws[k], a) {
          EntryMissed(k, src, size, a);
        }
        FootprintIs(ws, a);
        ReplayAt(home, ws, a);
      }
    }

    /** An entry that covers an address would have been met by the check. */
    lemma {:induction false} EntryMissed(k: nat, src: nat, size: nat, a: nat)
      requires Valid() && k < lastIndex && Skipped(src, size) && src <= a < src + size
      requires Aligned(src, size) && Aligned(entries[k].key, entries[k].size)
      ensures !(entries[k].key <= a < entries[k].key + entries[k].size)
    {
      var p, s := entries[k].key, entries[k].size;
      if p <= a < p + s {
        var i, j := CommonGranule(p, s, src, size, a);
        bloom.FlaggedAt(p, s, i);
        bloom.SameGranule(p + 4 * i, src + 4 * j);
      }
    }

    /** Copy the writes home in order and empty the table. Unless write-back is left
        to the cache, every entry is then streamed home once more. */
    method RestoreToCacheHierarchy(home: array<Byte>)
      requires Valid() && home !in Own() && (if delayWriteBack then AllWithin(Writes(), home.Length) else AllPadded(Writes(), home.Length))
      modifies this`lastIndex, this`flushed, entries, home
      ensures AllWithin(old(Writes()), home.Length) && home[..] == Replay(old(home[..]), old(Writes()))
      ensures Valid() && Writes() == [] && flushed == if delayWriteBack then [] else old(Writes())
    {
      flushed := [];
      ghost var ws := Writes();
      if !delayWriteBack { PaddedWithin(ws, home.Length); }
      if lastIndex == 0 {
        return;
      }
      CopyAll(home);
      if !delayWriteBack {
        WriteBackAll(home);
        ReplayTwice(old(home[..]), ws);
      }
      ClearKeys();
      lastIndex := 0;
    }

    method CopyAll(home: array<Byte>)
      requires Valid() && home !in Own() && AllWithin(Writes(), home.Length)
      modifies home
      ensures home[..] == old(Replay(home[..], Writes()))
    {
      hide Poke, Replay, WritesOf, TableOk, Payload, EntryOk;
      ghost var ws, before := Writes(), home[..];
      ReplayStart(before, ws);
      for i := 0 to lastIndex
        invariant Valid() && Writes() == ws
        invariant home[..] == Replay(before, ws[..i])
      {
        EntryAt(i);
        assert Within(ws[i], home.Length);
        CopyEntryToCache(home, entries[i]);
        ReplayOneMore(before, ws, i);
      }
      assert ws[..lastIndex] == ws;
    }

    method WriteBackAll(home: array<Byte>)
      requires Valid() && home !in Own() && AllPadded(Writes(), home.Length) && AllWithin(Writes(), home.Length) && flushed == []
      modifies this`flushed, home
      ensures home[..] == old(Replay(home[..], Writes())) && flushed == old(Writes())
    {
      hide Poke, Replay, WritesOf, TableOk, Payload, EntryOk;
      ghost var ws, before := Writes(), home[..];
      ReplayStart(before, ws);
      for i := 0 to lastIndex
        invariant Valid() && Writes() == ws && flushed == ws[..i]
        invariant home[..] == Replay(before, ws[..i])
      {
        EntryAt(i);
        assert Padded(ws[i], home.Length);
        WriteBackEntry(home, entries[i]);
        flushed := flushed + [ws[i]];
        ReplayOneMore(before, ws, i);
      }
      assert ws[..lastIndex] == ws;
    }

    method ClearKeys()
      requires Shaped()
      modifies entries
    {
      for i := 0 to lastIndex {
        entries[i] := entries[i].(key := 0);
      }
    }

    method CopyEntryToCache(home: array<Byte>, e: Entry)
      requires EntryOk(e, data.Length) && home != data && Within(Write(e.key, Payload(e, data[..])), home.Length)
      modifies home
      ensures home[..] == Poke(old(home[..]), e.key, Payload(e, data[..]))
    {
      if e.value.Inline? {
        MemCpy(home, e.key, e.value.bytes);
      } else {
        MemCpy(home, e.key, data[e.value.offset..e.value.offset + e.size]);
      }
    }

    method WriteBackEntry(home: array<Byte>, e: Entry)
      requires EntryOk(e, data.Length) && home != data && Padded(Write(e.key, Payload(e, data[..])), home.Length)
      modifies home
      ensures home[..] == Poke(old(home[..]), e.key, Payload(e, data[..]))
    {
      if e.value.Inline? {
        NtStore(home, e.key, e.value.bytes);
      } else {
        NtStore(home, e.key, data[e.value.offset..e.value.offset + e.size]);
      }
    }

    method OnWrapClose(home: array<Byte>)
      requires Valid() && home !in Own() && (if delayWriteBack then AllWithin(Writes(), home.Length) else AllPadded(Writes(), home.Length))
      modifies this`lastIndex, this`flushed, entries, home
      ensures AllWithin(old(Writes()), home.Length) && home[..] == Replay(old(home[..]), old(Writes()))
      ensures Valid() && Writes() == [] && flushed == if delayWriteBack then [] else old(Writes())
    {
      RestoreToCacheHierarchy(home);
    }
  }
}
