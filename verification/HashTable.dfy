/** The open-addressing table behind the hash alias tables: linear probing over a
    power-of-two number of slots, key zero for a free slot, no deletion of single keys. */
module HashTable {
  import opened Bloom
  import opened Powers

  datatype Slot = Slot(key: nat, value: nat, size: nat)

  /** What a key is mapped to. */
  datatype Datum = Datum(value: nat, size: nat)

  ghost predicate PowerOfTwo(n: nat) {
    n == 1 || (n > 1 && n % 2 == 0 && PowerOfTwo(n / 2))
  }

  /** The slot `i` places behind `start` on the cycle. */
  function Along(start: nat, i: nat, n: nat): nat
    requires start < n && i <= n
  {
    if start + i < n then start + i else start + i - n
  }

  /** How far slot `j` is behind `start`. */
  ghost function Distance(start: nat, j: nat, n: nat): (d: nat)
    requires start < n && j < n
    ensures d < n && Along(start, d, n) == j
  {
    if j >= start then j - start else j + n - start
  }

  /** No slot between where the key of slot `j` hashes to and slot `j` is free. */
  ghost predicate Reached(slots: seq<Slot>, start: nat, j: nat)
    requires start < |slots| && j < |slots|
  {
    forall i | 0 <= i < Distance(start, j, |slots|) :: slots[Along(start, i, |slots|)].key != 0
  }

  ghost predicate DistinctKeys(slots: seq<Slot>) {
    forall i, j | 0 <= i < j < |slots| :: slots[i].key != 0 ==> slots[i].key != slots[j].key
  }

  function Home(hash: nat -> nat, key: nat, n: nat): nat
    requires n > 0
  {
    hash(key) % n
  }

  ghost predicate Probed(hash: nat -> nat, slots: seq<Slot>) {
    forall j | 0 <= j < |slots| :: slots[j].key != 0 ==> Reached(slots, Home(hash, slots[j].key, |slots|), j)
  }

  ghost predicate HasFree(slots: seq<Slot>) {
    exists j :: 0 <= j < |slots| && slots[j].key == 0
  }

  /** The number of slots in use. */
  ghost function Used(slots: seq<Slot>): nat {
    if slots == [] then 0 else (if slots[0].key != 0 then 1 else 0) + Used(slots[1..])
  }

  /** The map that the slots stand for, in whatever order. */
  ghost function MapOf(slots: seq<Slot>): map<nat, Datum>
    requires DistinctKeys(slots)
  {
    map j | 0 <= j < |slots| && slots[j].key != 0 :: slots[j].key := Datum(slots[j].value, slots[j].size)
  }

  lemma {:induction false} UsedUpdate(slots: seq<Slot>, j: nat, s: Slot)
    requires j < |slots|
    ensures Used(slots[j := s]) == Used(slots) - (if slots[j].key != 0 then 1 else 0) + (if s.key != 0 then 1 else 0)
  {
    if j > 0 {
      UsedUpdate(slots[1..], j - 1, s);
      assert slots[j := s][1..] == slots[1..][j - 1 := s];
    } else {
      assert slots[j := s][1..] == slots[1..];
    }
  }

  lemma {:induction false} UsedBound(slots: seq<Slot>)
    ensures Used(slots) <= |slots|
    ensures Used(slots) < |slots| ==> HasFree(slots)
    ensures (forall j | 0 <= j < |slots| :: slots[j].key == 0) ==> Used(slots) == 0
  {
    if slots != [] {
      UsedBound(slots[1..]);
      if Used(slots) < |slots| && slots[0].key != 0 {
        var j :| 0 <= j < |slots[1..]| && slots[1..][j].key == 0;
        assert slots[j + 1].key == 0;
      }
    }
  }

  /** With room for two, one slot stays free besides any given one. */
  lemma {:induction false} OtherFree(slots: seq<Slot>, j: nat)
    requires Used(slots) + 1 < |slots| && j < |slots|
    ensures exists i :: 0 <= i < |slots| && i != j && slots[i].key == 0
  {
    var full := slots[j := Slot(1, 0, 0)];
    UsedUpdate(slots, j, Slot(1, 0, 0));
    UsedBound(full);
    var i :| 0 <= i < |full| && full[i].key == 0;
    assert slots[i].key == 0 && i != j;
  }

  /** A probe that has met neither the key nor a free slot on its way. */
  ghost predicate Passed(slots: seq<Slot>, start: nat, l: nat, key: nat)
    requires start < |slots| && l <= |slots|
  {
    forall i | 0 <= i < l :: slots[Along(start, i, |slots|)].key != 0 && slots[Along(start, i, |slots|)].key != key
  }

  ghost predicate Absent(slots: seq<Slot>, key: nat) {
    forall j | 0 <= j < |slots| :: slots[j].key != key
  }

  /** A free slot met on the way means the key is not in the table. */
  lemma {:induction false} FreeMeansAbsent(hash: nat -> nat, slots: seq<Slot>, key: nat, l: nat)
    requires Probed(hash, slots) && key != 0 && l < |slots|
    requires Passed(slots, Home(hash, key, |slots|), l, key) && slots[Along(Home(hash, key, |slots|), l, |slots|)].key == 0
    ensures Absent(slots, key)
  {
    var start := Home(hash, key, |slots|);
    forall j | 0 <= j < |slots| ensures slots[j].key != key {
      if slots[j].key != 0 && Home(hash, slots[j].key, |slots|) == start {
        OnTheWay(slots, start, l, key, j);
      }
    }
  }

  lemma {:induction false} OnTheWay(slots: seq<Slot>, start: nat, l: nat, key: nat, j: nat)
    requires start < |slots| && l < |slots| && j < |slots| && key != 0 && Reached(slots, start, j)
    requires Passed(slots, start, l, key) && slots[Along(start, l, |slots|)].key == 0
    ensures slots[j].key != key
  {
    assert Distance(start, j, |slots|) <= l;
  }

  lemma {:induction false} DistinctUpdate(slots: seq<Slot>, j: nat, s: Slot)
    requires DistinctKeys(slots) && j < |slots| && s.key != 0
    requires slots[j].key == s.key || (slots[j].key == 0 && Absent(slots, s.key))
    ensures DistinctKeys(slots[j := s])
  {
  }

  /** The map of a table one of whose slots has been set. */
  lemma {:induction false} MapUpdate(slots: seq<Slot>, j: nat, s: Slot)
    requires DistinctKeys(slots) && j < |slots| && s.key != 0
    requires slots[j].key == s.key || (slots[j].key == 0 && Absent(slots, s.key))
    ensures DistinctKeys(slots[j := s]) && MapOf(slots[j := s]) == MapOf(slots)[s.key := Datum(s.value, s.size)]
  {
    var before, after := slots, slots[j := s];
    DistinctUpdate(slots, j, s);
    var m, m' := MapOf(before)[s.key := Datum(s.value, s.size)], MapOf(after);
    forall k | k in m' ensures k in m && m[k] == m'[k] {
      var i :| 0 <= i < |after| && after[i].key != 0 && after[i].key == k;
      SlotInMap(after, i);
      if i != j { SlotInMap(before, i); }
    }
    forall k | k in m ensures k in m' {
      if k == s.key {
        SlotInMap(after, j);
      } else {
        var i :| 0 <= i < |before| && before[i].key != 0 && before[i].key == k;
        assert i != j;
        SlotInMap(after, i);
      }
    }
  }

  lemma {:induction false} SlotInMap(slots: seq<Slot>, i: nat)
    requires DistinctKeys(slots) && i < |slots| && slots[i].key != 0
    ensures slots[i].key in MapOf(slots) && MapOf(slots)[slots[i].key] == Datum(slots[i].value, slots[i].size)
  {
  }

  lemma {:induction false} AbsentFromMap(slots: seq<Slot>, key: nat)
    requires DistinctKeys(slots) && Absent(slots, key)
    ensures key !in MapOf(slots)
  {
  }

  /** A probe ends before it comes round to where it began. */
  lemma {:induction false} ProbeEnds(slots: seq<Slot>, start: nat, l: nat, key: nat, j: nat)
    requires start < |slots| && l <= |slots| && Passed(slots, start, l, key) && j < |slots| && slots[j].key == 0
    ensures Distance(start, j, |slots|) >= l && l < |slots|
  {
  }

  /** Setting a slot keeps every probe path free of holes. */
  lemma {:induction false} ProbedUpdate(hash: nat -> nat, slots: seq<Slot>, j: nat, s: Slot)
    requires Probed(hash, slots) && j < |slots| && s.key != 0
    requires slots[j].key == 0 || slots[j].key == s.key
    requires Reached(slots, Home(hash, s.key, |slots|), j)
    ensures Probed(hash, slots[j := s])
  {
    var after := slots[j := s];
    forall i | 0 <= i < |after| && after[i].key != 0 ensures Reached(after, Home(hash, after[i].key, |after|), i) {
      assert Reached(slots, Home(hash, after[i].key, |slots|), i);
    }
  }

  /** From slot `hash(key) mod n` on around the table, the first slot that is free or has the key. */
  ghost predicate FirstFor(hash: nat -> nat, slots: seq<Slot>, key: nat, j: nat) {
    && j < |slots| && (slots[j].key == 0 || slots[j].key == key)
    && forall i | 0 <= i < |slots| && (i - hash(key)) % |slots| < (j - hash(key)) % |slots| :: slots[i].key != 0 && slots[i].key != key
  }

  /** A probe for the key ends at it. */
  ghost predicate Finds(hash: nat -> nat, slots: seq<Slot>, key: nat) {
    exists j: nat :: FirstFor(hash, slots, key, j) && slots[j].key == key
  }

  /** There is only one such slot, so a probe that ends at a free one does not find the key. */
  lemma {:induction false} FirstIsOne(hash: nat -> nat, slots: seq<Slot>, key: nat, i: nat, j: nat)
    requires FirstFor(hash, slots, key, i) && FirstFor(hash, slots, key, j)
    ensures i == j
  {
    CyclicDistance(hash(key), i, |slots|);
    CyclicDistance(hash(key), j, |slots|);
  }

  lemma {:induction false} ProbeDecides(hash: nat -> nat, slots: seq<Slot>, key: nat, i: nat)
    requires FirstFor(hash, slots, key, i)
    ensures Finds(hash, slots, key) <==> slots[i].key == key
  {
    if Finds(hash, slots, key) {
      var j: nat :| FirstFor(hash, slots, key, j) && slots[j].key == key;
      FirstIsOne(hash, slots, key, i, j);
    }
  }

  lemma {:induction false} PassedIsFirst(hash: nat -> nat, slots: seq<Slot>, key: nat, l: nat, j: nat)
    requires slots != [] && l < |slots| && j == Along(Home(hash, key, |slots|), l, |slots|)
    requires Passed(slots, Home(hash, key, |slots|), l, key) && (slots[j].key == 0 || slots[j].key == key)
    ensures FirstFor(hash, slots, key, j)
  {
    var n, start := |slots|, Home(hash, key, |slots|);
    CyclicDistance(hash(key), j, n);
    forall i | 0 <= i < n && (i - hash(key)) % n < (j - hash(key)) % n ensures slots[i].key != 0 && slots[i].key != key {
      CyclicDistance(hash(key), i, n);
      assert slots[Along(start, Distance(start, i, n), n)].key != 0;
    }
  }

  lemma {:induction false} FirstOnTheWay(hash: nat -> nat, slots: seq<Slot>, key: nat, j: nat)
    requires DistinctKeys(slots) && key != 0 && j < |slots| && Reached(slots, Home(hash, key, |slots|), j)
    requires slots[j].key == key || (slots[j].key == 0 && Absent(slots, key))
    ensures FirstFor(hash, slots, key, j)
  {
    var n, start := |slots|, Home(hash, key, |slots|);
    CyclicDistance(hash(key), j, n);
    forall i | 0 <= i < n && (i - hash(key)) % n < (j - hash(key)) % n ensures slots[i].key != 0 && slots[i].key != key {
      CyclicDistance(hash(key), i, n);
      assert slots[Along(start, Distance(start, i, n), n)].key != 0;
    }
  }

  lemma {:induction false} CyclicDistance(h: nat, i: nat, n: nat)
    requires i < n
    ensures (i - h) % n == Distance(h % n, i, n)
  {
    var start, q := h % n, h / n;
    assert h == n * q + start;
    if i >= start {
      assert i - h == n * (-q) + (i - start);
      Quotient(n, -q, i - start);
      BelowIsItself(i - start, n);
    } else {
      assert i - h == n * (-q - 1) + (i + n - start);
      Quotient(n, -q - 1, i + n - start);
      BelowIsItself(i + n - start, n);
    }
  }

  lemma {:induction false} BelowIsItself(x: nat, n: nat)
    requires x < n
    ensures x % n == x
  {
  }

  /** Every key in the table passes the filter. */
  ghost predicate Filtered(slots: seq<Slot>, flags: iset<nat>) {
    forall j | 0 <= j < |slots| :: slots[j].key != 0 ==> slots[j].key in flags
  }

  class LFHT {
    const entries: array<Slot>
    const hash: nat -> nat
    const bloom: BloomFilter
    var numItems: nat

    ghost predicate Shaped() {
      PowerOfTwo(entries.Length) && bloom.words.Length == BLOOM_SIZE && (entries as object) != (bloom.words as object)
    }

    ghost predicate Valid()
      reads this, entries, bloom, bloom.words
    {
      && Shaped() && bloom.Valid()
      && DistinctKeys(entries[..]) && Probed(hash, entries[..]) && HasFree(entries[..])
      && Filtered(entries[..], bloom.flags)
    }

    ghost function Contents(): map<nat, Datum>
      requires Valid()
      reads this, entries, bloom, bloom.words
    {
      MapOf(entries[..])
    }

    constructor (size: nat, h: nat -> nat)
      requires PowerOfTwo(size)
      ensures Valid() && Contents() == map[] && numItems == 0 && Used(entries[..]) == 0
      ensures entries.Length == size && hash == h && fresh(entries) && fresh(bloom) && fresh(bloom.words)
      ensures forall i | 0 <= i < entries.Length :: entries[i] == Slot(0, 0, 0)
    {
      entries := new Slot[size](_ => Slot(0, 0, 0));
      hash := h;
      bloom := new BloomFilter();
      numItems := 0;
      new;
      Clear();
    }

    /** Free every slot. The count of items is left as it is. */
    method Clear()
      requires Shaped()
      modifies entries, bloom, bloom.words
      ensures Valid() && Contents() == map[] && Used(entries[..]) == 0
      ensures forall i | 0 <= i < entries.Length :: entries[i] == Slot(0, 0, 0)
    {
      for i := 0 to entries.Length
        invariant forall j | 0 <= j < i :: entries[j] == Slot(0, 0, 0)
      {
        entries[i] := Slot(0, 0, 0);
      }
      bloom.ClearBloom();
      UsedBound(entries[..]);
      assert entries[..][0].key == 0;
    }

    /** Look a key up: its value and size, or zeros. */
    method GetItem(key: nat) returns (value: nat, size: nat)
      requires Valid() && key != 0
      ensures if key in Contents() then Contents()[key] == Datum(value, size) else value == size == 0
    {
      var idx, found := Probe(key);
      if found {
        value, size := entries[idx].value, entries[idx].size;
        SlotInMap(entries[..], idx);
      } else {
        value, size := 0, 0;
        AbsentFromMap(entries[..], key);
      }
    }

    /** A probe of the table ends, and the filter lets every key pass, though some may be hidden
        behind slots that have been freed. */
    ghost predicate Searchable()
      reads this, entries, bloom, bloom.words
    {
      Shaped() && bloom.Valid() && HasFree(entries[..]) && Filtered(entries[..], bloom.flags)
    }

    /** The slot of a key, if the filter and the probe find one. */
    method GetItemAddress(key: nat) returns (found: bool, idx: nat)
      requires Searchable() && key != 0
      ensures found <==> Finds(hash, entries[..], key)
      ensures found ==> FirstFor(hash, entries[..], key, idx) && entries[idx].key == key
      ensures Valid() ==> (found <==> key in Contents())
      ensures Valid() && found ==> Contents()[key] == Datum(entries[idx].value, entries[idx].size)
    {
      ghost var slots := entries[..];
      idx := 0;
      found := bloom.CheckBloom(key);
      if found {
        idx, found := Probe(key);
        ProbeDecides(hash, slots, key, idx);
      }
      if Valid() {
        if found { SlotInMap(slots, idx); } else { AbsentFromMap(slots, key); }
      }
    }

    /** The probe loop of both lookups. It ends at a free slot at the latest. */
    method Probe(key: nat) returns (idx: nat, found: bool)
      requires HasFree(entries[..]) && key != 0
      ensures FirstFor(hash, entries[..], key, idx) && found == (entries[idx].key == key)
      ensures Probed(hash, entries[..]) && !found ==> Absent(entries[..], key)
    {
      ghost var slots := entries[..];
      ghost var free: nat :| free < |slots| && slots[free].key == 0;
      ghost var start := Home(hash, key, entries.Length);
      ghost var l: nat := 0;
      idx := hash(key) % entries.Length;
      while entries[idx].key != key && entries[idx].key != 0
        invariant l < |slots| && idx == Along(start, l, |slots|)
        invariant Passed(slots, start, l, key)
        decreases |slots| - l
      {
        l := l + 1;
        ProbeEnds(slots, start, l, key, free);
        NextAlong(start, l - 1, entries.Length);
        idx := (idx + 1) % entries.Length;
      }
      found := entries[idx].key == key;
      PassedIsFirst(hash, slots, key, l, idx);
      if !found && Probed(hash, slots) {
        FreeMeansAbsent(hash, slots, key, l);
      }
    }

    /** Map a key to a value. With a slot to spare the probe stays short of a full round. */
    method SetItem(key: nat, value: nat, size: nat) returns (idx: nat)
      requires Valid() && key != 0 && Used(entries[..]) + 1 < entries.Length
      modifies this`numItems, entries, bloom`flags, bloom.words
      ensures Valid() && Contents() == old(Contents())[key := Datum(value, size)]
      ensures idx < entries.Length && entries[..] == old(entries[..])[idx := Slot(key, value, size)]
      ensures FirstFor(hash, old(entries[..]), key, idx)
      ensures var new_ := if key in old(Contents()) then 0 else 1;
              numItems == old(numItems) + new_ && Used(entries[..]) == old(Used(entries[..])) + new_
    {
      ghost var slots := entries[..];
      SetFilter(key);
      idx := FindSlot(key);
      FirstOnTheWay(hash, slots, key, idx);
      SetFacts(hash, slots, idx, Slot(key, value, size));
      PutSlot(idx, key, value, size);
    }

    method SetFilter(key: nat)
      requires Valid()
      modifies bloom`flags, bloom.words
      ensures bloom.Valid() && Filtered(entries[..], bloom.flags) && key in bloom.flags
    {
      bloom.SetBloom(key);
      forall j | 0 <= j < entries.Length && entries[j].key != 0 ensures entries[j].key in bloom.flags {
        assert old(bloom.Flagged(entries[j].key)) ==> bloom.Flagged(entries[j].key);
      }
      assert bloom.Flagged(key);
    }

    method PutSlot(idx: nat, key: nat, value: nat, size: nat)
      requires idx < entries.Length && key != 0 && (entries[idx].key == 0 || entries[idx].key == key)
      modifies this`numItems, entries
      ensures entries[..] == old(entries[..])[idx := Slot(key, value, size)]
      ensures numItems == old(numItems) + if old(entries[idx].key) == 0 then 1 else 0
    {
      if entries[idx].key != key {
        entries[idx] := entries[idx].(key := key);
        numItems := numItems + 1;
      }
      entries[idx] := entries[idx].(value := value, size := size);
    }

    /** The probe loop of `SetItem`, with its limit on the number of probes. */
    method FindSlot(key: nat) returns (idx: nat)
      requires DistinctKeys(entries[..]) && Probed(hash, entries[..]) && key != 0 && Used(entries[..]) + 1 < entries.Length
      ensures idx < entries.Length && (entries[idx].key == key || (entries[idx].key == 0 && Absent(entries[..], key)))
      ensures Reached(entries[..], Home(hash, key, entries.Length), idx)
    {
      hide Absent, DistinctKeys, Used;
      ghost var slots := entries[..];
      ghost var start := Home(hash, key, entries.Length);
      ghost var last := Along(start, entries.Length - 1, entries.Length);
      OtherFree(slots, last);
      ghost var free: nat :| free < |slots| && free != last && slots[free].key == 0;
      idx := hash(key) % entries.Length;
      var l := 1;
      while entries[idx].key != key && entries[idx].key != 0
        invariant 1 <= l < entries.Length && idx == Along(start, l - 1, |slots|)
        invariant Passed(slots, start, l - 1, key)
        decreases |slots| - l
      {
        ProbeEnds(slots, start, l, key, free);
        BeforeLast(start, free, |slots|);
        NextAlong(start, l - 1, entries.Length);
        idx := (idx + 1) % entries.Length;
        l := l + 1;
        assert l < entries.Length;
      }
      if entries[idx].key == 0 {
        FreeMeansAbsent(hash, slots, key, l - 1);
      }
      assert Distance(start, idx, |slots|) == l - 1;
    }
  }

  lemma {:induction false} NextAlong(start: nat, l: nat, n: nat)
    requires start < n && l + 1 < n
    ensures (Along(start, l, n) + 1) % n == Along(start, l + 1, n)
  {
    SmallMod(Along(start, l, n), n);
  }

  lemma {:induction false} SmallMod(i: nat, n: nat)
    requires i < n
    ensures (i + 1) % n == if i + 1 == n then 0 else i + 1
  {
  }

  /** A slot other than the last of the round is met before the last. */
  lemma {:induction false} BeforeLast(start: nat, j: nat, n: nat)
    requires start < n && j < n && j != Along(start, n - 1, n)
    ensures Distance(start, j, n) < n - 1
  {
  }

  lemma {:induction false} SetFacts(hash: nat -> nat, slots: seq<Slot>, j: nat, s: Slot)
    requires DistinctKeys(slots) && Probed(hash, slots) && s.key != 0 && Used(slots) + 1 < |slots| && j < |slots|
    requires slots[j].key == s.key || (slots[j].key == 0 && Absent(slots, s.key))
    requires Reached(slots, Home(hash, s.key, |slots|), j)
    ensures var after := slots[j := s];
            && DistinctKeys(after) && Probed(hash, after) && HasFree(after)
            && MapOf(after) == MapOf(slots)[s.key := Datum(s.value, s.size)]
            && (slots[j].key == 0 <==> s.key !in MapOf(slots))
            && Used(after) == Used(slots) + if slots[j].key == 0 then 1 else 0
  {
    MapUpdate(slots, j, s);
    ProbedUpdate(hash, slots, j, s);
    UsedUpdate(slots, j, s);
    OtherFree(slots, j);
    var i :| 0 <= i < |slots| && i != j && slots[i].key == 0;
    assert slots[j := s][i].key == 0;
    if slots[j].key == 0 { AbsentFromMap(slots, s.key); } else { SlotInMap(slots, j); }
  }
}
