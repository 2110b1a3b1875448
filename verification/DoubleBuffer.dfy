/** Two hash alias tables, one in use while the other is retired in the background:
    stores, table swaps and single retirement steps in any interleaving. */
module DoubleBuffer {
  import opened Memory
  import opened HashTable
  import opened Variables
  import opened Retirement

  /** Where the retirement loop is: which slot, and whether that slot has been stored home. */
  datatype Scan = Idle | At(tableA: bool, i: nat, stored: bool)

  /** `toClear` says that a swap has been made and the table gone over to not yet cleared. */
  datatype State = State(home: seq<Byte>, a: seq<Slot>, b: seq<Slot>, activeA: bool, retireA: bool, retireB: bool, toClear: bool, scan: Scan)

  ghost function Active(s: State): seq<Slot> {
    if s.activeA then s.a else s.b
  }

  ghost function Other(s: State): seq<Slot> {
    if s.activeA then s.b else s.a
  }

  /** Whether the table not in use is being retired. */
  ghost predicate Retiring(s: State) {
    if s.activeA then s.retireB else s.retireA
  }

  // ---- Steps ----

  /** A store into the table in use: the slot is the key's own, or the first free one on its way. */
  ghost predicate StoreStep(hash: nat -> nat, s: State, s': State, v: Store) {
    !s.toClear && exists j: nat ::
      && SetsSlot(hash, Active(s), j, v)
      && s' == if s.activeA then s.(a := s.a[j := Slot(v.key, v.value, v.size)]) else s.(b := s.b[j := Slot(v.key, v.value, v.size)])
  }

  ghost predicate SetsSlot(hash: nat -> nat, slots: seq<Slot>, j: nat, v: Store) {
    && j < |slots| && v.key != 0
    && (slots[j].key == v.key || (slots[j].key == 0 && Absent(slots, v.key)))
    && Reached(slots, Home(hash, v.key, |slots|), j)
  }

  /** The close of a wrap that finds the table in use too full: wait until the other is
      not being retired, hand this one to the retirement thread, and go over to the other. */
  ghost predicate SwapStep(s: State, s': State) {
    !s.toClear &&
    if s.activeA then !s.retireB && s' == s.(retireA := true, activeA := false, toClear := true)
    else !s.retireA && s' == s.(retireB := true, activeA := true, toClear := true)
  }

  /** After a swap the table gone over to is cleared, without the lock. */
  ghost predicate ClearStep(s: State, s': State) {
    s.toClear && s' == if s.activeA then s.(a := FreeSlots(|s.a|), toClear := false) else s.(b := FreeSlots(|s.b|), toClear := false)
  }

  function FreeSlots(n: nat): seq<Slot> {
    seq(n, _ => Slot(0, 0, 0))
  }

  ghost function Scanned(s: State): seq<Slot>
    requires s.scan.At?
  {
    if s.scan.tableA then s.a else s.b
  }

  ghost predicate RetireStep(s: State, s': State) {
    match s.scan
    case Idle =>
      || (s.retireA && s' == s.(scan := At(true, 0, false)))
      || (s.retireB && s' == s.(scan := At(false, 0, false)))
    case At(tableA, i, stored) =>
      var slots := Scanned(s);
      if i >= |slots| then s' == (if tableA then s.(retireA := false, scan := Idle) else s.(retireB := false, scan := Idle))
      else if slots[i].key == 0 then s' == s.(scan := At(tableA, i + 1, false))
      else if !stored then
        Storable(slots[i].size) && Within(SlotWrite(slots[i]), |s.home|)
        && s' == s.(home := Poke(s.home, slots[i].key, SlotWrite(slots[i]).data), scan := At(tableA, i, true))
      else
        var freed := slots[i := slots[i].(key := 0)];
        s' == if tableA then s.(a := freed, scan := At(tableA, i + 1, false)) else s.(b := freed, scan := At(tableA, i + 1, false))
  }

  // ---- What every step keeps ----

  ghost predicate NoneInUse(slots: seq<Slot>) {
    forall j | 0 <= j < |slots| :: slots[j].key == 0
  }

  /** At most the table not in use is being retired, and when it is not it is empty. */
  ghost predicate Protocol(hash: nat -> nat, s: State) {
    && (if s.activeA then !s.retireA else !s.retireB)
    && (!Retiring(s) ==> NoneInUse(Other(s)) && s.scan.Idle?)
    && (s.toClear ==> NoneInUse(Active(s)))
    && Active(s) != [] && Other(s) != []
    && DistinctKeys(Active(s)) && Probed(hash, Active(s)) && DistinctKeys(Other(s))
    && (s.scan.At? ==>
          && s.scan.tableA != s.activeA && s.scan.i <= |Other(s)|
          && (forall j | 0 <= j < s.scan.i :: Other(s)[j].key == 0)
          && (s.scan.stored ==> s.scan.i < |Other(s)| && Other(s)[s.scan.i].key != 0 && HasValue(s.home, Other(s)[s.scan.i])))
  }

  /** Home memory holds the value of this slot. */
  ghost predicate HasValue(home: seq<Byte>, t: Slot) {
    t.key + t.size <= |home| && home[t.key..t.key + t.size] == LE(t.size, t.value)
  }

  ghost predicate HomeHas(home: seq<Byte>, k: nat, d: Datum) {
    HasValue(home, Slot(k, d.value, d.size))
  }

  /** Each variable's last value is in the table in use, else in the other, else home;
      whatever is no variable is as it was. */
  ghost predicate Conserved(home: seq<Byte>, active: seq<Slot>, other: seq<Slot>, before: seq<Byte>, m: map<nat, Datum>) {
    && |home| == |before| && Disjoint(m)
    && (forall k | k in m :: k + m[k].size <= |before|)
    && (forall j | 0 <= j < |active| && active[j].key != 0 :: Latest(active[j], m))
    && (forall j | 0 <= j < |other| && other[j].key != 0 :: other[j].key in m && other[j].size == m[other[j].key].size)
    && (forall j | 0 <= j < |other| && other[j].key != 0 :: Absent(active, other[j].key) ==> Latest(other[j], m))
    && (forall k | k in m && k != 0 && Absent(active, k) && Absent(other, k) :: HomeHas(home, k, m[k]))
    && 0 !in m
    && (forall a | 0 <= a < |before| :: (forall k :: !InVariable(m, k, a)) ==> home[a] == before[a])
  }

  ghost predicate Latest(t: Slot, m: map<nat, Datum>) {
    t.key in m && m[t.key] == Datum(t.value, t.size)
  }

  ghost predicate Invariant(hash: nat -> nat, s: State, before: seq<Byte>, stores: seq<Store>) {
    && FixedWidth(stores) && AllWithin(WritesOf(stores), |before|)
    && Protocol(hash, s)
    && Conserved(s.home, Active(s), Other(s), before, LastStores(stores))
  }

  /** The state in which nothing has been stored. */
  ghost predicate Initial(s: State) {
    && NoneInUse(s.a) && NoneInUse(s.b) && s.a != [] && s.b != []
    && s.activeA && !s.retireA && !s.retireB && !s.toClear && s.scan.Idle?
  }

  lemma {:induction false} InitialHolds(hash: nat -> nat, s: State)
    requires Initial(s)
    ensures Invariant(hash, s, s.home, [])
  {
    AllFree(s.a);
    AllFree(s.b);
  }

  /** A store makes the new value the latest one, wherever the old one was. */
  lemma {:induction false} StoreConserves(home: seq<Byte>, active: seq<Slot>, other: seq<Slot>, before: seq<Byte>,
                                          stores: seq<Store>, v: Store, j: nat)
    requires Conserved(home, active, other, before, LastStores(stores)) && DistinctKeys(active)
    requires FixedWidth(stores + [v]) && AllWithin(WritesOf(stores + [v]), |before|) && v.key != 0 && j < |active|
    requires active[j].key == v.key || (active[j].key == 0 && Absent(active, v.key))
    ensures Conserved(home, active[j := Slot(v.key, v.value, v.size)], other, before, LastStores(stores + [v]))
  {
    var d := Datum(v.value, v.size);
    assert (stores + [v])[..|stores|] == stores;
    assert LastStores(stores + [v]) == LastStores(stores)[v.key := d];
    assert Disjoint(LastStores(stores + [v])) by { StoresMakeImage(before, stores + [v]); }
    StoreSizes(stores, v, |before|);
    OneMoreLatest(home, active, other, before, LastStores(stores), v.key, d, j);
  }

  lemma {:induction false} OneMoreLatest(home: seq<Byte>, active: seq<Slot>, other: seq<Slot>, before: seq<Byte>,
                                         m: map<nat, Datum>, key: nat, d: Datum, j: nat)
    requires Conserved(home, active, other, before, m) && DistinctKeys(active) && Disjoint(m[key := d])
    requires key != 0 && j < |active| && (active[j].key == key || (active[j].key == 0 && Absent(active, key)))
    requires key + d.size <= |before| && (key in m ==> m[key].size == d.size)
    ensures Conserved(home, active[j := Slot(key, d.value, d.size)], other, before, m[key := d])
  {
    var m', active' := m[key := d], active[j := Slot(key, d.value, d.size)];
    forall i | 0 <= i < |active'| && active'[i].key != 0 ensures Latest(active'[i], m') {
      if i != j {
        assert Latest(active[i], m);
      }
    }
    forall k | k != 0 && Absent(active', k) ensures Absent(active, k) && k != key {
      AbsentBefore(active, j, active'[j], k);
    }
    forall k | k in m' && k != 0 && Absent(active', k) && Absent(other, k) ensures HomeHas(home, k, m'[k]) {
      assert k in m && m'[k] == m[k];
    }
    UntouchedStays(home, before, m, m');
  }

  lemma {:induction false} UntouchedStays(home: seq<Byte>, before: seq<Byte>, m: map<nat, Datum>, m': map<nat, Datum>)
    requires |home| == |before| && forall k | k in m :: k in m' && m'[k].size == m[k].size
    requires forall a | 0 <= a < |before| :: (forall k :: !InVariable(m, k, a)) ==> home[a] == before[a]
    ensures forall a | 0 <= a < |before| :: (forall k :: !InVariable(m', k, a)) ==> home[a] == before[a]
  {
    forall a | 0 <= a < |before| && forall k :: !InVariable(m', k, a) ensures home[a] == before[a] {
      forall k ensures !InVariable(m, k, a) {
        assert !InVariable(m', k, a);
      }
    }
  }

  lemma {:induction false} AbsentBefore(slots: seq<Slot>, j: nat, t: Slot, k: nat)
    requires j < |slots| && Absent(slots[j := t], k) && (slots[j].key == t.key || slots[j].key == 0) && k != 0
    ensures Absent(slots, k) && k != t.key
  {
    assert slots[j := t][j].key == t.key;
    forall i | 0 <= i < |slots| ensures slots[i].key != k {
      assert i != j ==> slots[j := t][i] == slots[i];
    }
  }

  lemma {:induction false} StoreSizes(stores: seq<Store>, v: Store, size: nat)
    requires FixedWidth(stores + [v]) && AllWithin(WritesOf(stores + [v]), size)
    ensures v.key + v.size <= size && (v.key in LastStores(stores) ==> LastStores(stores)[v.key].size == v.size)
  {
    var all := stores + [v];
    assert Within(WritesOf(all)[|stores|], size);
    assert FixedWidth(stores) by {
      forall i, j | 0 <= i < j < |stores| ensures all[i] == stores[i] && all[j] == stores[j] {
      }
    }
    assert AllWithin(WritesOf(stores), size) by {
      forall i | 0 <= i < |stores| ensures Within(WritesOf(stores)[i], size) {
        assert Within(WritesOf(all)[i], size);
      }
    }
    if v.key in LastStores(stores) {
      StoresMakeImage(seq(size, _ => 0), stores);
      var i :| 0 <= i < |stores| && stores[i].key == v.key && stores[i].size == LastStores(stores)[v.key].size;
      assert all[i] == stores[i] && all[|stores|] == v;
    }
  }

  /** Going over to an empty table leaves every value where it was. */
  lemma {:induction false} SwapConserves(home: seq<Byte>, active: seq<Slot>, other: seq<Slot>, before: seq<Byte>, m: map<nat, Datum>)
    requires Conserved(home, active, other, before, m) && NoneInUse(other)
    ensures Conserved(home, other, active, before, m)
  {
  }

  /** Storing a slot of the other table home changes no value that is looked for at home. */
  lemma {:induction false} StoreHomeConserves(home: seq<Byte>, active: seq<Slot>, other: seq<Slot>, before: seq<Byte>, m: map<nat, Datum>, i: nat)
    requires Conserved(home, active, other, before, m) && i < |other| && other[i].key != 0
    ensures Within(SlotWrite(other[i]), |home|)
    ensures Conserved(Poke(home, other[i].key, SlotWrite(other[i]).data), active, other, before, m)
    ensures HasValue(Poke(home, other[i].key, SlotWrite(other[i]).data), other[i])
  {
    var t := other[i];
    var home' := Poke(home, t.key, SlotWrite(t).data);
    assert home'[t.key..t.key + t.size] == LE(t.size, t.value);
    forall k | k in m && k != 0 && Absent(active, k) && Absent(other, k) ensures HomeHas(home', k, m[k]) {
      assert k != t.key;
      assert home'[k..k + m[k].size] == home[k..k + m[k].size];
    }
    forall a | 0 <= a < |before| && forall k :: !InVariable(m, k, a) ensures home'[a] == before[a] {
      assert !InVariable(m, t.key, a);
    }
  }

  /** Freeing a slot whose value is home loses nothing. */
  lemma {:induction false} FreeConserves(home: seq<Byte>, active: seq<Slot>, other: seq<Slot>, before: seq<Byte>, m: map<nat, Datum>, i: nat)
    requires Conserved(home, active, other, before, m) && i < |other| && other[i].key != 0 && HasValue(home, other[i])
    requires DistinctKeys(other)
    ensures Conserved(home, active, other[i := other[i].(key := 0)], before, m)
  {
    var other' := other[i := other[i].(key := 0)];
    forall k | k in m && k != 0 && Absent(active, k) && Absent(other', k) ensures HomeHas(home, k, m[k]) {
      if k == other[i].key {
        assert Latest(other[i], m);
      } else {
        forall j | 0 <= j < |other| ensures other[j].key != k {
          assert j != i ==> other'[j] == other[j];
        }
      }
    }
  }

  datatype Event = Stored(store: Store) | Swapped | Cleared | Retired

  ghost predicate Next(hash: nat -> nat, s: State, e: Event, s': State) {
    match e
    case Stored(v) => StoreStep(hash, s, s', v)
    case Swapped => SwapStep(s, s')
    case Cleared => ClearStep(s, s')
    case Retired => RetireStep(s, s')
  }

  ghost function StoresOf(events: seq<Event>): seq<Store> {
    if events == [] then []
    else
      var e := events[|events| - 1];
      StoresOf(events[..|events| - 1]) + if e.Stored? then [e.store] else []
  }

  lemma {:induction false} StoreKeeps(hash: nat -> nat, s: State, s': State, before: seq<Byte>, stores: seq<Store>, v: Store)
    requires Invariant(hash, s, before, stores) && StoreStep(hash, s, s', v)
    requires FixedWidth(stores + [v]) && AllWithin(WritesOf(stores + [v]), |before|)
    ensures Invariant(hash, s', before, stores + [v])
  {
    var j: nat :| SetsSlot(hash, Active(s), j, v)
                  && s' == if s.activeA then s.(a := s.a[j := Slot(v.key, v.value, v.size)]) else s.(b := s.b[j := Slot(v.key, v.value, v.size)]);
    StoreConserves(s.home, Active(s), Other(s), before, stores, v, j);
    MapUpdate(Active(s), j, Slot(v.key, v.value, v.size));
    ProbedUpdate(hash, Active(s), j, Slot(v.key, v.value, v.size));
  }

  lemma {:induction false} SwapKeeps(hash: nat -> nat, s: State, s': State, before: seq<Byte>, stores: seq<Store>)
    requires Invariant(hash, s, before, stores) && SwapStep(s, s')
    ensures Invariant(hash, s', before, stores)
  {
    SwapConserves(s.home, Active(s), Other(s), before, LastStores(stores));
  }

  lemma {:induction false} ClearKeeps(hash: nat -> nat, s: State, s': State, before: seq<Byte>, stores: seq<Store>)
    requires Invariant(hash, s, before, stores) && ClearStep(s, s')
    ensures Invariant(hash, s', before, stores)
  {
    assert NoneInUse(Active(s'));
    assert Other(s') == Other(s) && |Active(s')| == |Active(s)|;
    assert forall k | k != 0 :: Absent(Active(s), k) && Absent(Active(s'), k);
  }

  /** The step is at a slot in use. */
  ghost predicate AtSlot(s: State) {
    s.scan.At? && s.scan.i < |Scanned(s)| && Scanned(s)[s.scan.i].key != 0
  }

  lemma {:induction false} RetireKeeps(hash: nat -> nat, s: State, s': State, before: seq<Byte>, stores: seq<Store>)
    requires Invariant(hash, s, before, stores) && RetireStep(s, s')
    ensures Invariant(hash, s', before, stores)
  {
    hide Invariant, RetireStep;
    if !AtSlot(s) {
      MoveOnKeeps(hash, s, s', before, stores);
    } else if s.scan.stored {
      FreeSlotKeeps(hash, s, s', before, stores);
    } else {
      StoreSlotKeeps(hash, s, s', before, stores);
    }
  }

  lemma {:induction false} MoveOnKeeps(hash: nat -> nat, s: State, s': State, before: seq<Byte>, stores: seq<Store>)
    requires Invariant(hash, s, before, stores) && RetireStep(s, s') && !AtSlot(s)
    ensures Invariant(hash, s', before, stores)
  {
    hide Probed, DistinctKeys, Conserved, LastStores, HasValue;
  }

  lemma {:induction false} FreeSlotKeeps(hash: nat -> nat, s: State, s': State, before: seq<Byte>, stores: seq<Store>)
    requires Invariant(hash, s, before, stores) && RetireStep(s, s') && AtSlot(s) && s.scan.stored
    ensures Invariant(hash, s', before, stores)
  {
    hide Probed, Conserved, LastStores, HasValue;
    var i, slots := s.scan.i, Other(s);
    assert Scanned(s) == slots;
    FreeConserves(s.home, Active(s), slots, before, LastStores(stores), i);
    assert Other(s') == slots[i := slots[i].(key := 0)] && Active(s') == Active(s);
  }

  lemma {:induction false} StoreSlotKeeps(hash: nat -> nat, s: State, s': State, before: seq<Byte>, stores: seq<Store>)
    requires Invariant(hash, s, before, stores) && RetireStep(s, s') && AtSlot(s) && !s.scan.stored
    ensures Invariant(hash, s', before, stores)
  {
    hide Probed, DistinctKeys, Conserved, LastStores, HasValue, Poke;
    assert Scanned(s) == Other(s);
    StoreHomeConserves(s.home, Active(s), Other(s), before, LastStores(stores), s.scan.i);
  }

  /** A run: the states between the events. */
  ghost predicate Run(hash: nat -> nat, states: seq<State>, events: seq<Event>) {
    && |states| == |events| + 1 && Initial(states[0])
    && forall i | 0 <= i < |events| :: Next(hash, states[i], events[i], states[i + 1])
  }

  /** The stores of a run go to variables of home memory. */
  ghost predicate StoresFit(stores: seq<Store>, size: nat) {
    FixedWidth(stores) && AllWithin(WritesOf(stores), size)
  }

  lemma {:induction false} PrefixFits(stores: seq<Store>, v: Store, size: nat)
    requires StoresFit(stores + [v], size)
    ensures StoresFit(stores, size)
  {
    var all := stores + [v];
    forall i, j | 0 <= i < j < |stores| ensures all[i] == stores[i] && all[j] == stores[j] {
    }
    forall i | 0 <= i < |stores| ensures Within(WritesOf(stores)[i], size) {
      assert Within(WritesOf(all)[i], size);
    }
  }

  /** Every state of every run satisfies the invariant. */
  lemma {:induction false} RunKeeps(hash: nat -> nat, states: seq<State>, events: seq<Event>)
    requires Run(hash, states, events) && StoresFit(StoresOf(events), |states[0].home|)
    ensures Invariant(hash, states[|events|], states[0].home, StoresOf(events))
    decreases |events|
  {
    if events == [] {
      InitialHolds(hash, states[0]);
    } else {
      var n := |events| - 1;
      var before, stores, e := states[0].home, StoresOf(events[..n]), events[n];
      assert stores + [] == stores;
      if e.Stored? { PrefixFits(stores, e.store, |before|); }
      RunKeeps(hash, states[..n + 1], events[..n]);
      assert Next(hash, states[n], e, states[n + 1]);
      match e
      case Stored(v) => StoreKeeps(hash, states[n], states[n + 1], before, stores, v);
      case Swapped => SwapKeeps(hash, states[n], states[n + 1], before, stores);
      case Cleared => ClearKeeps(hash, states[n], states[n + 1], before, stores);
      case Retired => RetireKeeps(hash, states[n], states[n + 1], before, stores);
    }
  }

  /** Home memory overlaid by the table being retired and then by the one in use. */
  ghost function Logical(s: State): seq<Byte>
    requires AllWithin(TableWrites(Other(s)), |s.home|) && AllWithin(TableWrites(Active(s)), |s.home|)
  {
    Replay(Replay(s.home, TableWrites(Other(s))), TableWrites(Active(s)))
  }

  lemma {:induction false} TablesWithin(slots: seq<Slot>, m: map<nat, Datum>, size: nat)
    requires forall j | 0 <= j < |slots| && slots[j].key != 0 :: slots[j].key in m && slots[j].size == m[slots[j].key].size
    requires forall k | k in m :: k + m[k].size <= size
    requires DistinctKeys(slots) && Disjoint(m)
    ensures AllWithin(TableWrites(slots), size) && Disjoint(MapOf(slots))
  {
    var ws := TableWrites(slots);
    forall i | 0 <= i < |ws| ensures Within(ws[i], size) {
      var j := SlotOfWrite(slots, ws[i]);
    }
    forall j, k | j in MapOf(slots) && k in MapOf(slots) && j != k ensures Clear(j, MapOf(slots)[j].size, k, MapOf(slots)[k].size) {
      var x :| 0 <= x < |slots| && slots[x].key != 0 && slots[x].key == j;
      var y :| 0 <= y < |slots| && slots[y].key != 0 && slots[y].key == k;
      SlotInMap(slots, x);
      SlotInMap(slots, y);
    }
  }

  /** Conservation: in every state the two tables over home memory come to the memory
      that the stores would have made had they gone home one after the other. */
  lemma {:induction false} NothingIsLost(hash: nat -> nat, s: State, before: seq<Byte>, stores: seq<Store>)
    requires Invariant(hash, s, before, stores)
    ensures AllWithin(TableWrites(Other(s)), |s.home|) && AllWithin(TableWrites(Active(s)), |s.home|)
    ensures Logical(s) == Replay(before, WritesOf(stores))
  {
    var m := LastStores(stores);
    TablesWithin(Active(s), m, |before|);
    TablesWithin(Other(s), m, |before|);
    var l1, l2 := Replay(s.home, TableWrites(Other(s))), Logical(s);
    OverlayIsImage(s.home, Other(s));
    OverlayIsImage(l1, Active(s));
    forall a | 0 <= a < |before| && forall k :: !InVariable(m, k, a) ensures l2[a] == before[a] {
      OutsideTable(Active(s), m, a);
      OutsideTable(Other(s), m, a);
    }
    forall k, a | 0 <= a < |before| && InVariable(m, k, a) ensures l2[a] == LE(m[k].size, m[k].value)[a - k] {
      ValueFound(s.home, l1, l2, Active(s), Other(s), before, m, k, a);
    }
    StoresMakeImage(before, stores);
    ImageUnique(l2, Replay(before, WritesOf(stores)), before, m);
  }

  lemma {:induction false} OutsideTable(slots: seq<Slot>, m: map<nat, Datum>, a: nat)
    requires DistinctKeys(slots) && forall k :: !InVariable(m, k, a)
    requires forall j | 0 <= j < |slots| && slots[j].key != 0 :: slots[j].key in m && slots[j].size == m[slots[j].key].size
    ensures forall k :: !InVariable(MapOf(slots), k, a)
  {
    forall k ensures !InVariable(MapOf(slots), k, a) {
      if InVariable(MapOf(slots), k, a) {
        var j :| 0 <= j < |slots| && slots[j].key != 0 && slots[j].key == k;
        SlotInMap(slots, j);
        assert InVariable(m, k, a);
      }
    }
  }

  lemma {:induction false} ValueFound(home: seq<Byte>, l1: seq<Byte>, l2: seq<Byte>, active: seq<Slot>, other: seq<Slot>,
                                      before: seq<Byte>, m: map<nat, Datum>, k: nat, a: nat)
    requires Conserved(home, active, other, before, m) && DistinctKeys(active) && DistinctKeys(other)
    requires ImageOf(l1, home, MapOf(other)) && ImageOf(l2, l1, MapOf(active)) && InVariable(m, k, a) && a < |before|
    ensures l2[a] == LE(m[k].size, m[k].value)[a - k]
  {
    if !Absent(active, k) {
      var j :| 0 <= j < |active| && active[j].key == k;
      SlotInMap(active, j);
      assert Latest(active[j], m);
      assert InVariable(MapOf(active), k, a);
    } else {
      NotInTable(active, m, k, a);
      if !Absent(other, k) {
        var j :| 0 <= j < |other| && other[j].key == k;
        SlotInMap(other, j);
        assert Latest(other[j], m);
        assert InVariable(MapOf(other), k, a);
      } else {
        NotInTable(other, m, k, a);
        assert HomeHas(home, k, m[k]);
        assert home[k..k + m[k].size][a - k] == home[a];
      }
    }
  }

  lemma {:induction false} NotInTable(slots: seq<Slot>, m: map<nat, Datum>, k: nat, a: nat)
    requires DistinctKeys(slots) && Disjoint(m) && InVariable(m, k, a) && Absent(slots, k)
    requires forall j | 0 <= j < |slots| && slots[j].key != 0 :: slots[j].key in m && slots[j].size == m[slots[j].key].size
    ensures forall i :: !InVariable(MapOf(slots), i, a)
  {
    forall i ensures !InVariable(MapOf(slots), i, a) {
    }
  }

  /** The same for runs. */
  lemma {:induction false} RunLosesNothing(hash: nat -> nat, states: seq<State>, events: seq<Event>)
    requires Run(hash, states, events) && StoresFit(StoresOf(events), |states[0].home|)
    ensures var s := states[|events|];
            && AllWithin(TableWrites(Other(s)), |s.home|) && AllWithin(TableWrites(Active(s)), |s.home|)
            && Logical(s) == Replay(states[0].home, WritesOf(StoresOf(events)))
  {
    RunKeeps(hash, states, events);
    NothingIsLost(hash, states[|events|], states[0].home, StoresOf(events));
  }

  /** A table is only gone over to when it is empty and not being retired. */
  lemma {:induction false} SwapFindsEmpty(hash: nat -> nat, s: State, s': State, before: seq<Byte>, stores: seq<Store>)
    requires Invariant(hash, s, before, stores) && SwapStep(s, s')
    ensures NoneInUse(Active(s')) && !(if s'.activeA then s'.retireA else s'.retireB)
  {
  }

  /** How much is left of the retirement in progress. */
  ghost function Remaining(s: State): int {
    if !Retiring(s) then 0
    else if s.scan.Idle? then 2 * |Other(s)| + 3
    else 2 * (|Other(s)| - s.scan.i) + if s.scan.stored then 1 else 2
  }

  /** The retirement thread is at a slot that it cannot store home. */
  ghost predicate Stuck(s: State) {
    && s.scan.At? && !s.scan.stored && s.scan.i < |Other(s)|
    && Other(s)[s.scan.i].key != 0 && !Storable(Other(s)[s.scan.i].size)
  }

  /** A wrap that waits for the other table does not wait for ever: as long as that
      table is being retired the retirement thread has a step to make, unless it is
      stuck, and every step it makes brings the end nearer. */
  lemma {:induction false} RetirementAdvances(hash: nat -> nat, s: State, before: seq<Byte>, stores: seq<Store>)
    requires Invariant(hash, s, before, stores) && Retiring(s)
    ensures (exists s' :: RetireStep(s, s')) <==> !Stuck(s)
    ensures forall s' | RetireStep(s, s') :: 0 <= Remaining(s') < Remaining(s)
  {
    if !Stuck(s) {
      RetirementMoves(hash, s, before, stores);
    }
  }

  lemma {:induction false} RetirementMoves(hash: nat -> nat, s: State, before: seq<Byte>, stores: seq<Store>)
    requires Invariant(hash, s, before, stores) && Retiring(s) && !Stuck(s)
    ensures exists s' :: RetireStep(s, s')
  {
    match s.scan
    case Idle =>
      assert RetireStep(s, s.(scan := At(!s.activeA, 0, false)));
    case At(tableA, i, stored) =>
      var slots := Other(s);
      assert Scanned(s) == slots;
      if i >= |slots| {
        assert RetireStep(s, if tableA then s.(retireA := false, scan := Idle) else s.(retireB := false, scan := Idle));
      } else if slots[i].key == 0 {
        assert RetireStep(s, s.(scan := At(tableA, i + 1, false)));
      } else if !stored {
        StoreHomeConserves(s.home, Active(s), slots, before, LastStores(stores), i);
        assert RetireStep(s, s.(home := Poke(s.home, slots[i].key, SlotWrite(slots[i]).data), scan := At(tableA, i, true)));
      } else {
        var freed := slots[i := slots[i].(key := 0)];
        assert RetireStep(s, if tableA then s.(a := freed, scan := At(tableA, i + 1, false)) else s.(b := freed, scan := At(tableA, i + 1, false)));
      }
  }

  /** It never gets stuck when every store has a width that the loop can store. */
  lemma {:induction false} NeverStuck(hash: nat -> nat, s: State, before: seq<Byte>, stores: seq<Store>)
    requires Invariant(hash, s, before, stores) && forall i | 0 <= i < |stores| :: Storable(stores[i].size)
    ensures !Stuck(s)
  {
    StoresMakeImage(before, stores);
    if s.scan.At? && s.scan.i < |Other(s)| && Other(s)[s.scan.i].key != 0 {
      var t := Other(s)[s.scan.i];
      assert Recorded(stores, t.key, LastStores(stores)[t.key].size);
    }
  }

  // ---- The calls on the object are steps ----

  /** The two tables, which of them is in use, and the flags that hand one to the
      retirement thread. */
  class AT2 {
    const atA: LFHT
    const atB: LFHT
    var activeA: bool
    var retireA: bool
    var retireB: bool
    // A wrap that closes with more items than the size of the table over this hands it on.
    const thresh: nat

    constructor (size: nat, hash: nat -> nat, divisor: nat, ghost home: seq<Byte>)
      requires PowerOfTwo(size) && divisor > 0
      ensures thresh == divisor && Apart() && atA.Valid() && atB.Valid() && Initial(Snapshot(home, false, Idle))
    {
      atA := new LFHT(size, hash);
      atB := new LFHT(size, hash);
      activeA, retireA, retireB := true, false, false;
      thresh := divisor;
    }

    ghost predicate Apart() {
      && atA.Shaped() && atB.Shaped() && atA != atB && atA.bloom != atB.bloom
      && {atA.entries as object, atA.bloom.words as object} !! {atB.entries as object, atB.bloom.words as object}
    }

    function Table(isA: bool): LFHT {
      if isA then atA else atB
    }

    /** The state as the steps see it. */
    ghost function Snapshot(home: seq<Byte>, toClear: bool, scan: Scan): State
      reads this, atA.entries, atB.entries
    {
      State(home, atA.entries[..], atB.entries[..], activeA, retireA, retireB, toClear, scan)
    }

    method Store(ptr: nat, value: nat, size: nat, ghost home: seq<Byte>, ghost scan: Scan)
      requires Apart() && Table(activeA).Valid() && ptr != 0
      requires Used(Table(activeA).entries[..]) + 1 < Table(activeA).entries.Length
      modifies Table(activeA)`numItems, Table(activeA).entries, Table(activeA).bloom`flags, Table(activeA).bloom.words
      ensures Table(activeA).Valid()
      ensures StoreStep(Table(activeA).hash, old(Snapshot(home, false, scan)), Snapshot(home, false, scan), Variables.Store(ptr, value, size))
    {
      var idx := StoreIn(Table(activeA), ptr, value, size);
      ghost var s, s' := old(Snapshot(home, false, scan)), Snapshot(home, false, scan);
      assert Table(!activeA).entries[..] == old(Table(!activeA).entries[..]);
      StoreStepBy(Table(activeA).hash, s, s', Variables.Store(ptr, value, size), idx);
    }

    static method StoreIn(t: LFHT, ptr: nat, value: nat, size: nat) returns (idx: nat)
      requires t.Valid() && ptr != 0 && Used(t.entries[..]) + 1 < t.entries.Length
      modifies t`numItems, t.entries, t.bloom`flags, t.bloom.words
      ensures t.Valid() && SetsSlot(t.hash, old(t.entries[..]), idx, Variables.Store(ptr, value, size))
      ensures t.entries[..] == old(t.entries[..])[idx := Slot(ptr, value, size)]
    {
      ghost var before := t.entries[..];
      idx := t.SetItem(ptr, value, size);
      SetIsStep(t.hash, before, idx, Variables.Store(ptr, value, size));
    }

    /** A lookup: in the table in use, then in the other one, and else at home. */
    method Load(ptr: nat) returns (found: bool, isA: bool, idx: nat)
      requires Apart() && Table(true).Searchable() && Table(false).Searchable() && ptr != 0
      ensures found ==> FirstFor(Table(isA).hash, Table(isA).entries[..], ptr, idx) && Table(isA).entries[idx].key == ptr
      ensures found && isA != activeA ==> !Finds(Table(activeA).hash, Table(activeA).entries[..], ptr)
      ensures !found ==> forall x :: !Finds(Table(x).hash, Table(x).entries[..], ptr)
    {
      isA := activeA;
      found, idx := Table(isA).GetItemAddress(ptr);
      if !found {
        isA := !activeA;
        found, idx := Table(isA).GetItemAddress(ptr);
      }
    }

    /** The part of the close of a wrap under the lock, when there is nothing to wait for. */
    method SwapTables(ghost home: seq<Byte>, ghost scan: Scan)
      requires if activeA then !retireB else !retireA
      modifies this
      ensures SwapStep(old(Snapshot(home, false, scan)), Snapshot(home, true, scan))
    {
      if activeA {
        retireA, activeA := true, false;
      } else {
        retireB, activeA := true, true;
      }
    }

    /** The part after the lock. */
    method ClearTable(ghost home: seq<Byte>, ghost scan: Scan)
      requires Apart()
      modifies Table(activeA).entries, Table(activeA).bloom, Table(activeA).bloom.words
      ensures Table(activeA).Valid()
      ensures ClearStep(old(Snapshot(home, true, scan)), Snapshot(home, false, scan))
    {
      Table(activeA).Clear();
      assert Table(activeA).entries[..] == FreeSlots(Table(activeA).entries.Length);
    }

    /** The close of a wrap: with too many items in the table in use, a swap and a clear step, once
        the other table is not being retired; else nothing. */
    method OnWrapClose(ghost home: seq<Byte>, ghost scan: Scan) returns (swapped: bool)
      requires Apart() && thresh > 0
      requires Table(activeA).numItems > Table(activeA).entries.Length / thresh ==> if activeA then !retireB else !retireA
      modifies this, Table(!activeA).entries, Table(!activeA).bloom, Table(!activeA).bloom.words
      ensures swapped <==> old(Table(activeA).numItems) > old(Table(activeA).entries.Length) / thresh
      ensures swapped ==> exists m :: SwapStep(old(Snapshot(home, false, scan)), m) && ClearStep(m, Snapshot(home, false, scan))
      ensures !swapped ==> Snapshot(home, false, scan) == old(Snapshot(home, false, scan))
    {
      swapped := Table(activeA).numItems > Table(activeA).entries.Length / thresh;
      if swapped {
        SwapTables(home, scan);
        ghost var m := Snapshot(home, true, scan);
        ClearTable(home, scan);
        assert ClearStep(m, Snapshot(home, false, scan));
      }
    }

    /** One slot of a table being retired: a store and the freeing of the slot, between
        which the other calls may come; or a free slot passed over. */
    method RetireSlot(home: array<Byte>, isA: bool, i: nat)
      requires Apart() && i < Table(isA).entries.Length
      requires (home as object) !in {atA.entries as object, atB.entries as object}
      requires Table(isA).entries[i].key != 0 ==> Padded(SlotWrite(Table(isA).entries[i]), home.Length) && Storable(Table(isA).entries[i].size)
      modifies Table(isA).entries, home
      ensures var s, s' := old(Snapshot(home[..], false, At(isA, i, false))), Snapshot(home[..], false, At(isA, i + 1, false));
              if old(Table(isA).entries[i]).key == 0 then RetireStep(s, s') else exists m :: RetireStep(s, m) && RetireStep(m, s')
    {
      ghost var s := Snapshot(home[..], false, At(isA, i, false));
      RestoreElement(Table(isA), home, i);
      ghost var t := Scanned(s)[i];
      if t.key != 0 {
        ghost var m := s.(home := home[..], scan := At(isA, i, true));
        assert RetireStep(s, m) && RetireStep(m, Snapshot(home[..], false, At(isA, i + 1, false)));
      }
    }
  }

  lemma {:induction false} StoreStepBy(hash: nat -> nat, s: State, s': State, v: Store, j: nat)
    requires !s.toClear && SetsSlot(hash, Active(s), j, v)
    requires s' == if s.activeA then s.(a := s.a[j := Slot(v.key, v.value, v.size)]) else s.(b := s.b[j := Slot(v.key, v.value, v.size)])
    ensures StoreStep(hash, s, s', v)
  {
  }

  /** What setting an item guarantees is what a store step asks for. */
  lemma {:induction false} SetIsStep(hash: nat -> nat, slots: seq<Slot>, idx: nat, v: Store)
    requires idx < |slots| && v.key != 0 && (slots[idx].key == 0 || slots[idx].key == v.key)
    requires DistinctKeys(slots[idx := Slot(v.key, v.value, v.size)]) && Probed(hash, slots[idx := Slot(v.key, v.value, v.size)])
    ensures SetsSlot(hash, slots, idx, v)
  {
    var after := slots[idx := Slot(v.key, v.value, v.size)];
    assert after[idx].key == v.key && Reached(after, Home(hash, v.key, |after|), idx);
    StillReached(slots, idx, Slot(v.key, v.value, v.size), Home(hash, v.key, |after|));
    if slots[idx].key == 0 {
      forall j | 0 <= j < |slots| ensures slots[j].key != v.key {
        if j != idx {
          assert after[j] == slots[j] && after[idx].key == v.key;
        }
      }
    }
  }

  /** The way to a slot does not lead over that slot. */
  lemma {:induction false} StillReached(slots: seq<Slot>, idx: nat, t: Slot, start: nat)
    requires idx < |slots| && start < |slots| && Reached(slots[idx := t], start, idx)
    ensures Reached(slots, start, idx)
  {
    forall i | 0 <= i < Distance(start, idx, |slots|) ensures slots[Along(start, i, |slots|)].key != 0 {
      assert Along(start, i, |slots|) != idx;
      assert slots[idx := t][Along(start, i, |slots|)].key != 0;
    }
  }
}
