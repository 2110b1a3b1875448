/** Lookups that come while the other table is being retired: its slots are freed one by one,
    which cuts the ways to keys behind them. */
module HalfRetired {
  import opened Memory
  import opened HashTable
  import opened Variables
  import opened Retirement
  import opened DoubleBuffer

  /** The slots before this one have been freed. */
  ghost function Place(s: State): nat {
    if s.scan.At? then s.scan.i else 0
  }

  /** From slot `p` on, none between slot `start` and slot `j` is free. */
  ghost predicate ReachedFrom(slots: seq<Slot>, start: nat, j: nat, p: nat)
    requires start < |slots| && j < |slots|
  {
    forall i | p <= i < |slots| && Distance(start, i, |slots|) < Distance(start, j, |slots|) :: slots[i].key != 0
  }

  ghost predicate ProbedFrom(hash: nat -> nat, slots: seq<Slot>, p: nat) {
    forall j | 0 <= j < |slots| && slots[j].key != 0 :: ReachedFrom(slots, Home(hash, slots[j].key, |slots|), j, p)
  }

  lemma {:induction false} ReachedThroughout(slots: seq<Slot>, start: nat, j: nat)
    requires start < |slots| && j < |slots| && Reached(slots, start, j)
    ensures ReachedFrom(slots, start, j, 0)
  {
    forall i | 0 <= i < |slots| && Distance(start, i, |slots|) < Distance(start, j, |slots|) ensures slots[i].key != 0 {
      assert slots[Along(start, Distance(start, i, |slots|), |slots|)].key != 0;
    }
  }

  lemma {:induction false} ProbedThroughout(hash: nat -> nat, slots: seq<Slot>)
    requires Probed(hash, slots)
    ensures ProbedFrom(hash, slots, 0)
  {
    forall j | 0 <= j < |slots| && slots[j].key != 0 ensures ReachedFrom(slots, Home(hash, slots[j].key, |slots|), j, 0) {
      ReachedThroughout(slots, Home(hash, slots[j].key, |slots|), j);
    }
  }

  /** The key in slot `j` is found exactly if no slot has been freed, or the way to it begins behind
      the freed ones and does not go round the end of the table. */
  lemma {:induction false} FoundExactly(hash: nat -> nat, slots: seq<Slot>, p: nat, j: nat)
    requires DistinctKeys(slots) && ProbedFrom(hash, slots, p) && (forall i | 0 <= i < |slots| && i < p :: slots[i].key == 0)
    requires j < |slots| && slots[j].key != 0
    ensures Finds(hash, slots, slots[j].key) <==> p == 0 || p <= hash(slots[j].key) % |slots| <= j
  {
    var n, key := |slots|, slots[j].key;
    var start := hash(key) % n;
    if p == 0 || p <= start <= j {
      OnlyUsed(hash, slots, p, j);
    } else {
      var free := if start < p then start else 0;
      assert slots[free].key == 0 && Distance(start, free, n) < Distance(start, j, n);
      CutOff(hash, slots, j, free);
      assert forall i | 0 <= i < n && slots[i].key == key :: i == j;
    }
  }

  /** A free slot on the way to a key keeps a probe from it. */
  lemma {:induction false} CutOff(hash: nat -> nat, slots: seq<Slot>, j: nat, free: nat)
    requires j < |slots| && free < |slots| && slots[free].key == 0
    requires Distance(Home(hash, slots[j].key, |slots|), free, |slots|) < Distance(Home(hash, slots[j].key, |slots|), j, |slots|)
    ensures !FirstFor(hash, slots, slots[j].key, j)
  {
    CyclicDistance(hash(slots[j].key), j, |slots|);
    CyclicDistance(hash(slots[j].key), free, |slots|);
  }

  lemma {:induction false} OnlyUsed(hash: nat -> nat, slots: seq<Slot>, p: nat, j: nat)
    requires DistinctKeys(slots) && ProbedFrom(hash, slots, p) && j < |slots| && slots[j].key != 0
    requires p == 0 || p <= hash(slots[j].key) % |slots| <= j
    ensures Finds(hash, slots, slots[j].key)
  {
    var n, key := |slots|, slots[j].key;
    CyclicDistance(hash(key), j, n);
    forall i | 0 <= i < n && (i - hash(key)) % n < (j - hash(key)) % n ensures slots[i].key != 0 && slots[i].key != key {
      CyclicDistance(hash(key), i, n);
      assert ReachedFrom(slots, Home(hash, key, n), j, p);
    }
    assert FirstFor(hash, slots, key, j);
  }

  // ---- Over runs ----

  lemma {:induction false} FreeingKeeps(hash: nat -> nat, slots: seq<Slot>, i: nat)
    requires ProbedFrom(hash, slots, i) && i < |slots|
    ensures ProbedFrom(hash, slots, i + 1) && ProbedFrom(hash, slots[i := slots[i].(key := 0)], i + 1)
  {
    var after := slots[i := slots[i].(key := 0)];
    forall j | 0 <= j < |after| && after[j].key != 0 ensures ReachedFrom(after, Home(hash, after[j].key, |after|), j, i + 1) {
      assert ReachedFrom(slots, Home(hash, slots[j].key, |slots|), j, i);
    }
    forall j | 0 <= j < |slots| && slots[j].key != 0 ensures ReachedFrom(slots, Home(hash, slots[j].key, |slots|), j, i + 1) {
      assert ReachedFrom(slots, Home(hash, slots[j].key, |slots|), j, i);
    }
  }

  lemma {:induction false} EmptyIsProbed(hash: nat -> nat, slots: seq<Slot>)
    requires NoneInUse(slots)
    ensures ProbedFrom(hash, slots, 0)
  {
  }

  lemma {:induction false} StepKeeps(hash: nat -> nat, s: State, e: Event, s': State)
    requires Protocol(hash, s) && ProbedFrom(hash, Other(s), Place(s)) && Next(hash, s, e, s')
    ensures ProbedFrom(hash, Other(s'), Place(s'))
  {
    hide ProbedFrom, Probed, DistinctKeys, SetsSlot, HasValue;
    match e
    case Stored(_) =>
    case Swapped => ProbedThroughout(hash, Active(s));
    case Cleared =>
    case Retired => RetiringKeeps(hash, s, s');
  }

  lemma {:induction false} RetiringKeeps(hash: nat -> nat, s: State, s': State)
    requires Protocol(hash, s) && ProbedFrom(hash, Other(s), Place(s)) && RetireStep(s, s')
    ensures ProbedFrom(hash, Other(s'), Place(s'))
  {
    hide ProbedFrom, Probed, DistinctKeys, HasValue;
    if s.scan.At? {
      if s.scan.i < |Other(s)| {
        FreeingKeeps(hash, Other(s), s.scan.i);
      } else {
        EmptyIsProbed(hash, Other(s'));
      }
    }
  }

  lemma {:induction false} RunKeepsWays(hash: nat -> nat, states: seq<State>, events: seq<Event>)
    requires Run(hash, states, events) && StoresFit(StoresOf(events), |states[0].home|)
    ensures ProbedFrom(hash, Other(states[|events|]), Place(states[|events|]))
    decreases |events|
  {
    hide ProbedFrom, Next, Invariant;
    if events == [] {
      EmptyIsProbed(hash, Other(states[0]));
    } else {
      var n := |events| - 1;
      EarlierFits(states, events, n);
      RunKeeps(hash, states[..n + 1], events[..n]);
      RunKeepsWays(hash, states[..n + 1], events[..n]);
      ProtocolOf(hash, states[n], states[0].home, StoresOf(events[..n]));
      assert Next(hash, states[n], events[n], states[n + 1]);
      StepKeeps(hash, states[n], events[n], states[n + 1]);
    }
  }

  lemma {:induction false} EarlierFits(states: seq<State>, events: seq<Event>, n: nat)
    requires n + 1 == |events| && states != [] && StoresFit(StoresOf(events), |states[0].home|)
    ensures StoresFit(StoresOf(events[..n]), |states[0].home|)
  {
    hide StoresFit;
    var stores := StoresOf(events[..n]);
    assert stores + [] == stores;
    if events[n].Stored? { PrefixFits(stores, events[n].store, |states[0].home|); }
  }

  lemma {:induction false} ProtocolOf(hash: nat -> nat, s: State, before: seq<Byte>, stores: seq<Store>)
    requires Invariant(hash, s, before, stores)
    ensures Protocol(hash, s) && Conserved(s.home, Active(s), Other(s), before, LastStores(stores))
  {
  }

  // ---- What a lookup sees ----

  /** Where a probe for the key ends, if it finds it. */
  ghost function SlotOf(hash: nat -> nat, slots: seq<Slot>, key: nat): (j: nat)
    requires Finds(hash, slots, key)
    ensures FirstFor(hash, slots, key, j) && slots[j].key == key
  {
    var j: nat :| FirstFor(hash, slots, key, j) && slots[j].key == key;
    j
  }

  ghost function SlotBytes(t: Slot): seq<Byte> {
    LE(t.size, t.value)
  }

  /** What is at the address that a lookup returns: the value in a slot of the table in use, or
      of the other one, or home memory. */
  ghost function Loaded(hash: nat -> nat, s: State, key: nat, size: nat): seq<Byte>
    requires key + size <= |s.home|
  {
    if Finds(hash, Active(s), key) then SlotBytes(Active(s)[SlotOf(hash, Active(s), key)])
    else if Finds(hash, Other(s), key) then SlotBytes(Other(s)[SlotOf(hash, Other(s), key)])
    else s.home[key..key + size]
  }

  /** The key is in the table being retired alone, and a slot on the way to it has been freed. */
  ghost predicate Missed(hash: nat -> nat, s: State, key: nat) {
    && Absent(Active(s), key) && s.scan.At? && s.scan.i > 0
    && exists j :: 0 <= j < |Other(s)| && Other(s)[j].key == key && !(s.scan.i <= hash(key) % |Other(s)| <= j)
  }

  /** In every state of every run and for every variable: a lookup sees the last store to it exactly
      if it is not missed in the table being retired, or home memory happens to have that value. */
  lemma {:induction false} LookupExactly(hash: nat -> nat, states: seq<State>, events: seq<Event>, key: nat)
    requires Run(hash, states, events) && StoresFit(StoresOf(events), |states[0].home|) && key in LastStores(StoresOf(events))
    ensures var s, d := states[|events|], LastStores(StoresOf(events))[key];
            && key + d.size <= |s.home|
            && (Loaded(hash, s, key, d.size) == LE(d.size, d.value) <==> !Missed(hash, s, key) || HomeHas(s.home, key, d))
  {
    hide StoresFit, LastStores, Invariant, LE, Protocol, Conserved, Loaded, Missed;
    var s, stores := states[|events|], StoresOf(events);
    RunKeeps(hash, states, events);
    RunKeepsWays(hash, states, events);
    ProtocolOf(hash, s, states[0].home, stores);
    LookupInState(hash, s, states[0].home, LastStores(stores), key);
  }

  lemma {:induction false} LookupInState(hash: nat -> nat, s: State, before: seq<Byte>, m: map<nat, Datum>, key: nat)
    requires Protocol(hash, s) && Conserved(s.home, Active(s), Other(s), before, m) && ProbedFrom(hash, Other(s), Place(s)) && key in m
    ensures key + m[key].size <= |s.home|
    ensures Loaded(hash, s, key, m[key].size) == LE(m[key].size, m[key].value) <==> !Missed(hash, s, key) || HomeHas(s.home, key, m[key])
  {
    var d, active, other := m[key], Active(s), Other(s);
    if !Absent(active, key) {
      var j :| 0 <= j < |active| && active[j].key == key;
      ProbedThroughout(hash, active);
      FoundExactly(hash, active, 0, j);
      assert Latest(active[SlotOf(hash, active, key)], m);
    } else if !Absent(other, key) {
      var j :| 0 <= j < |other| && other[j].key == key;
      FoundExactly(hash, other, Place(s), j);
      assert Latest(other[j], m);
      if Finds(hash, other, key) { assert SlotOf(hash, other, key) == j; }
    } else {
      assert HomeHas(s.home, key, d);
    }
  }

  /** Two variables whose keys hash to the same slot: once the first has gone home, the second is
      missed, and what is at home is not what was stored to it. */
  lemma {:induction false} StaleLookup(home: seq<Byte>) returns (states: seq<State>, events: seq<Event>)
    requires |home| >= 24 && home[16] != 7
    ensures events == [Stored(Store(8, 5, 1)), Stored(Store(16, 7, 1)), Swapped, Cleared, Retired, Retired, Retired]
    ensures |states| == 8 && states[0].home == home && Run((k: nat) => 0, states, events)
    ensures StoresFit(StoresOf(events), |home|) && 16 in LastStores(StoresOf(events)) && LastStores(StoresOf(events))[16] == Datum(7, 1)
    ensures |states[7].home| == |home| && Loaded((k: nat) => 0, states[7], 16, 1) != LE(1, 7)
  {
    hide StoreStep, StoresOf, RetireStep, SwapStep, ClearStep, Initial, StoresFit, LastStores, Loaded;
    var hash := (k: nat) => 0;
    var none := Slot(0, 0, 0);
    var free, one, two := [none, none, none, none], [Slot(8, 5, 1), none, none, none], [Slot(8, 5, 1), Slot(16, 7, 1), none, none];
    var left := [Slot(0, 5, 1), Slot(16, 7, 1), none, none];
    var stored := Poke(home, 8, LE(1, 5));
    var s0 := State(home, free, free, true, false, false, false, Idle);
    var s1, s2 := s0.(a := one), s0.(a := two);
    var s3 := s2.(retireA := true, activeA := false, toClear := true);
    var s4 := s3.(toClear := false);
    var s5 := s4.(scan := At(true, 0, false));
    var s6 := s5.(home := stored, scan := At(true, 0, true));
    var s7 := s6.(a := left, scan := At(true, 1, false));
    states := [s0, s1, s2, s3, s4, s5, s6, s7];
    events := [Stored(Store(8, 5, 1)), Stored(Store(16, 7, 1)), Swapped, Cleared, Retired, Retired, Retired];
    FirstSteps(hash, s0, s1, s2);
    LaterSteps(s2, s3, s4);
    LastSteps(s4, s5, s6, s7);
    assert Next(hash, s0, events[0], s1) && Next(hash, s1, events[1], s2) && Next(hash, s2, events[2], s3) && Next(hash, s3, events[3], s4);
    assert Next(hash, s4, events[4], s5) && Next(hash, s5, events[5], s6) && Next(hash, s6, events[6], s7);
    TheTwoStores();
    TwoStoresFit(|home|);
    MissedThere(hash, s7, home);
  }

  lemma {:induction false} FirstSteps(hash: nat -> nat, s0: State, s1: State, s2: State)
    requires forall k :: hash(k) == 0
    requires var none := Slot(0, 0, 0); s0 == State(s0.home, [none, none, none, none], [none, none, none, none], true, false, false, false, Idle)
    requires s1 == s0.(a := [Slot(8, 5, 1), s0.a[1], s0.a[2], s0.a[3]]) && s2 == s0.(a := [Slot(8, 5, 1), Slot(16, 7, 1), s0.a[2], s0.a[3]])
    ensures Initial(s0) && StoreStep(hash, s0, s1, Store(8, 5, 1)) && StoreStep(hash, s1, s2, Store(16, 7, 1))
  {
    assert s1.a == s0.a[0 := Slot(8, 5, 1)] && s2.a == s1.a[1 := Slot(16, 7, 1)];
    assert SetsSlot(hash, Active(s0), 0, Store(8, 5, 1)) && SetsSlot(hash, Active(s1), 1, Store(16, 7, 1));
  }

  lemma {:induction false} LaterSteps(s2: State, s3: State, s4: State)
    requires var none := Slot(0, 0, 0); s2.b == [none, none, none, none] && s2.activeA && !s2.toClear && !s2.retireB
    requires s3 == s2.(retireA := true, activeA := false, toClear := true) && s4 == s3.(toClear := false)
    ensures SwapStep(s2, s3) && ClearStep(s3, s4)
  {
    assert FreeSlots(4) == s2.b;
  }

  lemma {:induction false} LastSteps(s4: State, s5: State, s6: State, s7: State)
    requires s4.retireA && s4.scan.Idle? && |s4.a| == 4 && s4.a[0] == Slot(8, 5, 1) && |s4.home| >= 24
    requires s5 == s4.(scan := At(true, 0, false)) && s6 == s5.(home := Poke(s4.home, 8, LE(1, 5)), scan := At(true, 0, true))
    requires s7 == s6.(a := [Slot(0, 5, 1), s4.a[1], s4.a[2], s4.a[3]], scan := At(true, 1, false))
    ensures RetireStep(s4, s5) && RetireStep(s5, s6) && RetireStep(s6, s7)
  {
    assert s7.a == s4.a[0 := s4.a[0].(key := 0)];
  }

  lemma {:induction false} TheTwoStores()
    ensures StoresOf([Stored(Store(8, 5, 1)), Stored(Store(16, 7, 1)), Swapped, Cleared, Retired, Retired, Retired]) == [Store(8, 5, 1), Store(16, 7, 1)]
  {
    var first := [Stored(Store(8, 5, 1)), Stored(Store(16, 7, 1))];
    assert first[..1] == [Stored(Store(8, 5, 1))] && first[..1][..0] == [];
    assert StoresOf(first[..1]) == [] + [Store(8, 5, 1)] && StoresOf(first) == StoresOf(first[..1]) + [Store(16, 7, 1)];
    QuietEvents(first, Swapped);
    QuietEvents(first + [Swapped], Cleared);
    QuietEvents(first + [Swapped] + [Cleared], Retired);
    QuietEvents(first + [Swapped] + [Cleared] + [Retired], Retired);
    QuietEvents(first + [Swapped] + [Cleared] + [Retired] + [Retired], Retired);
    assert first + [Swapped] + [Cleared] + [Retired] + [Retired] + [Retired] ==
           [Stored(Store(8, 5, 1)), Stored(Store(16, 7, 1)), Swapped, Cleared, Retired, Retired, Retired];
  }

  lemma {:induction false} TwoStoresFit(size: nat)
    requires size >= 24
    ensures StoresFit([Store(8, 5, 1), Store(16, 7, 1)], size)
    ensures 16 in LastStores([Store(8, 5, 1), Store(16, 7, 1)]) && LastStores([Store(8, 5, 1), Store(16, 7, 1)])[16] == Datum(7, 1)
  {
    hide LE;
    var ws := WritesOf([Store(8, 5, 1), Store(16, 7, 1)]);
    assert forall i | 0 <= i < |ws| :: Within(ws[i], size);
  }

  lemma {:induction false} QuietEvents(events: seq<Event>, e: Event)
    requires !e.Stored?
    ensures StoresOf(events + [e]) == StoresOf(events)
  {
    assert (events + [e])[..|events|] == events;
  }

  lemma {:induction false} MissedThere(hash: nat -> nat, s: State, home: seq<Byte>)
    requires forall k :: hash(k) == 0
    requires |home| >= 24 && home[16] != 7 && s.home == Poke(home, 8, LE(1, 5)) && !s.activeA
    requires var none := Slot(0, 0, 0); s.b == [none, none, none, none] && s.a == [Slot(0, 5, 1), Slot(16, 7, 1), none, none]
    ensures Loaded(hash, s, 16, 1) != LE(1, 7)
  {
    assert !Finds(hash, s.b, 16);
    CutOff(hash, s.a, 1, 0);
    assert !Finds(hash, s.a, 16);
    assert LE(1, 7) == [7];
    assert s.home[16..17][0] != 7;
  }
}
