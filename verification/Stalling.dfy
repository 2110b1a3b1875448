/** When the retirement thread of the two tables can come to a slot that it does not
    know how to store home, and stay there. */
module Stalling {
  import opened Memory
  import opened HashTable
  import opened Variables
  import opened Retirement
  import opened DoubleBuffer

  /** Without any more stores the retirement thread may be stuck after at most `n` steps. */
  ghost predicate MayStall(hash: nat -> nat, s: State, n: nat)
    decreases n
  {
    || Stuck(s)
    || (n > 0 && exists e: Event, s': State :: !e.Stored? && Next(hash, s, e, s') && MayStall(hash, s', n - 1))
  }

  ghost predicate AllStorable(stores: seq<Store>) {
    forall i | 0 <= i < |stores| :: Storable(stores[i].size)
  }

  lemma {:induction false} QuietStepKeeps(hash: nat -> nat, s: State, e: Event, s': State, before: seq<Byte>, stores: seq<Store>)
    requires Invariant(hash, s, before, stores) && !e.Stored? && Next(hash, s, e, s')
    ensures Invariant(hash, s', before, stores)
  {
    hide Invariant, SwapStep, ClearStep, RetireStep;
    match e
    case Swapped => SwapKeeps(hash, s, s', before, stores);
    case Cleared => ClearKeeps(hash, s, s', before, stores);
    case Retired => RetireKeeps(hash, s, s', before, stores);
  }

  /** As long as all widths can be stored, no continuation gets stuck. */
  lemma {:induction false} NeverStalls(hash: nat -> nat, s: State, before: seq<Byte>, stores: seq<Store>, n: nat)
    requires Invariant(hash, s, before, stores) && AllStorable(stores)
    ensures !MayStall(hash, s, n)
    decreases n
  {
    hide Invariant, Stuck, Next;
    NeverStuck(hash, s, before, stores);
    if MayStall(hash, s, n) {
      var e: Event, s': State :| !e.Stored? && Next(hash, s, e, s') && MayStall(hash, s', n - 1);
      QuietStepKeeps(hash, s, e, s', before, stores);
      NeverStalls(hash, s', before, stores, n - 1);
    }
  }

  // ---- A variable of another width never leaves the tables ----

  ghost predicate Unstorable(stores: seq<Store>, k: nat) {
    k in LastStores(stores) && !Storable(LastStores(stores)[k].size)
  }

  ghost predicate InTables(s: State, k: nat) {
    !Absent(Active(s), k) || !Absent(Other(s), k)
  }

  /** Each such variable is in one of the tables, and no slot that has been stored home is one. */
  ghost predicate Kept(s: State, stores: seq<Store>) {
    && (forall k | Unstorable(stores, k) :: InTables(s, k))
    && (s.scan.At? && s.scan.stored && s.scan.i < |Other(s)| ==> Storable(Other(s)[s.scan.i].size))
  }

  lemma {:induction false} StoreKeepsThem(hash: nat -> nat, s: State, s': State, before: seq<Byte>, stores: seq<Store>, v: Store)
    requires Invariant(hash, s, before, stores) && Kept(s, stores) && StoreStep(hash, s, s', v)
    ensures Kept(s', stores + [v])
  {
    hide Invariant, Probed, Reached;
    var j: nat :| SetsSlot(hash, Active(s), j, v)
                  && s' == if s.activeA then s.(a := s.a[j := Slot(v.key, v.value, v.size)]) else s.(b := s.b[j := Slot(v.key, v.value, v.size)]);
    var t := Slot(v.key, v.value, v.size);
    assert Active(s') == Active(s)[j := t] && Other(s') == Other(s);
    assert (stores + [v])[..|stores|] == stores;
    assert 0 !in LastStores(stores) by { NullIsNone(hash, s, before, stores); }
    forall k | Unstorable(stores + [v], k) ensures InTables(s', k) {
      if k == v.key {
        assert Active(s')[j].key == k;
      } else if !Absent(Active(s), k) {
        var i :| 0 <= i < |Active(s)| && Active(s)[i].key == k;
        SlotStays(s, stores, j, v, k, i);
      } else {
        assert Unstorable(stores, k);
      }
    }
  }

  lemma {:induction false} NullIsNone(hash: nat -> nat, s: State, before: seq<Byte>, stores: seq<Store>)
    requires Invariant(hash, s, before, stores)
    ensures 0 !in LastStores(stores)
  {
  }

  lemma {:induction false} SlotStays(s: State, stores: seq<Store>, j: nat, v: Store, k: nat, i: nat)
    requires j < |Active(s)| && i < |Active(s)| && Active(s)[i].key == k != v.key
    requires Active(s)[j].key == v.key || Active(s)[j].key == 0
    requires k != 0
    ensures !Absent(Active(s)[j := Slot(v.key, v.value, v.size)], k)
  {
    assert Active(s)[j := Slot(v.key, v.value, v.size)][i].key == k;
  }

  lemma {:induction false} QuietStepKeepsThem(hash: nat -> nat, s: State, e: Event, s': State, before: seq<Byte>, stores: seq<Store>)
    requires Invariant(hash, s, before, stores) && Kept(s, stores) && !e.Stored? && Next(hash, s, e, s')
    ensures Kept(s', stores)
  {
    hide LastStores, Probed;
    match e
    case Swapped => assert Active(s') == Other(s) && Other(s') == Active(s);
    case Cleared => ClearKeepsThem(hash, s, s', before, stores);
    case Retired => RetireKeepsThem(hash, s, s', before, stores);
  }

  lemma {:induction false} ClearKeepsThem(hash: nat -> nat, s: State, s': State, before: seq<Byte>, stores: seq<Store>)
    requires Invariant(hash, s, before, stores) && Kept(s, stores) && ClearStep(s, s')
    ensures Kept(s', stores)
  {
    hide LastStores, Probed;
    assert Other(s') == Other(s);
    forall k | Unstorable(stores, k) ensures InTables(s', k) {
      assert InTables(s, k) && k != 0;
    }
  }

  lemma {:induction false} RetireKeepsThem(hash: nat -> nat, s: State, s': State, before: seq<Byte>, stores: seq<Store>)
    requires Invariant(hash, s, before, stores) && Kept(s, stores) && RetireStep(s, s')
    ensures Kept(s', stores)
  {
    hide LastStores, Probed, Poke;
    assert Active(s') == Active(s);
    forall k | Unstorable(stores, k) ensures InTables(s', k) {
      assert InTables(s, k);
      if !Absent(Other(s), k) {
        RetireKeepsIt(hash, s, s', before, stores, k);
      }
    }
  }

  /** A retirement step does not take it out of the table. */
  lemma {:induction false} RetireKeepsIt(hash: nat -> nat, s: State, s': State, before: seq<Byte>, stores: seq<Store>, k: nat)
    requires Invariant(hash, s, before, stores) && Kept(s, stores) && RetireStep(s, s')
    requires Unstorable(stores, k) && !Absent(Other(s), k)
    ensures !Absent(Other(s'), k) && Retiring(s')
  {
    hide LastStores, Probed, Poke, DistinctKeys, HasValue, Latest;
    var i :| 0 <= i < |Other(s)| && Other(s)[i].key == k;
    assert k != 0 && !Storable(Other(s)[i].size);
    assert Other(s')[i].key == k;
  }

  lemma {:induction false} RunKeepsThem(hash: nat -> nat, states: seq<State>, events: seq<Event>)
    requires Run(hash, states, events) && StoresFit(StoresOf(events), |states[0].home|)
    ensures Kept(states[|events|], StoresOf(events))
    decreases |events|
  {
    hide Kept, Invariant, StoreStep, SwapStep, ClearStep, RetireStep, LastStores;
    if events == [] {
      NothingToKeep(states[0]);
    } else {
      var n := |events| - 1;
      var before, stores, e := states[0].home, StoresOf(events[..n]), events[n];
      assert stores + [] == stores;
      if e.Stored? { PrefixFits(stores, e.store, |before|); }
      RunKeepsThem(hash, states[..n + 1], events[..n]);
      RunKeeps(hash, states[..n + 1], events[..n]);
      assert Next(hash, states[n], e, states[n + 1]);
      if e.Stored? {
        StoreKeepsThem(hash, states[n], states[n + 1], before, stores, e.store);
      } else {
        QuietStepKeepsThem(hash, states[n], e, states[n + 1], before, stores);
      }
    }
  }

  lemma {:induction false} NothingToKeep(s: State)
    requires Initial(s)
    ensures Kept(s, [])
  {
  }

  // ---- and is where the retirement ends ----

  /** 0 while the table that has the variable is retired, 1 before it is given to the
      retirement thread, 2 while the other is retired. */
  ghost function Phase(s: State, k: nat): nat {
    if !Retiring(s) then 1 else if !Absent(Other(s), k) then 0 else 2
  }

  /** Retire, swap if need be, and retire again. */
  lemma {:induction false} Stalls(hash: nat -> nat, s: State, before: seq<Byte>, stores: seq<Store>, k: nat) returns (n: nat)
    requires Invariant(hash, s, before, stores) && Kept(s, stores) && Unstorable(stores, k)
    ensures MayStall(hash, s, n)
    decreases Phase(s, k), if Retiring(s) then Remaining(s) else 0
  {
    hide Invariant, Kept, Stuck, RetireStep, SwapStep, Remaining, Unstorable, Absent;
    if Stuck(s) {
      n := 0;
    } else {
      var e, s' := QuietStep(hash, s, before, stores, k);
      QuietStepKeeps(hash, s, e, s', before, stores);
      QuietStepKeepsThem(hash, s, e, s', before, stores);
      var m := Stalls(hash, s', before, stores, k);
      n := m + 1;
      assert Next(hash, s, e, s') && MayStall(hash, s', n - 1);
    }
  }

  lemma {:induction false} QuietStep(hash: nat -> nat, s: State, before: seq<Byte>, stores: seq<Store>, k: nat) returns (e: Event, s': State)
    requires Invariant(hash, s, before, stores) && Kept(s, stores) && Unstorable(stores, k) && !Stuck(s)
    ensures !e.Stored? && Next(hash, s, e, s')
    ensures Phase(s', k) < Phase(s, k) || (Phase(s', k) == Phase(s, k) && Retiring(s) && 0 <= Remaining(s') < Remaining(s))
  {
    hide Stuck, Remaining, Unstorable, Invariant, Kept, RetireStep, SwapStep;
    if Retiring(s) {
      RetirementAdvances(hash, s, before, stores);
      s' :| RetireStep(s, s');
      e := Retired;
      if Absent(Other(s), k) {
        StaysAbsent(hash, s, s', before, stores, k);
      } else {
        RetireKeepsIt(hash, s, s', before, stores, k);
      }
    } else {
      e := Swapped;
      s' := Swap(hash, s, before, stores, k);
    }
  }

  lemma {:induction false} StaysAbsent(hash: nat -> nat, s: State, s': State, before: seq<Byte>, stores: seq<Store>, k: nat)
    requires Invariant(hash, s, before, stores) && Unstorable(stores, k) && RetireStep(s, s') && Absent(Other(s), k)
    ensures Absent(Other(s'), k)
  {
    hide LastStores, Probed, Poke;
    assert k != 0;
  }

  lemma {:induction false} Swap(hash: nat -> nat, s: State, before: seq<Byte>, stores: seq<Store>, k: nat) returns (s': State)
    requires Invariant(hash, s, before, stores) && Kept(s, stores) && Unstorable(stores, k) && !Retiring(s)
    ensures SwapStep(s, s') && Retiring(s') && !Absent(Other(s'), k)
  {
    hide LastStores, Probed;
    assert InTables(s, k) && k != 0;
    s' := if s.activeA then s.(retireA := true, activeA := false, toClear := true)
    else s.(retireB := true, activeA := true, toClear := true);
  }

  lemma {:induction false} WidthsOf(stores: seq<Store>)
    ensures !AllStorable(stores) <==> exists i :: 0 <= i < |stores| && (stores[i].size == 2 || stores[i].size > 8)
  {
  }

  /** Exactly when the retirement thread can come to be stuck without another store: if
      some store has had a width that it cannot store home, two bytes or more than eight. */
  lemma {:induction false} StallsExactly(hash: nat -> nat, states: seq<State>, events: seq<Event>)
    requires Run(hash, states, events) && StoresFit(StoresOf(events), |states[0].home|)
    ensures (exists n: nat :: MayStall(hash, states[|events|], n)) <==>
            exists i :: 0 <= i < |StoresOf(events)| && (StoresOf(events)[i].size == 2 || StoresOf(events)[i].size > 8)
  {
    hide Invariant, Kept, MayStall, AllStorable;
    var s, before, stores := states[|events|], states[0].home, StoresOf(events);
    WidthsOf(stores);
    RunKeeps(hash, states, events);
    if AllStorable(stores) {
      forall n: nat ensures !MayStall(hash, s, n) {
        NeverStalls(hash, s, before, stores, n);
      }
    } else {
      RunKeepsThem(hash, states, events);
      var k := WidthOnRecord(stores, |before|);
      var n := Stalls(hash, s, before, stores, k);
    }
  }

  lemma {:induction false} WidthOnRecord(stores: seq<Store>, size: nat) returns (k: nat)
    requires StoresFit(stores, size) && !AllStorable(stores)
    ensures Unstorable(stores, k)
  {
    var i :| 0 <= i < |stores| && !Storable(stores[i].size);
    k := stores[i].key;
    LastHasWidth(stores, size, i);
  }

  lemma {:induction false} LastHasWidth(stores: seq<Store>, size: nat, i: nat)
    requires StoresFit(stores, size) && i < |stores|
    ensures stores[i].key in LastStores(stores) && LastStores(stores)[stores[i].key].size == stores[i].size
    decreases |stores|
  {
    var n := |stores| - 1;
    if i < n {
      assert stores[..n] + [stores[n]] == stores;
      PrefixFits(stores[..n], stores[n], size);
      LastHasWidth(stores[..n], size, i);
    }
  }

  lemma {:induction false} TheOneStore(v: Store)
    ensures StoresOf([Stored(v), Swapped, Retired]) == [v]
  {
    var events, first := [Stored(v), Swapped, Retired], [Stored(v)];
    assert events[..2] == first + [Swapped] && events[..2][..1] == first && first[..0] == [];
    assert StoresOf(first) == [v] && StoresOf(events[..2]) == StoresOf(first) + [];
  }

  lemma {:induction false} StoreInFirst(hash: nat -> nat, s: State, v: Store)
    requires Initial(s) && v.key != 0 && hash(v.key) == 0
    ensures StoreStep(hash, s, s.(a := s.a[0 := Slot(v.key, v.value, v.size)]), v)
  {
    assert SetsSlot(hash, Active(s), 0, v);
  }

  /** A run that ends there: one store of two bytes, a change of tables, and the retirement
      thread at its first slot. */
  lemma {:induction false} TwoByteStore(home: seq<Byte>) returns (states: seq<State>, events: seq<Event>)
    requires |home| >= 8
    ensures events == [Stored(Store(1, 7, 2)), Swapped, Retired] && |states| == 4
    ensures Run((k: nat) => 0, states, events) && StoresFit(StoresOf(events), |home|) && states[0].home == home
    ensures Stuck(states[3]) && forall s' :: !RetireStep(states[3], s')
  {
    hide StoreStep, StoresOf;
    var free, v, hash := [Slot(0, 0, 0), Slot(0, 0, 0)], Store(1, 7, 2), (k: nat) => 0;
    var s0 := State(home, free, free, true, false, false, false, Idle);
    var s1 := s0.(a := free[0 := Slot(1, 7, 2)]);
    var s2 := s1.(retireA := true, activeA := false, toClear := true);
    var s3 := s2.(scan := At(true, 0, false));
    states := [s0, s1, s2, s3];
    events := [Stored(v), Swapped, Retired];
    TheOneStore(v);
    StoreInFirst(hash, s0, v);
    assert Next(hash, s0, events[0], s1) && Next(hash, s1, events[1], s2) && Next(hash, s2, events[2], s3);
  }
}
