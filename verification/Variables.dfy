/** Home memory seen as disjoint variables of fixed width, and the stores to them. */
module Variables {
  import opened Memory
  import opened HashTable

  /** A store of a machine value. */
  datatype Store = Store(key: nat, value: nat, size: nat)

  function VarWrite(key: nat, d: Datum): Write {
    Write(key, LE(d.size, d.value))
  }

  ghost function WritesOf(stores: seq<Store>): (ws: seq<Write>)
    ensures |ws| == |stores|
    ensures forall i | 0 <= i < |stores| :: ws[i] == VarWrite(stores[i].key, Datum(stores[i].value, stores[i].size))
  {
    seq(|stores|, i requires 0 <= i < |stores| => VarWrite(stores[i].key, Datum(stores[i].value, stores[i].size)))
  }

  /** What a table holds after the stores. */
  ghost function LastStores(stores: seq<Store>): map<nat, Datum> {
    if stores == [] then map[]
    else
      var s := stores[|stores| - 1];
      LastStores(stores[..|stores| - 1])[s.key := Datum(s.value, s.size)]
  }

  ghost predicate Clear(k: nat, m: nat, j: nat, n: nat) {
    k + m <= j || j + n <= k
  }

  /** One key, one width; no two variables overlap. */
  ghost predicate FixedWidth(stores: seq<Store>) {
    forall i, j | 0 <= i < j < |stores| ::
      if stores[i].key == stores[j].key then stores[i].size == stores[j].size
      else Clear(stores[i].key, stores[i].size, stores[j].key, stores[j].size)
  }

  ghost predicate Disjoint(m: map<nat, Datum>) {
    forall j, k | j in m && k in m && j != k :: Clear(j, m[j].size, k, m[k].size)
  }

  ghost predicate InVariable(m: map<nat, Datum>, k: nat, a: nat) {
    k in m && k <= a < k + m[k].size
  }

  /** Memory `after` is memory `before` with every variable of `m` set. */
  ghost predicate ImageOf(after: seq<Byte>, before: seq<Byte>, m: map<nat, Datum>) {
    && |after| == |before|
    && (forall a | 0 <= a < |before| :: (forall k :: !InVariable(m, k, a)) ==> after[a] == before[a])
    && (forall k, a | 0 <= a < |before| && InVariable(m, k, a) :: after[a] == LE(m[k].size, m[k].value)[a - k])
  }

  lemma {:induction false} ImageUnique(x: seq<Byte>, y: seq<Byte>, before: seq<Byte>, m: map<nat, Datum>)
    requires ImageOf(x, before, m) && ImageOf(y, before, m)
    ensures x == y
  {
    forall a | 0 <= a < |before| ensures x[a] == y[a] {
      if k :| InVariable(m, k, a) {
        assert x[a] == LE(m[k].size, m[k].value)[a - k];
      }
    }
  }

  /** Any list of writes of the variables, in any order and with any repetitions, as
      long as it leaves none out, makes the image. */
  lemma {:induction false} WritesMakeImage(home: seq<Byte>, ws: seq<Write>, m: map<nat, Datum>)
    requires AllWithin(ws, |home|) && Disjoint(m)
    requires forall i | 0 <= i < |ws| :: ws[i].dest in m && ws[i] == VarWrite(ws[i].dest, m[ws[i].dest])
    requires forall k | k in m :: exists i :: 0 <= i < |ws| && ws[i].dest == k
    ensures ImageOf(Replay(home, ws), home, m)
  {
    var after := Replay(home, ws);
    forall a | 0 <= a < |home| && forall k :: !InVariable(m, k, a) ensures after[a] == home[a] {
      forall i | 0 <= i < |ws| ensures !Covers(ws[i], a) {
        assert !InVariable(m, ws[i].dest, a);
      }
      FootprintIs(ws, a);
      ReplayAt(home, ws, a);
    }
    forall k, a | 0 <= a < |home| && InVariable(m, k, a) ensures after[a] == LE(m[k].size, m[k].value)[a - k] {
      var i :| 0 <= i < |ws| && ws[i].dest == k;
      assert Covers(ws[i], a);
      LastOfVariable(ws, m, k, a, i);
      ReplayAt(home, ws, a);
    }
  }

  lemma {:induction false} LastOfVariable(ws: seq<Write>, m: map<nat, Datum>, k: nat, a: nat, i: nat)
    requires Disjoint(m) && InVariable(m, k, a) && i < |ws| && ws[i].dest == k
    requires forall j | 0 <= j < |ws| :: ws[j].dest in m && ws[j] == VarWrite(ws[j].dest, m[ws[j].dest])
    ensures InFootprint(ws, a) && LastAt(ws, a).value == LE(m[k].size, m[k].value)[a - k]
  {
    var last := ws[|ws| - 1];
    if Covers(last, a) {
      assert InVariable(m, last.dest, a);
    } else {
      assert i < |ws| - 1;
      LastOfVariable(ws[..|ws| - 1], m, k, a, i);
    }
  }

  ghost predicate Recorded(stores: seq<Store>, key: nat, size: nat) {
    exists i :: 0 <= i < |stores| && stores[i].key == key && stores[i].size == size
  }

  /** Storing to the variables one after the other makes the image of the last stores. */
  lemma {:induction false} StoresMakeImage(home: seq<Byte>, stores: seq<Store>)
    requires FixedWidth(stores) && AllWithin(WritesOf(stores), |home|)
    ensures ImageOf(Replay(home, WritesOf(stores)), home, LastStores(stores)) && Disjoint(LastStores(stores))
    ensures forall k | k in LastStores(stores) :: Recorded(stores, k, LastStores(stores)[k].size)
  {
    if stores != [] {
      var n := |stores| - 1;
      var before, s := stores[..n], stores[n];
      assert WritesOf(stores)[..n] == WritesOf(before);
      StoresMakeImage(home, before);
      var m, m' := LastStores(before), LastStores(stores);
      SizesOnRecord(stores, m);
      StoreMakesImage(Replay(home, WritesOf(before)), home, m, s);
    }
  }

  /** Every variable has the one width that all stores to it have. */
  lemma {:induction false} SizesOnRecord(stores: seq<Store>, m: map<nat, Datum>)
    requires FixedWidth(stores) && stores != [] && m == LastStores(stores[..|stores| - 1])
    requires forall k | k in m :: Recorded(stores[..|stores| - 1], k, m[k].size)
    ensures var s, m' := stores[|stores| - 1], LastStores(stores);
            && (forall k | k in m' :: Recorded(stores, k, m'[k].size))
            && (forall k | k in m && k != s.key :: Clear(k, m[k].size, s.key, s.size))
            && (s.key in m ==> m[s.key].size == s.size)
  {
    var n := |stores| - 1;
    var s, m' := stores[n], LastStores(stores);
    assert Recorded(stores, s.key, s.size) by { assert stores[n] == s; }
    forall k | k in m
      ensures Recorded(stores, k, m[k].size)
      ensures if k == s.key then m[k].size == s.size else Clear(k, m[k].size, s.key, s.size)
    {
      var i :| 0 <= i < n && stores[..n][i].key == k && stores[..n][i].size == m[k].size;
      assert stores[i] == stores[..n][i];
    }
  }

  lemma {:induction false} StoreMakesImage(now: seq<Byte>, home: seq<Byte>, m: map<nat, Datum>, s: Store)
    requires ImageOf(now, home, m) && s.key + s.size <= |now|
    requires forall k | k in m && k != s.key :: Clear(k, m[k].size, s.key, s.size)
    requires s.key in m ==> m[s.key].size == s.size
    ensures ImageOf(Poke(now, s.key, LE(s.size, s.value)), home, m[s.key := Datum(s.value, s.size)])
  {
    var m' := m[s.key := Datum(s.value, s.size)];
    var after := Poke(now, s.key, LE(s.size, s.value));
    forall a | 0 <= a < |home| && forall k :: !InVariable(m', k, a) ensures after[a] == home[a] {
      assert !InVariable(m', s.key, a);
      forall k ensures !InVariable(m, k, a) {
        assert !InVariable(m', k, a);
      }
    }
    forall k, a | 0 <= a < |home| && InVariable(m', k, a) ensures after[a] == LE(m'[k].size, m'[k].value)[a - k] {
      if k != s.key {
        assert InVariable(m, k, a);
      }
    }
  }
}
