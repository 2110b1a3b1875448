/** Sorted sequences of key/data pairs: the abstract content of a B+ tree that
    holds no duplicate keys. */
module OrderedItems {
  import opened Sequences

  type Key = int
  type Data = int

  datatype Item = Item(key: Key, data: Data)

  function Keys(s: seq<Item>): (r: seq<Key>)
    ensures |r| == |s|
    ensures forall i | 0 <= i < |s| :: r[i] == s[i].key
  {
    seq(|s|, i requires 0 <= i < |s| => s[i].key)
  }

  ghost predicate Sorted(s: seq<Item>) {
    forall i, j | 0 <= i < j < |s| :: s[i].key < s[j].key
  }

  ghost predicate SortedKeys(s: seq<Key>) {
    forall i, j | 0 <= i < j < |s| :: s[i] < s[j]
  }

  ghost predicate AllBelow(s: seq<Item>, k: Key) {
    forall i | 0 <= i < |s| :: s[i].key < k
  }

  ghost predicate AllAbove(s: seq<Item>, k: Key) {
    forall i | 0 <= i < |s| :: k < s[i].key
  }

  ghost predicate HasKey(s: seq<Item>, k: Key) {
    exists i :: 0 <= i < |s| && s[i].key == k
  }

  /** The last key of a nonempty sequence of items. */
  function LastKey(s: seq<Item>): Key {
    if s == [] then 0 else s[|s| - 1].key
  }

  /** The linear scan, from the last slot backwards, that the binary search is
      checked against: the first slot whose key is not less than `k`. */
  function LowerSlot(keys: seq<Key>, k: Key): (i: nat)
    ensures i <= |keys|
    ensures i > 0 ==> keys[i - 1] < k
    ensures forall j | i <= j < |keys| :: k <= keys[j]
  {
    if keys == [] || keys[|keys| - 1] < k then |keys| else LowerSlot(keys[..|keys| - 1], k)
  }

  /** The first slot whose key is greater than `k`, by the same kind of scan. */
  function UpperSlot(keys: seq<Key>, k: Key): (i: nat)
    ensures i <= |keys|
    ensures i > 0 ==> keys[i - 1] <= k
    ensures forall j | i <= j < |keys| :: k < keys[j]
  {
    if keys == [] || keys[|keys| - 1] <= k then |keys| else UpperSlot(keys[..|keys| - 1], k)
  }

  /** The test that decides whether a search in a leaf hit its key. */
  predicate Found(s: seq<Item>, k: Key) {
    var i := LowerSlot(Keys(s), k);
    i < |s| && s[i].key == k
  }

  /** Insertion into a map without duplicates: a present key is left alone. */
  function Put(s: seq<Item>, k: Key, v: Data): seq<Item> {
    if Found(s, k) then s else InsertAt(s, LowerSlot(Keys(s), k), Item(k, v))
  }

  function Remove(s: seq<Item>, k: Key): seq<Item> {
    if Found(s, k) then RemoveAt(s, LowerSlot(Keys(s), k)) else s
  }

  /** The map that a sorted sequence of items stands for. */
  ghost function AsMap(s: seq<Item>): map<Key, Data> {
    if s == [] then map[] else AsMap(s[..|s| - 1])[s[|s| - 1].key := s[|s| - 1].data]
  }

  lemma {:induction false} LowerSlotIs(keys: seq<Key>, k: Key, i: nat)
    requires i <= |keys|
    requires i > 0 ==> keys[i - 1] < k
    requires forall j | i <= j < |keys| :: k <= keys[j]
    ensures LowerSlot(keys, k) == i
  {
  }

  lemma {:induction false} UpperSlotIs(keys: seq<Key>, k: Key, i: nat)
    requires i <= |keys|
    requires i > 0 ==> keys[i - 1] <= k
    requires forall j | i <= j < |keys| :: k < keys[j]
    ensures UpperSlot(keys, k) == i
  {
  }

  lemma {:induction false} LowerSlotInMiddle(a: seq<Item>, m: seq<Item>, b: seq<Item>, k: Key)
    requires AllBelow(a, k) && AllAbove(b, k)
    ensures LowerSlot(Keys(a + m + b), k) == |a| + LowerSlot(Keys(m), k)
    ensures Found(a + m + b, k) <==> Found(m, k)
  {
    var s := Keys(a + m + b);
    var i := LowerSlot(Keys(m), k);
    forall j | |a| + i <= j < |s| ensures k <= s[j] {
      if j < |a| + |m| { assert s[j] == Keys(m)[j - |a|]; }
    }
    LowerSlotIs(s, k, |a| + i);
    assert i < |m| ==> (a + m + b)[|a| + i] == m[i];
    assert i == |m| && b != [] ==> (a + m + b)[|a| + i] == b[0];
  }

  lemma {:induction false} CutOut<T>(s: seq<T>, i: nat)
    requires i < |s|
    ensures s == s[..i] + [s[i]] + s[i + 1..]
  {
  }

  lemma {:induction false} InsertInMiddle<T>(a: seq<T>, m: seq<T>, b: seq<T>, i: nat, x: T)
    requires i <= |m|
    ensures InsertAt(a + m + b, |a| + i, x) == a + InsertAt(m, i, x) + b
  {
  }

  lemma {:induction false} RemoveInside<T>(a: seq<T>, m: seq<T>, b: seq<T>, i: nat)
    requires i < |m|
    ensures RemoveAt(a + m + b, |a| + i) == a + RemoveAt(m, i) + b
  {
  }

  /** Both updates act on the middle part alone when the parts around it lie
      strictly below and strictly above the key. */
  lemma {:induction false} PutInMiddle(a: seq<Item>, m: seq<Item>, b: seq<Item>, k: Key, v: Data)
    requires AllBelow(a, k) && AllAbove(b, k)
    ensures Put(a + m + b, k, v) == a + Put(m, k, v) + b
  {
    var i, x := LowerSlot(Keys(m), k), Item(k, v);
    LowerSlotInMiddle(a, m, b, k);
    InsertInMiddle(a, m, b, i, x);
    PutAt(m, k, v, i);
    PutAt(a + m + b, k, v, |a| + i);
  }

  lemma {:induction false} PutAt(s: seq<Item>, k: Key, v: Data, i: nat)
    requires i == LowerSlot(Keys(s), k)
    ensures Put(s, k, v) == if Found(s, k) then s else InsertAt(s, i, Item(k, v))
  {
  }

  lemma {:induction false} RemoveInMiddle(a: seq<Item>, m: seq<Item>, b: seq<Item>, k: Key)
    requires AllBelow(a, k) && AllAbove(b, k)
    ensures Remove(a + m + b, k) == a + Remove(m, k) + b
  {
    var i := LowerSlot(Keys(m), k);
    LowerSlotInMiddle(a, m, b, k);
    if Found(m, k) {
      RemoveInside(a, m, b, i);
      RemovedAt(m, k, i);
      RemovedAt(a + m + b, k, |a| + i);
    }
  }

  lemma {:induction false} RemovedAt(s: seq<Item>, k: Key, i: nat)
    requires Found(s, k) && i == LowerSlot(Keys(s), k)
    ensures Remove(s, k) == RemoveAt(s, i)
  {
  }

  lemma {:induction false} HasKeyAppend(a: seq<Item>, b: seq<Item>, k: Key)
    ensures HasKey(a + b, k) <==> HasKey(a, k) || HasKey(b, k)
  {
    if HasKey(a, k) {
      var i :| 0 <= i < |a| && a[i].key == k;
      assert (a + b)[i].key == k;
    }
    if HasKey(b, k) {
      var i :| 0 <= i < |b| && b[i].key == k;
      assert (a + b)[|a| + i].key == k;
    }
  }

  lemma {:induction false} FoundAtLowerSlot(s: seq<Item>, k: Key)
    requires Sorted(s)
    ensures HasKey(s, k) <==> Found(s, k)
    ensures forall j | 0 <= j < LowerSlot(Keys(s), k) :: s[j].key < k
    ensures forall j | LowerSlot(Keys(s), k) <= j < |s| :: k <= s[j].key
  {
    var i := LowerSlot(Keys(s), k);
    if HasKey(s, k) {
      var j :| 0 <= j < |s| && s[j].key == k;
      assert i == 0 || s[i - 1].key == Keys(s)[i - 1];
      assert i <= j;
      assert Keys(s)[i] == s[i].key;
    }
  }

  lemma {:induction false} PutSorted(s: seq<Item>, k: Key, v: Data)
    requires Sorted(s)
    ensures Sorted(Put(s, k, v))
    ensures |Put(s, k, v)| == |s| + if HasKey(s, k) then 0 else 1
  {
    FoundAtLowerSlot(s, k);
    var i := LowerSlot(Keys(s), k);
    if !Found(s, k) {
      InsertAtSorted(s, i, Item(k, v));
    }
  }

  lemma {:induction false} InsertAtSorted(s: seq<Item>, i: nat, x: Item)
    requires Sorted(s) && i <= |s|
    requires forall j | 0 <= j < i :: s[j].key < x.key
    requires forall j | i <= j < |s| :: x.key < s[j].key
    ensures Sorted(InsertAt(s, i, x))
  {
  }

  lemma {:induction false} RemoveSorted(s: seq<Item>, k: Key)
    requires Sorted(s)
    ensures Sorted(Remove(s, k))
    ensures |Remove(s, k)| == |s| - if HasKey(s, k) then 1 else 0
  {
    FoundAtLowerSlot(s, k);
  }

  lemma {:induction false} AsMapAppend(a: seq<Item>, b: seq<Item>)
    ensures AsMap(a + b) == AsMap(a) + AsMap(b)
  {
    if b == [] {
      assert a + b == a;
    } else {
      AsMapAppend(a, b[..|b| - 1]);
      assert (a + b)[..|a + b| - 1] == a + b[..|b| - 1];
    }
  }

  lemma {:induction false} AsMapKeys(s: seq<Item>, k: Key)
    ensures k in AsMap(s) <==> HasKey(s, k)
  {
    if s != [] {
      AsMapKeys(s[..|s| - 1], k);
      HasKeyAppend(s[..|s| - 1], [s[|s| - 1]], k);
      assert s == s[..|s| - 1] + [s[|s| - 1]];
      assert HasKey([s[|s| - 1]], k) <==> s[|s| - 1].key == k;
    }
  }

  lemma {:induction false} AsMapSplice(a: seq<Item>, x: Item, b: seq<Item>)
    requires !HasKey(a, x.key) && !HasKey(b, x.key)
    ensures AsMap(a + [x] + b) == AsMap(a + b)[x.key := x.data]
    ensures AsMap(a + b) == AsMap(a + [x] + b) - {x.key}
  {
    AsMapAppend(a, [x]);
    AsMapAppend(a + [x], b);
    AsMapAppend(a, b);
    AsMapKeys(a, x.key);
    AsMapKeys(b, x.key);
    assert AsMap([x]) == map[x.key := x.data];
  }

  /** `Put` and `Remove` are the map operations the tree is documented to offer. */
  lemma {:induction false} PutAsMap(s: seq<Item>, k: Key, v: Data)
    requires Sorted(s)
    ensures AsMap(Put(s, k, v)) == if k in AsMap(s) then AsMap(s) else AsMap(s)[k := v]
  {
    FoundAtLowerSlot(s, k);
    AsMapKeys(s, k);
    var i := LowerSlot(Keys(s), k);
    if !Found(s, k) {
      CutAt(s, i, k);
      AsMapSplice(s[..i], Item(k, v), s[i..]);
    }
  }

  lemma {:induction false} CutAt(s: seq<Item>, i: nat, k: Key)
    requires i <= |s|
    ensures s[..i] + s[i..] == s
    ensures HasKey(s, k) <==> HasKey(s[..i], k) || HasKey(s[i..], k)
  {
    assert s[..i] + s[i..] == s;
    HasKeyAppend(s[..i], s[i..], k);
  }

  lemma {:induction false} RemoveAsMap(s: seq<Item>, k: Key)
    requires Sorted(s)
    ensures AsMap(Remove(s, k)) == AsMap(s) - {k}
  {
    FoundAtLowerSlot(s, k);
    AsMapKeys(s, k);
    var i := LowerSlot(Keys(s), k);
    if Found(s, k) {
      CutAround(s, i);
      AsMapSplice(s[..i], s[i], s[i + 1..]);
    }
  }

  lemma {:induction false} CutAround(s: seq<Item>, i: nat)
    requires Sorted(s) && i < |s|
    ensures s[..i] + [s[i]] + s[i + 1..] == s
    ensures !HasKey(s[..i], s[i].key) && !HasKey(s[i + 1..], s[i].key)
  {
  }
}
