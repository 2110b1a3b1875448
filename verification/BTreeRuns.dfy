/** Whole runs of a B+ tree: any sequence of insertions and erasures is a sequence of
    updates of a map, and the tree stays shallow throughout. */
module BTreeRuns {
  import opened OrderedItems
  import opened Wrappers
  import opened BTreeModel
  import BTreeInsert
  import BTreeErase
  import BTreeEraseProof

  datatype Op = Insert(key: Key, data: Data) | Erase(key: Key)

  ghost predicate RootValid(root: Option<Tree>) {
    root.Some? ==> Valid(root.value)
  }

  /** One operation on the tree, with the answer its caller gets. */
  ghost function Apply(root: Option<Tree>, op: Op): (Option<Tree>, bool)
    requires RootValid(root)
  {
    match op
    case Insert(k, v) => var (t, inserted) := BTreeInsert.Insert(root, k, v); (Some(t), inserted)
    case Erase(k) => BTreeErase.EraseOne(root, k)
  }

  /** The same operation on a map. */
  ghost function ApplyToMap(m: map<Key, Data>, op: Op): (map<Key, Data>, bool) {
    match op
    case Insert(k, v) => if k in m then (m, false) else (m[k := v], true)
    case Erase(k) => (m - {k}, k in m)
  }

  lemma {:induction false} ApplyRefinesMap(root: Option<Tree>, op: Op)
    requires RootValid(root)
    ensures var (after, answer) := Apply(root, op);
            RootValid(after) && (AsMap(RootItems(after)), answer) == ApplyToMap(AsMap(RootItems(root)), op)
  {
    AsMapKeys(RootItems(root), op.key);
    match op
    case Insert(k, v) =>
      BTreeInsert.InsertCorrect(root, k, v);
      PutAsMap(RootItems(root), k, v);
    case Erase(k) =>
      BTreeEraseProof.EraseCorrect(root, k);
      RemoveAsMap(RootItems(root), k);
  }

  ghost function Run(root: Option<Tree>, ops: seq<Op>): (Option<Tree>, seq<bool>)
    requires RootValid(root)
    decreases |ops|
  {
    if ops == [] then (root, [])
    else
      ApplyRefinesMap(root, ops[0]);
      var (after, answer) := Apply(root, ops[0]);
      var (last, answers) := Run(after, ops[1..]);
      (last, [answer] + answers)
  }

  ghost function RunOnMap(m: map<Key, Data>, ops: seq<Op>): (map<Key, Data>, seq<bool>)
    decreases |ops|
  {
    if ops == [] then (m, [])
    else
      var (after, answer) := ApplyToMap(m, ops[0]);
      var (last, answers) := RunOnMap(after, ops[1..]);
      (last, [answer] + answers)
  }

  /** Every run keeps the invariant, gives the answers of the map and ends with its content. */
  lemma {:induction false} RunRefinesMap(root: Option<Tree>, ops: seq<Op>)
    requires RootValid(root)
    ensures var (last, answers) := Run(root, ops);
            RootValid(last) && (AsMap(RootItems(last)), answers) == RunOnMap(AsMap(RootItems(root)), ops)
    decreases |ops|
  {
    if ops != [] {
      ApplyRefinesMap(root, ops[0]);
      RunRefinesMap(Apply(root, ops[0]).0, ops[1..]);
    }
  }

  /** Two sorted contents that stand for the same map are the same sequence. */
  lemma {:induction false} SameMapSameItems(s: seq<Item>, t: seq<Item>)
    requires Sorted(s) && Sorted(t) && AsMap(s) == AsMap(t)
    ensures s == t
    decreases |s|
  {
    if s == [] || t == [] {
      if s != [] { AsMapKeys(s, LastKey(s)); AsMapKeys(t, LastKey(s)); }
      if t != [] { AsMapKeys(t, LastKey(t)); AsMapKeys(s, LastKey(t)); }
    } else {
      LastIsLargest(s, t);
      LastIsLargest(t, s);
      LastTakenOff(s);
      LastTakenOff(t);
      SameMapSameItems(s[..|s| - 1], t[..|t| - 1]);
      assert s[|s| - 1] == t[|t| - 1] by {
        assert AsMap(s)[LastKey(s)] == s[|s| - 1].data && AsMap(t)[LastKey(t)] == t[|t| - 1].data;
      }
      assert s == s[..|s| - 1] + [s[|s| - 1]] && t == t[..|t| - 1] + [t[|t| - 1]];
    }
  }

  lemma {:induction false} LastIsLargest(s: seq<Item>, t: seq<Item>)
    requires Sorted(s) && Sorted(t) && AsMap(s) == AsMap(t) && s != [] && t != []
    ensures LastKey(s) <= LastKey(t)
  {
    AsMapKeys(s, LastKey(s));
    AsMapKeys(t, LastKey(s));
    assert HasKey(s, LastKey(s));
  }

  lemma {:induction false} LastTakenOff(s: seq<Item>)
    requires Sorted(s) && s != []
    ensures AsMap(s[..|s| - 1]) == AsMap(s) - {LastKey(s)}
  {
    AsMapKeys(s[..|s| - 1], LastKey(s));
  }

  /** So what an iteration shows after a run is settled by the map alone: two runs
      that end with the same map end with the same items in the same order. */
  lemma {:induction false} OrderIsSettled(root: Option<Tree>, ops: seq<Op>, root': Option<Tree>, ops': seq<Op>)
    requires RootValid(root) && RootValid(root')
    requires RunOnMap(AsMap(RootItems(root)), ops).0 == RunOnMap(AsMap(RootItems(root')), ops').0
    ensures RootItems(Run(root, ops).0) == RootItems(Run(root', ops').0)
  {
    RunRefinesMap(root, ops);
    RunRefinesMap(root', ops');
    SameMapSameItems(RootItems(Run(root, ops).0), RootItems(Run(root', ops').0));
  }

  ghost function Power(b: nat, e: nat): nat {
    if e == 0 then 1 else b * Power(b, e - 1)
  }

  /** A node below the root holds at least this many items. */
  lemma {:induction false} ItemsBelow(t: Tree)
    requires Shape(t, MinFill(t))
    ensures |Items(t)| >= minleafslots * Power(mininnerslots + 1, Level(t))
    decreases t
  {
    if t.Inner? {
      var each := minleafslots * Power(mininnerslots + 1, t.level - 1);
      forall i | 0 <= i < |t.kids| ensures |Items(t.kids[i])| >= each {
        ItemsBelow(t.kids[i]);
      }
      ItemsOfMany(t.kids, each);
      Grow(|t.kids|, mininnerslots + 1, each);
      Reassociate(mininnerslots + 1, minleafslots, Power(mininnerslots + 1, t.level - 1));
    }
  }

  lemma {:induction false} ItemsOfMany(kids: seq<Tree>, each: nat)
    requires forall i | 0 <= i < |kids| :: |Items(kids[i])| >= each
    ensures |ItemsOf(kids)| >= |kids| * each
  {
    if kids != [] {
      ItemsOfMany(kids[1..], each);
      assert |kids| * each == each + (|kids| - 1) * each;
    }
  }

  lemma {:induction false} Grow(a: nat, b: nat, c: nat)
    requires a >= b
    ensures a * c >= b * c
  {
  }

  lemma {:induction false} Reassociate(a: nat, b: nat, c: nat)
    ensures a * (b * c) == b * (a * c)
  {
  }

  /** The height is logarithmic: a valid tree whose root is an inner node of level `l`
      holds at least `2 * minleafslots * (mininnerslots + 1)^(l - 1)` items. */
  lemma {:induction false} HeightBound(t: Tree)
    requires Valid(t) && t.Inner?
    ensures |Items(t)| >= 2 * (minleafslots * Power(mininnerslots + 1, t.level - 1))
  {
    var each := minleafslots * Power(mininnerslots + 1, t.level - 1);
    forall i | 0 <= i < |t.kids| ensures |Items(t.kids[i])| >= each {
      ItemsBelow(t.kids[i]);
    }
    ItemsOfMany(t.kids, each);
    Grow(|t.kids|, 2, each);
  }
}
