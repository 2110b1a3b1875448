/** Searching the B+ tree: the leaf and slot that a descent reaches, and the
    position in key order that they stand for. */
module BTreeLookup {
  import opened OrderedItems
  import opened BTreeModel
  import opened BTreeNode
  import opened BTreeRefs

  /** The items of each leaf, left to right. */
  ghost function Runs(t: Tree): (rs: seq<seq<Item>>)
    decreases t, 1
  {
    if t.Leaf? then [t.items] else RunsOf(t.kids)
  }

  ghost function RunsOf(kids: seq<Tree>): seq<seq<Item>>
    decreases kids, 0
  {
    if kids == [] then [] else Runs(kids[0]) + RunsOf(kids[1..])
  }

  ghost function Flat(rs: seq<seq<Item>>): seq<Item> {
    if rs == [] then [] else rs[0] + Flat(rs[1..])
  }

  lemma {:induction false} FlatAppend(a: seq<seq<Item>>, b: seq<seq<Item>>)
    ensures Flat(a + b) == Flat(a) + Flat(b)
  {
    if a == [] {
      assert a + b == b;
    } else {
      FlatAppend(a[1..], b);
      assert (a + b)[1..] == a[1..] + b;
    }
  }

  lemma {:induction false} RunsOfAppend(a: seq<Tree>, b: seq<Tree>)
    ensures RunsOf(a + b) == RunsOf(a) + RunsOf(b)
  {
    if a == [] {
      assert a + b == b;
    } else {
      RunsOfAppend(a[1..], b);
      HeadOfSum(a, b);
      Associate(Runs(a[0]), RunsOf(a[1..]), RunsOf(b));
    }
  }

  lemma {:induction false} HeadOfSum<T>(a: seq<T>, b: seq<T>)
    requires a != []
    ensures a + b != [] && (a + b)[0] == a[0] && (a + b)[1..] == a[1..] + b
  {
  }

  lemma {:induction false} Associate<T>(a: seq<T>, b: seq<T>, c: seq<T>)
    ensures a + (b + c) == a + b + c
  {
  }

  lemma {:induction false} FlatRuns(t: Tree)
    ensures Flat(Runs(t)) == Items(t)
    decreases t, 1
  {
    if t.Inner? {
      FlatRunsOf(t.kids);
    }
  }

  lemma {:induction false} FlatRunsOf(kids: seq<Tree>)
    ensures Flat(RunsOf(kids)) == ItemsOf(kids)
    decreases kids, 0
  {
    if kids != [] {
      FlatRuns(kids[0]);
      FlatRunsOf(kids[1..]);
      FlatAppend(Runs(kids[0]), RunsOf(kids[1..]));
    }
  }

  /** The leaves hold the runs, one each. */
  ghost predicate RunsHeld(leaves: seq<Node>, runs: seq<seq<Item>>)
    reads leaves`level, leaves`slotuse, leaves`slotkey, leaves`slotdata
  {
    |leaves| == |runs| && forall i | 0 <= i < |leaves| :: LeafHolds(leaves[i], runs[i])
  }

  lemma {:induction false} LeavesHoldRuns(r: Ref, t: Tree)
    requires Holds(r, t) && Linked(t) && SlotUse(t) > 0
    ensures RunsHeld(Leaves(r), Runs(t))
    decreases t, 1
  {
    if r.InnerRef? {
      HoldsAllLength(r.kids, t.kids);
      LeavesHoldRunsOf(r.kids, t.kids);
    }
  }

  lemma {:induction false} LeavesHoldRunsOf(rs: seq<Ref>, ts: seq<Tree>)
    requires HoldsAll(rs, ts) && forall i | 0 <= i < |ts| :: Linked(ts[i]) && SlotUse(ts[i]) > 0
    ensures RunsHeld(LeavesOf(rs), RunsOf(ts))
    decreases ts, 0
  {
    HoldsAllLength(rs, ts);
    if rs != [] {
      LeavesHoldRuns(rs[0], ts[0]);
      LeavesHoldRunsOf(rs[1..], ts[1..]);
    }
  }

  /** Where a search for the first key not below `k` has got to: `t` holds the
      leaf it will reach, all leaves before it are too small, all behind too large. */
  ghost predicate Narrowed(runs: seq<seq<Item>>, before: seq<seq<Item>>, t: Tree, after: seq<seq<Item>>, k: Key) {
    && runs == before + Runs(t) + after
    && AllBelow(Flat(before), k) && AllAbove(Flat(after), k - 1)
    && (after != [] ==> Items(t) != [] && k <= LastKey(Items(t)))
    && Linked(t) && Sorted(Items(t)) && SlotUse(t) > 0
  }

  lemma {:induction false} Narrow(runs: seq<seq<Item>>, before: seq<seq<Item>>, t: Tree, after: seq<seq<Item>>, k: Key)
    requires t.Inner? && Narrowed(runs, before, t, after, k)
    ensures var slot := LowerSlot(t.keys, k);
            && SortedKeys(t.keys) && slot < |t.kids|
            && Narrowed(runs, before + RunsOf(t.kids[..slot]), t.kids[slot], RunsOf(t.kids[slot + 1..]) + after, k)
  {
    var slot := LowerSlot(t.keys, k);
    Descend(t, k);
    SeparatorsSorted(t);
    LastKeyOfInner(t);
    NarrowedRuns(before, t, after, slot);
    BelowBoth(Flat(before), ItemsOf(t.kids[..slot]), k);
    AboveBoth(ItemsOf(t.kids[slot + 1..]), Flat(after), k - 1);
    if slot == |t.keys| {
      assert t.kids[slot + 1..] == [] && [] + after == after;
    }
  }

  lemma {:induction false} NarrowedRuns(before: seq<seq<Item>>, t: Tree, after: seq<seq<Item>>, slot: nat)
    requires t.Inner? && slot < |t.kids|
    ensures var a, b := RunsOf(t.kids[..slot]), RunsOf(t.kids[slot + 1..]);
            && before + Runs(t) + after == (before + a) + Runs(t.kids[slot]) + (b + after)
            && Flat(before + a) == Flat(before) + ItemsOf(t.kids[..slot])
            && Flat(b + after) == ItemsOf(t.kids[slot + 1..]) + Flat(after)
  {
    RunsAround(t.kids, slot);
    FlatRunsOf(t.kids[..slot]);
    FlatRunsOf(t.kids[slot + 1..]);
    FlatAppend(before, RunsOf(t.kids[..slot]));
    FlatAppend(RunsOf(t.kids[slot + 1..]), after);
    Nested(before, RunsOf(t.kids[..slot]), Runs(t.kids[slot]), RunsOf(t.kids[slot + 1..]), after);
  }

  lemma {:induction false} BelowBoth(a: seq<Item>, b: seq<Item>, k: Key)
    requires AllBelow(a, k) && AllBelow(b, k)
    ensures AllBelow(a + b, k)
  {
  }

  lemma {:induction false} AboveBoth(a: seq<Item>, b: seq<Item>, k: Key)
    requires AllAbove(a, k) && AllAbove(b, k)
    ensures AllAbove(a + b, k)
  {
  }

  lemma {:induction false} RunsAround(kids: seq<Tree>, i: nat)
    requires i < |kids|
    ensures RunsOf(kids) == RunsOf(kids[..i]) + Runs(kids[i]) + RunsOf(kids[i + 1..])
  {
    RunsOfAppend(kids[..i] + [kids[i]], kids[i + 1..]);
    RunsOfAppend(kids[..i], [kids[i]]);
    assert RunsOf([kids[i]]) == Runs(kids[i]);
    CutOut(kids, i);
  }

  lemma {:induction false} Nested<T>(a: seq<T>, b: seq<T>, m: seq<T>, c: seq<T>, d: seq<T>)
    ensures a + (b + m + c) + d == (a + b) + m + (c + d)
  {
  }

  /** The position of slot `slot` of leaf `i`, counted in items. */
  ghost function Rank(runs: seq<seq<Item>>, i: nat, slot: nat): nat
    requires i < |runs|
  {
    |Flat(runs[..i])| + slot
  }

  /** The search ends at the position a linear scan of all items would find, in a
      leaf that has that item, or else at the end of the last leaf. */
  lemma {:induction false} Arrived(runs: seq<seq<Item>>, before: seq<seq<Item>>, t: Tree, after: seq<seq<Item>>, k: Key)
    requires t.Leaf? && Narrowed(runs, before, t, after, k)
    ensures var i, slot := |before|, LowerSlot(Keys(t.items), k);
            && i < |runs| && runs[i] == t.items
            && Rank(runs, i, slot) == LowerSlot(Keys(Flat(runs)), k)
            && (slot < |t.items| || i == |runs| - 1)
            && (Found(Flat(runs), k) <==> Found(t.items, k))
  {
    var i, slot := |before|, LowerSlot(Keys(t.items), k);
    assert runs[..i] == before;
    FlatAppend(before + Runs(t), after);
    FlatAppend(before, Runs(t));
    assert Flat(Runs(t)) == t.items;
    LowerSlotBetween(Flat(before), t.items, Flat(after), k);
  }

  lemma {:induction false} LowerSlotBetween(a: seq<Item>, m: seq<Item>, b: seq<Item>, k: Key)
    requires AllBelow(a, k) && AllAbove(b, k - 1)
    requires b != [] ==> m != [] && k <= LastKey(m)
    ensures LowerSlot(Keys(a + m + b), k) == |a| + LowerSlot(Keys(m), k)
    ensures m != [] && k <= LastKey(m) ==> LowerSlot(Keys(m), k) < |m|
    ensures Found(a + m + b, k) <==> Found(m, k)
  {
    var i := LowerSlot(Keys(m), k);
    assert m != [] ==> Keys(m)[|m| - 1] == LastKey(m);
    LowerSlotWithin(a, m, b, k);
    assert i < |m| ==> (a + m + b)[|a| + i] == m[i];
    assert i == |m| ==> b == [];
  }

  lemma {:induction false} LowerSlotWithin(a: seq<Item>, m: seq<Item>, b: seq<Item>, k: Key)
    requires AllBelow(a, k) && AllAbove(b, k - 1)
    ensures LowerSlot(Keys(a + m + b), k) == |a| + LowerSlot(Keys(m), k)
  {
    var s, i := Keys(a + m + b), LowerSlot(Keys(m), k);
    forall j | |a| + i <= j < |s| ensures k <= s[j] {
      assert s[j] == if j < |a| + |m| then Keys(m)[j - |a|] else b[j - |a| - |m|].key;
    }
    if |a| + i > 0 {
      assert s[|a| + i - 1] == if i > 0 then Keys(m)[i - 1] else a[|a| - 1].key;
    }
    LowerSlotIs(s, k, |a| + i);
  }

  /** On integer keys, the first key above `k` is the first key not below `k + 1`. */
  lemma {:induction false} UpperIsLower(keys: seq<Key>, k: Key)
    ensures UpperSlot(keys, k) == LowerSlot(keys, k + 1)
  {
    LowerSlotIs(keys, k + 1, UpperSlot(keys, k));
  }

  /** No leaf of a tree is empty. */
  lemma {:induction false} RunsNonempty(t: Tree)
    requires Linked(t) && SlotUse(t) > 0
    ensures forall i | 0 <= i < |Runs(t)| :: Runs(t)[i] != []
    ensures Runs(t) != []
    decreases t, 1
  {
    if t.Inner? {
      RunsNonemptyOf(t.kids);
      RunsAround(t.kids, 0);
      RunsNonempty(t.kids[0]);
    }
  }

  lemma {:induction false} RunsNonemptyOf(ts: seq<Tree>)
    requires forall i | 0 <= i < |ts| :: Linked(ts[i]) && SlotUse(ts[i]) > 0
    ensures forall i | 0 <= i < |RunsOf(ts)| :: RunsOf(ts)[i] != []
    decreases ts, 0
  {
    if ts != [] {
      RunsNonempty(ts[0]);
      RunsNonemptyOf(ts[1..]);
    }
  }

  /** One leaf after the other. */
  lemma {:induction false} NextRun(runs: seq<seq<Item>>, i: nat)
    requires i < |runs|
    ensures Flat(runs[..i + 1]) == Flat(runs[..i]) + runs[i]
    ensures Flat(runs) == Flat(runs[..i]) + runs[i] + Flat(runs[i + 1..])
  {
    assert runs[..i + 1] == runs[..i] + [runs[i]];
    FlatAppend(runs[..i], [runs[i]]);
    assert Flat([runs[i]]) == runs[i];
    assert runs == runs[..i + 1] + runs[i + 1..];
    FlatAppend(runs[..i + 1], runs[i + 1..]);
  }
}
