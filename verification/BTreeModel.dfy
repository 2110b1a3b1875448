/** The B+ tree as a value: what its nodes hold, and the invariant that the
    tree's own self-check spells out. */
module BTreeModel {
  import opened OrderedItems
  import opened Wrappers

  /** Slot capacities. The default traits never choose fewer than eight slots. */
  type Capacity = n: nat | n >= 8 witness 8

  const leafslotmax: Capacity
  const innerslotmax: Capacity
  const minleafslots: nat := leafslotmax / 2
  const mininnerslots: nat := innerslotmax / 2

  datatype Tree =
    | Leaf(items: seq<Item>)
    | Inner(level: nat, keys: seq<Key>, kids: seq<Tree>)

  function Level(t: Tree): nat {
    if t.Leaf? then 0 else t.level
  }

  function SlotUse(t: Tree): nat {
    if t.Leaf? then |t.items| else |t.keys|
  }

  function MinFill(t: Tree): nat {
    if t.Leaf? then minleafslots else mininnerslots
  }

  function MaxFill(t: Tree): nat {
    if t.Leaf? then leafslotmax else innerslotmax
  }

  /** The items of a tree, left to right. */
  function Items(t: Tree): seq<Item>
    decreases t, 1
  {
    match t
    case Leaf(items) => items
    case Inner(_, _, kids) => ItemsOf(kids)
  }

  function ItemsOf(kids: seq<Tree>): seq<Item>
    decreases kids, 0
  {
    if kids == [] then [] else Items(kids[0]) + ItemsOf(kids[1..])
  }

  /** The structural invariant below the top node: every leaf at the same depth,
      every node at least half full and within capacity, every separator the
      largest key of the child before it. */
  ghost predicate Linked(t: Tree)
    decreases t
  {
    t.Inner? ==>
      && t.level >= 1
      && |t.kids| == |t.keys| + 1
      && (forall i | 0 <= i < |t.kids| ::
            && Level(t.kids[i]) + 1 == t.level
            && MinFill(t.kids[i]) <= SlotUse(t.kids[i]) <= MaxFill(t.kids[i])
            && Linked(t.kids[i]))
      && (forall i | 0 <= i < |t.keys| :: t.keys[i] == LastKey(Items(t.kids[i])))
  }

  ghost predicate Shaped(t: Tree) {
    SlotUse(t) <= MaxFill(t) && Linked(t)
  }

  ghost predicate Shape(t: Tree, least: nat) {
    least <= SlotUse(t) && Shaped(t)
  }

  /** The whole invariant of a nonempty tree. */
  ghost predicate Valid(t: Tree) {
    Shape(t, 1) && Sorted(Items(t))
  }

  /** The content of a whole tree, whose root may be null. */
  function RootItems(root: Option<Tree>): seq<Item> {
    if root.None? then [] else Items(root.value)
  }

  lemma {:induction false} ItemsOfAppend(a: seq<Tree>, b: seq<Tree>)
    ensures ItemsOf(a + b) == ItemsOf(a) + ItemsOf(b)
  {
    if a == [] {
      assert a + b == b;
    } else {
      ItemsOfAppend(a[1..], b);
      assert (a + b)[1..] == a[1..] + b;
    }
  }

  lemma {:induction false} ItemsOfOne(t: Tree)
    ensures ItemsOf([t]) == Items(t)
  {
  }

  lemma {:induction false} ItemsOfThree(a: seq<Tree>, t: Tree, b: seq<Tree>)
    ensures ItemsOf(a + [t] + b) == ItemsOf(a) + Items(t) + ItemsOf(b)
  {
    ItemsOfAppend(a + [t], b);
    ItemsOfAppend(a, [t]);
    ItemsOfOne(t);
  }

  /** The items to the left of child `i`, those of the child, and those to its right. */
  lemma {:induction false} ItemsAround(kids: seq<Tree>, i: nat)
    requires i < |kids|
    ensures ItemsOf(kids) == ItemsOf(kids[..i]) + Items(kids[i]) + ItemsOf(kids[i + 1..])
  {
    ItemsOfThree(kids[..i], kids[i], kids[i + 1..]);
    assert kids == kids[..i] + [kids[i]] + kids[i + 1..];
  }

  lemma {:induction false} ShapeNonempty(t: Tree)
    requires Shaped(t) && (t.Leaf? ==> t.items != [])
    ensures Items(t) != []
    decreases t
  {
    if t.Inner? {
      ItemsAround(t.kids, 0);
      ShapeNonempty(t.kids[0]);
    }
  }

  /** The last key of a prefix of the children is the separator after it. */
  lemma {:induction false} LastKeyOfPrefix(t: Tree, i: nat)
    requires t.Inner? && Linked(t) && i < |t.keys|
    ensures ItemsOf(t.kids[..i + 1]) != []
    ensures LastKey(ItemsOf(t.kids[..i + 1])) == t.keys[i]
  {
    ShapeNonempty(t.kids[i]);
    assert t.kids[..i + 1] == t.kids[..i] + [t.kids[i]];
    ItemsOfAppend(t.kids[..i], [t.kids[i]]);
    ItemsOfOne(t.kids[i]);
  }

  lemma {:induction false} LastKeyOfInner(t: Tree)
    requires t.Inner? && Linked(t)
    ensures Items(t.kids[|t.keys|]) != []
    ensures LastKey(Items(t)) == LastKey(Items(t.kids[|t.keys|]))
  {
    ShapeNonempty(t.kids[|t.keys|]);
    ItemsAround(t.kids, |t.keys|);
  }

  lemma {:induction false} SortedParts(a: seq<Item>, m: seq<Item>, b: seq<Item>)
    requires Sorted(a + m + b)
    ensures Sorted(a) && Sorted(m) && Sorted(b)
    ensures a != [] ==> AllAbove(m, LastKey(a)) && AllAbove(b, LastKey(a))
    ensures m != [] ==> AllAbove(b, LastKey(m))
  {
    var s := a + m + b;
    assert forall i | 0 <= i < |a| :: a[i] == s[i];
    assert forall i | 0 <= i < |m| :: m[i] == s[|a| + i];
    assert forall i | 0 <= i < |b| :: b[i] == s[|a| + |m| + i];
  }

  lemma {:induction false} SortedBelow(s: seq<Item>, k: Key)
    requires Sorted(s) && (s == [] || LastKey(s) < k)
    ensures AllBelow(s, k)
  {
  }

  /** A search for `k` that follows the separators enters the one child that can
      hold `k`: everything to the left is smaller, everything to the right larger. */
  lemma {:induction false} Descend(t: Tree, k: Key)
    requires t.Inner? && Linked(t) && Sorted(Items(t))
    ensures var slot := LowerSlot(t.keys, k);
            && slot < |t.kids|
            && Items(t) == ItemsOf(t.kids[..slot]) + Items(t.kids[slot]) + ItemsOf(t.kids[slot + 1..])
            && AllBelow(ItemsOf(t.kids[..slot]), k)
            && AllAbove(ItemsOf(t.kids[slot + 1..]), k)
            && Sorted(Items(t.kids[slot]))
            && Items(t.kids[slot]) != []
            && (slot < |t.keys| ==> k <= LastKey(Items(t.kids[slot])))
  {
    hide LowerSlot, Sorted;
    var slot := LowerSlot(t.keys, k);
    var a, m, b := ItemsOf(t.kids[..slot]), Items(t.kids[slot]), ItemsOf(t.kids[slot + 1..]);
    ItemsAround(t.kids, slot);
    SortedParts(a, m, b);
    ShapeNonempty(t.kids[slot]);
    if slot > 0 {
      LastKeyOfPrefix(t, slot - 1);
    }
    SortedBelow(a, k);
    if slot == |t.keys| {
      assert t.kids[slot + 1..] == [];
    }
  }

  /** An inner node cut in two, the key between the parts taken out. */
  ghost function LeftPart(t: Tree, p: nat): Tree
    requires t.Inner? && |t.kids| == |t.keys| + 1 && p < |t.keys|
  {
    Inner(t.level, t.keys[..p], t.kids[..p + 1])
  }

  ghost function RightPart(t: Tree, p: nat): Tree
    requires t.Inner? && |t.kids| == |t.keys| + 1 && p < |t.keys|
  {
    Inner(t.level, t.keys[p + 1..], t.kids[p + 1..])
  }

  lemma {:induction false} CutInner(t: Tree, p: nat)
    requires t.Inner? && Linked(t) && p < |t.keys|
    ensures Linked(LeftPart(t, p)) && Linked(RightPart(t, p))
    ensures Items(LeftPart(t, p)) + Items(RightPart(t, p)) == Items(t)
    ensures t.keys[p] == LastKey(Items(LeftPart(t, p)))
  {
    LastKeyOfPrefix(t, p);
    ItemsOfAppend(t.kids[..p + 1], t.kids[p + 1..]);
    assert t.kids == t.kids[..p + 1] + t.kids[p + 1..];
  }

  /** Two neighbouring inner nodes joined, with the separator between them. */
  ghost function Join(l: Tree, sep: Key, r: Tree): Tree
    requires l.Inner? && r.Inner?
  {
    Inner(l.level, l.keys + [sep] + r.keys, l.kids + r.kids)
  }

  lemma {:induction false} JoinInner(l: Tree, sep: Key, r: Tree)
    requires l.Inner? && r.Inner? && Linked(l) && Linked(r) && l.level == r.level
    requires sep == LastKey(Items(l))
    ensures Linked(Join(l, sep, r))
    ensures Items(Join(l, sep, r)) == Items(l) + Items(r)
  {
    ItemsOfAppend(l.kids, r.kids);
    LastKeyOfInner(l);
  }

  /** Both updates of a tree's content are updates of the one child the search enters. */
  lemma {:induction false} PutInChild(t: Tree, slot: nat, k: Key, v: Data)
    requires t.Inner? && Linked(t) && Sorted(Items(t)) && slot == LowerSlot(t.keys, k)
    ensures slot < |t.kids| && (Found(Items(t), k) <==> Found(Items(t.kids[slot]), k))
    ensures Put(Items(t), k, v) == ItemsOf(t.kids[..slot]) + Put(Items(t.kids[slot]), k, v) + ItemsOf(t.kids[slot + 1..])
  {
    Descend(t, k);
    LowerSlotInMiddle(ItemsOf(t.kids[..slot]), Items(t.kids[slot]), ItemsOf(t.kids[slot + 1..]), k);
    PutInMiddle(ItemsOf(t.kids[..slot]), Items(t.kids[slot]), ItemsOf(t.kids[slot + 1..]), k, v);
  }

  lemma {:induction false} RemoveInChild(t: Tree, slot: nat, k: Key)
    requires t.Inner? && Linked(t) && Sorted(Items(t)) && slot == LowerSlot(t.keys, k)
    ensures slot < |t.kids| && (Found(Items(t), k) <==> Found(Items(t.kids[slot]), k))
    ensures Remove(Items(t), k) == ItemsOf(t.kids[..slot]) + Remove(Items(t.kids[slot]), k) + ItemsOf(t.kids[slot + 1..])
  {
    Descend(t, k);
    LowerSlotInMiddle(ItemsOf(t.kids[..slot]), Items(t.kids[slot]), ItemsOf(t.kids[slot + 1..]), k);
    RemoveInMiddle(ItemsOf(t.kids[..slot]), Items(t.kids[slot]), ItemsOf(t.kids[slot + 1..]), k);
  }

  lemma {:induction false} SeparatorsSorted(t: Tree)
    requires t.Inner? && Linked(t) && Sorted(Items(t))
    ensures SortedKeys(t.keys)
  {
    forall i, j | 0 <= i < j < |t.keys| ensures t.keys[i] < t.keys[j] {
      SeparatorBelow(t, i, j);
    }
  }

  lemma {:induction false} SeparatorBelow(t: Tree, i: nat, j: nat)
    requires t.Inner? && Linked(t) && Sorted(Items(t)) && i < j < |t.keys|
    ensures t.keys[i] < t.keys[j]
  {
    ItemsAround(t.kids, j);
    LastKeyOfPrefix(t, i);
    ShapeNonempty(t.kids[j]);
    var a, m := ItemsOf(t.kids[..j]), Items(t.kids[j]);
    SortedParts(a, m, ItemsOf(t.kids[j + 1..]));
    PrefixItems(t.kids, i + 1, j);
    assert a[|ItemsOf(t.kids[..i + 1])| - 1].key == t.keys[i];
    assert AllAbove(m, LastKey(a));
  }

  lemma {:induction false} PrefixItems(kids: seq<Tree>, i: nat, j: nat)
    requires i <= j <= |kids|
    ensures ItemsOf(kids[..i]) <= ItemsOf(kids[..j])
  {
    assert kids[..j] == kids[..i] + kids[i..j];
    ItemsOfAppend(kids[..i], kids[i..j]);
  }
}
