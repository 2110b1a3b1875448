/** Insertion into the B+ tree: descend, insert in a leaf, and hand node splits
    back up to the root. */
module BTreeInsert {
  import opened Sequences
  import opened OrderedItems
  import opened Wrappers
  import opened BTreeModel

  datatype Split = Split(key: Key, right: Tree)

  /** What a call returns to the level above: the node, the new right sibling if
      the node was split, and whether the item went in. */
  datatype Result = Result(tree: Tree, split: Option<Split>, inserted: bool)

  /** A full leaf split in two, with `x` then put where the search had found its slot. */
  function SplitLeaf(items: seq<Item>, slot: nat, x: Item): Result
    requires |items| == leafslotmax && slot <= |items|
  {
    var mid := |items| / 2;
    if slot >= mid then
      Result(Leaf(items[..mid]), Some(Split(items[mid - 1].key, Leaf(InsertAt(items[mid..], slot - mid, x)))), true)
    else
      Result(Leaf(InsertAt(items[..mid], slot, x)), Some(Split(items[mid - 1].key, Leaf(items[mid..]))), true)
  }

  function InsertLeaf(items: seq<Item>, k: Key, v: Data): Result {
    var slot := LowerSlot(Keys(items), k);
    if slot < |items| && items[slot].key == k then
      Result(Leaf(items), None, false)
    else if |items| == leafslotmax then
      SplitLeaf(items, slot, Item(k, v))
    else
      Result(Leaf(InsertAt(items, slot, Item(k, v))), None, true)
  }

  /** The split point of a full inner node. It leans left when the new key goes
      to the left part and the parts would be uneven. */
  function SplitPoint(slotuse: nat, addslot: nat): (mid: nat)
    requires slotuse >= 8
    ensures slotuse / 2 - 1 <= mid <= slotuse / 2
    ensures 0 < mid < slotuse
  {
    var mid := slotuse / 2;
    if addslot <= mid && mid > slotuse - (mid + 1) then mid - 1 else mid
  }

  /** Put `right` after child `slot`, with `key` between the two. */
  function AddChild(t: Tree, slot: nat, key: Key, right: Tree): Tree
    requires t.Inner? && |t.kids| == |t.keys| + 1 && slot <= |t.keys|
  {
    Inner(t.level, InsertAt(t.keys, slot, key), InsertAt(t.kids, slot + 1, right))
  }

  /** An inner node whose child `slot` was split into itself and `right`. */
  function InsertChild(t: Tree, slot: nat, key: Key, right: Tree): Result
    requires t.Inner? && |t.kids| == |t.keys| + 1 && slot <= |t.keys|
  {
    if |t.keys| < innerslotmax then
      Result(AddChild(t, slot, key, right), None, true)
    else
      var mid := SplitPoint(|t.keys|, slot);
      var l := Inner(t.level, t.keys[..mid], t.kids[..mid + 1]);
      var r := Inner(t.level, t.keys[mid + 1..], t.kids[mid + 1..]);
      var upkey := t.keys[mid];
      if slot == mid + 1 && |l.keys| < |r.keys| then
        // The new key becomes the split key.
        Result(Inner(t.level, l.keys + [upkey], l.kids + [r.kids[0]]),
               Some(Split(key, Inner(t.level, r.keys, r.kids[0 := right]))), true)
      else if slot >= mid + 1 then
        Result(l, Some(Split(upkey, AddChild(r, slot - (mid + 1), key, right))), true)
      else
        Result(AddChild(l, slot, key, right), Some(Split(upkey, r)), true)
  }

  function InsertDescend(t: Tree, k: Key, v: Data): Result
    requires Shaped(t)
    decreases t
  {
    match t
    case Leaf(items) => InsertLeaf(items, k, v)
    case Inner(level, keys, kids) =>
      var slot := LowerSlot(keys, k);
      InsertReturn(t, slot, InsertDescend(kids[slot], k, v))
  }

  /** The work left in an inner node once the call on child `slot` has returned. */
  function InsertReturn(t: Tree, slot: nat, r: Result): Result
    requires t.Inner? && |t.kids| == |t.keys| + 1 && slot <= |t.keys|
  {
    var t' := Inner(t.level, t.keys, t.kids[slot := r.tree]);
    if r.split.None? then
      Result(t', None, r.inserted)
    else
      InsertChild(t', slot, r.split.value.key, r.split.value.right).(inserted := r.inserted)
  }

  /** `insert_start`: an empty tree gets a leaf, a split root gets a new root above it. */
  function Insert(root: Option<Tree>, k: Key, v: Data): (Tree, bool)
    requires root.Some? ==> Shaped(root.value)
  {
    var r := InsertDescend(RootOrLeaf(root), k, v);
    (NewRoot(r), r.inserted)
  }

  function RootOrLeaf(root: Option<Tree>): Tree {
    if root.None? then Leaf([]) else root.value
  }

  /** The items a result stands for. */
  function ResultItems(r: Result): seq<Item> {
    Items(r.tree) + if r.split.None? then [] else Items(r.split.value.right)
  }

  /** What the level above may rely on: an unsplit node keeps its fill, the parts
      of a split node are both at least half full, and the split key is the
      largest key on the left. */
  ghost predicate ResultOk(t: Tree, least: nat, r: Result) {
    && Level(r.tree) == Level(t)
    && r.tree.Leaf? == t.Leaf?
    && (r.split.None? ==> Shape(r.tree, least))
    && (r.split.Some? ==>
          && Shape(r.tree, MinFill(t))
          && Shape(r.split.value.right, MinFill(t))
          && Level(r.split.value.right) == Level(t)
          && r.split.value.right.Leaf? == t.Leaf?
          && r.split.value.key == LastKey(Items(r.tree)))
  }

  lemma {:induction false} SplitLeafOk(items: seq<Item>, slot: nat, x: Item)
    requires |items| == leafslotmax && slot <= |items|
    ensures var r := SplitLeaf(items, slot, x);
            && ResultOk(Leaf(items), 0, r)
            && ResultItems(r) == InsertAt(items, slot, x)
  {
    var mid := |items| / 2;
    CutInsert(items, mid, slot, x);
    if slot < mid {
      assert LastKey(InsertAt(items[..mid], slot, x)) == items[mid - 1].key;
    }
  }

  lemma {:induction false} InsertLeafOk(items: seq<Item>, k: Key, v: Data, least: nat)
    requires Shape(Leaf(items), least)
    ensures var r := InsertLeaf(items, k, v);
            && ResultOk(Leaf(items), least, r)
            && ResultItems(r) == Put(items, k, v)
            && r.inserted == !Found(items, k)
  {
    if !Found(items, k) {
      if |items| == leafslotmax {
        SplitLeafOk(items, LowerSlot(Keys(items), k), Item(k, v));
      } else {
        assert ResultItems(InsertLeaf(items, k, v)) == InsertAt(items, LowerSlot(Keys(items), k), Item(k, v));
      }
    }
  }

  /** Inserting before or after a cut, according to where the slot lies. */
  lemma {:induction false} CutInsert<T>(s: seq<T>, mid: nat, slot: nat, x: T)
    requires mid <= |s| && slot <= |s|
    ensures slot >= mid ==> s[..mid] + InsertAt(s[mid..], slot - mid, x) == InsertAt(s, slot, x)
    ensures slot <= mid ==> InsertAt(s[..mid], slot, x) + s[mid..] == InsertAt(s, slot, x)
  {
  }

  /** How many separators stay in the left part of a full node after all. */
  function CutPoint(slotuse: nat, slot: nat): (p: nat)
    requires slotuse >= 8
    ensures slotuse / 2 <= p <= slotuse - slotuse / 2
  {
    var mid := SplitPoint(slotuse, slot);
    if slot <= mid || (slot == mid + 1 && mid < slotuse - (mid + 1)) then mid + 1 else mid
  }

  /** However the code splits a full inner node and places the new child, the
      outcome is the overfull node cut in two. */
  lemma {:induction false} InsertChildIsCut(t: Tree, slot: nat, key: Key, right: Tree)
    requires t.Inner? && |t.kids| == |t.keys| + 1 && slot <= |t.keys| == innerslotmax
    ensures var r := InsertChild(t, slot, key, right);
            && r.split.Some? && r.tree.Inner? && r.inserted
            && SlotUse(r.tree) == CutPoint(innerslotmax, slot)
            && IsCut(AddChild(t, slot, key, right), SlotUse(r.tree), r)
  {
    var mid := SplitPoint(|t.keys|, slot);
    if slot <= mid {
      ChildGoesLeft(t, slot, key, right, mid);
    } else if slot == mid + 1 && mid < |t.keys| - (mid + 1) {
      ChildIsBetween(t, slot, key, right, mid);
    } else {
      ChildGoesRight(t, slot, key, right, mid);
    }
  }

  lemma {:induction false} ChildGoesLeft(t: Tree, slot: nat, key: Key, right: Tree, mid: nat)
    requires t.Inner? && |t.kids| == |t.keys| + 1 && slot <= |t.keys| == innerslotmax && mid == SplitPoint(|t.keys|, slot)
    requires slot <= mid
    ensures var r := InsertChild(t, slot, key, right);
            && r.split.Some? && r.tree.Inner? && r.inserted
            && SlotUse(r.tree) == CutPoint(innerslotmax, slot)
            && IsCut(AddChild(t, slot, key, right), SlotUse(r.tree), r)
  {
    CutLeft(t, slot, key, right, mid);
  }

  lemma {:induction false} ChildIsBetween(t: Tree, slot: nat, key: Key, right: Tree, mid: nat)
    requires t.Inner? && |t.kids| == |t.keys| + 1 && slot <= |t.keys| == innerslotmax && mid == SplitPoint(|t.keys|, slot)
    requires slot == mid + 1 && mid < |t.keys| - (mid + 1)
    ensures var r := InsertChild(t, slot, key, right);
            && r.split.Some? && r.tree.Inner? && r.inserted
            && SlotUse(r.tree) == CutPoint(innerslotmax, slot)
            && IsCut(AddChild(t, slot, key, right), SlotUse(r.tree), r)
  {
    CutMiddle(t, slot, key, right, mid);
  }

  lemma {:induction false} ChildGoesRight(t: Tree, slot: nat, key: Key, right: Tree, mid: nat)
    requires t.Inner? && |t.kids| == |t.keys| + 1 && slot <= |t.keys| == innerslotmax && mid == SplitPoint(|t.keys|, slot)
    requires slot > mid && !(slot == mid + 1 && mid < |t.keys| - (mid + 1))
    ensures var r := InsertChild(t, slot, key, right);
            && r.split.Some? && r.tree.Inner? && r.inserted
            && SlotUse(r.tree) == CutPoint(innerslotmax, slot)
            && IsCut(AddChild(t, slot, key, right), SlotUse(r.tree), r)
  {
    CutRight(t, slot, key, right, mid);
  }

  lemma {:induction false} CutLeft(t: Tree, slot: nat, key: Key, right: Tree, mid: nat)
    requires t.Inner? && |t.kids| == |t.keys| + 1 && slot <= mid < |t.keys|
    ensures var big := AddChild(t, slot, key, right);
            && LeftPart(big, mid + 1) == AddChild(LeftPart(t, mid), slot, key, right)
            && big.keys[mid + 1] == t.keys[mid]
            && RightPart(big, mid + 1) == RightPart(t, mid)
  {
    InsertThenCutAfter(t.keys, slot, key, mid);
    InsertThenCutAfter(t.keys, slot, key, mid + 1);
    InsertThenCutAfter(t.kids, slot + 1, right, mid + 1);
  }

  lemma {:induction false} CutMiddle(t: Tree, slot: nat, key: Key, right: Tree, mid: nat)
    requires t.Inner? && |t.kids| == |t.keys| + 1 && slot == mid + 1 < |t.keys|
    ensures var big := AddChild(t, slot, key, right);
            && LeftPart(big, mid + 1) == Inner(t.level, t.keys[..mid] + [t.keys[mid]], t.kids[..mid + 1] + [t.kids[mid + 1]])
            && big.keys[mid + 1] == key
            && RightPart(big, mid + 1) == Inner(t.level, t.keys[mid + 1..], t.kids[mid + 1..][0 := right])
  {
    InsertThenCutAfter(t.keys, slot, key, mid + 1);
    InsertThenCutBefore(t.keys, slot, key, mid + 1);
    InsertThenCutBefore(t.kids, slot + 1, right, mid + 2);
  }

  lemma {:induction false} CutRight(t: Tree, slot: nat, key: Key, right: Tree, mid: nat)
    requires t.Inner? && |t.kids| == |t.keys| + 1 && mid < slot <= |t.keys|
    ensures var big := AddChild(t, slot, key, right);
            && LeftPart(big, mid) == LeftPart(t, mid)
            && big.keys[mid] == t.keys[mid]
            && RightPart(big, mid) == AddChild(RightPart(t, mid), slot - (mid + 1), key, right)
  {
    InsertThenCutBefore(t.keys, slot, key, mid);
    InsertThenCutBefore(t.keys, slot, key, mid + 1);
    InsertThenCutBefore(t.kids, slot + 1, right, mid + 1);
  }

  lemma {:induction false} InsertThenCutBefore<T>(s: seq<T>, i: nat, x: T, m: nat)
    requires m <= i <= |s|
    ensures InsertAt(s, i, x)[..m] == s[..m]
    ensures InsertAt(s, i, x)[m..] == InsertAt(s[m..], i - m, x)
    ensures m < i ==> InsertAt(s, i, x)[m] == s[m]
  {
  }

  lemma {:induction false} InsertThenCutAfter<T>(s: seq<T>, i: nat, x: T, m: nat)
    requires i <= m <= |s|
    ensures InsertAt(s, i, x)[..m + 1] == InsertAt(s[..m], i, x)
    ensures InsertAt(s, i, x)[m + 1..] == s[m..]
    ensures InsertAt(s, i, x)[i] == x
    ensures i < m ==> InsertAt(s, i, x)[m] == s[m - 1]
  {
  }

  ghost predicate IsCut(big: Tree, p: nat, r: Result)
    requires big.Inner? && |big.kids| == |big.keys| + 1 && p < |big.keys|
  {
    r.tree == LeftPart(big, p) && r.split == Some(Split(big.keys[p], RightPart(big, p)))
  }

  /** Replacing child `slot` by its two halves keeps the node linked. */
  lemma {:induction false} AddChildLinked(t: Tree, slot: nat, left: Tree, key: Key, right: Tree)
    requires t.Inner? && Linked(t) && slot <= |t.keys|
    requires Level(left) + 1 == t.level == Level(right) + 1
    requires Shape(left, MinFill(left)) && Shape(right, MinFill(right))
    requires key == LastKey(Items(left))
    requires slot < |t.keys| ==> t.keys[slot] == LastKey(Items(right))
    ensures var t' := AddChild(Inner(t.level, t.keys, t.kids[slot := left]), slot, key, right);
            && Linked(t')
            && Items(t') == ItemsOf(t.kids[..slot]) + (Items(left) + Items(right)) + ItemsOf(t.kids[slot + 1..])
  {
    hide ItemsOf;
    var t' := AddChild(Inner(t.level, t.keys, t.kids[slot := left]), slot, key, right);
    forall i | 0 <= i < |t'.kids|
      ensures Level(t'.kids[i]) + 1 == t.level && MinFill(t'.kids[i]) <= SlotUse(t'.kids[i]) <= MaxFill(t'.kids[i]) && Linked(t'.kids[i])
    {
      AddedAt(t, slot, left, key, right, i);
    }
    forall i | 0 <= i < |t'.keys| ensures t'.keys[i] == LastKey(Items(t'.kids[i])) {
      AddedAt(t, slot, left, key, right, i);
    }
    assert t'.kids == t.kids[..slot] + [left, right] + t.kids[slot + 1..];
    ItemsOfTwo(t.kids[..slot], left, right, t.kids[slot + 1..]);
  }

  lemma {:induction false} AddedAt(t: Tree, slot: nat, left: Tree, key: Key, right: Tree, i: nat)
    requires t.Inner? && |t.kids| == |t.keys| + 1 && slot <= |t.keys| && i <= |t.kids|
    ensures var t' := AddChild(Inner(t.level, t.keys, t.kids[slot := left]), slot, key, right);
            && t'.Inner? && t'.level == t.level && |t'.kids| == |t.kids| + 1 == |t'.keys| + 1
            && t'.kids[i] == (if i < slot then t.kids[i] else if i == slot then left else if i == slot + 1 then right else t.kids[i - 1])
            && (i <= |t.keys| ==> t'.keys[i] == if i < slot then t.keys[i] else if i == slot then key else t.keys[i - 1])
  {
  }

  lemma {:induction false} ItemsOfTwo(a: seq<Tree>, l: Tree, r: Tree, b: seq<Tree>)
    ensures ItemsOf(a + [l, r] + b) == ItemsOf(a) + (Items(l) + Items(r)) + ItemsOf(b)
  {
    ItemsOfAppend(a + [l, r], b);
    ItemsOfAppend(a, [l, r]);
    ItemsOfAppend([l], [r]);
    assert [l] + [r] == [l, r];
    ItemsOfOne(l);
    ItemsOfOne(r);
  }

  lemma {:induction false} ReplaceChildLinked(t: Tree, slot: nat, c: Tree)
    requires t.Inner? && Linked(t) && slot <= |t.keys|
    requires Level(c) + 1 == t.level && Shape(c, MinFill(c))
    requires slot < |t.keys| ==> t.keys[slot] == LastKey(Items(c))
    ensures var t' := Inner(t.level, t.keys, t.kids[slot := c]);
            && Linked(t')
            && Items(t') == ItemsOf(t.kids[..slot]) + Items(c) + ItemsOf(t.kids[slot + 1..])
  {
    assert t.kids[slot := c] == t.kids[..slot] + [c] + t.kids[slot + 1..];
    ItemsOfThree(t.kids[..slot], c, t.kids[slot + 1..]);
  }

  lemma {:induction false} PutKeepsLast(s: seq<Item>, k: Key, v: Data)
    requires Sorted(s) && s != [] && k <= LastKey(s)
    ensures LastKey(Put(s, k, v)) == LastKey(s)
  {
    hide InsertAt, LowerSlot, Sorted;
    FoundAtLowerSlot(s, k);
    if !Found(s, k) {
      var i := LowerSlot(Keys(s), k);
      assert i < |s|;
      LastStays(s, i, Item(k, v));
    }
  }

  lemma {:induction false} LastStays(s: seq<Item>, i: nat, x: Item)
    requires i < |s|
    ensures LastKey(InsertAt(s, i, x)) == LastKey(s)
  {
  }

  /** What the recursion hands up is a pair of well-shaped nodes that together
      hold exactly the old items and the new one. */
  lemma {:induction false} InsertDescendOk(t: Tree, k: Key, v: Data, least: nat)
    requires Shape(t, least) && Sorted(Items(t))
    ensures var r := InsertDescend(t, k, v);
            && ResultOk(t, least, r)
            && ResultItems(r) == Put(Items(t), k, v)
            && r.inserted == !Found(Items(t), k)
    decreases t
  {
    if t.Leaf? {
      InsertLeafOk(t.items, k, v, least);
    } else {
      var slot := LowerSlot(t.keys, k);
      Descend(t, k);
      var c := t.kids[slot];
      InsertDescendOk(c, k, v, MinFill(c));
      var r := InsertDescend(c, k, v);
      PutInChild(t, slot, k, v);
      if slot < |t.keys| {
        PutKeepsLast(Items(c), k, v);
      }
      InsertReturnOk(t, slot, r, least);
    }
  }

  lemma {:induction false} InsertReturnOk(t: Tree, slot: nat, r: Result, least: nat)
    requires t.Inner? && Shape(t, least) && slot <= |t.keys|
    requires ResultOk(t.kids[slot], MinFill(t.kids[slot]), r)
    requires slot < |t.keys| ==> t.keys[slot] == LastKey(ResultItems(r))
    ensures var u := InsertReturn(t, slot, r);
            && ResultOk(t, least, u)
            && ResultItems(u) == ItemsOf(t.kids[..slot]) + ResultItems(r) + ItemsOf(t.kids[slot + 1..])
            && u.inserted == r.inserted
  {
    hide InsertChild, AddChild;
    if r.split.None? {
      ReplaceChildLinked(t, slot, r.tree);
    } else {
      SplitReturnOk(t, slot, r, least);
    }
  }

  lemma {:induction false} SplitReturnOk(t: Tree, slot: nat, r: Result, least: nat)
    requires t.Inner? && Shape(t, least) && slot <= |t.keys| && r.split.Some?
    requires ResultOk(t.kids[slot], MinFill(t.kids[slot]), r)
    requires slot < |t.keys| ==> t.keys[slot] == LastKey(ResultItems(r))
    ensures var u := InsertReturn(t, slot, r);
            && ResultOk(t, least, u)
            && ResultItems(u) == ItemsOf(t.kids[..slot]) + ResultItems(r) + ItemsOf(t.kids[slot + 1..])
            && u.inserted == r.inserted
  {
    hide InsertChild;
    var key, right := r.split.value.key, r.split.value.right;
    ShapeNonempty(right);
    AddChildLinked(t, slot, r.tree, key, right);
    InsertChildOk(Inner(t.level, t.keys, t.kids[slot := r.tree]), slot, key, right, least);
  }

  lemma {:induction false} InsertChildOk(t: Tree, slot: nat, key: Key, right: Tree, least: nat)
    requires t.Inner? && t.level >= 1 && |t.kids| == |t.keys| + 1 && slot <= |t.keys|
    requires least <= |t.keys| <= innerslotmax
    requires Linked(AddChild(t, slot, key, right))
    ensures var u := InsertChild(t, slot, key, right);
            && ResultOk(t, least, u)
            && ResultItems(u) == Items(AddChild(t, slot, key, right))
            && u.inserted
  {
    if |t.keys| == innerslotmax {
      InsertChildIsCut(t, slot, key, right);
      CutInner(AddChild(t, slot, key, right), SlotUse(InsertChild(t, slot, key, right).tree));
    }
  }

  /** `insert_start` grows the tree by a level when the root was split. */
  function NewRoot(r: Result): Tree {
    if r.split.None? then r.tree
    else Inner(Level(r.tree) + 1, [r.split.value.key], [r.tree, r.split.value.right])
  }

  lemma {:induction false} NewRootOk(r: Result, t: Tree, least: nat)
    requires ResultOk(t, least, r)
    requires least >= 1 || (t.Leaf? && ResultItems(r) != [])
    ensures Shape(NewRoot(r), 1) && Items(NewRoot(r)) == ResultItems(r)
  {
    if r.split.Some? {
      ItemsOfTwo([], r.tree, r.split.value.right, []);
      assert [] + [r.tree, r.split.value.right] + [] == [r.tree, r.split.value.right];
    }
  }

  /** The main result on insertion, for every valid tree and for the empty one. */
  lemma {:induction false} InsertCorrect(root: Option<Tree>, k: Key, v: Data)
    requires root.Some? ==> Valid(root.value)
    ensures var (t, inserted) := Insert(root, k, v);
            && Valid(t)
            && Items(t) == Put(RootItems(root), k, v)
            && (inserted <==> !HasKey(RootItems(root), k))
  {
    var t := RootOrLeaf(root);
    InsertDescendOk(t, k, v, SlotUse(t));
    PutSorted(Items(t), k, v);
    FoundAtLowerSlot(Items(t), k);
    NewRootOk(InsertDescend(t, k, v), t, SlotUse(t));
  }
}
