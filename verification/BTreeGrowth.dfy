/** What an insertion does to the shape of a B+ tree, told by the numbers of slots in use: which
    nodes are split, into what, and how far up that goes. */
module BTreeGrowth {
  import opened Sequences
  import opened OrderedItems
  import opened Wrappers
  import opened BTreeModel
  import opened BTreeInsert
  import opened BTreeShape

  // ---- The rule, on numbers ----

  ghost function Most(level: nat): nat {
    if level == 0 then leafslotmax else innerslotmax
  }

  /** A node that has `c` slots in use and gets one more at place `s`: a full one is split in two
      equal parts, as far as the number is even. The odd one of a leaf goes where the new pair
      belongs; the odd one of an inner node goes left if the new child belongs there. */
  ghost function Grown(level: nat, c: nat, s: nat): seq<nat> {
    var most := Most(level);
    if c < most then [c + 1]
    else if level == 0 then
      var l := most / 2 + if s < most / 2 then 1 else 0;
      [l, most + 1 - l]
    else
      var l := most / 2 + if most % 2 == 1 && s <= most / 2 then 1 else 0;
      [l, most - l]
  }

  /** The place that the key takes in the node on its way. */
  ghost function SlotOn(n: Tree, k: Key): nat
    requires Linked(n)
  {
    if n.Leaf? then LowerSlot(Keys(n.items), k) else Place(n, k)
  }

  /** The node at level `h` on the way gets one more slot: a leaf the pair, any other a child. */
  ghost predicate Grows(t: Tree, k: Key, h: nat)
    requires Linked(t) && h <= Level(t)
    decreases h, 0
  {
    h == 0 || |FamilyAfter(t, k, h - 1)| > |Family(t, k, h - 1)|
  }

  /** What becomes of the family at level `h`. */
  ghost function FamilyAfter(t: Tree, k: Key, h: nat): seq<nat>
    requires Linked(t) && h < Level(t)
    decreases h, 1
  {
    var u, i := Family(t, k, h), Member(t, k, h);
    if Grows(t, k, h) then u[..i] + Grown(h, u[i], SlotOn(PathNode(t, k, h), k)) + u[i + 1..] else u
  }

  ghost function RowAfter(t: Tree, k: Key, h: nat): seq<nat>
    requires Linked(t) && h < Level(t)
  {
    RowLeft(t, k, h) + FamilyAfter(t, k, h) + RowRight(t, k, h)
  }

  // ---- The insertion follows it ----

  ghost function Parts(r: Result): seq<Tree> {
    [r.tree] + if r.split.Some? then [r.split.value.right] else []
  }

  /** What is shown of a call on a node. */
  ghost predicate FollowsGrowth(t: Tree, k: Key, r: Result) {
    && Linked(t) && Level(r.tree) == Level(t) && (r.split.Some? ==> Level(r.split.value.right) == Level(t))
    && Counts(Parts(r)) == (if Grows(t, k, Level(t)) then Grown(Level(t), SlotUse(t), SlotOn(t, k)) else [SlotUse(t)])
    && forall h: nat | h < Level(t) :: RowOf(Parts(r), h) == RowAfter(t, k, h)
  }

  lemma {:induction false} CutPointIs(slotuse: nat, slot: nat)
    requires slotuse >= 8 && slot <= slotuse
    ensures CutPoint(slotuse, slot) == slotuse / 2 + if slotuse % 2 == 1 && slot <= slotuse / 2 then 1 else 0
  {
  }

  lemma {:induction false} LeafGrows(items: seq<Item>, k: Key, v: Data)
    requires |items| <= leafslotmax && !Found(items, k)
    ensures FollowsGrowth(Leaf(items), k, InsertLeaf(items, k, v))
  {
    hide Counts, LowerSlot;
    var r := InsertLeaf(items, k, v);
    PartsCounts(r);
  }

  lemma {:induction false} PartsCounts(r: Result)
    ensures Counts(Parts(r)) == [SlotUse(r.tree)] + if r.split.Some? then [SlotUse(r.split.value.right)] else []
  {
  }

  /** The outcome `u` of a node whose child `slot` has come back as `r`. */
  ghost predicate Returned(t: Tree, slot: nat, r: Result, u: Result)
    requires t.Inner? && |t.kids| == |t.keys| + 1 && slot <= |t.keys|
  {
    && u.tree.Inner? && u.tree.level == t.level && (u.split.Some? ==> u.split.value.right.Inner? && u.split.value.right.level == t.level)
    && AllKids(u) == t.kids[..slot] + Parts(r) + t.kids[slot + 1..]
    && Counts(Parts(u)) == if r.split.Some? then GrownInner(|t.keys|, slot) else [|t.keys|]
  }

  ghost function AllKids(u: Result): seq<Tree>
    requires u.tree.Inner? && (u.split.Some? ==> u.split.value.right.Inner?)
  {
    u.tree.kids + if u.split.Some? then u.split.value.right.kids else []
  }

  lemma {:induction false} InnerGrows(t: Tree, slot: nat, r: Result)
    requires t.Inner? && |t.kids| == |t.keys| + 1 && slot <= |t.keys| <= innerslotmax
    ensures Returned(t, slot, r, InsertReturn(t, slot, r))
  {
    hide Returned, InsertReturn;
    if r.split.None? {
      NoSplit(t, slot, r);
    } else if |t.keys| < innerslotmax {
      RoomForChild(t, slot, r);
    } else {
      FullSplits(t, slot, r);
    }
  }

  lemma {:induction false} NoSplit(t: Tree, slot: nat, r: Result)
    requires t.Inner? && |t.kids| == |t.keys| + 1 && slot <= |t.keys| && r.split.None?
    ensures Returned(t, slot, r, InsertReturn(t, slot, r))
  {
    hide Counts;
    PartsCounts(InsertReturn(t, slot, r));
    KidReplaced(t.kids, slot, r);
  }

  lemma {:induction false} RoomForChild(t: Tree, slot: nat, r: Result)
    requires t.Inner? && |t.kids| == |t.keys| + 1 && slot <= |t.keys| < innerslotmax && r.split.Some?
    ensures Returned(t, slot, r, InsertReturn(t, slot, r))
  {
    hide Counts;
    PartsCounts(InsertReturn(t, slot, r));
    KidReplaced(t.kids, slot, r);
  }

  lemma {:induction false} FullSplits(t: Tree, slot: nat, r: Result)
    requires t.Inner? && |t.kids| == |t.keys| + 1 && slot <= |t.keys| == innerslotmax && r.split.Some?
    ensures Returned(t, slot, r, InsertReturn(t, slot, r))
  {
    hide Counts, CutPoint, InsertChild, Parts;
    var t' := Inner(t.level, t.keys, t.kids[slot := r.tree]);
    var key, right := r.split.value.key, r.split.value.right;
    InsertChildIsCut(t', slot, key, right);
    CutPointIs(innerslotmax, slot);
    CutKids(AddChild(t', slot, key, right), CutPoint(innerslotmax, slot));
    PartsCounts(InsertReturn(t, slot, r));
    KidReplaced(t.kids, slot, r);
  }

  ghost function GrownInner(c: nat, s: nat): seq<nat> {
    Grown(1, c, s)
  }

  lemma {:induction false} CutKids(big: Tree, p: nat)
    requires big.Inner? && |big.kids| == |big.keys| + 1 && p < |big.keys|
    ensures LeftPart(big, p).kids + RightPart(big, p).kids == big.kids
    ensures |LeftPart(big, p).keys| == p && |RightPart(big, p).keys| == |big.keys| - p - 1
  {
  }

  lemma {:induction false} KidReplaced(kids: seq<Tree>, slot: nat, r: Result)
    requires slot < |kids|
    ensures r.split.None? ==> kids[slot := r.tree] == kids[..slot] + Parts(r) + kids[slot + 1..]
    ensures r.split.Some? ==> InsertAt(kids[slot := r.tree], slot + 1, r.split.value.right) == kids[..slot] + Parts(r) + kids[slot + 1..]
  {
  }

  /** The rows of a node's children when one of them has come back in one or two parts. */
  lemma {:induction false} RowsGrow(t: Tree, k: Key, r: Result, h: nat)
    requires t.Inner? && Linked(t) && h < t.level && Level(t.kids[Place(t, k)]) == t.level - 1
    requires FollowsGrowth(t.kids[Place(t, k)], k, r)
    ensures RowOf(t.kids[..Place(t, k)] + Parts(r) + t.kids[Place(t, k) + 1..], h) == RowAfter(t, k, h)
  {
    hide Linked, Parts, Counts, RowOf, Row, Grown, RowLeft, RowRight, FamilyAfter, PathNode;
    var i := Place(t, k);
    RowOfThree(t.kids[..i], Parts(r), t.kids[i + 1..], h);
    SameGrowth(t, k, h);
    if h == t.level - 1 {
      PartsLevel(r, h);
      RowOfLevel(Parts(r), h);
      SidesLevel(t, i);
      RowOfLevel(t.kids[..i], h);
      RowOfLevel(t.kids[i + 1..], h);
      TopFamily(t, k);
    } else {
      RowsBeside(t, k, h);
      Regroup(RowOf(t.kids[..i], h), RowLeft(t.kids[i], k, h), FamilyAfter(t.kids[i], k, h), RowRight(t.kids[i], k, h), RowOf(t.kids[i + 1..], h));
    }
  }

  lemma {:induction false} PartsLevel(r: Result, h: nat)
    requires Level(r.tree) == h && (r.split.Some? ==> Level(r.split.value.right) == h)
    ensures AtLevel(Parts(r), h)
  {
  }

  lemma {:induction false} SidesLevel(t: Tree, i: nat)
    requires t.Inner? && Linked(t) && i < |t.kids|
    ensures AtLevel(t.kids[..i], t.level - 1) && AtLevel(t.kids[i + 1..], t.level - 1)
  {
  }

  lemma {:induction false} TopFamily(t: Tree, k: Key)
    requires t.Inner? && Linked(t)
    ensures var i, h := Place(t, k), t.level - 1;
            && Level(t.kids[i]) == h && Linked(t.kids[i])
            && RowAfter(t, k, h) == Counts(t.kids[..i]) +
               (if Grows(t, k, h) then Grown(h, SlotUse(t.kids[i]), SlotOn(t.kids[i], k)) else [SlotUse(t.kids[i])]) + Counts(t.kids[i + 1..])
  {
    hide Grown, Counts, Family;
    var i, h := Place(t, k), t.level - 1;
    KidOnPath(t, k);
    ChildFamily(t, k);
    TopNode(t, k);
    CountsAround(t.kids, i);
  }

  lemma {:induction false} TopNode(t: Tree, k: Key)
    requires t.Inner? && Linked(t)
    ensures PathNode(t, k, t.level - 1) == t.kids[Place(t, k)]
    ensures RowLeft(t, k, t.level - 1) == [] && RowRight(t, k, t.level - 1) == []
  {
    KidOnPath(t, k);
  }

  lemma {:induction false} CountsAround(kids: seq<Tree>, i: nat)
    requires i < |kids|
    ensures var u := Counts(kids);
            u[..i] == Counts(kids[..i]) && u[i] == SlotUse(kids[i]) && u[i + 1..] == Counts(kids[i + 1..]) && u == u[..i] + [u[i]] + u[i + 1..]
  {
  }

  /** Below a child growth is the child's own affair. */
  lemma {:induction false} SameGrowth(t: Tree, k: Key, h: nat)
    requires t.Inner? && Linked(t) && h <= Level(t) - 1
    ensures Linked(t.kids[Place(t, k)]) && Level(t.kids[Place(t, k)]) == Level(t) - 1
    ensures Grows(t.kids[Place(t, k)], k, h) == Grows(t, k, h)
    ensures h < Level(t) - 1 ==> FamilyAfter(t.kids[Place(t, k)], k, h) == FamilyAfter(t, k, h)
    decreases h
  {
    hide Linked, Grown, PathNode, Family, Member, SlotOn;
    KidOnPath(t, k);
    if h > 0 {
      SameGrowth(t, k, h - 1);
      SameFamily(t, k, h - 1);
    }
    if h < Level(t) - 1 {
      SameFamily(t, k, h);
      SamePathNode(t, k, h);
    }
  }

  lemma {:induction false} SamePathNode(t: Tree, k: Key, h: nat)
    requires t.Inner? && Linked(t) && h <= Level(t) - 1
    ensures Linked(t.kids[Place(t, k)]) && Level(t.kids[Place(t, k)]) == Level(t) - 1
    ensures PathNode(t.kids[Place(t, k)], k, h) == PathNode(t, k, h)
  {
  }

  /** The induction. */
  lemma {:induction false} InsertFollows(t: Tree, k: Key, v: Data)
    requires Shaped(t) && Sorted(Items(t)) && !Found(Items(t), k)
    ensures FollowsGrowth(t, k, InsertDescend(t, k, v))
    decreases t
  {
    hide FollowsGrowth, InsertLeaf, InsertReturn, Items, Found, Sorted, Linked, LowerSlot;
    if t.Leaf? {
      LeafItems(t);
      LeafGrows(t.items, k, v);
    } else {
      var i := Place(t, k);
      KidOnPath(t, k);
      InnerLevel(t);
      Descend(t, k);
      RemoveInChild(t, i, k);
      KidShaped(t, i);
      var r := InsertDescend(t.kids[i], k, v);
      InsertFollows(t.kids[i], k, v);
      InnerGrows(t, i, r);
      GrowthReturned(t, k, r, InsertReturn(t, i, r));
    }
  }

  lemma {:induction false} KidShaped(t: Tree, i: nat)
    requires t.Inner? && Linked(t) && i < |t.kids|
    ensures Shaped(t.kids[i])
  {
  }

  lemma {:induction false} GrowthReturned(t: Tree, k: Key, r: Result, u: Result)
    requires t.Inner? && Linked(t) && |t.kids| == |t.keys| + 1 && Place(t, k) <= |t.keys| && Level(t.kids[Place(t, k)]) == t.level - 1 && t.level >= 1
    requires FollowsGrowth(t.kids[Place(t, k)], k, r) && Returned(t, Place(t, k), r, u)
    ensures FollowsGrowth(t, k, u)
  {
    hide Linked, Counts, RowOf, RowAfter, Grown, Row, LowerSlot;
    forall h: nat | h < t.level ensures RowOf(Parts(u), h) == RowAfter(t, k, h) {
      RowsGrow(t, k, r, h);
      KidsOfParts(u, t.level, h);
    }
    GrowsIfSplit(t, k, r);
  }

  lemma {:induction false} KidsOfParts(u: Result, level: nat, h: nat)
    requires u.tree.Inner? && u.tree.level == level && (u.split.Some? ==> u.split.value.right.Inner? && u.split.value.right.level == level)
    requires h < level
    ensures RowOf(Parts(u), h) == RowOf(AllKids(u), h)
  {
    RowOfOne(u.tree, h);
    InnerRow(u.tree, h);
    if u.split.Some? {
      RowOfAppend([u.tree], [u.split.value.right], h);
      RowOfAppend(u.tree.kids, u.split.value.right.kids, h);
      RowOfOne(u.split.value.right, h);
      InnerRow(u.split.value.right, h);
    } else {
      assert Parts(u) == [u.tree] && AllKids(u) == u.tree.kids;
    }
  }

  /** A split below is what makes a node grow. */
  lemma {:induction false} GrowsIfSplit(t: Tree, k: Key, r: Result)
    requires t.Inner? && Linked(t) && t.level >= 1 && Level(t.kids[Place(t, k)]) == t.level - 1
    requires FollowsGrowth(t.kids[Place(t, k)], k, r)
    ensures Grows(t, k, t.level) <==> r.split.Some?
    ensures GrownInner(|t.keys|, Place(t, k)) == Grown(t.level, |t.keys|, SlotOn(t, k))
  {
    hide Linked, Grown, Counts, PathNode, Member, Row, RowOf, RowLeft, RowRight, LowerSlot, FamilyAfter;
    var i, h := Place(t, k), t.level - 1;
    SameGrowth(t, k, h);
    PartsCounts(r);
    ChildFamily(t, k);
    TopNode(t, k);
    TopFamily(t, k);
    SameRule(|t.keys|, t.level, i);
  }

  lemma {:induction false} SameRule(c: nat, level: nat, s: nat)
    requires level >= 1
    ensures Grown(1, c, s) == Grown(level, c, s)
  {
  }

  // ---- Whole trees ----

  /** The rows of a tree once a new key has gone in: at every level the family on the way has
      changed by the rule, if it has, and nothing else has; a top node that is split gets a node
      with one slot in use above its two parts. */
  ghost predicate RowsAfterInsert(t: Tree, after: Tree, k: Key)
    requires Linked(t)
  {
    var top := if Grows(t, k, Level(t)) then Grown(Level(t), SlotUse(t), SlotOn(t, k)) else [SlotUse(t)];
    && (forall h: nat | h < Level(t) :: Row(after, h) == RowLeft(t, k, h) + FamilyAfter(t, k, h) + RowRight(t, k, h))
    && Row(after, Level(t)) == top
    && (if |top| == 1 then Level(after) == Level(t) else Level(after) == Level(t) + 1 && SlotUse(after) == 1)
  }

  /** So it is for every insertion of a new key into a valid tree or an empty one. */
  lemma {:induction false} InsertRows(root: Option<Tree>, k: Key, v: Data)
    requires (root.Some? ==> BTreeModel.Valid(root.value)) && !Found(RootItems(root), k)
    ensures Linked(RootOrLeaf(root)) && RowsAfterInsert(RootOrLeaf(root), Insert(root, k, v).0, k)
  {
    hide InsertDescend, FollowsGrowth, Found;
    var t := RootOrLeaf(root);
    if root.None? { LeafItems(t); }
    InsertFollows(t, k, v);
    NewRootRows(t, k, InsertDescend(t, k, v));
  }

  lemma {:induction false} NewRootRows(t: Tree, k: Key, r: Result)
    requires FollowsGrowth(t, k, r)
    ensures RowsAfterInsert(t, NewRoot(r), k)
  {
    hide Linked, Grown, FamilyAfter, RowLeft, RowRight, Grows, LowerSlot;
    PartsCounts(r);
    PartsLevel(r, Level(t));
    RowOfLevel(Parts(r), Level(t));
    forall h: nat | h <= Level(t) ensures Row(NewRoot(r), h) == RowOf(Parts(r), h) {
      RowOfOne(r.tree, h);
      if r.split.Some? {
        InnerRow(NewRoot(r), h);
      } else {
        assert Parts(r) == [r.tree];
      }
    }
  }

  /** A key that is there already changes nothing at all. */
  lemma {:induction false} PresentKeyKeeps(t: Tree, k: Key, v: Data)
    requires Shaped(t) && Sorted(Items(t)) && Found(Items(t), k)
    ensures InsertDescend(t, k, v) == Result(t, None, false)
    decreases t
  {
    hide Items, Found, Sorted, Linked, LowerSlot;
    if t.Leaf? {
      LeafItems(t);
      PresentInLeaf(t.items, k, v);
    } else {
      var i := Place(t, k);
      InnerLevel(t);
      Descend(t, k);
      RemoveInChild(t, i, k);
      KidShaped(t, i);
      PresentKeyKeeps(t.kids[i], k, v);
      assert t.kids[i := t.kids[i]] == t.kids;
    }
  }

  lemma {:induction false} PresentInLeaf(items: seq<Item>, k: Key, v: Data)
    requires Found(items, k)
    ensures InsertLeaf(items, k, v) == Result(Leaf(items), None, false)
  {
  }

  /** The same of a whole tree, null or not. */
  ghost predicate RootRows(before: Option<Tree>, after: Tree, k: Key) {
    Linked(RootOrLeaf(before)) && RowsAfterInsert(RootOrLeaf(before), after, k)
  }

  lemma {:induction false} InsertShape(root: Option<Tree>, k: Key, v: Data)
    requires root.Some? ==> BTreeModel.Valid(root.value)
    ensures var (after, inserted) := Insert(root, k, v);
            && inserted == !Found(RootItems(root), k)
            && (inserted ==> RootRows(root, after, k)) && (!inserted ==> root == Some(after))
  {
    hide RowsAfterInsert, Found, InsertDescend, Sorted, Linked;
    InsertCorrect(root, k, v);
    var t := RootOrLeaf(root);
    if root.None? { LeafItems(t); }
    if Found(RootItems(root), k) {
      SomeRoot(root, k);
      PresentKeyKeeps(t, k, v);
    } else {
      InsertRows(root, k, v);
      EmptySorted();
      InsertDescendOk(t, k, v, SlotUse(t));
    }
  }

  lemma {:induction false} SomeRoot(root: Option<Tree>, k: Key)
    requires Found(RootItems(root), k)
    ensures root.Some?
  {
  }

  lemma {:induction false} EmptySorted()
    ensures Sorted([]) && Shaped(Leaf([]))
  {
  }
}
