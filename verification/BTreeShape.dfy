/** What an erasure does to the shape of a B+ tree, told by the numbers of slots in use alone:
    which nodes lend, which are merged, and how far up that goes. */
module BTreeShape {
  import opened Sequences
  import opened OrderedItems
  import opened Wrappers
  import opened BTreeModel
  import opened BTreeErase
  import opened BTreeEraseProof

  // ---- Rows of nodes ----

  /** The slots in use in the nodes of one level, left to right. */
  ghost function Row(t: Tree, h: nat): seq<nat>
    decreases t, 1
  {
    if Level(t) == h then [SlotUse(t)] else if t.Leaf? then [] else RowOf(t.kids, h)
  }

  ghost function RowOf(kids: seq<Tree>, h: nat): seq<nat>
    decreases kids, 0
  {
    if kids == [] then [] else Row(kids[0], h) + RowOf(kids[1..], h)
  }

  lemma {:induction false} RowOfFirst(kids: seq<Tree>, h: nat)
    ensures RowOf(kids, h) == if kids == [] then [] else Row(kids[0], h) + RowOf(kids[1..], h)
  {
  }

  lemma {:induction false} RowOfAppend(a: seq<Tree>, b: seq<Tree>, h: nat)
    ensures RowOf(a + b, h) == RowOf(a, h) + RowOf(b, h)
  {
    hide Row, RowOf;
    RowOfFirst(a, h);
    if a == [] {
      assert a + b == b;
    } else {
      RowOfFirst(a + b, h);
      assert (a + b)[1..] == a[1..] + b;
      RowOfAppend(a[1..], b, h);
    }
  }

  lemma {:induction false} RowOfOne(t: Tree, h: nat)
    ensures RowOf([t], h) == Row(t, h)
  {
  }

  ghost function Counts(kids: seq<Tree>): (u: seq<nat>)
    ensures |u| == |kids| && forall i | 0 <= i < |kids| :: u[i] == SlotUse(kids[i])
  {
    seq(|kids|, i requires 0 <= i < |kids| => SlotUse(kids[i]))
  }

  ghost predicate AtLevel(kids: seq<Tree>, h: nat) {
    forall i | 0 <= i < |kids| :: Level(kids[i]) == h
  }

  lemma {:induction false} RowOfLevel(kids: seq<Tree>, h: nat)
    requires AtLevel(kids, h)
    ensures RowOf(kids, h) == Counts(kids)
  {
    if kids != [] {
      RowOfLevel(kids[1..], h);
      assert Counts(kids) == [SlotUse(kids[0])] + Counts(kids[1..]);
    }
  }

  // ---- The rule, on numbers ----

  ghost predicate Lends(n: seq<nat>, least: nat) {
    n != [] && n[0] > least
  }

  /** A node left with `c` slots in use, between the siblings `l` and `r` as far as it has them.
      If that is too few, the fuller of the siblings that can lend gives it half of the difference,
      at a tie the right one; if none can it is merged with the left one, else with the right one.
      `sep` is 1 for inner nodes, where the separator between the two comes down, and 0 for leaves. */
  ghost function Mended(l: seq<nat>, c: nat, r: seq<nat>, least: nat, sep: nat): seq<nat>
    requires |l| <= 1 && |r| <= 1
  {
    if c >= least || (l == [] && r == []) then l + [c] + r
    else if Lends(r, least) && (Lends(l, least) ==> l[0] <= r[0]) then
      l + [c + (r[0] - c) / 2, r[0] - (r[0] - c) / 2]
    else if Lends(l, least) then
      [l[0] - (l[0] - c) / 2, c + (l[0] - c) / 2] + r
    else if l != [] then [l[0] + c + sep] + r
    else [c + r[0] + sep]
  }

  /** All the children of one node after child `i` has lost a slot. */
  ghost function Repaired(u: seq<nat>, i: nat, least: nat, sep: nat): seq<nat>
    requires i < |u| && u[i] > 0
  {
    var before, behind := if i > 0 then i - 1 else 0, if i + 1 < |u| then i + 2 else i + 1;
    u[..before] + Mended(u[before..i], u[i] - 1, u[i + 1..behind], least, sep) + u[behind..]
  }

  // ---- What a repair does to the numbers ----

  ghost function Use(n: Neighbour): (u: seq<nat>)
    ensures |u| <= 1
  {
    if n.Sibling? then [SlotUse(n.t)] else []
  }

  /** The nodes that are left of the node and its siblings: a merge has emptied one. */
  ghost function Live(o: Outcome): seq<Tree>
    requires o.Erased?
  {
    if !o.fixmerge then Trees(o.left) + [o.curr] + Trees(o.right)
    else if SlotUse(o.curr) == 0 then Trees(o.left) + Trees(o.right)
    else Trees(o.left) + [o.curr]
  }

  ghost function Sep(level: nat): nat {
    if level == 0 then 0 else 1
  }

  ghost function Least(level: nat): nat {
    if level == 0 then minleafslots else mininnerslots
  }

  /** The node was left with `c` slots in use, and this is what became of it and its siblings. */
  ghost predicate MendedTo(level: nat, c: nat, left: Neighbour, right: Neighbour, o: Outcome) {
    && o.Erased? && (o.left.Sibling? <==> left.Sibling?) && (o.right.Sibling? <==> right.Sibling?)
    && Counts(Live(o)) == Mended(Use(left), c, Use(right), Least(level), Sep(level))
    && (o.fixmerge <==> |Mended(Use(left), c, Use(right), Least(level), Sep(level))| < |Use(left)| + 1 + |Use(right)|)
  }

  lemma {:induction false} CountsAppend(a: seq<Tree>, b: seq<Tree>)
    ensures Counts(a + b) == Counts(a) + Counts(b)
  {
  }

  lemma {:induction false} LiveCounts(o: Outcome)
    requires o.Erased?
    ensures Counts(Live(o)) ==
            if !o.fixmerge then Use(o.left) + [SlotUse(o.curr)] + Use(o.right)
            else if SlotUse(o.curr) == 0 then Use(o.left) + Use(o.right)
            else Use(o.left) + [SlotUse(o.curr)]
  {
    CountsAppend(Trees(o.left), [o.curr]);
    CountsAppend(Trees(o.left) + [o.curr], Trees(o.right));
    CountsAppend(Trees(o.left), Trees(o.right));
    assert Counts(Trees(o.left)) == Use(o.left) && Counts(Trees(o.right)) == Use(o.right) && Counts([o.curr]) == [SlotUse(o.curr)];
  }

  /** A neighbour below the root has as many slots in use as a node needs. */
  lemma {:induction false} NeighbourUse(level: nat, n: Neighbour)
    requires Fits(level, n) && n.Sibling?
    ensures MinFill(n.t) == Least(level) && SlotUse(n.t) >= Least(level) >= 4 && Level(n.t) == level
    ensures if level == 0 then n.t.Leaf? else n.t.Inner? && |n.t.kids| == |n.t.keys| + 1
    ensures CanLend(n) <==> Lends(Use(n), Least(level))
  {
    hide Linked;
    if n.t.Inner? { InnerLevel(n.t); }
  }

  lemma {:induction false} InnerLevel(t: Tree)
    requires t.Inner? && Linked(t)
    ensures t.level >= 1 && |t.kids| == |t.keys| + 1
  {
  }

  /** What each repair does to the numbers of slots. */
  ghost predicate Sizes(f: Fix, c: nat, sep: nat, left: Neighbour, right: Neighbour, o: Outcome)
    requires (f.MergeLeft? || f.ShiftRight? ==> left.Sibling?) && (f.MergeRight? || f.ShiftLeft? ==> right.Sibling?)
  {
    && o.Erased? && (o.left.Sibling? <==> left.Sibling?) && (o.right.Sibling? <==> right.Sibling?)
    && (f.MergeLeft? || f.ShiftRight? || Use(o.left) == Use(left)) && (f.MergeRight? || f.ShiftLeft? || Use(o.right) == Use(right))
    && (o.fixmerge <==> f.MergeLeft? || f.MergeRight?)
    && match f
       case MergeLeft => SlotUse(o.curr) == 0 && SlotUse(o.left.t) == SlotUse(left.t) + c + sep
       case MergeRight => SlotUse(o.right.t) == 0 && SlotUse(o.curr) == c + SlotUse(right.t) + sep
       case ShiftLeft =>
         var n := (SlotUse(right.t) - c) / 2;
         SlotUse(o.curr) == c + n && SlotUse(o.right.t) == SlotUse(right.t) - n
       case ShiftRight =>
         var n := (SlotUse(left.t) - c) / 2;
         SlotUse(o.curr) == c + n && SlotUse(o.left.t) == SlotUse(left.t) - n
  }

  lemma {:induction false} SizesMended(level: nat, c: nat, left: Neighbour, right: Neighbour, o: Outcome)
    requires Context(level, left, right) && !AtRoot(left, right) && c < Least(level)
    requires Sizes(ChooseFix(left, right), c, Sep(level), left, right, o)
    ensures MendedTo(level, c, left, right, o)
  {
    hide Linked, ChooseFix, Counts, Live, Shape, Mended;
    if left.Sibling? { NeighbourUse(level, left); }
    if right.Sibling? { NeighbourUse(level, right); }
    RepairByCounts(left, right);
    LiveCounts(o);
    MendedCases(Use(left), c, Use(right), Least(level), Sep(level));
  }

  /** The cases of the rule apart. */
  lemma {:induction false} MendedCases(l: seq<nat>, c: nat, r: seq<nat>, least: nat, sep: nat)
    requires |l| <= 1 && |r| <= 1 && (l != [] || r != []) && c < least
    ensures Lends(r, least) && (Lends(l, least) ==> l[0] <= r[0]) ==>
              Mended(l, c, r, least, sep) == l + [c + (r[0] - c) / 2] + [r[0] - (r[0] - c) / 2]
    ensures Lends(l, least) && (Lends(r, least) ==> l[0] > r[0]) ==>
              Mended(l, c, r, least, sep) == [l[0] - (l[0] - c) / 2] + [c + (l[0] - c) / 2] + r
    ensures !Lends(l, least) && !Lends(r, least) && l != [] ==> Mended(l, c, r, least, sep) == [l[0] + c + sep] + r
    ensures !Lends(l, least) && !Lends(r, least) && l == [] ==> Mended(l, c, r, least, sep) == [c + r[0] + sep]
  {
  }

  lemma {:induction false} EnoughLeft(level: nat, c: nat, left: Neighbour, right: Neighbour, o: Outcome)
    requires c >= Least(level) && o.Erased? && o.left == left && o.right == right && !o.fixmerge && SlotUse(o.curr) == c
    ensures MendedTo(level, c, left, right, o)
  {
    LiveCounts(o);
  }

  lemma {:induction false} LeafMergeLeft(items: seq<Item>, left: Neighbour, right: Neighbour, lastkey: Option<Key>)
    requires Context(0, left, right) && !AtRoot(left, right) && |items| < minleafslots && ChooseFix(left, right) == MergeLeft
    ensures Sizes(MergeLeft, |items|, 0, left, right, FixLeaf(items, left, right, lastkey))
  {
    hide Linked, ChooseFix, LastKey, Shape;
    NeighbourUse(0, left);
  }

  lemma {:induction false} LeafMergeRight(items: seq<Item>, left: Neighbour, right: Neighbour, lastkey: Option<Key>)
    requires Context(0, left, right) && !AtRoot(left, right) && |items| < minleafslots && ChooseFix(left, right) == MergeRight
    ensures Sizes(MergeRight, |items|, 0, left, right, FixLeaf(items, left, right, lastkey))
  {
    hide Linked, ChooseFix, LastKey, Shape;
    NeighbourUse(0, right);
  }

  lemma {:induction false} LeafShiftLeft(items: seq<Item>, left: Neighbour, right: Neighbour, lastkey: Option<Key>)
    requires Context(0, left, right) && !AtRoot(left, right) && |items| < minleafslots && ChooseFix(left, right) == ShiftLeft
    ensures Sizes(ShiftLeft, |items|, 0, left, right, FixLeaf(items, left, right, lastkey))
  {
    hide Linked, ChooseFix, LastKey, Shape;
    NeighbourUse(0, right);
  }

  lemma {:induction false} LeafShiftRight(items: seq<Item>, left: Neighbour, right: Neighbour, lastkey: Option<Key>)
    requires Context(0, left, right) && !AtRoot(left, right) && |items| < minleafslots && ChooseFix(left, right) == ShiftRight
    ensures Sizes(ShiftRight, |items|, 0, left, right, FixLeaf(items, left, right, lastkey))
  {
    hide Linked, ChooseFix, LastKey, Shape;
    NeighbourUse(0, left);
  }

  lemma {:induction false} LeafMended(items: seq<Item>, left: Neighbour, right: Neighbour, lastkey: Option<Key>)
    requires Context(0, left, right) && !AtRoot(left, right)
    ensures MendedTo(0, |items|, left, right, FixLeaf(items, left, right, lastkey))
  {
    hide Linked, ChooseFix, MendedTo, Sizes;
    if |items| >= minleafslots {
      EnoughLeft(0, |items|, left, right, FixLeaf(items, left, right, lastkey));
    } else {
      hide FixLeaf;
      match ChooseFix(left, right) {
        case MergeLeft => LeafMergeLeft(items, left, right, lastkey);
        case MergeRight => LeafMergeRight(items, left, right, lastkey);
        case ShiftLeft => LeafShiftLeft(items, left, right, lastkey);
        case ShiftRight => LeafShiftRight(items, left, right, lastkey);
      }
      SizesMended(0, |items|, left, right, FixLeaf(items, left, right, lastkey));
    }
  }

  /** Inner nodes keep their children, in order, through every repair. */
  ghost function Kids(n: Neighbour): seq<Tree> {
    if n.Sibling? && n.t.Inner? then n.t.kids else []
  }

  ghost predicate SameKids(t: Tree, left: Neighbour, right: Neighbour, o: Outcome)
    requires t.Inner?
  {
    && o.Erased? && o.curr.Inner? && o.curr.level == t.level
    && (o.left.Sibling? ==> left.Sibling? && o.left.t.Inner? && o.left.t.level == t.level)
    && (o.right.Sibling? ==> right.Sibling? && o.right.t.Inner? && o.right.t.level == t.level)
    && Kids(o.left) + o.curr.kids + Kids(o.right) == Kids(left) + t.kids + Kids(right)
    && (o.fixmerge ==> if SlotUse(o.curr) == 0 then o.curr.kids == [] else o.right.Sibling? && o.right.t.kids == [])
  }

  /** An inner node below the root that is to be repaired, and its neighbours. */
  ghost predicate InnerRepair(t: Tree, left: Neighbour, right: Neighbour) {
    && t.Inner? && t.level >= 1 && |t.kids| == |t.keys| + 1 && |t.keys| < mininnerslots
    && Context(t.level, left, right) && !AtRoot(left, right)
    && (left.Sibling? ==> left.t.Inner? && left.t.level == t.level) && (right.Sibling? ==> right.t.Inner? && right.t.level == t.level)
  }

  lemma {:induction false} Split<T>(a: seq<T>, s: seq<T>, i: nat, b: seq<T>)
    requires i <= |s|
    ensures a + (b + s[..i]) + s[i..] == a + b + s
    ensures s[..i] + (s[i..] + b) + a == s + b + a
  {
    assert s == s[..i] + s[i..];
  }

  lemma {:induction false} Merge<T>(a: seq<T>, s: seq<T>, b: seq<T>)
    ensures (a + s) + [] + b == a + s + b && a + (s + b) + [] == a + s + b
  {
  }

  lemma {:induction false} InnerMergeLeft(t: Tree, left: Neighbour, right: Neighbour, lastkey: Option<Key>)
    requires InnerRepair(t, left, right) && ChooseFix(left, right) == MergeLeft
    ensures var o := FixInner(t, left, right, lastkey);
            Sizes(MergeLeft, |t.keys|, 1, left, right, o) && SameKids(t, left, right, o)
  {
    hide Linked, ChooseFix, LastKey, Shape;
    RepairByCounts(left, right);
    NeighbourUse(t.level, left);
    Merge(Kids(left), t.kids, Kids(right));
  }

  lemma {:induction false} InnerMergeRight(t: Tree, left: Neighbour, right: Neighbour, lastkey: Option<Key>)
    requires InnerRepair(t, left, right) && ChooseFix(left, right) == MergeRight
    ensures var o := FixInner(t, left, right, lastkey);
            Sizes(MergeRight, |t.keys|, 1, left, right, o) && SameKids(t, left, right, o)
  {
    hide Linked, ChooseFix, LastKey, Shape;
    RepairByCounts(left, right);
    NeighbourUse(t.level, right);
    Merge(Kids(left), t.kids, Kids(right));
  }

  lemma {:induction false} InnerShiftLeft(t: Tree, left: Neighbour, right: Neighbour, lastkey: Option<Key>)
    requires InnerRepair(t, left, right) && ChooseFix(left, right) == ShiftLeft
    ensures var o := FixInner(t, left, right, lastkey);
            Sizes(ShiftLeft, |t.keys|, 1, left, right, o) && SameKids(t, left, right, o)
  {
    hide Linked, ChooseFix, LastKey, Shape;
    RepairByCounts(left, right);
    NeighbourUse(t.level, right);
    Split(Kids(left), right.t.kids, (|right.t.keys| - |t.keys|) / 2, t.kids);
  }

  lemma {:induction false} InnerShiftRight(t: Tree, left: Neighbour, right: Neighbour, lastkey: Option<Key>)
    requires InnerRepair(t, left, right) && ChooseFix(left, right) == ShiftRight
    ensures var o := FixInner(t, left, right, lastkey);
            Sizes(ShiftRight, |t.keys|, 1, left, right, o) && SameKids(t, left, right, o)
  {
    hide Linked, ChooseFix, LastKey, Shape;
    RepairByCounts(left, right);
    NeighbourUse(t.level, left);
    Split(Kids(right), left.t.kids, |left.t.keys| - (|left.t.keys| - |t.keys|) / 2 + 1, t.kids);
  }

  lemma {:induction false} InnerMended(t: Tree, left: Neighbour, right: Neighbour, lastkey: Option<Key>)
    requires t.Inner? && t.level >= 1 && |t.kids| == |t.keys| + 1 && Context(t.level, left, right) && !AtRoot(left, right)
    ensures var o := FixInner(t, left, right, lastkey);
            MendedTo(t.level, |t.keys|, left, right, o) && SameKids(t, left, right, o)
  {
    hide Linked, ChooseFix, MendedTo, Sizes, Shape;
    if left.Sibling? { NeighbourUse(t.level, left); }
    if right.Sibling? { NeighbourUse(t.level, right); }
    if |t.keys| >= mininnerslots {
      EnoughLeft(t.level, |t.keys|, left, right, FixInner(t, left, right, lastkey));
    } else {
      hide FixInner, SameKids;
      match ChooseFix(left, right) {
        case MergeLeft => InnerMergeLeft(t, left, right, lastkey);
        case MergeRight => InnerMergeRight(t, left, right, lastkey);
        case ShiftLeft => InnerShiftLeft(t, left, right, lastkey);
        case ShiftRight => InnerShiftRight(t, left, right, lastkey);
      }
      SizesMended(t.level, |t.keys|, left, right, FixInner(t, left, right, lastkey));
    }
  }

  // ---- The path of a key ----

  ghost function Place(t: Tree, k: Key): (i: nat)
    requires t.Inner? && Linked(t)
    ensures i < |t.kids|
  {
    LowerSlot(t.keys, k)
  }

  /** The node at level `h` on the way to the key. */
  ghost function PathNode(t: Tree, k: Key, h: nat): (n: Tree)
    requires Linked(t) && h <= Level(t)
    ensures Linked(n) && Level(n) == h
    decreases t
  {
    if Level(t) == h then t else PathNode(t.kids[Place(t, k)], k, h)
  }

  /** Its children, and which of them is on the way. */
  ghost function Family(t: Tree, k: Key, h: nat): (u: seq<nat>)
    requires Linked(t) && h < Level(t)
    ensures |u| == |PathNode(t, k, h + 1).kids|
  {
    Counts(PathNode(t, k, h + 1).kids)
  }

  ghost function Member(t: Tree, k: Key, h: nat): (i: nat)
    requires Linked(t) && h < Level(t)
    ensures i < |Family(t, k, h)| && Family(t, k, h)[i] > 0
  {
    MemberHasSlots(PathNode(t, k, h + 1), Place(PathNode(t, k, h + 1), k));
    Place(PathNode(t, k, h + 1), k)
  }

  lemma {:induction false} MemberHasSlots(n: Tree, i: nat)
    requires n.Inner? && Linked(n) && i < |n.kids|
    ensures SlotUse(n.kids[i]) > 0
  {
  }

  /** The node at level `h` on the way loses a slot: a leaf its pair, any other one a child. */
  ghost predicate Touched(t: Tree, k: Key, h: nat)
    requires Linked(t) && h <= Level(t)
    decreases h, 0
  {
    h == 0 || |NewFamily(t, k, h - 1)| < |Family(t, k, h - 1)|
  }

  /** What becomes of the family at level `h`. */
  ghost function NewFamily(t: Tree, k: Key, h: nat): seq<nat>
    requires Linked(t) && h < Level(t)
    decreases h, 1
  {
    if Touched(t, k, h) then Repaired(Family(t, k, h), Member(t, k, h), Least(h), Sep(h)) else Family(t, k, h)
  }

  /** The rest of the row, on either side of the family. */
  ghost function RowLeft(t: Tree, k: Key, h: nat): seq<nat>
    requires Linked(t) && h < Level(t)
    decreases t
  {
    if Level(t) == h + 1 then [] else RowOf(t.kids[..Place(t, k)], h) + RowLeft(t.kids[Place(t, k)], k, h)
  }

  ghost function RowRight(t: Tree, k: Key, h: nat): seq<nat>
    requires Linked(t) && h < Level(t)
    decreases t
  {
    if Level(t) == h + 1 then [] else RowRight(t.kids[Place(t, k)], k, h) + RowOf(t.kids[Place(t, k) + 1..], h)
  }

  lemma {:induction false} RowAround(t: Tree, k: Key, h: nat)
    requires Linked(t) && h < Level(t)
    ensures Row(t, h) == RowLeft(t, k, h) + Family(t, k, h) + RowRight(t, k, h)
    decreases t
  {
    if Level(t) == h + 1 {
      RowOfLevel(t.kids, h);
    } else {
      hide RowOf, Linked, Family;
      var i := Place(t, k);
      RowAround(t.kids[i], k, h);
      RowBeside(t.kids, i, h);
      Regroup(RowOf(t.kids[..i], h), RowLeft(t.kids[i], k, h), Family(t.kids[i], k, h), RowRight(t.kids[i], k, h), RowOf(t.kids[i + 1..], h));
    }
  }

  lemma {:induction false} RowBeside(kids: seq<Tree>, i: nat, h: nat)
    requires i < |kids|
    ensures RowOf(kids, h) == RowOf(kids[..i], h) + Row(kids[i], h) + RowOf(kids[i + 1..], h)
  {
    hide Row, RowOf;
    assert kids == kids[..i] + [kids[i]] + kids[i + 1..];
    RowOfAppend(kids[..i] + [kids[i]], kids[i + 1..], h);
    RowOfAppend(kids[..i], [kids[i]], h);
    RowOfOne(kids[i], h);
  }

  lemma {:induction false} Regroup<T>(a: seq<T>, l: seq<T>, f: seq<T>, r: seq<T>, b: seq<T>)
    ensures a + (l + f + r) + b == (a + l) + f + (r + b)
  {
  }

  lemma {:induction false} SameFamily(t: Tree, k: Key, h: nat)
    requires t.Inner? && Linked(t) && h < Level(t) - 1
    ensures Level(t.kids[Place(t, k)]) == Level(t) - 1 && Linked(t.kids[Place(t, k)])
    ensures Family(t.kids[Place(t, k)], k, h) == Family(t, k, h) && Member(t.kids[Place(t, k)], k, h) == Member(t, k, h)
  {
    hide Counts;
  }

  lemma {:induction false} KidOnPath(t: Tree, k: Key)
    requires t.Inner? && Linked(t)
    ensures Level(t.kids[Place(t, k)]) == Level(t) - 1 && Linked(t.kids[Place(t, k)])
  {
  }

  /** Below a child all this is the child's own affair. */
  lemma {:induction false} SamePath(t: Tree, k: Key, h: nat)
    requires t.Inner? && Linked(t) && h <= Level(t) - 1
    ensures Linked(t.kids[Place(t, k)]) && Level(t.kids[Place(t, k)]) == Level(t) - 1
    ensures Touched(t.kids[Place(t, k)], k, h) == Touched(t, k, h)
    ensures h < Level(t) - 1 ==> NewFamily(t.kids[Place(t, k)], k, h) == NewFamily(t, k, h)
    decreases h
  {
    hide Linked, Repaired, PathNode, Family, Member;
    KidOnPath(t, k);
    if h > 0 {
      SamePath(t, k, h - 1);
      SameFamily(t, k, h - 1);
    }
    if h < Level(t) - 1 { SameFamily(t, k, h); }
  }

  // ---- The erasure follows the rule ----

  ghost function SideRow(n: Neighbour, h: nat): seq<nat> {
    if n.Sibling? then Row(n.t, h) else []
  }

  /** The row at level `h` after the erasure. */
  ghost function NewRow(t: Tree, k: Key, h: nat): seq<nat>
    requires Linked(t) && h < Level(t)
  {
    RowLeft(t, k, h) + NewFamily(t, k, h) + RowRight(t, k, h)
  }

  /** Nothing hangs below a node that a merge has emptied. */
  ghost predicate Bare(o: Outcome) {
    o.Erased? && o.fixmerge ==>
      if SlotUse(o.curr) == 0 then o.curr.Inner? ==> o.curr.kids == []
      else o.right.Sibling? && (o.right.t.Inner? ==> o.right.t.kids == [])
  }

  /** How many slots the node at the top is left with before it is repaired. */
  ghost function UseLeft(t: Tree, k: Key): int
    requires Linked(t)
  {
    SlotUse(t) - if Touched(t, k, Level(t)) then 1 else 0
  }

  ghost predicate RowKept(t: Tree, k: Key, left: Neighbour, right: Neighbour, o: Outcome, h: nat)
    requires Linked(t) && h < Level(t)
  {
    o.Erased? && SideRow(o.left, h) + Row(o.curr, h) + SideRow(o.right, h) == SideRow(left, h) + NewRow(t, k, h) + SideRow(right, h)
  }

  /** What is shown of a call on a node below the root. */
  ghost predicate FollowsRule(t: Tree, k: Key, left: Neighbour, right: Neighbour, o: Outcome) {
    && Linked(t) && UseLeft(t, k) >= 0 && MendedTo(Level(t), UseLeft(t, k), left, right, o) && Bare(o)
    && Level(o.curr) == Level(t) && (o.left.Sibling? ==> Level(o.left.t) == Level(t)) && (o.right.Sibling? ==> Level(o.right.t) == Level(t))
    && forall h: nat | h < Level(t) :: RowKept(t, k, left, right, o, h)
  }

  lemma {:induction false} AfterChildKids(t: Tree, slot: nat, content: seq<Item>, left: Neighbour, right: Neighbour, o: Outcome)
    requires ChildReturn(t, slot, content, left, right, o) && ShapeOfOutcome(t, slot, o)
    ensures AfterChild(t, slot, o).kids == Before(t, slot) + Live(o) + After(t, slot)
    ensures |AfterChild(t, slot, o).keys| == |t.keys| - if o.fixmerge then 1 else 0
  {
    hide Linked, ChildReturn, DropEmptied, Items;
    ReturnFacts(t, slot, content, left, right, o);
    PutBackKids(t, slot, o);
    if o.fixmerge {
      DropEmptiedLinked(t, slot, content, left, right, o);
      WithoutEmptied(Before(t, slot), Trees(o.left), o.curr, Trees(o.right), After(t, slot), Emptied(slot, o));
    }
  }

  lemma {:induction false} ReturnFacts(t: Tree, slot: nat, content: seq<Item>, left: Neighbour, right: Neighbour, o: Outcome)
    requires ChildReturn(t, slot, content, left, right, o) && ShapeOfOutcome(t, slot, o)
    ensures t.Inner? && t.level >= 1 && |t.kids| == |t.keys| + 1 >= 2 && slot <= |t.keys| && o.Erased?
    ensures (o.left.Sibling? <==> slot > 0) && (o.right.Sibling? <==> slot < |t.keys|)
    ensures PutBack(t, slot, o).level == t.level && |PutBack(t, slot, o).keys| == |t.keys|
  {
    PutBackAt(t, slot, o, slot);
  }

  lemma {:induction false} WithoutEmptied(a: seq<Tree>, l: seq<Tree>, c: Tree, r: seq<Tree>, b: seq<Tree>, s: nat)
    requires |l| <= 1 && |r| <= 1
    ensures s == |a| + |l| ==> RemoveAt(a + (l + [c] + r) + b, s) == a + (l + r) + b
    ensures s == |a| + |l| + 1 && |r| == 1 ==> RemoveAt(a + (l + [c] + r) + b, s) == a + (l + [c]) + b
  {
  }

  /** What a child has beside it are its siblings. */
  ghost predicate Beside(t: Tree, i: nat, lo: Neighbour, ro: Neighbour)
    requires t.Inner? && i < |t.kids|
  {
    Trees(lo) == (if i > 0 then [t.kids[i - 1]] else []) && Trees(ro) == (if i + 1 < |t.kids| then [t.kids[i + 1]] else [])
  }

  ghost function SlotsBefore(i: nat): nat {
    if i > 0 then i - 1 else 0
  }

  ghost function SlotsBehind(n: nat, i: nat): nat {
    if i + 1 < n then i + 2 else i + 1
  }

  lemma {:induction false} SliceCounts(t: Tree, i: nat, lo: Neighbour, ro: Neighbour)
    requires t.Inner? && i < |t.kids| && Beside(t, i, lo, ro)
    ensures var u, before, behind := Counts(t.kids), SlotsBefore(i), SlotsBehind(|t.kids|, i);
            && before <= i < behind <= |u| && Counts(Before(t, i)) == u[..before] && Counts(After(t, i)) == u[behind..]
            && Use(lo) == u[before..i] && Use(ro) == u[i + 1..behind]
  {
  }

  lemma {:induction false} Spliced(u: seq<nat>, i: nat)
    requires i < |u|
    ensures var before, behind := SlotsBefore(i), SlotsBehind(|u|, i);
            u == u[..before] + (u[before..i] + [u[i]] + u[i + 1..behind]) + u[behind..]
  {
    var before, behind := SlotsBefore(i), SlotsBehind(|u|, i);
    assert u[before..i] + [u[i]] + u[i + 1..behind] == u[before..behind];
    assert u[..before] + u[before..behind] == u[..behind];
  }

  lemma {:induction false} CountsOfThree(a: seq<Tree>, m: seq<Tree>, b: seq<Tree>)
    ensures Counts(a + m + b) == Counts(a) + Counts(m) + Counts(b)
  {
    hide Counts;
    CountsAppend(a + m, b);
    CountsAppend(a, m);
  }

  lemma {:induction false} RepairedIs(u: seq<nat>, i: nat, least: nat, sep: nat)
    requires i < |u| && u[i] > 0
    ensures var before, behind := SlotsBefore(i), SlotsBehind(|u|, i);
            && Repaired(u, i, least, sep) == u[..before] + Mended(u[before..i], u[i] - 1, u[i + 1..behind], least, sep) + u[behind..]
            && |Repaired(u, i, least, sep)| - |u| == |Mended(u[before..i], u[i] - 1, u[i + 1..behind], least, sep)| - (behind - before)
  {
    hide Mended;
  }

  /** The row of the children themselves. */
  lemma {:induction false} ChildRow(t: Tree, k: Key, lo: Neighbour, ro: Neighbour, o: Outcome)
    requires t.Inner? && Linked(t) && Beside(t, Place(t, k), lo, ro)
    requires var i, h := Place(t, k), t.level - 1;
             && SlotUse(t.kids[i]) >= Least(h) && SlotUse(t.kids[i]) > 0
             && MendedTo(h, SlotUse(t.kids[i]) - (if Touched(t, k, h) then 1 else 0), lo, ro, o)
    ensures o.Erased? && Counts(Before(t, Place(t, k)) + Live(o) + After(t, Place(t, k))) == NewRow(t, k, t.level - 1)
    ensures o.fixmerge <==> Touched(t, k, t.level)
  {
    hide Linked, Live, Mended, Counts, Beside, Repaired, SlotsBefore, SlotsBehind, Before, After, Use, PathNode, Family, Member, NewRow;
    var i, h, u := Place(t, k), t.level - 1, Counts(t.kids);
    CountsOfThree(Before(t, i), Live(o), After(t, i));
    SliceCounts(t, i, lo, ro);
    ChildFamily(t, k);
    RepairedIs(u, i, Least(h), Sep(h));
    Spliced(u, i);
    EnoughKept(Use(lo), u[i], Use(ro), Least(h), Sep(h));
  }

  lemma {:induction false} ChildFamily(t: Tree, k: Key)
    requires t.Inner? && Linked(t)
    ensures Family(t, k, t.level - 1) == Counts(t.kids) && Member(t, k, t.level - 1) == Place(t, k)
    ensures NewRow(t, k, t.level - 1) == NewFamily(t, k, t.level - 1)
  {
  }

  lemma {:induction false} EnoughKept(l: seq<nat>, c: nat, r: seq<nat>, least: nat, sep: nat)
    requires |l| <= 1 && |r| <= 1
    ensures c >= least ==> Mended(l, c, r, least, sep) == l + [c] + r
  {
  }

  /** The rows further down. */
  lemma {:induction false} LowerRow(t: Tree, k: Key, lo: Neighbour, ro: Neighbour, o: Outcome, h: nat)
    requires t.Inner? && Linked(t) && h < t.level - 1 && Beside(t, Place(t, k), lo, ro)
    requires o.Erased? && Level(t.kids[Place(t, k)]) == t.level - 1 && FollowsRule(t.kids[Place(t, k)], k, lo, ro, o)
    ensures RowOf(Before(t, Place(t, k)) + Live(o) + After(t, Place(t, k)), h) == NewRow(t, k, h)
  {
    hide Linked, Live, Mended, NewFamily, Row, RowOf, RowLeft, RowRight, PathNode, Counts, Before, After, Beside, SideRow;
    var i := Place(t, k);
    var kid := t.kids[i];
    RowOfThree(Before(t, i), Live(o), After(t, i), h);
    LiveRow(o, t.level - 1, h);
    assert RowKept(kid, k, lo, ro, o, h);
    SamePath(t, k, h);
    RowsBeside(t, k, h);
    RowsOfSides(t, i, lo, ro, h);
    Reassemble(RowOf(Before(t, i), h), SideRow(lo, h), RowLeft(kid, k, h), NewFamily(t, k, h), RowRight(kid, k, h), SideRow(ro, h), RowOf(After(t, i), h));
  }

  lemma {:induction false} Reassemble<T>(a: seq<T>, x: seq<T>, l: seq<T>, f: seq<T>, r: seq<T>, y: seq<T>, b: seq<T>)
    ensures a + (x + (l + f + r) + y) + b == ((a + x) + l) + f + (r + (y + b))
  {
  }

  lemma {:induction false} RowOfThree(a: seq<Tree>, m: seq<Tree>, b: seq<Tree>, h: nat)
    ensures RowOf(a + m + b, h) == RowOf(a, h) + RowOf(m, h) + RowOf(b, h)
  {
    hide RowOf;
    RowOfAppend(a + m, b, h);
    RowOfAppend(a, m, h);
  }

  lemma {:induction false} RowsOfSides(t: Tree, i: nat, lo: Neighbour, ro: Neighbour, h: nat)
    requires t.Inner? && i < |t.kids| && Beside(t, i, lo, ro)
    ensures RowOf(t.kids[..i], h) == RowOf(Before(t, i), h) + SideRow(lo, h)
    ensures RowOf(t.kids[i + 1..], h) == SideRow(ro, h) + RowOf(After(t, i), h)
  {
    hide RowOf, Row;
    assert t.kids[..i] == Before(t, i) + Trees(lo) && t.kids[i + 1..] == Trees(ro) + After(t, i);
    RowOfAppend(Before(t, i), Trees(lo), h);
    RowOfAppend(Trees(ro), After(t, i), h);
    TreesRow(lo, h);
    TreesRow(ro, h);
  }

  lemma {:induction false} RowsBeside(t: Tree, k: Key, h: nat)
    requires t.Inner? && Linked(t) && h < Level(t) - 1
    ensures Linked(t.kids[Place(t, k)]) && Level(t.kids[Place(t, k)]) == Level(t) - 1
    ensures RowLeft(t, k, h) == RowOf(t.kids[..Place(t, k)], h) + RowLeft(t.kids[Place(t, k)], k, h)
    ensures RowRight(t, k, h) == RowRight(t.kids[Place(t, k)], k, h) + RowOf(t.kids[Place(t, k) + 1..], h)
  {
    KidOnPath(t, k);
  }

  lemma {:induction false} TreesRow(n: Neighbour, h: nat)
    ensures RowOf(Trees(n), h) == SideRow(n, h)
  {
    if n.Sibling? { RowOfOne(n.t, h); }
  }

  /** The emptied node adds nothing to the rows below it. */
  lemma {:induction false} LiveRow(o: Outcome, level: nat, h: nat)
    requires o.Erased? && Bare(o) && h < level && Level(o.curr) == level && (o.right.Sibling? ==> Level(o.right.t) == level)
    requires o.fixmerge && SlotUse(o.curr) != 0 ==> o.right.Sibling?
    ensures RowOf(Live(o), h) == SideRow(o.left, h) + Row(o.curr, h) + SideRow(o.right, h)
  {
    RowOfAppend(Trees(o.left), [o.curr], h);
    RowOfAppend(Trees(o.left) + [o.curr], Trees(o.right), h);
    RowOfAppend(Trees(o.left), Trees(o.right), h);
    TreesRow(o.left, h);
    TreesRow(o.right, h);
    RowOfOne(o.curr, h);
  }

  /** The node with its children as the call on one of them has left them. */
  ghost predicate TakenBack(t: Tree, k: Key, u: Tree)
    requires Linked(t)
  {
    && u.Inner? && t.Inner? && u.level == t.level && Linked(u) && |u.keys| == UseLeft(t, k)
    && forall h: nat | h < t.level :: RowOf(u.kids, h) == NewRow(t, k, h)
  }

  lemma {:induction false} NodeAfterChild(t: Tree, k: Key, content: seq<Item>, lo: Neighbour, ro: Neighbour, o: Outcome)
    requires t.Inner? && Linked(t)
    requires ChildReturn(t, Place(t, k), content, lo, ro, o) && ShapeOfOutcome(t, Place(t, k), o)
    requires FollowsRule(t.kids[Place(t, k)], k, lo, ro, o)
    ensures t.level >= 1 && |t.kids| == |t.keys| + 1 && Place(t, k) <= |t.keys| && TakenBack(t, k, AfterChild(t, Place(t, k), o))
  {
    hide AfterChild, FollowsRule, Live, Before, After, RowOf, NewRow, Counts, OutcomeOk, Items, Linked, ShapeOfOutcome, Mended, ChildReturn, Touched, Beside, Least;
    var i := Place(t, k);
    ReturnFacts(t, i, content, lo, ro, o);
    var u := AfterChild(t, i, o);
    AfterChildOk(t, i, content, lo, ro, o);
    AfterChildKids(t, i, content, lo, ro, o);
    KidOnPath(t, k);
    KidUse(t, i);
    SamePath(t, k, t.level - 1);
    RuleOnTop(t.kids[i], k, lo, ro, o);
    SidesBeside(t, i, content, lo, ro, o);
    ChildRow(t, k, lo, ro, o);
    KidsLevel(u);
    RowOfLevel(u.kids, t.level - 1);
    forall h: nat | h < t.level ensures RowOf(u.kids, h) == NewRow(t, k, h) {
      if h < t.level - 1 { LowerRow(t, k, lo, ro, o, h); }
    }
  }

  lemma {:induction false} SidesBeside(t: Tree, i: nat, content: seq<Item>, lo: Neighbour, ro: Neighbour, o: Outcome)
    requires ChildReturn(t, i, content, lo, ro, o)
    ensures t.Inner? && i < |t.kids| && Beside(t, i, lo, ro)
  {
  }

  lemma {:induction false} RuleOnTop(t: Tree, k: Key, left: Neighbour, right: Neighbour, o: Outcome)
    requires FollowsRule(t, k, left, right, o)
    ensures Linked(t) && UseLeft(t, k) >= 0 && MendedTo(Level(t), UseLeft(t, k), left, right, o) && Bare(o)
  {
  }

  lemma {:induction false} KidUse(t: Tree, i: nat)
    requires t.Inner? && Linked(t) && i < |t.kids|
    ensures SlotUse(t.kids[i]) >= Least(t.level - 1) > 0
  {
    if t.kids[i].Inner? { InnerLevel(t.kids[i]); }
  }

  lemma {:induction false} KidsLevel(t: Tree)
    requires t.Inner? && Linked(t)
    ensures AtLevel(t.kids, t.level - 1)
  {
  }

  /** A node below the root, repaired. */
  lemma {:induction false} ReturnFollows(t: Tree, k: Key, u: Tree, left: Neighbour, right: Neighbour, right': Neighbour, lastkey: Option<Key>)
    requires Linked(t) && TakenBack(t, k, u) && Context(t.level, left, right) && !AtRoot(left, right)
    requires right' == right || (right.Sibling? && right'.Sibling? && right'.t == right.t)
    ensures FollowsRule(t, k, left, right, FixInner(u, left, right', lastkey))
  {
    hide Linked, NewRow, FixInner, Mended, Shape, Row, RowOf;
    InnerLevel(u);
    InnerMended(u, left, right', lastkey);
    var o := FixInner(u, left, right', lastkey);
    if left.Sibling? { NeighbourUse(t.level, left); }
    if right.Sibling? { NeighbourUse(t.level, right); }
    forall h: nat | h < t.level ensures RowKept(t, k, left, right, o, h) {
      RowOfThree(Kids(o.left), o.curr.kids, Kids(o.right), h);
      RowOfThree(Kids(left), u.kids, Kids(right), h);
      KidsRow(o.left, t.level, h);
      KidsRow(o.right, t.level, h);
      KidsRow(left, t.level, h);
      KidsRow(right, t.level, h);
      InnerRow(o.curr, h);
    }
  }

  lemma {:induction false} KidsRow(n: Neighbour, level: nat, h: nat)
    requires h < level && (n.Sibling? ==> n.t.Inner? && n.t.level == level)
    ensures RowOf(Kids(n), h) == SideRow(n, h)
  {
  }

  lemma {:induction false} InnerRow(t: Tree, h: nat)
    requires t.Inner? && h < t.level
    ensures Row(t, h) == RowOf(t.kids, h)
  {
  }

  lemma {:induction false} LeafFollows(items: seq<Item>, k: Key, left: Neighbour, right: Neighbour)
    requires Context(0, left, right) && !AtRoot(left, right) && Found(items, k)
    ensures FollowsRule(Leaf(items), k, left, right, EraseLeaf(items, k, left, right))
  {
    hide Mended, Live, Shape, Linked, FixLeaf, FollowsRule;
    var slot := LowerSlot(Keys(items), k);
    EraseLeafIs(items, k, slot, left, right);
    var items' := RemoveAt(items, slot);
    if slot < |items'| {
      LeafRepaired(items, items', k, left, right, right, None);
    } else if right.Sibling? {
      LeafRepaired(items, items', k, left, right, right.(sep := LastKey(items')), None);
    } else {
      LeafRepaired(items, items', k, left, right, right, if items' == [] then None else Some(LastKey(items')));
    }
  }

  lemma {:induction false} LeafRepaired(items: seq<Item>, items': seq<Item>, k: Key, left: Neighbour, right: Neighbour, right': Neighbour, lastkey: Option<Key>)
    requires Context(0, left, right) && !AtRoot(left, right) && |items'| == |items| - 1
    requires right' == right || (right.Sibling? && right'.Sibling? && right'.t == right.t)
    ensures FollowsRule(Leaf(items), k, left, right, FixLeaf(items', left, right', lastkey))
  {
    hide Mended, Live, Shape, FixLeaf;
    LeafMended(items', left, right', lastkey);
    LeavesStay(items', left, right', lastkey);
  }

  lemma {:induction false} LeavesStay(items: seq<Item>, left: Neighbour, right: Neighbour, lastkey: Option<Key>)
    requires Context(0, left, right)
    ensures var o := FixLeaf(items, left, right, lastkey);
            && o.Erased? && o.curr.Leaf? && (o.left.Sibling? ==> left.Sibling? && o.left.t.Leaf?) && (o.right.Sibling? ==> right.Sibling? && o.right.t.Leaf?)
            && (o.fixmerge && SlotUse(o.curr) != 0 ==> o.right.Sibling?)
  {
    hide ChooseFix, Linked;
    if left.Sibling? { NeighbourUse(0, left); }
    if right.Sibling? { NeighbourUse(0, right); }
  }

  /** The induction: whatever cousins a node has, the repairs go by its siblings. */
  lemma {:induction false} Follows(t: Tree, k: Key, left: Neighbour, right: Neighbour)
    requires Shape(t, 1) && Sorted(Items(t)) && Found(Items(t), k)
    requires Context(Level(t), left, right) && SeparatorsOk(t, left, right) && !AtRoot(left, right)
    ensures FollowsRule(t, k, left, right, EraseDescend(t, k, left, right))
    decreases t
  {
    hide FollowsRule, FixInner, FixLeaf, EraseLeaf, TakenBack, Mended, Sorted, Items, Linked, LowerSlot, Found, Remove;
    if t.Leaf? {
      LeafItems(t);
      LeafFollows(t.items, k, left, right);
    } else {
      var o := KidFollows(t, k, left, right);
      if o.lastkey.Some? && right.Sibling? {
        ReturnFollows(t, k, AfterChild(t, Place(t, k), o), left, right, right.(sep := o.lastkey.value), None);
      } else {
        ReturnFollows(t, k, AfterChild(t, Place(t, k), o), left, right, right, o.lastkey);
      }
    }
  }

  lemma {:induction false} LeafItems(t: Tree)
    requires t.Leaf?
    ensures Items(t) == t.items
  {
  }

  /** The call on the child, and what the node is then. */
  lemma {:induction false} KidFollows(t: Tree, k: Key, left: Neighbour, right: Neighbour) returns (o: Outcome)
    requires t.Inner? && Shape(t, 1) && Sorted(Items(t)) && Found(Items(t), k)
    requires Context(t.level, left, right)
    ensures Place(t, k) <= |t.keys| && t.level >= 1 && |t.kids| == |t.keys| + 1 && ShapeOfOutcome(t, Place(t, k), o)
    ensures Shape(t.kids[Place(t, k)], 1) && Context(t.level - 1, LeftOf(t, Place(t, k), left), RightOf(t, Place(t, k), right)) && Level(t.kids[Place(t, k)]) == t.level - 1
    ensures o == EraseDescend(t.kids[Place(t, k)], k, LeftOf(t, Place(t, k), left), RightOf(t, Place(t, k), right))
    ensures TakenBack(t, k, AfterChild(t, Place(t, k), o))
    decreases t, 0
  {
    hide FollowsRule, EraseDescend, TakenBack, Sorted, Items, OutcomeOk, ShapeOfOutcome, AfterChild, Remove, Found, LowerSlot, SeparatorsOk;
    var i := Place(t, k);
    Descend(t, k);
    KidOnPath(t, k);
    InnerLevel(t);
    ChildContext(t, i, left, right);
    RemoveInChild(t, i, k);
    var lo, ro := LeftOf(t, i, left), RightOf(t, i, right);
    o := EraseDescend(t.kids[i], k, lo, ro);
    EraseDescendOk(t.kids[i], k, lo, ro);
    Follows(t.kids[i], k, lo, ro);
    ChildReturns(t, i, Remove(Items(t.kids[i]), k), left, right, o);
    NodeAfterChild(t, k, Remove(Items(t.kids[i]), k), lo, ro, o);
  }

  /** The rows of a tree once a key has been erased: at every level below the top the family on
      the way has changed by the rule, if it has, and nothing else has. The top node loses what
      it loses; left with nothing, it makes way for its one child, or the tree is empty. */
  ghost predicate RowsAfterErase(t: Tree, after: Option<Tree>, k: Key)
    requires Linked(t)
  {
    && (forall h: nat | h < Level(t) :: after.Some? && Row(after.value, h) == RowLeft(t, k, h) + NewFamily(t, k, h) + RowRight(t, k, h))
    && (UseLeft(t, k) > 0 ==> after.Some? && Level(after.value) == Level(t) && SlotUse(after.value) == UseLeft(t, k))
    && (UseLeft(t, k) == 0 ==> if Level(t) == 0 then after.None? else after.Some? && Level(after.value) == Level(t) - 1)
  }

  /** The same of a whole tree that has the key. */
  ghost predicate RootRows(before: Option<Tree>, after: Option<Tree>, k: Key) {
    before.Some? && Linked(before.value) && RowsAfterErase(before.value, after, k)
  }

  /** So it is for every erasure from a valid tree. */
  lemma {:induction false} EraseRows(t: Tree, k: Key)
    requires BTreeModel.Valid(t) && Found(Items(t), k)
    ensures UseLeft(t, k) >= 0 && RowsAfterErase(t, EraseOne(Some(t), k).0, k)
  {
    hide FixLeaf, FixInner, Mended, Sorted, Linked, LowerSlot, NewFamily, RowLeft, RowRight, Row, RowOf, Items, TakenBack;
    if t.Leaf? {
      LeafItems(t);
      RootLeaf(t.items, k);
    } else {
      var o := KidFollows(t, k, Nobody, Nobody);
      RootReturn(t, k, AfterChild(t, Place(t, k), o), o.lastkey);
    }
  }

  lemma {:induction false} RootLeaf(items: seq<Item>, k: Key)
    requires Shape(Leaf(items), 1) && Found(items, k)
    ensures RowsAfterErase(Leaf(items), EraseOne(Some(Leaf(items)), k).0, k)
    ensures UseLeft(Leaf(items), k) >= 0
  {
    var slot := LowerSlot(Keys(items), k);
    EraseLeafIs(items, k, slot, Nobody, Nobody);
    var items' := RemoveAt(items, slot);
    assert |items'| == |items| - 1;
    hide LowerSlot, RemoveAt;
    var o := EraseDescend(Leaf(items), k, Nobody, Nobody);
    assert o == EraseLeaf(items, k, Nobody, Nobody);
    assert o.Erased? && o.curr == Leaf(items');
  }

  lemma {:induction false} RootReturn(t: Tree, k: Key, u: Tree, lastkey: Option<Key>)
    requires Linked(t) && TakenBack(t, k, u)
    ensures u.Inner? && u.level >= 1 && |u.kids| == |u.keys| + 1 && UseLeft(t, k) >= 0
    ensures var o := FixInner(u, Nobody, Nobody, lastkey);
            && o.Erased? && o.curr != Leaf([]) && RowsAfterErase(t, Some(o.curr), k)
  {
    hide Linked, NewFamily, RowLeft, RowRight, Touched, Row, RowOf;
    InnerLevel(u);
    if u.keys == [] {
      assert u.kids == [u.kids[0]];
      KidUse(u, 0);
      KidsLevel(u);
      forall h: nat | h < t.level ensures Row(u.kids[0], h) == RowOf(u.kids, h) {
        RowOfOne(u.kids[0], h);
      }
    } else {
      forall h: nat | h < t.level ensures Row(u, h) == RowOf(u.kids, h) {
        InnerRow(u, h);
      }
    }
  }
}
