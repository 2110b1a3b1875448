/** Why erasure is correct: each repair keeps the items of a node and its
    siblings in order, and restores the shape the level above relies on. */
module BTreeEraseProof {
  import opened Sequences
  import opened OrderedItems
  import opened Wrappers
  import opened BTreeModel
  import opened BTreeErase

  /** The items that a node's parent holds next to it. */
  ghost function SideItems(n: Neighbour): seq<Item> {
    if n.Sibling? then Items(n.t) else []
  }

  ghost predicate Whole(level: nat, t: Tree) {
    Level(t) == level && Shape(t, MinFill(t))
  }

  /** The last key below a node, as the level above will know it. */
  ghost predicate LastKnown(t: Tree, lastkey: Option<Key>, last: Key) {
    LastKey(Items(t)) == if lastkey.Some? then lastkey.value else last
  }

  /** No merge: every node is well-filled and every separator exact. */
  ghost predicate Balanced(level: nat, last: Key, right: Neighbour, o: Outcome)
    requires o.Erased?
  {
    && Whole(level, o.curr)
    && (o.left.Sibling? ==> Whole(level, o.left.t) && o.left.sep == LastKey(Items(o.left.t)))
    && (if right.Sibling? && o.right.Sibling? then
          && Whole(level, o.right.t) && o.right.sep == LastKey(Items(o.curr))
          && LastKey(Items(o.right.t)) == LastKey(Items(right.t)) && o.lastkey.None?
        else LastKnown(o.curr, o.lastkey, last))
  }

  /** A merge: one node is empty, the node it went into is well-filled. */
  ghost predicate Merged(level: nat, last: Key, left: Neighbour, right: Neighbour, o: Outcome)
    requires o.Erased?
  {
    if SlotUse(o.curr) == 0 then
      && o.left.Sibling? && Items(o.curr) == [] && Whole(level, o.left.t)
      && (if right.Sibling? && o.right.Sibling? then
            o.right.t == right.t && o.right.sep == LastKey(Items(o.left.t)) && o.lastkey.None?
          else LastKnown(o.left.t, o.lastkey, last))
    else
      && right.Sibling? && o.right.Sibling? && o.left == left
      && Items(o.right.t) == [] && Whole(level, o.curr)
      && LastKey(Items(o.curr)) == LastKey(Items(right.t)) && o.lastkey.None?
  }

  ghost predicate OutcomeOk(level: nat, content: seq<Item>, last: Key, left: Neighbour, right: Neighbour, o: Outcome) {
    && o.Erased?
    && (if left.Sibling? then o.left.Sibling? else o.left == left)
    && (if right.Sibling? then o.right.Sibling? else o.right == right)
    && SideItems(o.left) + Items(o.curr) + SideItems(o.right) == SideItems(left) + content + SideItems(right)
    && (if AtRoot(left, right) then !o.fixmerge && (o.curr == Leaf([]) || Shape(o.curr, 1))
        else if o.fixmerge then Merged(level, last, left, right, o)
        else Balanced(level, last, right, o))
  }

  /** What holds of a node just before it is repaired. */
  ghost predicate Repairable(t: Tree, last: Key, left: Neighbour, right: Neighbour, lastkey: Option<Key>) {
    && Shaped(t) && Context(Level(t), left, right)
    && (left.Sibling? ==> left.sep == LastKey(Items(left.t)))
    && (!AtRoot(left, right) ==>
          && MinFill(t) <= SlotUse(t) + 1
          && if right.Sibling? then right.sep == LastKey(Items(t)) && lastkey.None? else LastKnown(t, lastkey, last))
  }

  lemma {:induction false} MergeLeafLeftOk(items: seq<Item>, last: Key, left: Neighbour, right: Neighbour, lastkey: Option<Key>)
    requires Repairable(Leaf(items), last, left, right, lastkey)
    requires |items| < minleafslots && !AtRoot(left, right) && ChooseFix(left, right) == MergeLeft
    ensures OutcomeOk(0, items, last, left, right, FixLeaf(items, left, right, lastkey))
  {
    Concat3(left.t.items, items, SideItems(right));
  }

  lemma {:induction false} MergeLeafRightOk(items: seq<Item>, last: Key, left: Neighbour, right: Neighbour, lastkey: Option<Key>)
    requires Repairable(Leaf(items), last, left, right, lastkey)
    requires |items| < minleafslots && !AtRoot(left, right) && ChooseFix(left, right) == MergeRight
    ensures OutcomeOk(0, items, last, left, right, FixLeaf(items, left, right, lastkey))
  {
    Concat3(SideItems(left), items, right.t.items);
  }

  lemma {:induction false} ShiftLeafLeftOk(items: seq<Item>, last: Key, left: Neighbour, right: Neighbour, lastkey: Option<Key>)
    requires Repairable(Leaf(items), last, left, right, lastkey)
    requires |items| < minleafslots && !AtRoot(left, right) && ChooseFix(left, right) == ShiftLeft
    ensures OutcomeOk(0, items, last, left, right, FixLeaf(items, left, right, lastkey))
  {
    var r := right.t.items;
    LeafShiftedLeft(items, r, SideItems(left));
    var l', r' := items + r[..(|r| - |items|) / 2], r[(|r| - |items|) / 2..];
    assert FixLeaf(items, left, right, lastkey) == Erased(Leaf(l'), left, Sibling(Leaf(r'), LastKey(l')), lastkey, false);
    LeafFixedRight(items, l', r', last, left, right, lastkey);
  }

  /** Items that have moved from the right sibling into a leaf. */
  lemma {:induction false} LeafFixedRight(items: seq<Item>, l: seq<Item>, r: seq<Item>, last: Key, left: Neighbour, right: Neighbour, lastkey: Option<Key>)
    requires Repairable(Leaf(items), last, left, right, lastkey) && !AtRoot(left, right) && right.Sibling? && right.t.Leaf?
    requires minleafslots <= |l| <= leafslotmax && minleafslots <= |r| <= leafslotmax && LastKey(r) == LastKey(right.t.items)
    requires SideItems(left) + l + r == SideItems(left) + items + right.t.items
    ensures OutcomeOk(0, items, last, left, right, Erased(Leaf(l), left, Sibling(Leaf(r), LastKey(l)), lastkey, false))
  {
  }

  lemma {:induction false} ShiftLeafRightOk(items: seq<Item>, last: Key, left: Neighbour, right: Neighbour, lastkey: Option<Key>)
    requires Repairable(Leaf(items), last, left, right, lastkey)
    requires |items| < minleafslots && !AtRoot(left, right) && ChooseFix(left, right) == ShiftRight
    ensures OutcomeOk(0, items, last, left, right, FixLeaf(items, left, right, lastkey))
  {
    var l := left.t.items;
    LeafShiftedRight(l, items, SideItems(right));
    var m := |l| - (|l| - |items|) / 2;
    var l', r' := l[..m], l[m..] + items;
    assert FixLeaf(items, left, right, lastkey) == Erased(Leaf(r'), Sibling(Leaf(l'), LastKey(l')), right, lastkey, false);
    LeafFixedLeft(items, l', r', last, left, right, lastkey);
  }

  lemma {:induction false} LeafFixedLeft(items: seq<Item>, l: seq<Item>, r: seq<Item>, last: Key, left: Neighbour, right: Neighbour, lastkey: Option<Key>)
    requires Repairable(Leaf(items), last, left, right, lastkey) && !AtRoot(left, right) && left.Sibling? && left.t.Leaf?
    requires minleafslots <= |l| <= leafslotmax && minleafslots <= |r| <= leafslotmax && LastKey(r) == LastKey(items)
    requires l + r + SideItems(right) == left.t.items + items + SideItems(right)
    ensures OutcomeOk(0, items, last, left, right, Erased(Leaf(r), Sibling(Leaf(l), LastKey(l)), right, lastkey, false))
  {
  }

  lemma {:induction false} FixLeafOk(items: seq<Item>, last: Key, left: Neighbour, right: Neighbour, lastkey: Option<Key>)
    requires Repairable(Leaf(items), last, left, right, lastkey)
    ensures OutcomeOk(0, items, last, left, right, FixLeaf(items, left, right, lastkey))
  {
    if |items| < minleafslots && !AtRoot(left, right) {
      match ChooseFix(left, right)
      case MergeLeft => MergeLeafLeftOk(items, last, left, right, lastkey);
      case MergeRight => MergeLeafRightOk(items, last, left, right, lastkey);
      case ShiftLeft => ShiftLeafLeftOk(items, last, left, right, lastkey);
      case ShiftRight => ShiftLeafRightOk(items, last, left, right, lastkey);
    }
  }

  lemma {:induction false} Concat3(a: seq<Item>, b: seq<Item>, c: seq<Item>)
    ensures (a + b) + [] + c == a + b + c
    ensures a + (b + c) + [] == a + b + c
    ensures b != [] ==> LastKey(a + b) == LastKey(b)
    ensures c != [] ==> LastKey(b + c) == LastKey(c)
  {
  }

  lemma {:induction false} LeafShiftedLeft(l: seq<Item>, r: seq<Item>, a: seq<Item>)
    requires |l| + 1 == minleafslots && minleafslots < |r| <= leafslotmax
    ensures var n := (|r| - |l|) / 2;
            && 0 <= n < |r|
            && minleafslots <= |l + r[..n]| <= leafslotmax && minleafslots <= |r[n..]| <= leafslotmax
            && a + (l + r[..n]) + r[n..] == a + l + r
            && LastKey(r[n..]) == LastKey(r)
  {
    var n := (|r| - |l|) / 2;
    assert r[..n] + r[n..] == r;
  }

  lemma {:induction false} LeafShiftedRight(l: seq<Item>, r: seq<Item>, b: seq<Item>)
    requires |r| + 1 == minleafslots && minleafslots < |l| <= leafslotmax
    ensures var m := |l| - (|l| - |r|) / 2;
            && 0 < m <= |l|
            && minleafslots <= |l[..m]| <= leafslotmax && minleafslots <= |l[m..] + r| <= leafslotmax
            && l[..m] + (l[m..] + r) + b == l + r + b
            && (r != [] ==> LastKey(l[m..] + r) == LastKey(r))
  {
    var m := |l| - (|l| - |r|) / 2;
    assert l[..m] + l[m..] == l;
  }

  /** An underflowing inner node merged into its left sibling, or with its right one. */
  lemma {:induction false} MergeInnerOk(l: Tree, sep: Key, r: Tree)
    requires l.Inner? && r.Inner? && Linked(l) && Linked(r) && l.level == r.level
    requires sep == LastKey(Items(l))
    requires mininnerslots <= |l.keys| + 1 + |r.keys| <= innerslotmax
    ensures Whole(l.level, Join(l, sep, r))
    ensures Items(Join(l, sep, r)) == Items(l) + Items(r)
    ensures LastKey(Items(Join(l, sep, r))) == LastKey(Items(r))
  {
    JoinInner(l, sep, r);
    LastKeyOfInner(r);
    LastKeyOfInner(Join(l, sep, r));
  }

  /** Two parts `l'` and `r'` of what `l` and `r` hold between them. */
  ghost predicate Rebalanced(l: Tree, r: Tree, l': Tree, sep: Key, r': Tree) {
    && Whole(Level(l), l') && Whole(Level(l), r')
    && Items(l') + Items(r') == Items(l) + Items(r)
    && sep == LastKey(Items(l'))
    && LastKey(Items(r')) == LastKey(Items(r))
  }

  /** A shift is a join cut at another place. */
  lemma {:induction false} JoinAndCut(l: Tree, sep: Key, r: Tree, p: nat)
    requires l.Inner? && r.Inner? && Linked(l) && Linked(r) && l.level == r.level
    requires sep == LastKey(Items(l))
    requires mininnerslots <= p <= innerslotmax
    requires mininnerslots <= |l.keys| + |r.keys| - p <= innerslotmax
    ensures var j := Join(l, sep, r); Rebalanced(l, r, LeftPart(j, p), j.keys[p], RightPart(j, p))
  {
    var j := Join(l, sep, r);
    JoinInner(l, sep, r);
    CutInner(j, p);
    LastKeyOfInner(r);
    LastKeyOfInner(RightPart(j, p));
  }

  lemma {:induction false} ShiftedLeftOk(l: Tree, sep: Key, r: Tree, n: nat, l': Tree, r': Tree)
    requires l.Inner? && r.Inner? && Linked(l) && Linked(r) && l.level == r.level
    requires sep == LastKey(Items(l)) && 0 < n < |r.keys|
    requires mininnerslots <= |l.keys| + n <= innerslotmax && mininnerslots <= |r.keys| - n <= innerslotmax
    requires l' == Inner(l.level, l.keys + [sep] + r.keys[..n - 1], l.kids + r.kids[..n])
    requires r' == Inner(l.level, r.keys[n..], r.kids[n..])
    ensures Rebalanced(l, r, l', r.keys[n - 1], r')
  {
    var p := |l.keys| + n;
    assert LeftPart(Join(l, sep, r), p) == l' && RightPart(Join(l, sep, r), p) == r'
           && Join(l, sep, r).keys[p] == r.keys[n - 1] by {
      CutJoinRight(l, sep, r, n);
    }
    JoinAndCut(l, sep, r, p);
  }

  lemma {:induction false} ShiftedRightOk(l: Tree, sep: Key, r: Tree, m: nat, l': Tree, r': Tree)
    requires l.Inner? && r.Inner? && Linked(l) && Linked(r) && l.level == r.level
    requires sep == LastKey(Items(l)) && m < |l.keys|
    requires mininnerslots <= m <= innerslotmax && mininnerslots <= |l.keys| + |r.keys| - m <= innerslotmax
    requires l' == Inner(l.level, l.keys[..m], l.kids[..m + 1])
    requires r' == Inner(l.level, l.keys[m + 1..] + [sep] + r.keys, l.kids[m + 1..] + r.kids)
    ensures Rebalanced(l, r, l', l.keys[m], r')
  {
    CutJoinLeft(l, sep, r, m);
    JoinAndCut(l, sep, r, m);
  }

  lemma {:induction false} MergeInnerLeftOk(t: Tree, last: Key, left: Neighbour, right: Neighbour, lastkey: Option<Key>)
    requires t.Inner? && Repairable(t, last, left, right, lastkey)
    requires |t.keys| < mininnerslots && !AtRoot(left, right) && ChooseFix(left, right) == MergeLeft
    ensures OutcomeOk(t.level, Items(t), last, left, right, FixInner(t, left, right, lastkey))
  {
    MergeInnerOk(left.t, left.sep, t);
    Concat3(Items(left.t), Items(t), SideItems(right));
    assert Items(Inner(t.level, [], [])) == [];
  }

  lemma {:induction false} MergeInnerRightOk(t: Tree, last: Key, left: Neighbour, right: Neighbour, lastkey: Option<Key>)
    requires t.Inner? && Repairable(t, last, left, right, lastkey)
    requires |t.keys| < mininnerslots && !AtRoot(left, right) && ChooseFix(left, right) == MergeRight
    ensures OutcomeOk(t.level, Items(t), last, left, right, FixInner(t, left, right, lastkey))
  {
    MergeInnerOk(t, right.sep, right.t);
    Concat3(SideItems(left), Items(t), Items(right.t));
    assert Items(Inner(t.level, [], [])) == [];
  }

  lemma {:induction false} LeftShiftOutcome(t: Tree, last: Key, left: Neighbour, right: Neighbour, lastkey: Option<Key>)
    requires t.Inner? && Repairable(t, last, left, right, lastkey)
    requires |t.keys| < mininnerslots && !AtRoot(left, right) && ChooseFix(left, right) == ShiftLeft
    ensures right.Sibling? && right.t.Inner? && Linked(right.t) && Linked(t) && right.t.level == t.level
    ensures right.sep == LastKey(Items(t)) && |right.t.kids| == |right.t.keys| + 1 && |t.kids| == |t.keys| + 1
    ensures var r := right.t;
            var n := (|r.keys| - |t.keys|) / 2;
            && 0 < n < |r.keys| && mininnerslots <= |t.keys| + n <= innerslotmax && mininnerslots <= |r.keys| - n <= innerslotmax
            && FixInner(t, left, right, lastkey) ==
               Erased(Inner(t.level, t.keys + [right.sep] + r.keys[..n - 1], t.kids + r.kids[..n]), left,
                      Sibling(Inner(t.level, r.keys[n..], r.kids[n..]), r.keys[n - 1]), lastkey, false)
  {
  }

  lemma {:induction false} ShiftInnerLeftOk(t: Tree, last: Key, left: Neighbour, right: Neighbour, lastkey: Option<Key>)
    requires t.Inner? && Repairable(t, last, left, right, lastkey)
    requires |t.keys| < mininnerslots && !AtRoot(left, right) && ChooseFix(left, right) == ShiftLeft
    ensures OutcomeOk(t.level, Items(t), last, left, right, FixInner(t, left, right, lastkey))
  {
    hide Linked, FixInner;
    LeftShiftOutcome(t, last, left, right, lastkey);
    var r := right.t;
    var n := (|r.keys| - |t.keys|) / 2;
    var o := FixInner(t, left, right, lastkey);
    ShiftedLeftOk(t, right.sep, r, n, o.curr, o.right.t);
    RegroupRight(SideItems(left), Items(o.curr), Items(o.right.t), Items(t), Items(r));
  }

  lemma {:induction false} RightShiftOutcome(t: Tree, last: Key, left: Neighbour, right: Neighbour, lastkey: Option<Key>)
    requires t.Inner? && Repairable(t, last, left, right, lastkey)
    requires |t.keys| < mininnerslots && !AtRoot(left, right) && ChooseFix(left, right) == ShiftRight
    ensures left.Sibling? && left.t.Inner? && Linked(left.t) && Linked(t) && left.t.level == t.level
    ensures left.sep == LastKey(Items(left.t)) && |left.t.kids| == |left.t.keys| + 1 && |t.kids| == |t.keys| + 1
    ensures var l := left.t;
            var m := |l.keys| - (|l.keys| - |t.keys|) / 2;
            && mininnerslots <= m < |l.keys| && m <= innerslotmax && mininnerslots <= |l.keys| + |t.keys| - m <= innerslotmax
            && FixInner(t, left, right, lastkey) ==
               Erased(Inner(t.level, l.keys[m + 1..] + [left.sep] + t.keys, l.kids[m + 1..] + t.kids),
                      Sibling(Inner(t.level, l.keys[..m], l.kids[..m + 1]), l.keys[m]), right, lastkey, false)
  {
  }

  lemma {:induction false} ShiftInnerRightOk(t: Tree, last: Key, left: Neighbour, right: Neighbour, lastkey: Option<Key>)
    requires t.Inner? && Repairable(t, last, left, right, lastkey)
    requires |t.keys| < mininnerslots && !AtRoot(left, right) && ChooseFix(left, right) == ShiftRight
    ensures OutcomeOk(t.level, Items(t), last, left, right, FixInner(t, left, right, lastkey))
  {
    hide OutcomeOk, Linked, FixInner, Rebalanced, Items, LastKey, SlotUse;
    RightShiftOutcome(t, last, left, right, lastkey);
    var l := left.t;
    var m := |l.keys| - (|l.keys| - |t.keys|) / 2;
    var o := FixInner(t, left, right, lastkey);
    ShiftedRightOk(l, left.sep, t, m, o.left.t, o.curr);
    RegroupLeft(Items(o.left.t), Items(o.curr), Items(l), Items(t), SideItems(right));
    InnerShifted(t, o.left.t, l.keys[m], o.curr, last, left, right, lastkey);
  }

  /** Children that have moved from the left sibling into an inner node. */
  lemma {:induction false} InnerShifted(t: Tree, l: Tree, sep: Key, r: Tree, last: Key, left: Neighbour, right: Neighbour, lastkey: Option<Key>)
    requires t.Inner? && Repairable(t, last, left, right, lastkey) && !AtRoot(left, right) && left.Sibling?
    requires Rebalanced(left.t, t, l, sep, r)
    requires Items(l) + Items(r) + SideItems(right) == Items(left.t) + Items(t) + SideItems(right)
    ensures OutcomeOk(t.level, Items(t), last, left, right, Erased(r, Sibling(l, sep), right, lastkey, false))
  {
  }

  lemma {:induction false} RegroupLeft(l': seq<Item>, r': seq<Item>, l: seq<Item>, r: seq<Item>, b: seq<Item>)
    requires l' + r' == l + r
    ensures l' + r' + b == l + r + b
  {
  }

  /** Where a joined node is cut when slots move out of its right part. */
  lemma {:induction false} CutJoinRight(l: Tree, sep: Key, r: Tree, n: nat)
    requires l.Inner? && r.Inner? && |l.kids| == |l.keys| + 1 && |r.kids| == |r.keys| + 1
    requires 0 < n <= |r.keys|
    ensures var j := Join(l, sep, r);
            var p := |l.keys| + n;
            && LeftPart(j, p) == Inner(l.level, l.keys + [sep] + r.keys[..n - 1], l.kids + r.kids[..n])
            && RightPart(j, p) == Inner(l.level, r.keys[n..], r.kids[n..])
            && j.keys[p] == r.keys[n - 1]
  {
    CutAppend(l.keys + [sep], r.keys, n - 1);
    CutAppend(l.keys + [sep], r.keys, n);
    CutAppend(l.kids, r.kids, n);
  }

  lemma {:induction false} CutAppend<T>(a: seq<T>, b: seq<T>, n: nat)
    requires n <= |b|
    ensures (a + b)[..|a| + n] == a + b[..n] && (a + b)[|a| + n..] == b[n..]
  {
  }

  /** Where a joined node is cut when slots move out of its left part. */
  lemma {:induction false} CutJoinLeft(l: Tree, sep: Key, r: Tree, m: nat)
    requires l.Inner? && r.Inner? && |l.kids| == |l.keys| + 1 && |r.kids| == |r.keys| + 1
    requires m < |l.keys|
    ensures var j := Join(l, sep, r);
            && LeftPart(j, m) == Inner(l.level, l.keys[..m], l.kids[..m + 1])
            && RightPart(j, m) == Inner(l.level, l.keys[m + 1..] + [sep] + r.keys, l.kids[m + 1..] + r.kids)
            && j.keys[m] == l.keys[m]
  {
  }

  lemma {:induction false} RegroupRight(a: seq<Item>, l': seq<Item>, r': seq<Item>, l: seq<Item>, r: seq<Item>)
    requires l' + r' == l + r
    ensures a + l' + r' == a + l + r
  {
    assert a + l' + r' == a + (l' + r');
  }

  lemma {:induction false} FixInnerOk(t: Tree, last: Key, left: Neighbour, right: Neighbour, lastkey: Option<Key>)
    requires t.Inner? && Repairable(t, last, left, right, lastkey)
    ensures OutcomeOk(t.level, Items(t), last, left, right, FixInner(t, left, right, lastkey))
  {
    if |t.keys| == 0 && AtRoot(left, right) {
      ItemsAround(t.kids, 0);
    }
    if |t.keys| < mininnerslots && !AtRoot(left, right) {
      match ChooseFix(left, right)
      case MergeLeft => MergeInnerLeftOk(t, last, left, right, lastkey);
      case MergeRight => MergeInnerRightOk(t, last, left, right, lastkey);
      case ShiftLeft => ShiftInnerLeftOk(t, last, left, right, lastkey);
      case ShiftRight => ShiftInnerRightOk(t, last, left, right, lastkey);
    }
  }

  /** The children two or more slots away from `slot`, which no repair touches. */
  ghost function Before(t: Tree, slot: nat): seq<Tree>
    requires t.Inner? && slot < |t.kids|
  {
    t.kids[..if slot > 0 then slot - 1 else 0]
  }

  ghost function After(t: Tree, slot: nat): seq<Tree>
    requires t.Inner? && slot < |t.kids|
  {
    t.kids[if slot + 1 < |t.kids| then slot + 2 else |t.kids|..]
  }

  ghost function Trees(n: Neighbour): seq<Tree> {
    if n.Sibling? then [n.t] else []
  }

  lemma {:induction false} PutBackKids(t: Tree, slot: nat, o: Outcome)
    requires t.Inner? && |t.kids| == |t.keys| + 1 && slot <= |t.keys| && o.Erased?
    requires (o.left.Sibling? <==> slot > 0) && (o.right.Sibling? <==> slot < |t.keys|)
    ensures PutBack(t, slot, o).kids == Before(t, slot) + (Trees(o.left) + [o.curr] + Trees(o.right)) + After(t, slot)
  {
  }

  lemma {:induction false} PutBackItems(t: Tree, slot: nat, o: Outcome)
    requires t.Inner? && |t.kids| == |t.keys| + 1 && slot <= |t.keys| && o.Erased?
    requires (o.left.Sibling? <==> slot > 0) && (o.right.Sibling? <==> slot < |t.keys|)
    ensures Items(PutBack(t, slot, o)) ==
            ItemsOf(Before(t, slot)) + (SideItems(o.left) + Items(o.curr) + SideItems(o.right)) + ItemsOf(After(t, slot))
  {
    PutBackKids(t, slot, o);
    var l, r := Trees(o.left), Trees(o.right);
    ItemsOfAppend(Before(t, slot) + (l + [o.curr] + r), After(t, slot));
    ItemsOfAppend(Before(t, slot), l + [o.curr] + r);
    ItemsOfThree(l, o.curr, r);
    if o.left.Sibling? { ItemsOfOne(o.left.t); }
    if o.right.Sibling? { ItemsOfOne(o.right.t); }
  }

  lemma {:induction false} DropItems(kids: seq<Tree>, s: nat)
    requires s < |kids| && Items(kids[s]) == []
    ensures ItemsOf(RemoveAt(kids, s)) == ItemsOf(kids)
  {
    ItemsAround(kids, s);
    ItemsOfAppend(kids[..s], kids[s + 1..]);
  }

  /** What is known of the call on child `slot` of a well-shaped node. */
  ghost predicate ChildReturn(t: Tree, slot: nat, content: seq<Item>, left: Neighbour, right: Neighbour, o: Outcome) {
    && t.Inner? && Shaped(t) && slot <= |t.keys| && 1 <= |t.keys|
    && left.Sibling? == (slot > 0) && right.Sibling? == (slot < |t.keys|)
    && (slot > 0 ==> left == Sibling(t.kids[slot - 1], t.keys[slot - 1]))
    && (slot < |t.keys| ==> right == Sibling(t.kids[slot + 1], t.keys[slot]))
    && OutcomeOk(t.level - 1, content, LastKey(Items(t.kids[slot])), left, right, o)
  }

  lemma {:induction false} PutBackLinked(t: Tree, slot: nat, content: seq<Item>, left: Neighbour, right: Neighbour, o: Outcome)
    requires ChildReturn(t, slot, content, left, right, o) && !o.fixmerge
    ensures Linked(PutBack(t, slot, o))
  {
    var u := PutBack(t, slot, o);
    forall i | 0 <= i < |u.keys| ensures u.keys[i] == LastKey(Items(u.kids[i])) {
      PutBackAt(t, slot, o, i);
    }
    forall i | 0 <= i < |u.kids| ensures ChildOk(t.level, u.kids[i]) {
      PutBackAt(t, slot, o, i);
    }
  }

  ghost predicate ChildOk(level: nat, c: Tree) {
    Level(c) + 1 == level && MinFill(c) <= SlotUse(c) <= MaxFill(c) && Linked(c)
  }

  /** Dropping child `s` and the separator before it, when the separator after it
      already bounds the child that takes its place. */
  lemma {:induction false} DropLinked(p: Tree, s: nat)
    requires p.Inner? && p.level >= 1 && |p.kids| == |p.keys| + 1 && 1 <= s <= |p.keys|
    requires forall i | 0 <= i < |p.kids| && i != s :: ChildOk(p.level, p.kids[i])
    requires forall i | 0 <= i < |p.keys| && i != s - 1 && i != s :: p.keys[i] == LastKey(Items(p.kids[i]))
    requires s < |p.keys| ==> p.keys[s] == LastKey(Items(p.kids[s - 1]))
    ensures var u := Inner(p.level, RemoveAt(p.keys, s - 1), RemoveAt(p.kids, s));
            && Linked(u)
            && (s - 1 < |u.keys| ==> u.keys[s - 1] == LastKey(Items(u.kids[s - 1])))
  {
    var u := Inner(p.level, RemoveAt(p.keys, s - 1), RemoveAt(p.kids, s));
    forall i | 0 <= i < |u.kids| ensures ChildOk(p.level, u.kids[i]) {
      assert u.kids[i] == p.kids[if i < s then i else i + 1];
    }
    forall i | 0 <= i < |u.keys| ensures u.keys[i] == LastKey(Items(u.kids[i])) {
      assert u.keys[i] == p.keys[if i < s - 1 then i else i + 1];
      assert u.kids[i] == p.kids[if i < s then i else i + 1];
    }
  }

  ghost function Emptied(slot: nat, o: Outcome): nat
    requires o.Erased?
  {
    if SlotUse(o.curr) != 0 then slot + 1 else slot
  }

  lemma {:induction false} PutBackBeforeDrop(t: Tree, slot: nat, content: seq<Item>, left: Neighbour, right: Neighbour, o: Outcome)
    requires ChildReturn(t, slot, content, left, right, o) && o.fixmerge
    ensures Droppable(PutBack(t, slot, o), slot, Emptied(slot, o)) && PutBack(t, slot, o).level == t.level
    ensures |PutBack(t, slot, o).keys| == |t.keys|
  {
    var p, s := PutBack(t, slot, o), Emptied(slot, o);
    forall i | 0 <= i < |p.kids| && i != s ensures ChildOk(p.level, p.kids[i]) {
      PutBackAt(t, slot, o, i);
    }
    forall i | 0 <= i < |p.keys| && i != s - 1 && i != s ensures p.keys[i] == LastKey(Items(p.kids[i])) {
      PutBackAt(t, slot, o, i);
    }
    PutBackAt(t, slot, o, s - 1);
    PutBackAt(t, slot, o, s);
    PutBackAt(t, slot, o, slot);
  }

  /** What stands at a place once the child and its neighbours have been put back. */
  lemma {:induction false} PutBackAt(t: Tree, slot: nat, o: Outcome, i: nat)
    requires t.Inner? && |t.kids| == |t.keys| + 1 && slot <= |t.keys| && i <= |t.keys|
    requires o.Erased? && (slot > 0 ==> o.left.Sibling?) && (slot < |t.keys| ==> o.right.Sibling?)
    ensures var p := PutBack(t, slot, o);
            && p.level == t.level && |p.kids| == |t.kids| && |p.keys| == |t.keys|
            && p.kids[i] == (if i == slot then o.curr else if i + 1 == slot then o.left.t
                             else if i == slot + 1 then o.right.t else t.kids[i])
            && (i < |t.keys| ==> p.keys[i] == if i + 1 == slot then o.left.sep else if i == slot then o.right.sep else t.keys[i])
  {
  }

  /** All but child `s` may stay, and the separator after it bounds the child before it. */
  ghost predicate Droppable(p: Tree, slot: nat, s: nat) {
    && p.Inner? && p.level >= 1 && |p.kids| == |p.keys| + 1 && slot <= |p.keys| && 1 <= s <= |p.keys|
    && s == (if SlotUse(p.kids[slot]) != 0 then slot + 1 else slot)
    && (forall i | 0 <= i < |p.kids| && i != s :: ChildOk(p.level, p.kids[i]))
    && (forall i | 0 <= i < |p.keys| && i != s - 1 && i != s :: p.keys[i] == LastKey(Items(p.kids[i])))
    && (s < |p.keys| ==> p.keys[s] == LastKey(Items(p.kids[s - 1])))
  }

  lemma {:induction false} DropEmptiedLinked(t: Tree, slot: nat, content: seq<Item>, left: Neighbour, right: Neighbour, o: Outcome)
    requires ChildReturn(t, slot, content, left, right, o) && o.fixmerge
    ensures var p := PutBack(t, slot, o);
            var s := Emptied(slot, o);
            && 1 <= s <= |t.keys|
            && DropEmptied(p, slot) == Inner(t.level, RemoveAt(p.keys, s - 1), RemoveAt(p.kids, s))
            && Linked(DropEmptied(p, slot))
  {
    PutBackBeforeDrop(t, slot, content, left, right, o);
    DroppedLinked(PutBack(t, slot, o), slot, Emptied(slot, o));
  }

  lemma {:induction false} DroppedLinked(p: Tree, slot: nat, s: nat)
    requires Droppable(p, slot, s)
    ensures DropEmptied(p, slot) == Inner(p.level, RemoveAt(p.keys, s - 1), RemoveAt(p.kids, s)) && Linked(DropEmptied(p, slot))
  {
    DropLinked(p, s);
    DropEmptiedIs(p, slot, s);
  }

  /** Fixing the split key of a merged leaf changes nothing when it is exact already. */
  lemma {:induction false} DropEmptiedIs(p: Tree, slot: nat, s: nat)
    requires p.Inner? && |p.kids| == |p.keys| + 1 && slot <= |p.keys| && 1 <= s <= |p.keys|
    requires s == if SlotUse(p.kids[slot]) != 0 then slot + 1 else slot
    requires var u := Inner(p.level, RemoveAt(p.keys, s - 1), RemoveAt(p.kids, s));
             s - 1 < |u.keys| ==> u.keys[s - 1] == LastKey(Items(u.kids[s - 1]))
    ensures DropEmptied(p, slot) == Inner(p.level, RemoveAt(p.keys, s - 1), RemoveAt(p.kids, s))
  {
    var keys := RemoveAt(p.keys, s - 1);
    if s - 1 < |keys| {
      assert keys[s - 1 := keys[s - 1]] == keys;
    }
  }

  ghost function AfterChild(t: Tree, slot: nat, o: Outcome): Tree
    requires t.Inner? && t.level >= 1 && |t.kids| == |t.keys| + 1 && slot <= |t.keys| && ShapeOfOutcome(t, slot, o)
  {
    if o.fixmerge then DropEmptied(PutBack(t, slot, o), slot) else PutBack(t, slot, o)
  }

  lemma {:induction false} AfterChildItems(t: Tree, slot: nat, content: seq<Item>, left: Neighbour, right: Neighbour, o: Outcome)
    requires ChildReturn(t, slot, content, left, right, o) && ShapeOfOutcome(t, slot, o)
    ensures Items(AfterChild(t, slot, o)) == ItemsOf(t.kids[..slot]) + content + ItemsOf(t.kids[slot + 1..])
  {
    var p := PutBack(t, slot, o);
    if o.fixmerge {
      DropEmptiedLinked(t, slot, content, left, right, o);
      DropItems(p.kids, Emptied(slot, o));
    }
    PutBackItems(t, slot, o);
    SiblingItems(t, slot, left, right);
    Concat5(ItemsOf(Before(t, slot)), SideItems(left), content, SideItems(right), ItemsOf(After(t, slot)));
  }

  lemma {:induction false} SiblingItems(t: Tree, slot: nat, left: Neighbour, right: Neighbour)
    requires t.Inner? && |t.kids| == |t.keys| + 1 && slot <= |t.keys|
    requires left.Sibling? == (slot > 0) && right.Sibling? == (slot < |t.keys|)
    requires slot > 0 ==> left.t == t.kids[slot - 1]
    requires slot < |t.keys| ==> right.t == t.kids[slot + 1]
    ensures ItemsOf(t.kids[..slot]) == ItemsOf(Before(t, slot)) + SideItems(left)
    ensures ItemsOf(t.kids[slot + 1..]) == SideItems(right) + ItemsOf(After(t, slot))
  {
    if slot > 0 {
      assert t.kids[..slot] == Before(t, slot) + [left.t];
      ItemsOfAppend(Before(t, slot), [left.t]);
      ItemsOfOne(left.t);
    }
    if slot < |t.keys| {
      assert t.kids[slot + 1..] == [right.t] + After(t, slot);
      ItemsOfAppend([right.t], After(t, slot));
      ItemsOfOne(right.t);
    }
  }

  lemma {:induction false} Concat5(p: seq<Item>, a: seq<Item>, m: seq<Item>, b: seq<Item>, q: seq<Item>)
    ensures p + (a + m + b) + q == (p + a) + m + (b + q)
  {
  }

  /** The last child of the node after the call ends with the key that the level
      above knows, or is told. */
  lemma {:induction false} LastChild(t: Tree, slot: nat, content: seq<Item>, left: Neighbour, right: Neighbour, o: Outcome)
    requires ChildReturn(t, slot, content, left, right, o) && ShapeOfOutcome(t, slot, o)
    ensures var u := AfterChild(t, slot, o);
            && u.Inner? && |u.kids| == |u.keys| + 1
            && LastKnown(u.kids[|u.keys|], o.lastkey, LastKey(Items(t.kids[|t.keys|])))
  {
    hide LastKnown, LastKey, ChildReturn, RemoveAt;
    if o.fixmerge {
      DropEmptiedLinked(t, slot, content, left, right, o);
      LastChildAfterDrop(t, slot, content, left, right, o);
    } else {
      LastChildAfterShift(t, slot, content, left, right, o);
    }
  }

  lemma {:induction false} LastChildAfterShift(t: Tree, slot: nat, content: seq<Item>, left: Neighbour, right: Neighbour, o: Outcome)
    requires ChildReturn(t, slot, content, left, right, o) && !o.fixmerge
    ensures var p := PutBack(t, slot, o);
            && |p.kids| == |p.keys| + 1 == |t.keys| + 1
            && LastKnown(p.kids[|t.keys|], o.lastkey, LastKey(Items(t.kids[|t.keys|])))
  {
    var p := PutBack(t, slot, o);
    if slot == |t.keys| {
      assert p.kids[|t.keys|] == o.curr;
    } else if slot + 1 == |t.keys| {
      assert p.kids[|t.keys|] == o.right.t;
    } else {
      assert p.kids[|t.keys|] == t.kids[|t.keys|];
    }
  }

  lemma {:induction false} LastChildAfterDrop(t: Tree, slot: nat, content: seq<Item>, left: Neighbour, right: Neighbour, o: Outcome)
    requires ChildReturn(t, slot, content, left, right, o) && o.fixmerge
    requires 1 <= Emptied(slot, o) <= |t.keys|
    ensures var p := PutBack(t, slot, o);
            var s := Emptied(slot, o);
            && |RemoveAt(p.kids, s)| == |RemoveAt(p.keys, s - 1)| + 1
            && LastKnown(RemoveAt(p.kids, s)[|RemoveAt(p.keys, s - 1)|], o.lastkey, LastKey(Items(t.kids[|t.keys|])))
  {
    hide LastKnown;
    var p := PutBack(t, slot, o);
    var s := Emptied(slot, o);
    LastBeforeDrop(t, slot, content, left, right, o);
    LastAfterRemove(p.kids, s);
  }

  lemma {:induction false} LastBeforeDrop(t: Tree, slot: nat, content: seq<Item>, left: Neighbour, right: Neighbour, o: Outcome)
    requires ChildReturn(t, slot, content, left, right, o) && o.fixmerge
    requires 1 <= Emptied(slot, o) <= |t.keys|
    ensures var p, s := PutBack(t, slot, o), Emptied(slot, o);
            && |p.kids| == |t.kids| == |t.keys| + 1 == |p.keys| + 1
            && LastKnown(p.kids[if s == |t.keys| then s - 1 else |t.keys|], o.lastkey, LastKey(Items(t.kids[|t.keys|])))
  {
    PutBackAt(t, slot, o, if Emptied(slot, o) == |t.keys| then Emptied(slot, o) - 1 else |t.keys|);
  }

  lemma {:induction false} LastAfterRemove<T>(s: seq<T>, i: nat)
    requires 1 <= i < |s|
    ensures RemoveAt(s, i)[|s| - 2] == s[if i == |s| - 1 then i - 1 else |s| - 1]
  {
  }

  lemma {:induction false} AfterChildLast(t: Tree, slot: nat, content: seq<Item>, left: Neighbour, right: Neighbour, o: Outcome)
    requires ChildReturn(t, slot, content, left, right, o) && ShapeOfOutcome(t, slot, o)
    requires Linked(AfterChild(t, slot, o))
    ensures LastKnown(AfterChild(t, slot, o), o.lastkey, LastKey(Items(t)))
  {
    LastKeyOfInner(t);
    LastChild(t, slot, content, left, right, o);
    LastKeyOfInner(AfterChild(t, slot, o));
  }

  lemma {:induction false} EraseLeafOk(items: seq<Item>, k: Key, left: Neighbour, right: Neighbour)
    requires Sorted(items) && SeparatorsOk(Leaf(items), left, right)
    requires Shape(Leaf(items), 1) && Context(0, left, right)
    ensures var o := EraseLeaf(items, k, left, right);
            if Found(items, k) then OutcomeOk(0, Remove(items, k), LastKey(items), left, right, o) else o.NotFound?
  {
    if Found(items, k) {
      var slot := LowerSlot(Keys(items), k);
      RemovedAt(items, k, slot);
      var items' := RemoveAt(items, slot);
      RemoveKeepsLast(items, slot);
      AfterRemoveOk(items, items', slot, left, right);
      EraseLeafIs(items, k, slot, left, right);
    }
  }

  lemma {:induction false} RemoveKeepsLast(items: seq<Item>, slot: nat)
    requires slot < |items|
    ensures slot + 1 < |items| ==> LastKey(RemoveAt(items, slot)) == LastKey(items)
  {
  }

  lemma {:induction false} EraseLeafIs(items: seq<Item>, k: Key, slot: nat, left: Neighbour, right: Neighbour)
    requires Found(items, k) && slot == LowerSlot(Keys(items), k) && Context(0, left, right)
    ensures EraseLeaf(items, k, left, right) == AfterRemove(RemoveAt(items, slot), slot, left, right)
  {
  }

  /** What follows the removal from a leaf: the separator after it is put right first. */
  ghost function AfterRemove(items: seq<Item>, slot: nat, left: Neighbour, right: Neighbour): Outcome
    requires Context(0, left, right)
  {
    if slot < |items| then FixLeaf(items, left, right, None)
    else if right.Sibling? then FixLeaf(items, left, right.(sep := LastKey(items)), None)
    else FixLeaf(items, left, right, if items == [] then None else Some(LastKey(items)))
  }

  lemma {:induction false} AfterRemoveOk(items: seq<Item>, items': seq<Item>, slot: nat, left: Neighbour, right: Neighbour)
    requires SeparatorsOk(Leaf(items), left, right) && Shape(Leaf(items), 1) && Context(0, left, right)
    requires |items'| == |items| - 1 && (slot < |items'| ==> LastKey(items') == LastKey(items))
    ensures OutcomeOk(0, items', LastKey(items), left, right, AfterRemove(items', slot, left, right))
  {
    var last := LastKey(items);
    if slot < |items'| {
      FixLeafOk(items', last, left, right, None);
    } else if right.Sibling? {
      FixLeafOk(items', last, left, right.(sep := LastKey(items')), None);
    } else {
      FixLeafOk(items', last, left, right, if items' == [] then None else Some(LastKey(items')));
    }
  }

  /** What the parent of a node guarantees on the way down. */
  ghost predicate SeparatorsOk(t: Tree, left: Neighbour, right: Neighbour) {
    && (left.Sibling? ==> left.sep == LastKey(Items(left.t)))
    && (right.Sibling? ==> right.sep == LastKey(Items(t)))
    && (!AtRoot(left, right) ==> MinFill(t) <= SlotUse(t))
  }

  lemma {:induction false} AfterChildOk(t: Tree, slot: nat, content: seq<Item>, left: Neighbour, right: Neighbour, o: Outcome)
    requires ChildReturn(t, slot, content, left, right, o) && ShapeOfOutcome(t, slot, o)
    ensures var u := AfterChild(t, slot, o);
            && u.Inner? && u.level == t.level && |t.keys| <= |u.keys| + 1 && |u.keys| <= |t.keys|
            && Linked(u)
            && Items(u) == ItemsOf(t.kids[..slot]) + content + ItemsOf(t.kids[slot + 1..])
            && LastKnown(u, o.lastkey, LastKey(Items(t)))
            && (o.lastkey.Some? ==> slot == |t.keys|)
  {
    AfterChildItems(t, slot, content, left, right, o);
    if o.fixmerge {
      DropEmptiedLinked(t, slot, content, left, right, o);
    } else {
      PutBackLinked(t, slot, content, left, right, o);
    }
    AfterChildLast(t, slot, content, left, right, o);
  }

  lemma {:induction false} EraseReturnOk(t: Tree, slot: nat, content: seq<Item>, left: Neighbour, right: Neighbour, o: Outcome)
    requires t.Inner? && Shape(t, 1) && slot <= |t.keys|
    requires Context(t.level, left, right) && SeparatorsOk(t, left, right)
    requires ChildReturn(t, slot, content, LeftOf(t, slot, left), RightOf(t, slot, right), o) && ShapeOfOutcome(t, slot, o)
    ensures var after := ItemsOf(t.kids[..slot]) + content + ItemsOf(t.kids[slot + 1..]);
            OutcomeOk(t.level, after, LastKey(Items(t)), left, right, EraseReturn(t, slot, o, left, right))
  {
    hide ChooseFix, FixInner, Items, ItemsOf;
    var u := AfterChild(t, slot, o);
    AfterChildOk(t, slot, content, LeftOf(t, slot, left), RightOf(t, slot, right), o);
    if o.lastkey.Some? && right.Sibling? {
      FixInnerOk(u, LastKey(Items(t)), left, right.(sep := o.lastkey.value), None);
    } else {
      FixInnerOk(u, LastKey(Items(t)), left, right, o.lastkey);
    }
  }

  lemma {:induction false} ChildContext(t: Tree, slot: nat, left: Neighbour, right: Neighbour)
    requires t.Inner? && Shape(t, 1) && slot <= |t.keys| && Context(t.level, left, right)
    ensures Context(t.level - 1, LeftOf(t, slot, left), RightOf(t, slot, right))
    ensures SeparatorsOk(t.kids[slot], LeftOf(t, slot, left), RightOf(t, slot, right))
    ensures Shape(t.kids[slot], 1)
  {
  }

  /** The main induction: whatever its neighbours, a node that holds the key is
      left without it and with nothing else changed, in a shape its parent can use. */
  lemma {:induction false} EraseDescendOk(t: Tree, k: Key, left: Neighbour, right: Neighbour)
    requires Shape(t, 1) && Sorted(Items(t))
    requires Context(Level(t), left, right) && SeparatorsOk(t, left, right)
    ensures var o := EraseDescend(t, k, left, right);
            if Found(Items(t), k) then OutcomeOk(Level(t), Remove(Items(t), k), LastKey(Items(t)), left, right, o)
            else o.NotFound?
    decreases t
  {
    if t.Leaf? {
      EraseLeafOk(t.items, k, left, right);
    } else {
      var slot := LowerSlot(t.keys, k);
      Descend(t, k);
      ChildContext(t, slot, left, right);
      EraseDescendOk(t.kids[slot], k, LeftOf(t, slot, left), RightOf(t, slot, right));
      EraseInnerOk(t, k, slot, left, right);
    }
  }

  /** A good outcome of the call on a child is one the parent can use. */
  lemma {:induction false} ChildReturns(t: Tree, slot: nat, content: seq<Item>, left: Neighbour, right: Neighbour, o: Outcome)
    requires t.Inner? && Shape(t, 1) && slot < |t.kids| && Context(t.level, left, right)
    requires OutcomeOk(t.level - 1, content, LastKey(Items(t.kids[slot])), LeftOf(t, slot, left), RightOf(t, slot, right), o)
    ensures slot <= |t.keys| && ShapeOfOutcome(t, slot, o)
    ensures ChildReturn(t, slot, content, LeftOf(t, slot, left), RightOf(t, slot, right), o)
  {
  }

  lemma {:induction false} EraseInnerOk(t: Tree, k: Key, slot: nat, left: Neighbour, right: Neighbour)
    requires t.Inner? && Shape(t, 1) && Sorted(Items(t)) && slot == LowerSlot(t.keys, k)
    requires Context(Level(t), left, right) && SeparatorsOk(t, left, right)
    requires slot < |t.kids| && Shape(t.kids[slot], 1) && Level(t.kids[slot]) == t.level - 1
    requires Context(t.level - 1, LeftOf(t, slot, left), RightOf(t, slot, right))
    requires var o := EraseDescend(t.kids[slot], k, LeftOf(t, slot, left), RightOf(t, slot, right));
             if Found(Items(t.kids[slot]), k) then
               OutcomeOk(t.level - 1, Remove(Items(t.kids[slot]), k), LastKey(Items(t.kids[slot])), LeftOf(t, slot, left), RightOf(t, slot, right), o)
             else o.NotFound?
    ensures var o := EraseDescend(t, k, left, right);
            if Found(Items(t), k) then OutcomeOk(t.level, Remove(Items(t), k), LastKey(Items(t)), left, right, o)
            else o.NotFound?
  {
    hide OutcomeOk, Linked, Sorted, Items, ItemsOf, EraseReturn, LowerSlot, LeftOf, RightOf, ChildReturn, Remove, Found, ShapeOfOutcome;
    RemoveInChild(t, slot, k);
    var o := EraseDescend(t.kids[slot], k, LeftOf(t, slot, left), RightOf(t, slot, right));
    if Found(Items(t.kids[slot]), k) {
      ChildReturns(t, slot, Remove(Items(t.kids[slot]), k), left, right, o);
      EraseReturnOk(t, slot, Remove(Items(t.kids[slot]), k), left, right, o);
    }
  }

  /** What the outcome is at the root. */
  lemma {:induction false} RootOutcome(content: seq<Item>, last: Key, level: nat, o: Outcome)
    requires OutcomeOk(level, content, last, Nobody, Nobody, o)
    ensures o.Erased? && Items(o.curr) == content && (o.curr == Leaf([]) || Shape(o.curr, 1))
  {
    assert [] + Items(o.curr) + [] == Items(o.curr) && [] + content + [] == content;
  }

  /** The main result on erasure: on every valid tree and on the empty one, the
      key goes if it was there, nothing else changes, and the tree stays valid. */
  lemma {:induction false} EraseCorrect(root: Option<Tree>, k: Key)
    requires root.Some? ==> Valid(root.value)
    ensures var (after, erased) := EraseOne(root, k);
            && (after.Some? ==> Valid(after.value))
            && RootItems(after) == Remove(RootItems(root), k)
            && (erased <==> HasKey(RootItems(root), k))
            && (!erased ==> after == root)
  {
    hide EraseDescend, OutcomeOk, LowerSlot, Sorted, Shaped, RemoveAt, Items;
    if root.Some? {
      var t := root.value;
      var o := EraseDescend(t, k, Nobody, Nobody);
      EraseDescendOk(t, k, Nobody, Nobody);
      FoundAtLowerSlot(Items(t), k);
      RemoveSorted(Items(t), k);
      if o.Erased? {
        RootOutcome(Remove(Items(t), k), LastKey(Items(t)), Level(t), o);
        NoItemsLeft();
      }
    }
  }

  lemma {:induction false} NoItemsLeft()
    ensures Items(Leaf([])) == []
  {
  }
}
