/** Repairing a node that underflows: the choice among the cases, the merges of
    inner nodes and the shifts between neighbours. */
module BTreeFixing {
  import opened Sequences
  import opened OrderedItems
  import opened Wrappers
  import opened BTreeModel
  import opened BTreeErase
  import opened BTreeEraseProof
  import opened BTreeNode
  import opened BTreeMoves
  import opened BTreeRefs
  import opened BTreeErasing

  /** An underflowing inner node, not the root, among its neighbours. */
  ghost predicate InnerPlace(p: Place, t: Tree, ln: Neighbour, rn: Neighbour)
    reads PlaceNodes(p)`level, PlaceNodes(p)`slotuse, PlaceNodes(p)`slotkey, PlaceNodes(p)`slotdata, PlaceNodes(p)`childid
  {
    && PlaceHolds(p, t, ln, rn) && p.r.InnerRef?
    && t.Inner? && t.level >= 1 && |t.kids| == |t.keys| + 1 && |t.keys| < mininnerslots
    && Context(t.level, ln, rn) && !AtRoot(ln, rn)
  }

  /** An underflowing leaf, not the root, among its neighbours. */
  ghost predicate LeafPlace(p: Place, items: seq<Item>, ln: Neighbour, rn: Neighbour)
    reads PlaceNodes(p)`level, PlaceNodes(p)`slotuse, PlaceNodes(p)`slotkey, PlaceNodes(p)`slotdata, PlaceNodes(p)`childid
  {
    && PlaceHolds(p, Leaf(items), ln, rn) && p.r.LeafRef?
    && Context(0, ln, rn) && |items| < minleafslots && !AtRoot(ln, rn)
  }

  method SetKey(inner: Node, slot: nat, key: Key, ghost level: nat, ghost keys: seq<Key>, ghost childs: seq<Node>)
    requires InnerHolds(inner, level, keys, childs) && slot < |keys|
    modifies inner`slotkey
    ensures InnerHolds(inner, level, keys[slot := key], childs)
  {
    inner.slotkey := inner.slotkey[slot := key];
  }

  /** The cascade of cases that picks the repair of an underflowing node. */
  method PickFix(left: Node?, right: Node?, leftparent: Node?, rightparent: Node?, parent: Node, least: nat,
                 ghost ln: Neighbour, ghost rn: Neighbour)
    returns (f: Fix)
    requires Kin(parent, leftparent, rightparent, ln, rn) && (ln.Sibling? || rn.Sibling?)
    requires (left == null <==> ln.Nobody?) && (left != null ==> left.slotuse == SlotUse(ln.t) && MinFill(ln.t) == least)
    requires (right == null <==> rn.Nobody?) && (right != null ==> right.slotuse == SlotUse(rn.t) && MinFill(rn.t) == least)
    ensures f == ChooseFix(ln, rn)
    ensures var leftlends, rightlends := leftparent == parent && left.slotuse > least, rightparent == parent && right.slotuse > least;
            && (f.ShiftLeft? <==> rightlends && (leftlends ==> left.slotuse <= right.slotuse))
            && (f.ShiftRight? <==> leftlends && (rightlends ==> left.slotuse > right.slotuse))
            && (f.MergeLeft? <==> !leftlends && !rightlends && leftparent == parent)
            && (f.MergeRight? <==> !leftlends && !rightlends && leftparent != parent)
  {
    var leftfew := left != null && left.slotuse <= least;
    var rightfew := right != null && right.slotuse <= least;
    if (left == null || leftfew) && (right == null || rightfew) {
      f := if leftparent == parent then MergeLeft else MergeRight;
    } else if leftfew && right != null && !rightfew {
      f := if rightparent == parent then ShiftLeft else MergeLeft;
    } else if left != null && !leftfew && rightfew {
      f := if leftparent == parent then ShiftRight else MergeRight;
    } else if leftparent == rightparent {
      f := if left.slotuse <= right.slotuse then ShiftLeft else ShiftRight;
    } else {
      f := if leftparent == parent then ShiftRight else ShiftLeft;
    }
  }

  /** The two nodes a repair works on, and the nodes below them. */
  ghost predicate Pair(l: Ref, r: Ref, lt: Tree, rt: Tree)
    reads Nodes(l)`level, Nodes(l)`slotuse, Nodes(l)`slotkey, Nodes(l)`slotdata, Nodes(l)`childid
    reads Nodes(r)`level, Nodes(r)`slotuse, Nodes(r)`slotkey, Nodes(r)`slotdata, Nodes(r)`childid
  {
    Holds(l, lt) && Holds(r, rt) && Nodes(l) !! Nodes(r)
  }

  /** A place with its node and its left sibling exchanged for `r` and `l`. */
  ghost function LeftFixed(p: Place, l: Ref, r: Ref, o: Outcome): Place
    requires o.Erased?
  {
    p.(r := r, ls := [l], ps := NewSlots(p.ps, p.slot, o))
  }

  ghost function RightFixed(p: Place, l: Ref, r: Ref, o: Outcome): Place
    requires o.Erased?
  {
    p.(r := l, rs := [r], ps := NewSlots(p.ps, p.slot, o))
  }

  /** The rest of the place around a node and its left sibling. */
  ghost predicate AroundLeft(p: Place, ln: Neighbour, rn: Neighbour, o: Outcome)
    reads NodesOf(p.rs)`level, NodesOf(p.rs)`slotuse, NodesOf(p.rs)`slotkey, NodesOf(p.rs)`slotdata, NodesOf(p.rs)`childid
    reads Just(p.parent)`level, Just(p.parent)`slotuse, Just(p.parent)`slotkey, Just(p.parent)`childid
  {
    && p.parent != null && SlotsFit(p.parent, p.slot, p.r.n, p.left, ln, p.right, rn, p.ps)
    && HeldAt(p.right, rn, p.rs)
    && o.Erased? && ln.Sibling? && o.left.Sibling? && o.right == rn && ParentHolds(p.parent, NewSlots(p.ps, p.slot, o))
  }

  ghost predicate AroundRight(p: Place, ln: Neighbour, rn: Neighbour, o: Outcome)
    reads NodesOf(p.ls)`level, NodesOf(p.ls)`slotuse, NodesOf(p.ls)`slotkey, NodesOf(p.ls)`slotdata, NodesOf(p.ls)`childid
    reads Just(p.parent)`level, Just(p.parent)`slotuse, Just(p.parent)`slotkey, Just(p.parent)`childid
  {
    && p.parent != null && SlotsFit(p.parent, p.slot, p.r.n, p.left, ln, p.right, rn, p.ps)
    && HeldAt(p.left, ln, p.ls)
    && o.Erased? && rn.Sibling? && o.right.Sibling? && o.left == ln && ParentHolds(p.parent, NewSlots(p.ps, p.slot, o))
  }

  lemma {:induction false} PlaceLeftFixed(p: Place, l: Ref, r: Ref, ln: Neighbour, rn: Neighbour, o: Outcome)
    requires PlaceApart(p) && AroundLeft(p, ln, rn, o) && Pair(l, r, o.left.t, o.curr)
    requires l.n == p.left && r.n == p.r.n && Nodes(l) + Nodes(r) <= NodesOf(p.ls) + Nodes(p.r)
    requires o.fixmerge ==> SlotUse(o.curr) == 0 && r.EmptyRef?
    ensures PlaceAfter(p, LeftFixed(p, l, r, o), o) && SameNodes(p, ln, rn, LeftFixed(p, l, r, o), o)
  {
    HoldsAllOne(l, o.left.t);
    NodesOfOne(l);
  }

  lemma {:induction false} PlaceRightFixed(p: Place, l: Ref, r: Ref, ln: Neighbour, rn: Neighbour, o: Outcome)
    requires PlaceApart(p) && AroundRight(p, ln, rn, o) && Pair(l, r, o.curr, o.right.t)
    requires r.n == p.right && l.n == p.r.n && Nodes(l) + Nodes(r) <= NodesOf(p.rs) + Nodes(p.r)
    requires o.fixmerge ==> SlotUse(o.curr) != 0 && r.EmptyRef?
    ensures PlaceAfter(p, RightFixed(p, l, r, o), o) && SameNodes(p, ln, rn, RightFixed(p, l, r, o), o)
  {
    HoldsAllOne(r, o.right.t);
    NodesOfOne(r);
  }

  /** Two neighbouring inner nodes with their children. */
  ghost predicate InnerPair(l: Ref, r: Ref, lt: Tree, rt: Tree)
    reads Nodes(l)`level, Nodes(l)`slotuse, Nodes(l)`slotkey, Nodes(l)`slotdata, Nodes(l)`childid
    reads Nodes(r)`level, Nodes(r)`slotuse, Nodes(r)`slotkey, Nodes(r)`slotdata, Nodes(r)`childid
  {
    && Pair(l, r, lt, rt) && l.InnerRef? && r.InnerRef?
    && lt.level == rt.level >= 1 && |lt.kids| == |lt.keys| + 1 && |rt.kids| == |rt.keys| + 1
  }

  lemma {:induction false} InnerPairUse(l: Ref, r: Ref, lt: Tree, rt: Tree)
    requires InnerPair(l, r, lt, rt)
    ensures lt.Inner? && rt.Inner? && l.n.slotuse == |lt.keys| && r.n.slotuse == |rt.keys| && l.n in Nodes(l) && r.n in Nodes(r)
  {
  }

  /** The same leaves in the same order below two nodes, and the inner nodes counted. */
  ghost predicate SameBelow(l: Ref, r: Ref, l': Ref, r': Ref, gone: nat) {
    && Nodes(l') + Nodes(r') <= Nodes(l) + Nodes(r)
    && l'.n == l.n && r'.n == r.n
    && Leaves(l') + Leaves(r') == Leaves(l) + Leaves(r)
    && InnerCount(l') + InnerCount(r') + gone == InnerCount(l) + InnerCount(r)
  }

  method MergePair(left: Node, right: Node, sep: Key, ghost l: Ref, ghost r: Ref, ghost lt: Tree, ghost rt: Tree)
    returns (ghost l': Ref)
    requires InnerPair(l, r, lt, rt) && l.n == left && r.n == right && |lt.keys| + 1 + |rt.keys| <= innerslotmax
    modifies left`slotuse, left`slotkey, left`childid, right`slotuse
    ensures Pair(l', EmptyRef(right), Inner(lt.level, lt.keys + [sep] + rt.keys, lt.kids + rt.kids), Inner(lt.level, [], []))
    ensures SameBelow(l, r, l', EmptyRef(right), 1)
  {
    ghost var lkids, rkids := l.kids, r.kids;
    HoldsAllLength(lkids, lt.kids);
    HoldsAllLength(rkids, rt.kids);
    MergeInnerSlots(left, right, sep, lt.level, lt.keys, Heads(lkids), rt.keys, Heads(rkids));
    KidsJoin(lkids, rkids, lt.kids, rt.kids);
    OneEmpty(right, Inner(rt.level, [], []));
    l' := Family(left, lkids + rkids);
  }

  method ShiftPairLeft(left: Node, right: Node, sep: Key, n: nat, ghost l: Ref, ghost r: Ref, ghost lt: Tree, ghost rt: Tree)
    returns (newsep: Key, ghost l': Ref, ghost r': Ref)
    requires InnerPair(l, r, lt, rt) && l.n == left && r.n == right && 1 <= n <= |rt.keys| && |lt.keys| + n <= innerslotmax
    modifies left`slotuse, left`slotkey, left`childid, right`slotuse, right`slotkey, right`childid
    ensures Pair(l', r', Inner(lt.level, lt.keys + [sep] + rt.keys[..n - 1], lt.kids + rt.kids[..n]), Inner(lt.level, rt.keys[n..], rt.kids[n..]))
    ensures newsep == rt.keys[n - 1] && SameBelow(l, r, l', r', 0)
  {
    ghost var lkids, rkids := l.kids, r.kids;
    HoldsAllLength(lkids, lt.kids);
    HoldsAllLength(rkids, rt.kids);
    newsep := MoveSlotsLeft(left, right, sep, n, lt.level, lt.keys, lkids, rt.keys, rkids, lt.kids, rt.kids, NodesOf(lkids), NodesOf(rkids));
    l', r' := Family(left, lkids + rkids[..n]), Family(right, rkids[n..]);
    MovedLeft(left, right, l, r, lt, rt, lt.keys + [sep] + rt.keys[..n - 1], n);
  }

  /** Moving slots leaves what is below the two nodes alone. */
  method MoveSlotsLeft(left: Node, right: Node, sep: Key, n: nat, ghost level: nat, ghost lkeys: seq<Key>, ghost lkids: seq<Ref>,
                       ghost rkeys: seq<Key>, ghost rkids: seq<Ref>, ghost lts: seq<Tree>, ghost rts: seq<Tree>,
                       ghost lset: set<Node>, ghost rset: set<Node>)
    returns (newsep: Key)
    requires left != right && |lkids| == |lkeys| + 1 && |rkids| == |rkeys| + 1
    requires InnerHolds(left, level, lkeys, Heads(lkids)) && InnerHolds(right, level, rkeys, Heads(rkids))
    requires 1 <= n <= |rkeys| && |lkeys| + n <= innerslotmax
    requires lset == NodesOf(lkids) && rset == NodesOf(rkids) && left !in lset + rset && right !in lset + rset
    modifies left`slotuse, left`slotkey, left`childid, right`slotuse, right`slotkey, right`childid
    ensures InnerHolds(left, level, lkeys + [sep] + rkeys[..n - 1], Heads(lkids) + Heads(rkids)[..n])
    ensures InnerHolds(right, level, rkeys[n..], Heads(rkids)[n..])
    ensures newsep == rkeys[n - 1]
    ensures HoldsAll(lkids, lts) == old(HoldsAll(lkids, lts)) && HoldsAll(rkids, rts) == old(HoldsAll(rkids, rts))
  {
    newsep := ShiftLeftInnerSlots(left, right, sep, n, level, lkeys, Heads(lkids), rkeys, Heads(rkids));
  }

  lemma {:induction false} MovedLeft(left: Node, right: Node, l: Ref, r: Ref, lt: Tree, rt: Tree, keys: seq<Key>, n: nat)
    requires l.InnerRef? && r.InnerRef? && lt.Inner? && rt.Inner? && l.n == left && r.n == right && 1 <= n <= |rt.keys| < |r.kids| == |rt.kids|
    requires l.nodes == {left} + NodesOf(l.kids) && r.nodes == {right} + NodesOf(r.kids) && Nodes(l) !! Nodes(r)
    requires left !in NodesOf(l.kids) && right !in NodesOf(r.kids)
    requires HoldsAll(l.kids, lt.kids) && HoldsAll(r.kids, rt.kids)
    requires InnerHolds(left, lt.level, keys, Heads(l.kids) + Heads(r.kids)[..n]) && InnerHolds(right, lt.level, rt.keys[n..], Heads(r.kids)[n..])
    ensures var l', r' := Family(left, l.kids + r.kids[..n]), Family(right, r.kids[n..]);
            && Pair(l', r', Inner(lt.level, keys, lt.kids + rt.kids[..n]), Inner(lt.level, rt.keys[n..], rt.kids[n..]))
            && SameBelow(l, r, l', r', 0)
  {
    KidsCut(r.kids, rt.kids, n);
    KidsJoin(l.kids, r.kids[..n], lt.kids, rt.kids[..n]);
  }

  method ShiftPairRight(left: Node, right: Node, sep: Key, n: nat, ghost l: Ref, ghost r: Ref, ghost lt: Tree, ghost rt: Tree)
    returns (newsep: Key, ghost l': Ref, ghost r': Ref)
    requires InnerPair(l, r, lt, rt) && l.n == left && r.n == right && 1 <= n <= |lt.keys| && |rt.keys| + n <= innerslotmax
    modifies left`slotuse, right`slotuse, right`slotkey, right`childid
    ensures var m := |lt.keys| - n;
            && Pair(l', r', Inner(lt.level, lt.keys[..m], lt.kids[..m + 1]), Inner(lt.level, lt.keys[m + 1..] + [sep] + rt.keys, lt.kids[m + 1..] + rt.kids))
            && newsep == lt.keys[m] && SameBelow(l, r, l', r', 0)
  {
    hide InnerHolds;
    ghost var lkids, rkids := l.kids, r.kids;
    HoldsAllLength(lkids, lt.kids);
    HoldsAllLength(rkids, rt.kids);
    newsep := MoveSlotsRight(left, right, sep, n, lt.level, lt.keys, lkids, rt.keys, rkids, lt.kids, rt.kids, NodesOf(lkids), NodesOf(rkids));
    ghost var m := |lt.keys| - n;
    l', r' := Family(left, lkids[..m + 1]), Family(right, lkids[m + 1..] + rkids);
    MovedRight(left, right, l, r, lt, rt, lt.keys[m + 1..] + [sep] + rt.keys, m);
  }

  method MoveSlotsRight(left: Node, right: Node, sep: Key, n: nat, ghost level: nat, ghost lkeys: seq<Key>, ghost lkids: seq<Ref>,
                        ghost rkeys: seq<Key>, ghost rkids: seq<Ref>, ghost lts: seq<Tree>, ghost rts: seq<Tree>,
                        ghost lset: set<Node>, ghost rset: set<Node>)
    returns (newsep: Key)
    requires left != right && |lkids| == |lkeys| + 1 && |rkids| == |rkeys| + 1
    requires InnerHolds(left, level, lkeys, Heads(lkids)) && InnerHolds(right, level, rkeys, Heads(rkids))
    requires 1 <= n <= |lkeys| && |rkeys| + n <= innerslotmax
    requires lset == NodesOf(lkids) && rset == NodesOf(rkids) && left !in lset + rset && right !in lset + rset
    modifies left`slotuse, right`slotuse, right`slotkey, right`childid
    ensures var m := |lkeys| - n;
            && InnerHolds(left, level, lkeys[..m], Heads(lkids)[..m + 1])
            && InnerHolds(right, level, lkeys[m + 1..] + [sep] + rkeys, Heads(lkids)[m + 1..] + Heads(rkids))
            && newsep == lkeys[m]
    ensures HoldsAll(lkids, lts) == old(HoldsAll(lkids, lts)) && HoldsAll(rkids, rts) == old(HoldsAll(rkids, rts))
  {
    newsep := ShiftRightInnerSlots(left, right, sep, n, level, lkeys, Heads(lkids), rkeys, Heads(rkids));
  }

  lemma {:induction false} MovedRight(left: Node, right: Node, l: Ref, r: Ref, lt: Tree, rt: Tree, keys: seq<Key>, m: nat)
    requires l.InnerRef? && r.InnerRef? && lt.Inner? && rt.Inner? && l.n == left && r.n == right && m < |lt.keys| < |l.kids| == |lt.kids|
    requires l.nodes == {left} + NodesOf(l.kids) && r.nodes == {right} + NodesOf(r.kids) && Nodes(l) !! Nodes(r)
    requires left !in NodesOf(l.kids) && right !in NodesOf(r.kids)
    requires HoldsAll(l.kids, lt.kids) && HoldsAll(r.kids, rt.kids)
    requires InnerHolds(left, lt.level, lt.keys[..m], Heads(l.kids)[..m + 1]) && InnerHolds(right, lt.level, keys, Heads(l.kids)[m + 1..] + Heads(r.kids))
    ensures var l', r' := Family(left, l.kids[..m + 1]), Family(right, l.kids[m + 1..] + r.kids);
            && Pair(l', r', Inner(lt.level, lt.keys[..m], lt.kids[..m + 1]), Inner(lt.level, keys, lt.kids[m + 1..] + rt.kids))
            && SameBelow(l, r, l', r', 0)
  {
    KidsCut(l.kids, lt.kids, m + 1);
    KidsJoin(l.kids[m + 1..], r.kids, lt.kids[m + 1..], rt.kids);
  }

  lemma {:induction false} SumsLeftFixed(p: Place, l: Ref, r: Ref, ln: Neighbour, rn: Neighbour, o: Outcome, gone: nat)
    requires ln.Sibling? && o.Erased? && o.left.Sibling? && o.right == rn && |p.ls| == 1 && SameBelow(p.ls[0], p.r, l, r, gone)
    ensures SameSums(p, ln, rn, LeftFixed(p, l, r, o), o, gone)
  {
    assert p.ls == [p.ls[0]];
    LeavesOfOne(p.ls[0]);
    LeavesOfOne(l);
  }

  lemma {:induction false} SumsRightFixed(p: Place, l: Ref, r: Ref, ln: Neighbour, rn: Neighbour, o: Outcome, gone: nat)
    requires rn.Sibling? && o.Erased? && o.right.Sibling? && o.left == ln && |p.rs| == 1 && SameBelow(p.r, p.rs[0], l, r, gone)
    ensures SameSums(p, ln, rn, RightFixed(p, l, r, o), o, gone)
  {
    assert p.rs == [p.rs[0]];
    LeavesOfOne(p.rs[0]);
    LeavesOfOne(r);
    SameBehind(SideLeaves(ln, p.ls), Leaves(p.r), Leaves(p.rs[0]), Leaves(l), Leaves(r));
  }

  lemma {:induction false} SameBehind<T>(a: seq<T>, l: seq<T>, r: seq<T>, l': seq<T>, r': seq<T>)
    requires l' + r' == l + r
    ensures a + l' + r' == a + l + r
  {
    assert a + l' + r' == a + (l' + r') && a + l + r == a + (l + r);
  }

  /** The two nodes of a repair with the left sibling, and the rest of the place. */
  lemma {:induction false} TakeLeftPair(p: Place, t: Tree, ln: Neighbour, rn: Neighbour)
    requires InnerPlace(p, t, ln, rn) && ln.Sibling?
    ensures |p.ls| == 1 && p.ls[0].n == p.left && p.parent != null
    ensures InnerPair(p.ls[0], p.r, ln.t, t) && NodesOf(p.ls) == Nodes(p.ls[0])
    ensures p.slot > 0 && p.ps.ParentSlots? && p.slot <= |p.ps.keys| && p.ps.keys[p.slot - 1] == ln.sep
  {
    NeighbourInner(p.left, ln, p.ls, t.level);
    HoldsAllOne(p.ls[0], ln.t);
    NodesOfOne(p.ls[0]);
    assert p.ls == [p.ls[0]];
  }

  lemma {:induction false} TakeRightPair(p: Place, t: Tree, ln: Neighbour, rn: Neighbour)
    requires InnerPlace(p, t, ln, rn) && rn.Sibling?
    ensures |p.rs| == 1 && p.rs[0].n == p.right && p.parent != null
    ensures InnerPair(p.r, p.rs[0], t, rn.t) && NodesOf(p.rs) == Nodes(p.rs[0])
    ensures p.ps.ParentSlots? && p.slot < |p.ps.keys| && p.ps.keys[p.slot] == rn.sep
  {
    NeighbourInner(p.right, rn, p.rs, t.level);
    HoldsAllOne(p.rs[0], rn.t);
    NodesOfOne(p.rs[0]);
    assert p.rs == [p.rs[0]];
  }

  /** An underflowing inner node goes into its left sibling. */
  method MergeInnerLeft(left: Node, inner: Node, parent: Node, leftslot: nat,
                        ghost p: Place, ghost t: Tree, ghost ln: Neighbour, ghost rn: Neighbour, ghost lastkey: Option<Key>)
    returns (ghost p': Place)
    requires p.r.n == inner && p.left == left && p.parent == parent && p.slot == leftslot + 1
    requires InnerPlace(p, t, ln, rn) && ChooseFix(ln, rn) == MergeLeft
    modifies left`slotuse, left`slotkey, left`childid, inner`slotuse
    ensures var o := FixInner(t, ln, rn, lastkey);
            && o.fixmerge && PlaceAfter(p, p', o)
            && SameNodes(p, ln, rn, p', o) && SameSums(p, ln, rn, p', o, 1)
  {
    TakeLeftPair(p, t, ln, rn);
    ghost var l := MergePair(left, inner, parent.slotkey[leftslot], p.ls[0], p.r, ln.t, t);
    ghost var o := FixInner(t, ln, rn, lastkey);
    SlotsKept(p.ps, p.slot, o);
    PlaceLeftFixed(p, l, EmptyRef(inner), ln, rn, o);
    SumsLeftFixed(p, l, EmptyRef(inner), ln, rn, o, 1);
    p' := LeftFixed(p, l, EmptyRef(inner), o);
  }

  /** The right sibling goes into an underflowing inner node. */
  method MergeInnerRight(inner: Node, right: Node, parent: Node, parentslot: nat,
                         ghost p: Place, ghost t: Tree, ghost ln: Neighbour, ghost rn: Neighbour, ghost lastkey: Option<Key>)
    returns (ghost p': Place)
    requires p.r.n == inner && p.right == right && p.parent == parent && p.slot == parentslot
    requires InnerPlace(p, t, ln, rn) && ChooseFix(ln, rn) == MergeRight
    modifies inner`slotuse, inner`slotkey, inner`childid, right`slotuse
    ensures var o := FixInner(t, ln, rn, lastkey);
            && o.fixmerge && PlaceAfter(p, p', o)
            && SameNodes(p, ln, rn, p', o) && SameSums(p, ln, rn, p', o, 1)
  {
    TakeRightPair(p, t, ln, rn);
    ghost var l := MergePair(inner, right, parent.slotkey[parentslot], p.r, p.rs[0], t, rn.t);
    ghost var o := FixInner(t, ln, rn, lastkey);
    SlotsKept(p.ps, p.slot, o);
    PlaceRightFixed(p, l, EmptyRef(right), ln, rn, o);
    SumsRightFixed(p, l, EmptyRef(right), ln, rn, o, 1);
    p' := RightFixed(p, l, EmptyRef(right), o);
  }

  /** The same with two nodes beside the parent. */
  method SetKeyBeside(inner: Node, slot: nat, key: Key, ghost level: nat, ghost keys: seq<Key>, ghost childs: seq<Node>,
                      ghost l: Ref, ghost r: Ref, ghost lt: Tree, ghost rt: Tree)
    requires InnerHolds(inner, level, keys, childs) && slot < |keys| && inner !in Nodes(l) + Nodes(r)
    modifies inner`slotkey
    ensures InnerHolds(inner, level, keys[slot := key], childs)
    ensures Pair(l, r, lt, rt) == old(Pair(l, r, lt, rt))
  {
    SetKey(inner, slot, key, level, keys, childs);
  }

  method ShiftLeftAcross(left: Node, right: Node, parent: Node, slot: nat, ghost ps: ParentSlots,
                         ghost l: Ref, ghost r: Ref, ghost lt: Tree, ghost rt: Tree)
    returns (ghost l': Ref, ghost r': Ref)
    requires InnerPair(l, r, lt, rt) && l.n == left && r.n == right
    requires |lt.keys| < mininnerslots < |rt.keys| && |rt.keys| <= innerslotmax
    requires ParentHolds(parent, ps) && slot < |ps.keys| && parent !in Nodes(l) + Nodes(r)
    modifies parent`slotkey, left`slotuse, left`slotkey, left`childid, right`slotuse, right`slotkey, right`childid
    ensures var n := (|rt.keys| - |lt.keys|) / 2;
            && Pair(l', r', Inner(lt.level, lt.keys + [ps.keys[slot]] + rt.keys[..n - 1], lt.kids + rt.kids[..n]),
                    Inner(lt.level, rt.keys[n..], rt.kids[n..]))
            && ParentHolds(parent, ps.(keys := ps.keys[slot := rt.keys[n - 1]]))
    ensures SameBelow(l, r, l', r', 0)
  {
    hide Pair;
    var newsep;
    InnerPairUse(l, r, lt, rt);
    ghost var n := (right.slotuse - left.slotuse) / 2;
    newsep, l', r' := ShiftPairLeft(left, right, parent.slotkey[slot], (right.slotuse - left.slotuse) / 2, l, r, lt, rt);
    SetKeyBeside(parent, slot, newsep, ps.level, ps.keys, ps.childs, l', r',
                 Inner(lt.level, lt.keys + [ps.keys[slot]] + rt.keys[..n - 1], lt.kids + rt.kids[..n]), Inner(lt.level, rt.keys[n..], rt.kids[n..]));
  }

  method ShiftRightAcross(left: Node, right: Node, parent: Node, slot: nat, ghost ps: ParentSlots,
                          ghost l: Ref, ghost r: Ref, ghost lt: Tree, ghost rt: Tree)
    returns (ghost l': Ref, ghost r': Ref)
    requires InnerPair(l, r, lt, rt) && l.n == left && r.n == right
    requires |rt.keys| < mininnerslots < |lt.keys| && |lt.keys| <= innerslotmax
    requires ParentHolds(parent, ps) && slot < |ps.keys| && parent !in Nodes(l) + Nodes(r)
    modifies parent`slotkey, left`slotuse, right`slotuse, right`slotkey, right`childid
    ensures var m := |lt.keys| - (|lt.keys| - |rt.keys|) / 2;
            && Pair(l', r', Inner(lt.level, lt.keys[..m], lt.kids[..m + 1]),
                    Inner(lt.level, lt.keys[m + 1..] + [ps.keys[slot]] + rt.keys, lt.kids[m + 1..] + rt.kids))
            && ParentHolds(parent, ps.(keys := ps.keys[slot := lt.keys[m]]))
    ensures SameBelow(l, r, l', r', 0)
  {
    hide Pair;
    var newsep;
    InnerPairUse(l, r, lt, rt);
    ghost var m := |lt.keys| - (left.slotuse - right.slotuse) / 2;
    newsep, l', r' := ShiftPairRight(left, right, parent.slotkey[slot], (left.slotuse - right.slotuse) / 2, l, r, lt, rt);
    SetKeyBeside(parent, slot, newsep, ps.level, ps.keys, ps.childs, l', r', Inner(lt.level, lt.keys[..m], lt.kids[..m + 1]),
                 Inner(lt.level, lt.keys[m + 1..] + [ps.keys[slot]] + rt.keys, lt.kids[m + 1..] + rt.kids));
  }

  lemma {:induction false} InnerLeftOutcome(t: Tree, ln: Neighbour, rn: Neighbour, lastkey: Option<Key>)
    requires t.Inner? && t.level >= 1 && |t.kids| == |t.keys| + 1 && |t.keys| < mininnerslots
    requires Context(t.level, ln, rn) && !AtRoot(ln, rn) && ChooseFix(ln, rn) == ShiftLeft
    ensures var rt := rn.t;
            var n := (|rt.keys| - |t.keys|) / 2;
            && 1 <= n < |rt.keys|
            && FixInner(t, ln, rn, lastkey) ==
               Erased(Inner(t.level, t.keys + [rn.sep] + rt.keys[..n - 1], t.kids + rt.kids[..n]), ln,
                      Sibling(Inner(t.level, rt.keys[n..], rt.kids[n..]), rt.keys[n - 1]), lastkey, false)
  {
  }

  lemma {:induction false} InnerRightOutcome(t: Tree, ln: Neighbour, rn: Neighbour, lastkey: Option<Key>)
    requires t.Inner? && t.level >= 1 && |t.kids| == |t.keys| + 1 && |t.keys| < mininnerslots
    requires Context(t.level, ln, rn) && !AtRoot(ln, rn) && ChooseFix(ln, rn) == ShiftRight
    ensures var lt := ln.t;
            var m := |lt.keys| - (|lt.keys| - |t.keys|) / 2;
            && 0 < m < |lt.keys|
            && FixInner(t, ln, rn, lastkey) ==
               Erased(Inner(t.level, lt.keys[m + 1..] + [ln.sep] + t.keys, lt.kids[m + 1..] + t.kids),
                      Sibling(Inner(t.level, lt.keys[..m], lt.kids[..m + 1]), lt.keys[m]), rn, lastkey, false)
  {
  }

  /** Children move from the right sibling into an underflowing inner node. */
  method ShiftInnerLeft(inner: Node, right: Node, parent: Node, parentslot: nat,
                        ghost p: Place, ghost t: Tree, ghost ln: Neighbour, ghost rn: Neighbour, ghost lastkey: Option<Key>)
    returns (ghost p': Place)
    requires p.r.n == inner && p.right == right && p.parent == parent && p.slot == parentslot
    requires InnerPlace(p, t, ln, rn) && ChooseFix(ln, rn) == ShiftLeft
    modifies parent`slotkey, inner`slotuse, inner`slotkey, inner`childid, right`slotuse, right`slotkey, right`childid
    ensures var o := FixInner(t, ln, rn, lastkey);
            && !o.fixmerge && PlaceAfter(p, p', o)
            && SameNodes(p, ln, rn, p', o) && SameSums(p, ln, rn, p', o, 0)
  {
    TakeRightPair(p, t, ln, rn);
    ghost var l, r := ShiftFromRight(inner, right, parent, parentslot, p, t, ln, rn, NodesOf(p.ls));
    p' := RightFixed(p, l, r, FixInner(t, ln, rn, lastkey));
    InnerShiftedLeft(p, t, ln, rn, lastkey, l, r);
  }

  /** The shift itself, beside a left neighbour that stays as it is. */
  method ShiftFromRight(inner: Node, right: Node, parent: Node, parentslot: nat,
                        ghost p: Place, ghost t: Tree, ghost ln: Neighbour, ghost rn: Neighbour, ghost side: set<Node>)
    returns (ghost l: Ref, ghost r: Ref)
    requires p.r.n == inner && p.right == right && p.parent == parent && p.slot == parentslot && side == NodesOf(p.ls)
    requires rn.Sibling? && |p.rs| == 1 && p.rs[0].n == right && InnerPair(p.r, p.rs[0], t, rn.t) && NodesOf(p.rs) == Nodes(p.rs[0])
    requires |t.keys| < mininnerslots < |rn.t.keys| <= innerslotmax
    requires PlaceApart(p) && ParentHolds(parent, p.ps) && p.ps.ParentSlots? && parentslot < |p.ps.keys| && p.ps.keys[parentslot] == rn.sep
    requires HeldAt(p.left, ln, p.ls)
    modifies parent`slotkey, inner`slotuse, inner`slotkey, inner`childid, right`slotuse, right`slotkey, right`childid
    ensures RightShifted(p, t, ln, rn, l, r)
  {
    hide InnerHolds;
    l, r := ShiftLeftBeside(inner, right, parent, parentslot, rn.sep, p.ps, p.r, p.rs[0], t, rn.t, p.left, ln, p.ls, NodesOf(p.ls));
  }

  method ShiftLeftBeside(left: Node, right: Node, parent: Node, slot: nat, ghost sep: Key, ghost ps: ParentSlots,
                         ghost l: Ref, ghost r: Ref, ghost lt: Tree, ghost rt: Tree,
                         ghost x: Node?, ghost n: Neighbour, ghost xs: seq<Ref>, ghost side: set<Node>)
    returns (ghost l': Ref, ghost r': Ref)
    requires InnerPair(l, r, lt, rt) && l.n == left && r.n == right
    requires |lt.keys| < mininnerslots < |rt.keys| && |rt.keys| <= innerslotmax
    requires ParentHolds(parent, ps) && slot < |ps.keys| && ps.keys[slot] == sep && parent !in Nodes(l) + Nodes(r)
    requires side == NodesOf(xs) && left !in side && right !in side && parent !in side
    modifies parent`slotkey, left`slotuse, left`slotkey, left`childid, right`slotuse, right`slotkey, right`childid
    ensures var m := (|rt.keys| - |lt.keys|) / 2;
            && Pair(l', r', Inner(lt.level, lt.keys + [sep] + rt.keys[..m - 1], lt.kids + rt.kids[..m]),
                    Inner(lt.level, rt.keys[m..], rt.kids[m..]))
            && ParentHolds(parent, ps.(keys := ps.keys[slot := rt.keys[m - 1]]))
    ensures SameBelow(l, r, l', r', 0)
    ensures HeldAt(x, n, xs) == old(HeldAt(x, n, xs))
  {
    l', r' := ShiftLeftAcross(left, right, parent, slot, ps, l, r, lt, rt);
  }

  /** The two nodes and the parent after a shift from the right. */
  ghost predicate RightShifted(p: Place, t: Tree, ln: Neighbour, rn: Neighbour, l: Ref, r: Ref)
    reads NodesOf(p.ls)`level, NodesOf(p.ls)`slotuse, NodesOf(p.ls)`slotkey, NodesOf(p.ls)`slotdata, NodesOf(p.ls)`childid
    reads Just(p.parent)`level, Just(p.parent)`slotuse, Just(p.parent)`slotkey, Just(p.parent)`childid
    reads Nodes(l)`level, Nodes(l)`slotuse, Nodes(l)`slotkey, Nodes(l)`slotdata, Nodes(l)`childid
    reads Nodes(r)`level, Nodes(r)`slotuse, Nodes(r)`slotkey, Nodes(r)`slotdata, Nodes(r)`childid
  {
    && t.Inner? && rn.Sibling? && rn.t.Inner? && |rn.t.kids| == |rn.t.keys| + 1 && |p.rs| == 1
    && var rt := rn.t;
       var n := (|rt.keys| - |t.keys|) / 2;
       && 1 <= n <= |rt.keys| && p.ps.ParentSlots? && p.slot < |p.ps.keys| && p.ps.keys[p.slot] == rn.sep
       && Pair(l, r, Inner(t.level, t.keys + [rn.sep] + rt.keys[..n - 1], t.kids + rt.kids[..n]), Inner(t.level, rt.keys[n..], rt.kids[n..]))
       && ParentHolds(p.parent, p.ps.(keys := p.ps.keys[p.slot := rt.keys[n - 1]]))
       && SameBelow(p.r, p.rs[0], l, r, 0) && NodesOf(p.rs) == Nodes(p.rs[0]) && p.rs[0].n == p.right
       && HeldAt(p.left, ln, p.ls)
  }

  lemma {:induction false} InnerShiftedLeft(p: Place, t: Tree, ln: Neighbour, rn: Neighbour, lastkey: Option<Key>, l: Ref, r: Ref)
    requires t.Inner? && t.level >= 1 && |t.kids| == |t.keys| + 1 && |t.keys| < mininnerslots
    requires Context(t.level, ln, rn) && !AtRoot(ln, rn) && ChooseFix(ln, rn) == ShiftLeft
    requires PlaceApart(p) && p.parent != null && SlotsFit(p.parent, p.slot, p.r.n, p.left, ln, p.right, rn, p.ps)
    requires RightShifted(p, t, ln, rn, l, r)
    ensures var o, p' := FixInner(t, ln, rn, lastkey), RightFixed(p, l, r, FixInner(t, ln, rn, lastkey));
            && !o.fixmerge && PlaceAfter(p, p', o)
            && SameNodes(p, ln, rn, p', o) && SameSums(p, ln, rn, p', o, 0)
  {
    var o := FixInner(t, ln, rn, lastkey);
    InnerLeftOutcome(t, ln, rn, lastkey);
    SlotSet(p.ps, p.slot, o);
    PlaceRightFixed(p, l, r, ln, rn, o);
    SumsRightFixed(p, l, r, ln, rn, o, 0);
  }

  /** Children move from the left sibling into an underflowing inner node. */
  method ShiftInnerRight(left: Node, inner: Node, parent: Node, leftslot: nat,
                         ghost p: Place, ghost t: Tree, ghost ln: Neighbour, ghost rn: Neighbour, ghost lastkey: Option<Key>)
    returns (ghost p': Place)
    requires p.r.n == inner && p.left == left && p.parent == parent && p.slot == leftslot + 1
    requires InnerPlace(p, t, ln, rn) && ChooseFix(ln, rn) == ShiftRight
    modifies parent`slotkey, left`slotuse, inner`slotuse, inner`slotkey, inner`childid
    ensures var o := FixInner(t, ln, rn, lastkey);
            && !o.fixmerge && PlaceAfter(p, p', o)
            && SameNodes(p, ln, rn, p', o) && SameSums(p, ln, rn, p', o, 0)
  {
    TakeLeftPair(p, t, ln, rn);
    ghost var l, r := ShiftFromLeft(left, inner, parent, leftslot, p, t, ln, rn, NodesOf(p.rs));
    p' := LeftFixed(p, l, r, FixInner(t, ln, rn, lastkey));
    InnerShiftedRight(p, t, ln, rn, lastkey, l, r);
  }

  method ShiftFromLeft(left: Node, inner: Node, parent: Node, leftslot: nat,
                       ghost p: Place, ghost t: Tree, ghost ln: Neighbour, ghost rn: Neighbour, ghost side: set<Node>)
    returns (ghost l: Ref, ghost r: Ref)
    requires p.r.n == inner && p.left == left && p.parent == parent && p.slot == leftslot + 1 && side == NodesOf(p.rs)
    requires ln.Sibling? && |p.ls| == 1 && p.ls[0].n == left && InnerPair(p.ls[0], p.r, ln.t, t) && NodesOf(p.ls) == Nodes(p.ls[0])
    requires |t.keys| < mininnerslots < |ln.t.keys| <= innerslotmax
    requires PlaceApart(p) && ParentHolds(parent, p.ps) && p.ps.ParentSlots? && leftslot < |p.ps.keys| && p.ps.keys[leftslot] == ln.sep
    requires HeldAt(p.right, rn, p.rs)
    modifies parent`slotkey, left`slotuse, inner`slotuse, inner`slotkey, inner`childid
    ensures LeftShifted(p, t, ln, rn, l, r)
  {
    hide InnerHolds;
    l, r := ShiftRightBeside(left, inner, parent, leftslot, ln.sep, p.ps, p.ls[0], p.r, ln.t, t, p.right, rn, p.rs, NodesOf(p.rs));
  }

  method ShiftRightBeside(left: Node, right: Node, parent: Node, slot: nat, ghost sep: Key, ghost ps: ParentSlots,
                          ghost l: Ref, ghost r: Ref, ghost lt: Tree, ghost rt: Tree,
                          ghost x: Node?, ghost n: Neighbour, ghost xs: seq<Ref>, ghost side: set<Node>)
    returns (ghost l': Ref, ghost r': Ref)
    requires InnerPair(l, r, lt, rt) && l.n == left && r.n == right
    requires |rt.keys| < mininnerslots < |lt.keys| && |lt.keys| <= innerslotmax
    requires ParentHolds(parent, ps) && slot < |ps.keys| && ps.keys[slot] == sep && parent !in Nodes(l) + Nodes(r)
    requires side == NodesOf(xs) && left !in side && right !in side && parent !in side
    modifies parent`slotkey, left`slotuse, right`slotuse, right`slotkey, right`childid
    ensures var m := |lt.keys| - (|lt.keys| - |rt.keys|) / 2;
            && Pair(l', r', Inner(lt.level, lt.keys[..m], lt.kids[..m + 1]),
                    Inner(lt.level, lt.keys[m + 1..] + [sep] + rt.keys, lt.kids[m + 1..] + rt.kids))
            && ParentHolds(parent, ps.(keys := ps.keys[slot := lt.keys[m]]))
    ensures SameBelow(l, r, l', r', 0)
    ensures HeldAt(x, n, xs) == old(HeldAt(x, n, xs))
  {
    l', r' := ShiftRightAcross(left, right, parent, slot, ps, l, r, lt, rt);
  }

  ghost predicate LeftShifted(p: Place, t: Tree, ln: Neighbour, rn: Neighbour, l: Ref, r: Ref)
    reads NodesOf(p.rs)`level, NodesOf(p.rs)`slotuse, NodesOf(p.rs)`slotkey, NodesOf(p.rs)`slotdata, NodesOf(p.rs)`childid
    reads Just(p.parent)`level, Just(p.parent)`slotuse, Just(p.parent)`slotkey, Just(p.parent)`childid
    reads Nodes(l)`level, Nodes(l)`slotuse, Nodes(l)`slotkey, Nodes(l)`slotdata, Nodes(l)`childid
    reads Nodes(r)`level, Nodes(r)`slotuse, Nodes(r)`slotkey, Nodes(r)`slotdata, Nodes(r)`childid
  {
    && t.Inner? && ln.Sibling? && ln.t.Inner? && |ln.t.kids| == |ln.t.keys| + 1 && |p.ls| == 1
    && var lt := ln.t;
       var m := |lt.keys| - (|lt.keys| - |t.keys|) / 2;
       && 0 <= m < |lt.keys| && p.ps.ParentSlots? && 0 < p.slot <= |p.ps.keys| && p.ps.keys[p.slot - 1] == ln.sep
       && Pair(l, r, Inner(t.level, lt.keys[..m], lt.kids[..m + 1]), Inner(t.level, lt.keys[m + 1..] + [ln.sep] + t.keys, lt.kids[m + 1..] + t.kids))
       && ParentHolds(p.parent, p.ps.(keys := p.ps.keys[p.slot - 1 := lt.keys[m]]))
       && SameBelow(p.ls[0], p.r, l, r, 0) && NodesOf(p.ls) == Nodes(p.ls[0]) && p.ls[0].n == p.left
       && HeldAt(p.right, rn, p.rs)
  }

  lemma {:induction false} InnerShiftedRight(p: Place, t: Tree, ln: Neighbour, rn: Neighbour, lastkey: Option<Key>, l: Ref, r: Ref)
    requires t.Inner? && t.level >= 1 && |t.kids| == |t.keys| + 1 && |t.keys| < mininnerslots
    requires Context(t.level, ln, rn) && !AtRoot(ln, rn) && ChooseFix(ln, rn) == ShiftRight
    requires PlaceApart(p) && p.parent != null && SlotsFit(p.parent, p.slot, p.r.n, p.left, ln, p.right, rn, p.ps)
    requires LeftShifted(p, t, ln, rn, l, r)
    ensures var o, p' := FixInner(t, ln, rn, lastkey), LeftFixed(p, l, r, FixInner(t, ln, rn, lastkey));
            && !o.fixmerge && PlaceAfter(p, p', o)
            && SameNodes(p, ln, rn, p', o) && SameSums(p, ln, rn, p', o, 0)
  {
    var o := FixInner(t, ln, rn, lastkey);
    InnerRightOutcome(t, ln, rn, lastkey);
    SlotSet(p.ps, p.slot, o);
    PlaceLeftFixed(p, l, r, ln, rn, o);
    SumsLeftFixed(p, l, r, ln, rn, o, 0);
  }

  lemma {:induction false} TakeLeftLeaves(p: Place, items: seq<Item>, ln: Neighbour, rn: Neighbour)
    requires LeafPlace(p, items, ln, rn) && ln.Sibling?
    ensures p.left != null && p.parent != null && p.ls == [LeafRef(p.left)] && p.r == LeafRef(p.r.n) && p.left != p.r.n
    ensures ln.t.Leaf? && LeafHolds(p.left, ln.t.items) && LeafHolds(p.r.n, items) && p.parent != p.left && p.parent != p.r.n
    ensures NodesOf(p.ls) == {p.left} && LeavesOf(p.ls) == [p.left] && InnerCountOf(p.ls) == 0
    ensures p.slot > 0 && p.ps.ParentSlots? && p.slot <= |p.ps.keys| && p.ps.keys[p.slot - 1] == ln.sep
  {
    NeighbourLeaf(p.left, ln, p.ls);
  }

  lemma {:induction false} TakeRightLeaves(p: Place, items: seq<Item>, ln: Neighbour, rn: Neighbour)
    requires LeafPlace(p, items, ln, rn) && rn.Sibling?
    ensures p.right != null && p.parent != null && p.rs == [LeafRef(p.right)] && p.r == LeafRef(p.r.n) && p.right != p.r.n
    ensures rn.t.Leaf? && LeafHolds(p.right, rn.t.items) && LeafHolds(p.r.n, items) && p.parent != p.right && p.parent != p.r.n
    ensures NodesOf(p.rs) == {p.right} && LeavesOf(p.rs) == [p.right] && InnerCountOf(p.rs) == 0
    ensures p.ps.ParentSlots? && p.slot < |p.ps.keys| && p.ps.keys[p.slot] == rn.sep
  {
    NeighbourLeaf(p.right, rn, p.rs);
  }

  method ShiftItemsLeft(left: Node, right: Node, parent: Node, slot: nat, ghost ps: ParentSlots, ghost li: seq<Item>, ghost ri: seq<Item>)
    requires left != right && LeafHolds(left, li) && LeafHolds(right, ri) && |li| < minleafslots < |ri|
    requires ParentHolds(parent, ps) && slot < |ps.keys| && parent != left && parent != right
    modifies parent`slotkey, left`slotuse, left`slotkey, left`slotdata, right`slotuse, right`slotkey, right`slotdata
    ensures var n := (|ri| - |li|) / 2;
            && LeafHolds(left, li + ri[..n]) && LeafHolds(right, ri[n..])
            && ParentHolds(parent, ps.(keys := ps.keys[slot := LastKey(li + ri[..n])]))
  {
    ShiftLeftLeafSlots(left, right, (right.slotuse - left.slotuse) / 2, li, ri);
    SetKey(parent, slot, left.slotkey[left.slotuse - 1], ps.level, ps.keys, ps.childs);
  }

  method ShiftItemsRight(left: Node, right: Node, parent: Node, slot: nat, ghost ps: ParentSlots, ghost li: seq<Item>, ghost ri: seq<Item>)
    requires left != right && LeafHolds(left, li) && LeafHolds(right, ri) && |ri| < minleafslots < |li|
    requires ParentHolds(parent, ps) && slot < |ps.keys| && parent != left && parent != right
    modifies parent`slotkey, left`slotuse, right`slotuse, right`slotkey, right`slotdata
    ensures var l := li[..|li| - (|li| - |ri|) / 2];
            && LeafHolds(left, l) && LeafHolds(right, li[|l|..] + ri)
            && ParentHolds(parent, ps.(keys := ps.keys[slot := LastKey(l)]))
  {
    ShiftRightLeafSlots(left, right, (left.slotuse - right.slotuse) / 2, li, ri);
    SetKey(parent, slot, left.slotkey[left.slotuse - 1], ps.level, ps.keys, ps.childs);
  }

  /** Items move from the right sibling into an underflowing leaf. */
  lemma {:induction false} LeftShiftFacts(p: Place, items: seq<Item>, ln: Neighbour, rn: Neighbour)
    requires LeafPlace(p, items, ln, rn) && ChooseFix(ln, rn) == ShiftLeft
    ensures rn.Sibling? && rn.t.Leaf? && |items| < minleafslots < |rn.t.items| && !AtRoot(ln, rn) && Context(0, ln, rn) && p.parent != null
    ensures PlaceApart(p) && SlotsFit(p.parent, p.slot, p.r.n, p.left, ln, p.right, rn, p.ps) && ParentHolds(p.parent, p.ps)
    ensures HeldAt(p.left, ln, p.ls) && p.r.n !in NodesOf(p.ls) && p.right !in NodesOf(p.ls) && p.parent !in NodesOf(p.ls)
  {
    TakeRightLeaves(p, items, ln, rn);
  }

  method ShiftLeafLeft(leaf: Node, right: Node, parent: Node, parentslot: nat,
                       ghost p: Place, ghost items: seq<Item>, ghost ln: Neighbour, ghost rn: Neighbour, ghost lastkey: Option<Key>)
    returns (ghost p': Place)
    requires p.r == LeafRef(leaf) && p.right == right && p.parent == parent && p.slot == parentslot
    requires LeafPlace(p, items, ln, rn) && ChooseFix(ln, rn) == ShiftLeft
    modifies parent`slotkey, leaf`slotuse, leaf`slotkey, leaf`slotdata, right`slotuse, right`slotkey, right`slotdata
    ensures var o := FixLeaf(items, ln, rn, lastkey);
            && !o.fixmerge && PlaceAfter(p, p', o) && SameNodes(p, ln, rn, p', o) && SameSums(p, ln, rn, p', o, 0)
  {
    hide LeafPlace, PlaceApart, SlotsFit, HeldAt, Context, ParentHolds, LeafHolds, FixLeaf, PlaceAfter, SameNodes, SameSums;
    LeftShiftFacts(p, items, ln, rn);
    TakeRightLeaves(p, items, ln, rn);
    LeafLeftOutcome(items, ln, rn, lastkey);
    ShiftItemsLeftBeside(leaf, right, parent, parentslot, p.ps, items, rn.t.items, p.left, ln, p.ls, NodesOf(p.ls));
    p' := RightFixed(p, LeafRef(leaf), LeafRef(right), FixLeaf(items, ln, rn, lastkey));
    LeafShiftedLeft(leaf, right, p, items, ln, rn, lastkey);
  }

  lemma {:induction false} LeafShiftedLeft(leaf: Node, right: Node, p: Place, items: seq<Item>, ln: Neighbour, rn: Neighbour, lastkey: Option<Key>)
    requires p.r == LeafRef(leaf) && p.right == right && p.rs == [LeafRef(right)] && leaf != right
    requires PlaceApart(p) && p.parent != null && SlotsFit(p.parent, p.slot, p.r.n, p.left, ln, p.right, rn, p.ps) && HeldAt(p.left, ln, p.ls)
    requires Context(0, ln, rn) && |items| < minleafslots && !AtRoot(ln, rn) && ChooseFix(ln, rn) == ShiftLeft
    requires rn.Sibling? && rn.t.Leaf? && |rn.t.items| > minleafslots && p.ps.ParentSlots? && p.slot < |p.ps.keys|
    requires var m := (|rn.t.items| - |items|) / 2;
             && LeafHolds(leaf, items + rn.t.items[..m]) && LeafHolds(right, rn.t.items[m..])
             && ParentHolds(p.parent, p.ps.(keys := p.ps.keys[p.slot := LastKey(items + rn.t.items[..m])]))
    ensures var o, p' := FixLeaf(items, ln, rn, lastkey), RightFixed(p, LeafRef(leaf), LeafRef(right), FixLeaf(items, ln, rn, lastkey));
            && !o.fixmerge && PlaceAfter(p, p', o) && SameNodes(p, ln, rn, p', o) && SameSums(p, ln, rn, p', o, 0)
  {
    LeafLeftOutcome(items, ln, rn, lastkey);
    LeafShiftedPlace(leaf, right, p, ln, rn, FixLeaf(items, ln, rn, lastkey));
  }

  lemma {:induction false} LeafLeftOutcome(items: seq<Item>, ln: Neighbour, rn: Neighbour, lastkey: Option<Key>)
    requires Context(0, ln, rn) && |items| < minleafslots && !AtRoot(ln, rn) && ChooseFix(ln, rn) == ShiftLeft
    ensures rn.Sibling? && rn.t.Leaf? && |rn.t.items| > minleafslots
    ensures var n := (|rn.t.items| - |items|) / 2;
            FixLeaf(items, ln, rn, lastkey) ==
            Erased(Leaf(items + rn.t.items[..n]), ln, Sibling(Leaf(rn.t.items[n..]), LastKey(items + rn.t.items[..n])), lastkey, false)
  {
  }

  lemma {:induction false} LeafRightOutcome(items: seq<Item>, ln: Neighbour, rn: Neighbour, lastkey: Option<Key>)
    requires Context(0, ln, rn) && |items| < minleafslots && !AtRoot(ln, rn) && ChooseFix(ln, rn) == ShiftRight
    ensures ln.Sibling? && ln.t.Leaf? && |ln.t.items| > minleafslots
    ensures var m := |ln.t.items| - (|ln.t.items| - |items|) / 2;
            FixLeaf(items, ln, rn, lastkey) ==
            Erased(Leaf(ln.t.items[m..] + items), Sibling(Leaf(ln.t.items[..m]), LastKey(ln.t.items[..m])), rn, lastkey, false)
  {
  }

  method ShiftItemsLeftBeside(left: Node, right: Node, parent: Node, slot: nat, ghost ps: ParentSlots, ghost li: seq<Item>, ghost ri: seq<Item>,
                              ghost x: Node?, ghost n: Neighbour, ghost xs: seq<Ref>, ghost side: set<Node>)
    requires left != right && LeafHolds(left, li) && LeafHolds(right, ri) && |li| < minleafslots < |ri|
    requires ParentHolds(parent, ps) && slot < |ps.keys| && parent != left && parent != right
    requires side == NodesOf(xs) && left !in side && right !in side && parent !in side
    modifies parent`slotkey, left`slotuse, left`slotkey, left`slotdata, right`slotuse, right`slotkey, right`slotdata
    ensures var m := (|ri| - |li|) / 2;
            && LeafHolds(left, li + ri[..m]) && LeafHolds(right, ri[m..])
            && ParentHolds(parent, ps.(keys := ps.keys[slot := LastKey(li + ri[..m])]))
    ensures HeldAt(x, n, xs) == old(HeldAt(x, n, xs))
  {
    ShiftItemsLeft(left, right, parent, slot, ps, li, ri);
  }

  /** A leaf and its right sibling after a shift between them. */
  lemma {:induction false} LeafShiftedPlace(leaf: Node, right: Node, p: Place, ln: Neighbour, rn: Neighbour, o: Outcome)
    requires p.r == LeafRef(leaf) && p.right == right && p.rs == [LeafRef(right)] && leaf != right
    requires PlaceApart(p) && p.parent != null && SlotsFit(p.parent, p.slot, p.r.n, p.left, ln, p.right, rn, p.ps) && HeldAt(p.left, ln, p.ls)
    requires rn.Sibling? && o.Erased? && o.right.Sibling? && o.left == ln && !o.fixmerge && o.curr.Leaf? && o.right.t.Leaf?
    requires LeafHolds(leaf, o.curr.items) && LeafHolds(right, o.right.t.items)
    requires p.ps.ParentSlots? && p.slot < |p.ps.keys| && p.ps.keys[p.slot] == rn.sep && (ln.Sibling? ==> p.ps.keys[p.slot - 1] == ln.sep)
    requires ParentHolds(p.parent, p.ps.(keys := p.ps.keys[p.slot := o.right.sep]))
    ensures var p' := RightFixed(p, LeafRef(leaf), LeafRef(right), o);
            PlaceAfter(p, p', o) && SameNodes(p, ln, rn, p', o) && SameSums(p, ln, rn, p', o, 0)
  {
    NodesOfOne(LeafRef(right));
    SlotSet(p.ps, p.slot, o);
    PlaceRightFixed(p, LeafRef(leaf), LeafRef(right), ln, rn, o);
    SumsRightFixed(p, LeafRef(leaf), LeafRef(right), ln, rn, o, 0);
  }

  /** Items move from the left sibling into an underflowing leaf. */
  method ShiftLeafRight(left: Node, leaf: Node, parent: Node, leftslot: nat,
                        ghost p: Place, ghost items: seq<Item>, ghost ln: Neighbour, ghost rn: Neighbour, ghost lastkey: Option<Key>)
    returns (ghost p': Place)
    requires p.r == LeafRef(leaf) && p.left == left && p.parent == parent && p.slot == leftslot + 1
    requires LeafPlace(p, items, ln, rn) && ChooseFix(ln, rn) == ShiftRight
    modifies parent`slotkey, left`slotuse, leaf`slotuse, leaf`slotkey, leaf`slotdata
    ensures var o := FixLeaf(items, ln, rn, lastkey);
            && !o.fixmerge && PlaceAfter(p, p', o) && SameNodes(p, ln, rn, p', o) && SameSums(p, ln, rn, p', o, 0)
  {
    hide FixLeaf, ChooseFix;
    ghost var o := FixLeaf(items, ln, rn, lastkey);
    LeafRightOutcome(items, ln, rn, lastkey);
    TakeLeftLeaves(p, items, ln, rn);
    ShiftItemsRight(left, leaf, parent, leftslot, p.ps, ln.t.items, items);
    assert Pair(LeafRef(left), LeafRef(leaf), o.left.t, o.curr);
    SlotSet(p.ps, p.slot, o);
    PlaceLeftFixed(p, LeafRef(left), LeafRef(leaf), ln, rn, o);
    SumsLeftFixed(p, LeafRef(left), LeafRef(leaf), ln, rn, o, 0);
    p' := LeftFixed(p, LeafRef(left), LeafRef(leaf), o);
  }

  lemma {:induction false} LeafNeighbours(p: Place, items: seq<Item>, ln: Neighbour, rn: Neighbour)
    requires LeafPlace(p, items, ln, rn)
    ensures !ln.Nobody? ==> p.left != null && p.left.slotuse == SlotUse(ln.t) && MinFill(ln.t) == minleafslots
    ensures !rn.Nobody? ==> p.right != null && p.right.slotuse == SlotUse(rn.t) && MinFill(rn.t) == minleafslots
    ensures (ln.Nobody? ==> p.left == null) && (rn.Nobody? ==> p.right == null) && p.r.LeafRef?
  {
    if !ln.Nobody? { NeighbourLeaf(p.left, ln, p.ls); }
    if !rn.Nobody? { NeighbourLeaf(p.right, rn, p.rs); }
  }

  lemma {:induction false} InnerNeighbours(p: Place, t: Tree, ln: Neighbour, rn: Neighbour)
    requires InnerPlace(p, t, ln, rn)
    ensures !ln.Nobody? ==> p.left != null && p.left.slotuse == SlotUse(ln.t) && MinFill(ln.t) == mininnerslots
    ensures !rn.Nobody? ==> p.right != null && p.right.slotuse == SlotUse(rn.t) && MinFill(rn.t) == mininnerslots
    ensures (ln.Nobody? ==> p.left == null) && (rn.Nobody? ==> p.right == null)
  {
    if !ln.Nobody? { NeighbourInner(p.left, ln, p.ls, t.level); }
    if !rn.Nobody? { NeighbourInner(p.right, rn, p.rs, t.level); }
  }

  ghost function SiblingNode(x: Neighbour, n: Node?): set<Node> {
    if x.Sibling? then Just(n) else {}
  }

  /** Repair an underflowing inner node that is not the root. */
  method FixInnerNode(inner: Node, left: Node?, right: Node?, leftparent: Node?, rightparent: Node?, parent: Node, parentslot: nat,
                      ghost p: Place, ghost t: Tree, ghost ln: Neighbour, ghost rn: Neighbour, ghost lastkey: Option<Key>)
    returns (fixmerge: bool, ghost p': Place)
    requires p.r.n == inner && p.left == left && p.right == right && p.parent == parent && p.slot == parentslot
    requires InnerPlace(p, t, ln, rn) && Kin(parent, leftparent, rightparent, ln, rn)
    modifies inner`slotuse, inner`slotkey, inner`childid, parent`slotkey
    modifies SiblingNode(ln, left)`slotuse, SiblingNode(ln, left)`slotkey, SiblingNode(ln, left)`childid
    modifies SiblingNode(rn, right)`slotuse, SiblingNode(rn, right)`slotkey, SiblingNode(rn, right)`childid
    ensures var o := FixInner(t, ln, rn, lastkey);
            && fixmerge == o.fixmerge && PlaceAfter(p, p', o)
            && SameNodes(p, ln, rn, p', o) && SameSums(p, ln, rn, p', o, if fixmerge then 1 else 0)
  {
    InnerNeighbours(p, t, ln, rn);
    var f := PickFix(left, right, leftparent, rightparent, parent, mininnerslots, ln, rn);
    fixmerge := f == MergeLeft || f == MergeRight;
    match f
    case MergeLeft =>
      p' := MergeInnerLeft(left, inner, parent, parentslot - 1, p, t, ln, rn, lastkey);
    case MergeRight =>
      p' := MergeInnerRight(inner, right, parent, parentslot, p, t, ln, rn, lastkey);
    case ShiftLeft =>
      p' := ShiftInnerLeft(inner, right, parent, parentslot, p, t, ln, rn, lastkey);
    case ShiftRight =>
      p' := ShiftInnerRight(left, inner, parent, parentslot - 1, p, t, ln, rn, lastkey);
  }

  /** A place whose parent has taken `key` as the separator behind the node. */
  ghost function Rekeyed(p: Place, key: Key): Place {
    if p.ps.ParentSlots? && p.slot < |p.ps.keys| then p.(ps := p.ps.(keys := p.ps.keys[p.slot := key])) else p
  }

  /** The last key below a node has changed: its parent takes the new one, or
      else the level above is told. */
  method PassKeyUp(parent: Node?, parentslot: nat, key: Key, ghost p: Place, ghost t: Tree, ghost ln: Neighbour, ghost rn: Neighbour)
    returns (lastkey: Option<Key>)
    requires PlaceHolds(p, t, ln, rn) && p.parent == parent && p.slot == parentslot
    modifies Just(parent)`slotkey
    ensures rn.Sibling? ==> lastkey == None && PlaceHolds(Rekeyed(p, key), t, ln, rn.(sep := key))
    ensures !rn.Sibling? ==> lastkey == Some(key) && PlaceHolds(p, t, ln, rn)
  {
    if parent != null && parentslot < parent.slotuse {
      SetKey(parent, parentslot, key, p.ps.level, p.ps.keys, p.ps.childs);
      lastkey := None;
    } else {
      lastkey := Some(key);
    }
  }

  lemma {:induction false} AfterRekey(p: Place, p': Place, key: Key, o: Outcome)
    requires PlaceAfter(Rekeyed(p, key), p', o) && o.right.Sibling?
    ensures PlaceAfter(p, p', o)
  {
  }

  /** The right neighbour once the parent may have taken a new separator. */
  ghost function RightAfter(items: seq<Item>, slot: nat, rn: Neighbour): Neighbour {
    if slot == |items| && rn.Sibling? then rn.(sep := LastKey(items)) else rn
  }

  ghost function PlaceWithKey(p: Place, items: seq<Item>, slot: nat, rn: Neighbour): Place {
    if slot == |items| && rn.Sibling? then Rekeyed(p, LastKey(items)) else p
  }

  /** Take an item out of a leaf; if it was the last one, pass the new last key up. */
  method EraseItem(leaf: Node, slot: nat, parent: Node?, parentslot: nat, ghost p: Place, ghost items: seq<Item>, ghost ln: Neighbour, ghost rn: Neighbour)
    returns (lastkey: Option<Key>)
    requires p.r == LeafRef(leaf) && p.parent == parent && p.slot == parentslot && PlaceHolds(p, Leaf(items), ln, rn)
    requires slot < |items| && (parent != null ==> |items| >= 2)
    modifies leaf`slotuse, leaf`slotkey, leaf`slotdata, Just(parent)`slotkey
    ensures var items' := RemoveAt(items, slot);
            && PlaceHolds(PlaceWithKey(p, items', slot, rn), Leaf(items'), ln, RightAfter(items', slot, rn))
            && lastkey == if slot == |items'| && !rn.Sibling? && items' != [] then Some(LastKey(items')) else None
  {
    ghost var items' := RemoveAt(items, slot);
    EraseFromLeaf(leaf, slot, items);
    lastkey := None;
    assert PlaceHolds(p, Leaf(items'), ln, rn);
    if slot == leaf.slotuse && (parent != null || leaf.slotuse >= 1) {
      lastkey := PassKeyUp(parent, parentslot, leaf.slotkey[leaf.slotuse - 1], p, Leaf(items'), ln, rn);
    }
  }

  /** When a leaf needs no repair, and what its level tells the one above. */
  lemma {:induction false} FixLeafCases(items: seq<Item>, ln: Neighbour, rn: Neighbour, lastkey: Option<Key>)
    requires Context(0, ln, rn)
    ensures var o := FixLeaf(items, ln, rn, lastkey);
            && (AtRoot(ln, rn) && items == [] ==> o == Erased(Leaf([]), ln, rn, None, false))
            && (!AtRoot(ln, rn) || items != [] ==> o.lastkey == lastkey)
            && (|items| >= minleafslots || (AtRoot(ln, rn) && items != []) ==> o == Erased(Leaf(items), ln, rn, lastkey, false))
  {
  }

  /** A node that a search for a key may enter in order to erase it. */
  ghost predicate Erasable(t: Tree, ln: Neighbour, rn: Neighbour) {
    Shape(t, 1) && Sorted(Items(t)) && Context(Level(t), ln, rn) && SeparatorsOk(t, ln, rn)
  }

  /** Search a leaf for the key and take it out. */
  method EraseKey(leaf: Node, key: Key, parent: Node?, parentslot: nat, ghost p: Place, ghost items: seq<Item>, ghost ln: Neighbour, ghost rn: Neighbour)
    returns (found: bool, lastkey: Option<Key>, ghost p': Place, ghost items': seq<Item>, ghost rn': Neighbour, ghost newlast: Key)
    requires p.r == LeafRef(leaf) && p.parent == parent && p.slot == parentslot && PlaceHolds(p, Leaf(items), ln, rn)
    requires Erasable(Leaf(items), ln, rn) && (parent == null <==> AtRoot(ln, rn))
    modifies leaf`slotuse, leaf`slotkey, leaf`slotdata, Just(parent)`slotkey
    ensures found == EraseLeaf(items, key, ln, rn).Erased?
    ensures !found ==> PlaceHolds(p, Leaf(items), ln, rn)
    ensures found ==>
              && Context(0, ln, rn') && EraseLeaf(items, key, ln, rn) == FixLeaf(items', ln, rn', lastkey)
              && PlaceHolds(p', Leaf(items'), ln, rn')
              && ((p' == p && rn' == rn) || (rn.Sibling? && p' == Rekeyed(p, newlast) && rn' == rn.(sep := newlast)))
  {
    p', items', rn', newlast := p, items, rn, 0;
    var slot;
    slot, found := FindInPlace(leaf, key, p, items, ln, rn, PlaceNodes(p));
    ErasedItem(items, key, ln, rn);
    lastkey := None;
    if found {
      items' := RemoveAt(items, slot);
      rn', newlast := RightAfter(items', slot, rn), LastKey(items');
      p' := PlaceWithKey(p, items', slot, rn);
      lastkey := EraseItem(leaf, slot, parent, parentslot, p, items, ln, rn);
    }
  }

  /** The search in a leaf at its place, whose nodes are `nodes`. */
  method FindInPlace(leaf: Node, key: Key, ghost p: Place, ghost items: seq<Item>, ghost ln: Neighbour, ghost rn: Neighbour, ghost nodes: set<Node>)
    returns (slot: nat, found: bool)
    requires nodes == PlaceNodes(p) && p.r == LeafRef(leaf) && PlaceHolds(p, Leaf(items), ln, rn) && Sorted(items)
    ensures slot == LowerSlot(Keys(items), key) && found == Found(items, key)
    ensures PlaceHolds(p, Leaf(items), ln, rn) == old(PlaceHolds(p, Leaf(items), ln, rn))
  {
    slot, found := FindInLeaf(leaf, key, items);
  }

  method FindInLeaf(leaf: Node, key: Key, ghost items: seq<Item>) returns (slot: nat, found: bool)
    requires LeafHolds(leaf, items) && Sorted(items)
    ensures slot == LowerSlot(Keys(items), key) && found == Found(items, key)
  {
    KeysOfLeaf(leaf, items);
    slot := FindLower(leaf, key);
    found := slot < leaf.slotuse && leaf.slotkey[slot] == key;
  }

  lemma {:induction false} ErasedItem(items: seq<Item>, key: Key, ln: Neighbour, rn: Neighbour)
    requires Context(0, ln, rn)
    ensures EraseLeaf(items, key, ln, rn).Erased? == Found(items, key)
    ensures Found(items, key) ==>
              var slot := LowerSlot(Keys(items), key);
              var items', rn' := RemoveAt(items, slot), RightAfter(RemoveAt(items, slot), slot, rn);
              && Context(0, ln, rn')
              && EraseLeaf(items, key, ln, rn) ==
                 FixLeaf(items', ln, rn', if slot == |items'| && !rn.Sibling? && items' != [] then Some(LastKey(items')) else None)
  {
    if Found(items, key) {
      EraseLeafIs(items, key, LowerSlot(Keys(items), key), ln, rn);
    } else {
      NothingErased(items, key, ln, rn);
    }
  }

  lemma {:induction false} NothingErased(items: seq<Item>, key: Key, ln: Neighbour, rn: Neighbour)
    requires Context(0, ln, rn) && !Found(items, key)
    ensures EraseLeaf(items, key, ln, rn) == NotFound
  {
  }
}
