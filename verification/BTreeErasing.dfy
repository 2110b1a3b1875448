/** What surrounds a node while a key is erased below it: its neighbours, and the
    slots of its parent beside it. */
module BTreeErasing {
  import opened Sequences
  import opened OrderedItems
  import opened BTreeModel
  import opened BTreeErase
  import opened BTreeNode
  import opened BTreeRefs

  /** The slots of a node's parent, if it has one. */
  datatype ParentSlots = NoParent | ParentSlots(level: nat, keys: seq<Key>, childs: seq<Node>)

  /** The node `n`, null or not, holds the neighbour `x`. */
  ghost predicate HeldAt(n: Node?, x: Neighbour, xs: seq<Ref>)
    reads NodesOf(xs)`level, NodesOf(xs)`slotuse, NodesOf(xs)`slotkey, NodesOf(xs)`slotdata, NodesOf(xs)`childid
  {
    if x.Nobody? then n == null && xs == []
    else n != null && HoldsAll(xs, [x.t]) && xs != [] && xs[0].n == n
  }

  ghost function Just(n: Node?): set<Node> {
    if n == null then {} else {n}
  }

  /** How the parent's slots fit the neighbours of child `slot`, which is `n`. */
  ghost predicate SlotsFit(parent: Node?, slot: nat, n: Node, left: Node?, ln: Neighbour, right: Node?, rn: Neighbour, ps: ParentSlots) {
    if parent == null then ps.NoParent? && AtRoot(ln, rn)
    else
      && ps.ParentSlots? && |ps.childs| == |ps.keys| + 1 && slot < |ps.childs| && ps.childs[slot] == n
      && (ln.Sibling? <==> slot > 0) && (ln.Sibling? ==> ps.childs[slot - 1] == left && ps.keys[slot - 1] == ln.sep)
      && (rn.Sibling? <==> slot < |ps.keys|) && (rn.Sibling? ==> ps.childs[slot + 1] == right && ps.keys[slot] == rn.sep)
  }

  /** The parent, if there is one, holds its slots. */
  ghost predicate ParentHolds(parent: Node?, ps: ParentSlots)
    reads Just(parent)`level, Just(parent)`slotuse, Just(parent)`slotkey, Just(parent)`childid
  {
    parent != null ==> ps.ParentSlots? && InnerHolds(parent, ps.level, ps.keys, ps.childs)
  }

  /** Where an erasing call works: the node, its neighbours and its parent. */
  datatype Place = Place(r: Ref, left: Node?, ls: seq<Ref>, right: Node?, rs: seq<Ref>, parent: Node?, slot: nat, ps: ParentSlots)

  ghost function PlaceNodes(p: Place): set<Node> {
    Nodes(p.r) + NodesOf(p.ls) + NodesOf(p.rs) + Just(p.parent)
  }

  ghost predicate PlaceApart(p: Place) {
    && Nodes(p.r) !! NodesOf(p.ls) && Nodes(p.r) !! NodesOf(p.rs) && NodesOf(p.ls) !! NodesOf(p.rs)
    && (p.parent != null ==> p.parent !in Nodes(p.r) && p.parent !in NodesOf(p.ls) && p.parent !in NodesOf(p.rs))
  }

  /** The nodes at a place hold a tree and its neighbours. */
  ghost predicate PlaceHolds(p: Place, t: Tree, ln: Neighbour, rn: Neighbour)
    reads PlaceNodes(p)`level, PlaceNodes(p)`slotuse, PlaceNodes(p)`slotkey, PlaceNodes(p)`slotdata, PlaceNodes(p)`childid
  {
    && PlaceApart(p)
    && Holds(p.r, t) && HeldAt(p.left, ln, p.ls) && HeldAt(p.right, rn, p.rs)
    && SlotsFit(p.parent, p.slot, p.r.n, p.left, ln, p.right, rn, p.ps) && ParentHolds(p.parent, p.ps)
  }

  /** The parents of the neighbours, as the call is given them. */
  ghost predicate Kin(parent: Node?, leftparent: Node?, rightparent: Node?, ln: Neighbour, rn: Neighbour) {
    && (ln.Nobody? <==> leftparent == null) && (rn.Nobody? <==> rightparent == null)
    && (parent == null <==> AtRoot(ln, rn))
    && (parent != null ==> (ln.Sibling? <==> leftparent == parent) && (rn.Sibling? <==> rightparent == parent))
  }

  /** The leaves that a sibling contributes to the stretch of the chain in question. */
  ghost function SideLeaves(x: Neighbour, xs: seq<Ref>): seq<Node> {
    if x.Sibling? then LeavesOf(xs) else []
  }

  ghost function Stretch(p: Place, ln: Neighbour, rn: Neighbour): seq<Node> {
    SideLeaves(ln, p.ls) + Leaves(p.r) + SideLeaves(rn, p.rs)
  }

  ghost function SideCount(x: Neighbour, xs: seq<Ref>): nat {
    if x.Sibling? then InnerCountOf(xs) else 0
  }

  ghost function StretchCount(p: Place, ln: Neighbour, rn: Neighbour): nat {
    SideCount(ln, p.ls) + InnerCount(p.r) + SideCount(rn, p.rs)
  }

  /** The separators of the parent after a call on child `slot`. */
  ghost function NewSlots(ps: ParentSlots, slot: nat, o: Outcome): ParentSlots
    requires o.Erased?
  {
    if ps.NoParent? || |ps.keys| < slot || (o.left.Sibling? && slot == 0) || (o.right.Sibling? && slot == |ps.keys|) then ps
    else
      var keys := if o.left.Sibling? then ps.keys[slot - 1 := o.left.sep] else ps.keys;
      ps.(keys := if o.right.Sibling? then keys[slot := o.right.sep] else keys)
  }

  /** A neighbour of a leaf is a leaf. */
  lemma {:induction false} NeighbourLeaf(n: Node, x: Neighbour, xs: seq<Ref>)
    requires HeldAt(n, x, xs) && Fits(0, x) && !x.Nobody?
    ensures xs == [LeafRef(n)] && x.t.Leaf? && LeafHolds(n, x.t.items)
    ensures NodesOf(xs) == {n} && LeavesOf(xs) == [n]
  {
    HoldsAllLength(xs, [x.t]);
    assert xs == [xs[0]];
    HoldsAllOne(xs[0], x.t);
    NodesOfOne(xs[0]);
  }

  lemma {:induction false} OneEmpty(n: Node, t: Tree)
    requires SlotUse(t) == 0 && Items(t) == [] && n.slotuse == 0 && n.level == Level(t)
    ensures Holds(EmptyRef(n), t) && HoldsAll([EmptyRef(n)], [t])
    ensures NodesOf([EmptyRef(n)]) == {n} && LeavesOf([EmptyRef(n)]) == [] && InnerCountOf([EmptyRef(n)]) == 0
  {
    HoldsAllOne(EmptyRef(n), t);
    NodesOfOne(EmptyRef(n));
  }

  /** Separators that a call has not changed are where they were. */
  lemma {:induction false} SlotsKept(ps: ParentSlots, slot: nat, o: Outcome)
    requires o.Erased?
    requires ps.ParentSlots? && slot <= |ps.keys|
    requires o.left.Sibling? ==> slot > 0 && o.left.sep == ps.keys[slot - 1]
    requires o.right.Sibling? ==> slot < |ps.keys| && o.right.sep == ps.keys[slot]
    ensures NewSlots(ps, slot, o) == ps
  {
    var keys := if o.left.Sibling? then ps.keys[slot - 1 := o.left.sep] else ps.keys;
    assert keys == ps.keys;
    assert o.right.Sibling? ==> keys[slot := o.right.sep] == keys;
  }

  /** One separator changed, the one on the left or the one on the right. */
  lemma {:induction false} SlotSet(ps: ParentSlots, slot: nat, o: Outcome)
    requires o.Erased?
    requires ps.ParentSlots? && slot <= |ps.keys|
    requires o.left.Sibling? ==> slot > 0
    requires o.right.Sibling? ==> slot < |ps.keys|
    ensures (o.left.Sibling? ==> o.left.sep == ps.keys[slot - 1]) && o.right.Sibling? ==>
              NewSlots(ps, slot, o) == ps.(keys := ps.keys[slot := o.right.sep])
    ensures (o.right.Sibling? ==> o.right.sep == ps.keys[slot]) && o.left.Sibling? ==>
              NewSlots(ps, slot, o) == ps.(keys := ps.keys[slot - 1 := o.left.sep])
  {
    var keys := if o.left.Sibling? then ps.keys[slot - 1 := o.left.sep] else ps.keys;
    if (o.left.Sibling? ==> o.left.sep == ps.keys[slot - 1]) && o.right.Sibling? {
      assert keys == ps.keys;
    }
    if (o.right.Sibling? ==> o.right.sep == ps.keys[slot]) && o.left.Sibling? {
      assert o.right.Sibling? ==> keys[slot := o.right.sep] == keys;
    }
  }

  /** The same place once a call has returned. */
  ghost predicate PlaceAfter(p: Place, p': Place, o: Outcome)
    reads PlaceNodes(p')`level, PlaceNodes(p')`slotuse, PlaceNodes(p')`slotkey, PlaceNodes(p')`slotdata, PlaceNodes(p')`childid
  {
    && o.Erased?
    && p'.left == p.left && p'.right == p.right && p'.parent == p.parent && p'.slot == p.slot
    && p'.ps == NewSlots(p.ps, p.slot, o)
    && PlaceHolds(p', o.curr, o.left, o.right)
  }

  /** Taking the second of two neighbouring leaves out of the chain. */
  lemma {:induction false} ChainWithout<T>(pre: seq<T>, a: T, b: T, r: seq<T>, post: seq<T>, chain: seq<T>)
    requires chain == pre + ([a] + [b] + r) + post
    ensures |pre| + 1 < |chain| && chain[|pre|] == a && chain[|pre| + 1] == b
    ensures RemoveAt(chain, |pre| + 1) == pre + ([a] + [] + r) + post
  {
  }

  lemma {:induction false} ChainWithoutRight<T>(pre: seq<T>, l: seq<T>, a: T, b: T, post: seq<T>, chain: seq<T>)
    requires chain == pre + (l + [a] + [b]) + post
    ensures |pre + l| + 1 < |chain| && chain[|pre + l|] == a && chain[|pre + l| + 1] == b
    ensures RemoveAt(chain, |pre + l| + 1) == pre + (l + [a] + []) + post
  {
  }

  /** A neighbour of an inner node is an inner node. */
  lemma {:induction false} NeighbourInner(n: Node, x: Neighbour, xs: seq<Ref>, level: nat)
    requires HeldAt(n, x, xs) && Fits(level, x) && !x.Nobody? && level >= 1
    ensures |xs| == 1 && xs[0].InnerRef? && xs[0].n == n && InnerPart(n, xs[0].kids, x.t)
    ensures NodesOf(xs) == {n} + NodesOf(xs[0].kids) && LeavesOf(xs) == LeavesOf(xs[0].kids)
    ensures InnerCountOf(xs) == 1 + InnerCountOf(xs[0].kids)
  {
    HoldsAllLength(xs, [x.t]);
    assert xs == [xs[0]];
    HoldsAllOne(xs[0], x.t);
    NodesOfOne(xs[0]);
    HoldsAllLength(xs[0].kids, x.t.kids);
  }

  /** An inner node and its children, taken apart. */
  ghost predicate InnerPart(n: Node, kids: seq<Ref>, t: Tree)
    reads {n}`level, {n}`slotuse, {n}`slotkey, {n}`childid
    reads NodesOf(kids)`level, NodesOf(kids)`slotuse, NodesOf(kids)`slotkey, NodesOf(kids)`slotdata, NodesOf(kids)`childid
  {
    && t.Inner? && |kids| == |t.kids| == |t.keys| + 1
    && InnerHolds(n, t.level, t.keys, Heads(kids))
    && n !in NodesOf(kids) && HoldsAll(kids, t.kids)
  }

  /** The children of two inner nodes side by side. */
  lemma {:induction false} KidsJoin(a: seq<Ref>, b: seq<Ref>, ta: seq<Tree>, tb: seq<Tree>)
    requires HoldsAll(a, ta) && HoldsAll(b, tb) && NodesOf(a) !! NodesOf(b)
    ensures HoldsAll(a + b, ta + tb) && NodesOf(a + b) == NodesOf(a) + NodesOf(b)
    ensures Heads(a + b) == Heads(a) + Heads(b)
    ensures LeavesOf(a + b) == LeavesOf(a) + LeavesOf(b) && InnerCountOf(a + b) == InnerCountOf(a) + InnerCountOf(b)
  {
    HoldsAllLength(a, ta);
    HoldsAllAppend(a, b, ta, tb);
    NodesOfAppend(a, b);
    LeavesOfAppend(a, b);
    InnerCountAppend(a, b);
  }

  /** The children of an inner node in two parts. */
  lemma {:induction false} KidsCut(a: seq<Ref>, ta: seq<Tree>, n: nat)
    requires HoldsAll(a, ta) && n <= |a|
    ensures |a| == |ta|
    ensures HoldsAll(a[..n], ta[..n]) && HoldsAll(a[n..], ta[n..]) && NodesOf(a[..n]) !! NodesOf(a[n..])
    ensures NodesOf(a) == NodesOf(a[..n]) + NodesOf(a[n..])
    ensures Heads(a[..n]) == Heads(a)[..n] && Heads(a[n..]) == Heads(a)[n..]
    ensures LeavesOf(a) == LeavesOf(a[..n]) + LeavesOf(a[n..])
    ensures InnerCountOf(a) == InnerCountOf(a[..n]) + InnerCountOf(a[n..])
  {
    HoldsAllLength(a, ta);
    assert a[..n] + a[n..] == a && ta[..n] + ta[n..] == ta;
    HoldsAllAppend(a[..n], a[n..], ta[..n], ta[n..]);
    NodesOfAppend(a[..n], a[n..]);
    LeavesOfAppend(a[..n], a[n..]);
    InnerCountAppend(a[..n], a[n..]);
  }

  /** A call uses no nodes but those that were there, leaves the nodes below
      cousins alone, and marks the node that a merge has emptied. */
  ghost predicate SameNodes(p: Place, ln: Neighbour, rn: Neighbour, p': Place, o: Outcome) {
    && Nodes(p'.r) + NodesOf(p'.ls) + NodesOf(p'.rs) <= Nodes(p.r) + NodesOf(p.ls) + NodesOf(p.rs)
    && (!ln.Sibling? ==> p'.ls == p.ls) && (!rn.Sibling? ==> p'.rs == p.rs)
    && o.Erased?
    && (o.fixmerge ==> if SlotUse(o.curr) == 0 then p'.r.EmptyRef? else |p'.rs| == 1 && p'.rs[0].EmptyRef?)
  }

  /** The leaves are still the same, and `gone` inner nodes were emptied. */
  ghost predicate SameSums(p: Place, ln: Neighbour, rn: Neighbour, p': Place, o: Outcome, gone: nat) {
    && o.Erased?
    && Stretch(p', o.left, o.right) == Stretch(p, ln, rn)
    && StretchCount(p', o.left, o.right) + gone == StretchCount(p, ln, rn)
  }

  /** As many inner nodes as before. */
  ghost predicate SameCounts(p: Place, ln: Neighbour, rn: Neighbour, p': Place, o: Outcome) {
    o.Erased? && StretchCount(p', o.left, o.right) == StretchCount(p, ln, rn)
  }
}
