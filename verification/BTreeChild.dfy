/** Going down to a child while erasing, and coming back up: the place of the
    child within the place of its parent. */
module BTreeChild {
  import opened Sequences
  import opened OrderedItems
  import opened Wrappers
  import opened BTreeModel
  import opened BTreeErase
  import opened BTreeEraseProof
  import opened BTreeNode
  import opened BTreeRefs
  import opened BTreeErasing
  import opened BTreeFixing

  /** The children two or more slots away, on the left and on the right. */
  ghost function Front<T>(s: seq<T>, slot: nat): seq<T>
    requires slot < |s|
  {
    s[..if slot > 0 then slot - 1 else 0]
  }

  ghost function Back<T>(s: seq<T>, slot: nat): seq<T>
    requires slot < |s|
  {
    s[if slot + 1 < |s| then slot + 2 else |s|..]
  }

  /** The children beside child `slot`. */
  ghost function OwnLeft<T>(s: seq<T>, slot: nat): seq<T>
    requires slot < |s|
  {
    if slot > 0 then [s[slot - 1]] else []
  }

  ghost function OwnRight<T>(s: seq<T>, slot: nat): seq<T>
    requires slot < |s|
  {
    if slot + 1 < |s| then [s[slot + 1]] else []
  }

  lemma {:induction false} Pieces<T>(s: seq<T>, slot: nat)
    requires slot < |s|
    ensures s == Front(s, slot) + OwnLeft(s, slot) + [s[slot]] + OwnRight(s, slot) + Back(s, slot)
  {
  }

  /** An inner node at a place, one of whose children a search enters. */
  ghost predicate InnerAt(p: Place, t: Tree, slot: nat, ln: Neighbour, rn: Neighbour) {
    && p.r.InnerRef? && t.Inner? && Erasable(t, ln, rn)
    && |p.r.kids| == |t.kids| == |t.keys| + 1 && slot <= |t.keys|
    && (!ln.Nobody? ==> |p.ls| == 1 && p.ls[0].InnerRef? && |p.ls[0].kids| == |ln.t.keys| + 1)
    && (!rn.Nobody? ==> |p.rs| == 1 && p.rs[0].InnerRef? && |p.rs[0].kids| > 0)
  }

  ghost function LeftRefs(p: Place, t: Tree, slot: nat, ln: Neighbour, rn: Neighbour): seq<Ref>
    requires InnerAt(p, t, slot, ln, rn)
  {
    if slot > 0 then [p.r.kids[slot - 1]] else if ln.Nobody? then [] else [p.ls[0].kids[|ln.t.keys| - 1]]
  }

  ghost function RightRefs(p: Place, t: Tree, slot: nat, ln: Neighbour, rn: Neighbour): seq<Ref>
    requires InnerAt(p, t, slot, ln, rn)
  {
    if slot < |t.keys| then [p.r.kids[slot + 1]] else if rn.Nobody? then [] else [p.rs[0].kids[0]]
  }

  ghost function FirstNode(rs: seq<Ref>): Node? {
    if rs == [] then null else rs[0].n
  }

  /** The place of child `slot`. */
  ghost function ChildPlace(p: Place, t: Tree, slot: nat, ln: Neighbour, rn: Neighbour): Place
    requires InnerAt(p, t, slot, ln, rn)
  {
    var ls, rs := LeftRefs(p, t, slot, ln, rn), RightRefs(p, t, slot, ln, rn);
    Place(p.r.kids[slot], FirstNode(ls), ls, FirstNode(rs), rs, p.r.n, slot, ParentSlots(t.level, t.keys, Heads(p.r.kids)))
  }

  lemma {:induction false} InnerAtPlace(p: Place, t: Tree, slot: nat, ln: Neighbour, rn: Neighbour)
    requires PlaceHolds(p, t, ln, rn) && !p.r.EmptyRef? && t.Inner? && Erasable(t, ln, rn) && slot <= |t.keys|
    ensures InnerAt(p, t, slot, ln, rn)
  {
    HoldsAllLength(p.r.kids, t.kids);
    if !ln.Nobody? { NeighbourInner(p.left, ln, p.ls, t.level); }
    if !rn.Nobody? { NeighbourInner(p.right, rn, p.rs, t.level); }
  }

  /** A tree among a node's children is held, and its nodes are among theirs. */
  lemma {:induction false} OneOfAll(rs: seq<Ref>, ts: seq<Tree>, i: nat)
    requires HoldsAll(rs, ts) && i < |ts|
    ensures |rs| == |ts| && Holds(rs[i], ts[i]) && HoldsAll([rs[i]], [ts[i]])
    ensures NodesOf([rs[i]]) == Nodes(rs[i]) <= NodesOf(rs)
  {
    HoldsAllLength(rs, ts);
    CutOut(rs, i);
    CutOut(ts, i);
    HoldsAllThree(rs[..i], rs[i], rs[i + 1..], ts[..i], ts[i], ts[i + 1..]);
    HoldsAllOne(rs[i], ts[i]);
    NodesOfOne(rs[i]);
  }

  /** The children around child `slot` and its siblings. */
  ghost predicate OthersHold(kids: seq<Ref>, ts: seq<Tree>, slot: nat)
    requires slot < |kids| && slot < |ts|
    reads NodesOf(Front(kids, slot) + Back(kids, slot))`level, NodesOf(Front(kids, slot) + Back(kids, slot))`slotuse
    reads NodesOf(Front(kids, slot) + Back(kids, slot))`slotkey, NodesOf(Front(kids, slot) + Back(kids, slot))`slotdata
    reads NodesOf(Front(kids, slot) + Back(kids, slot))`childid
  {
    HoldsAll(Front(kids, slot) + Back(kids, slot), Front(ts, slot) + Back(ts, slot))
  }

  /** The nodes of child `slot` and its siblings. */
  ghost function Near(kids: seq<Ref>, slot: nat): set<Node>
    requires slot < |kids|
  {
    NodesOf(OwnLeft(kids, slot)) + Nodes(kids[slot]) + NodesOf(OwnRight(kids, slot))
  }

  ghost function Far(kids: seq<Ref>, slot: nat): set<Node>
    requires slot < |kids|
  {
    NodesOf(Front(kids, slot) + Back(kids, slot))
  }

  /** Children taken apart around child `slot`. */
  lemma {:induction false} SplitAround(kids: seq<Ref>, ts: seq<Tree>, slot: nat)
    requires HoldsAll(kids, ts) && slot < |kids|
    ensures |kids| == |ts| && OthersHold(kids, ts, slot)
    ensures HoldsAll(OwnLeft(kids, slot), OwnLeft(ts, slot)) && Holds(kids[slot], ts[slot]) && HoldsAll(OwnRight(kids, slot), OwnRight(ts, slot))
    ensures NodesOf(OwnLeft(kids, slot)) !! Nodes(kids[slot]) && NodesOf(OwnRight(kids, slot)) !! Nodes(kids[slot])
    ensures NodesOf(OwnLeft(kids, slot)) !! NodesOf(OwnRight(kids, slot))
    ensures Near(kids, slot) !! Far(kids, slot) && NodesOf(kids) == Near(kids, slot) + Far(kids, slot)
  {
    HoldsAllLength(kids, ts);
    Pieces(kids, slot);
    Pieces(ts, slot);
    FivePieces(Front(kids, slot), OwnLeft(kids, slot), kids[slot], OwnRight(kids, slot), Back(kids, slot),
               Front(ts, slot), OwnLeft(ts, slot), ts[slot], OwnRight(ts, slot), Back(ts, slot));
  }

  /** Five lists of trees, the middle one a single tree. */
  lemma {:induction false} FivePieces(a: seq<Ref>, l: seq<Ref>, c: Ref, r: seq<Ref>, b: seq<Ref>,
                                      ta: seq<Tree>, tl: seq<Tree>, tc: Tree, tr: seq<Tree>, tb: seq<Tree>)
    requires |a| == |ta| && |l| == |tl| && |r| == |tr|
    ensures HoldsAll(a + l + [c] + r + b, ta + tl + [tc] + tr + tb) <==>
            && HoldsAll(a + b, ta + tb) && HoldsAll(l, tl) && Holds(c, tc) && HoldsAll(r, tr)
            && NodesOf(l) !! Nodes(c) && NodesOf(r) !! Nodes(c) && NodesOf(l) !! NodesOf(r)
            && NodesOf(l) + Nodes(c) + NodesOf(r) !! NodesOf(a + b)
    ensures NodesOf(a + l + [c] + r + b) == NodesOf(l) + Nodes(c) + NodesOf(r) + NodesOf(a + b)
  {
    HoldsAllAppend(a + l + [c] + r, b, ta + tl + [tc] + tr, tb);
    HoldsAllAppend(a + l + [c], r, ta + tl + [tc], tr);
    HoldsAllAppend(a + l, [c], ta + tl, [tc]);
    HoldsAllAppend(a, l, ta, tl);
    HoldsAllAppend(a, b, ta, tb);
    HoldsAllOne(c, tc);
    NodesOfAppend(a + l + [c] + r, b);
    NodesOfAppend(a + l + [c], r);
    NodesOfAppend(a + l, [c]);
    NodesOfAppend(a, l);
    NodesOfAppend(a, b);
    NodesOfOne(c);
  }

  lemma {:induction false} Gather<T>(a: seq<T>, l: seq<T>, c: seq<T>, r: seq<T>, b: seq<T>)
    ensures a + l + c + r + b == a + (l + c + r) + b
  {
  }

  /** The same sums over the five lists. */
  lemma {:induction false} FiveSums(a: seq<Ref>, l: seq<Ref>, c: Ref, r: seq<Ref>, b: seq<Ref>)
    ensures LeavesOf(a + l + [c] + r + b) == LeavesOf(a) + (LeavesOf(l) + Leaves(c) + LeavesOf(r)) + LeavesOf(b)
    ensures InnerCountOf(a + l + [c] + r + b) ==
            InnerCountOf(a) + (InnerCountOf(l) + InnerCount(c) + InnerCountOf(r)) + InnerCountOf(b)
  {
    LeavesOfOne(c);
    assert LeavesOf(a + l + [c] + r + b) == LeavesOf(a) + LeavesOf(l) + Leaves(c) + LeavesOf(r) + LeavesOf(b) by {
      LeavesOfAppend(a + l + [c] + r, b);
      LeavesOfAppend(a + l + [c], r);
      LeavesOfAppend(a + l, [c]);
      LeavesOfAppend(a, l);
    }
    Gather(LeavesOf(a), LeavesOf(l), Leaves(c), LeavesOf(r), LeavesOf(b));
    InnerCountAppend(a + l + [c] + r, b);
    InnerCountAppend(a + l + [c], r);
    InnerCountAppend(a + l, [c]);
    InnerCountAppend(a, l);
  }

  lemma {:induction false} LeftRefsHeld(p: Place, t: Tree, slot: nat, ln: Neighbour, rn: Neighbour)
    requires InnerAt(p, t, slot, ln, rn) && PlaceHolds(p, t, ln, rn)
    ensures var ls := LeftRefs(p, t, slot, ln, rn);
            && HeldAt(FirstNode(ls), LeftOf(t, slot, ln), ls)
            && if slot > 0 then ls == OwnLeft(p.r.kids, slot) else NodesOf(ls) <= NodesOf(p.ls)
  {
    if slot > 0 {
      OneOfAll(p.r.kids, t.kids, slot - 1);
    } else if !ln.Nobody? {
      NeighbourInner(p.left, ln, p.ls, t.level);
      OneOfAll(p.ls[0].kids, ln.t.kids, |ln.t.keys| - 1);
    }
  }

  lemma {:induction false} RightRefsHeld(p: Place, t: Tree, slot: nat, ln: Neighbour, rn: Neighbour)
    requires InnerAt(p, t, slot, ln, rn) && PlaceHolds(p, t, ln, rn)
    ensures var rs := RightRefs(p, t, slot, ln, rn);
            && HeldAt(FirstNode(rs), RightOf(t, slot, rn), rs)
            && if slot < |t.keys| then rs == OwnRight(p.r.kids, slot) else NodesOf(rs) <= NodesOf(p.rs)
  {
    hide Items, Sorted, Linked, SeparatorsOk, Shape;
    if slot < |t.keys| {
      OneOfAll(p.r.kids, t.kids, slot + 1);
    } else if !rn.Nobody? {
      NeighbourInner(p.right, rn, p.rs, t.level);
      OneOfAll(p.rs[0].kids, rn.t.kids, 0);
    }
  }

  /** The place of a child is a place like any other. */
  lemma {:induction false} EnterPlace(p: Place, t: Tree, slot: nat, ln: Neighbour, rn: Neighbour)
    requires InnerAt(p, t, slot, ln, rn) && PlaceHolds(p, t, ln, rn)
    ensures PlaceHolds(ChildPlace(p, t, slot, ln, rn), t.kids[slot], LeftOf(t, slot, ln), RightOf(t, slot, rn))
    ensures OthersHold(p.r.kids, t.kids, slot)
    ensures Near(p.r.kids, slot) !! Far(p.r.kids, slot) && p.r.n !in Near(p.r.kids, slot) + Far(p.r.kids, slot)
    ensures Nodes(p.r) == {p.r.n} + Near(p.r.kids, slot) + Far(p.r.kids, slot)
  {
    SplitAround(p.r.kids, t.kids, slot);
    LeftRefsHeld(p, t, slot, ln, rn);
    RightRefsHeld(p, t, slot, ln, rn);
  }

  /** Trees and slots that the call on a child leaves alone: the children away
      from it, the neighbours of its parent, and its grandparent. */
  datatype Rest = Rest(rs: seq<Ref>, ts: seq<Tree>, left: Node?, ln: Neighbour, ls: seq<Ref>, right: Node?, rn: Neighbour, rrs: seq<Ref>,
                       parent: Node?, ps: ParentSlots, nodes: set<Node>)

  ghost predicate RestHolds(k: Rest)
    reads k.nodes`level, k.nodes`slotuse, k.nodes`slotkey, k.nodes`slotdata, k.nodes`childid
  {
    && k.nodes == NodesOf(k.rs) + NodesOf(k.ls) + NodesOf(k.rrs) + Just(k.parent)
    && HoldsAll(k.rs, k.ts) && HeldAt(k.left, k.ln, k.ls) && HeldAt(k.right, k.rn, k.rrs) && ParentHolds(k.parent, k.ps)
  }

  ghost function RestOf(p: Place, t: Tree, slot: nat, ln: Neighbour, rn: Neighbour): Rest
    requires InnerAt(p, t, slot, ln, rn)
  {
    Rest(Front(p.r.kids, slot) + Back(p.r.kids, slot), Front(t.kids, slot) + Back(t.kids, slot),
         p.left, ln, p.ls, p.right, rn, p.rs, p.parent, p.ps, Far(p.r.kids, slot) + NodesOf(p.ls) + NodesOf(p.rs) + Just(p.parent))
  }

  /** The nodes of a place and those around its child are where they should be. */
  ghost predicate Standing(p: Place, t: Tree, slot: nat, ln: Neighbour, rn: Neighbour)
    requires InnerAt(p, t, slot, ln, rn)
  {
    && Near(p.r.kids, slot) !! Far(p.r.kids, slot) && p.r.n !in Near(p.r.kids, slot) + Far(p.r.kids, slot)
    && Nodes(p.r) == {p.r.n} + Near(p.r.kids, slot) + Far(p.r.kids, slot)
    && PlaceApart(p)
    && SlotsFit(p.parent, p.slot, p.r.n, p.left, ln, p.right, rn, p.ps)
  }

  /** What the call on a child leaves alone around its parent. */
  ghost predicate Outside(p: Place, t: Tree, slot: nat, ln: Neighbour, rn: Neighbour)
    requires InnerAt(p, t, slot, ln, rn)
    reads RestOf(p, t, slot, ln, rn).nodes`level, RestOf(p, t, slot, ln, rn).nodes`slotuse
    reads RestOf(p, t, slot, ln, rn).nodes`slotkey, RestOf(p, t, slot, ln, rn).nodes`slotdata
    reads RestOf(p, t, slot, ln, rn).nodes`childid
  {
    Standing(p, t, slot, ln, rn) && RestHolds(RestOf(p, t, slot, ln, rn))
  }

  lemma {:induction false} RestApart(p: Place, t: Tree, slot: nat, ln: Neighbour, rn: Neighbour)
    requires InnerAt(p, t, slot, ln, rn) && Standing(p, t, slot, ln, rn)
    ensures var pc := ChildPlace(p, t, slot, ln, rn);
            && RestOf(p, t, slot, ln, rn).nodes !! Nodes(pc.r) + SideNodes(LeftOf(t, slot, ln), pc.ls) + SideNodes(RightOf(t, slot, rn), pc.rs) + {p.r.n}
            && Nodes(pc.r) + SideNodes(LeftOf(t, slot, ln), pc.ls) + SideNodes(RightOf(t, slot, rn), pc.rs) + {p.r.n} <= Nodes(p.r)
  {
    var pc := ChildPlace(p, t, slot, ln, rn);
    assert slot > 0 ==> pc.ls == OwnLeft(p.r.kids, slot);
    assert slot + 1 < |p.r.kids| ==> pc.rs == OwnRight(p.r.kids, slot);
  }

  lemma {:induction false} StandOutside(p: Place, t: Tree, slot: nat, ln: Neighbour, rn: Neighbour)
    requires InnerAt(p, t, slot, ln, rn) && PlaceHolds(p, t, ln, rn)
    ensures Outside(p, t, slot, ln, rn)
  {
    SplitAround(p.r.kids, t.kids, slot);
    OutsideHolds(p, t, slot, ln, rn);
  }

  lemma {:induction false} OutsideHolds(p: Place, t: Tree, slot: nat, ln: Neighbour, rn: Neighbour)
    requires InnerAt(p, t, slot, ln, rn) && p.r.nodes == {p.r.n} + NodesOf(p.r.kids) && p.r.n !in NodesOf(p.r.kids)
    requires Near(p.r.kids, slot) !! Far(p.r.kids, slot) && NodesOf(p.r.kids) == Near(p.r.kids, slot) + Far(p.r.kids, slot)
    requires PlaceApart(p) && SlotsFit(p.parent, p.slot, p.r.n, p.left, ln, p.right, rn, p.ps)
    requires OthersHold(p.r.kids, t.kids, slot) && HeldAt(p.left, ln, p.ls) && HeldAt(p.right, rn, p.rs) && ParentHolds(p.parent, p.ps)
    ensures Outside(p, t, slot, ln, rn)
  {
    hide PlaceApart, Erasable, HeldAt, ParentHolds, HoldsAll;
  }

  /** The children of a node after the call on child `slot`. */
  ghost function KidsAfter(kids: seq<Ref>, slot: nat, pc: Place): seq<Ref>
    requires slot < |kids|
  {
    Front(kids, slot) + (if slot > 0 then pc.ls else []) + [pc.r] + (if slot + 1 < |kids| then pc.rs else []) + Back(kids, slot)
  }

  lemma {:induction false} PutBackPieces(t: Tree, slot: nat, o: Outcome)
    requires t.Inner? && |t.kids| == |t.keys| + 1 && slot <= |t.keys| && o.Erased?
    requires (o.left.Sibling? <==> slot > 0) && (o.right.Sibling? <==> slot < |t.keys|)
    ensures PutBack(t, slot, o).kids == Front(t.kids, slot) + Trees(o.left) + [o.curr] + Trees(o.right) + Back(t.kids, slot)
  {
    PutBackKids(t, slot, o);
    Gather(Front(t.kids, slot), Trees(o.left), [o.curr], Trees(o.right), Back(t.kids, slot));
  }

  lemma {:induction false} PutBackSlots(t: Tree, slot: nat, o: Outcome, childs: seq<Node>)
    requires t.Inner? && |t.kids| == |t.keys| + 1 && slot <= |t.keys| && o.Erased?
    requires (o.left.Sibling? <==> slot > 0) && (o.right.Sibling? <==> slot < |t.keys|)
    ensures NewSlots(ParentSlots(t.level, t.keys, childs), slot, o) == ParentSlots(t.level, PutBack(t, slot, o).keys, childs)
  {
  }

  /** The outcome of the call on a child, and the place of the child afterwards. */
  ghost predicate ChildDone(p: Place, t: Tree, slot: nat, ln: Neighbour, rn: Neighbour, pc: Place, o: Outcome)
    requires InnerAt(p, t, slot, ln, rn)
    reads PlaceNodes(pc)`level, PlaceNodes(pc)`slotuse, PlaceNodes(pc)`slotkey, PlaceNodes(pc)`slotdata, PlaceNodes(pc)`childid
  {
    var pc0 := ChildPlace(p, t, slot, ln, rn);
    && PlaceAfter(pc0, pc, o) && SameNodes(pc0, LeftOf(t, slot, ln), RightOf(t, slot, rn), pc, o)
    && (o.left.Sibling? <==> slot > 0) && (o.right.Sibling? <==> slot < |t.keys|) && ShapeOfOutcome(t, slot, o)
  }

  /** The node's own child slots are the same, and its children hold the new trees. */
  lemma {:induction false} KidsAfterHeld(p: Place, t: Tree, slot: nat, ln: Neighbour, rn: Neighbour, pc: Place, o: Outcome)
    requires InnerAt(p, t, slot, ln, rn) && Outside(p, t, slot, ln, rn) && ChildDone(p, t, slot, ln, rn, pc, o)
    requires NearAfter(p.r.kids, slot, pc) <= Near(p.r.kids, slot)
    ensures var kids := KidsAfter(p.r.kids, slot, pc);
            && HoldsAll(kids, PutBack(t, slot, o).kids) && NodesOf(kids) <= Near(p.r.kids, slot) + Far(p.r.kids, slot)
  {
    var kids := p.r.kids;
    var l, r := if slot > 0 then pc.ls else [], if slot + 1 < |kids| then pc.rs else [];
    PutBackPieces(t, slot, o);
    HoldsAllLength(l, Trees(o.left));
    HoldsAllLength(r, Trees(o.right));
    FivePieces(Front(kids, slot), l, pc.r, r, Back(kids, slot),
               Front(t.kids, slot), Trees(o.left), o.curr, Trees(o.right), Back(t.kids, slot));
  }

  ghost function NearAfter(kids: seq<Ref>, slot: nat, pc: Place): set<Node>
    requires slot < |kids|
  {
    (if slot > 0 then NodesOf(pc.ls) else {}) + Nodes(pc.r) + (if slot + 1 < |kids| then NodesOf(pc.rs) else {})
  }

  /** The call on a child brings no nodes in from outside. */
  lemma {:induction false} NearStays(p: Place, t: Tree, slot: nat, ln: Neighbour, rn: Neighbour, pc: Place, o: Outcome)
    requires InnerAt(p, t, slot, ln, rn) && ChildDone(p, t, slot, ln, rn, pc, o)
    ensures NearAfter(p.r.kids, slot, pc) <= Near(p.r.kids, slot)
  {
    var pc0 := ChildPlace(p, t, slot, ln, rn);
    assert slot > 0 ==> pc0.ls == OwnLeft(p.r.kids, slot);
    assert slot + 1 < |p.r.kids| ==> pc0.rs == OwnRight(p.r.kids, slot);
    assert PlaceApart(pc);
  }

  lemma {:induction false} KidsAfterHeads(p: Place, t: Tree, slot: nat, ln: Neighbour, rn: Neighbour, pc: Place, o: Outcome)
    requires InnerAt(p, t, slot, ln, rn) && ChildDone(p, t, slot, ln, rn, pc, o)
    ensures Heads(KidsAfter(p.r.kids, slot, pc)) == Heads(p.r.kids)
    ensures InnerHolds(p.r.n, t.level, PutBack(t, slot, o).keys, Heads(p.r.kids))
  {
    var kids := p.r.kids;
    PutBackSlots(t, slot, o, Heads(kids));
    if slot > 0 { HoldsAllLength(pc.ls, [o.left.t]); }
    if slot < |t.keys| { HoldsAllLength(pc.rs, [o.right.t]); }
    assert pc.ps.childs == Heads(kids);
    assert pc.r.n == kids[slot].n;
    assert slot > 0 ==> pc.ls == [pc.ls[0]] && pc.ls[0].n == kids[slot - 1].n;
    assert slot < |t.keys| ==> pc.rs == [pc.rs[0]] && pc.rs[0].n == kids[slot + 1].n;
    HeadsOfPieces(kids, slot, if slot > 0 then pc.ls else [], pc.r, if slot + 1 < |kids| then pc.rs else []);
  }

  lemma {:induction false} HeadsOfPieces(kids: seq<Ref>, slot: nat, l: seq<Ref>, c: Ref, r: seq<Ref>)
    requires slot < |kids| && |l| == |OwnLeft(kids, slot)| && |r| == |OwnRight(kids, slot)|
    requires c.n == kids[slot].n && (slot > 0 ==> l[0].n == kids[slot - 1].n) && (slot + 1 < |kids| ==> r[0].n == kids[slot + 1].n)
    ensures Heads(Front(kids, slot) + l + [c] + r + Back(kids, slot)) == Heads(kids)
  {
  }

  /** A merge has left its emptied node where the parent will look for it. */
  lemma {:induction false} EmptiedKid(p: Place, t: Tree, slot: nat, ln: Neighbour, rn: Neighbour, pc: Place, o: Outcome)
    requires InnerAt(p, t, slot, ln, rn) && ChildDone(p, t, slot, ln, rn, pc, o) && o.fixmerge
    ensures Emptied(slot, o) < |KidsAfter(p.r.kids, slot, pc)| && KidsAfter(p.r.kids, slot, pc)[Emptied(slot, o)].EmptyRef?
  {
    hide Erasable, NodesOf, Nodes;
    var kids := p.r.kids;
    if slot > 0 { HoldsAllLength(pc.ls, [o.left.t]); }
    var a := Front(kids, slot) + if slot > 0 then pc.ls else [];
    assert |a| == slot;
    assert KidsAfter(kids, slot, pc) == a + [pc.r] + (if slot + 1 < |kids| then pc.rs else []) + Back(kids, slot);
  }

  /** The node after the call on its child, with its own place around it. */
  ghost function PlaceWithKids(p: Place, kids: seq<Ref>): Place {
    p.(r := Family(p.r.n, kids))
  }

  /** Coming back up: the place of the parent holds the tree with the child's outcome in it. */
  lemma {:induction false} LeavePlace(p: Place, t: Tree, slot: nat, ln: Neighbour, rn: Neighbour, pc: Place, o: Outcome)
    requires InnerAt(p, t, slot, ln, rn) && Outside(p, t, slot, ln, rn) && ChildDone(p, t, slot, ln, rn, pc, o)
    ensures var kids := KidsAfter(p.r.kids, slot, pc);
            && PlaceHolds(PlaceWithKids(p, kids), PutBack(t, slot, o), ln, rn)
            && |kids| == |p.r.kids|
            && Nodes(Family(p.r.n, kids)) <= Nodes(p.r)
  {
    var kids := KidsAfter(p.r.kids, slot, pc);
    NearStays(p, t, slot, ln, rn, pc, o);
    KidsAfterHeld(p, t, slot, ln, rn, pc, o);
    KidsAfterHeads(p, t, slot, ln, rn, pc, o);
    HoldsAllLength(kids, PutBack(t, slot, o).kids);
    assert Holds(Family(p.r.n, kids), PutBack(t, slot, o));
  }

  /** A node whose child `s` is to be freed. */
  ghost predicate MayDrop(p: Place, t: Tree, s: nat) {
    && p.r.InnerRef? && t.Inner? && t.level >= 1 && |p.r.kids| == |t.kids| == |t.keys| + 1
    && 1 <= s <= |t.keys| && p.r.kids[s].EmptyRef?
    && (t.level == 1 ==> p.r.kids[s - 1].LeafRef? && t.kids[s - 1].Leaf? && t.kids[s - 1].items != [])
  }

  /** The tree once child `s` is gone; a node above leaves looks up its new separator. */
  ghost function Dropped(t: Tree, s: nat): Tree
    requires t.Inner? && |t.kids| == |t.keys| + 1 && 1 <= s <= |t.keys|
  {
    var keys, kids := RemoveAt(t.keys, s - 1), RemoveAt(t.kids, s);
    if t.level == 1 && s - 1 < |keys| then Inner(t.level, keys[s - 1 := LastKey(Items(kids[s - 1]))], kids)
    else Inner(t.level, keys, kids)
  }

  /** Close up the slots of an inner node over child `s`. */
  method DropSlots(inner: Node, s: nat, ghost t: Tree, ghost childs: seq<Node>)
    requires t.Inner? && |t.kids| == |t.keys| + 1 == |childs| && 1 <= s <= |t.keys| && InnerHolds(inner, t.level, t.keys, childs)
    requires t.level == 1 ==> t.kids[s - 1].Leaf? && t.kids[s - 1].items != [] && LeafHolds(childs[s - 1], t.kids[s - 1].items)
    modifies inner`slotuse, inner`slotkey, inner`childid
    ensures InnerHolds(inner, t.level, Dropped(t, s).keys, RemoveAt(childs, s))
  {
    RemoveFromInner(inner, s, t.level, t.keys, childs);
    if inner.level == 1 {
      var child := inner.childid[s - 1];
      assert LeafHolds(child, t.kids[s - 1].items);
      inner.slotkey := inner.slotkey[s - 1 := child.slotkey[child.slotuse - 1]];
    }
  }

  method RemoveEmptied(inner: Node, s: nat, ghost p: Place, ghost t: Tree, ghost ln: Neighbour, ghost rn: Neighbour)
    requires p.r.n == inner && MayDrop(p, t, s) && PlaceHolds(p, t, ln, rn)
    modifies inner`slotuse, inner`slotkey, inner`childid
    ensures PlaceHolds(PlaceWithKids(p, RemoveAt(p.r.kids, s)), Dropped(t, s), ln, rn)
    ensures Nodes(Family(inner, RemoveAt(p.r.kids, s))) <= Nodes(p.r)
  {
    ghost var kids := p.r.kids;
    TakeOut(kids, t.kids, s);
    if t.level == 1 { OneOfAll(kids, t.kids, s - 1); }
    DropSlotsApart(inner, s, p, t, ln, rn, NodesOf(RemoveAt(kids, s)), NodesOf(p.ls), NodesOf(p.rs));
    WithoutEmptied(inner, s, p, t, ln, rn);
  }

  /** Closing up the slots leaves everything else at the place alone. */
  method DropSlotsApart(inner: Node, s: nat, ghost p: Place, ghost t: Tree, ghost ln: Neighbour, ghost rn: Neighbour,
                        ghost below: set<Node>, ghost lset: set<Node>, ghost rset: set<Node>)
    requires p.r.InnerRef? && t.Inner? && |t.kids| == |t.keys| + 1 == |p.r.kids| && 1 <= s <= |t.keys| && InnerHolds(inner, t.level, t.keys, Heads(p.r.kids))
    requires t.level == 1 ==> t.kids[s - 1].Leaf? && t.kids[s - 1].items != [] && LeafHolds(p.r.kids[s - 1].n, t.kids[s - 1].items)
    requires below == NodesOf(RemoveAt(p.r.kids, s)) && lset == NodesOf(p.ls) && rset == NodesOf(p.rs)
    requires inner !in below + lset + rset && inner != p.parent
    modifies inner`slotuse, inner`slotkey, inner`childid
    ensures InnerHolds(inner, t.level, Dropped(t, s).keys, RemoveAt(Heads(p.r.kids), s))
    ensures HoldsAll(RemoveAt(p.r.kids, s), RemoveAt(t.kids, s)) == old(HoldsAll(RemoveAt(p.r.kids, s), RemoveAt(t.kids, s)))
    ensures HeldAt(p.left, ln, p.ls) == old(HeldAt(p.left, ln, p.ls)) && HeldAt(p.right, rn, p.rs) == old(HeldAt(p.right, rn, p.rs))
    ensures ParentHolds(p.parent, p.ps) == old(ParentHolds(p.parent, p.ps))
  {
    DropSlots(inner, s, t, Heads(p.r.kids));
  }

  lemma {:induction false} WithoutEmptied(inner: Node, s: nat, p: Place, t: Tree, ln: Neighbour, rn: Neighbour)
    requires p.r.InnerRef? && p.r.n == inner && t.Inner? && |t.kids| == |t.keys| + 1 == |p.r.kids| && 1 <= s <= |t.keys|
    requires p.r.nodes == {inner} + NodesOf(p.r.kids) && inner !in NodesOf(p.r.kids) && NodesOf(RemoveAt(p.r.kids, s)) <= NodesOf(p.r.kids)
    requires PlaceApart(p) && SlotsFit(p.parent, p.slot, p.r.n, p.left, ln, p.right, rn, p.ps)
    requires HeldAt(p.left, ln, p.ls) && HeldAt(p.right, rn, p.rs) && ParentHolds(p.parent, p.ps)
    requires HoldsAll(RemoveAt(p.r.kids, s), RemoveAt(t.kids, s)) && InnerHolds(inner, t.level, Dropped(t, s).keys, RemoveAt(Heads(p.r.kids), s))
    ensures PlaceHolds(PlaceWithKids(p, RemoveAt(p.r.kids, s)), Dropped(t, s), ln, rn)
    ensures Nodes(Family(inner, RemoveAt(p.r.kids, s))) <= Nodes(p.r)
  {
    HeadsWithout(p.r.kids, s);
    assert Holds(Family(inner, RemoveAt(p.r.kids, s)), Dropped(t, s));
  }

  lemma {:induction false} HeadsWithout(kids: seq<Ref>, s: nat)
    requires s < |kids|
    ensures Heads(RemoveAt(kids, s)) == RemoveAt(Heads(kids), s)
  {
  }

  /** An emptied node has no leaves, and is not counted. */
  lemma {:induction false} SumsWithout(kids: seq<Ref>, s: nat)
    requires s < |kids| && kids[s].EmptyRef?
    ensures LeavesOf(RemoveAt(kids, s)) == LeavesOf(kids) && InnerCountOf(RemoveAt(kids, s)) == InnerCountOf(kids)
  {
    LeavesAround(kids, s);
    InnerCountAround(kids, s);
    LeavesOfAppend(kids[..s], kids[s + 1..]);
    InnerCountAppend(kids[..s], kids[s + 1..]);
  }

  /** What the node is with a child's outcome in it. */
  lemma {:induction false} WithChild(t: Tree, slot: nat, content: seq<Item>, ln: Neighbour, rn: Neighbour, o: Outcome)
    requires t.Inner? && Shape(t, 1) && slot < |t.kids| && Context(t.level, ln, rn)
    requires OutcomeOk(t.level - 1, content, LastKey(Items(t.kids[slot])), LeftOf(t, slot, ln), RightOf(t, slot, rn), o)
    ensures slot <= |t.keys| && ShapeOfOutcome(t, slot, o)
    ensures (o.left.Sibling? <==> slot > 0) && (o.right.Sibling? <==> slot < |t.keys|)
    ensures UsableNode(t, AfterChild(t, slot, o))
  {
    hide Items, ItemsOf, AfterChild, ShapeOfOutcome;
    ChildReturns(t, slot, content, ln, rn, o);
    AfterChildOk(t, slot, content, LeftOf(t, slot, ln), RightOf(t, slot, rn), o);
  }

  /** The pure side of the call on a child: it may be made, and what it returns can be used. */
  lemma {:induction false} ChildErased(t: Tree, key: Key, ln: Neighbour, rn: Neighbour)
    requires t.Inner? && Erasable(t, ln, rn)
    ensures SortedKeys(t.keys)
    ensures var slot := LowerSlot(t.keys, key);
            && Erasable(t.kids[slot], LeftOf(t, slot, ln), RightOf(t, slot, rn))
            && SlotUse(t.kids[slot]) > 0
            && var o := EraseDescend(t.kids[slot], key, LeftOf(t, slot, ln), RightOf(t, slot, rn));
               && EraseDescend(t, key, ln, rn) == (if o.NotFound? then NotFound else EraseReturn(t, slot, o, ln, rn))
               && (o.Erased? ==>
                     && ShapeOfOutcome(t, slot, o) && (o.left.Sibling? <==> slot > 0) && (o.right.Sibling? <==> slot < |t.keys|)
                     && UsableNode(t, AfterChild(t, slot, o)))
  {
    hide Sorted, Items, ItemsOf, OutcomeOk, UsableNode, EraseReturn, LeftOf, RightOf, SeparatorsOk, AfterChild, Remove, Found, LowerSlot, ShapeOfOutcome;
    var slot := LowerSlot(t.keys, key);
    SeparatorsSorted(t);
    Descend(t, key);
    ChildContext(t, slot, ln, rn);
    EraseDescendOk(t.kids[slot], key, LeftOf(t, slot, ln), RightOf(t, slot, rn));
    var o := EraseDescend(t.kids[slot], key, LeftOf(t, slot, ln), RightOf(t, slot, rn));
    if o.Erased? {
      WithChild(t, slot, Remove(Items(t.kids[slot]), key), ln, rn, o);
    }
  }

  /** The node that a merge empties is at the level of the node it was merged with. */
  ghost predicate EmptiedAt(level: nat, o: Outcome) {
    o.Erased? && o.fixmerge ==>
      if SlotUse(o.curr) == 0 then Level(o.curr) == level else o.right.Sibling? && Level(o.right.t) == level
  }

  lemma {:induction false} FixLeafEmptied(items: seq<Item>, ln: Neighbour, rn: Neighbour, lastkey: Option<Key>)
    requires Context(0, ln, rn)
    ensures EmptiedAt(0, FixLeaf(items, ln, rn, lastkey))
  {
  }

  lemma {:induction false} FixInnerEmptied(t: Tree, ln: Neighbour, rn: Neighbour, lastkey: Option<Key>)
    requires t.Inner? && t.level >= 1 && |t.kids| == |t.keys| + 1 && Context(t.level, ln, rn)
    ensures EmptiedAt(t.level, FixInner(t, ln, rn, lastkey))
  {
  }

  lemma {:induction false} EraseLeafEmptied(items: seq<Item>, key: Key, ln: Neighbour, rn: Neighbour)
    requires Context(0, ln, rn)
    ensures EmptiedAt(0, EraseLeaf(items, key, ln, rn))
  {
    ErasedItem(items, key, ln, rn);
    if Found(items, key) {
      var slot := LowerSlot(Keys(items), key);
      var items' := RemoveAt(items, slot);
      FixLeafEmptied(items', ln, RightAfter(items', slot, rn),
                     if slot == |items'| && !rn.Sibling? && items' != [] then Some(LastKey(items')) else None);
    }
  }

  lemma {:induction false} EraseReturnEmptied(t: Tree, slot: nat, o: Outcome, ln: Neighbour, rn: Neighbour)
    requires t.Inner? && t.level >= 1 && |t.kids| == |t.keys| + 1 && slot <= |t.keys|
    requires Context(t.level, ln, rn) && ShapeOfOutcome(t, slot, o)
    ensures EmptiedAt(t.level, EraseReturn(t, slot, o, ln, rn))
  {
    var t2 := AfterChild(t, slot, o);
    if o.lastkey.Some? && rn.Sibling? {
      FixInnerEmptied(t2, ln, rn.(sep := o.lastkey.value), None);
    } else {
      FixInnerEmptied(t2, ln, rn, o.lastkey);
    }
  }

  lemma {:induction false} EmptiedLevel(t: Tree, key: Key, ln: Neighbour, rn: Neighbour)
    requires Shape(t, 1) && Context(Level(t), ln, rn)
    ensures EmptiedAt(Level(t), EraseDescend(t, key, ln, rn))
  {
    if t.Leaf? {
      EraseLeafEmptied(t.items, key, ln, rn);
    } else {
      var slot := LowerSlot(t.keys, key);
      ChildContext(t, slot, ln, rn);
      var o := EraseDescend(t.kids[slot], key, LeftOf(t, slot, ln), RightOf(t, slot, rn));
      if o.Erased? {
        EraseReturnEmptied(t, slot, o, ln, rn);
      }
    }
  }

  /** A node that has taken its child's outcome in. */
  ghost predicate UsableNode(t: Tree, u: Tree) {
    && t.Inner? && u.Inner? && u.level == t.level >= 1 && |u.kids| == |u.keys| + 1 && |u.keys| <= innerslotmax && Linked(u)
  }

  /** The nodes a call may write to beside a node: those of a sibling. */
  ghost function SideNodes(x: Neighbour, xs: seq<Ref>): set<Node> {
    if x.Sibling? then NodesOf(xs) else {}
  }

  /** A root with a single child gives way to it. */
  lemma {:induction false} OnlyChild(p: Place, t: Tree)
    requires PlaceHolds(p, t, Nobody, Nobody) && p.r.InnerRef? && p.parent == null && UsableNode(t, t) && t.keys == []
    ensures |p.r.kids| == 1 && p.r.n.childid != [] && p.r.n.childid[0] == p.r.kids[0].n
    ensures PlaceHolds(p.(r := p.r.kids[0]), t.kids[0], Nobody, Nobody) && !p.r.kids[0].EmptyRef? && t.kids[0] != Leaf([])
    ensures Nodes(p.r.kids[0]) <= Nodes(p.r) && Leaves(p.r) == Leaves(p.r.kids[0]) && InnerCount(p.r) == 1 + InnerCount(p.r.kids[0])
  {
    HoldsAllLength(p.r.kids, t.kids);
    OneOfAll(p.r.kids, t.kids, 0);
    assert p.r.kids == [p.r.kids[0]];
    LeavesOfOne(p.r.kids[0]);
  }

  /** When an inner node needs no repair, and what its level tells the one above. */
  lemma {:induction false} FixInnerCases(t: Tree, ln: Neighbour, rn: Neighbour, lastkey: Option<Key>)
    requires UsableNode(t, t) && Context(t.level, ln, rn)
    ensures var o := FixInner(t, ln, rn, lastkey);
            && (AtRoot(ln, rn) && t.keys == [] ==> o == Erased(t.kids[0], ln, rn, None, false))
            && (!AtRoot(ln, rn) || t.keys != [] ==> o.lastkey == lastkey)
            && (|t.keys| >= mininnerslots || (AtRoot(ln, rn) && t.keys != []) ==> o == Erased(t, ln, rn, lastkey, false))
  {
  }

  /** The stretch of leaves at a place, seen from the place of a child. */
  lemma {:induction false} StretchDown(p: Place, t: Tree, slot: nat, ln: Neighbour, rn: Neighbour, pre: seq<Node>, post: seq<Node>)
    requires InnerAt(p, t, slot, ln, rn)
    ensures var pc, lo, ro := ChildPlace(p, t, slot, ln, rn), LeftOf(t, slot, ln), RightOf(t, slot, rn);
            && pre + Stretch(p, ln, rn) + post == PreOf(p, slot, ln, pre) + Stretch(pc, lo, ro) + PostOf(p, slot, rn, post)
            && StretchCount(p, ln, rn) == OtherCount(p, slot, ln, rn) + StretchCount(pc, lo, ro)
  {
    var kids := p.r.kids;
    Pieces(kids, slot);
    ChildStretch(p, t, slot, ln, rn);
    StretchAround(p, kids, slot, ln, rn, OwnLeft(kids, slot), kids[slot], OwnRight(kids, slot), pre, post);
  }

  lemma {:induction false} ChildStretch(p: Place, t: Tree, slot: nat, ln: Neighbour, rn: Neighbour)
    requires InnerAt(p, t, slot, ln, rn)
    ensures var kids, pc, lo, ro := p.r.kids, ChildPlace(p, t, slot, ln, rn), LeftOf(t, slot, ln), RightOf(t, slot, rn);
            && Stretch(pc, lo, ro) == LeavesOf(OwnLeft(kids, slot)) + Leaves(kids[slot]) + LeavesOf(OwnRight(kids, slot))
            && StretchCount(pc, lo, ro) == InnerCountOf(OwnLeft(kids, slot)) + InnerCount(kids[slot]) + InnerCountOf(OwnRight(kids, slot))
  {
  }

  /** The same for any nodes that stand for a child and its siblings. */
  lemma {:induction false} StretchAround(p: Place, kids: seq<Ref>, slot: nat, ln: Neighbour, rn: Neighbour, l: seq<Ref>, c: Ref, r: seq<Ref>,
                                         pre: seq<Node>, post: seq<Node>)
    requires p.r.InnerRef? && kids == p.r.kids && slot < |kids|
    ensures var q := PlaceWithKids(p, Front(kids, slot) + l + [c] + r + Back(kids, slot));
            && pre + Stretch(q, ln, rn) + post == PreOf(p, slot, ln, pre) + (LeavesOf(l) + Leaves(c) + LeavesOf(r)) + PostOf(p, slot, rn, post)
            && StretchCount(q, ln, rn) == OtherCount(p, slot, ln, rn) + (InnerCountOf(l) + InnerCount(c) + InnerCountOf(r))
  {
    FiveSums(Front(kids, slot), l, c, r, Back(kids, slot));
    Nest(pre, SideLeaves(ln, p.ls), LeavesOf(Front(kids, slot)), LeavesOf(l) + Leaves(c) + LeavesOf(r), LeavesOf(Back(kids, slot)),
         SideLeaves(rn, p.rs), post);
  }

  lemma {:induction false} StretchUp(p: Place, t: Tree, slot: nat, ln: Neighbour, rn: Neighbour, pc: Place, o: Outcome,
                                     pre: seq<Node>, post: seq<Node>)
    requires InnerAt(p, t, slot, ln, rn) && o.Erased? && (o.left.Sibling? <==> slot > 0) && (o.right.Sibling? <==> slot < |t.keys|)
    ensures var q := PlaceWithKids(p, KidsAfter(p.r.kids, slot, pc));
            && pre + Stretch(q, ln, rn) + post == PreOf(p, slot, ln, pre) + Stretch(pc, o.left, o.right) + PostOf(p, slot, rn, post)
            && StretchCount(q, ln, rn) == OtherCount(p, slot, ln, rn) + StretchCount(pc, o.left, o.right)
  {
    var kids := p.r.kids;
    StretchAround(p, kids, slot, ln, rn, if slot > 0 then pc.ls else [], pc.r, if slot + 1 < |kids| then pc.rs else [], pre, post);
  }

  ghost function PreOf(p: Place, slot: nat, ln: Neighbour, pre: seq<Node>): seq<Node>
    requires p.r.InnerRef? && slot < |p.r.kids|
  {
    pre + SideLeaves(ln, p.ls) + LeavesOf(Front(p.r.kids, slot))
  }

  ghost function PostOf(p: Place, slot: nat, rn: Neighbour, post: seq<Node>): seq<Node>
    requires p.r.InnerRef? && slot < |p.r.kids|
  {
    LeavesOf(Back(p.r.kids, slot)) + SideLeaves(rn, p.rs) + post
  }

  /** The inner nodes at a place that are not at the place of its child. */
  ghost function OtherCount(p: Place, slot: nat, ln: Neighbour, rn: Neighbour): nat
    requires p.r.InnerRef? && slot < |p.r.kids|
  {
    1 + SideCount(ln, p.ls) + InnerCountOf(Front(p.r.kids, slot)) + InnerCountOf(Back(p.r.kids, slot)) + SideCount(rn, p.rs)
  }

  lemma {:induction false} Nest<T>(pre: seq<T>, l: seq<T>, a: seq<T>, m: seq<T>, b: seq<T>, r: seq<T>, post: seq<T>)
    ensures pre + (l + (a + m + b) + r) + post == (pre + l + a) + m + (b + r + post)
  {
  }

  /** The neighbours of a child are in these slots, across parents if need be. */
  lemma {:induction false} NeighbourSlots(p: Place, t: Tree, slot: nat, ln: Neighbour, rn: Neighbour)
    requires InnerAt(p, t, slot, ln, rn) && PlaceHolds(p, t, ln, rn)
    ensures var inner, pc := p.r.n, ChildPlace(p, t, slot, ln, rn);
            && slot <= inner.slotuse == |t.keys| && inner.slotuse < |inner.childid| && inner.childid[slot] == p.r.kids[slot].n
            && (slot > 0 ==> inner.childid[slot - 1] == pc.left)
            && (slot == 0 ==> if p.left == null then pc.left == null
                              else 0 < p.left.slotuse <= |p.left.childid| && p.left.childid[p.left.slotuse - 1] == pc.left)
            && (slot < |t.keys| ==> inner.childid[slot + 1] == pc.right)
            && (slot == |t.keys| ==> if p.right == null then pc.right == null
                                     else |p.right.childid| > 0 && p.right.childid[0] == pc.right)
    ensures p.r.n !in Nodes(p.r.kids[slot]) && Nodes(p.r.kids[slot]) <= Nodes(p.r)
  {
    OneOfAll(p.r.kids, t.kids, slot);
    LeftSlots(p, t, slot, ln, rn);
    RightSlots(p, t, slot, ln, rn);
  }

  lemma {:induction false} LeftSlots(p: Place, t: Tree, slot: nat, ln: Neighbour, rn: Neighbour)
    requires InnerAt(p, t, slot, ln, rn) && PlaceHolds(p, t, ln, rn)
    ensures var inner, pc := p.r.n, ChildPlace(p, t, slot, ln, rn);
            && (slot > 0 ==> slot <= |inner.childid| && inner.childid[slot - 1] == pc.left)
            && (slot == 0 ==> if p.left == null then pc.left == null
                              else 0 < p.left.slotuse <= |p.left.childid| && p.left.childid[p.left.slotuse - 1] == pc.left)
  {
    if !ln.Nobody? { NeighbourInner(p.left, ln, p.ls, t.level); }
  }

  lemma {:induction false} RightSlots(p: Place, t: Tree, slot: nat, ln: Neighbour, rn: Neighbour)
    requires InnerAt(p, t, slot, ln, rn) && PlaceHolds(p, t, ln, rn)
    ensures var inner, pc := p.r.n, ChildPlace(p, t, slot, ln, rn);
            && (slot < |t.keys| ==> slot + 1 < |inner.childid| && inner.childid[slot + 1] == pc.right)
            && (slot == |t.keys| ==> if p.right == null then pc.right == null
                                     else |p.right.childid| > 0 && p.right.childid[0] == pc.right)
  {
    if !rn.Nobody? { NeighbourInner(p.right, rn, p.rs, t.level); }
  }

  /** A place whose child has not been changed. */
  lemma {:induction false} StandAgain(p: Place, t: Tree, slot: nat, ln: Neighbour, rn: Neighbour)
    requires InnerAt(p, t, slot, ln, rn) && Outside(p, t, slot, ln, rn)
    requires PlaceHolds(ChildPlace(p, t, slot, ln, rn), t.kids[slot], LeftOf(t, slot, ln), RightOf(t, slot, rn))
    ensures PlaceHolds(p, t, ln, rn)
  {
    ChildParts(p, t, slot, ln, rn);
    PutTogether(p.r.kids, t.kids, slot);
    PlaceAgain(p, t, slot, ln, rn);
  }

  /** What the place of a child says about the children and the node itself. */
  lemma {:induction false} ChildParts(p: Place, t: Tree, slot: nat, ln: Neighbour, rn: Neighbour)
    requires InnerAt(p, t, slot, ln, rn)
    requires PlaceHolds(ChildPlace(p, t, slot, ln, rn), t.kids[slot], LeftOf(t, slot, ln), RightOf(t, slot, rn))
    ensures var kids := p.r.kids;
            && Holds(kids[slot], t.kids[slot])
            && HoldsAll(OwnLeft(kids, slot), OwnLeft(t.kids, slot)) && HoldsAll(OwnRight(kids, slot), OwnRight(t.kids, slot))
            && NodesOf(OwnLeft(kids, slot)) !! Nodes(kids[slot]) && NodesOf(OwnRight(kids, slot)) !! Nodes(kids[slot])
            && NodesOf(OwnLeft(kids, slot)) !! NodesOf(OwnRight(kids, slot))
            && InnerHolds(p.r.n, t.level, t.keys, Heads(kids))
  {
  }

  lemma {:induction false} PlaceAgain(p: Place, t: Tree, slot: nat, ln: Neighbour, rn: Neighbour)
    requires InnerAt(p, t, slot, ln, rn) && Outside(p, t, slot, ln, rn)
    requires HoldsAll(p.r.kids, t.kids) && NodesOf(p.r.kids) == Near(p.r.kids, slot) + Far(p.r.kids, slot)
    requires InnerHolds(p.r.n, t.level, t.keys, Heads(p.r.kids))
    ensures PlaceHolds(p, t, ln, rn)
  {
    assert Holds(p.r, t);
  }

  lemma {:induction false} PutTogether(kids: seq<Ref>, ts: seq<Tree>, slot: nat)
    requires slot < |kids| == |ts| && OthersHold(kids, ts, slot) && Holds(kids[slot], ts[slot])
    requires HoldsAll(OwnLeft(kids, slot), OwnLeft(ts, slot)) && HoldsAll(OwnRight(kids, slot), OwnRight(ts, slot))
    requires NodesOf(OwnLeft(kids, slot)) !! Nodes(kids[slot]) && NodesOf(OwnRight(kids, slot)) !! Nodes(kids[slot])
    requires NodesOf(OwnLeft(kids, slot)) !! NodesOf(OwnRight(kids, slot)) && Near(kids, slot) !! Far(kids, slot)
    ensures HoldsAll(kids, ts) && NodesOf(kids) == Near(kids, slot) + Far(kids, slot)
  {
    Pieces(kids, slot);
    Pieces(ts, slot);
    FivePieces(Front(kids, slot), OwnLeft(kids, slot), kids[slot], OwnRight(kids, slot), Back(kids, slot),
               Front(ts, slot), OwnLeft(ts, slot), ts[slot], OwnRight(ts, slot), Back(ts, slot));
  }

  /** What the call on child `slot` returns. */
  ghost function ChildOutcome(key: Key, p: Place, t: Tree, slot: nat, ln: Neighbour, rn: Neighbour): Outcome
    requires InnerAt(p, t, slot, ln, rn)
  {
    ChildContext(t, slot, ln, rn);
    EraseDescend(t.kids[slot], key, LeftOf(t, slot, ln), RightOf(t, slot, rn))
  }

  /** The place and its right neighbour once a child's new last key has been passed up. */
  ghost function KeyedPlace(q: Place, rn: Neighbour, childlast: Option<Key>): Place {
    if childlast.Some? && rn.Sibling? then Rekeyed(q, childlast.value) else q
  }

  ghost function KeyedRight(rn: Neighbour, childlast: Option<Key>): Neighbour {
    if childlast.Some? && rn.Sibling? then rn.(sep := childlast.value) else rn
  }

  method PassLastKey(parent: Node?, parentslot: nat, childlast: Option<Key>, ghost q: Place, ghost t: Tree, ghost ln: Neighbour, ghost rn: Neighbour)
    returns (lastkey: Option<Key>)
    requires PlaceHolds(q, t, ln, rn) && q.parent == parent && q.slot == parentslot
    modifies Just(parent)`slotkey
    ensures lastkey == if childlast.Some? && rn.Sibling? then None else childlast
    ensures PlaceHolds(KeyedPlace(q, rn, childlast), t, ln, KeyedRight(rn, childlast))
  {
    lastkey := None;
    if childlast.Some? {
      lastkey := PassKeyUp(parent, parentslot, childlast.value, q, t, ln, rn);
    }
  }

  /** The child that a merge has emptied may be dropped. */
  lemma {:induction false} DropReady(q: Place, t1: Tree, slot: nat, s: nat, ln: Neighbour, rn: Neighbour)
    requires PlaceHolds(q, t1, ln, rn) && q.r.InnerRef? && t1.Inner? && t1.level >= 1 && |q.r.kids| == |t1.kids| == |t1.keys| + 1
    requires slot <= |t1.keys| && 1 <= s <= |t1.keys| && s == (if SlotUse(t1.kids[slot]) != 0 then slot + 1 else slot) && q.r.kids[s].EmptyRef?
    requires Linked(Dropped(t1, s)) && Level(t1.kids[s]) + 1 == t1.level
    ensures MayDrop(q, t1, s)
    ensures var inner := q.r.n;
            && inner.slotuse == |t1.keys| < |inner.childid|
            && (forall i | 0 <= i < |t1.kids| :: inner.childid[i] == q.r.kids[i].n)
            && q.r.kids[slot].n.slotuse == SlotUse(t1.kids[slot])
            && (q.r.kids[s].n.level == 0 <==> t1.level == 1)
  {
    OneOfAll(q.r.kids, t1.kids, s);
    OneOfAll(q.r.kids, t1.kids, slot);
    OneOfAll(q.r.kids, t1.kids, s - 1);
    assert Dropped(t1, s).kids[s - 1] == t1.kids[s - 1];
  }

  /** What the pure side knows of a node when its child's outcome has come back. */
  ghost predicate Finishable(t: Tree, slot: nat, ln: Neighbour, rn: Neighbour, o: Outcome)
    requires t.Inner? && t.level >= 1 && |t.kids| == |t.keys| + 1 && slot <= |t.keys| && ShapeOfOutcome(t, slot, o)
  {
    var t1, t2, s := PutBack(t, slot, o), AfterChild(t, slot, o), Emptied(slot, o);
    && Context(t.level, ln, rn) && UsableNode(t, t2) && UsableNode(t2, t2)
    && (o.fixmerge ==>
          && 1 <= s <= |t1.keys| && s == (if SlotUse(t1.kids[slot]) != 0 then slot + 1 else slot)
          && Linked(Dropped(t1, s)) && Level(t1.kids[s]) + 1 == t1.level && t2 == Dropped(t1, s))
  }

  /** The slots of an inner node are sorted for the search, and what the call on
      the child it finds will return can be used. */
  lemma {:induction false} EraseSlots(inner: Node, p: Place, t: Tree, ln: Neighbour, rn: Neighbour, key: Key)
    requires t.Inner? && Erasable(t, ln, rn) && PlaceHolds(p, t, ln, rn) && p.r.n == inner && !p.r.EmptyRef?
    ensures inner.slotuse <= |inner.slotkey| && inner.slotkey[..inner.slotuse] == t.keys && SortedKeys(t.keys)
    ensures var slot := LowerSlot(t.keys, key);
            && InnerAt(p, t, slot, ln, rn)
            && var o := ChildOutcome(key, p, t, slot, ln, rn);
               && EraseDescend(t, key, ln, rn) == (if o.NotFound? then NotFound else EraseReturn(t, slot, o, ln, rn))
               && (o.Erased? ==> ShapeOfOutcome(t, slot, o) && Finishable(t, slot, ln, rn, o))
  {
    ChildErased(t, key, ln, rn);
    var slot := LowerSlot(t.keys, key);
    InnerAtPlace(p, t, slot, ln, rn);
    var o := ChildOutcome(key, p, t, slot, ln, rn);
    if o.Erased? {
      ChildFinishable(t, slot, key, ln, rn, o);
    }
  }

  lemma {:induction false} ChildFinishable(t: Tree, slot: nat, key: Key, ln: Neighbour, rn: Neighbour, o: Outcome)
    requires t.Inner? && Erasable(t, ln, rn) && slot == LowerSlot(t.keys, key) && Context(t.level - 1, LeftOf(t, slot, ln), RightOf(t, slot, rn))
    requires Shape(t.kids[slot], 1) && Level(t.kids[slot]) == t.level - 1
    requires o == EraseDescend(t.kids[slot], key, LeftOf(t, slot, ln), RightOf(t, slot, rn)) && o.Erased?
    ensures ShapeOfOutcome(t, slot, o) && Finishable(t, slot, ln, rn, o)
  {
    ChildErased(t, key, ln, rn);
    if o.fixmerge {
      EmptiedLevel(t.kids[slot], key, LeftOf(t, slot, ln), RightOf(t, slot, rn));
      EmptiedInPlace(t, slot, o);
    }
  }

  lemma {:induction false} EmptiedInPlace(t: Tree, slot: nat, o: Outcome)
    requires t.Inner? && t.level >= 1 && |t.kids| == |t.keys| + 1 && slot <= |t.keys| && ShapeOfOutcome(t, slot, o) && o.fixmerge
    requires EmptiedAt(t.level - 1, o)
    ensures var t1, s := PutBack(t, slot, o), Emptied(slot, o);
            && 1 <= s <= |t1.keys| && s == (if SlotUse(t1.kids[slot]) != 0 then slot + 1 else slot)
            && Level(t1.kids[s]) + 1 == t1.level && DropEmptied(t1, slot) == Dropped(t1, s)
  {
  }

  lemma {:induction false} SiblingNodes(p: Place, t: Tree, ln: Neighbour, rn: Neighbour)
    requires PlaceHolds(p, t, ln, rn)
    ensures SiblingNode(ln, p.left) <= SideNodes(ln, p.ls) && SiblingNode(rn, p.right) <= SideNodes(rn, p.rs)
    ensures p.r.n in Nodes(p.r)
  {
    if ln.Sibling? { OneOfAll(p.ls, [ln.t], 0); }
    if rn.Sibling? { OneOfAll(p.rs, [rn.t], 0); }
  }
}
