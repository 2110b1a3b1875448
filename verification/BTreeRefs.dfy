/** Which nodes make up a tree in memory, and what it means that they hold it. */
module BTreeRefs {
  import opened OrderedItems
  import opened BTreeModel
  import opened BTreeNode

  /** The nodes of a tree, arranged as the tree is. `EmptyRef` stands for a node
      that a merge has emptied and its parent has yet to free. An inner node
      comes with the set of all nodes below and including it. */
  datatype Ref =
    | LeafRef(n: Node)
    | InnerRef(n: Node, kids: seq<Ref>, nodes: set<Node>)
    | EmptyRef(n: Node)

  ghost function Nodes(r: Ref): set<Node> {
    if r.InnerRef? then r.nodes else {r.n}
  }

  ghost function NodesOf(rs: seq<Ref>): set<Node> {
    set i, n | 0 <= i < |rs| && n in Nodes(rs[i]) :: n
  }

  /** A node with its children. */
  ghost function Family(n: Node, kids: seq<Ref>): Ref {
    InnerRef(n, kids, {n} + NodesOf(kids))
  }

  /** The leaves of a tree, left to right. */
  ghost function Leaves(r: Ref): seq<Node>
    decreases r, 1
  {
    match r
    case LeafRef(n) => [n]
    case InnerRef(_, kids, _) => LeavesOf(kids)
    case EmptyRef(_) => []
  }

  ghost function LeavesOf(rs: seq<Ref>): seq<Node>
    decreases rs, 0
  {
    if rs == [] then [] else Leaves(rs[0]) + LeavesOf(rs[1..])
  }

  ghost function Heads(rs: seq<Ref>): (hs: seq<Node>)
    ensures |hs| == |rs| && forall i | 0 <= i < |rs| :: hs[i] == rs[i].n
  {
    seq(|rs|, i requires 0 <= i < |rs| => rs[i].n)
  }

  /** The nodes `r` hold the tree `t`, and no node is used twice. The links
      between leaves are not read. */
  ghost predicate Holds(r: Ref, t: Tree)
    reads Nodes(r)`level, Nodes(r)`slotuse, Nodes(r)`slotkey, Nodes(r)`slotdata, Nodes(r)`childid
    decreases r, 1
  {
    match r
    case LeafRef(n) => t.Leaf? && LeafHolds(n, t.items)
    case EmptyRef(n) => SlotUse(t) == 0 && Items(t) == [] && n.slotuse == 0 && n.level == Level(t)
    case InnerRef(n, kids, nodes) =>
      && t.Inner?
      && n !in NodesOf(kids) && nodes == {n} + NodesOf(kids)
      && InnerHolds(n, t.level, t.keys, Heads(kids))
      && HoldsAll(kids, t.kids)
  }

  ghost predicate HoldsAll(rs: seq<Ref>, ts: seq<Tree>)
    reads NodesOf(rs)`level, NodesOf(rs)`slotuse, NodesOf(rs)`slotkey, NodesOf(rs)`slotdata, NodesOf(rs)`childid
    decreases rs, 0
  {
    if rs == [] || ts == [] then |rs| == |ts|
    else
      NodesOfCons(rs);
      && Holds(rs[0], ts[0])
      && Nodes(rs[0]) !! NodesOf(rs[1..])
      && HoldsAll(rs[1..], ts[1..])
  }

  lemma {:induction false} NodesOfCons(rs: seq<Ref>)
    requires rs != []
    ensures NodesOf(rs) == Nodes(rs[0]) + NodesOf(rs[1..])
  {
    NodesOfAppend([rs[0]], rs[1..]);
    NodesOfOne(rs[0]);
    assert rs == [rs[0]] + rs[1..];
  }

  lemma {:induction false} NodesOfAppend(a: seq<Ref>, b: seq<Ref>)
    ensures NodesOf(a + b) == NodesOf(a) + NodesOf(b)
  {
    forall n | n in NodesOf(a) ensures n in NodesOf(a + b) {
      var i :| 0 <= i < |a| && n in Nodes(a[i]);
      assert (a + b)[i] == a[i];
    }
    forall n | n in NodesOf(b) ensures n in NodesOf(a + b) {
      var i :| 0 <= i < |b| && n in Nodes(b[i]);
      assert (a + b)[|a| + i] == b[i];
    }
  }

  lemma {:induction false} NodesOfOne(r: Ref)
    ensures NodesOf([r]) == Nodes(r)
  {
    forall n | n in Nodes(r) ensures n in NodesOf([r]) {
      assert n in Nodes([r][0]);
    }
  }

  /** The node at a place of the chain, null beyond its ends. */
  ghost function At(chain: seq<Node>, i: int): Node? {
    if 0 <= i < |chain| then chain[i] else null
  }

  ghost predicate Distinct(chain: seq<Node>) {
    forall i, j | 0 <= i < j < |chain| :: chain[i] != chain[j]
  }

  /** The links of the leaves agree with their order. */
  ghost predicate Chained(chain: seq<Node>)
    reads chain`prevleaf, chain`nextleaf
  {
    forall i | 0 <= i < |chain| :: LinkedAt(chain, i)
  }

  ghost predicate LinkedAt(chain: seq<Node>, i: nat)
    requires i < |chain|
    reads chain`prevleaf, chain`nextleaf
  {
    chain[i].prevleaf == At(chain, i - 1) && chain[i].nextleaf == At(chain, i + 1)
  }

  lemma {:induction false} LeavesOfAppend(a: seq<Ref>, b: seq<Ref>)
    ensures LeavesOf(a + b) == LeavesOf(a) + LeavesOf(b)
  {
    if a == [] {
      assert a + b == b;
    } else {
      LeavesOfAppend(a[1..], b);
      assert (a + b)[1..] == a[1..] + b;
    }
  }

  lemma {:induction false} LeavesAround(rs: seq<Ref>, i: nat)
    requires i < |rs|
    ensures LeavesOf(rs) == LeavesOf(rs[..i]) + Leaves(rs[i]) + LeavesOf(rs[i + 1..])
  {
    LeavesOfThree(rs[..i], rs[i], rs[i + 1..]);
    CutOut(rs, i);
  }

  lemma {:induction false} LeavesOfThree(a: seq<Ref>, r: Ref, b: seq<Ref>)
    ensures LeavesOf(a + [r] + b) == LeavesOf(a) + Leaves(r) + LeavesOf(b)
  {
    LeavesOfAppend(a + [r], b);
    LeavesOfAppend(a, [r]);
    assert LeavesOf([r]) == Leaves(r);
  }

  /** How many inner nodes a tree has. */
  ghost function InnerCount(r: Ref): nat
    decreases r, 1
  {
    if r.InnerRef? then 1 + InnerCountOf(r.kids) else 0
  }

  ghost function InnerCountOf(rs: seq<Ref>): nat
    decreases rs, 0
  {
    if rs == [] then 0 else InnerCount(rs[0]) + InnerCountOf(rs[1..])
  }

  lemma {:induction false} InnerCountAppend(a: seq<Ref>, b: seq<Ref>)
    ensures InnerCountOf(a + b) == InnerCountOf(a) + InnerCountOf(b)
  {
    if a == [] {
      assert a + b == b;
    } else {
      InnerCountAppend(a[1..], b);
      assert (a + b)[1..] == a[1..] + b;
    }
  }

  lemma {:induction false} LeavesOfOne(r: Ref)
    ensures LeavesOf([r]) == Leaves(r) && InnerCountOf([r]) == InnerCount(r)
  {
  }

  lemma {:induction false} InnerCountAround(rs: seq<Ref>, i: nat)
    requires i < |rs|
    ensures InnerCountOf(rs) == InnerCountOf(rs[..i]) + InnerCount(rs[i]) + InnerCountOf(rs[i + 1..])
  {
    InnerCountAppend(rs[..i] + [rs[i]], rs[i + 1..]);
    InnerCountAppend(rs[..i], [rs[i]]);
    CutOut(rs, i);
    assert InnerCountOf([rs[i]]) == InnerCount(rs[i]);
  }

  lemma {:induction false} HoldsAllAppend(a: seq<Ref>, b: seq<Ref>, ta: seq<Tree>, tb: seq<Tree>)
    requires |a| == |ta|
    ensures HoldsAll(a + b, ta + tb) <==> HoldsAll(a, ta) && HoldsAll(b, tb) && NodesOf(a) !! NodesOf(b)
  {
    if a == [] {
      assert a + b == b && ta + tb == tb;
    } else {
      HoldsAllAppend(a[1..], b, ta[1..], tb);
      assert (a + b)[1..] == a[1..] + b && (ta + tb)[1..] == ta[1..] + tb;
      NodesOfAppend(a[1..], b);
    }
  }

  lemma {:induction false} HoldsAllOne(r: Ref, t: Tree)
    ensures HoldsAll([r], [t]) <==> Holds(r, t)
  {
  }

  lemma {:induction false} HoldsAllLength(rs: seq<Ref>, ts: seq<Tree>)
    requires HoldsAll(rs, ts)
    ensures |rs| == |ts|
  {
    if rs != [] && ts != [] {
      HoldsAllLength(rs[1..], ts[1..]);
    }
  }

  /** Lists with one tree singled out. */
  lemma {:induction false} HoldsAllThree(a: seq<Ref>, c: Ref, b: seq<Ref>, ta: seq<Tree>, t: Tree, tb: seq<Tree>)
    requires |a| == |ta|
    ensures HoldsAll(a + [c] + b, ta + [t] + tb) <==>
            HoldsAll(a + b, ta + tb) && Holds(c, t) && Nodes(c) !! NodesOf(a + b)
    ensures NodesOf(a + [c] + b) == Nodes(c) + NodesOf(a + b)
  {
    HoldsAllAppend(a + [c], b, ta + [t], tb);
    HoldsAllAppend(a, [c], ta, [t]);
    HoldsAllAppend(a, b, ta, tb);
    HoldsAllOne(c, t);
    NodesOfAppend(a + [c], b);
    NodesOfAppend(a, [c]);
    NodesOfAppend(a, b);
    NodesOfOne(c);
  }

  lemma {:induction false} TakeOut(kids: seq<Ref>, ts: seq<Tree>, slot: nat)
    requires HoldsAll(kids, ts) && slot < |kids|
    ensures |ts| == |kids| && Holds(kids[slot], ts[slot])
    ensures HoldsAll(kids[..slot] + kids[slot + 1..], ts[..slot] + ts[slot + 1..])
    ensures Nodes(kids[slot]) !! NodesOf(kids[..slot] + kids[slot + 1..])
    ensures NodesOf(kids) == Nodes(kids[slot]) + NodesOf(kids[..slot] + kids[slot + 1..])
  {
    HoldsAllLength(kids, ts);
    CutOut(kids, slot);
    CutOut(ts, slot);
    HoldsAllThree(kids[..slot], kids[slot], kids[slot + 1..], ts[..slot], ts[slot], ts[slot + 1..]);
  }
}
