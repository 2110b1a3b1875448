/** The B+ tree in memory: insertion, erasure, lookups and the statistics. */
module BPlusTree {
  import opened Sequences
  import opened OrderedItems
  import opened Wrappers
  import opened BTreeModel
  import opened BTreeInsert
  import opened BTreeNode
  import opened BTreeMoves
  import opened BTreeRefs
  import opened BTreeErase
  import opened BTreeEraseProof
  import opened BTreeErasing
  import opened BTreeFixing
  import opened BTreeChild
  import opened BTreeLookup
  import BTreeGrowth
  import BTreeShape

  class BTree {
    var root: Node?
    var headleaf: Node?
    var tailleaf: Node?
    // The statistics the tree keeps.
    var itemcount: nat
    var leaves: nat
    var innernodes: nat
    // The leaves in the order of their links.
    ghost var chain: seq<Node>
    // The nodes of the tree, if there is one, and the tree they hold.
    ghost var refs: seq<Ref>
    ghost var content: Option<Tree>

    /** The doubly linked list of leaves is intact and counted; `spare` leaves are
        counted that a merge has emptied and taken out of the list. */
    ghost predicate LinksOk(spare: nat)
      reads this`chain, this`headleaf, this`tailleaf, this`leaves, chain`prevleaf, chain`nextleaf
    {
      && Distinct(chain) && Chained(chain)
      && headleaf == At(chain, 0) && tailleaf == At(chain, |chain| - 1)
      && leaves == |chain| + spare
    }

    /** The key/data pairs in the tree, in order. */
    ghost function Contents(): seq<Item>
      reads this`content
    {
      RootItems(content)
    }

    constructor ()
      ensures Valid() && Contents() == []
    {
      root, headleaf, tailleaf := null, null, null;
      itemcount, leaves, innernodes := 0, 0, 0;
      chain, refs, content := [], [], None;
    }

    /** The nodes from the root down hold `t`, and the links and counts agree with it. */
    ghost predicate RootHolds(t: Tree)
      reads this`root, this`refs, this`innernodes
      reads this`chain, this`headleaf, this`tailleaf, this`leaves, chain`prevleaf, chain`nextleaf
      reads NodesOf(refs)`level, NodesOf(refs)`slotuse, NodesOf(refs)`slotkey, NodesOf(refs)`slotdata, NodesOf(refs)`childid
    {
      && |refs| == 1 && refs[0].n == root && !refs[0].EmptyRef?
      && HoldsAll(refs, [t])
      && LinksOk(0) && chain == LeavesOf(refs)
      && innernodes == InnerCountOf(refs)
    }

    /** What the tree's own self-check asks: the nodes form a valid tree, the leaves
        are linked in its order, and the statistics are the true counts. */
    ghost predicate Valid()
      reads this, chain`prevleaf, chain`nextleaf
      reads NodesOf(refs)`level, NodesOf(refs)`slotuse, NodesOf(refs)`slotkey, NodesOf(refs)`slotdata, NodesOf(refs)`childid
    {
      && itemcount == |RootItems(content)|
      && if content.Some? then root != null && RootHolds(content.value) && BTreeModel.Valid(content.value)
         else root == null && refs == [] && chain == [] && LinksOk(0) && innernodes == 0
    }

    /** Insert a pair unless its key is there already. */
    method Insert(key: Key, value: Data) returns (inserted: bool)
      requires Valid()
      modifies this, NodesOf(refs), chain`prevleaf, chain`nextleaf
      ensures Valid() && fresh(NodesOf(refs) - old(NodesOf(refs)))
      ensures content == Some(BTreeInsert.Insert(old(content), key, value).0)
      ensures Contents() == Put(old(Contents()), key, value)
      ensures inserted <==> !HasKey(old(Contents()), key)
      ensures if inserted then BTreeGrowth.RootRows(old(content), content.value, key) else content == old(content)
    {
      hide Valid, RootHolds;
      ghost var t := RootOrLeaf(content);
      ValidContent();
      InsertFacts(content, key, value, t);
      EnsureRoot();
      ghost var added;
      inserted, added := InsertBelowRoot(key, value, t);
      CountInserted(inserted, NewRoot(BTreeInsert.InsertDescend(t, key, value)));
    }

    lemma {:induction false} ValidContent()
      requires Valid()
      ensures itemcount == |RootItems(content)| && (content.Some? ==> BTreeModel.Valid(content.value))
    {
    }

    method CountInserted(inserted: bool, ghost t: Tree)
      requires root != null && RootHolds(t) && BTreeModel.Valid(t)
      requires |Items(t)| == itemcount + if inserted then 1 else 0
      modifies this`itemcount, this`content
      ensures Valid() && content == Some(t)
    {
      if inserted {
        itemcount := itemcount + 1;
      }
      content := Some(t);
    }

    /** An empty tree gets an empty leaf for its root. */
    method EnsureRoot()
      requires Valid()
      modifies this`root, this`headleaf, this`tailleaf, this`leaves, this`chain, this`refs
      ensures root != null && RootHolds(RootOrLeaf(content)) && fresh(NodesOf(refs) - old(NodesOf(refs)))
      ensures chain == old(chain) || fresh(chain)
      ensures refs == old(refs) || fresh(NodesOf(refs))
    {
      if root == null {
        root := new Node.AllocateLeaf();
        leaves := leaves + 1;
        headleaf, tailleaf := root, root;
        chain, refs := [root], [LeafRef(root)];
      }
    }

    method InsertBelowRoot(key: Key, value: Data, ghost t: Tree) returns (inserted: bool, ghost added: set<Node>)
      requires root != null && RootHolds(t) && Shaped(t) && Sorted(Items(t))
      modifies this`root, this`refs, this`innernodes, this`chain, this`tailleaf, this`leaves
      modifies NodesOf(refs), chain`prevleaf, chain`nextleaf
      ensures root != null && RootHolds(NewRoot(BTreeInsert.InsertDescend(t, key, value)))
      ensures fresh(added) && NodesOf(refs) <= old(NodesOf(refs)) + added
      ensures inserted == BTreeInsert.InsertDescend(t, key, value).inserted
    {
      var splitkey, splitnode;
      ghost var r, s, top;
      inserted, splitkey, splitnode, r, s, added := DescendFromRoot(key, value, t);
      top := GrowRoot(splitkey, splitnode, r, s, BTreeInsert.InsertDescend(t, key, value));
      added := added + top;
    }

    method DescendFromRoot(key: Key, value: Data, ghost t: Tree)
      returns (inserted: bool, splitkey: Key, splitnode: Node?, ghost r: Ref, ghost s: seq<Ref>, ghost added: set<Node>)
      requires root != null && RootHolds(t) && Shaped(t) && Sorted(Items(t))
      modifies this`innernodes, this`chain, this`tailleaf, this`leaves
      modifies NodesOf(refs), chain`prevleaf, chain`nextleaf
      ensures var u := BTreeInsert.InsertDescend(t, key, value);
              inserted == u.inserted && ResultHeld(u, splitkey, splitnode, r, s)
      ensures r.n == root && LinksOk(0)
      ensures chain == Leaves(r) + LeavesOf(s) && innernodes == InnerCount(r) + InnerCountOf(s)
      ensures fresh(added) && Nodes(r) + NodesOf(s) <= old(NodesOf(refs)) + added
    {
      RootAlone(refs, t);
      inserted, splitkey, splitnode, r, s, added := InsertDescend(root, key, value, refs[0], t, [], []);
      NothingAround(Leaves(r), LeavesOf(s));
    }

    /** A split root gets a new root above it. */
    method GrowRoot(splitkey: Key, splitnode: Node?, ghost r: Ref, ghost s: seq<Ref>, ghost u: Result) returns (ghost added: set<Node>)
      requires ResultHeld(u, splitkey, splitnode, r, s) && root != null && r.n == root
      requires LinksOk(0) && chain == Leaves(r) + LeavesOf(s) && innernodes == InnerCount(r) + InnerCountOf(s)
      modifies this`root, this`innernodes, this`refs
      ensures root != null && RootHolds(NewRoot(u)) && fresh(added) && NodesOf(refs) <= Nodes(r) + NodesOf(s) + added
    {
      added := {};
      if splitnode == null {
        RootStays(r, u.tree);
        refs := [r];
      } else {
        root := NewRootAbove(splitkey, splitnode, r, s, u);
        added := {root};
        refs := [Family(root, [r] + s)];
      }
    }

    lemma {:induction false} RootStays(r: Ref, t: Tree)
      requires Holds(r, t) && !r.EmptyRef? && r.n == root
      requires LinksOk(0) && chain == Leaves(r) + [] && innernodes == InnerCount(r)
      ensures RootHeldBy(r, t)
    {
      NodesOfOne(r);
      HoldsAllOne(r, t);
      LeavesOfOne(r);
    }

    method NewRootAbove(splitkey: Key, splitnode: Node, ghost r: Ref, ghost s: seq<Ref>, ghost u: Result) returns (newroot: Node)
      requires ResultHeld(u, splitkey, splitnode, r, s) && root != null && r.n == root
      requires LinksOk(0) && chain == Leaves(r) + LeavesOf(s) && innernodes == InnerCount(r) + InnerCountOf(s)
      modifies this`innernodes
      ensures fresh(newroot)
      ensures var rs := [Family(newroot, [r] + s)];
              && HoldsAll(rs, [NewRoot(u)]) && NodesOf(rs) == {newroot} + Nodes(r) + NodesOf(s)
              && LinksOk(0) && chain == LeavesOf(rs) && innernodes == InnerCountOf(rs)
    {
      newroot := NewInnerRoot(splitkey, splitnode);
      NewRootHeld(newroot, splitkey, splitnode, r, s, u);
    }

    method NewInnerRoot(splitkey: Key, splitnode: Node) returns (newroot: Node)
      requires root != null
      modifies this`innernodes
      ensures fresh(newroot) && InnerHolds(newroot, root.level + 1, [splitkey], [root, splitnode])
      ensures innernodes == old(innernodes) + 1
    {
      newroot := new Node.AllocateInner(root.level + 1);
      innernodes := innernodes + 1;
      newroot.slotkey := newroot.slotkey[0 := splitkey];
      newroot.childid := newroot.childid[0 := root][1 := splitnode];
      newroot.slotuse := 1;
    }

    /** Link a new leaf in behind `leaf`. */
    method LinkBehind(leaf: Node, newleaf: Node, ghost i: nat)
      requires LinksOk(0) && i < |chain| && chain[i] == leaf && newleaf !in chain
      modifies this`tailleaf, this`leaves, this`chain, leaf`nextleaf, newleaf`nextleaf, newleaf`prevleaf, chain`prevleaf
      ensures LinksOk(0)
      ensures chain == old(chain)[..i + 1] + [newleaf] + old(chain)[i + 1..]
    {
      ghost var before := chain;
      assert LinkedAt(chain, i);
      leaves := leaves + 1;
      newleaf.nextleaf := leaf.nextleaf;
      if newleaf.nextleaf == null {
        tailleaf := newleaf;
      } else {
        newleaf.nextleaf.prevleaf := newleaf;
      }
      leaf.nextleaf := newleaf;
      newleaf.prevleaf := leaf;
      chain := chain[..i + 1] + [newleaf] + chain[i + 1..];
      forall j | 0 <= j < |chain| ensures LinkedAt(chain, j) {
        assert j <= i ==> old(LinkedAt(before, j));
        assert j > i + 1 ==> old(LinkedAt(before, j - 1));
      }
    }

    /** Split a full leaf in two and link the new one in behind it. */
    method SplitLeafNode(leaf: Node, ghost items: seq<Item>, ghost i: nat) returns (newkey: Key, newleaf: Node)
      requires LinksOk(0) && i < |chain| && chain[i] == leaf
      requires LeafHolds(leaf, items) && |items| == leafslotmax
      modifies this`tailleaf, this`leaves, this`chain
      modifies leaf`slotuse, leaf`nextleaf, chain`prevleaf
      ensures fresh(newleaf) && LinksOk(0)
      ensures chain == old(chain)[..i + 1] + [newleaf] + old(chain)[i + 1..]
      ensures LeafHolds(leaf, items[..|items| / 2]) && LeafHolds(newleaf, items[|items| / 2..])
      ensures newkey == items[|items| / 2 - 1].key
    {
      newleaf := new Node.AllocateLeaf();
      LinkBehind(leaf, newleaf, i);
      SplitLeafSlots(leaf, newleaf, items);
      newkey := leaf.slotkey[leaf.slotuse - 1];
    }

    method InsertInFullLeaf(leaf: Node, slot: nat, key: Key, value: Data, ghost items: seq<Item>, ghost i: nat)
      returns (splitkey: Key, splitnode: Node)
      requires LinksOk(0) && i < |chain| && chain[i] == leaf
      requires LeafHolds(leaf, items) && |items| == leafslotmax && slot <= |items|
      requires forall j | 0 <= j < slot :: items[j].key < key
      requires forall j | slot <= j < |items| :: key < items[j].key
      modifies this`tailleaf, this`leaves, this`chain
      modifies leaf`slotuse, leaf`slotkey, leaf`slotdata, leaf`nextleaf, chain`prevleaf
      ensures LinksOk(0)
      ensures fresh(splitnode) && chain == old(chain)[..i + 1] + [splitnode] + old(chain)[i + 1..]
      ensures var r := SplitLeaf(items, slot, Item(key, value));
              && splitkey == r.split.value.key
              && LeafHolds(leaf, r.tree.items)
              && LeafHolds(splitnode, r.split.value.right.items)
    {
      splitkey, splitnode := SplitLeafNode(leaf, items, i);
      ghost var mid := |items| / 2;
      if slot >= leaf.slotuse {
        InsertIntoLeaf(splitnode, key, value, items[mid..], slot - mid);
      } else {
        InsertIntoLeaf(leaf, key, value, items[..mid], slot);
      }
    }

    /** The work of a leaf: refuse a present key, or insert it, splitting a full leaf first. */
    method InsertInLeaf(leaf: Node, key: Key, value: Data, ghost items: seq<Item>, ghost i: nat)
      returns (inserted: bool, splitkey: Key, splitnode: Node?)
      requires LinksOk(0) && i < |chain| && chain[i] == leaf
      requires LeafHolds(leaf, items) && Sorted(items)
      modifies this`tailleaf, this`leaves, this`chain
      modifies leaf`slotuse, leaf`slotkey, leaf`slotdata, leaf`nextleaf, chain`prevleaf
      ensures LinksOk(0)
      ensures var r := InsertLeaf(items, key, value);
              && inserted == r.inserted
              && LeafHolds(leaf, r.tree.items)
              && (splitnode != null <==> r.split.Some?)
              && (splitnode == null ==> chain == old(chain))
              && (splitnode != null ==>
                    && fresh(splitnode) && splitkey == r.split.value.key
                    && LeafHolds(splitnode, r.split.value.right.items)
                    && chain == old(chain)[..i + 1] + [splitnode] + old(chain)[i + 1..])
    {
      KeysOfLeaf(leaf, items);
      var slot := FindLower(leaf, key);
      inserted, splitkey, splitnode := InsertAtSlot(leaf, slot, key, value, items, i);
    }

    /** The same once the search has found the first slot not below the key. */
    method InsertAtSlot(leaf: Node, slot: nat, key: Key, value: Data, ghost items: seq<Item>, ghost i: nat)
      returns (inserted: bool, splitkey: Key, splitnode: Node?)
      requires LinksOk(0) && i < |chain| && chain[i] == leaf
      requires LeafHolds(leaf, items) && Sorted(items) && slot == LowerSlot(Keys(items), key)
      modifies this`tailleaf, this`leaves, this`chain
      modifies leaf`slotuse, leaf`slotkey, leaf`slotdata, leaf`nextleaf, chain`prevleaf
      ensures LinksOk(0)
      ensures var r := InsertLeaf(items, key, value);
              && inserted == r.inserted
              && LeafHolds(leaf, r.tree.items)
              && (splitnode != null <==> r.split.Some?)
              && (splitnode == null ==> chain == old(chain))
              && (splitnode != null ==>
                    && fresh(splitnode) && splitkey == r.split.value.key
                    && LeafHolds(splitnode, r.split.value.right.items)
                    && chain == old(chain)[..i + 1] + [splitnode] + old(chain)[i + 1..])
    {
      hide LinksOk, LowerSlot;
      splitkey, splitnode := 0, null;
      FoundAtLowerSlot(items, key);
      if slot < leaf.slotuse && leaf.slotkey[slot] == key {
        return false, splitkey, splitnode;
      }
      if leaf.slotuse == leafslotmax {
        splitkey, splitnode := InsertInFullLeaf(leaf, slot, key, value, items, i);
      } else {
        InsertIntoLeaf(leaf, key, value, items, slot);
      }
      inserted := true;
    }

    /** The work of an inner node whose child `slot` was split. */
    method InsertChildAt(inner: Node, slot: nat, newkey: Key, newchild: Node,
                         ghost level: nat, ghost keys: seq<Key>, ghost kids: seq<Node>)
      returns (splitkey: Key, splitnode: Node?)
      requires InnerHolds(inner, level, keys, kids) && |kids| == |keys| + 1 && slot <= |keys|
      modifies this`innernodes, inner`slotuse, inner`slotkey, inner`childid
      ensures InnerSplit(inner, splitnode, splitkey, level, keys, kids, slot, newkey, newchild)
      ensures splitnode != null ==> fresh(splitnode)
      ensures innernodes == old(innernodes) + if splitnode == null then 0 else 1
    {
      splitkey, splitnode := 0, null;
      if inner.slotuse < innerslotmax {
        InsertIntoInner(inner, slot, newkey, newchild, level, keys, kids);
        return;
      }
      splitkey, splitnode := SplitAndInsert(inner, slot, newkey, newchild, level, keys, kids);
    }

    /** A full inner node is split, and the new child goes to one of the parts. */
    method SplitAndInsert(inner: Node, slot: nat, newkey: Key, newchild: Node,
                          ghost level: nat, ghost keys: seq<Key>, ghost kids: seq<Node>)
      returns (splitkey: Key, splitnode: Node)
      requires InnerHolds(inner, level, keys, kids) && |kids| == |keys| + 1 && slot <= |keys| == innerslotmax
      modifies this`innernodes, inner`slotuse, inner`slotkey, inner`childid
      ensures InnerSplit(inner, splitnode, splitkey, level, keys, kids, slot, newkey, newchild)
      ensures fresh(splitnode) && innernodes == old(innernodes) + 1
    {
      var mid := SplitPoint(inner.slotuse, slot);
      splitnode := new Node.AllocateInner(inner.level);
      innernodes := innernodes + 1;
      SplitInnerSlots(inner, splitnode, mid, level, keys, kids);
      splitkey := PlaceInParts(inner, splitnode, slot, newkey, newchild, mid, level, keys, kids);
    }

    method PlaceInParts(inner: Node, splitnode: Node, slot: nat, newkey: Key, newchild: Node, mid: nat,
                        ghost level: nat, ghost keys: seq<Key>, ghost kids: seq<Node>)
      returns (splitkey: Key)
      requires inner != splitnode && |kids| == |keys| + 1 && slot <= |keys| == innerslotmax && mid == SplitPoint(|keys|, slot)
      requires InnerHolds(inner, level, keys[..mid], kids[..mid + 1]) && InnerHolds(splitnode, level, keys[mid + 1..], kids[mid + 1..])
      requires inner.slotkey[mid] == keys[mid]
      modifies inner`slotuse, inner`slotkey, inner`childid, splitnode`slotuse, splitnode`slotkey, splitnode`childid
      ensures InnerSplit(inner, splitnode, splitkey, level, keys, kids, slot, newkey, newchild)
    {
      splitkey := inner.slotkey[mid];
      if slot == inner.slotuse + 1 && inner.slotuse < splitnode.slotuse {
        // The new key becomes the split key.
        PlaceBetween(inner, splitnode, splitkey, newchild, mid, level, keys, kids);
        splitkey := newkey;
        PartsAtNew(inner, splitnode, level, keys, kids, slot, newkey, newchild);
      } else if slot >= inner.slotuse + 1 {
        InsertIntoInner(splitnode, slot - (inner.slotuse + 1), newkey, newchild, level, keys[mid + 1..], kids[mid + 1..]);
        PartsBeforeNew(inner, splitnode, level, keys, kids, slot, newkey, newchild, mid);
      } else {
        InsertIntoInner(inner, slot, newkey, newchild, level, keys[..mid], kids[..mid + 1]);
        PartsAfterNew(inner, splitnode, level, keys, kids, slot, newkey, newchild, mid);
      }
    }

    method PlaceBetween(inner: Node, newinner: Node, splitkey: Key, newchild: Node, mid: nat,
                        ghost level: nat, ghost keys: seq<Key>, ghost kids: seq<Node>)
      requires inner != newinner && |kids| == |keys| + 1 && |keys| == innerslotmax && mid < |keys| && splitkey == keys[mid]
      requires InnerHolds(inner, level, keys[..mid], kids[..mid + 1]) && InnerHolds(newinner, level, keys[mid + 1..], kids[mid + 1..])
      modifies inner`slotuse, inner`slotkey, inner`childid, newinner`childid
      ensures InnerHolds(inner, level, keys[..mid + 1], kids[..mid + 2])
      ensures InnerHolds(newinner, level, keys[mid + 1..], [newchild] + kids[mid + 2..])
    {
      inner.slotkey := inner.slotkey[inner.slotuse := splitkey];
      inner.childid := inner.childid[inner.slotuse + 1 := newinner.childid[0]];
      inner.slotuse := inner.slotuse + 1;
      newinner.childid := newinner.childid[0 := newchild];
    }

    /** Insert below node `n`, which holds the tree `t`. The nodes afterwards hold
        what the insertion function returns, and the leaves stay linked in order. */
    method InsertDescend(n: Node, key: Key, value: Data,
                         ghost r: Ref, ghost t: Tree, ghost pre: seq<Node>, ghost post: seq<Node>)
      returns (inserted: bool, splitkey: Key, splitnode: Node?, ghost r': Ref, ghost s: seq<Ref>, ghost added: set<Node>)
      requires r.n == n && !r.EmptyRef? && Holds(r, t) && Shaped(t) && Sorted(Items(t))
      requires LinksOk(0) && chain == pre + Leaves(r) + post
      modifies this`tailleaf, this`leaves, this`innernodes, this`chain
      modifies Nodes(r), chain`prevleaf, chain`nextleaf
      ensures LinksOk(0) && chain == pre + Leaves(r') + LeavesOf(s) + post
      ensures var u := BTreeInsert.InsertDescend(t, key, value);
              inserted == u.inserted && ResultHeld(u, splitkey, splitnode, r', s)
      ensures r'.n == n
      ensures fresh(added) && Nodes(r') + NodesOf(s) <= Nodes(r) + added
      ensures innernodes == old(innernodes) - InnerCount(r) + InnerCount(r') + InnerCountOf(s)
      decreases t, 4
    {
      hide LinksOk, ResultHeld, Shaped;
      if n.level == 0 {
        inserted, splitkey, splitnode, r', s, added := InsertDescendLeaf(n, key, value, r, t, pre, post);
      } else {
        inserted, splitkey, splitnode, r', s, added := InsertDescendInner(n, key, value, r, t, pre, post);
      }
    }

    method InsertDescendLeaf(n: Node, key: Key, value: Data,
                             ghost r: Ref, ghost t: Tree, ghost pre: seq<Node>, ghost post: seq<Node>)
      returns (inserted: bool, splitkey: Key, splitnode: Node?, ghost r': Ref, ghost s: seq<Ref>, ghost added: set<Node>)
      requires r == LeafRef(n) && t.Leaf? && LeafHolds(n, t.items) && Sorted(t.items)
      requires LinksOk(0) && chain == pre + [n] + post
      modifies this`tailleaf, this`leaves, this`chain, n, chain`prevleaf
      ensures LinksOk(0) && chain == pre + Leaves(r') + LeavesOf(s) + post
      ensures var u := InsertLeaf(t.items, key, value);
              inserted == u.inserted && ResultHeld(u, splitkey, splitnode, r', s)
      ensures r' == r && InnerCountOf(s) == 0
      ensures fresh(added) && Nodes(r') + NodesOf(s) <= Nodes(r) + added
    {
      assert chain[|pre|] == n;
      inserted, splitkey, splitnode := InsertInLeaf(n, key, value, t.items, |pre|);
      r' := r;
      s := if splitnode == null then [] else [LeafRef(splitnode)];
      added := if splitnode == null then {} else {splitnode};
      ChainAfterLeaf(pre, n, post, splitnode);
    }

    method InsertDescendInner(n: Node, key: Key, value: Data,
                              ghost r: Ref, ghost t: Tree, ghost pre: seq<Node>, ghost post: seq<Node>)
      returns (inserted: bool, splitkey: Key, splitnode: Node?, ghost r': Ref, ghost s: seq<Ref>, ghost added: set<Node>)
      requires r.n == n && r.InnerRef? && Holds(r, t) && Shaped(t) && Sorted(Items(t))
      requires LinksOk(0) && chain == pre + Leaves(r) + post
      modifies this`tailleaf, this`leaves, this`innernodes, this`chain
      modifies Nodes(r), chain`prevleaf, chain`nextleaf
      ensures LinksOk(0) && chain == pre + Leaves(r') + LeavesOf(s) + post
      ensures var u := BTreeInsert.InsertDescend(t, key, value);
              inserted == u.inserted && ResultHeld(u, splitkey, splitnode, r', s)
      ensures r'.n == n
      ensures fresh(added) && Nodes(r') + NodesOf(s) <= Nodes(r) + added
      ensures innernodes == old(innernodes) - InnerCount(r) + InnerCount(r') + InnerCountOf(s)
      decreases t, 3
    {
      ghost var kids := r.kids;
      var slot := SearchInner(n, key, r, t, Nodes(r), chain);
      EnterChild(n, r, t, key);
      ghost var a, b := LeavesOf(kids[..slot]), LeavesOf(kids[slot + 1..]);
      RegroupBefore(pre, a, Leaves(kids[slot]), b, post);
      ghost var newkey, newchild, c, d;
      inserted, splitkey, splitnode, newkey, newchild, c, d, added :=
        InsertIntoChild(n, slot, key, value, r, t, pre + a, b + post);
      r', s := AssembleInsert(n, splitnode, splitkey, t, kids, slot, c, d,
                              BTreeInsert.InsertDescend(t.kids[slot], key, value), newkey, newchild);
      Regroup(pre, a, Leaves(c), LeavesOf(d), b, post, Leaves(r'), LeavesOf(s));
      OnlyNew(Nodes(r') + NodesOf(s), Nodes(r), {n}, Nodes(c) + NodesOf(d), Nodes(kids[slot]),
              NodesOf(kids[..slot] + kids[slot + 1..]), added);
    }

    /** The search in an inner node; `nodes` and `all` are the nodes below it and the leaves. */
    method SearchInner(n: Node, key: Key, ghost r: Ref, ghost t: Tree, ghost nodes: set<Node>, ghost all: seq<Node>) returns (slot: nat)
      requires nodes == Nodes(r) && all == chain
      requires r.n == n && r.InnerRef? && Holds(r, t) && Shaped(t) && Sorted(Items(t))
      ensures t.Inner? && slot == LowerSlot(t.keys, key)
      ensures Holds(r, t) == old(Holds(r, t)) && LinksOk(0) == old(LinksOk(0))
    {
      EnterChild(n, r, t, key);
      slot := FindLower(n, key);
    }

    /** The recursive call on child `slot`, with what it leaves to do in node `n`.
        `others` are the other children. */
    method InsertIntoChild(n: Node, slot: nat, key: Key, value: Data, ghost r: Ref, ghost t: Tree,
                           ghost pre: seq<Node>, ghost post: seq<Node>)
      returns (inserted: bool, splitkey: Key, splitnode: Node?,
               ghost newkey: Key, ghost newchild: Node?, ghost c: Ref, ghost d: seq<Ref>, ghost added: set<Node>)
      requires r.InnerRef? && t.Inner? && slot < |r.kids| && slot == LowerSlot(t.keys, key) && AtChild(n, r.kids, t, slot)
      requires LinksOk(0) && chain == pre + Leaves(r.kids[slot]) + post
      modifies this`tailleaf, this`leaves, this`innernodes, this`chain
      modifies Nodes(r.kids[slot]), n`slotuse, n`slotkey, n`childid, chain`prevleaf, chain`nextleaf
      ensures LinksOk(0) && chain == pre + Leaves(c) + LeavesOf(d) + post
      ensures Shaped(t.kids[slot])
      ensures var u := BTreeInsert.InsertDescend(t.kids[slot], key, value);
              inserted == u.inserted && ReadyToAssemble(n, splitnode, splitkey, t, r.kids, slot, c, d, u, newkey, newchild)
      ensures fresh(added) && Nodes(c) + NodesOf(d) <= Nodes(r.kids[slot]) + added
      ensures splitnode != null ==> splitnode in added
      ensures innernodes == old(innernodes) - InnerCount(r.kids[slot]) + InnerCount(c) + InnerCountOf(d)
                            + if splitnode == null then 0 else 1
      decreases t, 2
    {
      hide *;
      var key', child';
      inserted, key', child', c, d, added := InsertBelow(n, slot, key, value, r.kids, t, pre, post);
      newkey, newchild := key', child';
      splitkey, splitnode := FinishInsert(n, slot, key', child', t, r.kids, c, d,
                                          BTreeInsert.InsertDescend(t.kids[slot], key, value));
      if splitnode != null {
        added := added + {splitnode};
      }
    }

    /** The recursive call, with the other children as they were. */
    method InsertBelow(n: Node, slot: nat, key: Key, value: Data, ghost kids: seq<Ref>, ghost t: Tree,
                       ghost pre: seq<Node>, ghost post: seq<Node>)
      returns (inserted: bool, newkey: Key, newchild: Node?, ghost c: Ref, ghost d: seq<Ref>, ghost added: set<Node>)
      requires AtChild(n, kids, t, slot)
      requires LinksOk(0) && chain == pre + Leaves(kids[slot]) + post
      modifies this`tailleaf, this`leaves, this`innernodes, this`chain
      modifies Nodes(kids[slot]), chain`prevleaf, chain`nextleaf
      ensures LinksOk(0) && chain == pre + Leaves(c) + LeavesOf(d) + post
      ensures Shaped(t.kids[slot])
      ensures var u := BTreeInsert.InsertDescend(t.kids[slot], key, value);
              inserted == u.inserted && BelowReady(n, t, kids, slot, c, d, u, newkey, newchild)
      ensures InnerHolds(n, t.level, t.keys, Heads(kids))
      ensures fresh(added) && Nodes(c) + NodesOf(d) <= Nodes(kids[slot]) + added
      ensures innernodes == old(innernodes) - InnerCount(kids[slot]) + InnerCount(c) + InnerCountOf(d)
      decreases t, 1
    {
      inserted, newkey, newchild, c, d, added := CallChild(n, slot, key, value, kids[slot], t.kids[slot], Heads(kids), t.level, t.keys,
                                                      kids[..slot] + kids[slot + 1..], t.kids[..slot] + t.kids[slot + 1..],
                                                      NodesOf(kids[..slot] + kids[slot + 1..]), pre, post);
      StillApart(Nodes(c) + NodesOf(d), Nodes(kids[slot]), added, NodesOf(kids[..slot] + kids[slot + 1..]) + {n});
    }

    method CallChild(n: Node, slot: nat, key: Key, value: Data, ghost kid: Ref, ghost t: Tree, ghost heads: seq<Node>,
                     ghost level: nat, ghost keys: seq<Key>, ghost others: seq<Ref>, ghost trees: seq<Tree>, ghost os: set<Node>,
                     ghost pre: seq<Node>, ghost post: seq<Node>)
      returns (inserted: bool, newkey: Key, newchild: Node?, ghost c: Ref, ghost d: seq<Ref>, ghost added: set<Node>)
      requires os == NodesOf(others) && os !! Nodes(kid) && slot < |n.childid| && n.childid[slot] == kid.n && !kid.EmptyRef?
      requires Holds(kid, t) && Shaped(t) && Sorted(Items(t))
      requires n !in Nodes(kid)
      requires LinksOk(0) && chain == pre + Leaves(kid) + post
      modifies this`tailleaf, this`leaves, this`innernodes, this`chain
      modifies Nodes(kid), chain`prevleaf, chain`nextleaf
      ensures LinksOk(0) && chain == pre + Leaves(c) + LeavesOf(d) + post
      ensures var u := BTreeInsert.InsertDescend(t, key, value);
              inserted == u.inserted && ResultHeld(u, newkey, newchild, c, d) && c.n == kid.n
      ensures HoldsAll(others, trees) == old(HoldsAll(others, trees))
      ensures InnerHolds(n, level, keys, heads) == old(InnerHolds(n, level, keys, heads))
      ensures fresh(added) && Nodes(c) + NodesOf(d) <= Nodes(kid) + added && os !! added && n !in added
      ensures innernodes == old(innernodes) - InnerCount(kid) + InnerCount(c) + InnerCountOf(d)
      decreases t, 5
    {
      hide *;
      inserted, newkey, newchild, c, d, added := InsertDescend(n.childid[slot], key, value, kid, t, pre, post);
    }

    /** Take in the new child, if there is one; the trees below stay as they are. */
    method FinishInsert(n: Node, slot: nat, newkey: Key, newchild: Node?,
                        ghost t: Tree, ghost kids: seq<Ref>, ghost c: Ref, ghost d: seq<Ref>, ghost u: Result)
      returns (splitkey: Key, splitnode: Node?)
      requires BelowReady(n, t, kids, slot, c, d, u, newkey, newchild)
      requires InnerHolds(n, t.level, t.keys, Heads(kids))
      modifies this`innernodes, n`slotuse, n`slotkey, n`childid
      ensures ReadyToAssemble(n, splitnode, splitkey, t, kids, slot, c, d, u, newkey, newchild)
      ensures splitnode != null ==> fresh(splitnode)
      ensures innernodes == old(innernodes) + if splitnode == null then 0 else 1
    {
      splitkey, splitnode := 0, null;
      if newchild != null {
        splitkey, splitnode := TakeInChild(n, slot, newkey, newchild, t.level, t.keys, Heads(kids), kids[..slot] + kids[slot + 1..],
                                           t.kids[..slot] + t.kids[slot + 1..], u, c, d, Nodes(c), NodesOf(d), NodesOf(kids[..slot] + kids[slot + 1..]));
      }
    }

    /** The new child goes into `n`. The nodes below are untouched and none of them is new. */
    method TakeInChild(n: Node, slot: nat, newkey: Key, newchild: Node, ghost level: nat, ghost keys: seq<Key>, ghost heads: seq<Node>,
                       ghost others: seq<Ref>, ghost trees: seq<Tree>, ghost u: Result, ghost c: Ref, ghost d: seq<Ref>,
                       ghost cs: set<Node>, ghost ds: set<Node>, ghost os: set<Node>)
      returns (splitkey: Key, splitnode: Node?)
      requires InnerHolds(n, level, keys, heads) && |heads| == |keys| + 1 && slot <= |keys|
      requires cs == Nodes(c) && ds == NodesOf(d) && os == NodesOf(others) && n !in cs + ds + os
      modifies this`innernodes, n`slotuse, n`slotkey, n`childid
      ensures InnerSplit(n, splitnode, splitkey, level, keys, heads, slot, newkey, newchild)
      ensures splitnode != null ==> fresh(splitnode) && splitnode !in cs + ds + os && splitnode != n
      ensures innernodes == old(innernodes) + if splitnode == null then 0 else 1
      ensures HoldsAll(others, trees) == old(HoldsAll(others, trees))
      ensures ResultHeld(u, newkey, newchild, c, d) == old(ResultHeld(u, newkey, newchild, c, d))
    {
      splitkey, splitnode := InsertChildAt(n, slot, newkey, newchild, level, keys, heads);
    }

    // ---- Erasure ----

    /** Move all items of `right` into `left` and take `right` out of the list. */
    method MergeLeaves(left: Node, right: Node, ghost li: seq<Item>, ghost ri: seq<Item>, ghost i: nat)
      requires LinksOk(0) && i + 1 < |chain| && chain[i] == left && chain[i + 1] == right
      requires LeafHolds(left, li) && LeafHolds(right, ri) && |li| + |ri| <= leafslotmax
      modifies this`tailleaf, this`chain, left`nextleaf, chain`prevleaf
      modifies left`slotuse, left`slotkey, left`slotdata, right`slotuse
      ensures LinksOk(1) && chain == RemoveAt(old(chain), i + 1)
      ensures LeafHolds(left, li + ri) && LeafHolds(right, [])
    {
      MergeLeafSlots(left, right, li, ri);
      Unlink(left, right, i);
    }

    method Unlink(left: Node, right: Node, ghost i: nat)
      requires LinksOk(0) && i + 1 < |chain| && chain[i] == left && chain[i + 1] == right
      modifies this`tailleaf, this`chain, left`nextleaf, chain`prevleaf
      ensures LinksOk(1) && chain == RemoveAt(old(chain), i + 1)
    {
      ghost var before := chain;
      assert LinkedAt(chain, i + 1);
      left.nextleaf := right.nextleaf;
      if left.nextleaf != null {
        left.nextleaf.prevleaf := left;
      } else {
        tailleaf := left;
      }
      chain := RemoveAt(chain, i + 1);
      forall j | 0 <= j < |chain| ensures LinkedAt(chain, j) {
        assert j <= i ==> old(LinkedAt(before, j));
        assert j > i ==> old(LinkedAt(before, j + 1));
      }
    }

    /** An underflowing leaf goes into its left sibling. */
    method MergeLeafLeft(left: Node, leaf: Node, ghost p: Place, ghost items: seq<Item>, ghost ln: Neighbour, ghost rn: Neighbour,
                         ghost lastkey: Option<Key>, ghost pre: seq<Node>, ghost post: seq<Node>)
      returns (ghost p': Place)
      requires p.r.n == leaf && p.left == left && LeafPlace(p, items, ln, rn) && ChooseFix(ln, rn) == MergeLeft
      requires LinksOk(0) && chain == pre + Stretch(p, ln, rn) + post
      modifies this`tailleaf, this`chain, left`nextleaf, chain`prevleaf
      modifies left`slotuse, left`slotkey, left`slotdata, leaf`slotuse
      ensures var o := FixLeaf(items, ln, rn, lastkey);
              && o.fixmerge && PlaceAfter(p, p', o) && SameNodes(p, ln, rn, p', o) && SameCounts(p, ln, rn, p', o)
              && LinksOk(1) && chain == pre + Stretch(p', o.left, o.right) + post
    {
      hide PlaceAfter, SameNodes, LinksOk;
      TakeLeftLeaves(p, items, ln, rn);
      ghost var o := FixLeaf(items, ln, rn, lastkey);
      ChainWithout(pre, left, leaf, SideLeaves(rn, p.rs), post, chain);
      MergeLeaves(left, leaf, ln.t.items, items, |pre|);
      assert Pair(LeafRef(left), EmptyRef(leaf), o.left.t, o.curr);
      SlotsKept(p.ps, p.slot, o);
      PlaceLeftFixed(p, LeafRef(left), EmptyRef(leaf), ln, rn, o);
      LeavesOfOne(LeafRef(left));
      p' := LeftFixed(p, LeafRef(left), EmptyRef(leaf), o);
    }

    /** The right sibling goes into an underflowing leaf. */
    method MergeLeafRight(leaf: Node, right: Node, ghost p: Place, ghost items: seq<Item>, ghost ln: Neighbour, ghost rn: Neighbour,
                          ghost lastkey: Option<Key>, ghost pre: seq<Node>, ghost post: seq<Node>)
      returns (ghost p': Place)
      requires p.r.n == leaf && p.right == right && LeafPlace(p, items, ln, rn) && ChooseFix(ln, rn) == MergeRight
      requires LinksOk(0) && chain == pre + Stretch(p, ln, rn) + post
      modifies this`tailleaf, this`chain, leaf`nextleaf, chain`prevleaf
      modifies leaf`slotuse, leaf`slotkey, leaf`slotdata, right`slotuse
      ensures var o := FixLeaf(items, ln, rn, lastkey);
              && o.fixmerge && PlaceAfter(p, p', o) && SameNodes(p, ln, rn, p', o) && SameCounts(p, ln, rn, p', o)
              && LinksOk(1) && chain == pre + Stretch(p', o.left, o.right) + post
    {
      hide PlaceAfter, SameNodes, LinksOk;
      TakeRightLeaves(p, items, ln, rn);
      ghost var o := FixLeaf(items, ln, rn, lastkey);
      ChainWithoutRight(pre, SideLeaves(ln, p.ls), leaf, right, post, chain);
      MergeLeaves(leaf, right, items, rn.t.items, |pre + SideLeaves(ln, p.ls)|);
      assert Pair(LeafRef(leaf), EmptyRef(right), o.curr, o.right.t);
      SlotsKept(p.ps, p.slot, o);
      PlaceRightFixed(p, LeafRef(leaf), EmptyRef(right), ln, rn, o);
      LeavesOfOne(EmptyRef(right));
      p' := RightFixed(p, LeafRef(leaf), EmptyRef(right), o);
    }

    /** Repair an underflowing leaf that is not the root. */
    method FixLeafNode(leaf: Node, left: Node?, right: Node?, leftparent: Node?, rightparent: Node?, parent: Node, parentslot: nat,
                       ghost p: Place, ghost items: seq<Item>, ghost ln: Neighbour, ghost rn: Neighbour, ghost lastkey: Option<Key>,
                       ghost pre: seq<Node>, ghost post: seq<Node>)
      returns (fixmerge: bool, ghost p': Place)
      requires p.r.n == leaf && p.left == left && p.right == right && p.parent == parent && p.slot == parentslot
      requires LeafPlace(p, items, ln, rn) && Kin(parent, leftparent, rightparent, ln, rn)
      requires LinksOk(0) && chain == pre + Stretch(p, ln, rn) + post
      modifies this`tailleaf, this`chain, chain`prevleaf, chain`nextleaf
      modifies leaf, parent`slotkey, SiblingNode(ln, left), SiblingNode(rn, right)
      ensures var o := FixLeaf(items, ln, rn, lastkey);
              && fixmerge == o.fixmerge
              && PlaceAfter(p, p', o) && SameNodes(p, ln, rn, p', o) && SameCounts(p, ln, rn, p', o)
              && LinksOk(if fixmerge then 1 else 0)
              && chain == pre + Stretch(p', o.left, o.right) + post
    {
      hide FixLeaf, PlaceAfter, SameNodes, LinksOk;
      LeafNeighbours(p, items, ln, rn);
      var f := PickFix(left, right, leftparent, rightparent, parent, minleafslots, ln, rn);
      fixmerge := f == MergeLeft || f == MergeRight;
      match f
      case MergeLeft =>
        p' := MergeLeafLeft(left, leaf, p, items, ln, rn, lastkey, pre, post);
      case MergeRight =>
        p' := MergeLeafRight(leaf, right, p, items, ln, rn, lastkey, pre, post);
      case ShiftLeft =>
        p' := ShiftLeafLeft(leaf, right, parent, parentslot, p, items, ln, rn, lastkey);
      case ShiftRight =>
        p' := ShiftLeafRight(left, leaf, parent, parentslot - 1, p, items, ln, rn, lastkey);
    }

    /** What a call that erases a key below a place may start from. */
    ghost predicate EraseReady(curr: Node, leftparent: Node?, rightparent: Node?,
                               p: Place, t: Tree, ln: Neighbour, rn: Neighbour, pre: seq<Node>, post: seq<Node>)
      reads this`root, this`chain, this`headleaf, this`tailleaf, this`leaves, this`innernodes, chain`prevleaf, chain`nextleaf
      reads PlaceNodes(p)`level, PlaceNodes(p)`slotuse, PlaceNodes(p)`slotkey, PlaceNodes(p)`slotdata, PlaceNodes(p)`childid
    {
      && p.r.n == curr && !p.r.EmptyRef? && PlaceHolds(p, t, ln, rn)
      && Erasable(t, ln, rn)
      && Kin(p.parent, leftparent, rightparent, ln, rn) && leftparent !in Nodes(p.r) && rightparent !in Nodes(p.r)
      && (if p.parent == null then root == curr else root !in Nodes(p.r))
      && LinksOk(0) && chain == pre + Stretch(p, ln, rn) + post && (p.parent == null ==> pre == [] && post == [])
      && innernodes >= StretchCount(p, ln, rn)
    }

    /** What it leaves behind. The tree that loses its last item loses its root. */
    ghost predicate EraseDone(level: nat, p: Place, ln: Neighbour, rn: Neighbour, p': Place, o: Outcome, pre: seq<Node>, post: seq<Node>, others: int)
      reads this`root, this`chain, this`headleaf, this`tailleaf, this`leaves, this`innernodes, chain`prevleaf, chain`nextleaf
      reads PlaceNodes(p')`level, PlaceNodes(p')`slotuse, PlaceNodes(p')`slotkey, PlaceNodes(p')`slotdata, PlaceNodes(p')`childid
    {
      && o.Erased?
      && if p.parent == null && o.curr == Leaf([]) then
           root == null && chain == [] && LinksOk(0) && innernodes == others
         else
           && PlaceAfter(p, p', o) && SameNodes(p, ln, rn, p', o)
           && LinksOk(if o.fixmerge && level == 0 then 1 else 0)
           && chain == pre + Stretch(p', o.left, o.right) + post
           && innernodes == others + StretchCount(p', o.left, o.right) + (if o.fixmerge && level > 0 then 1 else 0)
           && (p.parent == null ==> root == p'.r.n && !p'.r.EmptyRef?)
    }

    /** The last leaf goes, and the root with it. */
    method DropRootLeaf()
      requires LinksOk(0) && |chain| == 1
      modifies this`root, this`headleaf, this`tailleaf, this`leaves, this`chain
      ensures root == null && chain == [] && LinksOk(0)
    {
      root := null;
      leaves := leaves - 1;
      headleaf, tailleaf := null, null;
      chain := [];
    }

    lemma {:induction false} LeafKept(p: Place, items: seq<Item>, ln: Neighbour, rn: Neighbour, lastkey: Option<Key>, pre: seq<Node>, post: seq<Node>)
      requires p.r.LeafRef? && PlaceHolds(p, Leaf(items), ln, rn) && (p.parent == null ==> root == p.r.n && items != [])
      requires LinksOk(0) && chain == pre + Stretch(p, ln, rn) + post
      ensures EraseDone(0, p, ln, rn, p, Erased(Leaf(items), ln, rn, lastkey, false), pre, post, innernodes - StretchCount(p, ln, rn))
    {
      hide LinksOk, Stretch, StretchCount, HoldsAll, LeafHolds;
      if p.ps.ParentSlots? {
        SlotsKept(p.ps, p.slot, Erased(Leaf(items), ln, rn, lastkey, false));
      }
    }

    /** Repair a leaf that has lost an item, if it needs repair. */
    method FixLeafUnderflow(leaf: Node, left: Node?, right: Node?, leftparent: Node?, rightparent: Node?, parent: Node?, parentslot: nat,
                            ghost p: Place, ghost items: seq<Item>, ghost ln: Neighbour, ghost rn: Neighbour, lastkey: Option<Key>,
                            ghost pre: seq<Node>, ghost post: seq<Node>)
      returns (fixmerge: bool, lastkey': Option<Key>, ghost p': Place)
      requires p == Place(LeafRef(leaf), left, p.ls, right, p.rs, parent, parentslot, p.ps)
      requires PlaceHolds(p, Leaf(items), ln, rn) && Context(0, ln, rn) && Kin(parent, leftparent, rightparent, ln, rn)
      requires root == leaf <==> parent == null
      requires LinksOk(0) && chain == pre + Stretch(p, ln, rn) + post && (parent == null ==> pre == [] && post == [])
      modifies this`root, this`headleaf, this`tailleaf, this`leaves, this`chain, chain`prevleaf, chain`nextleaf
      modifies leaf, Just(parent)`slotkey, SiblingNode(ln, left), SiblingNode(rn, right)
      ensures var o := FixLeaf(items, ln, rn, lastkey);
              && fixmerge == o.fixmerge && lastkey' == o.lastkey
              && EraseDone(0, p, ln, rn, p', o, pre, post, innernodes - StretchCount(p, ln, rn))
      ensures parent != null ==> root == old(root)
    {
      hide FixLeaf, Items, ItemsOf, Linked;
      fixmerge, lastkey', p' := false, lastkey, p;
      FixLeafCases(items, ln, rn, lastkey);
      if leaf.slotuse < minleafslots && !(leaf == root && leaf.slotuse >= 1) {
        if left == null && right == null {
          DropRootLeaf();
          lastkey' := None;
        } else {
          fixmerge, p' := FixLeafNode(leaf, left, right, leftparent, rightparent, parent, parentslot,
                                      p, items, ln, rn, lastkey, pre, post);
        }
      } else {
        LeafKept(p, items, ln, rn, lastkey, pre, post);
      }
    }

    lemma {:induction false} DoneAfterRekey(level: nat, p: Place, ln: Neighbour, rn: Neighbour, p': Place, key: Key, o: Outcome, pre: seq<Node>, post: seq<Node>, others: int)
      requires rn.Sibling? && EraseDone(level, Rekeyed(p, key), ln, rn.(sep := key), p', o, pre, post, others)
      requires !(p.parent == null && o.curr == Leaf([])) ==> o.right.Sibling?
      ensures EraseDone(level, p, ln, rn, p', o, pre, post, others)
    {
      if !(p.parent == null && o.curr == Leaf([])) {
        AfterRekey(p, p', key, o);
      }
    }

    /** Repair a leaf whose new last key has been passed on. */
    method FinishLeaf(leaf: Node, left: Node?, right: Node?, leftparent: Node?, rightparent: Node?, parent: Node?, parentslot: nat, last: Option<Key>,
                      ghost p: Place, ghost p1: Place, ghost items: seq<Item>, ghost ln: Neighbour, ghost rn: Neighbour, ghost rn1: Neighbour, ghost newlast: Key,
                      ghost pre: seq<Node>, ghost post: seq<Node>)
      returns (fixmerge: bool, lastkey: Option<Key>, ghost p': Place)
      requires p == Place(LeafRef(leaf), left, p.ls, right, p.rs, parent, parentslot, p.ps) && (root == leaf <==> parent == null)
      requires PlaceHolds(p1, Leaf(items), ln, rn1) && Context(0, ln, rn1) && Kin(parent, leftparent, rightparent, ln, rn)
      requires (p1 == p && rn1 == rn) || (rn.Sibling? && p1 == Rekeyed(p, newlast) && rn1 == rn.(sep := newlast))
      requires LinksOk(0) && chain == pre + Stretch(p, ln, rn) + post && (parent == null ==> pre == [] && post == [])
      modifies this`root, this`headleaf, this`tailleaf, this`leaves, this`chain, chain`prevleaf, chain`nextleaf
      modifies leaf, Just(parent)`slotkey, SiblingNode(ln, left), SiblingNode(rn, right)
      ensures var o := FixLeaf(items, ln, rn1, last);
              && fixmerge == o.fixmerge && lastkey == o.lastkey
              && EraseDone(0, p, ln, rn, p', o, pre, post, innernodes - StretchCount(p, ln, rn))
      ensures parent != null ==> root == old(root)
    {
      hide PlaceHolds, EraseDone, LinksOk, Items, Linked;
      ghost var others := innernodes - StretchCount(p, ln, rn);
      fixmerge, lastkey, p' := FixLeafUnderflow(leaf, left, right, leftparent, rightparent, parent, parentslot,
                                                p1, items, ln, rn1, last, pre, post);
      if p1 != p || rn1 != rn {
        DoneAfterRekey(0, p, ln, rn, p', newlast, FixLeaf(items, ln, rn1, last), pre, post, others);
      }
    }

    /** The work of a leaf. */
    method EraseInLeaf(key: Key, leaf: Node, left: Node?, right: Node?, leftparent: Node?, rightparent: Node?, parent: Node?, parentslot: nat,
                       ghost p: Place, ghost items: seq<Item>, ghost ln: Neighbour, ghost rn: Neighbour, ghost pre: seq<Node>, ghost post: seq<Node>)
      returns (found: bool, fixmerge: bool, lastkey: Option<Key>, ghost p': Place)
      requires p == Place(LeafRef(leaf), left, p.ls, right, p.rs, parent, parentslot, p.ps)
      requires EraseReady(leaf, leftparent, rightparent, p, Leaf(items), ln, rn, pre, post)
      modifies this`root, this`headleaf, this`tailleaf, this`leaves, this`chain, chain`prevleaf, chain`nextleaf
      modifies leaf, Just(parent)`slotkey, SiblingNode(ln, left), SiblingNode(rn, right)
      ensures var o := EraseLeaf(items, key, ln, rn);
              && found == o.Erased?
              && (!found ==> EraseReady(leaf, leftparent, rightparent, p, Leaf(items), ln, rn, pre, post))
              && (found ==> fixmerge == o.fixmerge && lastkey == o.lastkey
                            && EraseDone(0, p, ln, rn, p', o, pre, post, innernodes - StretchCount(p, ln, rn)))
      ensures !found || parent != null ==> root == old(root)
    {
      fixmerge, p' := false, p;
      ghost var p1, items', rn', newlast;
      found, lastkey, p1, items', rn', newlast := EraseKey(leaf, key, parent, parentslot, p, items, ln, rn);
      if found {
        fixmerge, lastkey, p' := FinishLeaf(leaf, left, right, leftparent, rightparent, parent, parentslot, lastkey,
                                            p, p1, items', ln, rn, rn', newlast, pre, post);
      }
    }

    /** Repair an inner node that may have lost a child, if it needs repair. */
    method FixInnerUnderflow(inner: Node, left: Node?, right: Node?, leftparent: Node?, rightparent: Node?, parent: Node?, parentslot: nat,
                             ghost p: Place, ghost t: Tree, ghost ln: Neighbour, ghost rn: Neighbour, lastkey: Option<Key>,
                             ghost pre: seq<Node>, ghost post: seq<Node>)
      returns (fixmerge: bool, lastkey': Option<Key>, ghost p': Place)
      requires p == Place(p.r, left, p.ls, right, p.rs, parent, parentslot, p.ps) && p.r.InnerRef? && p.r.n == inner
      requires PlaceHolds(p, t, ln, rn) && UsableNode(t, t) && Context(t.level, ln, rn) && Kin(parent, leftparent, rightparent, ln, rn)
      requires root == inner <==> parent == null
      requires LinksOk(0) && chain == pre + Stretch(p, ln, rn) + post && innernodes >= StretchCount(p, ln, rn)
      modifies this`root, this`innernodes, inner`slotuse, inner`slotkey, inner`childid, Just(parent)`slotkey
      modifies SiblingNode(ln, left)`slotuse, SiblingNode(ln, left)`slotkey, SiblingNode(ln, left)`childid
      modifies SiblingNode(rn, right)`slotuse, SiblingNode(rn, right)`slotkey, SiblingNode(rn, right)`childid
      ensures var o := FixInner(t, ln, rn, lastkey);
              && fixmerge == o.fixmerge && lastkey' == o.lastkey
              && EraseDone(t.level, p, ln, rn, p', o, pre, post, old(innernodes) - StretchCount(p, ln, rn))
      ensures parent != null ==> root == old(root)
    {
      fixmerge, lastkey', p' := false, lastkey, p;
      FixInnerCases(t, ln, rn, lastkey);
      if inner.slotuse < mininnerslots && !(inner == root && inner.slotuse >= 1) {
        if left == null && right == null {
          lastkey' := None;
          p' := CollapseRoot(inner, p, t, pre, post);
        } else {
          fixmerge, p' := FixBelowParent(inner, left, right, leftparent, rightparent, parent, parentslot, p, t, ln, rn, lastkey, pre, post);
        }
      } else {
        NothingToFix(p, t, ln, rn, lastkey, pre, post);
      }
    }

    lemma {:induction false} NothingToFix(p: Place, t: Tree, ln: Neighbour, rn: Neighbour, lastkey: Option<Key>, pre: seq<Node>, post: seq<Node>)
      requires t.Inner? && PlaceHolds(p, t, ln, rn) && p.r.InnerRef? && (p.parent == null ==> root == p.r.n)
      requires LinksOk(0) && chain == pre + Stretch(p, ln, rn) + post
      ensures EraseDone(t.level, p, ln, rn, p, Erased(t, ln, rn, lastkey, false), pre, post, innernodes - StretchCount(p, ln, rn))
    {
      if p.ps.ParentSlots? {
        SlotsKept(p.ps, p.slot, Erased(t, ln, rn, lastkey, false));
      }
    }

    /** A root with a single child makes way for it. */
    method CollapseRoot(inner: Node, ghost p: Place, ghost t: Tree, ghost pre: seq<Node>, ghost post: seq<Node>) returns (ghost p': Place)
      requires PlaceHolds(p, t, Nobody, Nobody) && p.r.InnerRef? && p.r.n == inner && p.parent == null && UsableNode(t, t) && t.keys == []
      requires LinksOk(0) && chain == pre + Stretch(p, Nobody, Nobody) + post && innernodes >= StretchCount(p, Nobody, Nobody)
      modifies this`root, this`innernodes
      ensures EraseDone(t.level, p, Nobody, Nobody, p', Erased(t.kids[0], Nobody, Nobody, None, false), pre, post,
                        old(innernodes) - StretchCount(p, Nobody, Nobody))
    {
      OnlyChild(p, t);
      root := inner.childid[0];
      innernodes := innernodes - 1;
      p' := p.(r := p.r.kids[0]);
    }

    method FixBelowParent(inner: Node, left: Node?, right: Node?, leftparent: Node?, rightparent: Node?, parent: Node, parentslot: nat,
                          ghost p: Place, ghost t: Tree, ghost ln: Neighbour, ghost rn: Neighbour, ghost lastkey: Option<Key>,
                          ghost pre: seq<Node>, ghost post: seq<Node>)
      returns (fixmerge: bool, ghost p': Place)
      requires p == Place(p.r, left, p.ls, right, p.rs, parent, parentslot, p.ps) && p.r.n == inner
      requires InnerPlace(p, t, ln, rn) && Kin(parent, leftparent, rightparent, ln, rn)
      requires LinksOk(0) && chain == pre + Stretch(p, ln, rn) + post
      modifies inner`slotuse, inner`slotkey, inner`childid, parent`slotkey
      modifies SiblingNode(ln, left)`slotuse, SiblingNode(ln, left)`slotkey, SiblingNode(ln, left)`childid
      modifies SiblingNode(rn, right)`slotuse, SiblingNode(rn, right)`slotkey, SiblingNode(rn, right)`childid
      ensures var o := FixInner(t, ln, rn, lastkey);
              && fixmerge == o.fixmerge
              && EraseDone(t.level, p, ln, rn, p', o, pre, post, innernodes - StretchCount(p, ln, rn))
    {
      fixmerge, p' := FixInnerNode(inner, left, right, leftparent, rightparent, parent, parentslot, p, t, ln, rn, lastkey);
    }

    /** An inner node that has just got its child's outcome back. */
    ghost predicate BackUp(p: Place, t: Tree, slot: nat, ln: Neighbour, rn: Neighbour, o: Outcome, kids: seq<Ref>,
                           pre: seq<Node>, post: seq<Node>, others: int)
      requires t.Inner? && |t.kids| == |t.keys| + 1 && slot <= |t.keys| && ShapeOfOutcome(t, slot, o)
      reads this`root, this`chain, this`headleaf, this`tailleaf, this`leaves, this`innernodes, chain`prevleaf, chain`nextleaf
      reads PlaceNodes(PlaceWithKids(p, kids))`level, PlaceNodes(PlaceWithKids(p, kids))`slotuse
      reads PlaceNodes(PlaceWithKids(p, kids))`slotkey, PlaceNodes(PlaceWithKids(p, kids))`slotdata
      reads PlaceNodes(PlaceWithKids(p, kids))`childid
    {
      var q := PlaceWithKids(p, kids);
      && PlaceHolds(q, PutBack(t, slot, o), ln, rn) && |kids| == |t.kids| && Nodes(q.r) <= Nodes(p.r)
      && (o.fixmerge ==> Emptied(slot, o) < |kids| && kids[Emptied(slot, o)].EmptyRef?)
      && LinksOk(if o.fixmerge && t.level == 1 then 1 else 0)
      && chain == pre + Stretch(q, ln, rn) + post
      && innernodes == others + StretchCount(q, ln, rn) + (if o.fixmerge && t.level > 1 then 1 else 0)
    }

    /** The neighbours of a child and their parents, across the node's own if need be. */
    method NeighboursOf(inner: Node, slot: nat, left: Node?, right: Node?, leftparent: Node?, rightparent: Node?,
                        ghost p: Place, ghost t: Tree, ghost ln: Neighbour, ghost rn: Neighbour, ghost pre: seq<Node>, ghost post: seq<Node>)
      returns (myleft: Node?, myright: Node?, myleftparent: Node?, myrightparent: Node?)
      requires p.left == left && p.right == right && p.r.n == inner && InnerAt(p, t, slot, ln, rn) && PlaceHolds(p, t, ln, rn)
      requires Kin(p.parent, leftparent, rightparent, ln, rn) && (left == null <==> ln.Nobody?) && (right == null <==> rn.Nobody?)
      requires leftparent !in Nodes(p.r) && rightparent !in Nodes(p.r) && inner in Nodes(p.r)
      ensures slot < |inner.childid| && inner.childid[slot] == p.r.kids[slot].n
      ensures ChildPlace(p, t, slot, ln, rn).left == myleft && ChildPlace(p, t, slot, ln, rn).right == myright
      ensures Kin(inner, myleftparent, myrightparent, LeftOf(t, slot, ln), RightOf(t, slot, rn))
      ensures myleftparent !in Nodes(p.r.kids[slot]) && myrightparent !in Nodes(p.r.kids[slot]) && Nodes(p.r.kids[slot]) <= Nodes(p.r)
      ensures EraseReady(inner, leftparent, rightparent, p, t, ln, rn, pre, post) ==
              old(EraseReady(inner, leftparent, rightparent, p, t, ln, rn, pre, post))
    {
      hide PlaceHolds, EraseReady;
      NeighbourSlots(p, t, slot, ln, rn);
      if slot == 0 {
        myleft := if left == null then null else left.childid[left.slotuse - 1];
        myleftparent := leftparent;
      } else {
        myleft := inner.childid[slot - 1];
        myleftparent := inner;
      }
      if slot == inner.slotuse {
        myright := if right == null then null else right.childid[0];
        myrightparent := rightparent;
      } else {
        myright := inner.childid[slot + 1];
        myrightparent := inner;
      }
    }

    /** The recursive call on child `slot`, with its neighbours found across parents. */
    method EraseInChild(key: Key, inner: Node, slot: nat, left: Node?, right: Node?, leftparent: Node?, rightparent: Node?,
                        ghost p: Place, ghost t: Tree, ghost ln: Neighbour, ghost rn: Neighbour, ghost pre: seq<Node>, ghost post: seq<Node>)
      returns (found: bool, fixmerge: bool, lastkey: Option<Key>, ghost kids: seq<Ref>)
      requires p.left == left && p.right == right && InnerAt(p, t, slot, ln, rn) && slot == LowerSlot(t.keys, key)
      requires EraseReady(inner, leftparent, rightparent, p, t, ln, rn, pre, post)
      modifies this`root, this`headleaf, this`tailleaf, this`leaves, this`innernodes, this`chain, chain`prevleaf, chain`nextleaf
      modifies Nodes(p.r)
      ensures var o := ChildOutcome(key, p, t, slot, ln, rn);
              && found == o.Erased?
              && (!found ==> EraseReady(inner, leftparent, rightparent, p, t, ln, rn, pre, post))
              && (found ==>
                    && fixmerge == o.fixmerge && lastkey == o.lastkey && ShapeOfOutcome(t, slot, o)
                    && BackUp(p, t, slot, ln, rn, o, kids, pre, post, old(innernodes) - StretchCount(p, ln, rn)))
      ensures root == old(root) && (!found ==> innernodes == old(innernodes))
      decreases t, 1
    {
      hide EraseReady, BackUp, PlaceHolds, ShapeOfOutcome, EraseDescend, Kin, ChildPlace, LeftOf, RightOf, Nodes;
      EntryFacts(inner, leftparent, rightparent, p, t, ln, rn, pre, post);
      var myleft, myright, myleftparent, myrightparent := NeighboursOf(inner, slot, left, right, leftparent, rightparent, p, t, ln, rn, pre, post);
      found, fixmerge, lastkey, kids := EraseAtChild(key, inner, slot, leftparent, rightparent, myleft, myright, myleftparent, myrightparent,
                                                     p, t, ln, rn, pre, post);
    }

    /** What may be relied on at a place besides the nodes there. */
    lemma {:induction false} EntryFacts(inner: Node, leftparent: Node?, rightparent: Node?, p: Place, t: Tree, ln: Neighbour, rn: Neighbour,
                                        pre: seq<Node>, post: seq<Node>)
      requires EraseReady(inner, leftparent, rightparent, p, t, ln, rn, pre, post)
      ensures p.r.n == inner && PlaceHolds(p, t, ln, rn) && Kin(p.parent, leftparent, rightparent, ln, rn)
      ensures leftparent !in Nodes(p.r) && rightparent !in Nodes(p.r) && innernodes >= StretchCount(p, ln, rn)
      ensures (p.left == null <==> ln.Nobody?) && (p.right == null <==> rn.Nobody?) && inner in Nodes(p.r)
      ensures if p.parent == null then root == inner && pre == [] && post == [] else root !in Nodes(p.r)
    {
    }

    method EraseAtChild(key: Key, inner: Node, slot: nat, ghost leftparent: Node?, ghost rightparent: Node?,
                        myleft: Node?, myright: Node?, myleftparent: Node?, myrightparent: Node?,
                        ghost p: Place, ghost t: Tree, ghost ln: Neighbour, ghost rn: Neighbour, ghost pre: seq<Node>, ghost post: seq<Node>)
      returns (found: bool, fixmerge: bool, lastkey: Option<Key>, ghost kids: seq<Ref>)
      requires InnerAt(p, t, slot, ln, rn) && slot == LowerSlot(t.keys, key) && slot < |inner.childid| && inner.childid[slot] == p.r.kids[slot].n
      requires EraseReady(inner, leftparent, rightparent, p, t, ln, rn, pre, post)
      requires ChildPlace(p, t, slot, ln, rn).left == myleft && ChildPlace(p, t, slot, ln, rn).right == myright
      requires Kin(inner, myleftparent, myrightparent, LeftOf(t, slot, ln), RightOf(t, slot, rn))
      requires myleftparent !in Nodes(p.r.kids[slot]) && myrightparent !in Nodes(p.r.kids[slot]) && Nodes(p.r.kids[slot]) <= Nodes(p.r)
      modifies this`root, this`headleaf, this`tailleaf, this`leaves, this`innernodes, this`chain, chain`prevleaf, chain`nextleaf
      modifies Nodes(p.r)
      ensures var o := ChildOutcome(key, p, t, slot, ln, rn);
              && found == o.Erased?
              && (!found ==> EraseReady(inner, leftparent, rightparent, p, t, ln, rn, pre, post))
              && (found ==>
                    && fixmerge == o.fixmerge && lastkey == o.lastkey && ShapeOfOutcome(t, slot, o)
                    && BackUp(p, t, slot, ln, rn, o, kids, pre, post, old(innernodes) - StretchCount(p, ln, rn)))
      ensures root == old(root) && (!found ==> innernodes == old(innernodes))
      decreases t, 0
    {
      hide EraseReady, EraseDone, BackUp, RestHolds, Standing, PlaceHolds, EraseDescend, PlaceNodes, SideNodes, KidsAfter, PreOf, PostOf, LowerSlot, RestOf, Kin, ShapeOfOutcome;
      EntryFacts(inner, leftparent, rightparent, p, t, ln, rn, pre, post);
      ReadyBelow(key, inner, slot, leftparent, rightparent, myleftparent, myrightparent, p, t, ln, rn, pre, post);
      ghost var pc;
      RestApart(p, t, slot, ln, rn);
      ghost var pc0, lo, ro := ChildPlace(p, t, slot, ln, rn), LeftOf(t, slot, ln), RightOf(t, slot, rn);
      found, fixmerge, lastkey, pc := CallErase(key, inner.childid[slot], inner, slot, myleft, myright, myleftparent, myrightparent,
                                                pc0, t.kids[slot], lo, ro, PreOf(p, slot, ln, pre), PostOf(p, slot, rn, post),
                                                RestOf(p, t, slot, ln, rn), RestOf(p, t, slot, ln, rn).nodes);
      kids := KidsAfter(p.r.kids, slot, pc);
      if found {
        ReadyAbove(key, p, t, slot, ln, rn, pc, ChildOutcome(key, p, t, slot, ln, rn), pre, post, old(innernodes));
      } else {
        ReadyAgain(inner, leftparent, rightparent, myleftparent, myrightparent, p, t, slot, ln, rn, pre, post);
      }
    }

    /** The call itself, which leaves everything outside the child's place alone. */
    method CallErase(key: Key, child: Node, inner: Node, slot: nat, myleft: Node?, myright: Node?, myleftparent: Node?, myrightparent: Node?,
                     ghost pc0: Place, ghost c: Tree, ghost lo: Neighbour, ghost ro: Neighbour, ghost pre: seq<Node>, ghost post: seq<Node>,
                     ghost rest: Rest, ghost outside: set<Node>)
      returns (found: bool, fixmerge: bool, lastkey: Option<Key>, ghost pc: Place)
      requires pc0 == Place(pc0.r, myleft, pc0.ls, myright, pc0.rs, inner, slot, pc0.ps)
      requires EraseReady(child, myleftparent, myrightparent, pc0, c, lo, ro, pre, post)
      requires RestHolds(rest) && outside == rest.nodes && outside !! Nodes(pc0.r) + SideNodes(lo, pc0.ls) + SideNodes(ro, pc0.rs) + {inner}
      modifies this`root, this`headleaf, this`tailleaf, this`leaves, this`innernodes, this`chain, chain`prevleaf, chain`nextleaf
      modifies Nodes(pc0.r), SideNodes(lo, pc0.ls), SideNodes(ro, pc0.rs), inner`slotkey
      ensures RestHolds(rest) == old(RestHolds(rest))
      ensures var o := EraseDescend(c, key, lo, ro);
              && found == o.Erased?
              && (!found ==> EraseReady(child, myleftparent, myrightparent, pc0, c, lo, ro, pre, post))
              && (found ==> fixmerge == o.fixmerge && lastkey == o.lastkey
                            && EraseDone(Level(c), pc0, lo, ro, pc, o, pre, post, old(innernodes) - StretchCount(pc0, lo, ro)))
      ensures root == old(root) && (!found ==> innernodes == old(innernodes))
      decreases c, 5
    {
      hide EraseReady, EraseDone, RestHolds;
      found, fixmerge, lastkey, pc :=
        EraseOneDescend(key, child, myleft, myright, myleftparent, myrightparent, inner, slot, pc0, c, lo, ro, pre, post);
    }

    /** The call on child `slot` may start. */
    ghost predicate ChildReady(child: Node, myleftparent: Node?, myrightparent: Node?, p: Place, t: Tree, slot: nat,
                               ln: Neighbour, rn: Neighbour, pre: seq<Node>, post: seq<Node>)
      requires InnerAt(p, t, slot, ln, rn)
      reads this`root, this`chain, this`headleaf, this`tailleaf, this`leaves, this`innernodes, chain`prevleaf, chain`nextleaf
      reads PlaceNodes(ChildPlace(p, t, slot, ln, rn))`level, PlaceNodes(ChildPlace(p, t, slot, ln, rn))`slotuse
      reads PlaceNodes(ChildPlace(p, t, slot, ln, rn))`slotkey, PlaceNodes(ChildPlace(p, t, slot, ln, rn))`slotdata
      reads PlaceNodes(ChildPlace(p, t, slot, ln, rn))`childid
    {
      EraseReady(child, myleftparent, myrightparent, ChildPlace(p, t, slot, ln, rn), t.kids[slot],
                 LeftOf(t, slot, ln), RightOf(t, slot, rn), pre, post)
    }

    lemma {:induction false} ReadyBelow(key: Key, inner: Node, slot: nat, leftparent: Node?, rightparent: Node?,
                                        myleftparent: Node?, myrightparent: Node?,
                                        p: Place, t: Tree, ln: Neighbour, rn: Neighbour, pre: seq<Node>, post: seq<Node>)
      requires InnerAt(p, t, slot, ln, rn) && slot == LowerSlot(t.keys, key)
      requires EraseReady(inner, leftparent, rightparent, p, t, ln, rn, pre, post)
      requires Kin(inner, myleftparent, myrightparent, LeftOf(t, slot, ln), RightOf(t, slot, rn))
      requires myleftparent !in Nodes(p.r.kids[slot]) && myrightparent !in Nodes(p.r.kids[slot])
      ensures Standing(p, t, slot, ln, rn) && RestHolds(RestOf(p, t, slot, ln, rn))
      ensures ChildReady(p.r.kids[slot].n, myleftparent, myrightparent, p, t, slot, ln, rn, PreOf(p, slot, ln, pre), PostOf(p, slot, rn, post))
    {
      ChildErased(t, key, ln, rn);
      EnterPlace(p, t, slot, ln, rn);
      StandOutside(p, t, slot, ln, rn);
      StretchDown(p, t, slot, ln, rn, pre, post);
    }

    lemma {:induction false} ReadyAbove(key: Key, p: Place, t: Tree, slot: nat, ln: Neighbour, rn: Neighbour, pc: Place, o: Outcome,
                                        pre: seq<Node>, post: seq<Node>, before: int)
      requires InnerAt(p, t, slot, ln, rn) && slot == LowerSlot(t.keys, key)
      requires Standing(p, t, slot, ln, rn) && RestHolds(RestOf(p, t, slot, ln, rn))
      requires o == ChildOutcome(key, p, t, slot, ln, rn) && o.Erased?
      requires EraseDone(Level(t.kids[slot]), ChildPlace(p, t, slot, ln, rn), LeftOf(t, slot, ln), RightOf(t, slot, rn), pc, o,
                         PreOf(p, slot, ln, pre), PostOf(p, slot, rn, post), before - StretchCount(ChildPlace(p, t, slot, ln, rn), LeftOf(t, slot, ln), RightOf(t, slot, rn)))
      ensures ShapeOfOutcome(t, slot, o)
      ensures BackUp(p, t, slot, ln, rn, o, KidsAfter(p.r.kids, slot, pc), pre, post, before - StretchCount(p, ln, rn))
    {
      ChildErased(t, key, ln, rn);
      LeavePlace(p, t, slot, ln, rn, pc, o);
      if o.fixmerge { EmptiedKid(p, t, slot, ln, rn, pc, o); }
      StretchDown(p, t, slot, ln, rn, pre, post);
      StretchUp(p, t, slot, ln, rn, pc, o, pre, post);
    }

    lemma {:induction false} ReadyAgain(inner: Node, leftparent: Node?, rightparent: Node?, myleftparent: Node?, myrightparent: Node?,
                                        p: Place, t: Tree, slot: nat, ln: Neighbour, rn: Neighbour, pre: seq<Node>, post: seq<Node>)
      requires InnerAt(p, t, slot, ln, rn) && Standing(p, t, slot, ln, rn) && RestHolds(RestOf(p, t, slot, ln, rn))
      requires ChildReady(p.r.kids[slot].n, myleftparent, myrightparent, p, t, slot, ln, rn, PreOf(p, slot, ln, pre), PostOf(p, slot, rn, post))
      requires p.r.n == inner && Kin(p.parent, leftparent, rightparent, ln, rn) && leftparent !in Nodes(p.r) && rightparent !in Nodes(p.r)
      requires (if p.parent == null then root == inner else root !in Nodes(p.r)) && (p.parent == null ==> pre == [] && post == [])
      requires innernodes >= StretchCount(p, ln, rn)
      ensures EraseReady(inner, leftparent, rightparent, p, t, ln, rn, pre, post)
    {
      StretchDown(p, t, slot, ln, rn, pre, post);
      StandAgain(p, t, slot, ln, rn);
    }

    /** Free the child that a merge has emptied: child `slot` or the next one. */
    method DropChild(inner: Node, slot: nat, ghost q: Place, ghost t1: Tree, ghost s: nat, ghost ln: Neighbour, ghost rn: Neighbour)
      requires q.r.n == inner && PlaceHolds(q, t1, ln, rn)
      requires q.r.InnerRef? && t1.Inner? && t1.level >= 1 && |q.r.kids| == |t1.kids| == |t1.keys| + 1
      requires slot <= |t1.keys| && 1 <= s <= |t1.keys| && s == (if SlotUse(t1.kids[slot]) != 0 then slot + 1 else slot)
      requires q.r.kids[s].EmptyRef? && Linked(Dropped(t1, s)) && Level(t1.kids[s]) + 1 == t1.level
      requires LinksOk(if t1.level == 1 then 1 else 0) && (t1.level > 1 ==> innernodes > 0)
      modifies this`leaves, this`innernodes, inner`slotuse, inner`slotkey, inner`childid
      ensures PlaceHolds(PlaceWithKids(q, RemoveAt(q.r.kids, s)), Dropped(t1, s), ln, rn)
      ensures Nodes(Family(inner, RemoveAt(q.r.kids, s))) <= Nodes(q.r)
      ensures LinksOk(0) && innernodes == old(innernodes) - if t1.level > 1 then 1 else 0
    {
      hide Holds, HoldsAll;
      DropReady(q, t1, slot, s, ln, rn);
      var gone := slot;
      if inner.childid[gone].slotuse != 0 {
        gone := gone + 1;
      }
      if inner.childid[gone].level == 0 {
        leaves := leaves - 1;
      } else {
        innernodes := innernodes - 1;
      }
      RemoveEmptied(inner, gone, q, t1, ln, rn);
    }

    /** Drop the emptied child, if there is one. */
    method DropIfMerged(inner: Node, slot: nat, merged: bool, ghost q: Place, ghost t1: Tree, ghost t2: Tree, ghost s: nat, ghost ln: Neighbour, ghost rn: Neighbour)
      returns (ghost q2: Place)
      requires q.r.n == inner && PlaceHolds(q, t1, ln, rn)
      requires q.r.InnerRef? && t1.Inner? && t1.level >= 1 && |q.r.kids| == |t1.kids| == |t1.keys| + 1 && slot <= |t1.keys|
      requires if merged then
                 && 1 <= s <= |t1.keys| && s == (if SlotUse(t1.kids[slot]) != 0 then slot + 1 else slot)
                 && q.r.kids[s].EmptyRef? && Linked(Dropped(t1, s)) && Level(t1.kids[s]) + 1 == t1.level && t2 == Dropped(t1, s)
               else t2 == t1
      requires LinksOk(if merged && t1.level == 1 then 1 else 0) && (merged && t1.level > 1 ==> innernodes > 0)
      modifies this`leaves, this`innernodes, inner`slotuse, inner`slotkey, inner`childid
      ensures q2 == q.(r := q2.r) && q2.r.InnerRef? && q2.r.n == inner && Nodes(q2.r) <= Nodes(q.r)
      ensures PlaceHolds(q2, t2, ln, rn)
      ensures Leaves(q2.r) == Leaves(q.r) && InnerCount(q2.r) == InnerCount(q.r)
      ensures LinksOk(0) && innernodes == old(innernodes) - if merged && t1.level > 1 then 1 else 0
    {
      q2 := q;
      if merged {
        DropChild(inner, slot, q, t1, s, ln, rn);
        SumsWithout(q.r.kids, s);
        q2 := PlaceWithKids(q, RemoveAt(q.r.kids, s));
      }
    }

    /** What is left to do once the child's last key has been passed on is a repair. */
    lemma {:induction false} ReturnIsFix(t: Tree, slot: nat, o: Outcome, ln: Neighbour, rn: Neighbour)
      requires t.Inner? && t.level >= 1 && |t.kids| == |t.keys| + 1 && slot <= |t.keys| && ShapeOfOutcome(t, slot, o)
      requires Context(t.level, ln, rn)
      ensures Context(t.level, ln, KeyedRight(rn, o.lastkey)) && AfterChild(t, slot, o).Inner? && AfterChild(t, slot, o).level == t.level
      ensures EraseReturn(t, slot, o, ln, rn) ==
              FixInner(AfterChild(t, slot, o), ln, KeyedRight(rn, o.lastkey), if o.lastkey.Some? && rn.Sibling? then None else o.lastkey)
    {
    }

    /** What is left to do in an inner node when the call on its child has erased the key. */
    method FinishErase(inner: Node, slot: nat, left: Node?, right: Node?, leftparent: Node?, rightparent: Node?, parent: Node?, parentslot: nat,
                       childmerge: bool, childlast: Option<Key>, ghost p: Place, ghost t: Tree, ghost ln: Neighbour, ghost rn: Neighbour,
                       ghost o: Outcome, ghost kids: seq<Ref>, ghost pre: seq<Node>, ghost post: seq<Node>, ghost others: int, ghost u: Outcome)
      returns (fixmerge: bool, lastkey: Option<Key>, ghost p': Place)
      requires t.Inner? && t.level >= 1 && |t.kids| == |t.keys| + 1 && slot <= |t.keys| && ShapeOfOutcome(t, slot, o)
      requires Context(t.level, ln, rn) && u == EraseReturn(t, slot, o, ln, rn)
      requires p == Place(p.r, left, p.ls, right, p.rs, parent, parentslot, p.ps) && p.r.n == inner
      requires Kin(parent, leftparent, rightparent, ln, rn) && (if parent == null then root == inner else root != inner)
      requires BackUp(p, t, slot, ln, rn, o, kids, pre, post, others) && Finishable(t, slot, ln, rn, o) && others >= 0
      requires childmerge == o.fixmerge && childlast == o.lastkey
      modifies this`root, this`leaves, this`innernodes, inner`slotuse, inner`slotkey, inner`childid, Just(parent)`slotkey
      modifies SiblingNode(ln, left)`slotuse, SiblingNode(ln, left)`slotkey, SiblingNode(ln, left)`childid
      modifies SiblingNode(rn, right)`slotuse, SiblingNode(rn, right)`slotkey, SiblingNode(rn, right)`childid
      ensures u.Erased? && fixmerge == u.fixmerge && lastkey == u.lastkey
      ensures EraseDone(t.level, p, ln, rn, p', u, pre, post, others)
      ensures parent != null ==> root == old(root)
    {
      hide EraseReturn, FixInner, PutBack, DropEmptied, EraseDone, PlaceHolds, LinksOk, Stretch, StretchCount;
      ghost var q, q2 := PlaceWithKids(p, kids), p;
      ReturnIsFix(t, slot, o, ln, rn);
      lastkey, q2 := PassAndDrop(inner, slot, parent, parentslot, childmerge, childlast, p, t, ln, rn, o, kids, pre, post, others);
      fixmerge, lastkey, p' := FixInnerUnderflow(inner, left, right, leftparent, rightparent, parent, parentslot,
                                                 q2, AfterChild(t, slot, o), ln, KeyedRight(rn, childlast), lastkey, pre, post);
      DoneAtFirst(t.level, p, q, q2, ln, rn, childlast, p', u, pre, post, others);
    }

    /** Pass the child's new last key on, and drop a child that a merge has emptied. */
    method PassAndDrop(inner: Node, slot: nat, parent: Node?, parentslot: nat, childmerge: bool, childlast: Option<Key>,
                       ghost p: Place, ghost t: Tree, ghost ln: Neighbour, ghost rn: Neighbour,
                       ghost o: Outcome, ghost kids: seq<Ref>, ghost pre: seq<Node>, ghost post: seq<Node>, ghost others: int)
      returns (lastkey: Option<Key>, ghost q2: Place)
      requires p.r.n == inner && p.parent == parent && p.slot == parentslot && o.Erased?
      requires t.Inner? && t.level >= 1 && |t.kids| == |t.keys| + 1 && slot <= |t.keys| && ShapeOfOutcome(t, slot, o)
      requires BackUp(p, t, slot, ln, rn, o, kids, pre, post, others) && Finishable(t, slot, ln, rn, o) && others >= 0
      requires childmerge == o.fixmerge && childlast == o.lastkey
      modifies this`leaves, this`innernodes, inner`slotuse, inner`slotkey, inner`childid, Just(parent)`slotkey
      ensures lastkey == if childlast.Some? && rn.Sibling? then None else childlast
      ensures q2 == KeyedPlace(PlaceWithKids(p, kids), rn, childlast).(r := q2.r)
      ensures q2.r.InnerRef? && q2.r.n == inner && Nodes(q2.r) <= Nodes(PlaceWithKids(p, kids).r) <= Nodes(p.r)
      ensures ReadyToFix(q2, AfterChild(t, slot, o), ln, KeyedRight(rn, childlast), pre, post, others)
    {
      hide BackUp, Finishable, ShapeOfOutcome, PutBack, AfterChild, DropEmptied, Dropped, Emptied, PlaceHolds, LinksOk, ReadyToFix;
      DropInputs(p, t, slot, ln, rn, o, kids, pre, post, others);
      lastkey, q2 := PassThenDrop(inner, slot, parent, parentslot, childmerge, childlast, PlaceWithKids(p, kids), PutBack(t, slot, o),
                                  AfterChild(t, slot, o), Emptied(slot, o), ln, rn, pre, post, others);
    }

    lemma {:induction false} StretchKept(q: Place, q2: Place, ln: Neighbour, rn: Neighbour, childlast: Option<Key>)
      requires q2 == KeyedPlace(q, rn, childlast).(r := q2.r) && Leaves(q2.r) == Leaves(q.r) && InnerCount(q2.r) == InnerCount(q.r)
      ensures Stretch(q2, ln, KeyedRight(rn, childlast)) == Stretch(q, ln, rn)
      ensures StretchCount(q2, ln, KeyedRight(rn, childlast)) == StretchCount(q, ln, rn)
    {
    }

    method PassThenDrop(inner: Node, slot: nat, parent: Node?, parentslot: nat, merged: bool, childlast: Option<Key>,
                        ghost q: Place, ghost t1: Tree, ghost t2: Tree, ghost s: nat, ghost ln: Neighbour, ghost rn: Neighbour,
                        ghost pre: seq<Node>, ghost post: seq<Node>, ghost others: int)
      returns (lastkey: Option<Key>, ghost q2: Place)
      requires q.r.n == inner && q.parent == parent && q.slot == parentslot && PlaceHolds(q, t1, ln, rn)
      requires q.r.InnerRef? && t1.Inner? && t1.level >= 1 && |q.r.kids| == |t1.kids| == |t1.keys| + 1 && slot <= |t1.keys| && others >= 0
      requires if merged then
                 && 1 <= s <= |t1.keys| && s == (if SlotUse(t1.kids[slot]) != 0 then slot + 1 else slot)
                 && q.r.kids[s].EmptyRef? && Linked(Dropped(t1, s)) && Level(t1.kids[s]) + 1 == t1.level && t2 == Dropped(t1, s)
               else t2 == t1
      requires LinksOk(if merged && t1.level == 1 then 1 else 0) && chain == pre + Stretch(q, ln, rn) + post
      requires innernodes == others + StretchCount(q, ln, rn) + (if merged && t1.level > 1 then 1 else 0)
      modifies this`leaves, this`innernodes, inner`slotuse, inner`slotkey, inner`childid, Just(parent)`slotkey
      ensures lastkey == if childlast.Some? && rn.Sibling? then None else childlast
      ensures q2 == KeyedPlace(q, rn, childlast).(r := q2.r) && q2.r.InnerRef? && q2.r.n == inner && Nodes(q2.r) <= Nodes(q.r)
      ensures ReadyToFix(q2, t2, ln, KeyedRight(rn, childlast), pre, post, others)
    {
      hide PlaceHolds, LinksOk, Dropped, Linked, PlaceNodes, ParentHolds, SlotsFit, Stretch, StretchCount, Leaves, InnerCount, SlotUse, Level;
      lastkey := PassLastKey(parent, parentslot, childlast, q, t1, ln, rn);
      q2 := DropIfMerged(inner, slot, merged, KeyedPlace(q, rn, childlast), t1, t2, s, ln, KeyedRight(rn, childlast));
      StretchKept(q, q2, ln, rn, childlast);
    }

    lemma {:induction false} DropInputs(p: Place, t: Tree, slot: nat, ln: Neighbour, rn: Neighbour, o: Outcome, kids: seq<Ref>,
                                        pre: seq<Node>, post: seq<Node>, others: int)
      requires t.Inner? && t.level >= 1 && |t.kids| == |t.keys| + 1 && slot <= |t.keys| && ShapeOfOutcome(t, slot, o)
      requires BackUp(p, t, slot, ln, rn, o, kids, pre, post, others) && Finishable(t, slot, ln, rn, o)
      ensures (slot > 0 ==> o.left.Sibling?) && (slot < |t.keys| ==> o.right.Sibling?) && o.Erased?
      ensures var q, t1, t2, s := PlaceWithKids(p, kids), PutBack(t, slot, o), AfterChild(t, slot, o), Emptied(slot, o);
              && PlaceHolds(q, t1, ln, rn) && Nodes(q.r) <= Nodes(p.r)
              && t1.Inner? && t1.level == t.level && |kids| == |t1.kids| == |t1.keys| + 1 && slot <= |t1.keys|
              && (if o.fixmerge then
                    && 1 <= s <= |t1.keys| && s == (if SlotUse(t1.kids[slot]) != 0 then slot + 1 else slot)
                    && kids[s].EmptyRef? && Linked(Dropped(t1, s)) && Level(t1.kids[s]) + 1 == t1.level && t2 == Dropped(t1, s)
                  else t2 == t1)
              && LinksOk(if o.fixmerge && t.level == 1 then 1 else 0) && chain == pre + Stretch(q, ln, rn) + post
              && innernodes == others + StretchCount(q, ln, rn) + (if o.fixmerge && t.level > 1 then 1 else 0)
    {
    }

    ghost predicate ReadyToFix(q: Place, t: Tree, ln: Neighbour, rn: Neighbour, pre: seq<Node>, post: seq<Node>, others: int)
      reads this`root, this`chain, this`headleaf, this`tailleaf, this`leaves, this`innernodes, chain`prevleaf, chain`nextleaf
      reads PlaceNodes(q)`level, PlaceNodes(q)`slotuse, PlaceNodes(q)`slotkey, PlaceNodes(q)`slotdata, PlaceNodes(q)`childid
    {
      && PlaceHolds(q, t, ln, rn)
      && LinksOk(0) && chain == pre + Stretch(q, ln, rn) + post && innernodes == others + StretchCount(q, ln, rn)
    }

    lemma {:induction false} DoneAtFirst(level: nat, p: Place, q: Place, q2: Place, ln: Neighbour, rn: Neighbour, childlast: Option<Key>,
                                         p': Place, u: Outcome, pre: seq<Node>, post: seq<Node>, others: int)
      requires q == p.(r := q.r) && Nodes(q.r) <= Nodes(p.r) && q2 == KeyedPlace(q, rn, childlast).(r := q2.r) && Nodes(q2.r) <= Nodes(q.r)
      requires EraseDone(level, q2, ln, KeyedRight(rn, childlast), p', u, pre, post, others)
      requires rn.Sibling? && !(p.parent == null && u.curr == Leaf([])) ==> u.right.Sibling?
      ensures EraseDone(level, p, ln, rn, p', u, pre, post, others)
    {
      hide EraseDone, Nodes;
      DoneInside(level, KeyedPlace(p, rn, childlast), q2, ln, KeyedRight(rn, childlast), p', u, pre, post, others);
      if childlast.Some? && rn.Sibling? {
        DoneAfterRekey(level, p, ln, rn, p', childlast.value, u, pre, post, others);
      }
    }

    lemma {:induction false} DoneInside(level: nat, p: Place, q: Place, ln: Neighbour, rn: Neighbour, p': Place, u: Outcome,
                                        pre: seq<Node>, post: seq<Node>, others: int)
      requires q == p.(r := q.r) && Nodes(q.r) <= Nodes(p.r) && EraseDone(level, q, ln, rn, p', u, pre, post, others)
      ensures EraseDone(level, p, ln, rn, p', u, pre, post, others)
    {
      hide NewSlots, PlaceHolds, LinksOk, Stretch, StretchCount, Nodes, NodesOf;
    }

    method EraseOneDescend(key: Key, curr: Node, left: Node?, right: Node?, leftparent: Node?, rightparent: Node?, parent: Node?, parentslot: nat,
                           ghost p: Place, ghost t: Tree, ghost ln: Neighbour, ghost rn: Neighbour, ghost pre: seq<Node>, ghost post: seq<Node>)
      returns (found: bool, fixmerge: bool, lastkey: Option<Key>, ghost p': Place)
      requires p == Place(p.r, left, p.ls, right, p.rs, parent, parentslot, p.ps)
      requires EraseReady(curr, leftparent, rightparent, p, t, ln, rn, pre, post)
      modifies this`root, this`headleaf, this`tailleaf, this`leaves, this`innernodes, this`chain, chain`prevleaf, chain`nextleaf
      modifies Nodes(p.r), SideNodes(ln, p.ls), SideNodes(rn, p.rs), Just(parent)`slotkey
      ensures var o := EraseDescend(t, key, ln, rn);
              && found == o.Erased?
              && (!found ==> EraseReady(curr, leftparent, rightparent, p, t, ln, rn, pre, post))
              && (found ==> fixmerge == o.fixmerge && lastkey == o.lastkey
                            && EraseDone(Level(t), p, ln, rn, p', o, pre, post, old(innernodes) - StretchCount(p, ln, rn)))
      ensures !found || parent != null ==> root == old(root)
      ensures !found ==> innernodes == old(innernodes)
      decreases t, 4
    {
      SiblingNodes(p, t, ln, rn);
      if curr.level == 0 {
        found, fixmerge, lastkey, p' := EraseInLeaf(key, curr, left, right, leftparent, rightparent, parent, parentslot,
                                                    p, t.items, ln, rn, pre, post);
      } else {
        found, fixmerge, lastkey, p' := EraseBelow(key, curr, left, right, leftparent, rightparent, parent, parentslot,
                                                   p, t, ln, rn, pre, post);
      }
    }

    /** The work of an inner node. */
    method EraseBelow(key: Key, inner: Node, left: Node?, right: Node?, leftparent: Node?, rightparent: Node?, parent: Node?, parentslot: nat,
                      ghost p: Place, ghost t: Tree, ghost ln: Neighbour, ghost rn: Neighbour, ghost pre: seq<Node>, ghost post: seq<Node>)
      returns (found: bool, fixmerge: bool, lastkey: Option<Key>, ghost p': Place)
      requires p == Place(p.r, left, p.ls, right, p.rs, parent, parentslot, p.ps) && t.Inner?
      requires EraseReady(inner, leftparent, rightparent, p, t, ln, rn, pre, post)
      modifies this`root, this`headleaf, this`tailleaf, this`leaves, this`innernodes, this`chain, chain`prevleaf, chain`nextleaf
      modifies Nodes(p.r), SideNodes(ln, p.ls), SideNodes(rn, p.rs), Just(parent)`slotkey
      ensures var o := EraseDescend(t, key, ln, rn);
              && found == o.Erased?
              && (!found ==> EraseReady(inner, leftparent, rightparent, p, t, ln, rn, pre, post))
              && (found ==> fixmerge == o.fixmerge && lastkey == o.lastkey
                            && EraseDone(Level(t), p, ln, rn, p', o, pre, post, old(innernodes) - StretchCount(p, ln, rn)))
      ensures !found || parent != null ==> root == old(root)
      ensures !found ==> innernodes == old(innernodes)
      decreases t, 3
    {
      EraseSlots(inner, p, t, ln, rn, key);
      var slot := SearchToErase(key, inner, PlaceNodes(p), p, t, ln, rn, pre, post, leftparent, rightparent);
      found, fixmerge, lastkey, p' := EraseBelowSlot(key, inner, slot, left, right, leftparent, rightparent, parent, parentslot,
                                                     p, t, ln, rn, pre, post);
    }

    method SearchToErase(key: Key, inner: Node, ghost nodes: set<Node>, ghost p: Place, ghost t: Tree, ghost ln: Neighbour, ghost rn: Neighbour,
                         ghost pre: seq<Node>, ghost post: seq<Node>, ghost leftparent: Node?, ghost rightparent: Node?)
      returns (slot: nat)
      requires nodes == PlaceNodes(p) && inner.slotuse <= |inner.slotkey| && SortedKeys(inner.slotkey[..inner.slotuse])
      ensures slot == LowerSlot(old(inner.slotkey[..inner.slotuse]), key)
      ensures EraseReady(inner, leftparent, rightparent, p, t, ln, rn, pre, post) ==
              old(EraseReady(inner, leftparent, rightparent, p, t, ln, rn, pre, post))
    {
      slot := FindLower(inner, key);
    }

    method EraseBelowSlot(key: Key, inner: Node, slot: nat, left: Node?, right: Node?, leftparent: Node?, rightparent: Node?,
                          parent: Node?, parentslot: nat,
                          ghost p: Place, ghost t: Tree, ghost ln: Neighbour, ghost rn: Neighbour, ghost pre: seq<Node>, ghost post: seq<Node>)
      returns (found: bool, fixmerge: bool, lastkey: Option<Key>, ghost p': Place)
      requires p == Place(p.r, left, p.ls, right, p.rs, parent, parentslot, p.ps) && t.Inner? && slot == LowerSlot(t.keys, key)
      requires EraseReady(inner, leftparent, rightparent, p, t, ln, rn, pre, post)
      modifies this`root, this`headleaf, this`tailleaf, this`leaves, this`innernodes, this`chain, chain`prevleaf, chain`nextleaf
      modifies Nodes(p.r), SideNodes(ln, p.ls), SideNodes(rn, p.rs), Just(parent)`slotkey
      ensures var o := EraseDescend(t, key, ln, rn);
              && found == o.Erased?
              && (!found ==> EraseReady(inner, leftparent, rightparent, p, t, ln, rn, pre, post))
              && (found ==> fixmerge == o.fixmerge && lastkey == o.lastkey
                            && EraseDone(t.level, p, ln, rn, p', o, pre, post, old(innernodes) - StretchCount(p, ln, rn)))
      ensures !found || parent != null ==> root == old(root)
      ensures !found ==> innernodes == old(innernodes)
      decreases t, 2
    {
      fixmerge, lastkey, p' := false, None, p;
      EraseSlots(inner, p, t, ln, rn, key);
      SiblingNodes(p, t, ln, rn);
      ghost var others := innernodes - StretchCount(p, ln, rn);
      ghost var o := ChildOutcome(key, p, t, slot, ln, rn);
      var childmerge, childlast;
      ghost var kids;
      found, childmerge, childlast, kids := EraseInChild(key, inner, slot, left, right, leftparent, rightparent, p, t, ln, rn, pre, post);
      if found {
        fixmerge, lastkey, p' := FinishErase(inner, slot, left, right, leftparent, rightparent, parent, parentslot, childmerge, childlast,
                                             p, t, ln, rn, o, kids, pre, post, others, EraseReturn(t, slot, o, ln, rn));
      }
    }

    /** Erase the pair with this key, if there is one. */
    method EraseOne(key: Key) returns (erased: bool)
      requires Valid()
      modifies this, NodesOf(refs), chain`prevleaf, chain`nextleaf
      ensures Valid() && NodesOf(refs) <= old(NodesOf(refs))
      ensures content == BTreeErase.EraseOne(old(content), key).0
      ensures Contents() == Remove(old(Contents()), key)
      ensures erased <==> HasKey(old(Contents()), key)
      ensures erased ==> BTreeShape.RootRows(old(content), content, key)
    {
      EraseFacts(content, key);
      if root == null {
        return false;
      }
      erased := EraseFromRoot(key, content.value);
      CountErased(erased);
    }

    method CountErased(erased: bool)
      requires itemcount == |RootItems(content)| + if erased then 1 else 0
      requires ContentHeld()
      modifies this`itemcount
      ensures Valid()
    {
      if erased {
        itemcount := itemcount - 1;
      }
    }

    /** All of `Valid` but the count of the items. */
    ghost predicate ContentHeld()
      reads this, chain`prevleaf, chain`nextleaf
      reads NodesOf(refs)`level, NodesOf(refs)`slotuse, NodesOf(refs)`slotkey, NodesOf(refs)`slotdata, NodesOf(refs)`childid
    {
      if content.Some? then root != null && RootHolds(content.value) && BTreeModel.Valid(content.value)
      else root == null && refs == [] && chain == [] && LinksOk(0) && innernodes == 0
    }

    method EraseFromRoot(key: Key, ghost t: Tree) returns (found: bool)
      requires root != null && RootHolds(t) && BTreeModel.Valid(t) && content == Some(t)
      modifies this`root, this`headleaf, this`tailleaf, this`leaves, this`innernodes, this`chain, this`refs, this`content
      modifies NodesOf(refs), chain`prevleaf, chain`nextleaf
      ensures var (after, erased) := BTreeErase.EraseOne(Some(t), key);
              && found == erased && content == after
              && if after.Some? then root != null && RootHolds(after.value)
                 else root == null && refs == [] && chain == [] && LinksOk(0) && innernodes == 0
      ensures NodesOf(refs) <= old(NodesOf(refs))
    {
      hide *;
      ghost var o := EraseOneIs(t, key);
      ghost var r;
      found, r := EraseAtRoot(key, t);
      if found {
        Rehang(o.curr, r);
      }
    }

    lemma {:induction false} EraseOneIs(t: Tree, key: Key) returns (o: Outcome)
      requires BTreeModel.Valid(t)
      ensures Shape(t, 1) && o == EraseDescend(t, key, Nobody, Nobody)
      ensures BTreeErase.EraseOne(Some(t), key) ==
              if o.NotFound? then (Some(t), false) else (if o.curr == Leaf([]) then None else Some(o.curr), true)
    {
      o := EraseDescend(t, key, Nobody, Nobody);
    }

    /** The root's new node and content, after a descent that has erased. */
    ghost method Rehang(t: Tree, r: Ref)
      requires if t == Leaf([]) then root == null && chain == [] && LinksOk(0) && innernodes == 0
               else RootHeldBy(r, t) && Nodes(r) <= NodesOf(refs)
      modifies this`refs, this`content
      ensures NodesOf(refs) <= old(NodesOf(refs)) && content == if t == Leaf([]) then None else Some(t)
      ensures if t == Leaf([]) then root == null && refs == [] && chain == [] && LinksOk(0) && innernodes == 0
              else root != null && RootHolds(t)
    {
      refs := if t == Leaf([]) then [] else [r];
      content := if t == Leaf([]) then None else Some(t);
    }

    method EraseAtRoot(key: Key, ghost t: Tree) returns (found: bool, ghost r: Ref)
      requires root != null && RootHolds(t) && BTreeModel.Valid(t)
      modifies this`root, this`headleaf, this`tailleaf, this`leaves, this`innernodes, this`chain
      modifies NodesOf(refs), chain`prevleaf, chain`nextleaf
      ensures var o := EraseDescend(t, key, Nobody, Nobody);
              && found == o.Erased?
              && (found && o.curr != Leaf([]) ==> RootHeldBy(r, o.curr) && Nodes(r) <= NodesOf(refs))
              && (found && o.curr == Leaf([]) ==> root == null && chain == [] && LinksOk(0) && innernodes == 0)
      ensures !found ==> RootHolds(t) && root != null
    {
      hide EraseReady, EraseDone;
      RootReady(t);
      ghost var p := RootPlace(refs[0]);
      ghost var o := EraseDescend(t, key, Nobody, Nobody);
      ghost var p';
      var fixmerge, lastkey;
      found, fixmerge, lastkey, p' := EraseOneDescend(key, root, null, null, null, null, null, 0, p, t, Nobody, Nobody, [], []);
      r := p'.r;
      if found {
        RootDone(t, p, p', o);
      } else {
        RootAgain(t);
      }
    }

    /** As `RootHolds`, for a tree about to become this one. */
    ghost predicate RootHeldBy(r: Ref, t: Tree)
      reads this`root, this`innernodes
      reads this`chain, this`headleaf, this`tailleaf, this`leaves, chain`prevleaf, chain`nextleaf
      reads Nodes(r)`level, Nodes(r)`slotuse, Nodes(r)`slotkey, Nodes(r)`slotdata, Nodes(r)`childid
    {
      && NodesOf([r]) == Nodes(r) && r.n == root && !r.EmptyRef?
      && HoldsAll([r], [t])
      && LinksOk(0) && chain == LeavesOf([r])
      && innernodes == InnerCountOf([r])
    }

    lemma {:induction false} RootReady(t: Tree)
      requires root != null && RootHolds(t) && BTreeModel.Valid(t)
      ensures Erasable(t, Nobody, Nobody) && StretchCount(RootPlace(refs[0]), Nobody, Nobody) == innernodes
      ensures EraseReady(root, null, null, RootPlace(refs[0]), t, Nobody, Nobody, [], [])
      ensures NodesOf(refs) == Nodes(refs[0])
    {
      RootAlone(refs, t);
      RootStretch(RootPlace(refs[0]));
    }

    lemma {:induction false} RootAgain(t: Tree)
      requires |refs| == 1 && refs[0].n == root && EraseReady(refs[0].n, null, null, RootPlace(refs[0]), t, Nobody, Nobody, [], [])
      requires innernodes == InnerCountOf(refs)
      ensures RootHolds(t)
    {
      assert refs == [refs[0]];
      HoldsAllOne(refs[0], t);
      RootStretch(RootPlace(refs[0]));
      LeavesOfOne(refs[0]);
    }

    lemma {:induction false} RootDone(t: Tree, p: Place, p': Place, o: Outcome)
      requires p.parent == null && EraseDone(Level(t), p, Nobody, Nobody, p', o, [], [], 0) && o.left.Nobody? && o.right.Nobody? && !o.fixmerge
      ensures o.curr != Leaf([]) ==> RootHeldBy(p'.r, o.curr) && Nodes(p'.r) <= Nodes(p.r) + NodesOf(p.ls) + NodesOf(p.rs)
    {
      if o.curr != Leaf([]) {
        NodesOfOne(p'.r);
        HoldsAllOne(p'.r, o.curr);
        RootStretch(p');
        LeavesOfOne(p'.r);
      }
    }

    // ---- Lookups ----

    /** The cursor at slot `slot` of leaf `i` stands at this position of the content;
        past the last slot it is the end of the last leaf. */
    ghost predicate CursorAt(leaf: Node?, slot: nat, i: nat, rank: nat)
      reads this`root, this`chain, this`tailleaf, this`content, chain`level, chain`slotuse, chain`slotkey, chain`slotdata
    {
      if content.None? then leaf == tailleaf == null && slot == rank == 0
      else
        && i < |chain| == |Runs(content.value)| && chain[i] == leaf
        && LeafHolds(leaf, Runs(content.value)[i]) && slot <= leaf.slotuse
        && Rank(Runs(content.value), i, slot) == rank
        && (slot == leaf.slotuse ==> leaf == tailleaf)
    }

    /** Whether a descent has narrowed the search for the first key not below `key` down to node `n`. */
    ghost predicate NarrowedTo(n: Node, r: Ref, t: Tree, before: seq<seq<Item>>, after: seq<seq<Item>>, pre: seq<Node>, post: seq<Node>, key: Key)
      reads this`content, this`chain, Nodes(r)`level, Nodes(r)`slotuse, Nodes(r)`slotkey, Nodes(r)`slotdata, Nodes(r)`childid
    {
      && content.Some? && r.n == n && Holds(r, t)
      && chain == pre + Leaves(r) + post && |pre| == |before|
      && Narrowed(Runs(content.value), before, t, after, key)
    }

    /** The loop of every search: down to the leaf that must hold the key if any does. */
    method LeafFor(key: Key) returns (leaf: Node, ghost items: seq<Item>, ghost i: nat)
      requires Valid() && root != null
      ensures LeafReached(leaf, items, i, key)
    {
      leaf := root;
      ghost var r, t, before, after, pre, post := refs[0], content.value, [], [], [], [];
      StartAtRoot(key);
      while leaf.level != 0
        invariant NarrowedTo(leaf, r, t, before, after, pre, post, key)
        invariant Valid() && root != null
        decreases t
      {
        var slot := SearchLower(leaf, key, r, t, before, after, pre, post, NodesOf(refs), Nodes(r));
        InnerReached(leaf, r, t, before, after, pre, post, key);
        leaf := leaf.childid[slot];
        pre, post := pre + LeavesOf(r.kids[..slot]), LeavesOf(r.kids[slot + 1..]) + post;
        r, before, after := r.kids[slot], before + RunsOf(t.kids[..slot]), RunsOf(t.kids[slot + 1..]) + after;
        t := t.kids[slot];
      }
      items, i := LeafArrived(leaf, r, t, before, after, pre, post, key);
    }

    /** The search in one inner node on the way. `all` are the nodes of the tree, `below` those from here on. */
    method SearchLower(n: Node, key: Key, ghost r: Ref, ghost t: Tree, ghost before: seq<seq<Item>>, ghost after: seq<seq<Item>>,
                       ghost pre: seq<Node>, ghost post: seq<Node>, ghost all: set<Node>, ghost below: set<Node>)
      returns (slot: nat)
      requires Valid() && all == NodesOf(refs) && below == Nodes(r)
      requires NarrowedTo(n, r, t, before, after, pre, post, key) && n.level != 0
      ensures t.Inner? && slot == LowerSlot(t.keys, key)
      ensures Valid() == old(Valid())
      ensures NarrowedTo(n, r, t, before, after, pre, post, key) == old(NarrowedTo(n, r, t, before, after, pre, post, key))
      ensures n.level == old(n.level)
    {
      InnerReached(n, r, t, before, after, pre, post, key);
      slot := FindLower(n, key);
    }

    method SearchUpper(n: Node, key: Key, ghost r: Ref, ghost t: Tree, ghost before: seq<seq<Item>>, ghost after: seq<seq<Item>>,
                       ghost pre: seq<Node>, ghost post: seq<Node>, ghost all: set<Node>, ghost below: set<Node>)
      returns (slot: nat)
      requires Valid() && all == NodesOf(refs) && below == Nodes(r)
      requires NarrowedTo(n, r, t, before, after, pre, post, key + 1) && n.level != 0
      ensures t.Inner? && slot == LowerSlot(t.keys, key + 1)
      ensures Valid() == old(Valid())
      ensures NarrowedTo(n, r, t, before, after, pre, post, key + 1) == old(NarrowedTo(n, r, t, before, after, pre, post, key + 1))
      ensures n.level == old(n.level)
    {
      InnerReached(n, r, t, before, after, pre, post, key + 1);
      UpperIsLower(t.keys, key);
      slot := FindUpper(n, key);
    }

    /** The same loop with the other search in every node. */
    method LeafAbove(key: Key) returns (leaf: Node, ghost items: seq<Item>, ghost i: nat)
      requires Valid() && root != null
      ensures LeafReached(leaf, items, i, key + 1)
    {
      leaf := root;
      ghost var r, t, before, after, pre, post := refs[0], content.value, [], [], [], [];
      StartAtRoot(key + 1);
      while leaf.level != 0
        invariant NarrowedTo(leaf, r, t, before, after, pre, post, key + 1)
        invariant Valid() && root != null
        decreases t
      {
        var slot := SearchUpper(leaf, key, r, t, before, after, pre, post, NodesOf(refs), Nodes(r));
        InnerReached(leaf, r, t, before, after, pre, post, key + 1);
        leaf := leaf.childid[slot];
        pre, post := pre + LeavesOf(r.kids[..slot]), LeavesOf(r.kids[slot + 1..]) + post;
        r, before, after := r.kids[slot], before + RunsOf(t.kids[..slot]), RunsOf(t.kids[slot + 1..]) + after;
        t := t.kids[slot];
      }
      items, i := LeafArrived(leaf, r, t, before, after, pre, post, key + 1);
    }

    lemma {:induction false} StartAtRoot(key: Key)
      requires Valid() && root != null
      ensures NarrowedTo(root, refs[0], content.value, [], [], [], [], key)
    {
      RootAlone(refs, content.value);
      assert [] + Runs(content.value) + [] == Runs(content.value);
      assert [] + Leaves(refs[0]) + [] == Leaves(refs[0]);
    }

    lemma {:induction false} InnerReached(n: Node, r: Ref, t: Tree, before: seq<seq<Item>>, after: seq<seq<Item>>, pre: seq<Node>, post: seq<Node>, key: Key)
      requires NarrowedTo(n, r, t, before, after, pre, post, key) && n.level != 0
      ensures r.InnerRef? && t.Inner?
      ensures n.slotuse <= |n.slotkey| && n.slotkey[..n.slotuse] == t.keys && SortedKeys(t.keys)
      ensures var slot := LowerSlot(t.keys, key);
              && slot < |t.kids| == |r.kids| && slot < |n.childid| && n.childid[slot] == r.kids[slot].n
              && NarrowedTo(r.kids[slot].n, r.kids[slot], t.kids[slot], before + RunsOf(t.kids[..slot]), RunsOf(t.kids[slot + 1..]) + after,
                            pre + LeavesOf(r.kids[..slot]), LeavesOf(r.kids[slot + 1..]) + post, key)
    {
      var slot := LowerSlot(t.keys, key);
      Narrow(Runs(content.value), before, t, after, key);
      HoldsAllLength(r.kids, t.kids);
      LeavesBelow(r.kids, t.kids, slot, pre, post);
    }

    lemma {:induction false} LeavesBelow(rs: seq<Ref>, ts: seq<Tree>, slot: nat, pre: seq<Node>, post: seq<Node>)
      requires HoldsAll(rs, ts) && slot < |rs| == |ts| && forall i | 0 <= i < |ts| :: Linked(ts[i]) && SlotUse(ts[i]) > 0
      ensures Holds(rs[slot], ts[slot]) && |LeavesOf(rs[..slot])| == |RunsOf(ts[..slot])|
      ensures pre + LeavesOf(rs) + post == (pre + LeavesOf(rs[..slot])) + Leaves(rs[slot]) + (LeavesOf(rs[slot + 1..]) + post)
    {
      OneOfAll(rs, ts, slot);
      LeavesAround(rs, slot);
      Nested(pre, LeavesOf(rs[..slot]), Leaves(rs[slot]), LeavesOf(rs[slot + 1..]), post);
      KidsCut(rs, ts, slot);
      LeavesHoldRunsOf(rs[..slot], ts[..slot]);
    }

    /** A leaf that holds the first key not below `key`, or is the last leaf if there is none. */
    ghost predicate LeafReached(leaf: Node, items: seq<Item>, i: nat, key: Key)
      reads this`root, this`chain, this`tailleaf, this`content, chain`level, chain`slotuse, chain`slotkey, chain`slotdata
      reads leaf`level, leaf`slotuse, leaf`slotkey, leaf`slotdata
    {
      && LeafHolds(leaf, items) && Sorted(items)
      && CursorAt(leaf, LowerSlot(Keys(items), key), i, LowerSlot(Keys(Contents()), key))
      && content.Some? && Runs(content.value)[i] == items
      && (Found(Contents(), key) <==> Found(items, key))
    }

    lemma {:induction false} LeafArrived(leaf: Node, r: Ref, t: Tree, before: seq<seq<Item>>, after: seq<seq<Item>>, pre: seq<Node>, post: seq<Node>, key: Key)
      returns (items: seq<Item>, i: nat)
      requires Valid() && root != null && NarrowedTo(leaf, r, t, before, after, pre, post, key) && leaf.level == 0
      ensures LeafReached(leaf, items, i, key)
    {
      items, i := t.items, |before|;
      Arrived(Runs(content.value), before, t, after, key);
      RootAlone(refs, content.value);
      LeavesHoldRuns(refs[0], content.value);
      FlatRuns(content.value);
      assert Leaves(r) == [leaf] && chain[i] == leaf;
    }

    /** The first pair whose key is not below `key`, or the end. */
    method LowerBound(key: Key) returns (leaf: Node?, slot: nat, ghost i: nat)
      requires Valid()
      ensures CursorAt(leaf, slot, i, LowerSlot(Keys(Contents()), key))
    {
      leaf, slot, i := tailleaf, 0, 0;
      if root != null {
        ghost var items;
        leaf, items, i := LeafFor(key);
        slot := LowerInLeaf(leaf, key, items, i, chain);
      }
    }

    /** The search in the leaf reached; `all` are the leaves of the tree. */
    method LowerInLeaf(leaf: Node, key: Key, ghost items: seq<Item>, ghost i: nat, ghost all: seq<Node>) returns (slot: nat)
      requires all == chain && LeafReached(leaf, items, i, key)
      ensures slot == LowerSlot(Keys(items), key)
      ensures LeafReached(leaf, items, i, key) == old(LeafReached(leaf, items, i, key))
    {
      KeysOfLeaf(leaf, items);
      slot := FindLower(leaf, key);
    }

    method UpperInLeaf(leaf: Node, key: Key, ghost items: seq<Item>, ghost i: nat, ghost all: seq<Node>) returns (slot: nat)
      requires all == chain && LeafReached(leaf, items, i, key + 1)
      ensures slot == LowerSlot(Keys(items), key + 1)
      ensures LeafReached(leaf, items, i, key + 1) == old(LeafReached(leaf, items, i, key + 1))
    {
      KeysOfLeaf(leaf, items);
      UpperIsLower(Keys(items), key);
      slot := FindUpper(leaf, key);
    }

    /** The first pair whose key is above `key`, or the end. */
    method UpperBound(key: Key) returns (leaf: Node?, slot: nat, ghost i: nat)
      requires Valid()
      ensures CursorAt(leaf, slot, i, UpperSlot(Keys(Contents()), key))
    {
      leaf, slot, i := tailleaf, 0, 0;
      UpperIsLower(Keys(Contents()), key);
      if root != null {
        ghost var items;
        leaf, items, i := LeafAbove(key);
        slot := UpperInLeaf(leaf, key, items, i, chain);
      }
    }

    /** The pair with this key, or the end. */
    method Find(key: Key) returns (leaf: Node?, slot: nat, ghost i: nat)
      requires Valid()
      ensures CursorAt(leaf, slot, i, if HasKey(Contents(), key) then LowerSlot(Keys(Contents()), key) else |Contents()|)
      ensures HasKey(Contents(), key) ==> leaf != null && slot < leaf.slotuse <= |leaf.slotkey| && leaf.slotkey[slot] == key
    {
      hide Keys, Items, Flat, Runs, RunsOf, LeafHolds;
      leaf, slot, i := tailleaf, 0, 0;
      if root != null {
        ghost var items;
        leaf, items, i := LeafFor(key);
        var found;
        slot, found := FindInReached(leaf, key, items, i, chain, NodesOf(refs));
        FoundAtLowerSlot(Contents(), key);
        if !found {
          EndCursor();
          leaf, slot, i := tailleaf, tailleaf.slotuse, |chain| - 1;
        }
      }
    }

    method FindInReached(leaf: Node, key: Key, ghost items: seq<Item>, ghost i: nat, ghost all: seq<Node>, ghost nodes: set<Node>)
      returns (slot: nat, found: bool)
      requires all == chain && nodes == NodesOf(refs) && Valid() && LeafReached(leaf, items, i, key)
      ensures slot == LowerSlot(Keys(items), key) && found == Found(items, key)
      ensures found ==> slot < leaf.slotuse <= |leaf.slotkey| && leaf.slotkey[slot] == key
      ensures Valid() == old(Valid()) && LeafReached(leaf, items, i, key) == old(LeafReached(leaf, items, i, key))
    {
      slot, found := FindInLeaf(leaf, key, items);
    }

    method Exists(key: Key) returns (found: bool)
      requires Valid()
      ensures found <==> HasKey(Contents(), key)
    {
      if root == null {
        return false;
      }
      var leaf;
      ghost var items, i;
      leaf, items, i := LeafFor(key);
      FoundAtLowerSlot(Contents(), key);
      KeysOfLeaf(leaf, items);
      var slot := FindLower(leaf, key);
      found := slot < leaf.slotuse && leaf.slotkey[slot] == key;
    }

    lemma {:induction false} LeavesHeld()
      requires Valid() && root != null
      ensures RunsHeld(chain, Runs(content.value)) && Flat(Runs(content.value)) == Contents()
      ensures forall i | 0 <= i < |chain| :: Runs(content.value)[i] != []
      ensures chain != []
    {
      RootAlone(refs, content.value);
      LeavesHoldRuns(refs[0], content.value);
      FlatRuns(content.value);
      RunsNonempty(content.value);
    }

    lemma {:induction false} EndCursor()
      requires Valid() && root != null
      ensures tailleaf != null && CursorAt(tailleaf, tailleaf.slotuse, |chain| - 1, |Contents()|)
    {
      LeavesHeld();
      NextRun(Runs(content.value), |chain| - 1);
      assert Runs(content.value)[|chain|..] == [];
    }

    /** Walking the tree with a cursor from the beginning to the end, as iterators
        do along the links of the leaves, visits exactly the content, in key order. */
    method Walk() returns (items: seq<Item>)
      requires Valid()
      ensures items == Contents() && Sorted(items)
    {
      hide Flat, Runs, RunsOf, LeafHolds;
      items := [];
      if root == null {
        return;
      }
      var leaf, slot: nat := headleaf, 0;
      ghost var i: nat := 0;
      FirstCursor();
      while !(leaf == tailleaf && slot == leaf.slotuse)
        invariant leaf != null && CursorAt(leaf, slot, i, |items|)
        invariant |items| <= |Contents()| && items == Contents()[..|items|]
        decreases |Contents()| - |items|
      {
        CursorItem(leaf, slot, i, |items|);
        items := items + [Item(leaf.slotkey[slot], leaf.slotdata[slot])];
        if slot + 1 < leaf.slotuse {
          slot := slot + 1;
        } else if leaf.nextleaf != null {
          leaf, slot, i := leaf.nextleaf, 0, i + 1;
        } else {
          slot := leaf.slotuse;
        }
      }
      EndCursor();
      LastCursor(leaf, slot, i, |items|);
    }

    lemma {:induction false} FirstCursor()
      requires Valid() && root != null
      ensures headleaf != null && CursorAt(headleaf, 0, 0, 0)
    {
      LeavesHeld();
      assert Runs(content.value)[..0] == [];
    }

    lemma {:induction false} LastCursor(leaf: Node, slot: nat, i: nat, rank: nat)
      requires Valid() && root != null && CursorAt(leaf, slot, i, rank) && leaf == tailleaf && slot == leaf.slotuse
      ensures rank == |Contents()|
    {
      assert i == |chain| - 1;
      EndCursor();
    }

    /** A cursor that is not at the end has an item, and can be moved on. */
    lemma {:induction false} CursorItem(leaf: Node, slot: nat, i: nat, rank: nat)
      requires Valid() && root != null && CursorAt(leaf, slot, i, rank) && !(leaf == tailleaf && slot == leaf.slotuse)
      ensures slot < leaf.slotuse <= |leaf.slotkey| && leaf.slotuse <= |leaf.slotdata|
      ensures rank < |Contents()| && Contents()[rank] == Item(leaf.slotkey[slot], leaf.slotdata[slot])
      ensures slot + 1 < leaf.slotuse ==> CursorAt(leaf, slot + 1, i, rank + 1)
      ensures slot + 1 == leaf.slotuse && leaf.nextleaf != null ==> CursorAt(leaf.nextleaf, 0, i + 1, rank + 1)
      ensures slot + 1 == leaf.slotuse && leaf.nextleaf == null ==> CursorAt(leaf, leaf.slotuse, i, rank + 1)
    {
      LeavesHeld();
      var runs := Runs(content.value);
      NextRun(runs, i);
      assert LinkedAt(chain, i);
      assert Contents()[rank] == runs[i][slot];
    }
  }

  /** The slots of an inner node, and of its new sibling if it had to be split,
      once `newchild` has been put behind child `slot`. */
  ghost predicate InnerSplit(n: Node, m: Node?, splitkey: Key, level: nat, keys: seq<Key>, kids: seq<Node>,
                             slot: nat, newkey: Key, newchild: Node)
    requires |kids| == |keys| + 1 && slot <= |keys|
    reads n`level, n`slotuse, n`slotkey, n`childid
    reads if m == null then {} else {m}
  {
    var keys', kids' := InsertAt(keys, slot, newkey), InsertAt(kids, slot + 1, newchild);
    && (m != null <==> |keys| == innerslotmax)
    && if m == null then InnerHolds(n, level, keys', kids')
       else
         var p := CutPoint(|keys|, slot);
         && InnerHolds(n, level, keys'[..p], kids'[..p + 1])
         && splitkey == keys'[p]
         && InnerHolds(m, level, keys'[p + 1..], kids'[p + 1..])
  }

  /** Nodes `r`, and `s` if there was a split, hold what an insertion function returned. */
  ghost predicate ResultHeld(u: Result, splitkey: Key, splitnode: Node?, r: Ref, s: seq<Ref>)
    reads Nodes(r)`level, Nodes(r)`slotuse, Nodes(r)`slotkey, Nodes(r)`slotdata, Nodes(r)`childid
    reads NodesOf(s)`level, NodesOf(s)`slotuse, NodesOf(s)`slotkey, NodesOf(s)`slotdata, NodesOf(s)`childid
  {
    && !r.EmptyRef?
    && Holds(r, u.tree)
    && HoldsAll(s, RightTrees(u))
    && Nodes(r) !! NodesOf(s)
    && (splitnode == null <==> u.split.None?)
    && (splitnode != null ==> s != [] && s[0].n == splitnode && !s[0].EmptyRef? && splitkey == u.split.value.key)
  }

  ghost function RightTrees(u: Result): seq<Tree> {
    if u.split.None? then [] else [u.split.value.right]
  }

  /** The children once child `slot` has become `c`, with `d` behind it. */
  ghost function NewKids<T>(kids: seq<T>, slot: nat, c: T, d: seq<T>): seq<T>
    requires slot < |kids|
  {
    kids[..slot] + [c] + d + kids[slot + 1..]
  }

  lemma {:induction false} PutIn(kids: seq<Ref>, ts: seq<Tree>, slot: nat, c: Ref, d: seq<Ref>, u: Result, newkey: Key, newchild: Node?)
    requires slot < |kids| == |ts|
    requires HoldsAll(kids[..slot] + kids[slot + 1..], ts[..slot] + ts[slot + 1..])
    requires ResultHeld(u, newkey, newchild, c, d)
    requires Nodes(c) + NodesOf(d) !! NodesOf(kids[..slot] + kids[slot + 1..])
    ensures HoldsAll(NewKids(kids, slot, c, d), NewKids(ts, slot, u.tree, RightTrees(u)))
    ensures NodesOf(NewKids(kids, slot, c, d)) == Nodes(c) + NodesOf(d) + NodesOf(kids[..slot] + kids[slot + 1..])
  {
    var a, b, ta, tb := kids[..slot], kids[slot + 1..], ts[..slot], ts[slot + 1..];
    HoldsAllAppend(a, b, ta, tb);
    NodesOfAppend(a, b);
    HoldsAllOne(c, u.tree);
    NodesOfOne(c);
    HoldsAllAppend(a, [c], ta, [u.tree]);
    NodesOfAppend(a, [c]);
    HoldsAllAppend(a + [c], d, ta + [u.tree], RightTrees(u));
    NodesOfAppend(a + [c], d);
    HoldsAllAppend(a + [c] + d, b, ta + [u.tree] + RightTrees(u), tb);
    NodesOfAppend(a + [c] + d, b);
  }

  lemma {:induction false} NewKidsSlots<T>(kids: seq<T>, slot: nat, c: T, d: seq<T>)
    requires slot < |kids| && |d| <= 1
    ensures d == [] ==> NewKids(kids, slot, c, d) == kids[slot := c]
    ensures d != [] ==> NewKids(kids, slot, c, d) == InsertAt(kids[slot := c], slot + 1, d[0])
  {
  }

  lemma {:induction false} NewHeads(kids: seq<Ref>, slot: nat, c: Ref, d: seq<Ref>)
    requires slot < |kids| && |d| <= 1 && c.n == kids[slot].n
    ensures d == [] ==> Heads(NewKids(kids, slot, c, d)) == Heads(kids)
    ensures d != [] ==> Heads(NewKids(kids, slot, c, d)) == InsertAt(Heads(kids), slot + 1, d[0].n)
  {
  }
  lemma {:induction false} StillApart<T>(s: set<T>, mine: set<T>, added: set<T>, others: set<T>)
    requires s <= mine + added && mine !! others && added !! others
    ensures s !! others
  {
  }

  /** Everything below an inner node is in place, apart from the node itself. */
  ghost predicate BelowReady(n: Node, t: Tree, kids: seq<Ref>, slot: nat, c: Ref, d: seq<Ref>,
                             u: Result, newkey: Key, newchild: Node?)
    reads *
  {
    && t.Inner? && |t.kids| == |t.keys| + 1 == |kids| && slot < |kids| && |t.keys| <= innerslotmax
    && HoldsAll(kids[..slot] + kids[slot + 1..], t.kids[..slot] + t.kids[slot + 1..])
    && ResultHeld(u, newkey, newchild, c, d) && c.n == kids[slot].n
    && Nodes(c) + NodesOf(d) !! NodesOf(kids[..slot] + kids[slot + 1..])
    && n !in Nodes(c) + NodesOf(d) + NodesOf(kids[..slot] + kids[slot + 1..])
  }

  /** What comes back from below, without a split and with one. */
  lemma {:induction false} UnsplitReturn(t: Tree, slot: nat, u: Result)
    requires t.Inner? && |t.kids| == |t.keys| + 1 && slot <= |t.keys| && (u.split.Some? ==> |t.keys| < innerslotmax)
    ensures var keys := if u.split.None? then t.keys else InsertAt(t.keys, slot, u.split.value.key);
            InsertReturn(t, slot, u) == Result(Inner(t.level, keys, NewKids(t.kids, slot, u.tree, RightTrees(u))), None, u.inserted)
  {
    NewKidsSlots(t.kids, slot, u.tree, RightTrees(u));
  }

  lemma {:induction false} SplitReturn(t: Tree, slot: nat, u: Result)
    requires t.Inner? && |t.kids| == |t.keys| + 1 && slot <= |t.keys| && u.split.Some? && |t.keys| == innerslotmax
    ensures var keys, ts, p := InsertAt(t.keys, slot, u.split.value.key), NewKids(t.kids, slot, u.tree, RightTrees(u)), CutPoint(|t.keys|, slot);
            && |ts| == |keys| + 1 && p < |keys|
            && InsertReturn(t, slot, u) == Result(Inner(t.level, keys[..p], ts[..p + 1]),
                                                  Some(Split(keys[p], Inner(t.level, keys[p + 1..], ts[p + 1..]))), u.inserted)
  {
    NewKidsSlots(t.kids, slot, u.tree, RightTrees(u));
    InsertChildIsCut(Inner(t.level, t.keys, t.kids[slot := u.tree]), slot, u.split.value.key, u.split.value.right);
  }

  /** The children with the new one among them. */
  lemma {:induction false} KidsTogether(n: Node, t: Tree, kids: seq<Ref>, slot: nat, c: Ref, d: seq<Ref>,
                                        u: Result, newkey: Key, newchild: Node?)
    requires BelowReady(n, t, kids, slot, c, d, u, newkey, newchild)
    ensures var rs, ts := NewKids(kids, slot, c, d), NewKids(t.kids, slot, u.tree, RightTrees(u));
            && HoldsAll(rs, ts) && |rs| == |ts|
            && NodesOf(rs) == Nodes(c) + NodesOf(d) + NodesOf(kids[..slot] + kids[slot + 1..])
            && Heads(rs) == if newchild == null then Heads(kids) else InsertAt(Heads(kids), slot + 1, newchild)
  {
    HoldsAllLength(d, RightTrees(u));
    PutIn(kids, t.kids, slot, c, d, u, newkey, newchild);
    HoldsAllLength(NewKids(kids, slot, c, d), NewKids(t.kids, slot, u.tree, RightTrees(u)));
    NewHeads(kids, slot, c, d);
  }

  lemma {:induction false} NodeHeld(n: Node, level: nat, keys: seq<Key>, rs: seq<Ref>, ts: seq<Tree>)
    requires HoldsAll(rs, ts) && n !in NodesOf(rs) && InnerHolds(n, level, keys, Heads(rs))
    ensures Holds(Family(n, rs), Inner(level, keys, ts))
  {
  }

  lemma {:induction false} HalvesHeld(n: Node, m: Node, rs: seq<Ref>, ts: seq<Tree>, p: nat, level: nat, keys: seq<Key>)
    requires HoldsAll(rs, ts) && |rs| == |ts| == |keys| + 1 && p < |keys| && n != m && n !in NodesOf(rs) && m !in NodesOf(rs)
    requires InnerHolds(n, level, keys[..p], Heads(rs[..p + 1])) && InnerHolds(m, level, keys[p + 1..], Heads(rs[p + 1..]))
    ensures var r, s := Family(n, rs[..p + 1]), Family(m, rs[p + 1..]);
            && Holds(r, Inner(level, keys[..p], ts[..p + 1])) && HoldsAll([s], [Inner(level, keys[p + 1..], ts[p + 1..])])
            && Nodes(r) !! NodesOf([s])
  {
    HoldsAllAppend(rs[..p + 1], rs[p + 1..], ts[..p + 1], ts[p + 1..]);
    NodesOfAppend(rs[..p + 1], rs[p + 1..]);
    assert rs[..p + 1] + rs[p + 1..] == rs && ts[..p + 1] + ts[p + 1..] == ts;
    var s := Family(m, rs[p + 1..]);
    HoldsAllOne(s, Inner(level, keys[p + 1..], ts[p + 1..]));
    NodesOfOne(s);
  }

  /** The nodes that hold the outcome, with what becomes of the leaves and counts. */
  lemma {:induction false} AssembleInsert(n: Node, m: Node?, splitkey: Key, t: Tree, kids: seq<Ref>, slot: nat, c: Ref, d: seq<Ref>,
                       u: Result, newkey: Key, newchild: Node?)
    returns (r: Ref, s: seq<Ref>)
    requires ReadyToAssemble(n, m, splitkey, t, kids, slot, c, d, u, newkey, newchild)
    ensures r.n == n && ResultHeld(InsertReturn(t, slot, u), splitkey, m, r, s)
    ensures Nodes(r) + NodesOf(s) == {n} + Nodes(c) + NodesOf(d) + NodesOf(kids[..slot] + kids[slot + 1..])
                                     + if m == null then {} else {m}
    ensures Leaves(r) + LeavesOf(s) == LeavesOf(kids[..slot]) + Leaves(c) + LeavesOf(d) + LeavesOf(kids[slot + 1..])
    ensures InnerCount(r) + InnerCountOf(s) == 1 + InnerCountOf(kids[..slot]) + InnerCount(c) + InnerCountOf(d)
                                               + InnerCountOf(kids[slot + 1..]) + if m == null then 0 else 1
  {
    var rs := NewKids(kids, slot, c, d);
    NewKidsSums(kids, slot, c, d);
    KidsTogether(n, t, kids, slot, c, d, u, newkey, newchild);
    ReadyTogether(n, m, splitkey, t, kids, slot, c, d, u, newkey, newchild, rs);
    r, s := AssembleNodes(n, m, splitkey, t, slot, u, rs);
  }

  /** Node `n`, and `m` if it was split, over the children `rs` that belong there now. */
  ghost predicate Together(n: Node, m: Node?, splitkey: Key, t: Tree, slot: nat, u: Result, rs: seq<Ref>)
    reads n`level, n`slotuse, n`slotkey, n`childid, Just(m)`level, Just(m)`slotuse, Just(m)`slotkey, Just(m)`childid
    reads NodesOf(rs)`level, NodesOf(rs)`slotuse, NodesOf(rs)`slotkey, NodesOf(rs)`slotdata, NodesOf(rs)`childid
  {
    && t.Inner? && |t.kids| == |t.keys| + 1 && slot <= |t.keys| <= innerslotmax
    && HoldsAll(rs, NewKids(t.kids, slot, u.tree, RightTrees(u)))
    && n !in NodesOf(rs) && m !in NodesOf(rs) && m != n
    && |rs| == |t.kids| + |RightTrees(u)|
    && var keys, p := if u.split.None? then t.keys else InsertAt(t.keys, slot, u.split.value.key), CutPoint(innerslotmax, slot);
       if m == null then (u.split.Some? ==> |t.keys| < innerslotmax) && InnerHolds(n, t.level, keys, Heads(rs))
       else
         && u.split.Some? && |t.keys| == innerslotmax && splitkey == keys[p]
         && InnerHolds(n, t.level, keys[..p], Heads(rs)[..p + 1]) && InnerHolds(m, t.level, keys[p + 1..], Heads(rs)[p + 1..])
  }

  lemma {:induction false} ReadyTogether(n: Node, m: Node?, splitkey: Key, t: Tree, kids: seq<Ref>, slot: nat, c: Ref, d: seq<Ref>,
                                         u: Result, newkey: Key, newchild: Node?, rs: seq<Ref>)
    requires ReadyToAssemble(n, m, splitkey, t, kids, slot, c, d, u, newkey, newchild)
    requires var ts := NewKids(t.kids, slot, u.tree, RightTrees(u));
             && HoldsAll(rs, ts) && |rs| == |ts|
             && NodesOf(rs) == Nodes(c) + NodesOf(d) + NodesOf(kids[..slot] + kids[slot + 1..])
             && Heads(rs) == if newchild == null then Heads(kids) else InsertAt(Heads(kids), slot + 1, newchild)
    ensures Together(n, m, splitkey, t, slot, u, rs)
  {
  }

  lemma {:induction false} AssembleNodes(n: Node, m: Node?, splitkey: Key, t: Tree, slot: nat, u: Result, rs: seq<Ref>)
    returns (r: Ref, s: seq<Ref>)
    requires Together(n, m, splitkey, t, slot, u, rs)
    ensures r.n == n && ResultHeld(InsertReturn(t, slot, u), splitkey, m, r, s)
    ensures Nodes(r) + NodesOf(s) == {n} + NodesOf(rs) + Just(m)
    ensures Leaves(r) + LeavesOf(s) == LeavesOf(rs)
    ensures InnerCount(r) + InnerCountOf(s) == 1 + InnerCountOf(rs) + if m == null then 0 else 1
  {
    if m == null {
      r, s := Family(n, rs), [];
      WholeHeld(n, splitkey, t, slot, u, rs);
      UncutSums(n, rs);
    } else {
      var p := CutPoint(|t.keys|, slot);
      r, s := Family(n, rs[..p + 1]), [Family(m, rs[p + 1..])];
      HalvesResult(n, m, splitkey, t, slot, u, rs);
      CutSums(n, m, rs, p + 1);
    }
  }

  lemma {:induction false} WholeHeld(n: Node, splitkey: Key, t: Tree, slot: nat, u: Result, rs: seq<Ref>)
    requires Together(n, null, splitkey, t, slot, u, rs)
    ensures ResultHeld(InsertReturn(t, slot, u), splitkey, null, Family(n, rs), [])
  {
    UnsplitReturn(t, slot, u);
    NodeHeld(n, t.level, if u.split.None? then t.keys else InsertAt(t.keys, slot, u.split.value.key), rs,
             NewKids(t.kids, slot, u.tree, RightTrees(u)));
  }

  lemma {:induction false} HalvesResult(n: Node, m: Node, splitkey: Key, t: Tree, slot: nat, u: Result, rs: seq<Ref>)
    requires Together(n, m, splitkey, t, slot, u, rs)
    ensures var p := CutPoint(|t.keys|, slot);
            && p + 1 <= |rs|
            && ResultHeld(InsertReturn(t, slot, u), splitkey, m, Family(n, rs[..p + 1]), [Family(m, rs[p + 1..])])
  {
    hide Linked, Items, InsertReturn;
    var p := CutPoint(|t.keys|, slot);
    SplitReturn(t, slot, u);
    HeadsCut(rs, p + 1);
    HalvesHeld(n, m, rs, NewKids(t.kids, slot, u.tree, RightTrees(u)), p, t.level, InsertAt(t.keys, slot, u.split.value.key));
  }

  lemma {:induction false} UncutSums(n: Node, rs: seq<Ref>)
    ensures var r := Family(n, rs);
            && Nodes(r) + NodesOf([]) == {n} + NodesOf(rs)
            && Leaves(r) + LeavesOf([]) == LeavesOf(rs)
            && InnerCount(r) + InnerCountOf([]) == 1 + InnerCountOf(rs)
  {
  }

  lemma {:induction false} NewKidsSums(kids: seq<Ref>, slot: nat, c: Ref, d: seq<Ref>)
    requires slot < |kids|
    ensures var rs := NewKids(kids, slot, c, d);
            && LeavesOf(rs) == LeavesOf(kids[..slot]) + Leaves(c) + LeavesOf(d) + LeavesOf(kids[slot + 1..])
            && InnerCountOf(rs) ==
               InnerCountOf(kids[..slot]) + InnerCount(c) + InnerCountOf(d) + InnerCountOf(kids[slot + 1..])
  {
    var a, b := kids[..slot], kids[slot + 1..];
    LeavesOfAppend(a + [c] + d, b);
    LeavesOfAppend(a + [c], d);
    LeavesOfAppend(a, [c]);
    assert LeavesOf([c]) == Leaves(c);
    InnerCountAppend(a + [c] + d, b);
    InnerCountAppend(a + [c], d);
    InnerCountAppend(a, [c]);
    assert InnerCountOf([c]) == InnerCount(c);
  }

  lemma {:induction false} CutSums(n: Node, m: Node, rs: seq<Ref>, p: nat)
    requires p <= |rs|
    ensures var r, s := Family(n, rs[..p]), [Family(m, rs[p..])];
            && Nodes(r) + NodesOf(s) == {n, m} + NodesOf(rs)
            && Leaves(r) + LeavesOf(s) == LeavesOf(rs)
            && InnerCount(r) + InnerCountOf(s) == 2 + InnerCountOf(rs)
  {
    assert rs[..p] + rs[p..] == rs;
    NodesOfAppend(rs[..p], rs[p..]);
    NodesOfOne(Family(m, rs[p..]));
    LeavesOfAppend(rs[..p], rs[p..]);
    InnerCountAppend(rs[..p], rs[p..]);
  }

  lemma {:induction false} NothingAround<T>(r: seq<T>, s: seq<T>)
    ensures [] + r + s + [] == r + s
  {
  }

  lemma {:induction false} RegroupBefore<T>(pre: seq<T>, a: seq<T>, c: seq<T>, b: seq<T>, post: seq<T>)
    ensures (pre + a) + c + (b + post) == pre + (a + c + b) + post
  {
  }

  lemma {:induction false} Regroup<T>(pre: seq<T>, a: seq<T>, c: seq<T>, d: seq<T>, b: seq<T>, post: seq<T>, r: seq<T>, s: seq<T>)
    requires r + s == a + c + d + b
    ensures (pre + a) + c + d + (b + post) == pre + r + s + post
  {
    assert (pre + a) + c + d + (b + post) == pre + (a + c + d + b) + post;
    assert pre + r + s + post == pre + (r + s) + post;
  }

  lemma {:induction false} OnlyNew(after: set<Node>, before: set<Node>, top: set<Node>, c: set<Node>, c0: set<Node>, others: set<Node>, added: set<Node>)
    requires before == top + c0 + others && c <= c0 + added && after <= top + c + others + added
    ensures after <= before + added
  {
  }

  lemma {:induction false} NewRootHeld(n: Node, splitkey: Key, splitnode: Node, r: Ref, s: seq<Ref>, u: Result)
    requires ResultHeld(u, splitkey, splitnode, r, s) && n !in Nodes(r) + NodesOf(s)
    requires InnerHolds(n, Level(u.tree) + 1, [splitkey], [r.n, splitnode])
    ensures HoldsAll([Family(n, [r] + s)], [NewRoot(u)])
    ensures NodesOf([Family(n, [r] + s)]) == {n} + Nodes(r) + NodesOf(s)
    ensures LeavesOf([Family(n, [r] + s)]) == Leaves(r) + LeavesOf(s)
    ensures InnerCountOf([Family(n, [r] + s)]) == 1 + InnerCount(r) + InnerCountOf(s)
  {
    HoldsAllLength(s, RightTrees(u));
    HoldsAllOne(r, u.tree);
    HoldsAllAppend([r], s, [u.tree], RightTrees(u));
    NodesOfOne(r);
    NodesOfAppend([r], s);
    assert Heads([r] + s) == [r.n, splitnode];
    HoldsAllOne(Family(n, [r] + s), NewRoot(u));
    NodesOfOne(Family(n, [r] + s));
    LeavesOfAppend([r], s);
    InnerCountAppend([r], s);
    LeavesOfOne(r);
    LeavesOfOne(Family(n, [r] + s));
  }

  lemma {:induction false} RootAlone(refs: seq<Ref>, t: Tree)
    requires |refs| == 1 && HoldsAll(refs, [t])
    ensures Holds(refs[0], t) && NodesOf(refs) == Nodes(refs[0])
    ensures [] + Leaves(refs[0]) + [] == LeavesOf(refs) && InnerCount(refs[0]) == InnerCountOf(refs)
  {
    assert refs == [refs[0]];
    NodesOfOne(refs[0]);
    HoldsAllOne(refs[0], t);
  }

  lemma {:induction false} InsertFacts(root: Option<Tree>, key: Key, value: Data, t: Tree)
    requires root.Some? ==> BTreeModel.Valid(root.value)
    requires t == RootOrLeaf(root)
    ensures Shaped(t) && Sorted(Items(t))
    ensures var u := BTreeInsert.InsertDescend(t, key, value);
            && BTreeInsert.Insert(root, key, value) == (NewRoot(u), u.inserted)
            && BTreeModel.Valid(NewRoot(u))
            && Items(NewRoot(u)) == Put(RootItems(root), key, value)
            && |Items(NewRoot(u))| == |RootItems(root)| + (if u.inserted then 1 else 0)
            && (u.inserted <==> !HasKey(RootItems(root), key))
            && (if u.inserted then BTreeGrowth.RootRows(root, NewRoot(u), key) else root == Some(NewRoot(u)))
  {
    InsertCorrect(root, key, value);
    PutSorted(Items(t), key, value);
    BTreeGrowth.InsertShape(root, key, value);
  }

  lemma {:induction false} HeadsCut(rs: seq<Ref>, p: nat)
    requires p <= |rs|
    ensures Heads(rs[..p]) == Heads(rs)[..p] && Heads(rs[p..]) == Heads(rs)[p..]
  {
  }

  /** All that is known of an inner node and the child a search enters. */
  ghost predicate AtChild(n: Node, kids: seq<Ref>, t: Tree, slot: nat)
    reads *
  {
    && t.Inner? && |kids| == |t.kids| == |t.keys| + 1 && slot < |kids| && |t.keys| <= innerslotmax
    && InnerHolds(n, t.level, t.keys, Heads(kids))
    && Holds(kids[slot], t.kids[slot]) && !kids[slot].EmptyRef?
    && Shaped(t.kids[slot]) && Sorted(Items(t.kids[slot]))
    && HoldsAll(kids[..slot] + kids[slot + 1..], t.kids[..slot] + t.kids[slot + 1..])
    && Nodes(kids[slot]) !! NodesOf(kids[..slot] + kids[slot + 1..])
    && n !in Nodes(kids[slot]) && n !in NodesOf(kids[..slot] + kids[slot + 1..])
  }

  lemma {:induction false} EnterChild(n: Node, r: Ref, t: Tree, key: Key)
    requires r.n == n && r.InnerRef? && Holds(r, t) && Shaped(t) && Sorted(Items(t))
    ensures SortedKeys(n.slotkey[..n.slotuse]) && n.slotkey[..n.slotuse] == t.keys
    ensures var kids, slot := r.kids, LowerSlot(t.keys, key);
            && AtChild(n, kids, t, slot)
            && Nodes(r) == {n} + Nodes(kids[slot]) + NodesOf(kids[..slot] + kids[slot + 1..])
            && Leaves(r) == LeavesOf(kids[..slot]) + Leaves(kids[slot]) + LeavesOf(kids[slot + 1..])
            && InnerCount(r) == 1 + InnerCountOf(kids[..slot]) + InnerCount(kids[slot]) + InnerCountOf(kids[slot + 1..])
  {
    SeparatorsSorted(t);
    EnterTree(t, key);
    assert n.slotkey[..n.slotuse] == t.keys;
    ChildHeld(n, r, t, LowerSlot(t.keys, key));
    LeavesAround(r.kids, LowerSlot(t.keys, key));
    InnerCountAround(r.kids, LowerSlot(t.keys, key));
  }

  lemma {:induction false} EnterTree(t: Tree, key: Key)
    requires t.Inner? && Shaped(t) && Sorted(Items(t))
    ensures var slot := LowerSlot(t.keys, key);
            && slot < |t.kids| == |t.keys| + 1
            && Shaped(t.kids[slot]) && Sorted(Items(t.kids[slot])) && SlotUse(t.kids[slot]) > 0
  {
    Descend(t, key);
  }

  lemma {:induction false} ChildHeld(n: Node, r: Ref, t: Tree, slot: nat)
    requires r.n == n && r.InnerRef? && Holds(r, t) && slot < |t.kids| == |t.keys| + 1
    requires Shaped(t.kids[slot]) && Sorted(Items(t.kids[slot])) && SlotUse(t.kids[slot]) > 0
    ensures AtChild(n, r.kids, t, slot)
    ensures Nodes(r) == {n} + Nodes(r.kids[slot]) + NodesOf(r.kids[..slot] + r.kids[slot + 1..])
  {
    HoldsAllLength(r.kids, t.kids);
    TakeOut(r.kids, t.kids, slot);
  }

  /** Every node is as it should be after the call on child `slot`, and node `n`
      has taken the new child in. */
  ghost predicate ReadyToAssemble(n: Node, m: Node?, splitkey: Key, t: Tree, kids: seq<Ref>, slot: nat, c: Ref, d: seq<Ref>,
                                  u: Result, newkey: Key, newchild: Node?)
    reads *
  {
    && BelowReady(n, t, kids, slot, c, d, u, newkey, newchild)
    && (newchild == null ==> m == null && InnerHolds(n, t.level, t.keys, Heads(kids)))
    && (newchild != null ==> InnerSplit(n, m, splitkey, t.level, t.keys, Heads(kids), slot, newkey, newchild))
    && (m != null ==> m != n && m !in Nodes(c) + NodesOf(d) + NodesOf(kids[..slot] + kids[slot + 1..]))
  }

  lemma {:induction false} ChainAfterLeaf(pre: seq<Node>, n: Node, post: seq<Node>, m: Node?)
    ensures m != null ==>
              (pre + [n] + post)[..|pre| + 1] + [m] + (pre + [n] + post)[|pre| + 1..] == pre + [n] + LeavesOf([LeafRef(m)]) + post
    ensures pre + [n] + LeavesOf([]) + post == pre + [n] + post
  {
  }

  /** What the slots with the new one in come to when they are cut at `p`. */
  ghost predicate CutInto<T>(keys: seq<Key>, kids: seq<T>, slot: nat, key: Key, right: T, p: nat,
                             a: seq<Key>, sep: Key, b: seq<Key>, c: seq<T>, d: seq<T>)
    requires |kids| == |keys| + 1 && slot <= |keys| && p <= |keys|
  {
    var keys', kids' := InsertAt(keys, slot, key), InsertAt(kids, slot + 1, right);
    keys'[..p] == a && keys'[p] == sep && keys'[p + 1..] == b && kids'[..p + 1] == c && kids'[p + 1..] == d
  }

  lemma {:induction false} CutAfterNew<T>(keys: seq<Key>, kids: seq<T>, slot: nat, key: Key, right: T, mid: nat)
    requires |kids| == |keys| + 1 && slot <= mid < |keys|
    ensures CutInto(keys, kids, slot, key, right, mid + 1, InsertAt(keys[..mid], slot, key), keys[mid], keys[mid + 1..],
                    InsertAt(kids[..mid + 1], slot + 1, right), kids[mid + 1..])
  {
    InsertThenCutAfter(keys, slot, key, mid);
    InsertThenCutAfter(keys, slot, key, mid + 1);
    InsertThenCutAfter(kids, slot + 1, right, mid + 1);
  }

  lemma {:induction false} CutAtNew<T>(keys: seq<Key>, kids: seq<T>, slot: nat, key: Key, right: T)
    requires |kids| == |keys| + 1 && slot <= |keys|
    ensures CutInto(keys, kids, slot, key, right, slot, keys[..slot], key, keys[slot..], kids[..slot + 1], [right] + kids[slot + 1..])
  {
  }

  lemma {:induction false} CutBeforeNew<T>(keys: seq<Key>, kids: seq<T>, slot: nat, key: Key, right: T, mid: nat)
    requires |kids| == |keys| + 1 && mid < slot <= |keys|
    ensures CutInto(keys, kids, slot, key, right, mid, keys[..mid], keys[mid], InsertAt(keys[mid + 1..], slot - (mid + 1), key),
                    kids[..mid + 1], InsertAt(kids[mid + 1..], slot - mid, right))
  {
    InsertThenCutBefore(keys, slot, key, mid);
    InsertThenCutBefore(keys, slot, key, mid + 1);
    InsertThenCutBefore(kids, slot + 1, right, mid + 1);
  }

  lemma {:induction false} PartsHeld(n: Node, m: Node, splitkey: Key, level: nat, keys: seq<Key>, kids: seq<Node>, slot: nat, newkey: Key, newchild: Node,
                                     a: seq<Key>, b: seq<Key>, c: seq<Node>, d: seq<Node>)
    requires |kids| == |keys| + 1 && slot <= |keys| == innerslotmax
    requires CutInto(keys, kids, slot, newkey, newchild, CutPoint(|keys|, slot), a, splitkey, b, c, d)
    requires InnerHolds(n, level, a, c) && InnerHolds(m, level, b, d)
    ensures InnerSplit(n, m, splitkey, level, keys, kids, slot, newkey, newchild)
  {
  }

  lemma {:induction false} PartsAtNew(n: Node, m: Node, level: nat, keys: seq<Key>, kids: seq<Node>, slot: nat, newkey: Key, newchild: Node)
    requires |kids| == |keys| + 1 && slot <= |keys| == innerslotmax && CutPoint(|keys|, slot) == slot
    requires InnerHolds(n, level, keys[..slot], kids[..slot + 1]) && InnerHolds(m, level, keys[slot..], [newchild] + kids[slot + 1..])
    ensures InnerSplit(n, m, newkey, level, keys, kids, slot, newkey, newchild)
  {
    CutAtNew(keys, kids, slot, newkey, newchild);
    PartsHeld(n, m, newkey, level, keys, kids, slot, newkey, newchild, keys[..slot], keys[slot..], kids[..slot + 1], [newchild] + kids[slot + 1..]);
  }

  lemma {:induction false} PartsBeforeNew(n: Node, m: Node, level: nat, keys: seq<Key>, kids: seq<Node>, slot: nat, newkey: Key, newchild: Node, mid: nat)
    requires |kids| == |keys| + 1 && mid < slot <= |keys| == innerslotmax && CutPoint(|keys|, slot) == mid
    requires InnerHolds(n, level, keys[..mid], kids[..mid + 1])
    requires InnerHolds(m, level, InsertAt(keys[mid + 1..], slot - (mid + 1), newkey), InsertAt(kids[mid + 1..], slot - mid, newchild))
    ensures InnerSplit(n, m, keys[mid], level, keys, kids, slot, newkey, newchild)
  {
    CutBeforeNew(keys, kids, slot, newkey, newchild, mid);
    PartsHeld(n, m, keys[mid], level, keys, kids, slot, newkey, newchild,
              keys[..mid], InsertAt(keys[mid + 1..], slot - (mid + 1), newkey), kids[..mid + 1], InsertAt(kids[mid + 1..], slot - mid, newchild));
  }

  lemma {:induction false} PartsAfterNew(n: Node, m: Node, level: nat, keys: seq<Key>, kids: seq<Node>, slot: nat, newkey: Key, newchild: Node, mid: nat)
    requires |kids| == |keys| + 1 && slot <= mid < |keys| == innerslotmax && CutPoint(|keys|, slot) == mid + 1
    requires InnerHolds(n, level, InsertAt(keys[..mid], slot, newkey), InsertAt(kids[..mid + 1], slot + 1, newchild))
    requires InnerHolds(m, level, keys[mid + 1..], kids[mid + 1..])
    ensures InnerSplit(n, m, keys[mid], level, keys, kids, slot, newkey, newchild)
  {
    CutAfterNew(keys, kids, slot, newkey, newchild, mid);
    PartsHeld(n, m, keys[mid], level, keys, kids, slot, newkey, newchild,
              InsertAt(keys[..mid], slot, newkey), keys[mid + 1..], InsertAt(kids[..mid + 1], slot + 1, newchild), kids[mid + 1..]);
  }

  lemma {:induction false} EraseFacts(root: Option<Tree>, key: Key)
    requires root.Some? ==> BTreeModel.Valid(root.value)
    ensures var (after, erased) := BTreeErase.EraseOne(root, key);
            && (after.Some? ==> BTreeModel.Valid(after.value))
            && RootItems(after) == Remove(RootItems(root), key)
            && |RootItems(after)| == |RootItems(root)| - (if erased then 1 else 0)
            && (erased <==> HasKey(RootItems(root), key))
            && (erased ==> BTreeShape.RootRows(root, after, key))
  {
    hide Sorted, Linked;
    EraseCorrect(root, key);
    RemoveSorted(RootItems(root), key);
    FoundAtLowerSlot(RootItems(root), key);
    if root.Some? && Found(RootItems(root), key) { BTreeShape.EraseRows(root.value, key); }
  }

  /** The place of a root. */
  ghost function RootPlace(r: Ref): Place {
    Place(r, null, [], null, [], null, 0, NoParent)
  }

  lemma {:induction false} RootStretch(p: Place)
    ensures [] + Stretch(p, Nobody, Nobody) + [] == Leaves(p.r) && StretchCount(p, Nobody, Nobody) == InnerCount(p.r)
  {
  }
}
