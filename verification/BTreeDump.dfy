/** Writing a B+ tree to a file and building one from a file. */
module BTreeDump {
  import opened OrderedItems
  import opened Wrappers
  import opened BTreeModel
  import opened BTreeNode
  import opened BTreeRefs
  import opened BTreeImage
  import opened BPlusTree

  // ---- Writing ----

  /** The bytes of a node as they are written. */
  function ImageOf(n: Node): NodeImage
    reads n
  {
    NodeImage(n.level, n.slotuse, n.slotkey, n.slotdata, n.childid, n.prevleaf, n.nextleaf)
  }

  /** The images of a tree's nodes, each before those below it. */
  ghost function Written(r: Ref, t: Tree): seq<NodeImage>
    requires Holds(r, t)
    reads Nodes(r)
    decreases r, 1
  {
    [ImageOf(r.n)] + if r.InnerRef? then WrittenOf(r.kids, t.kids) else []
  }

  ghost function WrittenOf(rs: seq<Ref>, ts: seq<Tree>): seq<NodeImage>
    requires HoldsAll(rs, ts)
    reads NodesOf(rs)
    decreases rs, 0
  {
    if rs == [] || ts == [] then []
    else
      NodesOfCons(rs);
      Written(rs[0], ts[0]) + WrittenOf(rs[1..], ts[1..])
  }

  /** What is written spells the tree. */
  ghost predicate Spells(ms: seq<NodeImage>, rs: seq<Record>, leaves: seq<Node>)
    reads leaves`prevleaf, leaves`nextleaf
  {
    && AllSized(ms) && Records(ms) == rs
    && ms != [] && leaves != []
    && FirstPrev(ms) == leaves[0].prevleaf
    && ms[|ms| - 1].level == 0 && ms[|ms| - 1].nextleaf == leaves[|leaves| - 1].nextleaf
  }

  lemma {:induction false} WrittenSpells(r: Ref, t: Tree)
    requires Holds(r, t) && !r.EmptyRef? && Linked(t)
    ensures Spells(Written(r, t), Preorder(t), Leaves(r))
    decreases r, 1
  {
    if r.InnerRef? {
      WrittenOfSpells(r.kids, t.kids);
      InnerSpells(ImageOf(r.n), WrittenOf(r.kids, t.kids), t.level, t.keys, PreorderOf(t.kids), LeavesOf(r.kids));
    } else {
      LeafSpells(r.n, t.items);
    }
  }

  lemma {:induction false} LeafSpells(n: Node, items: seq<Item>)
    requires LeafHolds(n, items)
    ensures Spells([ImageOf(n)], [LeafRecord(items)], [n])
  {
    assert RecordOf(ImageOf(n)).items == items;
  }

  lemma {:induction false} InnerSpells(m: NodeImage, ms: seq<NodeImage>, level: nat, keys: seq<Key>, rs: seq<Record>, leaves: seq<Node>)
    requires Sized(m) && level > 0 && m.level == level && m.slotkey[..m.slotuse] == keys
    requires Spells(ms, rs, leaves)
    ensures Spells([m] + ms, [InnerRecord(level, keys)] + rs, leaves)
  {
    FirstOnTop(m, ms);
  }

  lemma {:induction false} FirstOnTop(m: NodeImage, ms: seq<NodeImage>)
    requires Sized(m) && AllSized(ms) && ms != []
    ensures AllSized([m] + ms) && Records([m] + ms) == [RecordOf(m)] + Records(ms)
    ensures m.level > 0 ==> FirstPrev([m] + ms) == FirstPrev(ms)
    ensures ([m] + ms)[|[m] + ms| - 1] == ms[|ms| - 1]
  {
    RecordsOnTop(m, ms);
    assert ([m] + ms)[1..] == ms;
  }

  lemma {:induction false} RecordsOnTop(m: NodeImage, ms: seq<NodeImage>)
    requires Sized(m) && AllSized(ms)
    ensures AllSized([m] + ms) && Records([m] + ms) == [RecordOf(m)] + Records(ms)
  {
    var all := [m] + ms;
    forall i | 0 <= i < |all| ensures Sized(all[i]) {
      assert all[i] == if i == 0 then m else ms[i - 1];
    }
    var a, b := Records(all), [RecordOf(m)] + Records(ms);
    forall i | 0 <= i < |all| ensures a[i] == b[i] {
      assert all[i] == if i == 0 then m else ms[i - 1];
    }
    assert a == b;
  }

  lemma {:induction false} WrittenOfSpells(rs: seq<Ref>, ts: seq<Tree>)
    requires HoldsAll(rs, ts) && ts != []
    requires forall i | 0 <= i < |ts| :: Linked(ts[i]) && SlotUse(ts[i]) > 0
    ensures Spells(WrittenOf(rs, ts), PreorderOf(ts), LeavesOf(rs))
    decreases rs, 0
  {
    WrittenSpells(rs[0], ts[0]);
    if |ts| == 1 {
      assert Written(rs[0], ts[0]) + [] == Written(rs[0], ts[0]);
      assert Preorder(ts[0]) + [] == Preorder(ts[0]) && Leaves(rs[0]) + [] == Leaves(rs[0]);
    } else {
      WrittenOfSpells(rs[1..], ts[1..]);
      BothSpell(Written(rs[0], ts[0]), WrittenOf(rs[1..], ts[1..]), Preorder(ts[0]), PreorderOf(ts[1..]),
                Leaves(rs[0]), LeavesOf(rs[1..]));
    }
  }

  lemma {:induction false} BothSpell(a: seq<NodeImage>, b: seq<NodeImage>, ra: seq<Record>, rb: seq<Record>, la: seq<Node>, lb: seq<Node>)
    requires Spells(a, ra, la) && Spells(b, rb, lb)
    ensures Spells(a + b, ra + rb, la + lb)
  {
    FirstPrevAppend(a, b);
    assert Records(a + b) == Records(a) + Records(b);
  }

  lemma {:induction false} NextKid(rs: seq<Ref>, ts: seq<Tree>, slot: nat)
    requires slot < |rs| && slot < |ts| && HoldsAll(rs[slot..], ts[slot..])
    ensures Holds(rs[slot], ts[slot]) && HoldsAll(rs[slot + 1..], ts[slot + 1..])
    ensures WrittenOf(rs[slot..], ts[slot..]) == Written(rs[slot], ts[slot]) + WrittenOf(rs[slot + 1..], ts[slot + 1..])
  {
    assert rs[slot..][1..] == rs[slot + 1..] && ts[slot..][1..] == ts[slot + 1..];
  }

  /** The children from `slot` on are still to be written. */
  ghost predicate ToWrite(n: Node, r: Ref, t: Tree, slot: nat)
    reads Nodes(r)
  {
    && r.InnerRef? && r.n == n && Holds(r, t) && Linked(t)
    && slot <= |r.kids| == |t.kids| == n.slotuse + 1
    && HoldsAll(r.kids[slot..], t.kids[slot..])
  }

  ghost function Rest(n: Node, r: Ref, t: Tree, slot: nat): seq<NodeImage>
    requires ToWrite(n, r, t, slot)
    reads Nodes(r)
  {
    WithinNodes(r.kids, slot);
    WrittenOf(r.kids[slot..], t.kids[slot..])
  }

  lemma {:induction false} WithinNodes(rs: seq<Ref>, slot: nat)
    requires slot <= |rs|
    ensures NodesOf(rs[slot..]) <= NodesOf(rs)
  {
    NodesOfAppend(rs[..slot], rs[slot..]);
    assert rs == rs[..slot] + rs[slot..];
  }

  lemma {:induction false} KidsToWrite(r: Ref, t: Tree)
    requires Holds(r, t) && !r.EmptyRef? && Linked(t)
    ensures r.n.level > 0 <==> r.InnerRef?
    ensures r.InnerRef? ==> ToWrite(r.n, r, t, 0) && Written(r, t) == [ImageOf(r.n)] + Rest(r.n, r, t, 0)
    ensures r.LeafRef? ==> Written(r, t) == [ImageOf(r.n)]
  {
    if r.InnerRef? {
      HoldsAllLength(r.kids, t.kids);
      assert r.kids[0..] == r.kids && t.kids[0..] == t.kids;
    }
  }

  lemma {:induction false} KidToWrite(n: Node, r: Ref, t: Tree, slot: nat)
    requires ToWrite(n, r, t, slot) && slot <= n.slotuse
    ensures slot < |n.childid| && n.childid[slot] == r.kids[slot].n
    ensures !r.kids[slot].EmptyRef? && Linked(t.kids[slot]) && Holds(r.kids[slot], t.kids[slot])
    ensures ToWrite(n, r, t, slot + 1)
    ensures Rest(n, r, t, slot) == Written(r.kids[slot], t.kids[slot]) + Rest(n, r, t, slot + 1)
  {
    NextKid(r.kids, t.kids, slot);
    assert SlotUse(t.kids[slot]) > 0;
  }

  /** Descend the tree and write each node before its children. */
  method DumpNode(os: seq<NodeImage>, n: Node, ghost r: Ref, ghost t: Tree) returns (os': seq<NodeImage>)
    requires r.n == n && !r.EmptyRef? && Holds(r, t) && Linked(t)
    ensures os' == os + old(Written(r, t))
    decreases r, 1
  {
    KidsToWrite(r, t);
    os' := os + [ImageOf(n)];
    if n.level > 0 {
      var slot := 0;
      while slot <= n.slotuse
        invariant slot <= n.slotuse + 1 && ToWrite(n, r, t, slot)
        invariant os' + Rest(n, r, t, slot) == os + old(Written(r, t))
        decreases n.slotuse + 1 - slot
      {
        os' := DumpKid(os', n, slot, r, t);
        slot := slot + 1;
      }
    }
  }

  method DumpKid(os: seq<NodeImage>, n: Node, slot: nat, ghost r: Ref, ghost t: Tree) returns (os': seq<NodeImage>)
    requires ToWrite(n, r, t, slot) && slot <= n.slotuse
    ensures ToWrite(n, r, t, slot + 1) == old(ToWrite(n, r, t, slot))
    ensures ToWrite(n, r, t, slot + 1) ==> os' + Rest(n, r, t, slot + 1) == os + old(Rest(n, r, t, slot))
    decreases r, 0
  {
    KidToWrite(n, r, t, slot);
    os' := DumpNode(os, n.childid[slot], r.kids[slot], t.kids[slot]);
    assert ToWrite(n, r, t, slot + 1) == old(ToWrite(n, r, t, slot + 1));
  }

  method Dump(tree: BTree) returns (file: File)
    requires tree.Valid()
    ensures IsImageOf(file, old(tree.content))
    ensures var h := file.header;
            && h.signature == "stx-btree" && h.version == 0 && h.keytypesize == keytypesize && h.datatypesize == datatypesize
            && h.leafslots == leafslotmax && h.innerslots == innerslotmax && !h.allowduplicates
            && h.itemcount == |RootItems(old(tree.content))|
  {
    file := File(Fill(tree.itemcount), []);
    if tree.root != null {
      RootWritten(tree);
      var nodes := DumpNode([], tree.root, tree.refs[0], tree.content.value);
      file := file.(nodes := nodes);
    }
  }

  lemma {:induction false} RootWritten(tree: BTree)
    requires tree.Valid() && tree.root != null
    ensures tree.content.Some? && |tree.refs| == 1
    ensures var r, t := tree.refs[0], tree.content.value;
            && r.n == tree.root && !r.EmptyRef? && Holds(r, t) && Linked(t)
            && IsImageOf(File(Fill(tree.itemcount), [] + Written(r, t)), tree.content)
  {
    RootHeld(tree);
    RootImage(tree.refs[0], tree.content.value, tree.chain);
  }

  lemma {:induction false} RootImage(r: Ref, t: Tree, chain: seq<Node>)
    requires Holds(r, t) && !r.EmptyRef? && Linked(t) && Leaves(r) == chain
    requires chain != [] ==> chain[0].prevleaf == null && chain[|chain| - 1].nextleaf == null
    ensures IsImageOf(File(Fill(|Items(t)|), [] + Written(r, t)), Some(t))
  {
    WrittenSpells(r, t);
    SpelledImage(Written(r, t), t, chain);
    assert [] + Written(r, t) == Written(r, t);
  }

  lemma {:induction false} SpelledImage(ms: seq<NodeImage>, t: Tree, chain: seq<Node>)
    requires Spells(ms, Preorder(t), chain) && chain[0].prevleaf == null && chain[|chain| - 1].nextleaf == null
    ensures IsImageOf(File(Fill(|Items(t)|), ms), Some(t))
  {
  }

  lemma {:induction false} RootHeld(tree: BTree)
    requires tree.Valid() && tree.root != null
    ensures tree.content.Some? && |tree.refs| == 1 && tree.itemcount == |Items(tree.content.value)|
    ensures var r, t := tree.refs[0], tree.content.value;
            r.n == tree.root && !r.EmptyRef? && Holds(r, t) && Linked(t) && Leaves(r) == tree.chain
    ensures tree.chain != [] ==> tree.chain[0].prevleaf == null && tree.chain[|tree.chain| - 1].nextleaf == null
  {
    HoldsAllOne(tree.refs[0], tree.content.value);
    assert tree.refs == [tree.refs[0]];
    LeavesOfOne(tree.refs[0]);
    if tree.chain != [] {
      assert LinkedAt(tree.chain, 0) && LinkedAt(tree.chain, |tree.chain| - 1);
    }
  }

  // ---- Reading ----

  /** The stream from `pos` on reads as these records. */
  ghost predicate ReadsAs(stream: seq<NodeImage>, pos: nat, rs: seq<Record>) {
    AllSized(stream) && pos <= |stream| && Records(stream)[pos..] == rs
  }

  lemma {:induction false} ReadOne(stream: seq<NodeImage>, pos: nat, x: Record, rs: seq<Record>)
    requires ReadsAs(stream, pos, [x] + rs)
    ensures pos < |stream| && RecordOf(stream[pos]) == x && ReadsAs(stream, pos + 1, rs)
  {
    var all := Records(stream);
    assert all[pos..][0] == x && all[pos..][1..] == rs;
    assert all[pos + 1..] == all[pos..][1..];
  }

  /** The list of leaves while it grows: where the last one points is not settled yet. */
  ghost predicate OpenLinks(tree: BTree)
    reads tree`chain, tree`headleaf, tree`tailleaf, tree`leaves, tree.chain`prevleaf, tree.chain`nextleaf
  {
    OpenList(tree) && tree.leaves == |tree.chain|
  }

  ghost predicate OpenList(tree: BTree)
    reads tree`chain, tree`headleaf, tree`tailleaf, tree.chain`prevleaf, tree.chain`nextleaf
  {
    && Distinct(tree.chain)
    && tree.headleaf == At(tree.chain, 0) && tree.tailleaf == At(tree.chain, |tree.chain| - 1)
    && forall i | 0 <= i < |tree.chain| :: OpenAt(tree.chain, i)
  }

  ghost predicate OpenAt(chain: seq<Node>, i: nat)
    requires i < |chain|
    reads chain`prevleaf, chain`nextleaf
  {
    chain[i].prevleaf == At(chain, i - 1) && (i + 1 < |chain| ==> chain[i].nextleaf == At(chain, i + 1))
  }

  ghost function LastLeaf(tree: BTree): set<Node>
    reads tree`tailleaf
  {
    if tree.tailleaf == null then {} else {tree.tailleaf}
  }

  /** Copy a leaf from the file and link it in behind the last one. */
  method RestoreLeaf(tree: BTree, m: NodeImage, ghost good: bool) returns (newleaf: Node)
    requires Sized(m) && m.level == 0
    requires tree.headleaf == null <==> tree.tailleaf == null
    requires good ==> OpenLinks(tree) && (tree.chain == [] ==> m.prevleaf == null)
    modifies tree`headleaf, tree`tailleaf, tree`leaves, tree`chain, LastLeaf(tree)`nextleaf
    ensures fresh(newleaf) && tree.tailleaf == newleaf && tree.headleaf != null
    ensures LeafHolds(newleaf, RecordOf(m).items) && newleaf.nextleaf == m.nextleaf
    ensures good ==> OpenLinks(tree) && tree.chain == old(tree.chain) + [newleaf]
  {
    newleaf := new Node.AllocateLeaf();
    tree.leaves := tree.leaves + 1;
    newleaf.level, newleaf.slotuse := m.level, m.slotuse;
    newleaf.slotkey, newleaf.slotdata := m.slotkey, m.slotdata;
    newleaf.prevleaf, newleaf.nextleaf := m.prevleaf, m.nextleaf;
    AppendLeaf(tree, newleaf, good);
  }

  /** Put a leaf at the end of the list. */
  method AppendLeaf(tree: BTree, newleaf: Node, ghost good: bool)
    requires tree.headleaf == null <==> tree.tailleaf == null
    requires newleaf != tree.tailleaf && newleaf !in tree.chain
    requires good ==> tree.leaves == |tree.chain| + 1 && OpenList(tree) && (tree.chain == [] ==> newleaf.prevleaf == null)
    modifies tree`headleaf, tree`tailleaf, tree`chain, LastLeaf(tree)`nextleaf, newleaf`prevleaf
    ensures tree.tailleaf == newleaf && tree.headleaf != null
    ensures good ==> OpenLinks(tree) && tree.chain == old(tree.chain) + [newleaf]
  {
    if tree.headleaf == null {
      tree.headleaf, tree.tailleaf := newleaf, newleaf;
    } else {
      newleaf.prevleaf := tree.tailleaf;
      tree.tailleaf.nextleaf := newleaf;
      tree.tailleaf := newleaf;
    }
    ghost var before := tree.chain;
    tree.chain := tree.chain + [newleaf];
    if good {
      forall i | 0 <= i < |tree.chain| ensures OpenAt(tree.chain, i) {
        assert i < |before| ==> old(OpenAt(before, i));
      }
    }
  }

  /** The tree has grown by the nodes `rs`, which hold `ts`; the stream stands behind them. */
  ghost predicate Grown(tree: BTree, stream: seq<NodeImage>, next: nat, rs: seq<Ref>, ts: seq<Tree>,
                        chain0: seq<Node>, inner0: nat)
    reads tree`chain, tree`headleaf, tree`tailleaf, tree`leaves, tree`innernodes
    reads tree.chain`prevleaf, tree.chain`nextleaf
    reads NodesOf(rs)`level, NodesOf(rs)`slotuse, NodesOf(rs)`slotkey, NodesOf(rs)`slotdata, NodesOf(rs)`childid
  {
    && HoldsAll(rs, ts) && OpenLinks(tree)
    && tree.chain == chain0 + LeavesOf(rs) && tree.innernodes == inner0 + InnerCountOf(rs)
    && (rs != [] ==> tree.tailleaf != null && 0 < next <= |stream| && tree.tailleaf.nextleaf == stream[next - 1].nextleaf)
  }

  /** The stream is fit to be read from here: the first leaf on it that starts the list
      has no leaf before it. */
  ghost predicate Fit(tree: BTree, stream: seq<NodeImage>, pos: nat, rs: seq<Record>)
    reads tree`chain, tree`headleaf, tree`tailleaf, tree`leaves
    reads tree.chain`prevleaf, tree.chain`nextleaf
  {
    && ReadsAs(stream, pos, rs) && OpenLinks(tree)
    && (tree.chain == [] ==> FirstPrev(stream[pos..]) == null)
  }

  /** Read one node with all below it. When the stream is known to go on with the
      records of a tree, that tree is what is built. */
  method RestoreNode(tree: BTree, stream: seq<NodeImage>, pos: nat, ghost t: Tree, ghost rest: seq<Record>, ghost good: bool)
    returns (n: Node?, next: nat, ghost rs: seq<Ref>, ghost added: set<Node>)
    requires AllSized(stream) && pos <= |stream| && (tree.headleaf == null <==> tree.tailleaf == null)
    requires good ==> Linked(t) && (t.Leaf? ==> t.items != []) && Fit(tree, stream, pos, Preorder(t) + rest)
    modifies tree`headleaf, tree`tailleaf, tree`leaves, tree`innernodes, tree`chain, LastLeaf(tree)`nextleaf
    ensures pos <= next <= |stream| && (n == null <==> pos == |stream|) && (n != null ==> pos < next)
    ensures tree.headleaf == null <==> tree.tailleaf == null
    ensures tree.tailleaf == old(tree.tailleaf) || fresh(tree.tailleaf)
    ensures fresh(added) && (good ==> n != null && OneRef(n, rs) && NodesOf(rs) == added)
    ensures good ==> Grown(tree, stream, next, rs, [t], old(tree.chain), old(tree.innernodes))
    ensures good ==> ReadsAs(stream, next, rest)
    decreases |stream| - pos, 1
  {
    if pos == |stream| {
      return null, pos, [], {};
    }
    var m := stream[pos];
    if m.level == 0 {
      if good { LeafAhead(stream, pos, t, rest); }
      n := RestoreLeaf(tree, m, good);
      next := pos + 1;
      rs, added := [LeafRef(n)], {n};
      NodesOfOne(LeafRef(n));
      if good { LeafGrown(tree, stream, next, n, t, old(tree.chain)); }
    } else {
      n, next, rs, added := RestoreInner(tree, stream, pos, t, rest, good);
    }
  }

  ghost predicate OneRef(n: Node, rs: seq<Ref>) {
    |rs| == 1 && rs[0].n == n && !rs[0].EmptyRef?
  }

  lemma {:induction false} LeafAhead(stream: seq<NodeImage>, pos: nat, t: Tree, rest: seq<Record>)
    requires ReadsAs(stream, pos, Preorder(t) + rest) && pos < |stream| && stream[pos].level == 0
    ensures t.Leaf? && RecordOf(stream[pos]).items == t.items && ReadsAs(stream, pos + 1, rest)
    ensures FirstPrev(stream[pos..]) == stream[pos].prevleaf
  {
    if t.Leaf? {
      ReadOne(stream, pos, LeafRecord(t.items), rest);
    }
  }

  lemma {:induction false} LeafGrown(tree: BTree, stream: seq<NodeImage>, next: nat, n: Node, t: Tree, chain0: seq<Node>)
    requires t.Leaf? && LeafHolds(n, t.items) && OpenLinks(tree) && tree.chain == chain0 + [n]
    requires 0 < next <= |stream| && n.nextleaf == stream[next - 1].nextleaf
    ensures Grown(tree, stream, next, [LeafRef(n)], [t], chain0, tree.innernodes)
  {
    HoldsAllOne(LeafRef(n), t);
    LeavesOfOne(LeafRef(n));
  }

  lemma {:induction false} InnerAhead(stream: seq<NodeImage>, pos: nat, t: Tree, rest: seq<Record>)
    requires ReadsAs(stream, pos, Preorder(t) + rest) && pos < |stream| && stream[pos].level > 0
    ensures t.Inner? && RecordOf(stream[pos]) == InnerRecord(t.level, t.keys)
    ensures ReadsAs(stream, pos + 1, PreorderOf(t.kids[0..]) + rest)
    ensures FirstPrev(stream[pos..]) == FirstPrev(stream[pos + 1..])
  {
    assert stream[pos..][1..] == stream[pos + 1..];
    if t.Inner? {
      assert Preorder(t) + rest == [InnerRecord(t.level, t.keys)] + (PreorderOf(t.kids) + rest);
      ReadOne(stream, pos, InnerRecord(t.level, t.keys), PreorderOf(t.kids) + rest);
      assert t.kids[0..] == t.kids;
    } else {
      ReadOne(stream, pos, LeafRecord(t.items), rest);
    }
  }

  method RestoreInner(tree: BTree, stream: seq<NodeImage>, pos: nat, ghost t: Tree, ghost rest: seq<Record>, ghost good: bool)
    returns (n: Node, next: nat, ghost rs: seq<Ref>, ghost added: set<Node>)
    requires AllSized(stream) && pos < |stream| && stream[pos].level > 0 && (tree.headleaf == null <==> tree.tailleaf == null)
    requires good ==> Linked(t) && Fit(tree, stream, pos, Preorder(t) + rest)
    modifies tree`headleaf, tree`tailleaf, tree`leaves, tree`innernodes, tree`chain, LastLeaf(tree)`nextleaf
    ensures pos < next <= |stream|
    ensures tree.headleaf == null <==> tree.tailleaf == null
    ensures tree.tailleaf == old(tree.tailleaf) || fresh(tree.tailleaf)
    ensures fresh(added) && (good ==> OneRef(n, rs) && NodesOf(rs) == added)
    ensures good ==> Grown(tree, stream, next, rs, [t], old(tree.chain), old(tree.innernodes))
    ensures good ==> ReadsAs(stream, next, rest)
    decreases |stream| - pos, 0
  {
    n := CopyInner(tree, stream[pos]);
    if good { NoKidsYet(tree, stream, pos, n, t, rest); }
    ghost var kids, below;
    next, kids, below := RestoreKids(tree, stream, pos + 1, n, t, rest, old(tree.chain), old(tree.innernodes) + 1, good);
    if good { InnerGrown(tree, stream, next, n, kids, t, rest, old(tree.chain), old(tree.innernodes)); }
    rs, added := [Family(n, kids)], {n} + below;
    NodesOfOne(Family(n, kids));
  }

  /** One child after the other. */
  method RestoreKids(tree: BTree, stream: seq<NodeImage>, pos: nat, n: Node, ghost t: Tree, ghost rest: seq<Record>,
                     ghost chain0: seq<Node>, ghost inner0: nat, ghost good: bool)
    returns (next: nat, ghost rs: seq<Ref>, ghost below: set<Node>)
    requires AllSized(stream) && pos <= |stream| && (tree.headleaf == null <==> tree.tailleaf == null)
    requires n.slotuse <= innerslotmax && |n.childid| == innerslotmax + 1
    requires good ==> Linked(t) && t.Inner? && |t.kids| == n.slotuse + 1
    requires good ==> KidsRead(tree, stream, pos, n, [], t, 0, rest, chain0, inner0)
    modifies tree`headleaf, tree`tailleaf, tree`leaves, tree`innernodes, tree`chain, LastLeaf(tree)`nextleaf, n`childid
    ensures pos <= next <= |stream|
    ensures tree.headleaf == null <==> tree.tailleaf == null
    ensures tree.tailleaf == old(tree.tailleaf) || fresh(tree.tailleaf)
    ensures |n.childid| == innerslotmax + 1
    ensures fresh(below) && (good ==> NodesOf(rs) == below)
    ensures good ==> KidsRead(tree, stream, next, n, rs, t, |t.kids|, rest, chain0, inner0)
    decreases |stream| - pos, 4
  {
    next, rs, below := pos, [], {};
    ghost var more: set<Node>;
    var slot := 0;
    while slot <= n.slotuse
      invariant slot <= n.slotuse + 1
      invariant pos <= next <= |stream| && (tree.headleaf == null <==> tree.tailleaf == null)
      invariant tree.tailleaf == old(tree.tailleaf) || fresh(tree.tailleaf)
      invariant n.slotuse == old(n.slotuse) && |n.childid| == innerslotmax + 1
      invariant fresh(below) && (good ==> NodesOf(rs) == below)
      invariant good ==> KidsRead(tree, stream, next, n, rs, t, slot, rest, chain0, inner0)
      decreases n.slotuse + 1 - slot
    {
      next, rs, more := RestoreKid(tree, stream, next, n, slot, rs, t, rest, chain0, inner0, good);
      below := below + more;
      slot := slot + 1;
    }
  }

  method CopyInner(tree: BTree, m: NodeImage) returns (n: Node)
    modifies tree`innernodes
    ensures fresh(n) && tree.innernodes == old(tree.innernodes) + 1
    ensures n.level == m.level && n.slotuse == m.slotuse && n.slotkey == m.slotkey && n.childid == m.childid
  {
    n := new Node.AllocateInner(0);
    tree.innernodes := tree.innernodes + 1;
    n.level, n.slotuse := m.level, m.slotuse;
    n.slotkey, n.childid := m.slotkey, m.childid;
    n.prevleaf, n.nextleaf := m.prevleaf, m.nextleaf;
  }

  lemma {:induction false} NoKidsYet(tree: BTree, stream: seq<NodeImage>, pos: nat, n: Node, t: Tree, rest: seq<Record>)
    requires Fit(tree, stream, pos, Preorder(t) + rest) && pos < |stream| && stream[pos].level > 0
    ensures t.Inner? && RecordOf(stream[pos]) == InnerRecord(t.level, t.keys)
    ensures KidsRead(tree, stream, pos + 1, n, [], t, 0, rest, tree.chain, tree.innernodes)
  {
    InnerAhead(stream, pos, t, rest);
    assert tree.chain + [] == tree.chain;
  }

  lemma {:induction false} InnerGrown(tree: BTree, stream: seq<NodeImage>, next: nat, n: Node, rs: seq<Ref>, t: Tree,
                                      rest: seq<Record>, chain0: seq<Node>, inner0: nat)
    requires t.Inner? && Linked(t) && n.level == t.level && n.slotuse == |t.keys| <= innerslotmax
    requires |n.slotkey| == innerslotmax && n.slotkey[..n.slotuse] == t.keys && |n.childid| == innerslotmax + 1
    requires KidsRead(tree, stream, next, n, rs, t, |t.kids|, rest, chain0, inner0 + 1)
    ensures Grown(tree, stream, next, [Family(n, rs)], [t], chain0, inner0) && ReadsAs(stream, next, rest)
  {
    var r := Family(n, rs);
    assert t.kids[..|t.kids|] == t.kids && PreorderOf(t.kids[|t.kids|..]) + rest == rest;
    assert InnerHolds(n, t.level, t.keys, Heads(rs));
    HoldsAllOne(r, t);
    LeavesOfOne(r);
  }

  ghost predicate KidsRead(tree: BTree, stream: seq<NodeImage>, next: nat, n: Node, rs: seq<Ref>, t: Tree, slot: nat,
                           rest: seq<Record>, chain0: seq<Node>, inner0: nat)
    reads tree`chain, tree`headleaf, tree`tailleaf, tree`leaves, tree`innernodes, n`childid
    reads tree.chain`prevleaf, tree.chain`nextleaf
    reads NodesOf(rs)`level, NodesOf(rs)`slotuse, NodesOf(rs)`slotkey, NodesOf(rs)`slotdata, NodesOf(rs)`childid
  {
    && t.Inner? && |rs| == slot <= |t.kids|
    && n !in NodesOf(rs) && Grown(tree, stream, next, rs, t.kids[..slot], chain0, inner0)
    && Fit(tree, stream, next, PreorderOf(t.kids[slot..]) + rest)
    && slot <= |n.childid| && forall i | 0 <= i < slot :: n.childid[i] == rs[i].n
  }

  method RestoreKid(tree: BTree, stream: seq<NodeImage>, pos: nat, n: Node, slot: nat, ghost rs: seq<Ref>, ghost t: Tree,
                    ghost rest: seq<Record>, ghost chain0: seq<Node>, ghost inner0: nat, ghost good: bool)
    returns (next: nat, ghost rs': seq<Ref>, ghost more: set<Node>)
    requires AllSized(stream) && pos <= |stream| && (tree.headleaf == null <==> tree.tailleaf == null)
    requires slot < |n.childid|
    requires good ==> Linked(t) && t.Inner? && slot < |t.kids|
    requires good ==> KidsRead(tree, stream, pos, n, rs, t, slot, rest, chain0, inner0)
    modifies tree`headleaf, tree`tailleaf, tree`leaves, tree`innernodes, tree`chain, LastLeaf(tree)`nextleaf, n`childid
    ensures pos <= next <= |stream|
    ensures tree.headleaf == null <==> tree.tailleaf == null
    ensures tree.tailleaf == old(tree.tailleaf) || fresh(tree.tailleaf)
    ensures |n.childid| == old(|n.childid|)
    ensures fresh(more) && (good ==> NodesOf(rs') == NodesOf(rs) + more)
    ensures good ==> KidsRead(tree, stream, next, n, rs', t, slot + 1, rest, chain0, inner0)
    decreases |stream| - pos, 3
  {
    var kid;
    kid, next, rs', more := ReadKid(tree, stream, pos, n, slot, rs, t, rest, chain0, inner0, good);
    label grown:
    n.childid := n.childid[slot := kid];
    if good {
      ghost var ts := t.kids[..slot + 1];
      assert Grown(tree, stream, next, rs', ts, chain0, inner0) == old@grown(Grown(tree, stream, next, rs', ts, chain0, inner0));
    }
  }

  method ReadKid(tree: BTree, stream: seq<NodeImage>, pos: nat, n: Node, slot: nat, ghost rs: seq<Ref>, ghost t: Tree,
                 ghost rest: seq<Record>, ghost chain0: seq<Node>, ghost inner0: nat, ghost good: bool)
    returns (kid: Node?, next: nat, ghost rs': seq<Ref>, ghost more: set<Node>)
    requires AllSized(stream) && pos <= |stream| && (tree.headleaf == null <==> tree.tailleaf == null)
    requires good ==> Linked(t) && t.Inner? && slot < |t.kids|
    requires good ==> KidsRead(tree, stream, pos, n, rs, t, slot, rest, chain0, inner0)
    modifies tree`headleaf, tree`tailleaf, tree`leaves, tree`innernodes, tree`chain, LastLeaf(tree)`nextleaf
    ensures pos <= next <= |stream|
    ensures tree.headleaf == null <==> tree.tailleaf == null
    ensures tree.tailleaf == old(tree.tailleaf) || fresh(tree.tailleaf)
    ensures fresh(more) && (good ==> NodesOf(rs') == NodesOf(rs) + more)
    ensures good ==> |rs'| == slot + 1 && rs'[..slot] == rs && rs'[slot].n == kid
    ensures good ==> Grown(tree, stream, next, rs', t.kids[..slot + 1], chain0, inner0)
    ensures good ==> Fit(tree, stream, next, PreorderOf(t.kids[slot + 1..]) + rest)
    decreases |stream| - pos, 2
  {
    ghost var behind := PreorderOf(if good then t.kids[slot + 1..] else []) + rest;
    ghost var r;
    if good { KidAhead(tree, stream, pos, t, slot, rest); }
    kid, next, r, more := RestoreNode(tree, stream, pos, if good then t.kids[slot] else t, behind, good);
    rs' := rs + r;
    if good {
      assert HoldsAll(rs, t.kids[..slot]);
      KidsGrown(tree, stream, next, rs, r, t.kids, slot, chain0, inner0);
    }
  }

  lemma {:induction false} KidAhead(tree: BTree, stream: seq<NodeImage>, pos: nat, t: Tree, slot: nat, rest: seq<Record>)
    requires Linked(t) && t.Inner? && slot < |t.kids| && Fit(tree, stream, pos, PreorderOf(t.kids[slot..]) + rest)
    ensures Fit(tree, stream, pos, Preorder(t.kids[slot]) + (PreorderOf(t.kids[slot + 1..]) + rest))
    ensures Linked(t.kids[slot]) && (t.kids[slot].Leaf? ==> t.kids[slot].items != [])
  {
    assert t.kids[slot..][1..] == t.kids[slot + 1..];
    assert PreorderOf(t.kids[slot..]) + rest == Preorder(t.kids[slot]) + (PreorderOf(t.kids[slot + 1..]) + rest);
    assert SlotUse(t.kids[slot]) > 0;
  }

  lemma {:induction false} KidsGrown(tree: BTree, stream: seq<NodeImage>, next: nat, rs: seq<Ref>, r: seq<Ref>, ts: seq<Tree>, slot: nat,
                                     chain0: seq<Node>, inner0: nat)
    requires |rs| == slot < |ts| && HoldsAll(rs, ts[..slot]) && NodesOf(rs) !! NodesOf(r) && |r| == 1
    requires Grown(tree, stream, next, r, [ts[slot]], chain0 + LeavesOf(rs), inner0 + InnerCountOf(rs))
    ensures Grown(tree, stream, next, rs + r, ts[..slot + 1], chain0, inner0)
    ensures NodesOf(rs + r) == NodesOf(rs) + NodesOf(r)
  {
    assert ts[..slot + 1] == ts[..slot] + [ts[slot]];
    HoldsAllAppend(rs, r, ts[..slot], [ts[slot]]);
    LeavesOfAppend(rs, r);
    InnerCountAppend(rs, r);
    NodesOfAppend(rs, r);
    assert chain0 + LeavesOf(rs) + LeavesOf(r) == chain0 + (LeavesOf(rs) + LeavesOf(r));
  }

  method Clear(tree: BTree)
    requires tree.Valid()
    modifies tree
    ensures tree.Valid() && tree.content == None && tree.chain == []
  {
    if tree.root != null {
      tree.root, tree.headleaf, tree.tailleaf := null, null, null;
      tree.itemcount, tree.leaves, tree.innernodes := 0, 0, 0;
      tree.chain, tree.refs, tree.content := [], [], None;
    }
  }

  /** A file that is accepted, whatever its signature, and has a valid tree. */
  ghost predicate ValidImage(file: File, t: Option<Tree>) {
    SameHeader(Fill(0), file.header) && HasTree(file, t) && (t.Some? ==> BTreeModel.Valid(t.value))
  }

  /** Build the tree of a file. If the file has a valid tree, that very tree comes back: its shape, keys, data and levels, its counts, and a list of its leaves.
      A file that is accepted for its header but holds too few nodes is not noticed,
      unless it holds none. */
  method Restore(tree: BTree, file: Option<File>, ghost t: Option<Tree>) returns (ok: bool)
    requires tree.Valid() && (file.Some? ==> AllSized(file.value.nodes))
    modifies tree
    ensures file.None? || !SameHeader(Fill(0), file.value.header) ==> !ok && tree.Valid() && tree.content == old(tree.content)
    ensures file.Some? ==>
              var h := file.value.header;
              SameHeader(Fill(0), h) <==>
                && h.version == 0 && h.keytypesize == keytypesize && h.datatypesize == datatypesize
                && h.leafslots == leafslotmax && h.innerslots == innerslotmax && !h.allowduplicates
    ensures file.Some? && SameHeader(Fill(0), file.value.header) ==>
              (ok <==> file.value.header.itemcount == 0 || file.value.nodes != [])
    ensures file.Some? && ValidImage(file.value, t) ==>
              ok && tree.Valid() && tree.content == t && fresh(NodesOf(tree.refs))
  {
    if file.None? {
      return false;
    }
    if !SameHeader(Fill(file.value.header.itemcount), file.value.header) {
      return false;
    }
    Clear(tree);
    if file.value.header.itemcount > 0 {
      ok := RestoreRoot(tree, file.value, t);
    } else {
      ok := true;
      assert ValidImage(file.value, t) ==> t.None? by { NoItems(t); }
    }
  }

  /** Whatever the signature of a file is made to be, the result of the restore is the same,
      and so is the tree. */
  method SignatureIsNotCompared(tree: BTree, other: BTree, file: File, signature: string, ghost t: Option<Tree>)
    returns (ok: bool, otherOk: bool)
    requires tree.Valid() && other.Valid() && tree != other && AllSized(file.nodes)
    modifies tree, other
    ensures otherOk == ok
    ensures ValidImage(file, t) ==> ok && tree.Valid() && other.Valid() && tree.content == other.content == t
    ensures !SameHeader(Fill(0), file.header) ==> !ok && tree.content == old(tree.content) && other.content == old(other.content)
  {
    hide HasTree, BTreeModel.Valid, Items, RootItems;
    var renamed := file.(header := file.header.(signature := signature));
    assert HasTree(renamed, t) == HasTree(file, t) by { SameTree(file, signature, t); }
    ok := Restore(tree, Some(file), t);
    otherOk := Restore(other, Some(renamed), t);
  }

  lemma {:induction false} SameTree(file: File, signature: string, t: Option<Tree>)
    ensures HasTree(file.(header := file.header.(signature := signature)), t) <==> HasTree(file, t)
  {
  }

  lemma {:induction false} NoItems(t: Option<Tree>)
    ensures t.Some? && BTreeModel.Valid(t.value) ==> RootItems(t) != []
  {
    if t.Some? && BTreeModel.Valid(t.value) {
      ShapeNonempty(t.value);
    }
  }

  method RestoreRoot(tree: BTree, file: File, ghost t: Option<Tree>) returns (ok: bool)
    requires tree.Valid() && tree.content == None && AllSized(file.nodes) && file.header.itemcount > 0
    modifies tree
    ensures ok <==> file.nodes != []
    ensures ValidImage(file, t) ==> ok && tree.Valid() && tree.content == t && fresh(NodesOf(tree.refs))
  {
    ghost var good := ValidImage(file, t);
    ghost var u := if good then t.value else Leaf([]);
    var n, next;
    ghost var rs, added;
    if good { WholeFileFits(tree, file, t); }
    n, next, rs, added := RestoreNode(tree, file.nodes, 0, u, [], good);
    SetRoot(tree, file, n, next, rs, u, good);
    ok := n != null;
  }

  /** The node read becomes the root; a failed read leaves a tree without one. */
  method SetRoot(tree: BTree, file: File, n: Node?, ghost next: nat, ghost rs: seq<Ref>, ghost t: Tree, ghost good: bool)
    requires good ==> ValidImage(file, Some(t)) && n != null && OneRef(n, rs)
    requires good ==> Grown(tree, file.nodes, next, rs, [t], [], 0) && ReadsAs(file.nodes, next, [])
    modifies tree`root, tree`itemcount, tree`refs, tree`content
    ensures good ==> tree.Valid() && tree.content == Some(t) && tree.refs == rs
  {
    SetFields(tree, file, n, next, rs, t, NodesOf(rs), tree.chain);
    if good { RootRestored(tree, file, next, rs, t); }
  }

  method SetFields(tree: BTree, file: File, n: Node?, ghost next: nat, ghost rs: seq<Ref>, ghost t: Tree, ghost nodes: set<Node>, ghost all: seq<Node>)
    requires nodes == NodesOf(rs) && all == tree.chain
    modifies tree`root, tree`itemcount, tree`refs, tree`content
    ensures tree.root == n && tree.refs == rs && tree.content == Some(t) && (n != null ==> tree.itemcount == file.header.itemcount)
    ensures Grown(tree, file.nodes, next, rs, [t], [], 0) == old(Grown(tree, file.nodes, next, rs, [t], [], 0))
  {
    tree.root := n;
    if n != null {
      tree.itemcount := file.header.itemcount;
    }
    tree.refs, tree.content := rs, Some(t);
  }

  lemma {:induction false} WholeFileFits(tree: BTree, file: File, t: Option<Tree>)
    requires tree.Valid() && tree.content == None && ValidImage(file, t) && file.header.itemcount > 0
    ensures t.Some? && Linked(t.value) && (t.value.Leaf? ==> t.value.items != [])
    ensures Fit(tree, file.nodes, 0, Preorder(t.value) + []) && tree.innernodes == 0 && tree.chain == []
  {
    assert Records(file.nodes)[0..] == Records(file.nodes) && file.nodes[0..] == file.nodes;
    assert Preorder(t.value) + [] == Preorder(t.value);
  }

  lemma {:induction false} RootRestored(tree: BTree, file: File, next: nat, rs: seq<Ref>, t: Tree)
    requires ValidImage(file, Some(t)) && tree.content == Some(t) && tree.refs == rs && tree.itemcount == |Items(t)|
    requires tree.root != null && OneRef(tree.root, rs) && Grown(tree, file.nodes, next, rs, [t], [], 0)
    requires ReadsAs(file.nodes, next, [])
    ensures tree.Valid()
  {
    assert next == |file.nodes|;
    assert [] + LeavesOf(rs) == LeavesOf(rs);
    forall i | 0 <= i < |tree.chain| ensures LinkedAt(tree.chain, i) {
      assert OpenAt(tree.chain, i);
    }
  }
}
