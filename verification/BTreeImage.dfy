/** The binary image of a B+ tree: its nodes in preorder behind a header, and what
    reading such a stream of nodes back gives. */
module BTreeImage {
  import opened OrderedItems
  import opened BTreeModel
  import opened BTreeNode
  import opened Wrappers

  /** What counts in the image of a node; the pointers in it are set anew. */
  datatype Record =
    | LeafRecord(items: seq<Item>)
    | InnerRecord(level: nat, keys: seq<Key>)

  /** A node as its bytes lie in the file, with the pointers it had in memory. */
  datatype NodeImage = NodeImage(level: nat, slotuse: nat, slotkey: seq<Key>, slotdata: seq<Data>,
                                 childid: seq<Node?>, prevleaf: Node?, nextleaf: Node?)

  /** The arrays of a node are part of it and have their fixed lengths. */
  ghost predicate Sized(m: NodeImage) {
    if m.level == 0 then m.slotuse <= leafslotmax == |m.slotkey| == |m.slotdata|
    else m.slotuse <= innerslotmax == |m.slotkey| && |m.childid| == innerslotmax + 1
  }

  ghost predicate AllSized(ms: seq<NodeImage>) {
    forall i | 0 <= i < |ms| :: Sized(ms[i])
  }

  ghost function RecordOf(m: NodeImage): Record
    requires Sized(m)
  {
    if m.level == 0 then LeafRecord(seq(m.slotuse, i requires 0 <= i < m.slotuse => Item(m.slotkey[i], m.slotdata[i])))
    else InnerRecord(m.level, m.slotkey[..m.slotuse])
  }

  ghost function Records(ms: seq<NodeImage>): (rs: seq<Record>)
    requires AllSized(ms)
    ensures |rs| == |ms| && forall i | 0 <= i < |ms| :: rs[i] == RecordOf(ms[i])
  {
    seq(|ms|, i requires 0 <= i < |ms| => RecordOf(ms[i]))
  }

  /** The back link of the first leaf in a stream. */
  ghost function FirstPrev(ms: seq<NodeImage>): Node? {
    if ms == [] then null else if ms[0].level == 0 then ms[0].prevleaf else FirstPrev(ms[1..])
  }

  lemma {:induction false} FirstPrevAppend(a: seq<NodeImage>, b: seq<NodeImage>)
    requires a != [] && a[|a| - 1].level == 0
    ensures FirstPrev(a + b) == FirstPrev(a)
  {
    if a[0].level != 0 {
      assert (a + b)[1..] == a[1..] + b;
      FirstPrevAppend(a[1..], b);
    }
  }

  ghost function Preorder(t: Tree): seq<Record>
    decreases t, 1
  {
    match t
    case Leaf(items) => [LeafRecord(items)]
    case Inner(level, keys, kids) => [InnerRecord(level, keys)] + PreorderOf(kids)
  }

  ghost function PreorderOf(kids: seq<Tree>): seq<Record>
    decreases kids, 0
  {
    if kids == [] then [] else Preorder(kids[0]) + PreorderOf(kids[1..])
  }

  // ---- What the order of the records is ----

  function LevelOf(r: Record): nat {
    if r.LeafRecord? then 0 else r.level
  }

  /** The pairs of the leaves in a stream, in its order. */
  ghost function LeafItems(s: seq<Record>): seq<Item> {
    if s == [] then [] else (if s[0].LeafRecord? then s[0].items else []) + LeafItems(s[1..])
  }

  /** Behind every inner node comes a node one level lower. */
  ghost predicate Downward(s: seq<Record>) {
    forall i | 0 <= i < |s| && s[i].InnerRecord? :: i + 1 < |s| && LevelOf(s[i + 1]) + 1 == LevelOf(s[i])
  }

  /** The root comes first, the first child directly behind its parent, and the leaves from left
      to right. */
  lemma {:induction false} StreamOrder(t: Tree)
    requires Linked(t)
    ensures var s := Preorder(t);
            && s != [] && LevelOf(s[0]) == Level(t) && s[0] == (if t.Leaf? then LeafRecord(t.items) else InnerRecord(t.level, t.keys))
            && LeafItems(s) == Items(t) && Downward(s)
    decreases t, 1
  {
    match t
    case Leaf(items) =>
      assert LeafItems([]) == [];
    case Inner(level, keys, kids) =>
      StreamOrderOf(kids);
      assert Preorder(t)[1..] == PreorderOf(kids);
      DownwardFrom(InnerRecord(level, keys), PreorderOf(kids));
  }

  lemma {:induction false} StreamOrderOf(kids: seq<Tree>)
    requires forall i | 0 <= i < |kids| :: Linked(kids[i])
    ensures kids != [] ==> PreorderOf(kids) != [] && LevelOf(PreorderOf(kids)[0]) == Level(kids[0])
    ensures LeafItems(PreorderOf(kids)) == ItemsOf(kids) && Downward(PreorderOf(kids))
    decreases kids, 0
  {
    if kids != [] {
      StreamOrder(kids[0]);
      StreamOrderOf(kids[1..]);
      LeafItemsAppend(Preorder(kids[0]), PreorderOf(kids[1..]));
      DownwardAppend(Preorder(kids[0]), PreorderOf(kids[1..]));
    }
  }

  lemma {:induction false} LeafItemsAppend(a: seq<Record>, b: seq<Record>)
    ensures LeafItems(a + b) == LeafItems(a) + LeafItems(b)
  {
    if a == [] {
      assert a + b == b;
    } else {
      LeafItemsAppend(a[1..], b);
      assert (a + b)[1..] == a[1..] + b;
    }
  }

  lemma {:induction false} DownwardAppend(a: seq<Record>, b: seq<Record>)
    requires Downward(a) && Downward(b)
    ensures Downward(a + b)
  {
    var s := a + b;
    forall i | 0 <= i < |s| && s[i].InnerRecord? ensures i + 1 < |s| && LevelOf(s[i + 1]) + 1 == LevelOf(s[i]) {
      if i >= |a| {
        assert b[i - |a|] == s[i];
        assert b[i - |a| + 1] == s[i + 1];
      } else {
        assert a[i] == s[i] && a[i + 1] == s[i + 1];
      }
    }
  }

  lemma {:induction false} DownwardFrom(r: Record, s: seq<Record>)
    requires Downward(s) && s != [] && LevelOf(s[0]) + 1 == LevelOf(r)
    ensures Downward([r] + s)
  {
    var all := [r] + s;
    forall i | 0 <= i < |all| && all[i].InnerRecord? ensures i + 1 < |all| && LevelOf(all[i + 1]) + 1 == LevelOf(all[i]) {
      if i > 0 {
        assert s[i - 1] == all[i] && s[i] == all[i + 1];
      }
    }
  }

  /** Every inner node has one child more than it has keys, as its slot count says. */
  ghost predicate Fanned(t: Tree)
    decreases t
  {
    t.Inner? ==> |t.kids| == |t.keys| + 1 && forall i | 0 <= i < |t.kids| :: Fanned(t.kids[i])
  }

  lemma {:induction false} LinkedIsFanned(t: Tree)
    requires Linked(t)
    ensures Fanned(t)
    decreases t
  {
    if t.Inner? {
      forall i | 0 <= i < |t.kids| ensures Fanned(t.kids[i]) {
        LinkedIsFanned(t.kids[i]);
      }
    }
  }

  // ---- Reading back ----

  /** The nodes that reading builds. A child that could not be read stays null. */
  datatype Restored =
    | Null
    | RestoredLeaf(items: seq<Item>)
    | RestoredInner(level: nat, keys: seq<Key>, kids: seq<Restored>)

  /** One node with all its children is read off the stream. */
  ghost function Parse(s: seq<Record>): (p: (Restored, seq<Record>))
    ensures |p.1| <= |s|
    decreases |s|, 0
  {
    if s == [] then (Null, [])
    else
      match s[0]
      case LeafRecord(items) => (RestoredLeaf(items), s[1..])
      case InnerRecord(level, keys) =>
        var (kids, rest) := ParseKids(s[1..], |keys| + 1);
        (RestoredInner(level, keys, kids), rest)
  }

  ghost function ParseKids(s: seq<Record>, n: nat): (p: (seq<Restored>, seq<Record>))
    ensures |p.1| <= |s| && |p.0| == n
    decreases |s|, n
  {
    if n == 0 then ([], s)
    else
      var (kid, rest) := Parse(s);
      var (kids, last) := ParseKids(rest, n - 1);
      ([kid] + kids, last)
  }

  ghost function Whole(t: Tree): Restored
    decreases t, 1
  {
    match t
    case Leaf(items) => RestoredLeaf(items)
    case Inner(level, keys, kids) => RestoredInner(level, keys, WholeOf(kids))
  }

  ghost function WholeOf(kids: seq<Tree>): (rs: seq<Restored>)
    ensures |rs| == |kids|
    decreases kids, 0
  {
    if kids == [] then [] else [Whole(kids[0])] + WholeOf(kids[1..])
  }

  /** Reading what was written gives the tree back and stops right behind it. */
  lemma {:induction false} RoundTrip(t: Tree, rest: seq<Record>)
    requires Fanned(t)
    ensures Parse(Preorder(t) + rest) == (Whole(t), rest)
    decreases t, 1
  {
    var s := Preorder(t) + rest;
    match t
    case Leaf(items) =>
      assert s[1..] == rest;
    case Inner(level, keys, kids) =>
      assert s[1..] == PreorderOf(kids) + rest;
      RoundTripOf(kids, rest);
  }

  lemma {:induction false} RoundTripOf(kids: seq<Tree>, rest: seq<Record>)
    requires forall i | 0 <= i < |kids| :: Fanned(kids[i])
    ensures ParseKids(PreorderOf(kids) + rest, |kids|) == (WholeOf(kids), rest)
    decreases kids, 0
  {
    if kids == [] {
      assert PreorderOf(kids) + rest == rest;
    } else {
      assert PreorderOf(kids) + rest == Preorder(kids[0]) + (PreorderOf(kids[1..]) + rest);
      RoundTrip(kids[0], PreorderOf(kids[1..]) + rest);
      RoundTripOf(kids[1..], rest);
    }
  }

  lemma {:induction false} WholeIsUnique(t: Tree, u: Tree)
    requires Whole(t) == Whole(u)
    ensures t == u
    decreases t, 1
  {
    if t.Inner? {
      WholeIsUniqueOf(t.kids, u.kids);
    }
  }

  lemma {:induction false} WholeIsUniqueOf(ts: seq<Tree>, us: seq<Tree>)
    requires WholeOf(ts) == WholeOf(us)
    ensures ts == us
    decreases ts, 0
  {
    if ts != [] {
      assert WholeOf(ts)[0] == Whole(ts[0]) && WholeOf(us)[0] == Whole(us[0]);
      assert WholeOf(ts)[1..] == WholeOf(ts[1..]) && WholeOf(us)[1..] == WholeOf(us[1..]);
      WholeIsUnique(ts[0], us[0]);
      WholeIsUniqueOf(ts[1..], us[1..]);
      assert ts == [ts[0]] + ts[1..] && us == [us[0]] + us[1..];
    }
  }

  /** Two trees never have the same image, nor is one image the start of another. */
  lemma {:induction false} ImageIsUnique(t: Tree, u: Tree, a: seq<Record>, b: seq<Record>)
    requires Fanned(t) && Fanned(u) && Preorder(t) + a == Preorder(u) + b
    ensures t == u && a == b
  {
    RoundTrip(t, a);
    RoundTrip(u, b);
    WholeIsUnique(t, u);
  }

  // ---- Streams cut short ----

  ghost predicate Complete(r: Restored)
    decreases r
  {
    match r
    case Null => false
    case RestoredLeaf(_) => true
    case RestoredInner(_, _, kids) => forall i | 0 <= i < |kids| :: Complete(kids[i])
  }

  lemma {:induction false} WholeIsComplete(t: Tree)
    ensures Complete(Whole(t))
    decreases t, 1
  {
    if t.Inner? {
      WholeIsCompleteOf(t.kids);
    }
  }

  lemma {:induction false} WholeIsCompleteOf(kids: seq<Tree>)
    ensures forall i | 0 <= i < |kids| :: Complete(WholeOf(kids)[i])
    decreases kids, 0
  {
    if kids != [] {
      WholeIsComplete(kids[0]);
      WholeIsCompleteOf(kids[1..]);
      assert WholeOf(kids)[1..] == WholeOf(kids[1..]);
      forall i | 0 <= i < |kids| ensures Complete(WholeOf(kids)[i]) {
        if i > 0 { assert WholeOf(kids)[i] == WholeOf(kids[1..])[i - 1]; }
      }
    }
  }

  /** What a whole restore makes of a stream that ends after `n` nodes: it fails only if
      there is no node at all, although every shorter stream leaves nodes out. */
  lemma {:induction false} CutShort(t: Tree, n: nat)
    requires Fanned(t) && n <= |Preorder(t)|
    ensures Parse(Preorder(t)[..n]).0.Null? <==> n == 0
    ensures Complete(Parse(Preorder(t)[..n]).0) <==> n == |Preorder(t)|
  {
    if n < |Preorder(t)| {
      CutShortNode(t, n);
    } else {
      assert Preorder(t)[..n] == Preorder(t) + [];
      RoundTrip(t, []);
      WholeIsComplete(t);
    }
  }

  lemma {:induction false} CutShortNode(t: Tree, n: nat)
    requires Fanned(t) && n < |Preorder(t)|
    ensures Parse(Preorder(t)[..n]).1 == []
    ensures Parse(Preorder(t)[..n]).0.Null? <==> n == 0
    ensures !Complete(Parse(Preorder(t)[..n]).0)
    decreases t, 1
  {
    if n > 0 {
      var s := Preorder(t)[..n];
      assert s[0] == InnerRecord(t.level, t.keys);
      assert s[1..] == PreorderOf(t.kids)[..n - 1];
      CutShortKids(t.kids, n - 1);
    }
  }

  ghost predicate SomeIncomplete(rs: seq<Restored>) {
    exists i :: 0 <= i < |rs| && !Complete(rs[i])
  }

  lemma {:induction false} CutShortKids(kids: seq<Tree>, n: nat)
    requires forall i | 0 <= i < |kids| :: Fanned(kids[i])
    requires n < |PreorderOf(kids)|
    ensures ParseKids(PreorderOf(kids)[..n], |kids|).1 == []
    ensures SomeIncomplete(ParseKids(PreorderOf(kids)[..n], |kids|).0)
    decreases kids, 0
  {
    var s, first := PreorderOf(kids)[..n], Preorder(kids[0]);
    var (kid, rest) := Parse(s);
    var (more, last) := ParseKids(rest, |kids| - 1);
    if n < |first| {
      assert s == first[..n];
      CutShortNode(kids[0], n);
      ParseNothing(|kids| - 1);
      assert !Complete(([kid] + more)[0]);
    } else {
      var m := n - |first|;
      assert s == first + PreorderOf(kids[1..])[..m];
      RoundTrip(kids[0], PreorderOf(kids[1..])[..m]);
      CutShortKids(kids[1..], m);
      var i :| 0 <= i < |more| && !Complete(more[i]);
      assert ([kid] + more)[i + 1] == more[i];
    }
  }

  lemma {:induction false} ParseNothing(n: nat)
    ensures ParseKids([], n).1 == []
  {
    if n > 0 {
      ParseNothing(n - 1);
    }
  }

  // ---- The header ----

  datatype Header = Header(signature: string, version: nat, keytypesize: nat, datatypesize: nat,
                           leafslots: nat, innerslots: nat, allowduplicates: bool, itemcount: nat)

  /** The comparison of a header with one read from a file. */
  predicate SameHeader(mine: Header, file: Header) {
    && mine.signature == "stx-btree"
    && mine.version == file.version
    && mine.keytypesize == file.keytypesize
    && mine.datatypesize == file.datatypesize
    && mine.leafslots == file.leafslots
    && mine.innerslots == file.innerslots
    && mine.allowduplicates == file.allowduplicates
  }

  const keytypesize: nat
  const datatypesize: nat

  function Fill(itemcount: nat): Header {
    Header("stx-btree", 0, keytypesize, datatypesize, leafslotmax, innerslotmax, false, itemcount)
  }

  datatype File = File(header: Header, nodes: seq<NodeImage>)

  /** The file says how many pairs the tree has and lists its nodes in preorder; the
      leaves at both ends of the list point nowhere. */
  ghost predicate HasTree(file: File, root: Option<Tree>) {
    && file.header.itemcount == |RootItems(root)|
    && AllSized(file.nodes)
    && Records(file.nodes) == RootPreorder(root)
    && FirstPrev(file.nodes) == null
    && (file.nodes != [] ==> file.nodes[|file.nodes| - 1].nextleaf == null)
  }

  /** The image of a tree. */
  ghost predicate IsImageOf(file: File, root: Option<Tree>) {
    file.header == Fill(|RootItems(root)|) && HasTree(file, root)
  }

  ghost function RootPreorder(root: Option<Tree>): seq<Record> {
    if root.None? then [] else Preorder(root.value)
  }
}
