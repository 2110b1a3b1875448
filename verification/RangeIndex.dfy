/** The balanced tree of address ranges in memory. */
module RangeIndex {
  import opened Sequences
  import opened Wrappers
  import opened RangeTree
  import opened RangeBalance

  class AvlNode {
    var key: nat
    var length: nat
    var height: nat
    var left: AvlNode?
    var right: AvlNode?

    constructor (k: nat, len: nat)
      ensures key == k && length == len && height == 1 && left == null && right == null
    {
      key, length, height := k, len, 1;
      left, right := null, null;
    }
  }

  /** The nodes of a tree, arranged as the tree is, with the set of them all. */
  datatype Shape = Empty | Fork(n: AvlNode, left: Shape, right: Shape, nodes: set<AvlNode>)

  ghost function Nodes(s: Shape): set<AvlNode> {
    if s.Empty? then {} else s.nodes
  }

  ghost function Join(n: AvlNode, left: Shape, right: Shape): Shape {
    Fork(n, left, right, {n} + Nodes(left) + Nodes(right))
  }

  /** The nodes below `n` hold the tree `t`. */
  ghost predicate Holds(n: AvlNode?, s: Shape, t: Tree)
    reads Nodes(s)
    decreases s
  {
    match s
    case Empty => n == null && t.Nil?
    case Fork(m, l, r, nodes) =>
      && n == m && t.Bin?
      && nodes == {m} + Nodes(l) + Nodes(r) && m !in Nodes(l) && m !in Nodes(r) && Nodes(l) !! Nodes(r)
      && Range(m.key, m.length) == t.range && m.height == t.height
      && Holds(m.left, l, t.left) && Holds(m.right, r, t.right)
  }

  /** Set a node's height from its children's. */
  method UpdateHeight(n: AvlNode, ghost l: Shape, ghost r: Shape, ghost tl: Tree, ghost tr: Tree)
    requires n !in Nodes(l) && n !in Nodes(r) && Nodes(l) !! Nodes(r) && Holds(n.left, l, tl) && Holds(n.right, r, tr)
    modifies n`height
    ensures Holds(n, Join(n, l, r), Node(tl, Range(n.key, n.length), tr))
  {
    var lh := if n.left == null then 0 else n.left.height;
    var rh := if n.right == null then 0 else n.right.height;
    n.height := Max(lh, rh) + 1;
  }

  method RightRotateAt(y: AvlNode, ghost s: Shape, ghost t: Tree) returns (top: AvlNode, ghost s': Shape)
    requires Holds(y, s, t)
    modifies Nodes(s)
    ensures Holds(top, s', RightRotate(t)) && Nodes(s') == Nodes(s)
  {
    var x := y.left;
    if x == null {
      return y, s;
    }
    ghost var a, b, c := s.left.left, s.left.right, s.right;
    var t2 := x.right;
    x.right := y;
    y.left := t2;
    UpdateHeight(y, b, c, t.left.right, t.right);
    UpdateHeight(x, a, Join(y, b, c), t.left.left, Node(t.left.right, t.range, t.right));
    top, s' := x, Join(x, a, Join(y, b, c));
  }

  method LeftRotateAt(x: AvlNode, ghost s: Shape, ghost t: Tree) returns (top: AvlNode, ghost s': Shape)
    requires Holds(x, s, t)
    modifies Nodes(s)
    ensures Holds(top, s', LeftRotate(t)) && Nodes(s') == Nodes(s)
  {
    var y := x.right;
    if y == null {
      return x, s;
    }
    ghost var a, b, c := s.left, s.right.left, s.right.right;
    var t2 := y.left;
    y.left := x;
    x.right := t2;
    UpdateHeight(x, a, b, t.left, t.right.left);
    UpdateHeight(y, Join(x, a, b), c, Node(t.left, t.range, t.right.left), t.right.right);
    top, s' := y, Join(y, Join(x, a, b), c);
  }

  /** Insert a range; equal keys go to the right. */
  method InsertAtNode(n: AvlNode?, key: nat, length: nat, ghost s: Shape, ghost t: Tree) returns (top: AvlNode, ghost s': Shape)
    requires Holds(n, s, t)
    modifies Nodes(s)
    ensures Holds(top, s', Insert(t, Range(key, length))) && fresh(Nodes(s') - Nodes(s))
    decreases s
  {
    if n == null {
      top := new AvlNode(key, length);
      s' := Join(top, Empty, Empty);
      return;
    }
    ghost var s1, t1;
    if key < n.key {
      var l;
      ghost var sl;
      l, sl := InsertAtNode(n.left, key, length, s.left, t.left);
      n.left := l;
      UpdateHeight(n, sl, s.right, Insert(t.left, Range(key, length)), t.right);
      s1, t1 := Join(n, sl, s.right), Node(Insert(t.left, Range(key, length)), t.range, t.right);
    } else {
      var r;
      ghost var sr;
      r, sr := InsertAtNode(n.right, key, length, s.right, t.right);
      n.right := r;
      UpdateHeight(n, s.left, sr, t.left, Insert(t.right, Range(key, length)));
      s1, t1 := Join(n, s.left, sr), Node(t.left, t.range, Insert(t.right, Range(key, length)));
    }
    top, s' := RebalanceAt(n, key, s1, t1);
  }

  /** The four cases. */
  method RebalanceAt(n: AvlNode, key: nat, ghost s: Shape, ghost t: Tree) returns (top: AvlNode, ghost s': Shape)
    requires Holds(n, s, t)
    modifies Nodes(s)
    ensures Holds(top, s', Rebalance(t, key)) && Nodes(s') == Nodes(s)
  {
    var lh := if n.left == null then 0 else n.left.height;
    var rh := if n.right == null then 0 else n.right.height;
    var balance: int := lh - rh;
    if balance > 1 && n.left != null && key < n.left.key {
      top, s' := RightRotateAt(n, s, t);
    } else if balance < -1 && n.right != null && key > n.right.key {
      top, s' := LeftRotateAt(n, s, t);
    } else if balance > 1 && n.left != null && key > n.left.key {
      var l;
      ghost var sl;
      l, sl := LeftRotateAt(n.left, s.left, t.left);
      n.left := l;
      top, s' := RightRotateAt(n, Join(n, sl, s.right), t.(left := LeftRotate(t.left)));
    } else if balance < -1 && n.right != null && key < n.right.key {
      var r;
      ghost var sr;
      r, sr := RightRotateAt(n.right, s.right, t.right);
      n.right := r;
      top, s' := LeftRotateAt(n, Join(n, s.left, sr), t.(right := RightRotate(t.right)));
    } else {
      top, s' := n, s;
    }
  }

  /** The node of the range that holds an address. */
  method FindNode(n: AvlNode?, p: nat, ghost s: Shape, ghost t: Tree) returns (found: AvlNode?)
    requires Holds(n, s, t)
    ensures if found == null then Find(t, p).None? else Find(t, p) == Some(Range(found.key, found.length)) && found in Nodes(s)
    decreases s
  {
    if n == null {
      return null;
    }
    if p == n.key || (p >= n.key && p < n.key + n.length) {
      return n;
    }
    if p < n.key {
      found := FindNode(n.left, p, s.left, t.left);
    } else {
      found := FindNode(n.right, p, s.right, t.right);
    }
  }

  /** Another length in the node that the search finds makes the tree with that length. */
  method SetNodeLength(n: AvlNode?, p: nat, length: nat, ghost s: Shape, ghost t: Tree)
    requires Holds(n, s, t) && Find(t, p).Some?
    modifies Nodes(s)
    ensures Holds(n, s, SetLength(t, p, length))
    decreases s
  {
    if p == n.key || (p >= n.key && p < n.key + n.length) {
      n.length := length;
    } else if p < n.key {
      SetNodeLength(n.left, p, length, s.left, t.left);
    } else {
      SetNodeLength(n.right, p, length, s.right, t.right);
    }
  }

  lemma {:induction false} PutFacts(t: Tree, r: Range)
    requires SortedRanges(InOrder(t))
    ensures InOrder(Insert(t, r)) == InsertAt(InOrder(t), Place(InOrder(t), r.key), r) && SortedRanges(InOrder(Insert(t, r)))
    ensures Balanced(t) ==> (Balanced(Insert(t, r)) <==> !FallsThrough(t, r.key))
    ensures Balanced(t) && DisjointRanges(InOrder(t)) && Free(InOrder(t), r) ==> Balanced(Insert(t, r)) && DisjointRanges(InOrder(Insert(t, r)))
  {
    InsertInOrder(t, r);
    if Balanced(t) {
      BalancedExactly(t, r);
      if DisjointRanges(InOrder(t)) && Free(InOrder(t), r) {
        InsertDisjoint(t, r);
        NewKeyBalanced(t, r);
      }
    }
  }

  /** The index that the alias tables consult for the base of an object. */
  class AddressIndex {
    var root: AvlNode?
    ghost var shape: Shape
    ghost var tree: Tree

    /** The nodes hold a tree in order, whatever was put there. */
    ghost predicate Ordered()
      reads this, Nodes(shape)
    {
      Holds(root, shape, tree) && SortedRanges(InOrder(tree))
    }

    /** Beyond that the tree is balanced and the ranges lie apart. */
    ghost predicate Valid()
      reads this, Nodes(shape)
    {
      Ordered() && Balanced(tree) && DisjointRanges(InOrder(tree))
    }

    ghost function Ranges(): seq<Range>
      reads this
    {
      InOrder(tree)
    }

    constructor ()
      ensures Valid() && Ranges() == []
    {
      root := null;
      shape, tree := Empty, Nil;
    }

    /** Add a range, whatever is there already. The tree stays balanced unless the insertion
        falls through, and valid if the range overlaps none of the others. */
    method PutBasePtr(ptr: nat, size: nat)
      requires Ordered()
      modifies this, Nodes(shape)
      ensures Ordered() && fresh(Nodes(shape) - old(Nodes(shape)))
      ensures Ranges() == InsertAt(old(Ranges()), Place(old(Ranges()), ptr), Range(ptr, size))
      ensures old(Balanced(tree)) ==> (Balanced(tree) <==> !old(FallsThrough(tree, ptr)))
      ensures old(Valid() && Free(Ranges(), Range(ptr, size))) ==> Valid()
    {
      hide Insert, Rebalance, Balanced, FallsThrough, Repaired;
      PutFacts(tree, Range(ptr, size));
      root, shape := InsertAtNode(root, ptr, size, shape, tree);
      tree := Insert(tree, Range(ptr, size));
    }

    /** The base of the topmost range on the way of the search that holds the address, else the
        address itself. It is that of the range put last under the greatest key at or below the
        address if that range holds it; where the ranges lie apart it is that of whichever does. */
    method GetBasePtr(ptr: nat) returns (base: nat)
      requires Ordered()
      ensures var f := FirstHolding(Path(tree, ptr), ptr);
              && base == (if f.Some? then f.value.key else ptr)
              && (f.Some? ==> f.value in Ranges() && Contains(f.value, ptr))
      ensures ApartOrAgain(Ranges()) ==>
                var i := Place(Ranges(), ptr); i > 0 && Contains(Ranges()[i - 1], ptr) ==> base == Ranges()[i - 1].key
      ensures DisjointRanges(Ranges()) ==> forall x | x in Ranges() && Contains(x, ptr) :: base == x.key
      ensures (forall x | x in Ranges() :: !Contains(x, ptr)) ==> base == ptr
    {
      BaseInOrdered(tree, ptr);
      if DisjointRanges(Ranges()) { GetBasePtrIs(tree, ptr); }
      var n := FindNode(root, ptr, shape, tree);
      base := if n == null then ptr else n.key;
    }

    /** Change the length of the range that the search finds. Where the ranges lay apart they
        still do exactly if the new length fits before the next one. */
    method AdjBasePtrSize(base: nat, newsize: nat) returns (ghost i: nat)
      requires Ordered() && Find(tree, base).Some?
      modifies Nodes(shape), this`tree
      ensures i < |old(Ranges())| && Some(old(Ranges())[i]) == old(FirstHolding(Path(tree, base), base))
      ensures Ordered() && Ranges() == old(Ranges())[i := Range(old(Ranges())[i].key, newsize)]
      ensures old(Balanced(tree)) ==> Balanced(tree)
      ensures old(Valid()) ==> (Valid() <==> (i + 1 < |Ranges()| ==> Ranges()[i].key + newsize <= Ranges()[i + 1].key))
    {
      FindOnPath(tree, base);
      i := SetLengthIs(tree, base, newsize);
      SortedUpdate(Ranges(), i, newsize);
      if DisjointRanges(Ranges()) { LengthFits(Ranges(), i, newsize); }
      SetNodeLength(root, base, newsize, shape, tree);
      tree := SetLength(tree, base, newsize);
    }
  }

  lemma {:induction false} SortedUpdate(s: seq<Range>, i: nat, newsize: nat)
    requires SortedRanges(s) && i < |s|
    ensures SortedRanges(s[i := Range(s[i].key, newsize)])
  {
  }

  lemma {:induction false} LengthFits(s: seq<Range>, i: nat, newsize: nat)
    requires DisjointRanges(s) && i < |s|
    ensures var u := s[i := Range(s[i].key, newsize)];
            SortedRanges(u) && (DisjointRanges(u) <==> (i + 1 < |s| ==> s[i].key + newsize <= s[i + 1].key))
  {
    var u := s[i := Range(s[i].key, newsize)];
    if i + 1 < |s| && s[i].key + newsize > s[i + 1].key {
      assert u[i].key + u[i].length > u[i + 1].key;
    }
  }
}
