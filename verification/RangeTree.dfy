/** The balanced tree of address ranges, as a value: insertion with its rotations,
    and the search for the range that holds an address. */
module RangeTree {
  import opened Powers
  import opened Sequences
  import opened Wrappers

  datatype Range = Range(key: nat, length: nat)

  datatype Tree = Nil | Bin(left: Tree, range: Range, height: nat, right: Tree)

  function Height(t: Tree): nat {
    if t.Nil? then 0 else t.height
  }

  function Max(a: nat, b: nat): nat {
    if a > b then a else b
  }

  /** A node whose height is that of its children. */
  function Node(left: Tree, range: Range, right: Tree): Tree {
    Bin(left, range, Max(Height(left), Height(right)) + 1, right)
  }

  function Balance(t: Tree): int {
    if t.Nil? then 0 else Height(t.left) - Height(t.right)
  }

  function RightRotate(y: Tree): Tree
    requires y.Bin?
  {
    if y.left.Nil? then y else Node(y.left.left, y.left.range, Node(y.left.right, y.range, y.right))
  }

  function LeftRotate(x: Tree): Tree
    requires x.Bin?
  {
    if x.right.Nil? then x else Node(Node(x.left, x.range, x.right.left), x.right.range, x.right.right)
  }

  /** The four cases after one of the children has grown. A key equal to the heavy
      child's falls through all of them. */
  function Rebalance(t: Tree, key: nat): Tree
    requires t.Bin?
  {
    if Balance(t) > 1 && t.left.Bin? && key < t.left.range.key then RightRotate(t)
    else if Balance(t) < -1 && t.right.Bin? && key > t.right.range.key then LeftRotate(t)
    else if Balance(t) > 1 && t.left.Bin? && key > t.left.range.key then
      RightRotate(t.(left := LeftRotate(t.left)))
    else if Balance(t) < -1 && t.right.Bin? && key < t.right.range.key then
      LeftRotate(t.(right := RightRotate(t.right)))
    else t
  }

  function Insert(t: Tree, r: Range): (u: Tree)
    ensures u.Bin?
  {
    if t.Nil? then Bin(Nil, r, 1, Nil)
    else if r.key < t.range.key then Rebalance(Node(Insert(t.left, r), t.range, t.right), r.key)
    else Rebalance(Node(t.left, t.range, Insert(t.right, r)), r.key)
  }

  /** The ranges in order of the tree. */
  function InOrder(t: Tree): seq<Range> {
    if t.Nil? then [] else InOrder(t.left) + [t.range] + InOrder(t.right)
  }

  /** Heights are right and the two sides of every node differ by at most one. */
  ghost predicate Balanced(t: Tree) {
    t.Bin? ==>
      && Balanced(t.left) && Balanced(t.right)
      && t.height == Max(Height(t.left), Height(t.right)) + 1
      && -1 <= Balance(t) <= 1
  }

  ghost predicate SortedRanges(s: seq<Range>) {
    forall i, j | 0 <= i < j < |s| :: s[i].key <= s[j].key
  }

  ghost predicate NewKey(s: seq<Range>, key: nat) {
    forall i | 0 <= i < |s| :: s[i].key != key
  }

  /** How many ranges begin at or below a key. */
  function Place(s: seq<Range>, key: nat): (i: nat)
    ensures i <= |s|
  {
    if s == [] then 0 else if s[|s| - 1].key <= key then |s| else Place(s[..|s| - 1], key)
  }

  lemma {:induction false} RotationsKeepOrder(t: Tree)
    requires t.Bin?
    ensures InOrder(RightRotate(t)) == InOrder(t) && InOrder(LeftRotate(t)) == InOrder(t)
  {
    if t.left.Bin? {
      Reassoc(InOrder(t.left.left), t.left.range, InOrder(t.left.right), t.range, InOrder(t.right));
    }
    if t.right.Bin? {
      Reassoc(InOrder(t.left), t.range, InOrder(t.right.left), t.right.range, InOrder(t.right.right));
    }
  }

  lemma {:induction false} Reassoc<T>(a: seq<T>, x: T, b: seq<T>, y: T, c: seq<T>)
    ensures (a + [x] + b) + [y] + c == a + [x] + (b + [y] + c)
  {
  }

  lemma {:induction false} RebalanceKeepsOrder(t: Tree, key: nat)
    requires t.Bin?
    ensures InOrder(Rebalance(t, key)) == InOrder(t)
  {
    RotationsKeepOrder(t);
    if t.left.Bin? {
      RotationsKeepOrder(t.left);
      RotationsKeepOrder(t.(left := LeftRotate(t.left)));
    }
    if t.right.Bin? {
      RotationsKeepOrder(t.right);
      RotationsKeepOrder(t.(right := RightRotate(t.right)));
    }
  }

  lemma {:induction false} PlaceIs(s: seq<Range>, key: nat, i: nat)
    requires SortedRanges(s) && i <= |s| && (i > 0 ==> s[i - 1].key <= key) && (i < |s| ==> key < s[i].key)
    ensures Place(s, key) == i
  {
    if i < |s| {
      assert s[|s| - 1].key > key;
      PlaceIs(s[..|s| - 1], key, i);
    }
  }

  lemma {:induction false} PlaceBounds(s: seq<Range>, key: nat)
    requires SortedRanges(s)
    ensures var i := Place(s, key); (i > 0 ==> s[i - 1].key <= key) && (i < |s| ==> key < s[i].key)
  {
    if s != [] && s[|s| - 1].key > key {
      PlaceBounds(s[..|s| - 1], key);
    }
  }

  /** Insertion puts the range behind all that begin at or below its key, whatever
      rotations it makes on the way. */
  lemma {:induction false} InsertInOrder(t: Tree, r: Range)
    requires SortedRanges(InOrder(t))
    ensures InOrder(Insert(t, r)) == InsertAt(InOrder(t), Place(InOrder(t), r.key), r)
    ensures SortedRanges(InOrder(Insert(t, r)))
  {
    hide Rebalance, Place;
    if t.Bin? {
      var l, x, rt := InOrder(t.left), t.range, InOrder(t.right);
      SortedSides(l, x, rt);
      if r.key < x.key {
        InsertInOrder(t.left, r);
        RebalanceKeepsOrder(Node(Insert(t.left, r), x, t.right), r.key);
        PlaceLeft(l, x, rt, r);
      } else {
        InsertInOrder(t.right, r);
        RebalanceKeepsOrder(Node(t.left, x, Insert(t.right, r)), r.key);
        PlaceRight(l, x, rt, r);
      }
    }
    PlaceBounds(InOrder(t), r.key);
    SortedInsert(InOrder(t), Place(InOrder(t), r.key), r);
  }

  lemma {:induction false} SortedSides(l: seq<Range>, x: Range, r: seq<Range>)
    requires SortedRanges(l + [x] + r)
    ensures SortedRanges(l) && SortedRanges(r)
  {
    var s := l + [x] + r;
    assert forall i | 0 <= i < |l| :: s[i] == l[i];
    assert forall i | 0 <= i < |r| :: s[|l| + 1 + i] == r[i];
  }

  lemma {:induction false} InsertInFront<T>(a: seq<T>, b: seq<T>, i: nat, x: T)
    requires i <= |a|
    ensures InsertAt(a + b, i, x) == InsertAt(a, i, x) + b
  {
  }

  lemma {:induction false} InsertBehind<T>(a: seq<T>, b: seq<T>, i: nat, x: T)
    requires i <= |b|
    ensures InsertAt(a + b, |a| + i, x) == a + InsertAt(b, i, x)
  {
  }

  lemma {:induction false} PlaceInLeft(l: seq<Range>, x: Range, r: seq<Range>, key: nat)
    requires SortedRanges(l + [x] + r) && SortedRanges(l) && key < x.key
    ensures Place(l + [x] + r, key) == Place(l, key)
  {
    var i := Place(l, key);
    PlaceBounds(l, key);
    assert (l + [x] + r)[i] == if i < |l| then l[i] else x;
    assert i > 0 ==> (l + [x] + r)[i - 1] == l[i - 1];
    PlaceIs(l + [x] + r, key, i);
  }

  lemma {:induction false} PlaceInRight(l: seq<Range>, x: Range, r: seq<Range>, key: nat)
    requires SortedRanges(l + [x] + r) && SortedRanges(r) && x.key <= key
    ensures Place(l + [x] + r, key) == |l| + 1 + Place(r, key)
  {
    var i := Place(r, key);
    PlaceBounds(r, key);
    assert i < |r| ==> (l + [x] + r)[|l| + 1 + i] == r[i];
    assert (l + [x] + r)[|l| + i] == if i > 0 then r[i - 1] else x;
    PlaceIs(l + [x] + r, key, |l| + 1 + i);
  }

  lemma {:induction false} PlaceLeft(l: seq<Range>, x: Range, rt: seq<Range>, r: Range)
    requires SortedRanges(l + [x] + rt) && SortedRanges(l) && r.key < x.key
    ensures InsertAt(l + [x] + rt, Place(l + [x] + rt, r.key), r) == InsertAt(l, Place(l, r.key), r) + [x] + rt
  {
    var i := Place(l, r.key);
    PlaceInLeft(l, x, rt, r.key);
    InsertInFront(l + [x], rt, i, r);
    InsertInFront(l, [x], i, r);
  }

  lemma {:induction false} PlaceRight(l: seq<Range>, x: Range, rt: seq<Range>, r: Range)
    requires SortedRanges(l + [x] + rt) && SortedRanges(rt) && x.key <= r.key
    ensures InsertAt(l + [x] + rt, Place(l + [x] + rt, r.key), r) == l + [x] + InsertAt(rt, Place(rt, r.key), r)
  {
    var i := Place(rt, r.key);
    PlaceInRight(l, x, rt, r.key);
    InsertBehind(l + [x], rt, i, r);
  }

  lemma {:induction false} SortedInsert(s: seq<Range>, i: nat, r: Range)
    requires SortedRanges(s) && i <= |s| && (i > 0 ==> s[i - 1].key <= r.key) && (i < |s| ==> r.key < s[i].key)
    ensures SortedRanges(InsertAt(s, i, r))
  {
  }

  /** A balanced tree is at most twice as high as the logarithm of its size. */
  lemma {:induction false} LogarithmicHeight(t: Tree)
    requires Balanced(t)
    ensures Pow2(Height(t) / 2) <= |InOrder(t)| + 1
    ensures Height(t) >= 1 ==> Pow2((Height(t) - 1) / 2) <= |InOrder(t)|
  {
    if t.Bin? {
      LogarithmicHeight(t.left);
      LogarithmicHeight(t.right);
      HeightStep(t.height, Height(t.left), Height(t.right), |InOrder(t.left)|, |InOrder(t.right)|);
    }
  }

  /** From the sizes of two subtrees to that of the tree above them. */
  lemma {:induction false} HeightStep(h: nat, l: nat, r: nat, nl: nat, nr: nat)
    requires h == Max(l, r) + 1 && -1 <= l - r <= 1
    requires Pow2(l / 2) <= nl + 1 && Pow2(r / 2) <= nr + 1
    requires (l >= 1 ==> Pow2((l - 1) / 2) <= nl) && (r >= 1 ==> Pow2((r - 1) / 2) <= nr)
    ensures Pow2(h / 2) <= nl + nr + 2 && Pow2((h - 1) / 2) <= nl + nr + 1
  {
    if h >= 2 {
      Pow2Grows((h - 2) / 2, l / 2);
      Pow2Grows((h - 2) / 2, r / 2);
    }
  }

  // ---- Searching ----

  /** Whether an address is in a range; its base always counts. */
  predicate Contains(r: Range, p: nat) {
    p == r.key || r.key <= p < r.key + r.length
  }

  function Find(t: Tree, p: nat): Option<Range> {
    if t.Nil? then None
    else if Contains(t.range, p) then Some(t.range)
    else if p < t.range.key then Find(t.left, p)
    else Find(t.right, p)
  }

  function GetBasePtr(t: Tree, p: nat): nat {
    if Find(t, p).None? then p else Find(t, p).value.key
  }

  /** Ranges that begin at different addresses and do not overlap. */
  ghost predicate DisjointRanges(s: seq<Range>) {
    forall i, j | 0 <= i < j < |s| :: s[i].key < s[j].key && s[i].key + s[i].length <= s[j].key
  }

  lemma {:induction false} DisjointParts(l: seq<Range>, x: Range, r: seq<Range>)
    requires DisjointRanges(l + [x] + r)
    ensures DisjointRanges(l) && DisjointRanges(r)
    ensures forall i | 0 <= i < |l| :: l[i].key < x.key && l[i].key + l[i].length <= x.key
    ensures forall i | 0 <= i < |r| :: x.key < r[i].key && x.key + x.length <= r[i].key
  {
    var s := l + [x] + r;
    assert forall i | 0 <= i < |l| :: s[i] == l[i];
    assert s[|l|] == x;
    assert forall i | 0 <= i < |r| :: s[|l| + 1 + i] == r[i];
  }

  /** The search finds the one range that holds the address, if there is one. */
  lemma {:induction false} FindIs(t: Tree, p: nat)
    requires DisjointRanges(InOrder(t))
    ensures forall x | x in InOrder(t) :: Contains(x, p) ==> Find(t, p) == Some(x)
    ensures Find(t, p).Some? ==> Find(t, p).value in InOrder(t) && Contains(Find(t, p).value, p)
  {
    if t.Bin? {
      DisjointParts(InOrder(t.left), t.range, InOrder(t.right));
      FindIs(t.left, p);
      FindIs(t.right, p);
    }
  }

  /** The base of the range that holds the address, or the address itself. */
  lemma {:induction false} GetBasePtrIs(t: Tree, p: nat)
    requires DisjointRanges(InOrder(t))
    ensures forall x | x in InOrder(t) :: Contains(x, p) ==> GetBasePtr(t, p) == x.key
    ensures (forall x | x in InOrder(t) :: !Contains(x, p)) ==> GetBasePtr(t, p) == p
  {
    FindIs(t, p);
  }

  // ---- Searching where ranges repeat or overlap ----

  /** The ranges that a search for an address comes past, from the root to the bottom. */
  function Path(t: Tree, p: nat): seq<Range> {
    if t.Nil? then [] else [t.range] + Path(if p < t.range.key then t.left else t.right, p)
  }

  function FirstHolding(s: seq<Range>, p: nat): Option<Range> {
    if s == [] then None else if Contains(s[0], p) then Some(s[0]) else FirstHolding(s[1..], p)
  }

  lemma {:induction false} FirstHoldingIs(s: seq<Range>, p: nat)
    ensures FirstHolding(s, p).Some? ==> FirstHolding(s, p).value in s && Contains(FirstHolding(s, p).value, p)
    ensures FirstHolding(s, p).None? ==> forall x | x in s :: !Contains(x, p)
  {
    if s != [] {
      FirstHoldingIs(s[1..], p);
    }
  }

  /** In any tree the search finds the topmost range on its way that holds the address. */
  lemma {:induction false} FindOnPath(t: Tree, p: nat)
    ensures Find(t, p) == FirstHolding(Path(t, p), p)
    ensures forall x | x in Path(t, p) :: x in InOrder(t)
  {
    if t.Bin? {
      FindOnPath(t.left, p);
      FindOnPath(t.right, p);
      assert Path(t, p)[1..] == Path(if p < t.range.key then t.left else t.right, p);
    }
  }

  /** Of the ranges that begin at or below the address the last is on the way. */
  lemma {:induction false} LastOnPath(t: Tree, p: nat)
    requires SortedRanges(InOrder(t)) && Place(InOrder(t), p) > 0
    ensures InOrder(t)[Place(InOrder(t), p) - 1] in Path(t, p)
  {
    hide Place, SortedRanges;
    var l, x, r := InOrder(t.left), t.range, InOrder(t.right);
    var s := l + [x] + r;
    SortedSides(l, x, r);
    if p < x.key {
      PlaceInLeft(l, x, r, p);
      assert s[Place(l, p) - 1] == l[Place(l, p) - 1];
      LastOnPath(t.left, p);
    } else {
      PlaceInRight(l, x, r, p);
      assert s[|l|] == x;
      if Place(r, p) > 0 {
        assert s[|l| + Place(r, p)] == r[Place(r, p) - 1];
        LastOnPath(t.right, p);
      }
    }
  }

  /** Ranges apart except for those put again under the same key. */
  ghost predicate ApartOrAgain(s: seq<Range>) {
    forall i, j | 0 <= i < j < |s| :: s[i].key == s[j].key || s[i].key + s[i].length <= s[j].key
  }

  /** What the search gives in any ordered tree. The range put last under the greatest key at
      or below the address is never missed; an older one with that key may be. */
  lemma {:induction false} BaseInOrdered(t: Tree, p: nat)
    requires SortedRanges(InOrder(t))
    ensures var s, i, f := InOrder(t), Place(InOrder(t), p), FirstHolding(Path(t, p), p);
            && GetBasePtr(t, p) == (if f.Some? then f.value.key else p)
            && (f.Some? ==> f.value in s && Contains(f.value, p))
            && (i > 0 && Contains(s[i - 1], p) ==> f.Some?)
            && (i > 0 && Contains(s[i - 1], p) && ApartOrAgain(s) ==> GetBasePtr(t, p) == s[i - 1].key)
  {
    var s, i, path := InOrder(t), Place(InOrder(t), p), Path(t, p);
    FindOnPath(t, p);
    FirstHoldingIs(path, p);
    if i > 0 && Contains(s[i - 1], p) {
      LastOnPath(t, p);
      if ApartOrAgain(s) {
        OneKeyHolds(s, p, FirstHolding(path, p).value);
      }
    }
  }

  lemma {:induction false} OneKeyHolds(s: seq<Range>, p: nat, x: Range)
    requires SortedRanges(s) && ApartOrAgain(s) && x in s && Contains(x, p)
    ensures Place(s, p) > 0 && x.key == s[Place(s, p) - 1].key
  {
    var j :| 0 <= j < |s| && s[j] == x;
    PlaceBounds(s, p);
    BesidePlace(s, p, j);
  }

  /** A range that overlaps none of the others. */
  ghost predicate Free(s: seq<Range>, r: Range) {
    forall x | x in s :: if x.key < r.key then x.key + x.length <= r.key else r.key < x.key && r.key + r.length <= x.key
  }

  /** Inserting such a range keeps the ranges apart. */
  lemma {:induction false} InsertDisjoint(t: Tree, r: Range)
    requires DisjointRanges(InOrder(t)) && Free(InOrder(t), r)
    ensures DisjointRanges(InOrder(Insert(t, r))) && NewKey(InOrder(t), r.key)
  {
    var s := InOrder(t);
    InsertInOrder(t, r);
    PlaceBounds(s, r.key);
    var i := Place(s, r.key);
    forall j | 0 <= j < |s| ensures if j < i then s[j].key < r.key && s[j].key + s[j].length <= r.key else r.key < s[j].key && r.key + r.length <= s[j].key {
      assert s[j] in s;
      BesidePlace(s, r.key, j);
    }
    DisjointInsert(s, i, r);
  }

  lemma {:induction false} BesidePlace(s: seq<Range>, key: nat, j: nat)
    requires SortedRanges(s) && j < |s|
    ensures j < Place(s, key) ==> s[j].key <= key
    ensures j >= Place(s, key) ==> key < s[j].key
  {
    PlaceBounds(s, key);
  }

  lemma {:induction false} DisjointInsert(s: seq<Range>, i: nat, r: Range)
    requires DisjointRanges(s) && i <= |s|
    requires forall j | 0 <= j < i :: s[j].key < r.key && s[j].key + s[j].length <= r.key
    requires forall j | i <= j < |s| :: r.key < s[j].key && r.key + r.length <= s[j].key
    ensures DisjointRanges(InsertAt(s, i, r))
  {
  }

  /** The tree with another length for the range that the search finds. */
  function SetLength(t: Tree, p: nat, length: nat): (u: Tree)
    ensures u.Nil? == t.Nil?
  {
    if t.Nil? then Nil
    else if Contains(t.range, p) then t.(range := Range(t.range.key, length))
    else if p < t.range.key then t.(left := SetLength(t.left, p, length))
    else t.(right := SetLength(t.right, p, length))
  }

  /** Only that range changes, and nothing about the shape of the tree. */
  lemma {:induction false} SetLengthIs(t: Tree, p: nat, length: nat) returns (i: nat)
    requires Find(t, p).Some?
    ensures i < |InOrder(t)| && InOrder(t)[i] == Find(t, p).value
    ensures InOrder(SetLength(t, p, length)) == InOrder(t)[i := Range(InOrder(t)[i].key, length)]
    ensures Height(SetLength(t, p, length)) == Height(t) && (Balanced(t) ==> Balanced(SetLength(t, p, length)))
  {
    if Contains(t.range, p) {
      i := |InOrder(t.left)|;
    } else if p < t.range.key {
      i := SetLengthIs(t.left, p, length);
    } else {
      var j := SetLengthIs(t.right, p, length);
      i := |InOrder(t.left)| + 1 + j;
    }
  }
}
