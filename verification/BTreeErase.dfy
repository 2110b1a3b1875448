/** Erasure from the B+ tree: descend with the neighbours of each node at hand,
    remove the key from its leaf, and repair underflows on the way back up. */
module BTreeErase {
  import opened Sequences
  import opened OrderedItems
  import opened Wrappers
  import opened BTreeModel

  /** A neighbour at the same depth: absent, under another parent, or under the
      same parent. A sibling comes with the separator between it and the node. */
  datatype Neighbour = Nobody | Cousin(t: Tree) | Sibling(t: Tree, sep: Key)

  /** What a call returns: the flags, and the nodes it may have changed. */
  datatype Outcome =
    | NotFound
    | Erased(curr: Tree, left: Neighbour, right: Neighbour, lastkey: Option<Key>, fixmerge: bool)

  /** The repair chosen for a node that underflows. A merge empties the right one
      of the two nodes; a shift moves slots in the direction it is named after. */
  datatype Fix = MergeLeft | MergeRight | ShiftLeft | ShiftRight

  predicate AbsentOrFew(n: Neighbour) {
    n.Nobody? || SlotUse(n.t) <= MinFill(n.t)
  }

  /** The cascade of cases, with `leftparent == parent` read as: the left
      neighbour is a sibling. */
  function ChooseFix(left: Neighbour, right: Neighbour): (f: Fix)
    requires left.Sibling? || right.Sibling?
    ensures f.MergeLeft? || f.ShiftRight? ==> left.Sibling?
    ensures f.MergeRight? || f.ShiftLeft? ==> right.Sibling?
    ensures f.MergeLeft? ==> AbsentOrFew(left)
    ensures f.MergeRight? ==> AbsentOrFew(right)
    ensures f.ShiftLeft? ==> !AbsentOrFew(right)
    ensures f.ShiftRight? ==> !AbsentOrFew(left)
  {
    if AbsentOrFew(left) && AbsentOrFew(right) then
      if left.Sibling? then MergeLeft else MergeRight
    else if !left.Nobody? && AbsentOrFew(left) && !AbsentOrFew(right) then
      if right.Sibling? then ShiftLeft else MergeLeft
    else if !AbsentOrFew(left) && !right.Nobody? && AbsentOrFew(right) then
      if left.Sibling? then ShiftRight else MergeRight
    else if left.Sibling? && right.Sibling? then
      if SlotUse(left.t) <= SlotUse(right.t) then ShiftLeft else ShiftRight
    else
      if left.Sibling? then ShiftRight else ShiftLeft
  }

  /** A sibling with more slots in use than a node needs. */
  predicate CanLend(n: Neighbour) {
    n.Sibling? && SlotUse(n.t) > MinFill(n.t)
  }

  /** What the cascade comes to, whatever cousins there are: the fuller of the siblings that can
      lend does, at a tie the right one; only when none can is there a merge, with the left
      sibling if there is one. */
  lemma {:induction false} RepairByCounts(left: Neighbour, right: Neighbour)
    requires left.Sibling? || right.Sibling?
    ensures var f := ChooseFix(left, right);
            && (f.ShiftLeft? <==> CanLend(right) && (CanLend(left) ==> SlotUse(left.t) <= SlotUse(right.t)))
            && (f.ShiftRight? <==> CanLend(left) && (CanLend(right) ==> SlotUse(left.t) > SlotUse(right.t)))
            && (f.MergeLeft? <==> !CanLend(left) && !CanLend(right) && left.Sibling?)
            && (f.MergeRight? <==> !CanLend(left) && !CanLend(right) && !left.Sibling?)
  {
  }

  /** A neighbour is a well-formed node of the same depth. */
  ghost predicate Fits(level: nat, n: Neighbour) {
    n.Nobody? || (Level(n.t) == level && Shape(n.t, MinFill(n.t)))
  }

  /** The root has no neighbours; any other node has a sibling. */
  ghost predicate Context(level: nat, left: Neighbour, right: Neighbour) {
    && Fits(level, left) && Fits(level, right)
    && (left.Sibling? || right.Sibling? || (left.Nobody? && right.Nobody?))
  }

  predicate AtRoot(left: Neighbour, right: Neighbour) {
    left.Nobody? && right.Nobody?
  }

  /** Siblings stay siblings, and a merge leaves an emptied node where the level
      above will look for it. */
  ghost predicate Usable(left: Neighbour, right: Neighbour, o: Outcome) {
    o.Erased? ==>
      && (left.Sibling? ==> o.left.Sibling?)
      && (right.Sibling? ==> o.right.Sibling?)
      && (o.fixmerge ==> if SlotUse(o.curr) != 0 then right.Sibling? else left.Sibling?)
  }

  function FixLeaf(items: seq<Item>, left: Neighbour, right: Neighbour, lastkey: Option<Key>): (o: Outcome)
    requires Context(0, left, right)
    ensures Usable(left, right, o)
  {
    if |items| >= minleafslots || (AtRoot(left, right) && |items| >= 1) then
      Erased(Leaf(items), left, right, lastkey, false)
    else if AtRoot(left, right) then
      Erased(Leaf([]), left, right, None, false)
    else
      match ChooseFix(left, right)
      case MergeLeft =>
        Erased(Leaf([]), Sibling(Leaf(left.t.items + items), left.sep), right, lastkey, true)
      case MergeRight =>
        Erased(Leaf(items + right.t.items), left, Sibling(Leaf([]), right.sep), lastkey, true)
      case ShiftLeft =>
        var r := right.t.items;
        var n := (|r| - |items|) / 2;
        var l' := items + r[..n];
        Erased(Leaf(l'), left, Sibling(Leaf(r[n..]), LastKey(l')), lastkey, false)
      case ShiftRight =>
        var l := left.t.items;
        var n := (|l| - |items|) / 2;
        var l' := l[..|l| - n];
        Erased(Leaf(l[|l| - n..] + items), Sibling(Leaf(l'), LastKey(l')), right, lastkey, false)
  }

  function EraseLeaf(items: seq<Item>, k: Key, left: Neighbour, right: Neighbour): (o: Outcome)
    requires Context(0, left, right)
    ensures Usable(left, right, o)
  {
    var slot := LowerSlot(Keys(items), k);
    if slot >= |items| || items[slot].key != k then
      NotFound
    else
      var items' := RemoveAt(items, slot);
      if slot < |items'| then FixLeaf(items', left, right, None)
      else if right.Sibling? then FixLeaf(items', left, right.(sep := LastKey(items')), None)
      else FixLeaf(items', left, right, if items' == [] then None else Some(LastKey(items')))
  }

  function FixInner(t: Tree, left: Neighbour, right: Neighbour, lastkey: Option<Key>): (o: Outcome)
    requires t.Inner? && t.level >= 1 && |t.kids| == |t.keys| + 1
    requires Context(t.level, left, right)
    ensures Usable(left, right, o)
  {
    if |t.keys| >= mininnerslots || (AtRoot(left, right) && |t.keys| >= 1) then
      Erased(t, left, right, lastkey, false)
    else if AtRoot(left, right) then
      Erased(t.kids[0], left, right, None, false)
    else
      match ChooseFix(left, right)
      case MergeLeft =>
        var l := left.t;
        var l' := Inner(t.level, l.keys + [left.sep] + t.keys, l.kids + t.kids);
        Erased(Inner(t.level, [], []), Sibling(l', left.sep), right, lastkey, true)
      case MergeRight =>
        var r := right.t;
        var t' := Inner(t.level, t.keys + [right.sep] + r.keys, t.kids + r.kids);
        Erased(t', left, Sibling(Inner(t.level, [], []), right.sep), lastkey, true)
      case ShiftLeft =>
        var r := right.t;
        var n := (|r.keys| - |t.keys|) / 2;
        var t' := Inner(t.level, t.keys + [right.sep] + r.keys[..n - 1], t.kids + r.kids[..n]);
        Erased(t', left, Sibling(Inner(t.level, r.keys[n..], r.kids[n..]), r.keys[n - 1]), lastkey, false)
      case ShiftRight =>
        var l := left.t;
        var m := |l.keys| - (|l.keys| - |t.keys|) / 2;
        var t' := Inner(t.level, l.keys[m + 1..] + [left.sep] + t.keys, l.kids[m + 1..] + t.kids);
        Erased(t', Sibling(Inner(t.level, l.keys[..m], l.kids[..m + 1]), l.keys[m]), right, lastkey, false)
  }

  /** The left neighbour of child `slot`. Across a parent the code takes the last
      but one child of the left node. */
  function LeftOf(t: Tree, slot: nat, left: Neighbour): (n: Neighbour)
    requires t.Inner? && Linked(t) && slot <= |t.keys| && Fits(t.level, left)
    ensures Fits(t.level - 1, n)
    ensures n.Sibling? <==> slot > 0
  {
    if slot > 0 then Sibling(t.kids[slot - 1], t.keys[slot - 1])
    else if left.Nobody? then Nobody
    else Cousin(left.t.kids[|left.t.keys| - 1])
  }

  function RightOf(t: Tree, slot: nat, right: Neighbour): (n: Neighbour)
    requires t.Inner? && Linked(t) && slot <= |t.keys| && Fits(t.level, right)
    ensures Fits(t.level - 1, n)
    ensures n.Sibling? <==> slot < |t.keys|
  {
    if slot < |t.keys| then Sibling(t.kids[slot + 1], t.keys[slot])
    else if right.Nobody? then Nobody
    else Cousin(right.t.kids[0])
  }

  /** The node after the call on child `slot`: that child and its siblings may
      have changed, and so may the separators beside it. */
  function PutBack(t: Tree, slot: nat, o: Outcome): Tree
    requires t.Inner? && |t.kids| == |t.keys| + 1 && slot <= |t.keys|
    requires o.Erased? && (slot > 0 ==> o.left.Sibling?) && (slot < |t.keys| ==> o.right.Sibling?)
  {
    var kids, keys := t.kids[slot := o.curr], t.keys;
    var (kids, keys) := if slot > 0 then (kids[slot - 1 := o.left.t], keys[slot - 1 := o.left.sep]) else (kids, keys);
    var (kids, keys) := if slot < |keys| then (kids[slot + 1 := o.right.t], keys[slot := o.right.sep]) else (kids, keys);
    Inner(t.level, keys, kids)
  }

  /** Remove the child that a merge has emptied: child `slot` or the next one. */
  function DropEmptied(t: Tree, slot: nat): Tree
    requires t.Inner? && |t.kids| == |t.keys| + 1 && slot <= |t.keys|
    requires if SlotUse(t.kids[slot]) != 0 then slot < |t.keys| else slot > 0
  {
    var s := if SlotUse(t.kids[slot]) != 0 then slot + 1 else slot;
    var keys, kids := RemoveAt(t.keys, s - 1), RemoveAt(t.kids, s);
    if t.level == 1 && s - 1 < |keys| then
      Inner(t.level, keys[s - 1 := LastKey(Items(kids[s - 1]))], kids)
    else
      Inner(t.level, keys, kids)
  }

  /** The work left in an inner node once the call on child `slot` has returned. */
  function EraseReturn(t: Tree, slot: nat, o: Outcome, left: Neighbour, right: Neighbour): (u: Outcome)
    requires t.Inner? && t.level >= 1 && |t.kids| == |t.keys| + 1 && slot <= |t.keys|
    requires Context(t.level, left, right) && ShapeOfOutcome(t, slot, o)
    ensures Usable(left, right, u)
  {
    var t1 := PutBack(t, slot, o);
    var t2 := if o.fixmerge then DropEmptied(t1, slot) else t1;
    if o.lastkey.Some? && right.Sibling? then
      FixInner(t2, left, right.(sep := o.lastkey.value), None)
    else
      FixInner(t2, left, right, o.lastkey)
  }

  /** What makes an outcome of child `slot` usable at all. */
  ghost predicate ShapeOfOutcome(t: Tree, slot: nat, o: Outcome)
    requires t.Inner?
  {
    && o.Erased?
    && (slot > 0 ==> o.left.Sibling?) && (slot < |t.keys| ==> o.right.Sibling?)
    && (o.fixmerge ==> if SlotUse(o.curr) != 0 then slot < |t.keys| else slot > 0)
  }

  function EraseDescend(t: Tree, k: Key, left: Neighbour, right: Neighbour): (o: Outcome)
    requires Shape(t, 1) && Context(Level(t), left, right)
    ensures Usable(left, right, o)
    decreases t
  {
    if t.Leaf? then EraseLeaf(t.items, k, left, right)
    else
      var slot := LowerSlot(t.keys, k);
      var o := EraseDescend(t.kids[slot], k, LeftOf(t, slot, left), RightOf(t, slot, right));
      if o.NotFound? then NotFound else EraseReturn(t, slot, o, left, right)
  }

  /** `erase_one` on a whole tree, null or not. */
  function EraseOne(root: Option<Tree>, k: Key): (Option<Tree>, bool)
    requires root.Some? ==> Shape(root.value, 1)
  {
    if root.None? then (None, false)
    else
      var o := EraseDescend(root.value, k, Nobody, Nobody);
      if o.NotFound? then (root, false)
      else (if o.curr == Leaf([]) then None else Some(o.curr), true)
  }
}
