/** Moving slots between two nodes: the loops of splits, merges and shifts. */
module BTreeMoves {
  import opened Sequences
  import opened OrderedItems
  import opened BTreeModel
  import opened BTreeNode

  /** A loop that copies slots from one leaf to another. */
  method CopyLeafSlots(dst: Node, at: nat, src: Node, from: nat, n: nat)
    requires dst != src && from + n <= |src.slotkey| == |src.slotdata| && at + n <= |dst.slotkey| == |dst.slotdata|
    modifies dst`slotkey, dst`slotdata
    ensures dst.slotkey == Over(old(dst.slotkey), at, src.slotkey[from..from + n])
    ensures dst.slotdata == Over(old(dst.slotdata), at, src.slotdata[from..from + n])
  {
    hide Over;
    ghost var keys, data := dst.slotkey, dst.slotdata;
    NothingOver(keys, at);
    NothingOver(data, at);
    for i := 0 to n
      invariant dst.slotkey == Over(keys, at, src.slotkey[from..from + i])
      invariant dst.slotdata == Over(data, at, src.slotdata[from..from + i])
    {
      CopyStep(keys, at, src.slotkey, from, i);
      CopyStep(data, at, src.slotdata, from, i);
      dst.slotkey := dst.slotkey[at + i := src.slotkey[from + i]];
      dst.slotdata := dst.slotdata[at + i := src.slotdata[from + i]];
    }
  }

  /** The loop that closes up a leaf whose first `n` slots are gone. */
  method CloseUpLeaf(leaf: Node, n: nat)
    requires n + leaf.slotuse <= |leaf.slotkey| == |leaf.slotdata|
    modifies leaf`slotkey, leaf`slotdata
    ensures leaf.slotkey == Over(old(leaf.slotkey), 0, old(leaf.slotkey)[n..n + leaf.slotuse])
    ensures leaf.slotdata == Over(old(leaf.slotdata), 0, old(leaf.slotdata)[n..n + leaf.slotuse])
  {
    hide Over;
    ghost var keys, data := leaf.slotkey, leaf.slotdata;
    NothingOver(keys, 0);
    NothingOver(data, 0);
    for i := 0 to leaf.slotuse
      invariant leaf.slotkey == Over(keys, 0, keys[n..n + i])
      invariant leaf.slotdata == Over(data, 0, data[n..n + i])
    {
      CloseStep(keys, n, i);
      CloseStep(data, n, i);
      leaf.slotkey := leaf.slotkey[i := leaf.slotkey[i + n]];
      leaf.slotdata := leaf.slotdata[i := leaf.slotdata[i + n]];
    }
  }

  /** The loop that makes room for `n` slots in front, last slot first. */
  method MakeRoomLeaf(leaf: Node, n: nat)
    requires n + leaf.slotuse <= |leaf.slotkey| == |leaf.slotdata|
    modifies leaf`slotkey, leaf`slotdata
    ensures leaf.slotkey == Over(old(leaf.slotkey), n, old(leaf.slotkey)[..leaf.slotuse])
    ensures leaf.slotdata == Over(old(leaf.slotdata), n, old(leaf.slotdata)[..leaf.slotuse])
  {
    hide Over;
    ghost var keys, data, used := leaf.slotkey, leaf.slotdata, leaf.slotuse;
    NothingOver(keys, used + n);
    NothingOver(data, used + n);
    var i: int := leaf.slotuse - 1;
    while i >= 0
      invariant -1 <= i < used == leaf.slotuse
      invariant leaf.slotkey == Over(keys, i + 1 + n, keys[i + 1..used])
      invariant leaf.slotdata == Over(data, i + 1 + n, data[i + 1..used])
    {
      RoomStep(keys, n, i, used);
      RoomStep(data, n, i, used);
      leaf.slotkey := leaf.slotkey[i + n := leaf.slotkey[i]];
      leaf.slotdata := leaf.slotdata[i + n := leaf.slotdata[i]];
      i := i - 1;
    }
  }

  ghost function DataOf(items: seq<Item>): (d: seq<Data>)
    ensures |d| == |items| && forall i | 0 <= i < |items| :: d[i] == items[i].data
  {
    seq(|items|, i requires 0 <= i < |items| => items[i].data)
  }

  lemma {:induction false} LeafStarts(leaf: Node, items: seq<Item>)
    requires LeafHolds(leaf, items)
    ensures Starts(leaf.slotkey, Keys(items)) && Starts(leaf.slotdata, DataOf(items))
  {
  }

  lemma {:induction false} LeafOfStarts(leaf: Node, items: seq<Item>)
    requires leaf.level == 0 && leaf.slotuse == |items| && |leaf.slotkey| == |leaf.slotdata| == leafslotmax
    requires Starts(leaf.slotkey, Keys(items)) && Starts(leaf.slotdata, DataOf(items))
    ensures LeafHolds(leaf, items)
  {
    forall i | 0 <= i < |items| ensures leaf.slotkey[i] == items[i].key && leaf.slotdata[i] == items[i].data {
      assert Keys(items)[i] == items[i].key && DataOf(items)[i] == items[i].data;
    }
  }

  lemma {:induction false} ItemsInParts(a: seq<Item>, b: seq<Item>)
    ensures Keys(a + b) == Keys(a) + Keys(b) && DataOf(a + b) == DataOf(a) + DataOf(b)
  {
  }

  lemma {:induction false} ItemsSliced(a: seq<Item>, i: nat, j: nat)
    requires i <= j <= |a|
    ensures Keys(a[i..j]) == Keys(a)[i..j] && DataOf(a[i..j]) == DataOf(a)[i..j]
  {
  }

  lemma {:induction false} StartsSlice<T>(s: seq<T>, t: seq<T>, i: nat, j: nat)
    requires Starts(s, t) && i <= j <= |t|
    ensures s[i..j] == t[i..j]
  {
  }

  /** The arrays of a leaf that has taken slots `i` to `j` of another one behind its own. */
  lemma {:induction false} LeafAppended(keys: seq<Key>, data: seq<Data>, keys2: seq<Key>, data2: seq<Data>, a: seq<Item>, b: seq<Item>, i: nat, j: nat)
    requires Starts(keys, Keys(a)) && Starts(data, DataOf(a)) && Starts(keys2, Keys(b)) && Starts(data2, DataOf(b))
    requires i <= j <= |b| && |a| + j - i <= |keys| == |data|
    ensures Starts(Over(keys, |a|, keys2[i..j]), Keys(a + b[i..j])) && Starts(Over(data, |a|, data2[i..j]), DataOf(a + b[i..j]))
  {
    hide Over;
    ItemsInParts(a, b[i..j]);
    ItemsSliced(b, i, j);
    StartsSlice(keys2, Keys(b), i, j);
    StartsSlice(data2, DataOf(b), i, j);
    StartsAppended(keys, Keys(a), Keys(b[i..j]));
    StartsAppended(data, DataOf(a), DataOf(b[i..j]));
  }

  /** The copying loop of `split_leaf_node`. */
  method SplitLeafSlots(leaf: Node, newleaf: Node, ghost items: seq<Item>)
    requires leaf != newleaf && LeafHolds(leaf, items) && LeafHolds(newleaf, [])
    modifies leaf`slotuse, newleaf`slotuse, newleaf`slotkey, newleaf`slotdata
    ensures LeafHolds(leaf, items[..|items| / 2]) && LeafHolds(newleaf, items[|items| / 2..])
  {
    hide Over;
    ghost var n := |items|;
    LeafStarts(leaf, items);
    LeafStarts(newleaf, []);
    LeafAppended(newleaf.slotkey, newleaf.slotdata, leaf.slotkey, leaf.slotdata, [], items, n / 2, n);
    var mid := leaf.slotuse / 2;
    newleaf.slotuse := leaf.slotuse - mid;
    CopyLeafSlots(newleaf, 0, leaf, mid, leaf.slotuse - mid);
    leaf.slotuse := mid;
    assert [] + items[n / 2..n] == items[n / 2..];
    LeafOfStarts(newleaf, items[n / 2..]);
  }

  /** The copying loop of `split_inner_node`, which leaves key `mid` out of both parts. */
  method SplitInnerSlots(inner: Node, newinner: Node, mid: nat,
                         ghost level: nat, ghost keys: seq<Key>, ghost kids: seq<Node>)
    requires inner != newinner && InnerHolds(inner, level, keys, kids) && |kids| == |keys| + 1 && mid < |keys|
    requires newinner.level == level && |newinner.slotkey| == innerslotmax && |newinner.childid| == innerslotmax + 1
    modifies inner`slotuse, newinner`slotuse, newinner`slotkey, newinner`childid
    ensures InnerHolds(inner, level, keys[..mid], kids[..mid + 1])
    ensures InnerHolds(newinner, level, keys[mid + 1..], kids[mid + 1..])
    ensures inner.slotkey == old(inner.slotkey)
  {
    newinner.slotuse := inner.slotuse - (mid + 1);
    var slot := mid + 1;
    while slot < inner.slotuse
      invariant mid + 1 <= slot <= |keys| == inner.slotuse && newinner.slotuse == |keys| - (mid + 1)
      invariant newinner.level == level && |newinner.slotkey| == innerslotmax && |newinner.childid| == innerslotmax + 1
      invariant forall j | 0 <= j < slot - (mid + 1) ::
                  newinner.slotkey[j] == keys[mid + 1 + j] && newinner.childid[j] == kids[mid + 1 + j]
      modifies newinner`slotkey, newinner`childid
    {
      var ni := slot - (mid + 1);
      newinner.slotkey := newinner.slotkey[ni := inner.slotkey[slot]];
      newinner.childid := newinner.childid[ni := inner.childid[slot]];
      slot := slot + 1;
    }
    newinner.childid := newinner.childid[newinner.slotuse := inner.childid[inner.slotuse]];
    inner.slotuse := mid;
  }

  /** The copying loop of `merge_leaves`. */
  method MergeLeafSlots(left: Node, right: Node, ghost li: seq<Item>, ghost ri: seq<Item>)
    requires left != right && LeafHolds(left, li) && LeafHolds(right, ri) && |li| + |ri| <= leafslotmax
    modifies left`slotuse, left`slotkey, left`slotdata, right`slotuse
    ensures LeafHolds(left, li + ri) && LeafHolds(right, [])
  {
    hide Over;
    LeafStarts(left, li);
    LeafStarts(right, ri);
    LeafAppended(left.slotkey, left.slotdata, right.slotkey, right.slotdata, li, ri, 0, |ri|);
    CopyLeafSlots(left, left.slotuse, right, 0, right.slotuse);
    left.slotuse := left.slotuse + right.slotuse;
    right.slotuse := 0;
    assert ri[0..|ri|] == ri;
    LeafOfStarts(left, li + ri);
  }

  /** `merge_inner`: the separator comes down from the parent, then the right
      node's slots follow. */
  method MergeInnerSlots(left: Node, right: Node, sep: Key, ghost level: nat,
                         ghost lkeys: seq<Key>, ghost lkids: seq<Node>, ghost rkeys: seq<Key>, ghost rkids: seq<Node>)
    requires left != right && |lkids| == |lkeys| + 1 && |rkids| == |rkeys| + 1
    requires InnerHolds(left, level, lkeys, lkids) && InnerHolds(right, level, rkeys, rkids)
    requires |lkeys| + 1 + |rkeys| <= innerslotmax
    modifies left`slotuse, left`slotkey, left`childid, right`slotuse
    ensures InnerHolds(left, level, lkeys + [sep] + rkeys, lkids + rkids)
    ensures InnerHolds(right, level, [], [])
  {
    ghost var keys, kids := lkeys + [sep] + rkeys, lkids + rkids;
    left.slotkey := left.slotkey[left.slotuse := sep];
    left.slotuse := left.slotuse + 1;
    var i := 0;
    while i < right.slotuse
      invariant 0 <= i <= |rkeys| && left.slotuse == |lkeys| + 1
      invariant left.level == level && |left.slotkey| == innerslotmax && |left.childid| == innerslotmax + 1
      invariant forall j | 0 <= j < |lkeys| + 1 + i :: left.slotkey[j] == keys[j] && left.childid[j] == kids[j]
      modifies left`slotkey, left`childid
    {
      left.slotkey := left.slotkey[left.slotuse + i := right.slotkey[i]];
      left.childid := left.childid[left.slotuse + i := right.childid[i]];
      i := i + 1;
    }
    left.slotuse := left.slotuse + right.slotuse;
    left.childid := left.childid[left.slotuse := right.childid[right.slotuse]];
    right.slotuse := 0;
  }

  /** The loops of `shift_left_leaf`: the first `n` items of the right leaf move
      to the end of the left one, and the rest close up. */
  method ShiftLeftLeafSlots(left: Node, right: Node, n: nat, ghost li: seq<Item>, ghost ri: seq<Item>)
    requires left != right && LeafHolds(left, li) && LeafHolds(right, ri) && n <= |ri| && |li| + n <= leafslotmax
    modifies left`slotuse, left`slotkey, left`slotdata, right`slotuse, right`slotkey, right`slotdata
    ensures LeafHolds(left, li + ri[..n]) && LeafHolds(right, ri[n..])
  {
    hide Over;
    LeafStarts(left, li);
    LeafStarts(right, ri);
    LeafAppended(left.slotkey, left.slotdata, right.slotkey, right.slotdata, li, ri, 0, n);
    LeafClosedUp(right.slotkey, right.slotdata, ri, n);
    CopyLeafSlots(left, left.slotuse, right, 0, n);
    left.slotuse := left.slotuse + n;
    right.slotuse := right.slotuse - n;
    CloseUpLeaf(right, n);
    assert ri[0..n] == ri[..n];
    LeafOfStarts(left, li + ri[..n]);
    LeafOfStarts(right, ri[n..]);
  }

  lemma {:induction false} LeafClosedUp(keys: seq<Key>, data: seq<Data>, a: seq<Item>, n: nat)
    requires Starts(keys, Keys(a)) && Starts(data, DataOf(a)) && n <= |a|
    ensures Starts(Over(keys, 0, keys[n..|a|]), Keys(a[n..])) && Starts(Over(data, 0, data[n..|a|]), DataOf(a[n..]))
  {
    hide Over;
    ItemsSliced(a, n, |a|);
    StartsClosedUp(keys, Keys(a), n);
    StartsClosedUp(data, DataOf(a), n);
    assert a[n..|a|] == a[n..];
  }

  /** The loops of `shift_right_leaf`: the last `n` items of the left leaf move to
      the front of the right one, which first makes room. */
  method ShiftRightLeafSlots(left: Node, right: Node, n: nat, ghost li: seq<Item>, ghost ri: seq<Item>)
    requires left != right && LeafHolds(left, li) && LeafHolds(right, ri) && n <= |li| && |ri| + n <= leafslotmax
    modifies left`slotuse, right`slotuse, right`slotkey, right`slotdata
    ensures LeafHolds(left, li[..|li| - n]) && LeafHolds(right, li[|li| - n..] + ri)
  {
    hide Over;
    LeafStarts(left, li);
    LeafStarts(right, ri);
    LeafPrepended(right.slotkey, right.slotdata, left.slotkey, left.slotdata, li, ri, n);
    MakeRoomLeaf(right, n);
    right.slotuse := right.slotuse + n;
    CopyLeafSlots(right, 0, left, left.slotuse - n, n);
    left.slotuse := left.slotuse - n;
    LeafOfStarts(right, li[|li| - n..] + ri);
  }

  lemma {:induction false} LeafPrepended(keys: seq<Key>, data: seq<Data>, keys2: seq<Key>, data2: seq<Data>, a: seq<Item>, b: seq<Item>, n: nat)
    requires Starts(keys, Keys(b)) && Starts(data, DataOf(b)) && Starts(keys2, Keys(a)) && Starts(data2, DataOf(a))
    requires n <= |a| && |b| + n <= |keys| == |data|
    ensures var m := |a| - n;
            && Starts(Over(Over(keys, n, keys[..|b|]), 0, keys2[m..m + n]), Keys(a[m..] + b))
            && Starts(Over(Over(data, n, data[..|b|]), 0, data2[m..m + n]), DataOf(a[m..] + b))
  {
    hide Over, Starts;
    var m := |a| - n;
    ItemsInParts(a[m..], b);
    ItemsSliced(a, m, |a|);
    assert a[m..|a|] == a[m..] && Keys(a)[m..|a|] == Keys(a)[m..] && DataOf(a)[m..|a|] == DataOf(a)[m..];
    StartsTaken(keys, keys2, Keys(a), Keys(b), n);
    StartsTaken(data, data2, DataOf(a), DataOf(b), n);
  }

  /** `shift_left_inner`: the separator comes down, `n - 1` slots of the right
      node follow it, and the next key goes up as the new separator. */
  method ShiftLeftInnerSlots(left: Node, right: Node, sep: Key, n: nat, ghost level: nat,
                             ghost lkeys: seq<Key>, ghost lkids: seq<Node>, ghost rkeys: seq<Key>, ghost rkids: seq<Node>)
    returns (newsep: Key)
    requires left != right && |lkids| == |lkeys| + 1 && |rkids| == |rkeys| + 1
    requires InnerHolds(left, level, lkeys, lkids) && InnerHolds(right, level, rkeys, rkids)
    requires 1 <= n <= |rkeys| && |lkeys| + n <= innerslotmax
    modifies left`slotuse, left`slotkey, left`childid, right`slotuse, right`slotkey, right`childid
    ensures InnerHolds(left, level, lkeys + [sep] + rkeys[..n - 1], lkids + rkids[..n])
    ensures InnerHolds(right, level, rkeys[n..], rkids[n..])
    ensures newsep == rkeys[n - 1]
  {
    ghost var keys, kids := lkeys + [sep] + rkeys, lkids + rkids;
    left.slotkey := left.slotkey[left.slotuse := sep];
    left.slotuse := left.slotuse + 1;
    var i := 0;
    while i < n - 1
      invariant 0 <= i <= n - 1 && left.slotuse == |lkeys| + 1
      invariant left.level == level && |left.slotkey| == innerslotmax && |left.childid| == innerslotmax + 1
      invariant forall j | 0 <= j < |lkeys| + 1 + i :: left.slotkey[j] == keys[j] && left.childid[j] == kids[j]
      modifies left`slotkey, left`childid
    {
      left.slotkey := left.slotkey[left.slotuse + i := right.slotkey[i]];
      left.childid := left.childid[left.slotuse + i := right.childid[i]];
      i := i + 1;
    }
    left.slotuse := left.slotuse + (n - 1);
    newsep := right.slotkey[n - 1];
    left.childid := left.childid[left.slotuse := right.childid[n - 1]];
    right.slotuse := right.slotuse - n;
    CloseUpInner(right, n, level, rkeys, rkids);
  }

  /** The second loop of `shift_left_inner`. */
  method CloseUpInner(right: Node, n: nat, ghost level: nat, ghost keys: seq<Key>, ghost kids: seq<Node>)
    requires n <= |keys| && |kids| == |keys| + 1 && right.slotuse == |keys| - n
    requires right.level == level >= 1 && |keys| <= innerslotmax == |right.slotkey| && |right.childid| == innerslotmax + 1
    requires forall j | 0 <= j < |keys| :: right.slotkey[j] == keys[j]
    requires forall j | 0 <= j < |kids| :: right.childid[j] == kids[j]
    modifies right`slotkey, right`childid
    ensures InnerHolds(right, level, keys[n..], kids[n..])
  {
    var i := 0;
    while i < right.slotuse
      invariant 0 <= i <= |keys| - n
      invariant |right.slotkey| == innerslotmax && |right.childid| == innerslotmax + 1
      invariant forall j | 0 <= j < i :: right.slotkey[j] == keys[j + n] && right.childid[j] == kids[j + n]
      invariant forall j | i <= j < |keys| :: right.slotkey[j] == keys[j]
      invariant forall j | i <= j < |kids| :: right.childid[j] == kids[j]
    {
      right.slotkey := right.slotkey[i := right.slotkey[i + n]];
      right.childid := right.childid[i := right.childid[i + n]];
      i := i + 1;
    }
    right.childid := right.childid[right.slotuse := right.childid[right.slotuse + n]];
  }

  /** `shift_right_inner`: the right node makes room for `n` slots; the separator
      and the last children of the left node fill it, and a key goes up. */
  method ShiftRightInnerSlots(left: Node, right: Node, sep: Key, n: nat, ghost level: nat,
                              ghost lkeys: seq<Key>, ghost lkids: seq<Node>, ghost rkeys: seq<Key>, ghost rkids: seq<Node>)
    returns (newsep: Key)
    requires left != right && |lkids| == |lkeys| + 1 && |rkids| == |rkeys| + 1
    requires InnerHolds(left, level, lkeys, lkids) && InnerHolds(right, level, rkeys, rkids)
    requires 1 <= n <= |lkeys| && |rkeys| + n <= innerslotmax
    modifies left`slotuse, right`slotuse, right`slotkey, right`childid
    ensures var m := |lkeys| - n;
            && InnerHolds(left, level, lkeys[..m], lkids[..m + 1])
            && InnerHolds(right, level, lkeys[m + 1..] + [sep] + rkeys, lkids[m + 1..] + rkids)
            && newsep == lkeys[m]
  {
    hide Over, Starts;
    ghost var m := |lkeys| - n;
    InnerStarts(left, level, lkeys, lkids);
    InnerStarts(right, level, rkeys, rkids);
    ShiftedInnerArrays(left, right, sep, n, lkeys, lkids, rkeys, rkids);
    FillFrontInner(left, right, sep, n);
    newsep := left.slotkey[left.slotuse - n];
    left.slotuse := left.slotuse - n;
    InnerOfStarts(right, level, lkeys[m + 1..] + [sep] + rkeys, lkids[m + 1..] + rkids);
  }

  /** Make room, bring the separator and its child down, and copy the others. */
  method FillFrontInner(left: Node, right: Node, sep: Key, n: nat)
    requires left != right && 1 <= n <= left.slotuse <= |left.slotkey| && left.slotuse < |left.childid|
    requires right.slotuse + n <= |right.slotkey| && right.slotuse + 1 + n <= |right.childid|
    modifies right`slotuse, right`slotkey, right`childid
    ensures right.slotuse == old(right.slotuse) + n
    ensures var m := left.slotuse - n + 1;
            && right.slotkey == Over(Over(old(right.slotkey), n, old(right.slotkey)[..old(right.slotuse)])[n - 1 := sep],
                                     0, left.slotkey[m..m + (n - 1)])
            && right.childid == Over(Over(old(right.childid), n, old(right.childid)[..old(right.slotuse) + 1])[n - 1 := left.childid[left.slotuse]],
                                     0, left.childid[m..m + (n - 1)])
  {
    hide Over;
    MakeRoomInner(right, n);
    right.slotuse := right.slotuse + n;
    right.slotkey := right.slotkey[n - 1 := sep];
    right.childid := right.childid[n - 1 := left.childid[left.slotuse]];
    CopyInnerSlots(right, 0, left, left.slotuse - n + 1, n - 1);
  }

  lemma {:induction false} InnerOfStarts(inner: Node, level: nat, keys: seq<Key>, kids: seq<Node>)
    requires inner.level == level >= 1 && inner.slotuse == |keys| && |inner.slotkey| == innerslotmax && |inner.childid| == innerslotmax + 1
    requires Starts(inner.slotkey, keys) && Starts(inner.childid, kids)
    ensures InnerHolds(inner, level, keys, kids)
  {
  }

  lemma {:induction false} InnerStarts(inner: Node, level: nat, keys: seq<Key>, kids: seq<Node>)
    requires InnerHolds(inner, level, keys, kids)
    ensures Starts(inner.slotkey, keys) && Starts(inner.childid, kids)
  {
  }

  /** The arrays of an inner node in front of whose slots others are put. */
  lemma {:induction false} ShiftedInnerArrays(left: Node, right: Node, sep: Key, n: nat,
                                              lkeys: seq<Key>, lkids: seq<Node>, rkeys: seq<Key>, rkids: seq<Node>)
    requires Starts(left.slotkey, lkeys) && Starts(left.childid, lkids) && Starts(right.slotkey, rkeys) && Starts(right.childid, rkids)
    requires |lkids| == |lkeys| + 1 && 1 <= n <= |lkeys| && |rkeys| + n <= |right.slotkey| && |rkids| + n <= |right.childid|
    ensures var m := |lkeys| - n;
            && Starts(Over(Over(right.slotkey, n, right.slotkey[..|rkeys|])[n - 1 := sep], 0, left.slotkey[m + 1..m + 1 + (n - 1)]),
                      lkeys[m + 1..] + [sep] + rkeys)
            && Starts(Over(Over(right.childid, n, right.childid[..|rkids|])[n - 1 := left.childid[|lkeys|]], 0, left.childid[m + 1..m + 1 + (n - 1)]),
                      lkids[m + 1..] + rkids)
  {
    hide Over;
    var m := |lkeys| - n;
    StartsSlice(left.slotkey, lkeys, m + 1, |lkeys|);
    StartsSlice(left.childid, lkids, m + 1, |lkeys|);
    assert lkeys[m + 1..|lkeys|] == lkeys[m + 1..] && lkids[m + 1..] == lkids[m + 1..|lkeys|] + [lkids[|lkeys|]];
    StartsPrependedWith(right.slotkey, lkeys[m + 1..], sep, rkeys);
    StartsPrependedWith(right.childid, lkids[m + 1..|lkeys|], lkids[|lkeys|], rkids);
  }

  /** A loop that copies keys and children from one inner node to another. */
  method CopyInnerSlots(dst: Node, at: nat, src: Node, from: nat, n: nat)
    requires dst != src && from + n <= |src.slotkey| && from + n <= |src.childid| && at + n <= |dst.slotkey| && at + n <= |dst.childid|
    modifies dst`slotkey, dst`childid
    ensures dst.slotkey == Over(old(dst.slotkey), at, src.slotkey[from..from + n])
    ensures dst.childid == Over(old(dst.childid), at, src.childid[from..from + n])
  {
    hide Over;
    ghost var keys, kids := dst.slotkey, dst.childid;
    NothingOver(keys, at);
    NothingOver(kids, at);
    for i := 0 to n
      invariant dst.slotkey == Over(keys, at, src.slotkey[from..from + i])
      invariant dst.childid == Over(kids, at, src.childid[from..from + i])
    {
      CopyStep(keys, at, src.slotkey, from, i);
      CopyStep(kids, at, src.childid, from, i);
      dst.slotkey := dst.slotkey[at + i := src.slotkey[from + i]];
      dst.childid := dst.childid[at + i := src.childid[from + i]];
    }
  }

  /** The first loop of `shift_right_inner`. */
  method MakeRoomInner(right: Node, n: nat)
    requires right.slotuse + n <= |right.slotkey| && right.slotuse + 1 + n <= |right.childid|
    modifies right`slotkey, right`childid
    ensures right.slotkey == Over(old(right.slotkey), n, old(right.slotkey)[..right.slotuse])
    ensures right.childid == Over(old(right.childid), n, old(right.childid)[..right.slotuse + 1])
  {
    hide Over;
    ghost var kids, used := right.childid, right.slotuse;
    NothingOver(kids, used + 1 + n);
    RoomStep(kids, n, used, used + 1);
    right.childid := right.childid[right.slotuse + n := right.childid[right.slotuse]];
    MoveInnerUp(right, n, kids);
  }

  /** The loop itself, after the last child has moved. */
  method MoveInnerUp(right: Node, n: nat, ghost kids: seq<Node?>)
    requires right.slotuse + n <= |right.slotkey| && right.slotuse + 1 + n <= |kids|
    requires right.childid == Over(kids, right.slotuse + n, kids[right.slotuse..right.slotuse + 1])
    modifies right`slotkey, right`childid
    ensures right.slotkey == Over(old(right.slotkey), n, old(right.slotkey)[..right.slotuse])
    ensures right.childid == Over(kids, n, kids[..right.slotuse + 1])
  {
    hide Over;
    ghost var keys, used := right.slotkey, right.slotuse;
    NothingOver(keys, used + n);
    var i: int := right.slotuse - 1;
    while i >= 0
      invariant -1 <= i < used == right.slotuse
      invariant right.slotkey == Over(keys, i + 1 + n, keys[i + 1..used])
      invariant right.childid == Over(kids, i + 1 + n, kids[i + 1..used + 1])
    {
      RoomStep(keys, n, i, used);
      RoomStep(kids, n, i, used + 1);
      right.slotkey := right.slotkey[i + n := right.slotkey[i]];
      right.childid := right.childid[i + n := right.childid[i]];
      i := i - 1;
    }
  }
}
