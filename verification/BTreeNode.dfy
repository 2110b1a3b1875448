/** The nodes of the B+ tree as they lie in memory: slot arrays embedded in the
    node, a count of the slots in use, and links between the leaves. */
module BTreeNode {
  import opened Sequences
  import opened OrderedItems
  import opened BTreeModel

  class Node {
    var level: nat
    var slotuse: nat
    // Embedded arrays of a fixed length, of which `slotuse` slots are in use.
    var slotkey: seq<Key>
    var slotdata: seq<Data>
    var childid: seq<Node?>
    // The doubly linked list of the leaves.
    var prevleaf: Node?
    var nextleaf: Node?

    constructor AllocateLeaf()
      ensures fresh(this) && LeafHolds(this, [])
      ensures prevleaf == null && nextleaf == null
    {
      level, slotuse := 0, 0;
      slotkey := seq(leafslotmax, _ => 0);
      slotdata := seq(leafslotmax, _ => 0);
      childid := [];
      prevleaf, nextleaf := null, null;
    }

    constructor AllocateInner(l: nat)
      ensures fresh(this) && level == l && slotuse == 0
      ensures |slotkey| == innerslotmax && |childid| == innerslotmax + 1
    {
      level, slotuse := l, 0;
      slotkey := seq(innerslotmax, _ => 0);
      slotdata := [];
      childid := seq(innerslotmax + 1, _ => null);
      prevleaf, nextleaf := null, null;
    }
  }

  /** The leaf `n` holds exactly these items. */
  ghost predicate LeafHolds(n: Node, items: seq<Item>)
    reads n`level, n`slotuse, n`slotkey, n`slotdata
  {
    && n.level == 0
    && n.slotuse == |items| <= leafslotmax == |n.slotkey| == |n.slotdata|
    && forall i | 0 <= i < |items| :: n.slotkey[i] == items[i].key && n.slotdata[i] == items[i].data
  }

  /** The inner node `n` holds these separators and these children. */
  ghost predicate InnerHolds(n: Node, level: nat, keys: seq<Key>, kids: seq<Node>)
    reads n`level, n`slotuse, n`slotkey, n`childid
  {
    && n.level == level >= 1
    && n.slotuse == |keys| <= innerslotmax == |n.slotkey| && |n.childid| == innerslotmax + 1
    && |kids| <= innerslotmax + 1
    && (forall i | 0 <= i < |keys| :: n.slotkey[i] == keys[i])
    && (forall i | 0 <= i < |kids| :: n.childid[i] == kids[i])
  }

  /** The binary search of every descent. It narrows to `hi = mid - 1` even when
      slot `mid` may be the answer, and mends that with one comparison at the end. */
  method FindLower(n: Node, key: Key) returns (slot: nat)
    requires n.slotuse <= |n.slotkey| && SortedKeys(n.slotkey[..n.slotuse])
    ensures slot == LowerSlot(n.slotkey[..n.slotuse], key)
  {
    if n.slotuse == 0 {
      return 0;
    }
    ghost var keys := n.slotkey[..n.slotuse];
    var lo, hi := 0, n.slotuse - 1;
    while lo < hi
      invariant 0 <= lo <= hi + 1 <= n.slotuse
      invariant forall j | 0 <= j < lo :: keys[j] < key
      invariant forall j | hi < j < n.slotuse :: key <= keys[j]
    {
      var mid := (lo + hi) / 2;
      if key <= n.slotkey[mid] {
        hi := mid - 1;
      } else {
        lo := mid + 1;
      }
    }
    if hi < 0 || n.slotkey[hi] < key {
      hi := hi + 1;
    }
    LowerSlotIs(keys, key, hi);
    slot := hi;
  }

  method FindUpper(n: Node, key: Key) returns (slot: nat)
    requires n.slotuse <= |n.slotkey| && SortedKeys(n.slotkey[..n.slotuse])
    ensures slot == UpperSlot(n.slotkey[..n.slotuse], key)
  {
    if n.slotuse == 0 {
      return 0;
    }
    ghost var keys := n.slotkey[..n.slotuse];
    var lo, hi := 0, n.slotuse - 1;
    while lo < hi
      invariant 0 <= lo <= hi + 1 <= n.slotuse
      invariant forall j | 0 <= j < lo :: keys[j] <= key
      invariant forall j | hi < j < n.slotuse :: key < keys[j]
    {
      var mid := (lo + hi) / 2;
      if key < n.slotkey[mid] {
        hi := mid - 1;
      } else {
        lo := mid + 1;
      }
    }
    if hi < 0 || n.slotkey[hi] <= key {
      hi := hi + 1;
    }
    UpperSlotIs(keys, key, hi);
    slot := hi;
  }

  lemma {:induction false} KeysOfLeaf(leaf: Node, items: seq<Item>)
    requires LeafHolds(leaf, items)
    ensures leaf.slotkey[..leaf.slotuse] == Keys(items)
    ensures Sorted(items) ==> SortedKeys(Keys(items))
  {
  }

  /** One array with a gap at `slot`: what was there and behind it has moved up by one. */
  ghost predicate Opened<T>(before: seq<T>, after: seq<T>, slot: nat, used: nat) {
    && |after| == |before| && slot <= used < |before|
    && (forall j | 0 <= j < slot :: after[j] == before[j])
    && (forall j | slot < j <= used :: after[j] == before[j - 1])
  }

  /** Shift the slots behind the new key up by one, last one first. */
  method OpenLeafSlot(leaf: Node, key: Key, ghost slot: nat) returns (i: int)
    requires slot <= leaf.slotuse < |leaf.slotkey| == |leaf.slotdata|
    requires forall j | 0 <= j < slot :: leaf.slotkey[j] < key
    requires forall j | slot <= j < leaf.slotuse :: key < leaf.slotkey[j]
    modifies leaf`slotkey, leaf`slotdata
    ensures i == slot - 1
    ensures Opened(old(leaf.slotkey), leaf.slotkey, slot, leaf.slotuse) && Opened(old(leaf.slotdata), leaf.slotdata, slot, leaf.slotuse)
  {
    ghost var keys, data := leaf.slotkey, leaf.slotdata;
    i := leaf.slotuse - 1;
    while i >= 0 && key < leaf.slotkey[i]
      invariant slot - 1 <= i < leaf.slotuse
      invariant |leaf.slotkey| == |keys| && |leaf.slotdata| == |data|
      invariant forall j | 0 <= j <= i :: leaf.slotkey[j] == keys[j]
      invariant forall j | 0 <= j <= i :: leaf.slotdata[j] == data[j]
      invariant forall j | i + 1 < j <= leaf.slotuse :: leaf.slotkey[j] == keys[j - 1]
      invariant forall j | i + 1 < j <= leaf.slotuse :: leaf.slotdata[j] == data[j - 1]
    {
      leaf.slotkey := leaf.slotkey[i + 1 := leaf.slotkey[i]];
      leaf.slotdata := leaf.slotdata[i + 1 := leaf.slotdata[i]];
      i := i - 1;
    }
  }

  method InsertIntoLeaf(leaf: Node, key: Key, value: Data, ghost items: seq<Item>, ghost slot: nat)
    requires LeafHolds(leaf, items) && |items| < leafslotmax && slot <= |items|
    requires forall i | 0 <= i < slot :: items[i].key < key
    requires forall i | slot <= i < |items| :: key < items[i].key
    modifies leaf`slotuse, leaf`slotkey, leaf`slotdata
    ensures LeafHolds(leaf, InsertAt(items, slot, Item(key, value)))
  {
    ghost var keys, data := leaf.slotkey, leaf.slotdata;
    var i := OpenLeafSlot(leaf, key, slot);
    ItemsOpened(keys, data, leaf.slotkey, leaf.slotdata, items, slot, Item(key, value));
    leaf.slotkey := leaf.slotkey[i + 1 := key];
    leaf.slotdata := leaf.slotdata[i + 1 := value];
    leaf.slotuse := leaf.slotuse + 1;
  }

  /** The two arrays of a leaf with the new pair put in the gap. */
  lemma {:induction false} ItemsOpened(keys: seq<Key>, data: seq<Data>, keys': seq<Key>, data': seq<Data>, items: seq<Item>, slot: nat, x: Item)
    requires |items| < |keys| == |data| && slot <= |items|
    requires forall i | 0 <= i < |items| :: keys[i] == items[i].key && data[i] == items[i].data
    requires Opened(keys, keys', slot, |items|) && Opened(data, data', slot, |items|)
    ensures forall i | 0 <= i <= |items| ::
              keys'[slot := x.key][i] == InsertAt(items, slot, x)[i].key && data'[slot := x.data][i] == InsertAt(items, slot, x)[i].data
  {
  }

  method EraseFromLeaf(leaf: Node, slot: nat, ghost items: seq<Item>)
    requires LeafHolds(leaf, items) && slot < |items|
    modifies leaf`slotuse, leaf`slotkey, leaf`slotdata
    ensures LeafHolds(leaf, RemoveAt(items, slot))
  {
    var i := slot;
    while i < leaf.slotuse - 1
      invariant slot <= i < |items|
      invariant leaf.level == 0 && leaf.slotuse == |items| && |leaf.slotkey| == |leaf.slotdata| == leafslotmax
      invariant forall j | 0 <= j < i ::
                  leaf.slotkey[j] == RemoveAt(items, slot)[j].key && leaf.slotdata[j] == RemoveAt(items, slot)[j].data
      invariant forall j | i <= j < |items| :: leaf.slotkey[j] == items[j].key && leaf.slotdata[j] == items[j].data
    {
      leaf.slotkey := leaf.slotkey[i := leaf.slotkey[i + 1]];
      leaf.slotdata := leaf.slotdata[i := leaf.slotdata[i + 1]];
      i := i + 1;
    }
    leaf.slotuse := leaf.slotuse - 1;
  }

  method OpenInnerSlot(inner: Node, slot: nat)
    requires slot <= inner.slotuse < |inner.slotkey| && inner.slotuse + 1 < |inner.childid|
    modifies inner`slotkey, inner`childid
    ensures Opened(old(inner.slotkey), inner.slotkey, slot, inner.slotuse)
    ensures Opened(old(inner.childid), inner.childid, slot + 1, inner.slotuse + 1)
  {
    ghost var keys, kids := inner.slotkey, inner.childid;
    var i := inner.slotuse;
    while i > slot
      invariant slot <= i <= inner.slotuse
      invariant |inner.slotkey| == |keys| && |inner.childid| == |kids|
      invariant forall j | 0 <= j < i :: inner.slotkey[j] == keys[j]
      invariant forall j | i < j <= inner.slotuse :: inner.slotkey[j] == keys[j - 1]
      invariant forall j | 0 <= j <= i :: inner.childid[j] == kids[j]
      invariant forall j | i + 1 < j <= inner.slotuse + 1 :: inner.childid[j] == kids[j - 1]
    {
      inner.slotkey := inner.slotkey[i := inner.slotkey[i - 1]];
      inner.childid := inner.childid[i + 1 := inner.childid[i]];
      i := i - 1;
    }
  }

  method InsertIntoInner(inner: Node, slot: nat, newkey: Key, newchild: Node,
                         ghost level: nat, ghost keys: seq<Key>, ghost kids: seq<Node>)
    requires InnerHolds(inner, level, keys, kids) && |kids| == |keys| + 1
    requires slot <= |keys| < innerslotmax
    modifies inner`slotuse, inner`slotkey, inner`childid
    ensures InnerHolds(inner, level, InsertAt(keys, slot, newkey), InsertAt(kids, slot + 1, newchild))
  {
    OpenInnerSlot(inner, slot);
    inner.slotkey := inner.slotkey[slot := newkey];
    inner.childid := inner.childid[slot + 1 := newchild];
    inner.slotuse := inner.slotuse + 1;
  }

  /** Remove child `slot` and the separator before it. */
  method RemoveFromInner(inner: Node, slot: nat, ghost level: nat, ghost keys: seq<Key>, ghost kids: seq<Node>)
    requires InnerHolds(inner, level, keys, kids) && |kids| == |keys| + 1
    requires 1 <= slot <= |keys|
    modifies inner`slotuse, inner`slotkey, inner`childid
    ensures InnerHolds(inner, level, RemoveAt(keys, slot - 1), RemoveAt(kids, slot))
  {
    var i := slot;
    while i < inner.slotuse
      invariant slot <= i <= |keys|
      invariant inner.level == level && inner.slotuse == |keys|
      invariant |inner.slotkey| == innerslotmax && |inner.childid| == innerslotmax + 1
      invariant forall j | 0 <= j < i - 1 :: inner.slotkey[j] == RemoveAt(keys, slot - 1)[j]
      invariant forall j | i <= j < |keys| :: inner.slotkey[j] == keys[j]
      invariant forall j | 0 <= j < i :: inner.childid[j] == RemoveAt(kids, slot)[j]
      invariant forall j | i < j <= |keys| :: inner.childid[j] == kids[j]
    {
      inner.slotkey := inner.slotkey[i - 1 := inner.slotkey[i]];
      inner.childid := inner.childid[i := inner.childid[i + 1]];
      i := i + 1;
    }
    inner.slotuse := inner.slotuse - 1;
  }
}
