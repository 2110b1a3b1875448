/** Exactly when an insertion leaves the range tree balanced. No case of the rebalancing
    is meant for a key equal to the heavy child's, so such a node is left as it is; but
    a rotation further up may happen to repair it. */
module RangeBalance {
  import opened RangeTree

  // ---- The way of an insertion through a balanced tree ----

  /** The child that the insertion goes into. */
  ghost function Side(t: Tree, key: nat): (c: Tree)
    requires t.Bin?
    ensures c < t
  {
    if key < t.range.key then t.left else t.right
  }

  /** The node is already higher on that side. */
  ghost predicate Leaning(t: Tree, key: nat)
    requires t.Bin?
  {
    Balance(t) == if key < t.range.key then 1 else -1
  }

  /** The guard that none of the four cases has: the heavy child has the new key. */
  ghost predicate Equal(t: Tree, key: nat)
    requires t.Bin?
  {
    Leaning(t, key) && Side(t, key).Bin? && Side(t, key).range.key == key
  }

  /** Whether the insertion makes the tree a level higher. */
  ghost predicate Grows(t: Tree, key: nat) {
    t.Nil? || (Grows(Side(t, key), key) && (Balance(t) == 0 || Equal(t, key)))
  }

  /** The node gets out of balance and is left so. */
  ghost predicate Falls(t: Tree, key: nat) {
    t.Bin? && Equal(t, key) && Grows(Side(t, key), key)
  }

  /** Whether some node on the way falls through and is not repaired further up. */
  ghost predicate FallsThrough(t: Tree, key: nat)
    decreases t, 1
  {
    t.Bin? &&
    var c := Side(t, key);
    if !Leaning(t, key) || !Grows(c, key) then FallsThrough(c, key)
    else Equal(t, key) || !Repaired(t, key)
  }

  /** A rotation at a node repairs its child; between two opposite turns it repairs a
      grandchild too. */
  ghost predicate Repaired(t: Tree, key: nat)
    requires t.Bin?
    decreases t, 0
  {
    var c := Side(t, key);
    || !FallsThrough(c, key)
    || (Falls(c, key) &&
        var d := Side(c, key);
        || !FallsThrough(d, key)
        || (c.range.key < key < t.range.key && Falls(d, key) && !FallsThrough(Side(d, key), key)))
  }

  // ---- What the insertion makes ----

  /** The node with the child it went into replaced. */
  ghost function Put(t: Tree, key: nat, c: Tree): Tree
    requires t.Bin?
  {
    if key < t.range.key then Node(c, t.range, t.right) else Node(t.left, t.range, c)
  }

  lemma {:induction false} InsertIsPut(t: Tree, r: Range)
    requires t.Bin?
    ensures Insert(t, r) == Rebalance(Put(t, r.key, Insert(Side(t, r.key), r)), r.key)
  {
  }

  /** Exactly when an insertion keeps the balance: for every balanced tree and every
      range, whether its key is new or not. */
  lemma {:induction false} BalancedExactly(t: Tree, r: Range)
    requires Balanced(t)
    ensures Balanced(Insert(t, r)) <==> !FallsThrough(t, r.key)
  {
    Outcome(t, r);
  }

  /** A key that is not there yet never meets the guard. */
  lemma {:induction false} NewKeyBalanced(t: Tree, r: Range)
    requires Balanced(t) && NewKey(InOrder(t), r.key)
    ensures Balanced(Insert(t, r))
  {
    NewKeyStays(t, r.key);
    BalancedExactly(t, r);
  }

  lemma {:induction false} NewKeyStays(t: Tree, key: nat)
    requires NewKey(InOrder(t), key)
    ensures !FallsThrough(t, key)
  {
    if t.Bin? {
      NewInParts(InOrder(t.left), t.range, InOrder(t.right), key);
      NewKeyStays(Side(t, key), key);
      var c := Side(t, key);
      if c.Bin? { NewInParts(InOrder(c.left), c.range, InOrder(c.right), key); }
    }
  }

  lemma {:induction false} NewInParts(l: seq<Range>, x: Range, r: seq<Range>, key: nat)
    requires NewKey(l + [x] + r, key)
    ensures NewKey(l, key) && x.key != key && NewKey(r, key)
  {
    var s := l + [x] + r;
    assert forall i | 0 <= i < |l| :: s[i] == l[i];
    assert s[|l|] == x;
    assert forall i | 0 <= i < |r| :: s[|l| + 1 + i] == r[i];
  }

  /** A key that is there already may meet it: three insertions of the same key into an
      empty tree leave a list. */
  lemma {:induction false} EqualKeysUnbalance(r: Range)
    ensures var t := Insert(Insert(Nil, r), r);
            Balanced(t) && FallsThrough(t, r.key) && !Balanced(Insert(t, r))
  {
    var t1 := Insert(Nil, r);
    var t2 := Insert(t1, r);
    assert t2 == Bin(Nil, r, 2, Bin(Nil, r, 1, Nil));
    assert Insert(t1, r) == t2 && Insert(t2.right, r) == t2;
    assert t1 == Bin(Nil, r, 1, Nil) && Side(t1, r.key) == Nil && Balance(t1) == 0;
    assert Grows(Side(t1, r.key), r.key) && Grows(t1, r.key);
    assert Side(t2, r.key) == t1 && Equal(t2, r.key) && FallsThrough(t2, r.key);
    BalancedExactly(t2, r);
  }

  /** Here it meets the guard too, but the rotation at the root repairs what it leaves. */
  lemma {:induction false} RepairedAbove(length: nat)
    ensures var c := Bin(Nil, Range(2, length), 2, Bin(Nil, Range(3, length), 1, Nil));
            var t := Bin(Bin(Nil, Range(0, length), 1, Nil), Range(1, length), 3, c);
            Balanced(t) && Falls(c, 3) && Balanced(Insert(t, Range(3, length)))
  {
    var d := Bin(Nil, Range(3, length), 1, Nil);
    var c := Bin(Nil, Range(2, length), 2, d);
    var t := Bin(Bin(Nil, Range(0, length), 1, Nil), Range(1, length), 3, c);
    assert Balanced(d) && Balanced(c) && Balanced(t.left);
    assert Side(d, 3) == Nil && Grows(d, 3) && !FallsThrough(d, 3);
    assert Side(c, 3) == d && Equal(c, 3) && Falls(c, 3);
    assert Side(t, 3) == c && Leaning(t, 3) && Grows(c, 3) && Repaired(t, 3) && !FallsThrough(t, 3);
    BalancedExactly(t, Range(3, length));
  }

  lemma {:induction false} Outcome(t: Tree, r: Range)
    requires Balanced(t)
    ensures var u := Insert(t, r);
            && Height(u) == Height(t) + (if Grows(t, r.key) then 1 else 0)
            && (t.Bin? && Grows(t, r.key) ==> u == Put(t, r.key, Insert(Side(t, r.key), r)))
            && (Balanced(u) <==> !FallsThrough(t, r.key))
    decreases t, 1
  {
    if t.Bin? {
      var c := Side(t, r.key);
      Outcome(c, r);
      InsertIsPut(t, r);
      if Leaning(t, r.key) && Grows(c, r.key) {
        if c.range.key != r.key {
          Rotation(t, r);
        }
      } else {
        NoRotation(t, r, Insert(c, r));
      }
    }
  }

  /** A node that does not lean that way, or whose child has not grown, needs no rotation. */
  lemma {:induction false} NoRotation(t: Tree, r: Range, c: Tree)
    requires Balanced(t) && t.Bin? && c == Insert(Side(t, r.key), r)
    requires Height(c) == Height(Side(t, r.key)) + (if Grows(Side(t, r.key), r.key) then 1 else 0)
    requires !Leaning(t, r.key) || !Grows(Side(t, r.key), r.key)
    requires Balanced(c) <==> !FallsThrough(Side(t, r.key), r.key)
    ensures var u := Rebalance(Put(t, r.key, c), r.key);
            && u == Put(t, r.key, c)
            && Height(u) == Height(t) + (if Grows(t, r.key) then 1 else 0)
            && (Balanced(u) <==> !FallsThrough(t, r.key))
  {
  }

  /** The four cases of a rotation. */
  lemma {:induction false} Rotation(t: Tree, r: Range)
    requires Balanced(t) && t.Bin? && Leaning(t, r.key) && Grows(Side(t, r.key), r.key) && Side(t, r.key).range.key != r.key
    ensures var u := Insert(t, r);
            Height(u) == Height(t) && (Balanced(u) <==> Repaired(t, r.key))
    decreases t, 0
  {
    var c := Side(t, r.key);
    var d := Side(c, r.key);
    Outcome(c, r);
    Outcome(d, r);
    InsertIsPut(t, r);
    if (r.key < t.range.key) == (r.key < c.range.key) {
      Outer(t, c, d, Insert(d, r), r.key);
      RepairedOuter(t, r.key);
    } else if d.Nil? {
      InnerLeaf(t, c, r);
    } else {
      var e := Side(d, r.key);
      Outcome(e, r);
      Inner(t, c, d, e, Insert(e, r), r.key);
      RepairedInner(t, r.key);
    }
  }

  /** A turn and the next to the same side: the child goes up, the grandchild stays whole. */
  lemma {:induction false} Outer(t: Tree, c: Tree, d: Tree, d': Tree, key: nat)
    requires Balanced(t) && t.Bin? && Leaning(t, key) && c == Side(t, key) && c.Bin? && c.range.key != key && d == Side(c, key)
    requires (key < t.range.key) == (key < c.range.key) && (Balance(c) == 0 || Leaning(c, key)) && Height(d') == Height(d) + 1
    ensures var u := Rebalance(Put(t, key, Put(c, key, d')), key);
            Height(u) == Height(t) && (Balanced(u) <==> Balanced(d'))
  {
    if key < t.range.key {
      assert Rebalance(Put(t, key, Put(c, key, d')), key) == Node(d', c.range, Node(c.right, t.range, t.right));
    } else {
      assert Rebalance(Put(t, key, Put(c, key, d')), key) == Node(Node(t.left, t.range, c.left), c.range, d');
    }
  }

  lemma {:induction false} RepairedOuter(t: Tree, key: nat)
    requires t.Bin? && Leaning(t, key) && Side(t, key).Bin? && Grows(Side(t, key), key)
    requires (key < t.range.key) == (key < Side(t, key).range.key)
    ensures Repaired(t, key) <==> !FallsThrough(Side(Side(t, key), key), key)
  {
  }

  /** Opposite turns: the grandchild goes up and is taken apart. */
  lemma {:induction false} Inner(t: Tree, c: Tree, d: Tree, e: Tree, e': Tree, key: nat)
    requires Balanced(t) && t.Bin? && Leaning(t, key) && c == Side(t, key) && c.Bin? && c.range.key != key && d == Side(c, key) && d.Bin?
    requires (key < t.range.key) != (key < c.range.key) && (Balance(c) == 0 || Leaning(c, key))
    requires e == Side(d, key) && (Balance(d) == 0 || Leaning(d, key)) && Height(e') == Height(e) + 1
    ensures var u := Rebalance(Put(t, key, Put(c, key, Put(d, key, e'))), key);
            && Height(u) == Height(t)
            && (Balanced(u) <==> Balanced(e') && (Balance(d) == 0 || (Leaning(c, key) && (key < t.range.key) != (key < d.range.key))))
  {
    if key < t.range.key {
      InnerLeft(t, c, d, e, e', key);
    } else {
      InnerRight(t, c, d, e, e', key);
    }
  }

  lemma {:induction false} InnerLeft(t: Tree, c: Tree, d: Tree, e: Tree, e': Tree, key: nat)
    requires Balanced(t) && t.Bin? && Leaning(t, key) && key < t.range.key && c == t.left && c.Bin? && key > c.range.key && d == c.right && d.Bin?
    requires (Balance(c) == 0 || Leaning(c, key)) && (Balance(d) == 0 || Leaning(d, key)) && e == Side(d, key) && Height(e') == Height(e) + 1
    ensures var u := Rebalance(Put(t, key, Put(c, key, Put(d, key, e'))), key);
            && Height(u) == Height(t)
            && (Balanced(u) <==> Balanced(e') && (Balance(d) == 0 || (Leaning(c, key) && key >= d.range.key)))
  {
    var d' := Put(d, key, e');
    assert Balanced(c) && Balanced(d) && Height(d') == Height(d) + 1 && Height(Put(c, key, d')) == Height(c) + 1;
    assert Rebalance(Put(t, key, Put(c, key, d')), key) == Node(Node(c.left, c.range, d'.left), d'.range, Node(d'.right, t.range, t.right));
  }

  lemma {:induction false} InnerRight(t: Tree, c: Tree, d: Tree, e: Tree, e': Tree, key: nat)
    requires Balanced(t) && t.Bin? && Leaning(t, key) && key >= t.range.key && c == t.right && c.Bin? && key < c.range.key && d == c.left && d.Bin?
    requires (Balance(c) == 0 || Leaning(c, key)) && (Balance(d) == 0 || Leaning(d, key)) && e == Side(d, key) && Height(e') == Height(e) + 1
    ensures var u := Rebalance(Put(t, key, Put(c, key, Put(d, key, e'))), key);
            && Height(u) == Height(t)
            && (Balanced(u) <==> Balanced(e') && (Balance(d) == 0 || (Leaning(c, key) && key < d.range.key)))
  {
    var d' := Put(d, key, e');
    assert Balanced(c) && Balanced(d) && Height(d') == Height(d) + 1 && Height(Put(c, key, d')) == Height(c) + 1;
    assert Rebalance(Put(t, key, Put(c, key, d')), key) == Node(Node(t.left, t.range, d'.left), d'.range, Node(d'.right, c.range, c.right));
  }

  lemma {:induction false} InnerLeaf(t: Tree, c: Tree, r: Range)
    requires Balanced(t) && t.Bin? && Leaning(t, r.key) && c == Side(t, r.key) && c.Bin? && c.range.key != r.key && Side(c, r.key).Nil?
    requires (r.key < t.range.key) != (r.key < c.range.key) && Balance(c) == 0
    ensures var u := Rebalance(Put(t, r.key, Put(c, r.key, Bin(Nil, r, 1, Nil))), r.key);
            Height(u) == Height(t) && Balanced(u) && Repaired(t, r.key)
  {
  }

  lemma {:induction false} RepairedInner(t: Tree, key: nat)
    requires t.Bin? && Leaning(t, key) && Side(t, key).Bin? && Grows(Side(t, key), key) && Side(t, key).range.key != key
    requires (key < t.range.key) != (key < Side(t, key).range.key) && Side(Side(t, key), key).Bin?
    ensures var c := Side(t, key);
            var d := Side(c, key);
            Repaired(t, key) <==>
              && !FallsThrough(Side(d, key), key)
              && (Balance(d) == 0 || (Leaning(c, key) && (key < t.range.key) != (key < d.range.key)))
  {
    var c := Side(t, key);
    var d := Side(c, key);
    assert Grows(d, key) && (Balance(c) == 0 || Equal(c, key)) && (Balance(d) == 0 || Equal(d, key));
    assert FallsThrough(d, key) <==> Equal(d, key) || FallsThrough(Side(d, key), key);
    assert FallsThrough(c, key) <==> Equal(c, key) || FallsThrough(d, key);
  }
}
