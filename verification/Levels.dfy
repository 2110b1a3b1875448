/** Levels of a breadth-first tree given by its parent links: every vertex with a parent
    must lead up to the root, and its level is then its distance from the root. */
module Levels {

  /** Where climbing from a vertex ends, if it ends. */
  datatype End = AtRoot | OffTheEnd

  ghost predicate Links(tree: seq<int>, root: int) {
    && 0 <= root < |tree|
    && forall v :: 0 <= v < |tree| ==> tree[v] < |tree|
  }

  /** Climbing from `v` ends at `e` after exactly `h` hops. */
  ghost predicate Climbs(tree: seq<int>, root: int, v: int, h: nat, e: End)
    requires Links(tree, root) && v < |tree|
    decreases h
  {
    if v < 0 then h == 0 && e == OffTheEnd
    else if v == root then h == 0 && e == AtRoot
    else h > 0 && Climbs(tree, root, tree[v], h - 1, e)
  }

  ghost predicate Reaches(tree: seq<int>, root: int, v: int)
    requires Links(tree, root) && v < |tree|
  {
    exists h: nat :: Climbs(tree, root, v, h, AtRoot)
  }

  ghost predicate RunsOff(tree: seq<int>, root: int, v: int)
    requires Links(tree, root) && v < |tree|
  {
    exists h: nat :: Climbs(tree, root, v, h, OffTheEnd)
  }

  /** A climb ends at one place after one number of hops. */
  lemma {:induction false} OneEnd(tree: seq<int>, root: int, v: int, h: nat, e: End, h': nat, e': End)
    requires Links(tree, root) && v < |tree|
    requires Climbs(tree, root, v, h, e) && Climbs(tree, root, v, h', e')
    ensures h == h' && e == e'
    decreases h
  {
    if v >= 0 && v != root {
      OneEnd(tree, root, tree[v], h - 1, e, h' - 1, e');
    }
  }

  /** The vertices passed on a climb before it ends. */
  ghost function Passed(tree: seq<int>, root: int, v: int, h: nat, e: End): set<int>
    requires Links(tree, root) && v < |tree| && Climbs(tree, root, v, h, e)
    decreases h
  {
    if h == 0 then {} else {v} + Passed(tree, root, tree[v], h - 1, e)
  }

  ghost predicate EndsWithin(tree: seq<int>, root: int, v: int, h: nat, e: End)
    requires Links(tree, root) && v < |tree|
  {
    exists i: nat :: i <= h && Climbs(tree, root, v, i, e)
  }

  lemma {:induction false} PassedOnce(tree: seq<int>, root: int, v: int, h: nat, e: End)
    requires Links(tree, root) && v < |tree| && Climbs(tree, root, v, h, e)
    ensures |Passed(tree, root, v, h, e)| == h
    ensures forall u :: u in Passed(tree, root, v, h, e) ==> 0 <= u < |tree| && u != root
    ensures forall u :: u in Passed(tree, root, v, h, e) ==> EndsWithin(tree, root, u, h, e)
    decreases h
  {
    if h > 0 {
      PassedOnce(tree, root, tree[v], h - 1, e);
      var rest := Passed(tree, root, tree[v], h - 1, e);
      if EndsWithin(tree, root, v, h - 1, e) {
        var i: nat :| i <= h - 1 && Climbs(tree, root, v, i, e);
        OneEnd(tree, root, v, h, e, i, e);
        assert false;
      }
      assert forall u :: u in rest ==> EndsWithin(tree, root, u, h, e);
    }
  }

  lemma {:induction false} Fits(s: set<int>, n: nat)
    requires forall u :: u in s ==> 0 <= u < n
    ensures |s| <= n
  {
    if n > 0 {
      Fits(s - {n - 1}, n - 1);
    } else {
      assert forall u :: u !in s;
    }
  }

  /** A climb that ends does so before it has made as many hops as there are vertices:
      every vertex is passed once, and the root is not passed. */
  lemma {:induction false} EndsSoon(tree: seq<int>, root: int, v: int, h: nat, e: End)
    requires Links(tree, root) && v < |tree| && Climbs(tree, root, v, h, e)
    ensures h < |tree|
  {
    PassedOnce(tree, root, v, h, e);
    Fits(Passed(tree, root, v, h, e) + {root}, |tree|);
  }

  /** The result for the first `n` vertices: the first vertex that has a parent and does
      not reach the root decides, -2 if its climb runs off the end and -1 if it never ends. */
  ghost function Verdict(tree: seq<int>, root: int, n: nat): int
    requires Links(tree, root) && n <= |tree|
  {
    if n == 0 then 0
    else if Verdict(tree, root, n - 1) != 0 then Verdict(tree, root, n - 1)
    else if tree[n - 1] < 0 || Reaches(tree, root, n - 1) then 0
    else if RunsOff(tree, root, n - 1) then -2 else -1
  }

  /** The result is zero exactly when every vertex with a parent reaches the root. */
  lemma {:induction false} VerdictZero(tree: seq<int>, root: int, n: nat)
    requires Links(tree, root) && n <= |tree|
    ensures Verdict(tree, root, n) == 0 <==>
            forall v :: 0 <= v < n && tree[v] >= 0 ==> Reaches(tree, root, v)
  {
    if n > 0 {
      VerdictZero(tree, root, n - 1);
    }
  }

  /** The first vertex with a parent that does not reach the root. */
  ghost predicate FirstBad(tree: seq<int>, root: int, b: int)
    requires Links(tree, root)
  {
    && 0 <= b < |tree| && tree[b] >= 0 && !Reaches(tree, root, b)
    && forall v :: 0 <= v < b && tree[v] >= 0 ==> Reaches(tree, root, v)
  }

  lemma {:induction false} VerdictOfFirst(tree: seq<int>, root: int, n: nat)
    requires Links(tree, root) && n <= |tree| && Verdict(tree, root, n) != 0
    ensures exists b :: FirstBad(tree, root, b) && b < n && Verdict(tree, root, n) == if RunsOff(tree, root, b) then -2 else -1
  {
    if Verdict(tree, root, n - 1) != 0 {
      VerdictOfFirst(tree, root, n - 1);
    } else {
      VerdictZero(tree, root, n - 1);
      assert FirstBad(tree, root, n - 1);
    }
  }

  /** Every level set so far is the distance from the root. */
  ghost predicate Sound(tree: seq<int>, root: int, level: seq<int>)
    requires Links(tree, root)
  {
    && |level| == |tree| && level[root] == 0
    && forall v :: 0 <= v < |tree| ==> SoundAt(tree, root, v, level[v])
  }

  ghost predicate SoundAt(tree: seq<int>, root: int, v: int, l: int)
    requires Links(tree, root) && v < |tree|
  {
    l == -1 || (l >= 0 && Climbs(tree, root, v, l, AtRoot))
  }

  /** After `hops` hops from `k` the climb stands at `at`: it ends from `k` exactly as
      it ends from there. */
  ghost predicate StandsAt(tree: seq<int>, root: int, k: int, hops: nat, at: int)
    requires Links(tree, root) && k < |tree| && at < |tree|
  {
    && (forall h: nat, e :: Climbs(tree, root, at, h, e) ==> Climbs(tree, root, k, hops + h, e))
    && (forall h: nat, e :: Climbs(tree, root, k, h, e) ==> h >= hops && Climbs(tree, root, at, h - hops, e))
  }

  lemma {:induction false} OneMoreHop(tree: seq<int>, root: int, k: int, hops: nat, at: int)
    requires Links(tree, root) && k < |tree| && 0 <= at < |tree| && at != root
    requires StandsAt(tree, root, k, hops, at)
    ensures StandsAt(tree, root, k, hops + 1, tree[at])
  {
    forall h: nat, e | Climbs(tree, root, tree[at], h, e)
      ensures Climbs(tree, root, k, hops + 1 + h, e)
    {
      assert Climbs(tree, root, at, h + 1, e);
    }
    forall h: nat, e | Climbs(tree, root, k, h, e)
      ensures h >= hops + 1
    {
    }
  }

  /** Sets every vertex that reaches the root to its distance from it. Zero is returned
      exactly when no other vertex has a parent (`VerdictZero`). */
  method ComputeLevels(level: array<int>, tree: seq<int>, root: int) returns (err: int)
    requires Links(tree, root) && level.Length == |tree|
    modifies level
    ensures Sound(tree, root, level[..])
    ensures err == Verdict(tree, root, |tree|)
    ensures err == 0 || exists b :: FirstBad(tree, root, b) && err == if RunsOff(tree, root, b) then -2 else -1
    ensures err == 0 <==> forall v :: 0 <= v < |tree| && tree[v] >= 0 ==> Reaches(tree, root, v)
    ensures err == 0 ==> forall v :: 0 <= v < |tree| ==> (level[v] >= 0 <==> Reaches(tree, root, v))
  {
    var nv := |tree|;
    err := 0;
    var k := 0;
    while k < nv
      invariant 0 <= k <= nv
      invariant forall v :: 0 <= v < k ==> level[v] == if v == root then 0 else -1
    {
      level[k] := if k == root then 0 else -1;
      k := k + 1;
    }
    k := 0;
    while k < nv
      invariant 0 <= k <= nv
      invariant Sound(tree, root, level[..])
      invariant err == Verdict(tree, root, k)
      invariant err == 0 ==> Done(tree, root, level[..], k)
    {
      if level[k] < 0 && err == 0 && tree[k] >= 0 && k != root {
        err := LevelOne(level, tree, root, k);
      } else {
        NothingToDo(tree, root, level[..], k);
      }
      k := k + 1;
    }
    VerdictZero(tree, root, nv);
    if err != 0 { VerdictOfFirst(tree, root, nv); }
  }

  ghost predicate Done(tree: seq<int>, root: int, level: seq<int>, n: nat)
    requires Links(tree, root) && |level| == |tree| && n <= |tree|
  {
    forall v :: 0 <= v < n && Reaches(tree, root, v) ==> level[v] >= 0
  }

  lemma {:induction false} NothingToDo(tree: seq<int>, root: int, level: seq<int>, k: int)
    requires Links(tree, root) && 0 <= k < |tree| && Sound(tree, root, level)
    ensures level[k] >= 0 || k == root ==> Reaches(tree, root, k)
    ensures tree[k] < 0 && k != root ==> !Reaches(tree, root, k)
  {
    assert SoundAt(tree, root, k, level[k]);
    assert Climbs(tree, root, root, 0, AtRoot);
    if tree[k] < 0 && k != root {
      forall h: nat ensures !Climbs(tree, root, k, h, AtRoot) {
        if h > 0 { assert !Climbs(tree, root, tree[k], h - 1, AtRoot); }
      }
    }
  }

  /** One vertex: climb to a vertex that has its level, then set the levels on the way. */
  method LevelOne(level: array<int>, tree: seq<int>, root: int, k: int) returns (err: int)
    requires Links(tree, root) && level.Length == |tree| && Sound(tree, root, level[..])
    requires 0 <= k < |tree| && level[k] < 0 && tree[k] >= 0
    modifies level
    ensures Sound(tree, root, level[..])
    ensures forall v :: 0 <= v < |tree| && old(level[v]) >= 0 ==> level[v] >= 0
    ensures err == if Reaches(tree, root, k) then 0 else if RunsOff(tree, root, k) then -2 else -1
    ensures err == 0 ==> level[k] >= 0
  {
    var nv := |tree|;
    err := 0;
    var parent, nhop := k, 0;
    while parent >= 0 && level[parent] < 0 && nhop < nv
      invariant parent < nv && 0 <= nhop <= nv
      invariant StandsAt(tree, root, k, nhop, parent)
      modifies {}
      decreases nv - nhop
    {
      OneMoreHop(tree, root, k, nhop, parent);
      parent := tree[parent];
      nhop := nhop + 1;
    }
    if nhop >= nv { err := -1; }
    if parent < 0 { err := -2; }
    ClimbEnds(tree, root, level[..], k, nhop, parent);
    if err == 0 {
      nhop := nhop + level[parent];
      parent := k;
      SetLevels(level, tree, root, k, nhop);
      CheckLevels(level, tree, root, k);
    }
  }

  /** The check of the levels just set never fails: they go down by one on each hop. */
  method CheckLevels(level: array<int>, tree: seq<int>, root: int, k: int)
    requires Links(tree, root) && level.Length == |tree| && Sound(tree, root, level[..])
    requires 0 <= k < |tree| && level[k] >= 0
  {
    var nhop, parent, lastlvl := 0, k, level[k] + 1;
    assert SoundAt(tree, root, k, level[..][k]);
    while level[parent] > 0
      invariant 0 <= parent < |tree| && lastlvl >= 1
      invariant Climbs(tree, root, parent, lastlvl - 1, AtRoot)
      decreases lastlvl
    {
      assert SoundAt(tree, root, parent, level[..][parent]);
      OneEnd(tree, root, parent, lastlvl - 1, AtRoot, level[parent], AtRoot);
      assert lastlvl == 1 + level[parent];
      lastlvl := level[parent];
      parent := tree[parent];
      nhop := nhop + 1;
    }
  }

  lemma {:induction false} ClimbEnds(tree: seq<int>, root: int, level: seq<int>, k: int, hops: nat, at: int)
    requires Links(tree, root) && 0 <= k < |tree| && at < |tree| && Sound(tree, root, level)
    requires StandsAt(tree, root, k, hops, at)
    requires at < 0 || level[at] >= 0 || hops >= |tree|
    ensures at < 0 ==> RunsOff(tree, root, k) && !Reaches(tree, root, k)
    ensures at >= 0 && hops >= |tree| ==> !RunsOff(tree, root, k) && !Reaches(tree, root, k)
    ensures at >= 0 && hops < |tree| ==> Climbs(tree, root, k, hops + level[at], AtRoot)
  {
    if at < 0 {
      assert Climbs(tree, root, at, 0, OffTheEnd);
      assert Climbs(tree, root, k, hops, OffTheEnd);
      forall h: nat | Climbs(tree, root, k, h, AtRoot) ensures false {
        OneEnd(tree, root, k, hops, OffTheEnd, h, AtRoot);
      }
    } else if hops >= |tree| {
      forall h: nat, e | Climbs(tree, root, k, h, e) ensures false {
        EndsSoon(tree, root, k, h, e);
      }
    } else {
      assert SoundAt(tree, root, at, level[at]);
      assert Climbs(tree, root, at, level[at], AtRoot);
    }
  }

  method SetLevels(level: array<int>, tree: seq<int>, root: int, k: int, distance: nat)
    requires Links(tree, root) && level.Length == |tree| && Sound(tree, root, level[..])
    requires 0 <= k < |tree| && level[k] < 0 && Climbs(tree, root, k, distance, AtRoot)
    modifies level
    ensures Sound(tree, root, level[..])
    ensures forall v :: 0 <= v < |tree| && old(level[v]) >= 0 ==> level[v] == old(level[v])
    ensures level[k] == distance
  {
    var parent, nhop := k, distance;
    while level[parent] < 0
      invariant 0 <= parent < |tree| && nhop >= 0
      invariant Sound(tree, root, level[..])
      invariant Climbs(tree, root, parent, nhop, AtRoot)
      invariant forall v :: 0 <= v < |tree| && old(level[v]) >= 0 ==> level[v] == old(level[v])
      invariant level[k] == distance || (parent == k && nhop == distance)
      decreases nhop
    {
      assert nhop > 0;
      level[parent] := nhop;
      nhop := nhop - 1;
      parent := tree[parent];
    }
    assert nhop == level[parent] by {
      assert SoundAt(tree, root, parent, level[..][parent]);
      OneEnd(tree, root, parent, nhop, AtRoot, level[parent], AtRoot);
    }
  }
}
