/** Sequences with an element put in or taken out. */
module Sequences {

  function InsertAt<T>(s: seq<T>, i: nat, x: T): seq<T>
    requires i <= |s|
  {
    s[..i] + [x] + s[i..]
  }

  function RemoveAt<T>(s: seq<T>, i: nat): seq<T>
    requires i < |s|
  {
    s[..i] + s[i + 1..]
  }

  /** One sequence written over another from place `at` on. */
  function Over<T>(s: seq<T>, at: nat, t: seq<T>): (r: seq<T>)
    requires at + |t| <= |s|
    ensures |r| == |s|
    ensures forall i | 0 <= i < |s| :: r[i] == if at <= i < at + |t| then t[i - at] else s[i]
  {
    s[..at] + t + s[at + |t|..]
  }

  ghost predicate Starts<T>(s: seq<T>, t: seq<T>) {
    |t| <= |s| && forall i | 0 <= i < |t| :: s[i] == t[i]
  }

  lemma {:induction false} StartsAppended<T>(s: seq<T>, a: seq<T>, b: seq<T>)
    requires Starts(s, a) && |a| + |b| <= |s|
    ensures Starts(Over(s, |a|, b), a + b)
  {
  }

  lemma {:induction false} StartsPrepended<T>(s: seq<T>, a: seq<T>, b: seq<T>)
    requires Starts(s, b) && |a| + |b| <= |s|
    ensures Starts(Over(Over(s, |a|, s[..|b|]), 0, a), a + b)
  {
  }

  /** The last `n` elements that `t` starts with, put in front of those of `s`. */
  lemma {:induction false} StartsTaken<T>(s: seq<T>, t: seq<T>, a: seq<T>, b: seq<T>, n: nat)
    requires Starts(s, b) && Starts(t, a) && n <= |a| && |b| + n <= |s|
    ensures Starts(Over(Over(s, n, s[..|b|]), 0, t[|a| - n..|a| - n + n]), a[|a| - n..] + b)
  {
    assert t[|a| - n..|a| - n + n] == a[|a| - n..];
    StartsPrepended(s, a[|a| - n..], b);
  }

  lemma {:induction false} StartsClosedUp<T>(s: seq<T>, a: seq<T>, n: nat)
    requires Starts(s, a) && n <= |a|
    ensures Starts(Over(s, 0, s[n..|a|]), a[n..])
  {
  }

  lemma {:induction false} StartsPrependedWith<T>(s: seq<T>, a: seq<T>, x: T, b: seq<T>)
    requires Starts(s, b) && |a| + 1 + |b| <= |s|
    ensures Starts(Over(Over(s, |a| + 1, s[..|b|])[|a| := x], 0, a), a + [x] + b)
  {
  }

  // ---- One step of a loop over an array ----

  lemma {:induction false} CopyStep<T>(s: seq<T>, at: nat, t: seq<T>, from: nat, i: nat)
    requires at + i < |s| && from + i < |t|
    ensures Over(s, at, t[from..from + i])[at + i := t[from + i]] == Over(s, at, t[from..from + (i + 1)])
  {
  }

  lemma {:induction false} CloseStep<T>(s: seq<T>, n: nat, i: nat)
    requires n + i < |s|
    ensures Over(s, 0, s[n..n + i])[i + n] == s[i + n]
    ensures Over(s, 0, s[n..n + i])[i := s[i + n]] == Over(s, 0, s[n..n + (i + 1)])
  {
  }

  lemma {:induction false} RoomStep<T>(s: seq<T>, n: nat, i: nat, used: nat)
    requires i < used && used + n <= |s|
    ensures Over(s, i + 1 + n, s[i + 1..used])[i] == s[i]
    ensures Over(s, i + 1 + n, s[i + 1..used])[i + n := s[i]] == Over(s, i + n, s[i..used])
  {
  }

  lemma {:induction false} NothingOver<T>(s: seq<T>, at: nat)
    requires at <= |s|
    ensures Over(s, at, []) == s
  {
  }
}
