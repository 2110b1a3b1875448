/** What a crash leaves of a wrap, and what recovery makes of it. Stores to the log
    persist in program order, byte by byte; once the log is marked as complete, any
    part of the writes may have reached home memory. */
module CrashAtomicity {
  import opened Wrappers
  import opened Memory
  import opened WrapLog

  /** The persistent part of a system. */
  datatype Persistent = Persistent(log: seq<Byte>, home: seq<Byte>)

  datatype Wrap = Wrap(token: nat, ws: seq<Write>)

  /** The wrap's writes can be logged in a log of this size, and put home. */
  ghost predicate Fits(s: Persistent, w: Wrap, parity: nat) {
    && parity < 2 && w.token < 0x1_0000_0000 && Appendable(s.home, w.ws, parity)
    && (forall i | 0 <= i < |w.ws| :: Decodable(w.ws[i]))
    && AllWithin(w.ws, |s.home|)
    && ENTRIES_AT + |Body(s.home, w.ws, parity)| + 16 <= |s.log|
  }

  /** All that opening a wrap, making its writes and closing it store before the log is marked as complete. */
  ghost function Before(s: Persistent, w: Wrap, parity: nat): seq<Write>
    requires Fits(s, w, parity)
  {
    OpenStores(parity, w.token) + Singles(ENTRIES_AT, Body(s.home, w.ws, parity) + ZeroBytes(16))
  }

  /** The store that marks it. */
  ghost function Mark(parity: nat): seq<Write> {
    Singles(FLAG_AT, LE(4, parity + 2))
  }

  /** These are the stores that the logger makes, in its order: what it has on record
      after a close is this sequence. */
  lemma {:induction false} StoresOfLogger(s: Persistent, w: Wrap, parity: nat)
    requires Fits(s, w, parity)
    ensures LogStores(s.home, w.ws, parity, w.token) == Before(s, w, parity) + Mark(parity)
  {
  }

  /** The log after `k` bytes of the wrap's stores to it have persisted. */
  ghost function LogAfter(s: Persistent, w: Wrap, parity: nat, k: nat): (log: seq<Byte>)
    requires Fits(s, w, parity) && k <= |Before(s, w, parity) + Mark(parity)|
    ensures |log| == |s.log|
  {
    StoresWithin(s, w, parity);
    Replay(s.log, (Before(s, w, parity) + Mark(parity))[..k])
  }

  lemma {:induction false} StoresWithin(s: Persistent, w: Wrap, parity: nat)
    requires Fits(s, w, parity)
    ensures AllWithin(Before(s, w, parity), |s.log|) && AllWithin(Mark(parity), |s.log|)
    ensures AllWithin(Before(s, w, parity) + Mark(parity), |s.log|)
  {
  }

  /** What a crash may leave: some prefix of the log stores, and home memory as it was
      unless the whole mark has persisted, when any of the written bytes may hold anything. */
  ghost predicate CrashState(s: Persistent, w: Wrap, parity: nat, k: nat, t: Persistent)
    requires Fits(s, w, parity)
  {
    var n := |Before(s, w, parity) + Mark(parity)|;
    && k <= n
    && t.log == LogAfter(s, w, parity, k)
    && |t.home| == |s.home|
    && if k < n then t.home == s.home
       else forall a | 0 <= a < |s.home| :: t.home[a] == s.home[a] || InFootprint(w.ws, a)
  }

  /** Recovery: replay the log if it is complete. */
  ghost function Recover(t: Persistent): Option<seq<Byte>>
    requires |t.log| >= ENTRIES_AT
  {
    if !IsWrapLogComplete(t.log) then Some(t.home)
    else
      match Decode(t.log, ENTRIES_AT, LogParity(t.log))
      case None => None
      case Some(ws) => if AllWithin(ws, |t.home|) then Some(Replay(t.home, ws)) else None
  }

  /** A state that recovery leaves as it is: no complete log, or one whose writes are all home. */
  ghost predicate Settled(s: Persistent) {
    |s.log| >= ENTRIES_AT && Recover(s) == Some(s.home)
  }

  /** Bytes that no store covers stay. */
  lemma {:induction false} Untouched(mem: seq<Byte>, ws: seq<Write>, a: nat)
    requires AllWithin(ws, |mem|) && a < |mem| && forall i | 0 <= i < |ws| :: !Covers(ws[i], a)
    ensures Replay(mem, ws)[a] == mem[a]
  {
    ReplayAt(mem, ws, a);
    FootprintIs(ws, a);
  }

  /** Whether a log is complete shows in one byte. */
  lemma {:induction false} FlagByte(log: seq<Byte>)
    requires |log| >= ENTRIES_AT
    ensures IsWrapLogComplete(log) <==> log[FLAG_AT] / 2 % 2 == 1
    ensures LogParity(log) == log[FLAG_AT] % 2
  {
    hide UnLE;
    var s := log[FLAG_AT..FLAG_AT + 4];
    assert s[0] == log[FLAG_AT];
    LowBits(s);
  }

  lemma {:induction false} LowBits(s: seq<Byte>)
    requires s != []
    ensures UnLE(s) % 2 == s[0] % 2 && UnLE(s) / 2 % 2 == s[0] / 2 % 2
  {
    var rest := UnLE(s[1..]);
    assert UnLE(s) == s[0] + 2 * (128 * rest);
    assert UnLE(s) / 2 == s[0] / 2 + 2 * (64 * rest);
  }

  lemma {:induction false} LowByte(v: nat)
    ensures LE(4, v)[0] == v % 256
  {
  }

  lemma {:induction false} OffTheFlag(s: Persistent, w: Wrap, parity: nat, i: nat)
    requires Fits(s, w, parity) && 1 <= i < |Before(s, w, parity)|
    ensures !Covers(Before(s, w, parity)[i], FLAG_AT)
  {
  }

  /** Before the mark, from the first byte of the new flag on, the log does not count as complete. */
  lemma {:induction false} NotYetComplete(s: Persistent, w: Wrap, parity: nat, k: nat)
    requires Fits(s, w, parity) && 1 <= k <= |Before(s, w, parity)|
    ensures !IsWrapLogComplete(LogAfter(s, w, parity, k))
  {
    hide Body, LE;
    StoresWithin(s, w, parity);
    var stores := (Before(s, w, parity) + Mark(parity))[..k];
    forall i | 0 < i < |stores| ensures !Covers(stores[i], FLAG_AT) {
      assert stores[i] == Before(s, w, parity)[i];
      OffTheFlag(s, w, parity, i);
    }
    LowByte(parity);
    assert stores[0] == Write(FLAG_AT, [LE(4, parity)[0]]);
    FirstStays(s.log, stores, FLAG_AT, LE(4, parity)[0]);
    FlagByte(LogAfter(s, w, parity, k));
  }

  /** A byte that only the first store sets keeps that value. */
  lemma {:induction false} FirstStays(log: seq<Byte>, stores: seq<Write>, a: nat, b: Byte)
    requires stores != [] && AllWithin(stores, |log|) && a < |log| && stores[0] == Write(a, [b])
    requires forall i | 0 < i < |stores| :: !Covers(stores[i], a)
    ensures Replay(log, stores)[a] == b
  {
    var first, rest := [stores[0]], stores[1..];
    assert first + rest == stores;
    ReplayAppend(log, first, rest);
    Untouched(Replay(log, first), rest, a);
    assert Replay(log, first) == Poke(log, a, [b]) by {
      assert first[..0] == [];
    }
  }

  /** From the first byte of the mark on it is complete, and reads back the wrap. */
  lemma {:induction false} CompleteOnceMarked(s: Persistent, w: Wrap, parity: nat, k: nat)
    requires Fits(s, w, parity) && |Before(s, w, parity)| < k <= |Before(s, w, parity) + Mark(parity)|
    ensures var log := LogAfter(s, w, parity, k);
            && IsWrapLogComplete(log) && LogParity(log) == parity
            && Decode(log, ENTRIES_AT, parity) == Some(w.ws)
  {
    hide Body, Decode, IntAt;
    StoresWithin(s, w, parity);
    var before, mark := Before(s, w, parity), Mark(parity)[..k - |Before(s, w, parity)|];
    assert (Before(s, w, parity) + Mark(parity))[..k] == before + mark;
    ReplayAppend(s.log, before, mark);
    var open := OpenStores(parity, w.token);
    var body := Body(s.home, w.ws, parity) + ZeroBytes(16);
    assert AllWithin(open, |s.log|);
    ReplayAppend(s.log, open, Singles(ENTRIES_AT, body));
    SinglesArePoke(Replay(s.log, open), ENTRIES_AT, body);
    MarkedLog(Replay(s.log, before), parity, |mark|, s.home, w.ws);
  }

  lemma {:induction false} MarkedLog(log: seq<Byte>, parity: nat, k: nat, home: seq<Byte>, ws: seq<Write>)
    requires parity < 2 && 1 <= k <= 4 && |log| >= ENTRIES_AT && AllWithin(Mark(parity)[..k], |log|)
    requires Appendable(home, ws, parity) && forall i | 0 <= i < |ws| :: Decodable(ws[i])
    requires HasEntries(log, ENTRIES_AT, parity, home, ws)
    ensures var after := Replay(log, Mark(parity)[..k]);
            IsWrapLogComplete(after) && LogParity(after) == parity && Decode(after, ENTRIES_AT, parity) == Some(ws)
  {
    var d := LE(4, parity + 2)[..k];
    assert Mark(parity)[..k] == Singles(FLAG_AT, d);
    SinglesArePoke(log, FLAG_AT, d);
    var after := Poke(log, FLAG_AT, d);
    MarkByte(log, parity, d);
    SameEntries(log, after, parity, home, ws);
    DecodeBody(after, ENTRIES_AT, parity, home, ws);
  }

  lemma {:induction false} MarkByte(log: seq<Byte>, parity: nat, d: seq<Byte>)
    requires parity < 2 && |log| >= ENTRIES_AT && 1 <= |d| <= 4 && d[0] == LE(4, parity + 2)[0]
    ensures IsWrapLogComplete(Poke(log, FLAG_AT, d)) && LogParity(Poke(log, FLAG_AT, d)) == parity
  {
    LowByte(parity + 2);
    FlagByte(Poke(log, FLAG_AT, d));
    assert Poke(log, FLAG_AT, d)[FLAG_AT] == parity + 2;
  }

  lemma {:induction false} SameEntries(log: seq<Byte>, after: seq<Byte>, parity: nat, home: seq<Byte>, ws: seq<Write>)
    requires Appendable(home, ws, parity) && HasEntries(log, ENTRIES_AT, parity, home, ws)
    requires |after| == |log| && forall a | ENTRIES_AT <= a < |log| :: after[a] == log[a]
    ensures HasEntries(after, ENTRIES_AT, parity, home, ws)
  {
    var body := Body(home, ws, parity) + ZeroBytes(16);
    assert after[ENTRIES_AT..ENTRIES_AT + |body|] == log[ENTRIES_AT..ENTRIES_AT + |body|];
  }

  /** Atomicity of one wrap: wherever the crash comes, recovery finds home memory as
      it was before the wrap, or with all of the wrap's writes. */
  lemma {:induction false} WrapIsAtomic(s: Persistent, w: Wrap, parity: nat, k: nat, t: Persistent)
    requires Settled(s) && Fits(s, w, parity) && CrashState(s, w, parity, k, t)
    ensures |t.log| >= ENTRIES_AT && Recover(t) == Some(if k <= |Before(s, w, parity)| then s.home else Replay(s.home, w.ws))
  {
    var n := |Before(s, w, parity)|;
    if k == 0 {
      assert (Before(s, w, parity) + Mark(parity))[..0] == [];
      assert t == s;
    } else if k <= n {
      NotYetComplete(s, w, parity, k);
    } else {
      CompleteOnceMarked(s, w, parity, k);
      ReplayAbsorbs(s.home, t.home, w.ws);
    }
  }

  /** The state once the wrap is done and all its writes are home. */
  ghost function After(s: Persistent, w: Wrap, parity: nat): Persistent
    requires Fits(s, w, parity)
  {
    Persistent(LogAfter(s, w, parity, |Before(s, w, parity) + Mark(parity)|), Replay(s.home, w.ws))
  }

  lemma {:induction false} AfterIsSettled(s: Persistent, w: Wrap, parity: nat)
    requires Fits(s, w, parity)
    ensures Settled(After(s, w, parity)) && After(s, w, parity).home == Replay(s.home, w.ws)
  {
    CompleteOnceMarked(s, w, parity, |Before(s, w, parity) + Mark(parity)|);
    ReplayTwice(s.home, w.ws);
  }

  /** A run of wraps in the same log, one after the other, each with the other parity. */
  ghost predicate RunFits(s: Persistent, wraps: seq<Wrap>, parity: nat)
    decreases |wraps|
  {
    wraps == [] || (Fits(s, wraps[0], parity) && RunFits(After(s, wraps[0], parity), wraps[1..], 1 - parity))
  }

  /** A state that a crash at some point of the run may leave. */
  ghost predicate RunCrash(s: Persistent, wraps: seq<Wrap>, parity: nat, t: Persistent)
    requires RunFits(s, wraps, parity)
    decreases |wraps|
  {
    if wraps == [] then t == s
    else
      || (exists k: nat :: CrashState(s, wraps[0], parity, k, t))
      || RunCrash(After(s, wraps[0], parity), wraps[1..], 1 - parity, t)
  }

  ghost predicate AllFitHome(wraps: seq<Wrap>, size: nat) {
    forall i | 0 <= i < |wraps| :: AllWithin(wraps[i].ws, size)
  }

  /** Home memory after the first wraps of a run. */
  ghost function HomeAfter(home: seq<Byte>, wraps: seq<Wrap>): (r: seq<Byte>)
    requires AllFitHome(wraps, |home|)
    ensures |r| == |home|
    decreases |wraps|
  {
    if wraps == [] then home
    else
      assert AllWithin(wraps[0].ws, |home|);
      HomeAfter(Replay(home, wraps[0].ws), wraps[1..])
  }

  lemma {:induction false} RunFitsHome(s: Persistent, wraps: seq<Wrap>, parity: nat)
    requires RunFits(s, wraps, parity)
    ensures AllFitHome(wraps, |s.home|)
    decreases |wraps|
  {
    hide Before, LogAfter;
    if wraps != [] {
      RunFitsHome(After(s, wraps[0], parity), wraps[1..], 1 - parity);
    }
  }

  /** Atomicity over whole runs: recovery always finds the outcome of the first few
      wraps, each of them complete. */
  lemma {:induction false} RunIsAtomic(s: Persistent, wraps: seq<Wrap>, parity: nat, t: Persistent) returns (n: nat)
    requires Settled(s) && RunFits(s, wraps, parity) && RunCrash(s, wraps, parity, t)
    ensures n <= |wraps| && AllFitHome(wraps[..n], |s.home|)
    ensures |t.log| >= ENTRIES_AT && Recover(t) == Some(HomeAfter(s.home, wraps[..n]))
    decreases |wraps|
  {
    hide CrashState, After, LogAfter, Before, LE, Recover, Replay;
    RunFitsHome(s, wraps, parity);
    if wraps == [] {
      n := 0;
      assert wraps[..n] == [];
    } else if exists k: nat :: CrashState(s, wraps[0], parity, k, t) {
      var k: nat :| CrashState(s, wraps[0], parity, k, t);
      WrapIsAtomic(s, wraps[0], parity, k, t);
      n := if k <= |Before(s, wraps[0], parity)| then 0 else 1;
      HomeAfterFirst(s.home, wraps);
    } else {
      AfterIsSettled(s, wraps[0], parity);
      var m := RunIsAtomic(After(s, wraps[0], parity), wraps[1..], 1 - parity, t);
      n := m + 1;
      HomeAfterMore(s.home, wraps, m);
    }
  }

  lemma {:induction false} HomeAfterFirst(home: seq<Byte>, wraps: seq<Wrap>)
    requires wraps != [] && AllFitHome(wraps, |home|)
    ensures AllWithin(wraps[0].ws, |home|) && AllFitHome(wraps[..0], |home|) && AllFitHome(wraps[..1], |home|)
    ensures HomeAfter(home, wraps[..0]) == home && HomeAfter(home, wraps[..1]) == Replay(home, wraps[0].ws)
  {
    assert wraps[..1][1..] == [];
  }

  lemma {:induction false} HomeAfterMore(home: seq<Byte>, wraps: seq<Wrap>, m: nat)
    requires m < |wraps| && AllFitHome(wraps, |home|) && AllWithin(wraps[0].ws, |home|) && AllFitHome(wraps[1..][..m], |home|)
    ensures AllFitHome(wraps[..m + 1], |home|)
    ensures HomeAfter(home, wraps[..m + 1]) == HomeAfter(Replay(home, wraps[0].ws), wraps[1..][..m])
  {
    assert wraps[..m + 1][1..] == wraps[1..][..m];
  }

  /** A crash of recovery itself is harmless: the log is still complete, and whatever
      part of the writes has reached home, recovering again has the same outcome. */
  lemma {:induction false} RecoveryMayCrash(t: Persistent, u: Persistent, ws: seq<Write>)
    requires |t.log| >= ENTRIES_AT && IsWrapLogComplete(t.log) && Decode(t.log, ENTRIES_AT, LogParity(t.log)) == Some(ws)
    requires AllWithin(ws, |t.home|) && u.log == t.log && |u.home| == |t.home|
    requires forall a | 0 <= a < |t.home| :: u.home[a] == t.home[a] || InFootprint(ws, a)
    ensures Recover(u) == Recover(t)
  {
    ReplayAbsorbs(t.home, u.home, ws);
  }

  /** The next wrap has opened the log. */
  ghost function Reopened(t: Persistent, parity: nat): (u: Persistent)
    requires |t.log| >= ENTRIES_AT && parity < 2
    ensures |u.log| == |t.log| && u.home == t.home
  {
    t.(log := Poke(t.log, FLAG_AT, LE(4, 1 - parity)))
  }

  lemma {:induction false} RecoverReopened(t: Persistent, parity: nat)
    requires |t.log| >= ENTRIES_AT && parity < 2
    ensures Recover(Reopened(t, parity)) == Some(t.home)
  {
    hide Decode, LE, Poke;
    LowByte(1 - parity);
    FlagByte(Reopened(t, parity).log);
  }

  /** A crash after the close of a wrap and before the next open: the log is whole, and home
      memory has all the writes if the close has written them back. */
  ghost predicate ClosedCrash(s: Persistent, w: Wrap, parity: nat, delayed: bool, t: Persistent)
    requires Fits(s, w, parity)
  {
    && CrashState(s, w, parity, |Before(s, w, parity) + Mark(parity)|, t)
    && (!delayed ==> t.home == Replay(s.home, w.ws))
  }

  /** Exactly when a log may be opened again after the close of its wrap: if the close has
      written back, or the wrap has written nothing. Otherwise some crash loses a wrap that
      recovery had found complete. */
  lemma {:induction false} ReopenSafeExactly(s: Persistent, w: Wrap, parity: nat, delayed: bool)
    requires Settled(s) && Fits(s, w, parity)
    ensures (forall t | ClosedCrash(s, w, parity, delayed, t) :: |t.log| >= ENTRIES_AT && Recover(Reopened(t, parity)) == Recover(t))
            <==> !delayed || forall a | 0 <= a < |s.home| :: !InFootprint(w.ws, a)
  {
    hide ClosedCrash, Recover, Reopened, Replay, Settled;
    if !delayed || forall a | 0 <= a < |s.home| :: !InFootprint(w.ws, a) {
      forall t | ClosedCrash(s, w, parity, delayed, t) ensures |t.log| >= ENTRIES_AT && Recover(Reopened(t, parity)) == Recover(t) {
        NothingLost(s, w, parity, delayed, t);
      }
    } else {
      var a :| 0 <= a < |s.home| && InFootprint(w.ws, a);
      var t := LostWrap(s, w, parity, a);
    }
  }

  lemma {:induction false} NothingLost(s: Persistent, w: Wrap, parity: nat, delayed: bool, t: Persistent)
    requires Settled(s) && Fits(s, w, parity) && ClosedCrash(s, w, parity, delayed, t)
    requires !delayed || forall a | 0 <= a < |s.home| :: !InFootprint(w.ws, a)
    ensures |t.log| >= ENTRIES_AT && Recover(Reopened(t, parity)) == Recover(t)
  {
    hide Recover, Reopened, Replay, Settled, LogAfter, Before;
    WrapIsAtomic(s, w, parity, |Before(s, w, parity) + Mark(parity)|, t);
    RecoverReopened(t, parity);
    if delayed {
      ReplayOutside(s.home, w.ws);
      assert t.home == s.home;
    }
  }

  /** The crash that loses a wrap: one byte that it writes has not got home. */
  lemma {:induction false} LostWrap(s: Persistent, w: Wrap, parity: nat, a: nat) returns (t: Persistent)
    requires Settled(s) && Fits(s, w, parity) && a < |s.home| && InFootprint(w.ws, a)
    ensures ClosedCrash(s, w, parity, true, t) && |t.log| >= ENTRIES_AT
    ensures Recover(t) == Some(Replay(s.home, w.ws)) && Recover(Reopened(t, parity)) != Recover(t)
  {
    hide Recover, Reopened, Replay, Settled, LogAfter, Before;
    var n := |Before(s, w, parity) + Mark(parity)|;
    var b := ReplayShows(s.home, w.ws, a);
    t := Persistent(LogAfter(s, w, parity, n), s.home[a := b]);
    WrapIsAtomic(s, w, parity, n, t);
    RecoverReopened(t, parity);
    assert t.home[a] != Replay(s.home, w.ws)[a];
  }
}
