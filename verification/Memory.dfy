/** Byte memory: little-endian numbers, stores, and writes replayed in order. */
module Memory {
  import opened Powers
  import opened Wrappers

  type Byte = b: int | 0 <= b < 256

  /** The `n` bytes that hold `v`, lowest first. */
  function LE(n: nat, v: nat): (r: seq<Byte>)
    ensures |r| == n
  {
    if n == 0 then [] else [v % 256] + LE(n - 1, v / 256)
  }

  function UnLE(s: seq<Byte>): nat {
    if s == [] then 0 else s[0] + 256 * UnLE(s[1..])
  }

  ghost function Pow256(n: nat): nat {
    if n == 0 then 1 else 256 * Pow256(n - 1)
  }

  lemma {:induction false} UnLERoundTrip(n: nat, v: nat)
    requires v < Pow256(n)
    ensures UnLE(LE(n, v)) == v
  {
    if n > 0 {
      UnLERoundTrip(n - 1, v / 256);
    }
  }

  lemma {:induction false} Widths()
    ensures Pow256(4) == 0x1_0000_0000 && Pow256(8) == 0x1_0000_0000_0000_0000
  {
    assert Pow256(3) == 0x100_0000;
    assert Pow256(6) == 0x1_0000_0000_0000;
  }

  /** Byte `i` is the digit of weight 256 to the `i`. */
  lemma {:induction false} LEByte(n: nat, v: nat, i: nat)
    requires i < n
    ensures Pow256(i) > 0 && LE(n, v)[i] == v / Pow256(i) % 256
  {
    if i > 0 {
      LEByte(n - 1, v / 256, i - 1);
      DivideTwice(v, 256, Pow256(i - 1));
    }
  }

  /** Every byte string is the one of its number. */
  lemma {:induction false} LEOfUnLE(s: seq<Byte>)
    ensures LE(|s|, UnLE(s)) == s
  {
    if s != [] {
      LEOfUnLE(s[1..]);
      assert UnLE(s) % 256 == s[0] && UnLE(s) / 256 == UnLE(s[1..]);
      assert s == [s[0]] + s[1..];
    }
  }

  /** Memory after the bytes `d` have been stored at address `at`. */
  function Poke(mem: seq<Byte>, at: nat, d: seq<Byte>): (r: seq<Byte>)
    requires at + |d| <= |mem|
    ensures |r| == |mem|
    ensures forall a | 0 <= a < |mem| :: r[a] == if at <= a < at + |d| then d[a - at] else mem[a]
  {
    mem[..at] + d + mem[at + |d|..]
  }

  /** Two stores in a row. */
  lemma {:induction false} PokePoke(mem: seq<Byte>, at: nat, a: seq<Byte>, b: seq<Byte>)
    requires at + |a| + |b| <= |mem|
    ensures Poke(Poke(mem, at, a), at + |a|, b) == Poke(mem, at, a + b)
  {
  }

  /** The copy loop for non-temporal stores: whole words, then a last word whose
      unused bytes are rewritten with what the destination held. */
  method NtStore(dest: array<Byte>, at: nat, src: seq<Byte>)
    requires at + (|src| + 3) / 4 * 4 <= dest.Length
    modifies dest
    ensures dest[..] == Poke(old(dest[..]), at, src)
  {
    ghost var before := dest[..];
    var d, s := at, 0;
    while s + 4 <= |src|
      invariant 0 <= s <= |src| && s % 4 == 0 && d == at + s
      invariant forall a | 0 <= a < dest.Length :: dest[a] == if at <= a < at + s then src[a - at] else before[a]
    {
      StreamingStore(dest, d, src[s], src[s + 1], src[s + 2], src[s + 3]);
      d, s := d + 4, s + 4;
    }
    if |src| - s > 0 {
      var c0 := src[s];
      var c1 := if |src| - s > 1 then src[s + 1] else dest[d + 1];
      var c2 := if |src| - s > 2 then src[s + 2] else dest[d + 2];
      StreamingStore(dest, d, c0, c1, c2, dest[d + 3]);
    }
    assert forall a | 0 <= a < dest.Length :: dest[a] == Poke(before, at, src)[a];
  }

  /** One word. */
  method StreamingStore(dest: array<Byte>, d: nat, b0: Byte, b1: Byte, b2: Byte, b3: Byte)
    requires d + 4 <= dest.Length
    modifies dest
    ensures forall a | 0 <= a < dest.Length ::
              dest[a] == if a == d then b0 else if a == d + 1 then b1 else if a == d + 2 then b2 else if a == d + 3 then b3 else old(dest[a])
  {
    dest[d], dest[d + 1], dest[d + 2], dest[d + 3] := b0, b1, b2, b3;
  }

  /** The ordinary byte copy. */
  method MemCpy(dest: array<Byte>, at: nat, src: seq<Byte>)
    requires at + |src| <= dest.Length
    modifies dest
    ensures dest[..] == Poke(old(dest[..]), at, src)
  {
    ghost var before := dest[..];
    for i := 0 to |src|
      invariant forall a | 0 <= a < dest.Length :: dest[a] == if at <= a < at + i then src[a - at] else before[a]
    {
      dest[at + i] := src[i];
    }
    assert forall a | 0 <= a < dest.Length :: dest[a] == Poke(before, at, src)[a];
  }

  // ---- Writes and their replay ----

  /** A write of some bytes at an address of home memory. */
  datatype Write = Write(dest: nat, data: seq<Byte>)

  ghost predicate Within(w: Write, size: nat) {
    w.dest + |w.data| <= size
  }

  ghost predicate AllWithin(ws: seq<Write>, size: nat) {
    forall i | 0 <= i < |ws| :: Within(ws[i], size)
  }

  /** Home memory after all the writes, in order. */
  ghost function Replay(home: seq<Byte>, ws: seq<Write>): (r: seq<Byte>)
    requires AllWithin(ws, |home|)
    ensures |r| == |home|
  {
    if ws == [] then home
    else
      var w := ws[|ws| - 1];
      assert Within(w, |home|);
      Poke(Replay(home, ws[..|ws| - 1]), w.dest, w.data)
  }

  ghost predicate Covers(w: Write, a: nat) {
    w.dest <= a < w.dest + |w.data|
  }

  /** What the last of the writes that cover an address puts there. */
  ghost function LastAt(ws: seq<Write>, a: nat): Option<Byte> {
    if ws == [] then None
    else
      var w := ws[|ws| - 1];
      if Covers(w, a) then Some(w.data[a - w.dest]) else LastAt(ws[..|ws| - 1], a)
  }

  ghost predicate InFootprint(ws: seq<Write>, a: nat) {
    LastAt(ws, a).Some?
  }

  /** Replaying in order means: the last write wins, byte by byte. */
  lemma {:induction false} ReplayAt(home: seq<Byte>, ws: seq<Write>, a: nat)
    requires AllWithin(ws, |home|) && a < |home|
    ensures Replay(home, ws)[a] == if InFootprint(ws, a) then LastAt(ws, a).value else home[a]
  {
    hide Poke, Within;
    if ws != [] {
      assert Within(ws[|ws| - 1], |home|);
      ReplayAt(home, ws[..|ws| - 1], a);
    }
  }

  lemma {:induction false} FootprintIs(ws: seq<Write>, a: nat)
    ensures InFootprint(ws, a) <==> exists i :: 0 <= i < |ws| && Covers(ws[i], a)
  {
    if ws != [] {
      var ws' := ws[..|ws| - 1];
      FootprintIs(ws', a);
      assert forall i | 0 <= i < |ws'| :: ws'[i] == ws[i];
    }
  }

  /** Nothing but write `i` and what comes before it counts, if no later one covers the byte. */
  ghost predicate LastToCover(ws: seq<Write>, i: nat, a: nat) {
    i < |ws| && Covers(ws[i], a) && forall j | i < j < |ws| :: !Covers(ws[j], a)
  }

  /** A byte ends as the last of the writes that cover it says, and as it was if none does. */
  lemma {:induction false} LastWriteWins(home: seq<Byte>, ws: seq<Write>, a: nat)
    requires AllWithin(ws, |home|) && a < |home|
    ensures (forall i | 0 <= i < |ws| :: !Covers(ws[i], a)) ==> Replay(home, ws)[a] == home[a]
    ensures forall i: nat | LastToCover(ws, i, a) :: Replay(home, ws)[a] == ws[i].data[a - ws[i].dest]
  {
    hide Replay, Within;
    ReplayAt(home, ws, a);
    FootprintIs(ws, a);
    forall i: nat | LastToCover(ws, i, a) ensures Replay(home, ws)[a] == ws[i].data[a - ws[i].dest] {
      LastIs(ws, i, a);
    }
  }

  lemma {:induction false} LastIs(ws: seq<Write>, i: nat, a: nat)
    requires LastToCover(ws, i, a)
    ensures InFootprint(ws, a) && LastAt(ws, a) == Some(ws[i].data[a - ws[i].dest])
    decreases |ws|
  {
    var ws' := ws[..|ws| - 1];
    if i < |ws'| {
      assert LastToCover(ws', i, a);
      LastIs(ws', i, a);
    }
  }

  lemma {:induction false} ReplayAppend(home: seq<Byte>, a: seq<Write>, b: seq<Write>)
    requires AllWithin(a, |home|) && AllWithin(b, |home|)
    ensures AllWithin(a + b, |home|)
    ensures Replay(home, a + b) == Replay(Replay(home, a), b)
  {
    if b == [] {
      assert a + b == a;
    } else {
      ReplayAppend(home, a, b[..|b| - 1]);
      assert (a + b)[..|a + b| - 1] == a + b[..|b| - 1];
      assert Within(b[|b| - 1], |home|);
    }
  }

  /** Replaying the writes over a memory that differs only within their footprint,
      in whatever way, gives the same result: what was there is overwritten. */
  lemma {:induction false} ReplayAbsorbs(home: seq<Byte>, other: seq<Byte>, ws: seq<Write>)
    requires |home| == |other| && AllWithin(ws, |home|)
    requires forall a | 0 <= a < |home| :: other[a] == home[a] || InFootprint(ws, a)
    ensures Replay(other, ws) == Replay(home, ws)
  {
    forall a | 0 <= a < |home| ensures Replay(other, ws)[a] == Replay(home, ws)[a] {
      ReplayAt(home, ws, a);
      ReplayAt(other, ws, a);
    }
  }

  /** Where nothing is written nothing changes. */
  lemma {:induction false} ReplayOutside(home: seq<Byte>, ws: seq<Write>)
    requires AllWithin(ws, |home|) && forall a | 0 <= a < |home| :: !InFootprint(ws, a)
    ensures Replay(home, ws) == home
  {
    forall a | 0 <= a < |home| ensures Replay(home, ws)[a] == home[a] {
      ReplayAt(home, ws, a);
    }
  }

  /** Where something is written there is a memory that it changes. */
  lemma {:induction false} ReplayShows(home: seq<Byte>, ws: seq<Write>, a: nat) returns (b: Byte)
    requires AllWithin(ws, |home|) && a < |home| && InFootprint(ws, a)
    ensures Replay(home[a := b], ws)[a] != b && Replay(home, ws)[a] != b
  {
    b := 255 - LastAt(ws, a).value;
    ReplayAt(home, ws, a);
    ReplayAt(home[a := b], ws, a);
  }

  /** In particular a second replay changes nothing. */
  lemma {:induction false} ReplayTwice(home: seq<Byte>, ws: seq<Write>)
    requires AllWithin(ws, |home|)
    ensures Replay(Replay(home, ws), ws) == Replay(home, ws)
  {
    forall a | 0 <= a < |home| ensures Replay(home, ws)[a] == home[a] || InFootprint(ws, a) {
      ReplayAt(home, ws, a);
    }
    ReplayAbsorbs(home, Replay(home, ws), ws);
  }

  /** Streaming stores write whole words, so each destination needs the rest of its last word. */
  ghost predicate Padded(w: Write, size: nat) {
    w.dest + (|w.data| + 3) / 4 * 4 <= size
  }

  ghost predicate AllPadded(ws: seq<Write>, size: nat) {
    forall i | 0 <= i < |ws| :: Padded(ws[i], size)
  }

  lemma {:induction false} PaddedWithin(ws: seq<Write>, size: nat)
    requires AllPadded(ws, size)
    ensures AllWithin(ws, size)
  {
    forall i | 0 <= i < |ws| ensures Within(ws[i], size) {
      assert Padded(ws[i], size);
    }
  }

  lemma {:induction false} ReplayStart(home: seq<Byte>, ws: seq<Write>)
    ensures ws[..0] == [] && AllWithin(ws[..0], |home|) && Replay(home, ws[..0]) == home
  {
  }

  lemma {:induction false} ReplayOneMore(home: seq<Byte>, ws: seq<Write>, n: nat)
    requires n < |ws| && AllWithin(ws, |home|)
    ensures Within(ws[n], |home|) && Replay(home, ws[..n + 1]) == Poke(Replay(home, ws[..n]), ws[n].dest, ws[n].data)
  {
    assert ws[..n + 1][..n] == ws[..n];
  }

  /** A store of several bytes as it persists: one byte after the other. */
  ghost function Singles(at: nat, d: seq<Byte>): (ws: seq<Write>)
    ensures |ws| == |d| && forall i | 0 <= i < |d| :: ws[i] == Write(at + i, [d[i]])
  {
    seq(|d|, i requires 0 <= i < |d| => Write(at + i, [d[i]]))
  }

  lemma {:induction false} SinglesArePoke(mem: seq<Byte>, at: nat, d: seq<Byte>)
    requires at + |d| <= |mem|
    ensures AllWithin(Singles(at, d), |mem|) && Replay(mem, Singles(at, d)) == Poke(mem, at, d)
    decreases |d|
  {
    if d != [] {
      var d' := d[..|d| - 1];
      SinglesArePoke(mem, at, d');
      assert Singles(at, d)[..|d| - 1] == Singles(at, d');
      PokePoke(mem, at, d', [d[|d| - 1]]);
      assert d' + [d[|d| - 1]] == d;
    }
  }

  /** Whether two stores in a row are kept apart or taken together, the bytes are the same. */
  lemma {:induction false} SinglesJoin(before: seq<Write>, at: nat, a: seq<Byte>, b: seq<Byte>)
    ensures before + Singles(at, a) + Singles(at + |a|, b) == before + Singles(at, a + b)
  {
    assert Singles(at, a + b) == Singles(at, a) + Singles(at + |a|, b);
  }
}
