/** The filter in front of the table: which four-byte granules may have been written. */
module Bloom {
  import opened Powers

  // 1024 words of 64 bits, four-byte granules.
  const BLOOM_SIZE := 1024

  /** The granule of an address. */
  function Granule(ptr: nat): nat {
    ptr / 4 % 65536
  }

  /** The bit of a granule within its word. The shift is of an `int`, which on the
      target takes the count modulo 32 and extends bit 31 to the left. */
  function Bit(i: nat): bv64 {
    if i % 32 == 31 then 0xFFFF_FFFF_8000_0000 else 1 << (i % 32)
  }

  /** What the check returns is an `int`: the low half of the word. */
  predicate Hit(word: bv64, bit: bv64) {
    (word & bit) & 0xFFFF_FFFF != 0
  }

  /** Two addresses share a bit: the int shift folds each word onto half of its bits. */
  predicate SameBit(a: nat, b: nat) {
    Granule(a) / 64 == Granule(b) / 64 && Granule(a) % 32 == Granule(b) % 32
  }

  /** In terms of addresses: 256 of them share a word, there are 1024 words, and a word tells
      the four-byte granules apart by their number modulo 32. */
  lemma {:induction false} SharedBit(a: nat, b: nat)
    ensures SameBit(a, b) <==> a / 256 % 1024 == b / 256 % 1024 && a / 4 % 32 == b / 4 % 32
  {
    WordOf(a);
    WordOf(b);
  }

  lemma {:induction false} WordOf(a: nat)
    ensures Granule(a) / 64 == a / 256 % 1024 && Granule(a) % 32 == a / 4 % 32
  {
    GranuleParts(a / 4);
    assert a / 4 / 64 == a / 256;
  }

  lemma {:induction false} GranuleParts(g: nat)
    ensures g % 65536 / 64 == g / 64 % 1024 && g % 65536 % 32 == g % 32
  {
    var k, r := g / 65536, g % 65536;
    Quotient(64, 1024 * k, r);
    Quotient(1024, k, r / 64);
    Quotient(32, 2048 * k, r);
  }

  lemma {:induction false} HitOr(word: bv64, more: bv64, bit: bv64)
    ensures Hit(word | more, bit) <==> Hit(word, bit) || Hit(more, bit)
  {
    AndOverOr(word, more, bit);
    OrIsZero((word & bit) & 0xFFFF_FFFF, (more & bit) & 0xFFFF_FFFF);
  }

  lemma {:induction false} AndOverOr(a: bv64, b: bv64, c: bv64)
    ensures ((a | b) & c) & 0xFFFF_FFFF == ((a & c) & 0xFFFF_FFFF) | ((b & c) & 0xFFFF_FFFF)
  {
  }

  lemma {:induction false} OrIsZero(a: bv64, b: bv64)
    ensures a | b == 0 <==> a == 0 && b == 0
  {
    Absorb(a, b);
    Absorb(b, a);
    if a | b == 0 {
      assert b | a == 0;
      assert a & 0 == 0 && b & 0 == 0;
    }
  }

  lemma {:induction false} Absorb(a: bv64, b: bv64)
    ensures a & (a | b) == a
  {
  }

  lemma {:induction false} NoHitInZero(bit: bv64)
    ensures !Hit(0, bit)
  {
  }

  lemma {:induction false} LowHalf(i: nat)
    ensures Bit(i) & 0xFFFF_FFFF == (1 as bv64) << (i % 32)
  {
    ShiftLow(i % 32);
  }

  lemma {:induction false} ShiftLow(k: nat)
    requires k < 32
    ensures ((1 as bv64) << k) & 0xFFFF_FFFF == (1 as bv64) << k
  {
    assert (1 as bv64) << 0 == 1;
  }

  lemma {:induction false} ShiftsMeet(k: nat, m: nat)
    requires k < 32 && m < 32
    ensures ((1 as bv64) << k) & ((1 as bv64) << m) != 0 <==> k == m
  {
    assert (1 as bv64) << 0 == 1;
  }

  lemma {:induction false} LowMeet(a: bv64, b: bv64)
    ensures (a & b) & 0xFFFF_FFFF == (a & 0xFFFF_FFFF) & (b & 0xFFFF_FFFF)
  {
  }

  /** Bits of a word meet exactly when their numbers agree modulo 32. */
  lemma {:induction false} BitsMeet(i: nat, j: nat)
    ensures Hit(Bit(i), Bit(j)) <==> i % 32 == j % 32
  {
    LowMeet(Bit(i), Bit(j));
    LowHalf(i);
    LowHalf(j);
    ShiftsMeet(i % 32, j % 32);
  }

  lemma {:induction false} AddedBit(word: bv64, ptr: nat, a: nat)
    requires Granule(a) / 64 == Granule(ptr) / 64
    ensures Hit(word | Bit(Granule(ptr) % 64), Bit(Granule(a) % 64)) <==> Hit(word, Bit(Granule(a) % 64)) || SameBit(a, ptr)
  {
    var i, j := Granule(ptr), Granule(a);
    HalfWord(i);
    HalfWord(j);
    assert Hit(Bit(i % 64), Bit(j % 64)) <==> SameBit(a, ptr) by {
      BitsMeet(i % 64, j % 64);
    }
    HitOrSame(word, Bit(i % 64), Bit(j % 64), SameBit(a, ptr));
  }

  lemma {:induction false} HitOrSame(word: bv64, x: bv64, y: bv64, same: bool)
    requires Hit(x, y) <==> same
    ensures Hit(word | x, y) <==> Hit(word, y) || same
  {
    HitOr(word, x, y);
  }

  lemma {:induction false} HalfWord(i: nat)
    ensures i % 64 % 32 == i % 32
  {
  }

  /** What a check of an address says of a field of words. */
  ghost predicate FlaggedIn(words: seq<bv64>, ptr: nat)
    requires |words| == BLOOM_SIZE
  {
    Hit(words[Granule(ptr) / 64], Bit(Granule(ptr) % 64))
  }

  function WithBit(words: seq<bv64>, i: nat): seq<bv64>
    requires |words| == BLOOM_SIZE && i < 65536
  {
    words[i / 64 := words[i / 64] | Bit(i % 64)]
  }

  lemma {:induction false} SetFlag(words: seq<bv64>, ptr: nat, a: nat)
    requires |words| == BLOOM_SIZE
    ensures FlaggedIn(WithBit(words, Granule(ptr)), a) <==> FlaggedIn(words, a) || SameBit(a, ptr)
  {
    if Granule(a) / 64 == Granule(ptr) / 64 {
      AddedBit(words[Granule(ptr) / 64], ptr, a);
    }
  }

  ghost function WithFlags(flags: iset<nat>, ptr: nat): iset<nat> {
    iset a: nat | a in flags || SameBit(a, ptr)
  }

  lemma {:induction false} SetFlags(words: seq<bv64>, ptr: nat, flags: iset<nat>)
    requires |words| == BLOOM_SIZE && forall a: nat {:trigger FlaggedIn(words, a)} :: FlaggedIn(words, a) <==> a in flags
    ensures var after := WithBit(words, Granule(ptr));
            forall a: nat {:trigger FlaggedIn(after, a)} :: FlaggedIn(after, a) <==> a in WithFlags(flags, ptr)
  {
    var after := WithBit(words, Granule(ptr));
    forall a: nat ensures FlaggedIn(after, a) <==> a in WithFlags(flags, ptr) {
      SetFlag(words, ptr, a);
    }
  }

  class BloomFilter {
    const words: array<bv64>
    // The addresses for which a check says yes.
    ghost var flags: iset<nat>

    ghost predicate Valid()
      reads this, words
    {
      words.Length == BLOOM_SIZE && forall a: nat {:trigger FlaggedIn(words[..], a)} :: FlaggedIn(words[..], a) <==> a in flags
    }

    ghost predicate Flagged(ptr: nat)
      reads this
    {
      ptr in flags
    }

    /** Every granule that the loops visit is flagged. */
    ghost predicate RangeFlagged(ptr: nat, size: nat)
      reads this
    {
      forall j: nat | 4 * j <= size :: Flagged(ptr + 4 * j)
    }

    constructor ()
      ensures words.Length == BLOOM_SIZE && fresh(words)
    {
      words := new bv64[BLOOM_SIZE];
    }

    method CheckBloom(ptr: nat) returns (hit: bool)
      requires Valid()
      ensures hit == Flagged(ptr)
    {
      var i := Granule(ptr);
      hit := Hit(words[i / 64], Bit(i % 64));
      assert hit == FlaggedIn(words[..], ptr);
    }

    method SetBloom(ptr: nat)
      requires Valid()
      modifies this`flags, words
      ensures Valid() && forall a: nat :: Flagged(a) <==> old(Flagged(a)) || SameBit(a, ptr)
    {
      var i := Granule(ptr);
      SetFlags(words[..], ptr, flags);
      OrWord(i);
      flags := WithFlags(flags, ptr);
    }

    method OrWord(i: nat)
      requires words.Length == BLOOM_SIZE && i < 65536
      modifies words
      ensures words[..] == WithBit(old(words[..]), i)
    {
      words[i / 64] := words[i / 64] | Bit(i % 64);
    }

    lemma {:induction false} FlaggedAt(ptr: nat, size: nat, j: nat)
      requires RangeFlagged(ptr, size) && 4 * j <= size
      ensures Flagged(ptr + 4 * j)
    {
    }

    lemma {:induction false} SameGranule(a: nat, b: nat)
      requires Valid() && Granule(a) == Granule(b)
      ensures Flagged(a) == Flagged(b)
    {
      assert FlaggedIn(words[..], a) == FlaggedIn(words[..], b);
    }

    method SetBloomRange(ptr: nat, size: nat)
      requires Valid()
      modifies this`flags, words
      ensures Valid() && RangeFlagged(ptr, size) && forall p: nat, s: nat | old(RangeFlagged(p, s)) :: RangeFlagged(p, s)
      ensures forall a: nat :: Flagged(a) <==> old(Flagged(a)) || exists j: nat :: 4 * j <= size && SameBit(a, ptr + 4 * j)
    {
      var i := ptr;
      ghost var n: nat := 0;
      while i <= ptr + size
        invariant i == ptr + 4 * n && Valid()
        invariant forall j: nat | j < n :: 4 * j <= size
        invariant forall a: nat :: Flagged(a) <==> old(Flagged(a)) || exists j: nat :: j < n && SameBit(a, ptr + 4 * j)
        decreases ptr + size + 1 - i
      {
        SetBloom(i);
        i := i + 4;
        n := n + 1;
      }
    }

    method CheckBloomRange(ptr: nat, size: nat) returns (hit: bool)
      requires Valid()
      ensures hit <==> exists j: nat :: 4 * j <= size && Flagged(ptr + 4 * j)
    {
      var i := ptr;
      ghost var n: nat := 0;
      while i <= ptr + size
        invariant i == ptr + 4 * n
        invariant forall j: nat | j < n :: !Flagged(ptr + 4 * j)
        decreases ptr + size + 1 - i
      {
        var h := CheckBloom(i);
        if h {
          return true;
        }
        i := i + 4;
        n := n + 1;
      }
      hit := false;
    }

    method ClearBloom()
      requires words.Length == BLOOM_SIZE
      modifies this`flags, words
      ensures Valid() && forall a: nat :: !Flagged(a)
    {
      for i := 0 to BLOOM_SIZE
        invariant forall j | 0 <= j < i :: words[j] == 0
      {
        words[i] := 0;
      }
      flags := iset{};
      forall a: nat ensures !FlaggedIn(words[..], a) {
        NoHitInZero(Bit(Granule(a) % 64));
      }
    }
  }

  /** The condition under which the loops, which go up in steps of a granule from an
      address that need not be aligned, meet every granule of the range. */
  predicate Aligned(ptr: nat, size: nat) {
    size == 0 || ptr % 4 + size % 4 <= 4
  }

  /** Address `b` is in the granule of the `j`-th address the loops visit. */
  ghost predicate Visited(ptr: nat, size: nat, b: nat) {
    exists j: nat :: 4 * j <= size && (ptr + 4 * j) / 4 == b / 4
  }

  lemma {:induction false} StepsCover(ptr: nat, size: nat)
    ensures (forall b: nat | ptr <= b < ptr + size :: Visited(ptr, size, b)) <==> Aligned(ptr, size)
  {
    if Aligned(ptr, size) {
      forall b: nat | ptr <= b < ptr + size ensures Visited(ptr, size, b) {
        var j := b / 4 - ptr / 4;
        assert 4 * j <= size && (ptr + 4 * j) / 4 == b / 4;
      }
    } else {
      var b := ptr + size - 1;
      assert ptr <= b < ptr + size && !Visited(ptr, size, b);
    }
  }

  /** Two overlapping ranges, both aligned in that sense, are visited in a common granule. */
  lemma {:induction false} CommonGranule(p: nat, s: nat, q: nat, n: nat, b: nat) returns (i: nat, j: nat)
    requires Aligned(p, s) && Aligned(q, n) && p <= b < p + s && q <= b < q + n
    ensures 4 * i <= s && 4 * j <= n && Granule(p + 4 * i) == Granule(q + 4 * j)
  {
    StepsCover(p, s);
    StepsCover(q, n);
    assert Visited(p, s, b) && Visited(q, n, b);
    i :| 4 * i <= s && (p + 4 * i) / 4 == b / 4;
    j :| 4 * j <= n && (q + 4 * j) / 4 == b / 4;
  }

  /** A read finds a flag of this write, whatever else is flagged. */
  ghost predicate Meets(p: nat, s: nat, q: nat, n: nat) {
    exists i: nat, j: nat :: 4 * i <= s && 4 * j <= n && SameBit(q + 4 * j, p + 4 * i)
  }

  ghost predicate Overlaps(p: nat, s: nat, q: nat, n: nat) {
    p < q + n && q < p + s
  }

  /** The last byte of a range shares its bit with a granule that was visited. */
  ghost predicate Folded(p: nat, s: nat)
    requires s > 0
  {
    exists i: nat :: 4 * i <= s && SameBit(p + s - 1, p + 4 * i)
  }

  /** Exactly which writes no aligned read can miss: the aligned ones, and those whose last
      byte happens to fold onto the bit of a granule before it. */
  lemma {:induction false} NeverMissed(p: nat, s: nat)
    requires s > 0
    ensures (forall q: nat, n: nat | Aligned(q, n) && Overlaps(p, s, q, n) :: Meets(p, s, q, n)) <==> Aligned(p, s) || Folded(p, s)
  {
    if Aligned(p, s) || Folded(p, s) {
      forall q: nat, n: nat | Aligned(q, n) && Overlaps(p, s, q, n) ensures Meets(p, s, q, n) {
        MetByRead(p, s, q, n);
      }
    } else {
      LastByteMissed(p, s);
    }
  }

  lemma {:induction false} MetByRead(p: nat, s: nat, q: nat, n: nat)
    requires s > 0 && (Aligned(p, s) || Folded(p, s)) && Aligned(q, n) && Overlaps(p, s, q, n)
    ensures Meets(p, s, q, n)
  {
    var c := if p < q then q else p;
    StepsCover(q, n);
    assert Visited(q, n, c);
    var j: nat :| 4 * j <= n && (q + 4 * j) / 4 == c / 4;
    if Visited(p, s, c) {
      var i: nat :| 4 * i <= s && (p + 4 * i) / 4 == c / 4;
      assert SameBit(q + 4 * j, p + 4 * i);
    } else {
      if Aligned(p, s) { StepsCover(p, s); }
      OnlyLastUnvisited(p, s, c);
      var i: nat :| 4 * i <= s && SameBit(p + s - 1, p + 4 * i);
      assert SameBit(q + 4 * j, p + 4 * i);
    }
  }

  lemma {:induction false} OnlyLastUnvisited(p: nat, s: nat, c: nat)
    requires p <= c < p + s && !Visited(p, s, c)
    ensures c / 4 == (p + s - 1) / 4
  {
    var i := c / 4 - p / 4;
    assert (p + 4 * i) / 4 == c / 4;
    assert 4 * i > s;
  }

  lemma {:induction false} LastByteMissed(p: nat, s: nat)
    requires s > 0 && !Folded(p, s)
    ensures Aligned(p + s - 1, 1) && Overlaps(p, s, p + s - 1, 1) && !Meets(p, s, p + s - 1, 1)
  {
    forall i: nat, j: nat | 4 * i <= s && 4 * j <= 1 ensures !SameBit(p + s - 1 + 4 * j, p + 4 * i) {
      assert j == 0;
    }
  }

  /** Off that condition the filter does miss: after a write of two bytes at address 3
      into an empty filter, a read of the second of them meets no flag. */
  lemma {:induction false} MissedOverlap()
    ensures !Aligned(3, 2) && 3 <= 4 < 3 + 2
    ensures forall i: nat, j: nat | 4 * i <= 2 && 4 * j <= 1 :: !SameBit(4 + 4 * j, 3 + 4 * i)
  {
    forall i: nat, j: nat | 4 * i <= 2 && 4 * j <= 1 ensures !SameBit(4 + 4 * j, 3 + 4 * i) {
      assert i == 0 && j == 0;
    }
  }
}
