/** Words of 64 bits: their reversal, their bits, and where a bit is. */
module Words {

  /** The reversal of a 64-bit word: bytes swapped, then halves of bytes, then pairs
      of bits, then bits. */
  function BitReverse(x: bv64): bv64 {
    SwapBits(SwapPairs(SwapNibbles(SwapBytes(x))))
  }

  function SwapBytes(x: bv64): bv64 {
    var a := (x >> 32) | (x << 32);
    var b := ((a >> 16) & 0x0000_FFFF_0000_FFFF) | ((a & 0x0000_FFFF_0000_FFFF) << 16);
    ((b >> 8) & 0x00FF_00FF_00FF_00FF) | ((b & 0x00FF_00FF_00FF_00FF) << 8)
  }

  function SwapNibbles(x: bv64): bv64 {
    ((x >> 4) & 0x0F0F_0F0F_0F0F_0F0F) | ((x & 0x0F0F_0F0F_0F0F_0F0F) << 4)
  }

  function SwapPairs(x: bv64): bv64 {
    ((x >> 2) & 0x3333_3333_3333_3333) | ((x & 0x3333_3333_3333_3333) << 2)
  }

  function SwapBits(x: bv64): bv64 {
    ((x >> 1) & 0x5555_5555_5555_5555) | ((x & 0x5555_5555_5555_5555) << 1)
  }

  /** It is the reversal: bit `i` of the result is bit `63 - i` of the word. */
  lemma {:induction false} TrueReversal(x: bv64, i: bv64)
    requires i < 64
    ensures (BitReverse(x) >> i) & 1 == (x >> (63 - i)) & 1
  {
  }

  /** The form for 32-bit arithmetic reverses the two halves apart and swaps them. */
  function BitReverseByHalves(x: bv64): bv64 {
    var h, l := ReverseHalf((x >> 32) as bv32), ReverseHalf((x & 0xFFFF_FFFF) as bv32);
    (l as bv64 << 32) | h as bv64
  }

  function ReverseHalf(x: bv32): bv32 {
    var a := (x >> 16) | (x << 16);
    var b := ((a >> 8) & 0x00FF_00FF) | ((a & 0x00FF_00FF) << 8);
    var c := ((b >> 4) & 0x0F0F_0F0F) | ((b & 0x0F0F_0F0F) << 4);
    var d := ((c >> 2) & 0x3333_3333) | ((c & 0x3333_3333) << 2);
    ((d >> 1) & 0x5555_5555) | ((d & 0x5555_5555) << 1)
  }

  lemma {:induction false} TrueReversalByHalves(x: bv64, i: bv64)
    requires i < 64
    ensures (BitReverseByHalves(x) >> i) & 1 == (x >> (63 - i)) & 1
  {
  }

  // ---- Bits ----

  ghost predicate Odd(x: bv64) {
    x & 1 == 1
  }

  ghost function Half(x: bv64): bv64 {
    x >> 1
  }

  ghost function By(x: bv64, b: bv64): bv64
    requires b <= 63
  {
    x >> b
  }

  /** A bit's place as a number. */
  ghost function Value(b: bv64): nat {
    b as nat
  }

  ghost function Either(x: bv64, y: bv64): bv64 {
    x | y
  }

  lemma {:induction false} NextIndex(b: bv64)
    requires b < 63
    ensures Value(b + 1) == Value(b) + 1
  {
  }

  lemma {:induction false} PreviousIndex(b: bv64)
    requires b <= 63
    ensures if b == 0 then Value(b) == 0 else Value(b - 1) == Value(b) - 1
  {
    if b > 0 { NextIndex(b - 1); }
  }

  lemma {:induction false} LastIndex(b: bv64)
    requires b <= 63 && Value(b) < 63
    ensures b < 63
  {
  }

  lemma {:induction false} Index(i: nat) returns (b: bv64)
    requires i < 64
    ensures b <= 63 && Value(b) == i
  {
    hide Value;
    b := 0;
    PreviousIndex(b);
    if i > 0 {
      b := Index(i - 1);
      LastIndex(b);
      NextIndex(b);
      b := b + 1;
    }
  }

  lemma {:induction false} OppositeIndex(b: bv64)
    requires b <= 63
    ensures Value(63 - b) == 63 - Value(b)
  {
  }

  lemma {:induction false} NoShift(x: bv64)
    ensures By(x, 0) == x
  {
  }

  lemma {:induction false} OneShift(x: bv64)
    ensures By(x, 1) == Half(x)
  {
  }

  /** Shifting by one and then by `b` is shifting once. */
  lemma {:induction false} HalfShifted(x: bv64, b: bv64)
    requires b < 63
    ensures By(Half(x), b) == By(x, b + 1)
  {
    hide By, Half;
    if b == 0 {
      NoShift(Half(x));
      OneShift(x);
    } else if b < 16 {
      HalfShiftedNear(x, Half(x), b, b + 1);
    } else if b < 32 {
      HalfShiftedFar(x, Half(x), b, b + 1);
    } else {
      HalfShiftedFarther(x, Half(x), b, b + 1);
    }
  }

  lemma {:induction false} HalfShiftedNear(x: bv64, y: bv64, b: bv64, c: bv64)
    requires 0 < b < 16 && y == Half(x) && c == b + 1
    ensures By(y, b) == By(x, c)
  {
  }

  lemma {:induction false} HalfShiftedFar(x: bv64, y: bv64, b: bv64, c: bv64)
    requires 16 <= b < 32 && y == Half(x) && c == b + 1
    ensures By(y, b) == By(x, c)
  {
  }

  lemma {:induction false} HalfShiftedFarther(x: bv64, y: bv64, b: bv64, c: bv64)
    requires 32 <= b < 63 && y == Half(x) && c == b + 1
    ensures By(y, b) == By(x, c)
  {
  }

  lemma {:induction false} HalfOfOr(x: bv64, y: bv64)
    ensures Half(Either(x, y)) == Either(Half(x), Half(y))
  {
  }

  lemma {:induction false} OddOr(x: bv64, y: bv64)
    ensures Odd(Either(x, y)) <==> Odd(x) || Odd(y)
  {
  }

  lemma {:induction false} BitBy(x: bv64, b: bv64)
    requires b <= 63
    ensures Odd(By(BitReverse(x), b)) == Odd(By(x, 63 - b))
  {
    TrueReversal(x, b);
  }
}
