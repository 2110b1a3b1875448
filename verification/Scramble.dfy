/** The scrambling of vertex numbers: an affine step and a bit reversal, twice. */
module Scramble {

  import opened Powers
  import opened Words

  // ---- The same on numbers ----

  /** The bit `b` at place `n`. */
  ghost function Top(b: nat, n: nat): nat {
    if b == 0 then 0 else Pow2(n)
  }

  /** The lowest `n` bits of a number in reverse order. */
  ghost function Rev(n: nat, x: nat): nat {
    if n == 0 then 0 else Top(x % 2, n - 1) + Rev(n - 1, x / 2)
  }

  ghost function Bit(x: nat, i: nat): nat {
    if i == 0 then x % 2 else Bit(x / 2, i - 1)
  }

  lemma {:induction false} RevBound(n: nat, x: nat)
    ensures Rev(n, x) < Pow2(n)
  {
    if n > 0 {
      RevBound(n - 1, x / 2);
    }
  }

  /** A bit put on top of a number. */
  lemma {:induction false} BitOfTop(n: nat, x: nat, b: nat, i: nat)
    requires x < Pow2(n) && b < 2 && i <= n
    ensures Bit(x + Top(b, n), i) == if i == n then b else Bit(x, i)
  {
    if n > 0 {
      HalfOfTop(n, x, b);
      if i > 0 { BitOfTop(n - 1, x / 2, b, i - 1); }
    }
  }

  lemma {:induction false} HalfOfTop(n: nat, x: nat, b: nat)
    requires n > 0 && x < Pow2(n) && b < 2
    ensures (x + Top(b, n)) % 2 == x % 2 && (x + Top(b, n)) / 2 == x / 2 + Top(b, n - 1)
    ensures x / 2 < Pow2(n - 1)
  {
  }

  /** On numbers too: bit `i` of the result is bit `n - 1 - i` of the number. */
  lemma {:induction false} RevBits(n: nat, x: nat, i: nat)
    requires i < n
    ensures Bit(Rev(n, x), i) == Bit(x, n - 1 - i)
  {
    RevBound(n - 1, x / 2);
    BitOfTop(n - 1, Rev(n - 1, x / 2), x % 2, i);
    if i < n - 1 {
      RevBits(n - 1, x / 2, i);
    }
  }

  lemma {:induction false} RevOfTop(n: nat, x: nat, b: nat)
    requires x < Pow2(n) && b < 2
    ensures Rev(n + 1, x + Top(b, n)) == 2 * Rev(n, x) + b
  {
    if n > 0 {
      HalfOfTop(n, x, b);
      RevOfTop(n - 1, x / 2, b);
      assert Rev(n + 1, x + Top(b, n)) == Top(x % 2, n) + Rev(n, x / 2 + Top(b, n - 1));
    }
  }

  /** Reversing twice changes nothing. */
  lemma {:induction false} RevInvolution(n: nat, x: nat)
    requires x < Pow2(n)
    ensures Rev(n, Rev(n, x)) == x
  {
    if n > 0 {
      RevBound(n - 1, x / 2);
      RevInvolution(n - 1, x / 2);
      RevOfTop(n - 1, Rev(n - 1, x / 2), x % 2);
    }
  }

  /** The highest `n` of `m + n` reversed bits are the lowest `n` bits, reversed. */
  lemma {:induction false} RevHighPart(m: nat, n: nat, x: nat)
    ensures Rev(m + n, x) / Pow2(m) == Rev(n, x % Pow2(n))
  {
    if n == 0 {
      RevBound(m, x);
      NoneIn(Rev(m, x), Pow2(m));
    } else {
      RevHighPart(m, n - 1, x / 2);
      RevHighStep(m, n - 1, x);
    }
  }

  lemma {:induction false} RevHighStep(m: nat, n: nat, x: nat)
    requires Rev(m + n, x / 2) / Pow2(m) == Rev(n, (x / 2) % Pow2(n))
    ensures Rev(m + (n + 1), x) / Pow2(m) == Rev(n + 1, x % Pow2(n + 1))
  {
    hide Rev;
    RevStep(m + (n + 1), x);
    TopOver(x % 2, m, n, Rev(m + n, x / 2));
    RevOfLow(n + 1, x);
  }

  lemma {:induction false} RevStep(n: nat, x: nat)
    requires n > 0
    ensures Rev(n, x) == Top(x % 2, n - 1) + Rev(n - 1, x / 2)
  {
  }

  lemma {:induction false} RevOfLow(n: nat, x: nat)
    requires n > 0
    ensures Rev(n, x % Pow2(n)) == Top(x % 2, n - 1) + Rev(n - 1, (x / 2) % Pow2(n - 1))
  {
    LowBits(n, x);
    RevStep(n, x % Pow2(n));
  }

  lemma {:induction false} TopOver(b: nat, m: nat, n: nat, low: nat)
    ensures (Top(b, m + n) + low) / Pow2(m) == Top(b, n) + low / Pow2(m)
  {
    if b != 0 {
      PowSum(m, n);
      Quotient(Pow2(m), Pow2(n), low);
    }
  }

  lemma {:induction false} PowSum(m: nat, n: nat)
    ensures Pow2(m + n) == Pow2(m) * Pow2(n)
  {
    if n > 0 {
      PowSum(m, n - 1);
      assert Pow2(m + n) == 2 * Pow2(m + (n - 1));
    }
  }

  lemma {:induction false} LowBits(n: nat, x: nat)
    requires n > 0
    ensures (x % Pow2(n)) % 2 == x % 2 && (x % Pow2(n)) / 2 == (x / 2) % Pow2(n - 1)
  {
    Doubled(x / 2, x % 2, Pow2(n - 1));
  }

  lemma {:induction false} Doubled(h: nat, b: nat, p: nat)
    requires p > 0 && b < 2
    ensures (2 * h + b) % (2 * p) == 2 * (h % p) + b
  {
    var q, r := h / p, h % p;
    assert (2 * p) * q + (2 * r + b) == 2 * h + b by { assert (2 * p) * q == 2 * (p * q); }
    Quotient(2 * p, q, 2 * r + b);
    Small(2 * r + b, 2 * p);
  }

  lemma {:induction false} Small(a: nat, p: nat)
    requires a < p
    ensures a % p == a
  {
  }

  // ---- Words as numbers ----

  ghost function LowBit(x: bv64): nat {
    if Odd(x) then 1 else 0
  }

  /** The lowest `n` bits of a word as a number. */
  ghost function Number(x: bv64, n: nat): nat
    decreases n
  {
    if n == 0 then 0 else LowBit(x) + 2 * Number(Half(x), n - 1)
  }

  ghost function Shifted(x: bv64, i: nat): bv64 {
    if i == 0 then x else Shifted(Half(x), i - 1)
  }

  lemma {:induction false} NumberBits(x: bv64, n: nat, i: nat)
    requires i < n
    ensures Bit(Number(x, n), i) == LowBit(Shifted(x, i))
  {
    if i > 0 {
      NumberBits(Half(x), n - 1, i - 1);
    }
  }

  lemma {:induction false} NumberBound(x: bv64, n: nat)
    ensures Number(x, n) < Pow2(n)
  {
    if n > 0 {
      NumberBound(Half(x), n - 1);
    }
  }

  lemma {:induction false} ShiftedBy(x: bv64, i: nat, b: bv64)
    requires b <= 63 && Value(b) == i
    ensures Shifted(x, i) == By(x, b)
    decreases i
  {
    hide Value, Half, By, Odd;
    PreviousIndex(b);
    if i == 0 {
      NoShift(x);
    } else {
      ShiftedBy(Half(x), i - 1, b - 1);
      HalfShifted(x, b - 1);
    }
  }

  lemma {:induction false} SameBits(n: nat, x: nat, y: nat)
    requires x < Pow2(n) && y < Pow2(n) && forall i | 0 <= i < n :: Bit(x, i) == Bit(y, i)
    ensures x == y
  {
    if n > 0 {
      forall i | 0 <= i < n - 1 ensures Bit(x / 2, i) == Bit(y / 2, i) {
        assert Bit(x, i + 1) == Bit(y, i + 1);
      }
      SameBits(n - 1, x / 2, y / 2);
      assert Bit(x, 0) == Bit(y, 0);
    }
  }

  /** The reversal of the word is the reversal of the number that it is. */
  lemma {:induction false} ReversedNumber(x: bv64)
    ensures Number(BitReverse(x), 64) == Rev(64, Number(x, 64))
  {
    forall i | 0 <= i < 64 ensures Bit(Number(BitReverse(x), 64), i) == Bit(Rev(64, Number(x, 64)), i) {
      ReversedBit(x, i);
    }
    NumberBound(BitReverse(x), 64);
    RevBound(64, Number(x, 64));
    SameBits(64, Number(BitReverse(x), 64), Rev(64, Number(x, 64)));
  }

  lemma {:induction false} ReversedBit(x: bv64, i: nat)
    requires i < 64
    ensures Bit(Number(BitReverse(x), 64), i) == Bit(Rev(64, Number(x, 64)), i)
  {
    hide BitReverse, Value, Half, By, Odd, Rev, Number, Shifted, Pow2;
    var b := Index(i);
    OppositeIndex(b);
    ShiftedBy(BitReverse(x), i, b);
    ShiftedBy(x, 63 - i, 63 - b);
    BitBy(x, b);
    NumberBits(BitReverse(x), 64, i);
    NumberBits(x, 64, 63 - i);
    RevBits(64, Number(x, 64), i);
  }

  // ---- Scrambling ----

  ghost function Or(x: nat, y: nat): (z: nat)
    decreases x + y
  {
    if x == 0 && y == 0 then 0 else 2 * Or(x / 2, y / 2) + OrBit(x % 2, y % 2)
  }

  ghost function OrBit(a: nat, b: nat): nat {
    if a == 1 || b == 1 then 1 else 0
  }

  /** It is the disjunction of the words. */
  lemma {:induction false} OrOfWords(x: bv64, y: bv64, n: nat)
    ensures Number(Either(x, y), n) == Or(Number(x, n), Number(y, n))
    decreases n
  {
    hide Half, LowBit, Either, Odd;
    if n > 0 {
      LowBitBound(x);
      LowBitBound(y);
      OrShifted(x, y);
      OrOfWords(Half(x), Half(y), n - 1);
      OrOnce(Number(Half(x), n - 1), LowBit(x), Number(Half(y), n - 1), LowBit(y));
    }
  }

  lemma {:induction false} OrShifted(x: bv64, y: bv64)
    ensures Half(Either(x, y)) == Either(Half(x), Half(y)) && LowBit(Either(x, y)) == OrBit(LowBit(x), LowBit(y))
  {
    hide Half, Either, Odd;
    HalfOfOr(x, y);
    OddOr(x, y);
  }

  lemma {:induction false} OrOnce(a: nat, p: nat, b: nat, q: nat)
    requires p < 2 && q < 2
    ensures Or(p + 2 * a, q + 2 * b) == OrBit(p, q) + 2 * Or(a, b)
  {
    assert (p + 2 * a) / 2 == a && (p + 2 * a) % 2 == p && (q + 2 * b) / 2 == b && (q + 2 * b) % 2 == q;
  }

  lemma {:induction false} LowBitBound(x: bv64)
    ensures LowBit(x) < 2
  {
  }

  lemma {:induction false} OrLowest(x: nat, y: nat)
    ensures Or(x, y) % 2 == OrBit(x % 2, y % 2)
  {
    if x > 0 || y > 0 {
      var h := Or(x / 2, y / 2);
    }
  }

  /** In words of `width` bits: multiply, reverse, keep the highest `n` bits. */
  ghost function Step(width: nat, v: nat, m: nat, n: nat): nat
    requires n <= width
  {
    High(Rev(width, (v * m) % Pow2(width)), Pow2(width - n))
  }

  ghost function High(x: nat, p: nat): nat
    requires p > 0
  {
    x / p
  }

  ghost function Scramble(width: nat, v0: nat, n: nat, val0: nat, val1: nat): nat
    requires n <= width
  {
    var v := (v0 + val0 + val1) % Pow2(width);
    Step(width, Step(width, v, Or(val0, MULTIPLIER0), n), Or(val1, MULTIPLIER1), n)
  }

  const MULTIPLIER0: nat := 0x4519_8402_1149_3211
  const MULTIPLIER1: nat := 0x3050_8521_02C8_43A5

  /** An inverse of an odd number modulo a power of two, found one bit at a time. */
  ghost function Inverse(n: nat, m: nat): nat {
    if n == 0 then 0 else WithNextBit(m, Inverse(n - 1, m), Pow2(n - 1))
  }

  ghost function WithNextBit(m: nat, w: nat, p: nat): nat
    requires p > 0
  {
    if (m * w) % (2 * p) == 1 then w else w + p
  }

  lemma {:induction false} InverseMeets(n: nat, m: nat)
    requires m % 2 == 1
    ensures (m * Inverse(n, m)) % Pow2(n) == 1 % Pow2(n)
  {
    if n > 0 {
      InverseMeets(n - 1, m);
      NextBit(m, Inverse(n - 1, m), Pow2(n - 1));
      InverseStep(n, m);
      Small(1, Pow2(n));
    }
  }

  lemma {:induction false} InverseStep(n: nat, m: nat)
    requires n > 0
    ensures Inverse(n, m) == WithNextBit(m, Inverse(n - 1, m), Pow2(n - 1)) && Pow2(n) == 2 * Pow2(n - 1)
  {
  }

  lemma {:induction false} NextBit(m: nat, w: nat, p: nat)
    requires p >= 1 && m % 2 == 1 && (m * w) % p == 1 % p
    ensures (m * WithNextBit(m, w, p)) % (2 * p) == 1
  {
    if p == 1 {
      assert m * (w + 1) == m * w + m;
    } else {
      NextBitAbove(m, w, p);
    }
  }

  lemma {:induction false} NextBitAbove(m: nat, w: nat, p: nat)
    requires p > 1 && m % 2 == 1 && (m * w) % p == 1
    ensures (m * w) % (2 * p) == 1 || (m * (w + p)) % (2 * p) == 1
  {
    var k := (m * w) / p;
    assert m * w == p * k + 1;
    if k % 2 == 0 {
      Whole(p, k / 2, m * w);
    } else {
      var j := (k + m) / 2;
      assert m * (w + p) == (2 * p) * j + 1 by {
        assert m * (w + p) == m * w + m * p;
        assert p * k + m * p == p * (k + m);
        assert p * (2 * j) == (2 * p) * j;
      }
      Whole(p, j, m * (w + p));
    }
  }

  lemma {:induction false} Whole(p: nat, j: nat, a: nat)
    requires p > 1 && a == 2 * p * j + 1
    ensures a % (2 * p) == 1
  {
    Quotient(2 * p, j, 1);
  }

  lemma {:induction false} MulMod(a: nat, b: nat, p: nat)
    requires p > 0
    ensures (a % p * b) % p == (a * b) % p
  {
    var q, r := a / p, a % p;
    assert a * b == p * (q * b) + r * b by {
      assert a == p * q + r;
      assert (p * q + r) * b == p * q * b + r * b;
      assert p * q * b == p * (q * b);
    }
    Quotient(p, q * b, r * b);
  }

  lemma {:induction false} ModPow(width: nat, n: nat, x: nat)
    requires n <= width
    ensures x % Pow2(width) % Pow2(n) == x % Pow2(n)
  {
    PowSum(n, width - n);
    ModProduct(x, Pow2(n), Pow2(width - n));
  }

  lemma {:induction false} ModProduct(x: nat, p: nat, c: nat)
    requires p > 0 && c > 0 && p * c > 0
    ensures x % (p * c) % p == x % p
  {
    var q, r := x / (p * c), x % (p * c);
    assert x == p * (c * q) + r by {
      assert x == (p * c) * q + r;
      assert (p * c) * q == p * (c * q);
    }
    Quotient(p, c * q, r);
  }

  /** One step in terms of the lowest `n` bits alone. */
  lemma {:induction false} StepOnLowBits(width: nat, v: nat, m: nat, n: nat)
    requires n <= width
    ensures Step(width, v, m, n) == Rev(n, (v * m) % Pow2(n))
  {
    RevHighPart(width - n, n, (v * m) % Pow2(width));
    ModPow(width, n, v * m);
  }

  /** What undoes one step. */
  ghost function Unstep(r: nat, m: nat, n: nat): nat {
    (Rev(n, r) * Inverse(n, m)) % Pow2(n)
  }

  lemma {:induction false} UnstepAfterStep(width: nat, v: nat, m: nat, n: nat)
    requires n <= width && m % 2 == 1
    ensures Step(width, v, m, n) < Pow2(n)
    ensures Unstep(Step(width, v, m, n), m, n) == v % Pow2(n)
  {
    StepOnLowBits(width, v, m, n);
    var p, w := Pow2(n), Inverse(n, m);
    var y := (v * m) % p;
    RevBound(n, y);
    RevInvolution(n, y);
    assert (y * w) % p == v % p by {
      InverseMeets(n, m);
      MulMod(v * m, w, p);
      UndoFactor(v, m, w, p);
    }
  }

  lemma {:induction false} StepAfterUnstep(width: nat, r: nat, m: nat, n: nat)
    requires n <= width && m % 2 == 1 && r < Pow2(n)
    ensures Step(width, Unstep(r, m, n), m, n) == r
  {
    var p, w, y := Pow2(n), Inverse(n, m), Rev(n, r);
    StepOnLowBits(width, Unstep(r, m, n), m, n);
    RevBound(n, r);
    RevInvolution(n, r);
    InverseMeets(n, m);
    RedoFactor(y, m, w, p);
  }

  lemma {:induction false} RedoFactor(y: nat, m: nat, w: nat, p: nat)
    requires p > 0 && y < p && (m * w) % p == 1 % p
    ensures ((y * w) % p * m) % p == y
  {
    MulMod(y * w, m, p);
    Reorder(y, w, m);
    UndoFactor(y, m, w, p);
    Small(y, p);
  }

  lemma {:induction false} Reorder(y: nat, w: nat, m: nat)
    ensures y * w * m == y * m * w
  {
    assert y * w * m == y * (w * m);
    assert y * m * w == y * (m * w);
  }

  lemma {:induction false} UndoFactor(v: nat, m: nat, w: nat, p: nat)
    requires p > 0 && (m * w) % p == 1 % p
    ensures (v * m * w) % p == v % p
  {
    assert v * m * w == (m * w) * v by { Reorder(m, w, v); }
    MulMod(m * w, v, p);
    MulMod(1, v, p);
  }

  /** What undoes the whole scrambling. */
  ghost function Unscramble(r: nat, n: nat, val0: nat, val1: nat): (v: nat)
    ensures v < Pow2(n)
  {
    var v := Unstep(Unstep(r, Or(val1, MULTIPLIER1), n), Or(val0, MULTIPLIER0), n);
    (v - val0 - val1) % Pow2(n)
  }

  lemma {:induction false} SubAdd(v: nat, c: nat, p: nat)
    requires p > 0
    ensures ((v + c) % p - c) % p == v % p
    ensures ((v - c) % p + c) % p == v % p
  {
    var q := (v + c) / p;
    assert (v + c) % p - c == p * (-q) + v by { assert p * (-q) == -(p * q); }
    Quotient(p, -q, v);
    var k := (v - c) / p;
    assert (v - c) % p + c == p * (-k) + v by { assert p * (-k) == -(p * k); }
    Quotient(p, -k, v);
  }

  /** Scrambling stays below 2^n and looks only at the lowest `n` bits, which can be
      recovered from the result: different numbers below 2^n never collide. */
  lemma {:induction false} UnscrambleAfterScramble(width: nat, v: nat, n: nat, val0: nat, val1: nat)
    requires n <= width
    ensures Scramble(width, v, n, val0, val1) < Pow2(n)
    ensures Unscramble(Scramble(width, v, n, val0, val1), n, val0, val1) == v % Pow2(n)
  {
    var p, c := Pow2(n), val0 + val1;
    var m0, m1 := Or(val0, MULTIPLIER0), Or(val1, MULTIPLIER1);
    var s := (v + val0 + val1) % Pow2(width);
    var t := Step(width, s, m0, n);
    OrLowest(val0, MULTIPLIER0);
    OrLowest(val1, MULTIPLIER1);
    UnstepAfterStep(width, s, m0, n);
    UnstepAfterStep(width, t, m1, n);
    Small(t, p);
    ModPow(width, n, v + c);
    SubAdd(v, c, p);
  }

  /** Every number below 2^n is the scrambling of one: with the lemma before it,
      scrambling is a permutation of the numbers below 2^n. */
  lemma {:induction false} ScrambleAfterUnscramble(width: nat, r: nat, n: nat, val0: nat, val1: nat)
    requires n <= width && r < Pow2(n)
    ensures Scramble(width, Unscramble(r, n, val0, val1), n, val0, val1) == r
  {
    hide Or, Rev, Inverse, WithNextBit, High;
    var p, c := Pow2(n), val0 + val1;
    var m0, m1 := Or(val0, MULTIPLIER0), Or(val1, MULTIPLIER1);
    var u := Unstep(r, m1, n);
    var z := Unstep(u, m0, n);
    var v := Unscramble(r, n, val0, val1);
    OrLowest(val0, MULTIPLIER0);
    OrLowest(val1, MULTIPLIER1);
    StepAfterUnstep(width, r, m1, n);
    StepAfterUnstep(width, u, m0, n);
    var s := (v + val0 + val1) % Pow2(width);
    assert s % p == z % p by {
      ModPow(width, n, v + c);
      SubAdd(z, c, p);
    }
    SameStep(width, s, z, m0, n);
  }

  lemma {:induction false} SameStep(width: nat, a: nat, b: nat, m: nat, n: nat)
    requires n <= width && a % Pow2(n) == b % Pow2(n)
    ensures Step(width, a, m, n) == Step(width, b, m, n)
  {
    StepOnLowBits(width, a, m, n);
    StepOnLowBits(width, b, m, n);
    MulMod(a, m, Pow2(n));
    MulMod(b, m, Pow2(n));
  }

  // ---- What number comes out ----

  /** The result, of the lowest `n` bits alone: twice a product with an odd multiplier, the
      seed with a constant in it, and a reversal of `n` bits. */
  lemma {:induction false} ScrambleIs(width: nat, v: nat, n: nat, val0: nat, val1: nat)
    requires n <= width
    ensures var first := Rev(n, (v + val0 + val1) * Or(val0, 0x4519_8402_1149_3211) % Pow2(n));
            Scramble(width, v, n, val0, val1) == Rev(n, first * Or(val1, 0x3050_8521_02C8_43A5) % Pow2(n))
  {
    hide Step, Rev, Or;
    var s, m0 := v + val0 + val1, Or(val0, MULTIPLIER0);
    StepOnLowBits(width, s % Pow2(width), m0, n);
    MulMod(s % Pow2(width), m0, Pow2(n));
    ModPow(width, n, s);
    MulMod(s, m0, Pow2(n));
    StepOnLowBits(width, Step(width, s % Pow2(width), m0, n), Or(val1, MULTIPLIER1), n);
  }

  lemma {:induction false} NoTopBit(x: bv64, n: nat, b: bv64)
    requires b <= 63 && Value(b) == n && By(x, b) == 0
    ensures Number(x, n + 1) == Number(x, n)
    decreases n
  {
    hide Value, Half, By, Odd, LowBit;
    PreviousIndex(b);
    if n == 0 {
      NoShift(x);
      ZeroWord();
    } else {
      HalfShifted(x, b - 1);
      NoTopBit(Half(x), n - 1, b - 1);
    }
  }

  lemma {:induction false} ZeroWord()
    ensures LowBit(0) == 0
  {
  }

  lemma {:induction false} HalfNumber(x: bv64)
    ensures Number(Half(x), 64) == Number(x, 64) / 2
  {
    hide Half, By, Odd, LowBit;
    LowBitBound(x);
    LastShift(x);
    NoTopBit(Half(x), 63, 63);
  }

  lemma {:induction false} LastShift(x: bv64)
    ensures Value(63) == 63 && By(Half(x), 63) == 0
  {
  }

  /** A shift to the right is a division. */
  lemma {:induction false} ShiftedNumber(x: bv64, k: nat)
    ensures Number(Shifted(x, k), 64) == Number(x, 64) / Pow2(k)
    decreases k
  {
    hide Half, LowBit, Number;
    if k > 0 {
      HalfNumber(x);
      ShiftedNumber(Half(x), k - 1);
      DivideTwice(Number(x, 64), 2, Pow2(k - 1));
    }
  }

  /** The second half of a round on a machine word: reversed and shifted. */
  lemma {:induction false} RoundOnWord(product: bv64, n: nat, b: bv64)
    requires 1 <= n <= 64 && b <= 63 && Value(b) == 64 - n
    ensures Number(By(BitReverse(product), b), 64) == High(Rev(64, Number(product, 64)), Pow2(64 - n))
  {
    hide Value, By, BitReverse, Number, Rev, Shifted, Pow2;
    ReversedNumber(product);
    ShiftedBy(BitReverse(product), 64 - n, b);
    ShiftedNumber(BitReverse(product), 64 - n);
  }

  /** The whole of it on words of 64 bits. A sum or a product of words is the word of the sum or
      product modulo 2^64; all else is done by the machine's own operations. */
  lemma {:induction false} ScrambleOfWords(v: bv64, val0: bv64, val1: bv64, sum: bv64, product0: bv64, product1: bv64, n: nat, b: bv64)
    requires 1 <= n <= 64 && b <= 63 && Value(b) == 64 - n
    requires Number(sum, 64) == (Number(v, 64) + Number(val0, 64) + Number(val1, 64)) % Pow2(64)
    requires Number(product0, 64) == Number(sum, 64) * Number(Either(val0, 0x4519_8402_1149_3211), 64) % Pow2(64)
    requires Number(product1, 64) ==
             Number(By(BitReverse(product0), b), 64) * Number(Either(val1, 0x3050_8521_02C8_43A5), 64) % Pow2(64)
    ensures Number(By(BitReverse(product1), b), 64) == Scramble(64, Number(v, 64), n, Number(val0, 64), Number(val1, 64))
  {
    hide BitReverse, Value, Number, Or, By, Rev, Pow2, High;
    FirstMultiplier();
    SecondMultiplier();
    OrOfWords(val0, 0x4519_8402_1149_3211, 64);
    OrOfWords(val1, 0x3050_8521_02C8_43A5, 64);
    RoundOnWord(product0, n, b);
    RoundOnWord(product1, n, b);
  }

  lemma {:induction false} LowFour(x: bv64, n: nat)
    ensures Number(x, n + 4) == LowBit(x) + 2 * LowBit(x >> 1) + 4 * LowBit(x >> 2) + 8 * LowBit(x >> 3) + 16 * Number(x >> 4, n)
  {
    assert Half(x) == x >> 1 && Half(x >> 1) == x >> 2 && Half(x >> 2) == x >> 3 && Half(x >> 3) == x >> 4;
    assert Number(x, n + 4) == LowBit(x) + 2 * Number(x >> 1, n + 3);
    assert Number(x >> 1, n + 3) == LowBit(x >> 1) + 2 * Number(x >> 2, n + 2);
    assert Number(x >> 2, n + 2) == LowBit(x >> 2) + 2 * Number(x >> 3, n + 1);
    assert Number(x >> 3, n + 1) == LowBit(x >> 3) + 2 * Number(x >> 4, n);
  }

  /** The lowest hexadecimal digit. */
  lemma {:induction false} LowDigit(x: bv64, n: nat)
    ensures Number(x, n + 4) == DigitOf(x & 15) + 16 * Number(x >> 4, n)
  {
    hide Number;
    LowFour(x, n);
    DigitBits(x, x & 15);
  }

  lemma {:induction false} DigitBits(x: bv64, d: bv64)
    requires d == x & 15
    ensures DigitOf(d) == LowBit(x) + 2 * LowBit(x >> 1) + 4 * LowBit(x >> 2) + 8 * LowBit(x >> 3)
  {
    assert Odd(x) <==> d & 1 == 1;
    assert Odd(x >> 1) <==> d & 2 == 2;
    assert Odd(x >> 2) <==> d & 4 == 4;
    assert Odd(x >> 3) <==> d & 8 == 8;
  }

  ghost function DigitOf(d: bv64): nat {
    (if d & 1 == 1 then 1 else 0) + (if d & 2 == 2 then 2 else 0) + (if d & 4 == 4 then 4 else 0) + (if d & 8 == 8 then 8 else 0)
  }

  lemma {:induction false} FirstMultiplierHigh()
    ensures Number(0x45198402, 32) == 0x45198402
  {
    hide Number;
    LowDigit(0x45198402, 28);
    LowDigit(0x4519840, 24);
    LowDigit(0x451984, 20);
    LowDigit(0x45198, 16);
    LowDigit(0x4519, 12);
    LowDigit(0x451, 8);
    LowDigit(0x45, 4);
    LowDigit(0x4, 0);
    NoDigits();
  }

  lemma {:induction false} FirstMultiplier()
    ensures Number(0x4519_8402_1149_3211, 64) == MULTIPLIER0
  {
    hide Number;
    LowDigit(0x4519840211493211, 60);
    LowDigit(0x451984021149321, 56);
    LowDigit(0x45198402114932, 52);
    LowDigit(0x4519840211493, 48);
    LowDigit(0x451984021149, 44);
    LowDigit(0x45198402114, 40);
    LowDigit(0x4519840211, 36);
    LowDigit(0x451984021, 32);
    FirstMultiplierHigh();
  }

  lemma {:induction false} SecondMultiplierHigh()
    ensures Number(0x30508521, 32) == 0x30508521
  {
    hide Number;
    LowDigit(0x30508521, 28);
    LowDigit(0x3050852, 24);
    LowDigit(0x305085, 20);
    LowDigit(0x30508, 16);
    LowDigit(0x3050, 12);
    LowDigit(0x305, 8);
    LowDigit(0x30, 4);
    LowDigit(0x3, 0);
    NoDigits();
  }

  lemma {:induction false} SecondMultiplier()
    ensures Number(0x3050_8521_02C8_43A5, 64) == MULTIPLIER1
  {
    hide Number;
    LowDigit(0x3050852102C843A5, 60);
    LowDigit(0x3050852102C843A, 56);
    LowDigit(0x3050852102C843, 52);
    LowDigit(0x3050852102C84, 48);
    LowDigit(0x3050852102C8, 44);
    LowDigit(0x3050852102C, 40);
    LowDigit(0x3050852102, 36);
    LowDigit(0x305085210, 32);
    SecondMultiplierHigh();
  }

  lemma {:induction false} NoDigits()
    ensures Number(0, 0) == 0
  {
  }
}
