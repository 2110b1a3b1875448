/** Arithmetic modulo 2^31 - 1 in machine words: the forms that avoid division, and
    the plain forms they must agree with. The word types make Dafny check that no
    intermediate value overflows. */
module ModularArithmetic {

  newtype uint32 = x: int | 0 <= x < 0x1_0000_0000
  newtype int32 = x: int | -0x8000_0000 <= x < 0x8000_0000
  newtype uint64 = x: int | 0 <= x < 0x1_0000_0000_0000_0000

  const M: int := 0x7FFF_FFFF
  const MAX: uint32 := 0x7FFF_FFFE

  // The multipliers of the generator.
  const X: int := 107374182
  const Y: int := 104480

  // ---- With 32-bit words ----

  /** One conditional subtraction. */
  lemma {:induction false} SubtractOnce(x: int)
    requires 0 <= x <= 2 * M - 1
    ensures (if x >= M then x - M else x) == x % M
  {
  }

  /** Adding the two halves of a number is the same modulo 2^31 - 1. */
  lemma {:induction false} Fold(t: int)
    requires 0 <= t <= 0x3FFF_FFFF_8000_0000
    ensures var s := t % 0x8000_0000 + t / 0x8000_0000;
            0 <= s <= 0xFFFF_FFFD && (if s >= M then s - M else s) % M == t % M
  {
    var hi, lo := t / 0x8000_0000, t % 0x8000_0000;
    assert t == (hi + lo) + hi * M;
    SameModulo(hi + lo, hi);
    SameModulo(hi + lo - M, 1);
  }

  lemma {:induction false} SameModulo(a: int, k: int)
    ensures (a + k * M) % M == a % M
    decreases if k < 0 then -k else k
  {
    if k > 0 {
      SameModulo(a, k - 1);
      AddModulus(a + (k - 1) * M);
    } else if k < 0 {
      SameModulo(a, k + 1);
      AddModulus(a + k * M);
    }
  }

  lemma {:induction false} AddModulus(a: int)
    ensures (a + M) % M == a % M
  {
  }

  lemma {:induction false} ProductBound(a: int, b: int)
    requires 0 <= a <= MAX as int && 0 <= b <= MAX as int
    ensures 0 <= a * b <= 0x3FFF_FFFE_0000_0004
  {
    assert a * b <= (MAX as int) * b <= (MAX as int) * (MAX as int);
  }

  function Add32(a: uint32, b: uint32): (r: uint32)
    requires a <= MAX && b <= MAX
    ensures r <= MAX && r as int == (a as int + b as int) % M
  {
    var x := a + b;
    SubtractOnce(x as int);
    if x >= 0x7FFF_FFFF then x - 0x7FFF_FFFF else x
  }

  /** The sum of the upper and the lower bits of a product, and one subtraction. */
  function Folded(temp: uint64): (r: uint32)
    requires temp <= 0x3FFF_FFFF_8000_0000
    ensures r <= MAX && r as int == temp as int % M
  {
    Fold(temp as int);
    var temp2 := (temp % 0x8000_0000) as uint32 + (temp / 0x8000_0000) as uint32;
    if temp2 >= 0x7FFF_FFFF then temp2 - 0x7FFF_FFFF else temp2
  }

  function Mac32(sum: uint32, a: uint32, b: uint32): (r: uint32)
    requires sum <= MAX && a <= MAX && b <= MAX
    ensures r <= MAX && r as int == (a as int * b as int + sum as int) % M
  {
    ProductBound(a as int, b as int);
    Folded(a as uint64 * b as uint64 + sum as uint64)
  }

  function Mul32(a: uint32, b: uint32): (r: uint32)
    requires a <= MAX && b <= MAX
    ensures r <= MAX && r as int == (a as int * b as int) % M
  {
    ProductBound(a as int, b as int);
    Folded(a as uint64 * b as uint64)
  }

  function Mac2_32(sum: uint32, a: uint32, b: uint32, c: uint32, d: uint32): (r: uint32)
    requires sum <= MAX && a <= MAX && b <= MAX && c <= MAX && d <= MAX
    ensures r <= MAX && r as int == (a as int * b as int + c as int * d as int + sum as int) % M
  {
    ReduceFirst(c as int * d as int, a as int * b as int + sum as int);
    Mac32(Mac32(sum, a, b), c, d)
  }

  function Mac3_32(sum: uint32, a: uint32, b: uint32, c: uint32, d: uint32, e: uint32, f: uint32): (r: uint32)
    requires sum <= MAX && a <= MAX && b <= MAX && c <= MAX && d <= MAX && e <= MAX && f <= MAX
    ensures r <= MAX && r as int == (a as int * b as int + c as int * d as int + e as int * f as int + sum as int) % M
  {
    ReduceFirst(c as int * d as int + e as int * f as int, a as int * b as int + sum as int);
    Mac2_32(Mac32(sum, a, b), c, d, e, f)
  }

  function Mac4_32(sum: uint32, a: uint32, b: uint32, c: uint32, d: uint32, e: uint32, f: uint32, g: uint32, h: uint32): (r: uint32)
    requires sum <= MAX && a <= MAX && b <= MAX && c <= MAX && d <= MAX && e <= MAX && f <= MAX && g <= MAX && h <= MAX
    ensures r <= MAX
    ensures r as int == (a as int * b as int + c as int * d as int + e as int * f as int + g as int * h as int + sum as int) % M
  {
    ReduceFirst(e as int * f as int + g as int * h as int, a as int * b as int + c as int * d as int + sum as int);
    Mac2_32(Mac2_32(sum, a, b, c, d), e, f, g, h)
  }

  /** A summand may be reduced before the others are added. */
  lemma {:induction false} ReduceFirst(x: int, y: int)
    ensures (x + y % M) % M == (x + y) % M
  {
    assert y == y % M + (y / M) * M;
    SameModulo(x + y % M, y / M);
  }

  /** Multiplication by a constant through quotient and remainder of the modulus by it,
      which stays within a signed 32-bit word. */
  lemma {:induction false} Schrage(c: int, q: int, r: int, a: int)
    requires c > 0 && q > r >= 0 && c * q + r == M && 0 <= a < M && q <= c
    ensures var t := c * (a - a / q * q) - a / q * r;
            && 0 <= c * (a - a / q * q) < M && 0 <= a / q * r < M
            && (if t < 0 then t + M else t) == (c * a) % M
  {
    var k := a / q;
    RemainderBound(a, q, k);
    ScaleBelow(c, a - k * q, q);
    QuotientBound(a, q, r, k);
    Expand(c, q, r, a, k);
    Corrected(c * (a - k * q) - k * r, k, c * a);
  }

  lemma {:induction false} RemainderBound(a: int, q: int, k: int)
    requires q > 0 && k == a / q
    ensures 0 <= a - k * q < q
  {
  }

  lemma {:induction false} Corrected(t: int, k: int, product: int)
    requires -M < t < M && t + k * M == product
    ensures (if t < 0 then t + M else t) == product % M
  {
    SameModulo(t, k);
    if t < 0 { AddModulus(t); }
  }

  lemma {:induction false} ScaleBelow(c: int, x: int, q: int)
    requires c > 0 && 0 <= x < q
    ensures 0 <= c * x <= c * q - c
  {
    assert c * x <= c * (q - 1);
  }

  lemma {:induction false} QuotientBound(a: int, q: int, r: int, k: int)
    requires 0 <= r < q && a >= 0 && k == a / q
    ensures 0 <= k * r <= a
  {
    assert k * q <= a;
    assert k * r <= k * q;
  }

  lemma {:induction false} Expand(c: int, q: int, r: int, a: int, k: int)
    requires c * q + r == M
    ensures c * (a - k * q) - k * r + k * M == c * a
  {
    assert k * M == k * (c * q) + k * r;
    assert c * (a - k * q) == c * a - k * (c * q);
  }

  function MulX32(a: uint32): (result: uint32)
    requires a <= MAX
    ensures result <= MAX && result as int == (107374182 * a as int) % 0x7FFF_FFFF
  {
    Schrage(X, 20, 7, a as int);
    var k: int32 := a as int32 / 20;
    var t: int32 := 107374182 * (a as int32 - k * 20) - k * 7;
    (if t < 0 then t + 0x7FFF_FFFF else t) as uint32
  }

  function MulY32(a: uint32): (result: uint32)
    requires a <= MAX
    ensures result <= MAX && result as int == (104480 * a as int) % 0x7FFF_FFFF
  {
    Schrage(Y, 20554, 1727, a as int);
    var k: int32 := a as int32 / 20554;
    var t: int32 := 104480 * (a as int32 - k * 20554) - k * 1727;
    (if t < 0 then t + 0x7FFF_FFFF else t) as uint32
  }

  function MacY32(sum: uint32, a: uint32): (result: uint32)
    requires sum <= MAX && a <= MAX
    ensures result <= MAX && result as int == (104480 * a as int + sum as int) % 0x7FFF_FFFF
  {
    ReduceFirst(sum as int, Y * a as int);
    Add32(sum, MulY32(a))
  }

  // ---- With 64-bit words ----

  function Add64(a: uint32, b: uint32): (r: uint32)
    requires a <= MAX && b <= MAX
    ensures r == Add32(a, b)
  {
    (a + b) % 0x7FFF_FFFF
  }

  function Mul64(a: uint32, b: uint32): (r: uint32)
    requires a <= MAX && b <= MAX
    ensures r == Mul32(a, b)
  {
    ProductBound(a as int, b as int);
    (a as uint64 * b as uint64 % 0x7FFF_FFFF) as uint32
  }

  function Mac64(sum: uint32, a: uint32, b: uint32): (r: uint32)
    requires sum <= MAX && a <= MAX && b <= MAX
    ensures r == Mac32(sum, a, b)
  {
    ProductBound(a as int, b as int);
    ((a as uint64 * b as uint64 + sum as uint64) % 0x7FFF_FFFF) as uint32
  }

  function Mac2_64(sum: uint32, a: uint32, b: uint32, c: uint32, d: uint32): (r: uint32)
    requires sum <= MAX && a <= MAX && b <= MAX && c <= MAX && d <= MAX
    ensures r == Mac2_32(sum, a, b, c, d)
  {
    ProductBound(a as int, b as int);
    ProductBound(c as int, d as int);
    ((a as uint64 * b as uint64 + c as uint64 * d as uint64 + sum as uint64) % 0x7FFF_FFFF) as uint32
  }

  function Mac3_64(sum: uint32, a: uint32, b: uint32, c: uint32, d: uint32, e: uint32, f: uint32): (r: uint32)
    requires sum <= MAX && a <= MAX && b <= MAX && c <= MAX && d <= MAX && e <= MAX && f <= MAX
    ensures r == Mac3_32(sum, a, b, c, d, e, f)
  {
    ProductBound(a as int, b as int);
    ProductBound(c as int, d as int);
    ProductBound(e as int, f as int);
    ((a as uint64 * b as uint64 + c as uint64 * d as uint64 + e as uint64 * f as uint64 + sum as uint64) % 0x7FFF_FFFF) as uint32
  }

  /** Four products and a sum still fit a 64-bit word. */
  function Mac4_64(sum: uint32, a: uint32, b: uint32, c: uint32, d: uint32, e: uint32, f: uint32, g: uint32, h: uint32): (r: uint32)
    requires sum <= MAX && a <= MAX && b <= MAX && c <= MAX && d <= MAX && e <= MAX && f <= MAX && g <= MAX && h <= MAX
    ensures r == Mac4_32(sum, a, b, c, d, e, f, g, h)
  {
    ProductBound(a as int, b as int);
    ProductBound(c as int, d as int);
    ProductBound(e as int, f as int);
    ProductBound(g as int, h as int);
    ((a as uint64 * b as uint64 + c as uint64 * d as uint64 + e as uint64 * f as uint64 + g as uint64 * h as uint64 + sum as uint64)
     % 0x7FFF_FFFF) as uint32
  }

  function MulX64(a: uint32): (r: uint32)
    requires a <= MAX
    ensures r == MulX32(a)
  {
    Mul64(a, 107374182)
  }

  function MulY64(a: uint32): (r: uint32)
    requires a <= MAX
    ensures r == MulY32(a)
  {
    Mul64(a, 104480)
  }

  function MacY64(sum: uint32, a: uint32): (r: uint32)
    requires sum <= MAX && a <= MAX
    ensures r == MacY32(sum, a)
  {
    Mac64(sum, a, 104480)
  }
}
