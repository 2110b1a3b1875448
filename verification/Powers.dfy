/** Powers of two, and quotients of whole multiples. */
module Powers {

  ghost function Pow2(n: nat): (p: nat)
    ensures p > 0
  {
    if n == 0 then 1 else 2 * Pow2(n - 1)
  }

  lemma {:induction false} Pow2Grows(a: nat, b: nat)
    requires a <= b
    ensures Pow2(a) <= Pow2(b)
  {
    if a < b { Pow2Grows(a, b - 1); }
  }

  /** Whole multiples pass through a division. */
  lemma {:induction false} Quotient(p: nat, q: int, r: int)
    requires p > 0
    ensures (p * q + r) / p == q + r / p
    ensures (p * q + r) % p == r % p
  {
    var a := p * q + r;
    assert p * (a / p - q - r / p) == r % p - a % p;
    NoMultiple(p, a / p - q - r / p);
  }

  lemma {:induction false} NoMultiple(p: int, d: int)
    requires -p < p * d < p
    ensures d == 0
  {
    AtLeast(p, d);
  }

  lemma {:induction false} AtLeast(p: int, d: int)
    requires p > 0
    ensures d >= 1 ==> p * d >= p
    ensures d <= -1 ==> p * d <= -p
  {
    if d >= 1 {
      assert p * (d - 1) >= 0;
    } else if d <= -1 {
      assert p * (-1 - d) >= 0;
    }
  }

  /** Dividing twice is dividing by the product. */
  lemma {:induction false} DivideTwice(v: nat, a: nat, b: nat)
    requires a > 0 && b > 0
    ensures a * b > 0 && v / a / b == v / (a * b)
  {
    var p, r, low := a * b, v / a / b, a * (v / a % b) + v % a;
    assert p > 0 by { AtLeast(a, b); }
    assert v == p * r + low by { Regrouped(v, a, b); }
    assert 0 <= low < p by { LowPart(v, a, b); }
    Quotient(p, r, low);
    NoneIn(low, p);
  }

  lemma {:induction false} Regrouped(v: nat, a: nat, b: nat)
    requires a > 0 && b > 0
    ensures v == a * b * (v / a / b) + (a * (v / a % b) + v % a)
  {
    var q := v / a;
    var r, e := q / b, q % b;
    assert v == a * q + v % a && q == b * r + e;
    assert a * q == a * (b * r) + a * e;
    assert a * b * r == a * (b * r);
  }

  lemma {:induction false} LowPart(v: nat, a: nat, b: nat)
    requires a > 0 && b > 0
    ensures 0 <= a * (v / a % b) + v % a < a * b
  {
    var e := v / a % b;
    assert a * b == a * e + a * (b - e);
    AtLeast(a, b - e);
  }

  lemma {:induction false} NoneIn(a: nat, p: nat)
    requires a < p
    ensures a / p == 0
  {
  }
}
