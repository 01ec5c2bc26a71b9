/**
 Powers of two, and the division facts behind bit and byte extraction.
 */
module Arithmetic {

  const UINT32: nat := 0x1_0000_0000
  const UINT64: nat := 0x1_0000_0000_0000_0000

  function Pow2(n: nat): (p: nat)
    ensures p > 0
  {
    if n == 0 then 1 else 2 * Pow2(n - 1)
  }

  lemma {:induction false} Pow2Add(a: nat, b: nat)
    ensures Pow2(a + b) == Pow2(a) * Pow2(b)
  {
    if a > 0 {
      Pow2Add(a - 1, b);
      assert Pow2(a + b) == 2 * (Pow2(a - 1) * Pow2(b));
      assert 2 * (Pow2(a - 1) * Pow2(b)) == (2 * Pow2(a - 1)) * Pow2(b);
    }
  }

  lemma {:induction false} Pow2Monotone(a: nat, b: nat)
    requires a <= b
    ensures Pow2(a) <= Pow2(b)
  {
    if a < b { Pow2Monotone(a, b - 1); }
  }

  lemma Pow2Values()
    ensures Pow2(8) == 256 && Pow2(16) == 0x1_0000 && Pow2(32) == UINT32 && Pow2(64) == UINT64
  {
    assert Pow2(8) == 256;
    Pow2Add(8, 8);
    Pow2Add(16, 16);
    Pow2Add(32, 32);
  }

  lemma DigitRange(h: nat, l: nat, p: nat, q: nat)
    requires h < p && l < q
    ensures h * q + l < p * q
  {
    Spread(p, h, q);
    NotNegative(p - 1 - h, q);
  }

  lemma Spread(p: nat, h: nat, q: nat)
    ensures (p - 1 - h) * q == p * q - q - h * q
  {
  }

  lemma NotNegative(a: nat, b: nat)
    ensures a * b >= 0
  {
  }

  lemma AtLeastFactor(a: int, d: nat)
    requires a >= 1
    ensures a * d >= d
  {
    assert (a - 1) * d >= 0;
  }

  lemma ModUnique(v: nat, d: nat, q: nat, r: nat)
    requires d > 0 && v == q * d + r && r < d
    ensures v % d == r && v / d == q
  {
    var q', r' := v / d, v % d;
    assert q' * d + r' == q * d + r;
    assert (q' - q) * d == r - r' by { assert (q' - q) * d == q' * d - q * d; }
    if q' > q {
      AtLeastFactor(q' - q, d);
    } else if q' < q {
      assert (q - q') * d == r' - r by { assert (q - q') * d == q * d - q' * d; }
      AtLeastFactor(q - q', d);
    }
  }

  lemma Regroup(h: nat, b: nat, m: nat, a: nat, r: nat)
    ensures (h * b + m) * a + r == h * (a * b) + (m * a + r)
  {
    assert (h * b + m) * a == h * b * a + m * a;
    assert h * b * a == h * (a * b);
  }

  lemma TwoDigits(v: nat, a: nat, b: nat, q: nat, r: nat, h: nat, m: nat)
    requires v == q * a + r && r < a && q == h * b + m && m < b
    ensures a * b > 0 && v % (a * b) == m * a + r
  {
    Regroup(h, b, m, a, r);
    DigitRange(m, r, b, a);
    var d := a * b;
    assert b * a == d;
    ModUnique(v, d, h, m * a + r);
  }

  lemma DivMod(v: nat, a: nat)
    requires a > 0
    ensures v == v / a * a + v % a
  {
  }

  lemma DivModSplit(v: nat, a: nat, b: nat)
    requires a > 0 && b > 0
    ensures a * b > 0 && v % (a * b) == v / a % b * a + v % a
  {
    var q := v / a;
    DivMod(v, a);
    DivMod(q, b);
    TwoDigits(v, a, b, q, v % a, q / b, q % b);
  }

  /** The remainder of a number at most one modulus away from its range. */
  lemma NearMod(x: int, p: int)
    requires p > 0 && -p <= x < 2 * p
    ensures x % p == if x < 0 then x + p else if x < p then x else x - p
  {
    var q, r := x / p, x % p;
    var k := if x < 0 then -1 else if x < p then 0 else 1;
    assert (q - k) * p == x - r - k * p;
    OneFactor(q - k, p);
  }

  lemma OneFactor(d: int, p: int)
    requires p > 0 && -p < d * p < p
    ensures d == 0
  {
    Multiples(d, p);
  }

  lemma Multiples(d: int, p: int)
    requires p > 0
    ensures d >= 1 ==> d * p >= p
    ensures d <= -1 ==> d * p <= -p
  {
    if d >= 1 { AtLeastFactor(d, p); }
    if d <= -1 { AtLeastFactor(-d, p); }
  }
}
