/** Quotients and powers of two that several components reason with. */
module Arithmetic {

  function Pow2(n: nat): (p: nat)
    ensures p > 0
  {
    if n == 0 then 1 else 2 * Pow2(n - 1)
  }

  lemma {:induction false} Pow2Monotone(a: nat, b: nat)
    requires a <= b
    ensures Pow2(a) <= Pow2(b)
  {
    if a < b { Pow2Monotone(a, b - 1); }
  }

  lemma {:induction false} Pow2Sum(a: nat, b: nat)
    ensures Pow2(a + b) == Pow2(a) * Pow2(b)
  {
    if a > 0 {
      Pow2Sum(a - 1, b);
      Doubled(Pow2(a - 1), Pow2(b), Pow2(a - 1 + b));
    }
  }

  lemma Doubled(x: nat, y: nat, z: nat)
    requires z == x * y
    ensures 2 * z == 2 * x * y
  {
  }

  lemma Pow2Table()
    ensures Pow2(8) == 256 && Pow2(12) == 4096 && Pow2(20) == 0x10_0000
  {
    assert Pow2(4) == 16;
    assert Pow2(8) == 256;
    assert Pow2(12) == 4096;
    assert Pow2(16) == 65536;
  }

  lemma MulGap(a: nat, b: nat, w: nat)
    ensures a < b ==> a * w + w <= b * w
  {
    if a < b {
      var k := b - a - 1;
      assert 0 <= k * w;
      assert b * w == (a + 1 + k) * w;
    }
  }

  /** A quotient and a remainder below the divisor are the quotient and the remainder. */
  lemma DivMod(v: nat, m: nat, q: nat, r: nat)
    requires m > 0 && v == q * m + r && r < m
    ensures v / m == q && v % m == r
  {
    var q1, r1 := v / m, v % m;
    assert v == q1 * m + r1;
    MulGap(q1, q, m);
    MulGap(q, q1, m);
  }
}
