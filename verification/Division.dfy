/** 64-bit division by shifting and subtracting, as the runtime library does it. */
module Division {
  import opened Arithmetic

  const WORD: nat := 0x1_0000_0000_0000_0000

  /** One place left in a 64-bit word; the top bit falls out. */
  function ShiftLeft(r: nat): nat { 2 * r % WORD }

  function Bit(n: nat, i: nat): nat { n / Pow2(i) % 2 }

  /** Switches bit `i` on. */
  function SetBit(q: nat, i: nat): nat {
    if Bit(q, i) == 1 then q else q + Pow2(i)
  }

  lemma WordSize()
    ensures Pow2(64) == WORD
  {
    Pow2Table();
    Pow2Sum(12, 20);
    Pow2Sum(32, 32);
  }

  /** Another bit of the dividend. */
  lemma PrefixStep(n: nat, i: nat)
    ensures n / Pow2(i) == 2 * (n / Pow2(i + 1)) + Bit(n, i)
  {
    var p := Pow2(i);
    var q := n / p;
    assert n == q * p + n % p;
    assert q == 2 * (q / 2) + q % 2;
    HalfQuotient(p, q, n % p);
    DivMod(n, 2 * p, q / 2, q % 2 * p + n % p);
  }

  lemma HalfQuotient(p: nat, q: nat, r: nat)
    requires p > 0 && r < p
    ensures q * p + r == q / 2 * (2 * p) + (q % 2 * p + r) && q % 2 * p + r < 2 * p
  {
    assert q == q / 2 * 2 + q % 2;
    assert q * p == (q / 2 * 2) * p + q % 2 * p;
  }

  /** The bits of the dividend seen so far and the next one still fit a word. */
  lemma PrefixFits(n: nat, i: nat)
    requires n < WORD && i < 64
    ensures n / Pow2(i) < WORD
  {
    MulGap(WORD, n / Pow2(i) + 1, Pow2(i));
    assert n == n / Pow2(i) * Pow2(i) + n % Pow2(i);
    assert WORD <= WORD * Pow2(i) by { MulGap(0, Pow2(i), WORD); }
  }

  /** A quotient of whole `2 * p`s has no bit `p`. */
  lemma HighBits(q: nat, i: nat)
    ensures Bit(q * Pow2(i + 1), i) == 0
  {
    assert q * (2 * Pow2(i)) == (2 * q) * Pow2(i);
    DivMod(q * Pow2(i + 1), Pow2(i), 2 * q, 0);
  }

  /** Long division after the bits above `i`: the quotient's high bits, and a remainder below the
      divisor. */
  ghost predicate Upto(n: nat, d: nat, i: nat, high: nat, r: nat) {
    n / Pow2(i) == high * d + r && r < d
  }

  /** Bringing down one bit: shifting the remainder never loses its top bit, even for divisors above
      half a word. */
  lemma BringDown(n: nat, d: nat, i: nat, high: nat, r: nat)
    requires n < WORD && 0 < d < WORD && i < 64 && Upto(n, d, i + 1, high, r)
    ensures 2 * r + Bit(n, i) < WORD && ShiftLeft(r) == 2 * r
    ensures var r1 := 2 * r + Bit(n, i);
      if r1 >= d then Upto(n, d, i, 2 * high + 1, r1 - d) else Upto(n, d, i, 2 * high, r1)
  {
    PrefixStep(n, i);
    PrefixFits(n, i);
    assert 2 * (high * d) == 2 * high * d;
    assert (2 * high + 1) * d == 2 * high * d + d;
  }

  /** The remainder; of a zero divisor, the dividend itself. */
  method UMod(n: nat, d: nat) returns (r: nat)
    requires n < WORD && d < WORD
    ensures d == 0 ==> r == n
    ensures d > 0 ==> r == n % d
  {
    r := 0;
    ghost var high: nat := 0;
    WordSize();
    for i := 64 downto 0
      invariant d > 0 ==> Upto(n, d, i, high, r)
      invariant d == 0 ==> r == n / Pow2(i)
    {
      PrefixStep(n, i);
      PrefixFits(n, i);
      if d > 0 { BringDown(n, d, i, high, r); }
      r := ShiftLeft(r) + Bit(n, i);
      high := 2 * high;
      if r >= d {
        r := r - d;
        high := high + 1;
      }
    }
    if d > 0 { DivMod(n, d, high, r); }
  }

  /** The quotient; of a zero divisor, all ones. */
  method UDiv(n: nat, d: nat) returns (q: nat)
    requires n < WORD && d < WORD
    ensures q == if d == 0 then WORD - 1 else n / d
  {
    if d == 0 { return WORD - 1; }
    q := 0;
    var r: nat := 0;
    ghost var high: nat := 0;
    WordSize();
    for i := 64 downto 0
      invariant Upto(n, d, i, high, r) && q == high * Pow2(i)
    {
      BringDown(n, d, i, high, r);
      HighBits(high, i);
      assert high * Pow2(i + 1) == 2 * high * Pow2(i);
      r := ShiftLeft(r) + Bit(n, i);
      high := 2 * high;
      if r >= d {
        r := r - d;
        assert (high + 1) * Pow2(i) == high * Pow2(i) + Pow2(i);
        q := SetBit(q, i);
        high := high + 1;
      }
    }
    DivMod(n, d, high, r);
  }

  // ------------------------------------------------------------------ signed

  const MIN: int := -0x8000_0000_0000_0000

  function Abs(x: int): nat { if x < 0 then -x else x }

  /** `q` and `r` are the quotient rounded toward zero and the remainder with the dividend's sign. */
  predicate Truncated(n: int, d: int, q: int, r: int) {
    && n == q * d + r && Abs(r) < Abs(d)
    && (n >= 0 ==> r >= 0) && (n <= 0 ==> r <= 0)
  }

  /** There is only one such quotient and remainder. */
  lemma TruncatedUnique(n: int, d: int, q: int, r: int, q1: int, r1: int)
    requires Truncated(n, d, q, r) && Truncated(n, d, q1, r1)
    ensures q == q1 && r == r1
  {
    assert (q - q1) * d == r1 - r;
    Multiple(q - q1, d, r1 - r);
  }

  lemma Multiple(k: int, d: int, v: int)
    requires k * d == v && Abs(v) < Abs(d)
    ensures k == 0
  {
    if k > 0 { assert Abs(v) == k * Abs(d); MulGap(0, k, Abs(d)); }
    if k < 0 { assert Abs(v) == -k * Abs(d); MulGap(0, -k, Abs(d)); }
  }

  function SignedQuotient(n: int, d: int): int
    requires d != 0
  {
    if (n < 0) == (d < 0) then Abs(n) / Abs(d) else -(Abs(n) / Abs(d))
  }

  function SignedRemainder(n: int, d: int): int
    requires d != 0
  {
    if n < 0 then -(Abs(n) % Abs(d)) else Abs(n) % Abs(d)
  }

  /** Dividing the sizes and giving the signs back rounds toward zero. */
  lemma SignsBack(n: int, d: int)
    requires d != 0
    ensures Truncated(n, d, SignedQuotient(n, d), SignedRemainder(n, d))
  {
    var q, r := Abs(n) / Abs(d), Abs(n) % Abs(d);
    SignRules(q, d);
    SignsOf(n, d, q, r);
  }

  lemma SignsOf(n: int, d: int, q: int, r: int)
    requires Abs(n) == q * Abs(d) + r && 0 <= r < Abs(d)
    requires q * -d == -(q * d) && -q * d == -(q * d) && -q * -d == q * d
    ensures Truncated(n, d, if (n < 0) == (d < 0) then q else -q, if n < 0 then -r else r)
  {
  }

  lemma SignRules(q: int, d: int)
    ensures q * -d == -(q * d) && -q * d == -(q * d) && -q * -d == q * d
  {
  }

  /** A word read as a signed number. */
  function AsSigned(x: nat): int { if x >= -MIN then x - WORD else x }

  method Div(n0: int, d0: int) returns (q: int)
    requires MIN < n0 < -MIN && MIN < d0 < -MIN
    ensures d0 != 0 ==> exists r :: Truncated(n0, d0, q, r)
    ensures d0 == 0 ==> q == if n0 < 0 then 1 else -1
  {
    var n, d, sign := n0, d0, 1;
    if n < 0 { n := -n; sign := -sign; }
    if d < 0 { d := -d; sign := -sign; }
    var u := UDiv(n, d);
    if d0 != 0 {
      SignsBack(n0, d0);
      QuotientBound(n, d);
    }
    q := sign * AsSigned(u);
  }

  lemma QuotientBound(n: nat, d: nat)
    requires d > 0
    ensures n / d <= n
  {
    assert n == n / d * d + n % d;
    assert n / d <= n / d * d by { MulGap(0, d, n / d); }
  }

  method Mod(n0: int, d0: int) returns (r: int)
    requires MIN < n0 < -MIN && MIN < d0 < -MIN
    ensures d0 != 0 ==> exists q :: Truncated(n0, d0, q, r)
    ensures d0 == 0 ==> r == n0
  {
    var n, d, sign := n0, d0, 1;
    if n < 0 { n := -n; sign := -sign; }
    if d < 0 { d := -d; }
    var u := UMod(n, d);
    if d0 != 0 {
      SignsBack(n0, d0);
    }
    r := sign * AsSigned(u);
  }

  /** The two routines fit together. */
  method DivideBoth(n: int, d: int) returns (q: int, r: int)
    requires MIN < n < -MIN && MIN < d < -MIN && d != 0
    ensures Truncated(n, d, q, r)
  {
    q := Div(n, d);
    r := Mod(n, d);
    ghost var r1 :| Truncated(n, d, q, r1);
    ghost var q1 :| Truncated(n, d, q1, r);
    TruncatedUnique(n, d, q, r1, q1, r);
  }
}
