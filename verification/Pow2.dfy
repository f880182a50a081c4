/** Powers of two and the division facts that shifts and masks reduce to.
    A shift right by n is a division by Pow2(n), a mask of n bits a remainder. */
module PowersOfTwo {

  function Pow2(n: nat): (p: nat)
    ensures p >= 1
  {
    if n == 0 then 1 else 2 * Pow2(n - 1)
  }

  lemma {:induction false} Pow2Add(a: nat, b: nat)
    ensures Pow2(a + b) == Pow2(a) * Pow2(b)
  {
    if a > 0 {
      Pow2Add(a - 1, b);
      assert Pow2(a + b) == 2 * Pow2(a - 1 + b);
    }
  }

  lemma Pow2Monotone(a: nat, b: nat)
    requires a <= b
    ensures Pow2(a) <= Pow2(b)
    ensures a < b ==> 2 * Pow2(a) <= Pow2(b)
    decreases b
  {
    if a < b { Pow2Monotone(a, b - 1); }
  }

  lemma Pow2Values()
    ensures Pow2(0) == 1 && Pow2(7) == 128 && Pow2(8) == 256 && Pow2(10) == 1024
    ensures Pow2(24) == 0x100_0000 && Pow2(31) == 0x8000_0000 && Pow2(32) == 0x1_0000_0000
  {
    assert Pow2(4) == 16;
    assert Pow2(7) == 128;
    Pow2Add(5, 5);
    Pow2Add(8, 8); Pow2Add(16, 8); Pow2Add(24, 8);
  }

  lemma MulMonotone(a: int, b: int, k: nat)
    requires a <= b
    ensures a * k <= b * k
  {}

  lemma DivMonotone(x: nat, y: nat, d: nat)
    requires x <= y && d > 0
    ensures x / d <= y / d
  {
    var q, p := x / d, y / d;
    assert q * d <= x && y < p * d + d;
    if q > p { MulMonotone(p + 1, q, d); }
  }

  /** The quotient and remainder of a number already written as q * d + r. */
  lemma DivModUnique(x: int, d: int, q: int, r: int)
    requires 0 <= r < d && x == q * d + r
    ensures x / d == q && x % d == r
  {
    var q', r' := x / d, x % d;
    assert x == d * q' + r' && 0 <= r' < d;
    assert (q - q') * d == r' - r;
    if q > q' { MulMonotone(1, q - q', d); }
    if q < q' { MulMonotone(q - q', -1, d); }
  }

  /** x lies in the aligned interval [q * d, (q + 1) * d) exactly when x / d == q. */
  lemma QuotientInterval(x: nat, d: nat, q: nat)
    requires d > 0
    ensures x / d == q <==> q * d <= x < (q + 1) * d
  {
    assert x == d * (x / d) + x % d;
    if q * d <= x < (q + 1) * d { DivModUnique(x, d, q, x - q * d); }
  }

  /** x shifted left by n bits. */
  function Shl(x: nat, n: nat): (r: nat) {
    MulMonotone(0, x, Pow2(n));
    x * Pow2(n)
  }

  /** x shifted right by n bits. */
  function Shr(x: nat, n: nat): (r: nat) {
    QuotientNonNegative(x, Pow2(n));
    x / Pow2(n)
  }

  lemma QuotientNonNegative(x: nat, d: nat)
    requires d > 0
    ensures x / d >= 0
  {
    if x / d < 0 { MulMonotone(x / d, -1, d); }
  }

  /** A number of m - n bits shifted left by n stays within m bits, with its low n bits free. */
  lemma ShlRoom(x: nat, n: nat, m: nat)
    requires n <= m && x < Pow2(m - n)
    ensures Shl(x, n) + Pow2(n) <= Pow2(m)
  {
    Pow2Add(m - n, n);
    assert m - n + n == m;
    MulMonotone(x + 1, Pow2(m - n), Pow2(n));
    assert (x + 1) * Pow2(n) == Shl(x, n) + Pow2(n);
  }

  /** Appending d low bits to a number does not change which power of two it reaches. */
  lemma ShlCompare(x: nat, b: nat, low: nat, d: nat)
    requires low < Pow2(d)
    ensures Shl(x, d) + low >= Pow2(b + d) <==> x >= Pow2(b)
  {
    Pow2Add(b, d);
    if x < Pow2(b) {
      assert b + d - d == b;
      ShlRoom(x, d, b + d);
    } else {
      MulMonotone(Pow2(b), x, Pow2(d));
    }
  }

  lemma ShlLowBitsClear(x: nat, n: nat)
    ensures Shl(x, n) % Pow2(n) == 0 && Shl(x, n) / Pow2(n) == x
  {
    DivModUnique(Shl(x, n), Pow2(n), x, 0);
  }
}
