/** Facts about multiplication, division and powers of two. */
module Arith {

  /** How many values a 32-bit word has. */
  const UINT_RANGE: int := 0x1_0000_0000

  function Min(x: int, y: int): int {
    if x < y then x else y
  }

  function Pow2(k: nat): (p: nat)
    ensures p > 0
  {
    if k == 0 then 1 else 2 * Pow2(k - 1)
  }

  lemma MulMonotone(a: int, b: int, n: nat)
    requires a <= b
    ensures a * n <= b * n
  {
  }

  lemma DivBound(x: nat, n: nat)
    requires n > 0
    ensures 0 <= x / n <= x
  {
    var q := x / n;
    assert q * n + x % n == x;
    if q < 0 {
      MulMonotone(q, -1, n);
    } else {
      MulMonotone(1, n, q);
    }
  }

  /** Quotient and remainder are the only ones. */
  lemma DivModUnique(x: int, n: nat, q: int, r: nat)
    requires x == q * n + r && r < n
    ensures x / n == q && x % n == r
  {
    var e := x / n;
    assert e * n + x % n == q * n + r;
    if e < q {
      MulMonotone(e + 1, q, n);
    } else if q < e {
      MulMonotone(q + 1, e, n);
    }
  }

  /** Halving a number halves its quotient by 2p. */
  lemma DivModTwice(x: nat, p: nat)
    requires p > 0
    ensures x % (2 * p) == 2 * ((x / 2) % p) + x % 2
  {
    var h := x / 2;
    var d := h / p;
    var r := 2 * (h % p) + x % 2;
    assert h == d * p + h % p;
    assert x == d * (2 * p) + r;
    DivModUnique(x, 2 * p, d, r);
  }

  lemma PowersOfTwo()
    ensures Pow2(0) == 1 && Pow2(4) == 16 && Pow2(6) == 64 && Pow2(8) == 0x100
    ensures Pow2(12) == 0x1000 && Pow2(16) == 0x1_0000
    ensures Pow2(18) == 0x4_0000 && Pow2(24) == 0x100_0000 && Pow2(31) == 0x8000_0000 && Pow2(32) == 0x1_0000_0000
  {
    assert Pow2(4) == 16;
    assert Pow2(8) == 0x100;
    assert Pow2(12) == 0x1000;
    assert Pow2(16) == 0x1_0000;
    assert Pow2(20) == 0x10_0000;
    assert Pow2(24) == 0x100_0000;
    assert Pow2(28) == 0x1000_0000;
  }

  lemma DivDiv(x: nat, m: nat, n: nat)
    requires m > 0 && n > 0
    ensures m * n > 0 && (x / m) / n == x / (m * n)
  {
    MulMonotone(1, m, n);
    var q, r := (x / m) / n, (x / m) % n;
    assert x == (x / m) * m + x % m;
    assert x / m == q * n + r;
    calc {
      x;
      (q * n + r) * m + x % m;
      q * (m * n) + (r * m + x % m);
    }
    MulMonotone(r + 1, n, m);
    DivModUnique(x, m * n, q, r * m + x % m);
  }
}
