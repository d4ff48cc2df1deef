/** Powers of two and Euclidean division. */
module Arith {

  function Pow2(n: nat): (p: nat)
    ensures p >= 1
  {
    if n == 0 then 1 else 2 * Pow2(n - 1)
  }

  /** A number without its last `j` binary digits. */
  function ShiftRight(x: nat, j: nat): nat {
    x / Pow2(j)
  }

  lemma {:induction false} Pow2Values()
    ensures Pow2(0) == 1 && Pow2(1) == 2 && Pow2(2) == 4 && Pow2(3) == 8 && Pow2(4) == 16
    ensures Pow2(5) == 32 && Pow2(6) == 64 && Pow2(7) == 128 && Pow2(8) == 256
    ensures Pow2(16) == 65536 && Pow2(24) == 0x100_0000
  {
    assert Pow2(12) == 4096;
  }

  lemma {:induction false} Pow2Add(m: nat, n: nat)
    ensures Pow2(m + n) == Pow2(m) * Pow2(n)
  {
    if m == 0 {
    } else {
      Pow2Add(m - 1, n);
      assert Pow2(m + n) == 2 * Pow2(m - 1 + n);
    }
  }

  lemma {:induction false} MulStep(m: nat, x: int, y: int)
    ensures x < y ==> m * x + m <= m * y
  {
    if x < y {
      assert m * y == m * (x + 1) + m * (y - x - 1);
    }
  }

  lemma {:induction false} DigitsUnique(h: int, q: int, h': int, q': int, c: nat)
    requires 0 <= q < c && 0 <= q' < c
    ensures c * h + q == c * h' + q' <==> h == h' && q == q'
  {
    MulStep(c, h, h');
    MulStep(c, h', h);
  }

  lemma {:induction false} DivUnique(x: int, m: nat, q: int, r: int)
    requires m >= 1 && x == m * q + r && 0 <= r < m
    ensures x / m == q
  {
    assert x == m * (x / m) + x % m;
    DigitsUnique(x / m, x % m, q, r, m);
  }

  /** Dividing twice is dividing by the product. */
  lemma {:induction false} DivDiv(x: nat, m: nat, c: nat)
    requires m >= 1 && c >= 1
    ensures m * c >= 1 && x / m / c == x / (m * c)
  {
    var q := x / m;
    assert x == m * q + x % m && q == c * (q / c) + q % c;
    MulStep(m, q % c, c);
    assert m * q == m * (c * (q / c)) + m * (q % c);
    assert m * (c * (q / c)) == m * c * (q / c);
    MulStep(m, 0, c);
    assert m * (q % c) >= 0;
    DivUnique(x, m * c, q / c, m * (q % c) + x % m);
  }
}
