/** Powers of two and the few nonlinear facts the proofs share. */
module Arithmetic {

  function Pow2(n: nat): (r: nat)
    ensures r > 0
  {
    if n == 0 then 1 else 2 * Pow2(n - 1)
  }

  lemma {:induction false} Pow2Monotone(a: nat, b: nat)
    requires a <= b
    ensures Pow2(a) <= Pow2(b)
    decreases b
  {
    if a < b {
      Pow2Monotone(a, b - 1);
    }
  }

  lemma {:induction false} Pow2Sum(a: nat, b: nat)
    ensures Pow2(a + b) == Pow2(a) * Pow2(b)
  {
    if a > 0 {
      Pow2Sum(a - 1, b);
      assert a + b - 1 == (a - 1) + b;
    }
  }

  lemma Pow2Of32()
    ensures Pow2(32) == 0x1_0000_0000
  {
    assert Pow2(8) == 256;
    Pow2Sum(8, 8);
    Pow2Sum(16, 16);
  }

  lemma MulMonotone(a: nat, b: nat, c: nat)
    requires a <= b
    ensures a * c <= b * c && c * a <= c * b
  {
  }

  lemma Distribute(a: int, b: int, c: int)
    ensures a * (b + c) == a * b + a * c
  {
  }

  lemma Regroup(a: int, b: int, c: int)
    ensures a * (b * c) == (a * b) * c
  {
  }

  lemma Together<T>(a: seq<T>, b: seq<T>, c: seq<T>)
    ensures a + (b + c) == (a + b) + c
  {
  }

  lemma DivMod(x: int, n: int)
    requires n > 0
    ensures x == n * (x / n) + x % n && 0 <= x % n < n
  {
  }

  /** The two quotients and remainders put together. */
  lemma QuotientsJoined(n: nat, m: nat, q: nat, r: nat, q2: nat, r2: nat)
    requires n > 0 && m > 0 && q == m * q2 + r2 && r < n && r2 < m
    ensures n * q + r == (n * m) * q2 + (n * r2 + r) && 0 <= n * r2 + r < n * m
  {
    Distribute(n, m * q2, r2);
    Regroup(n, m, q2);
    MulMonotone(r2 + 1, m, n);
    Distribute(n, r2, 1);
  }

  /** Dividing twice is dividing by the product. */
  lemma DivDiv(x: nat, n: nat, m: nat)
    requires n > 0 && m > 0
    ensures n * m > 0 && x / (n * m) == x / n / m
  {
    var q, r := x / n, x % n;
    DivMod(x, n);
    DivMod(q, m);
    MulMonotone(1, n, m);
    QuotientsJoined(n, m, q, r, q / m, q % m);
    DivUnique(x, n * m, q / m, n * (q % m) + r);
  }

  lemma DivUnique(x: int, n: int, q: int, r: int)
    requires n > 0 && x == n * q + r && 0 <= r < n
    ensures x / n == q && x % n == r
  {
    var d := x / n - q;
    assert n * (x / n) + x % n == n * q + r;
    assert n * d == r - x % n by {
      assert n * d == n * (x / n) - n * q;
    }
    if d > 0 {
      MulMonotone(1, d, n);
    }
  }
}
