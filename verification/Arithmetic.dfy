/** Powers of two and division, shared by the other modules. */
module Arithmetic {

  function Pow2(n: int): (p: nat)
    ensures p > 0
  {
    if n <= 0 then 1 else 2 * Pow2(n - 1)
  }

  /** The logarithm to base two, rounded down. */
  function Log2(n: int): nat
  {
    if n < 2 then 0 else 1 + Log2(n / 2)
  }

  lemma {:induction false} Log2Bound(b: int, n: int)
    requires Pow2(b) <= n
    ensures b <= Log2(n)
  {
    if b > 0 { Log2Bound(b - 1, n / 2); }
  }

  lemma MulLe(m: nat, a: nat, b: nat)
    requires a <= b
    ensures m * a <= m * b
  {
    assert m * b - m * a == m * (b - a);
  }

  lemma DivBound(x: nat, d: nat)
    requires d > 0
    ensures d * (x / d) <= x < d * (x / d) + d
  {
  }

  lemma DivUnique(x: nat, m: nat, q: nat)
    requires m > 0 && m * q <= x < m * q + m
    ensures x / m == q
  {
    var d := x / m;
    assert m * d <= x < m * d + m;
    if d < q { MulLe(m, d + 1, q); } else if q < d { MulLe(m, q + 1, d); }
  }

  /** Quotient and remainder are unique. */
  lemma DivMod(x: nat, m: nat, q: nat, r: nat)
    requires r < m && x == m * q + r
    ensures x / m == q && x % m == r
  {
    DivUnique(x, m, q);
  }

  lemma Multiple(m: nat, a: nat, b: nat)
    requires a < b
    ensures m * b - m * a >= m
  {
    MulLe(m, a + 1, b);
  }
}
