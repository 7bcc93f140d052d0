/** Powers of two, and division with remainder for operands that the solver does not multiply on its
    own. */
module Arithmetic {
  function Min(a: nat, b: nat): nat {
    if a < b then a else b
  }

  function Pow2(n: nat): (p: nat)
    ensures p > 0
  {
    if n == 0 then 1 else 2 * Pow2(n - 1)
  }

  lemma MulSign(k: int, m: nat)
    ensures (k >= 1 ==> k * m >= m) && (k <= -1 ==> k * m + m <= 0)
  {
    assert k * m - m == (k - 1) * m && k * m + m == (k + 1) * m;
  }

  lemma DivModOf(x: int, m: nat)
    requires m > 0
    ensures x == m * (x / m) + x % m
  {
  }

  /** Quotient and remainder are unique. */
  lemma DivModIs(x: int, m: nat, q: int, r: nat)
    requires x == m * q + r && r < m
    ensures x / m == q && x % m == r
  {
    DivModOf(x, m);
    assert (x / m - q) * m == m * (x / m) - m * q;
    MulSign(x / m - q, m);
  }

  /** A sum may be reduced before it is complete. */
  lemma ModAdd(a: nat, b: nat, m: nat)
    requires m > 0
    ensures (a % m + b) % m == (a + b) % m
  {
    var h, l := (a % m + b) / m, (a % m + b) % m;
    DivModOf(a, m);
    DivModOf(a % m + b, m);
    assert m * (a / m + h) == m * (a / m) + m * h;
    DivModIs(a + b, m, a / m + h, l);
  }

  /** Dividing a reduced number, and reducing a divided one. */
  lemma DivThenMod(x: nat, a: nat, b: nat)
    requires a > 0 && b > 0
    ensures a * b > 0 && x / a % b == x % (a * b) / a
  {
    MulSign(a, b);
    DivThenModOf(x, a, b, a * b);
  }

  lemma DivThenModOf(x: nat, a: nat, b: nat, m: nat)
    requires a > 0 && b > 0 && m == a * b > 0
    ensures x / a % b == x % m / a
  {
    DivModOf(x, m);
    DivModOf(x % m, a);
    DivThenModIs(x, a, b, m, x / m, x % m / a, x % m % a);
  }

  lemma DivThenModIs(x: nat, a: nat, b: nat, m: nat, q: nat, h: nat, l: nat)
    requires a > 0 && b > 0 && m == a * b && l < a && x == m * q + (a * h + l) && a * h + l < m
    ensures x / a % b == h
  {
    QuotientBelow(a, b, h, l);
    Regroup(a, b, q, h);
    DivModIs(x, a, b * q + h, l);
    DivModIs(b * q + h, b, q, h);
  }

  lemma Regroup(a: nat, b: nat, q: nat, h: nat)
    ensures a * (b * q + h) == a * b * q + a * h
  {
    assert a * (b * q) == a * b * q;
  }

  lemma QuotientBelow(a: nat, b: nat, h: nat, l: nat)
    requires a > 0 && a * h + l < a * b
    ensures h < b
  {
    MulSign(h - b + 1, a);
    assert (h - b + 1) * a == a * h - a * b + a;
  }
}
