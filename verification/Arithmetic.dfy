/** Powers, products and division, as several modules need them. */
module Arithmetic {
  function Pow(base: nat, e: nat): (p: nat)
    ensures base > 0 ==> p > 0
  {
    if e == 0 then 1 else base * Pow(base, e - 1)
  }

  lemma AtLeastOnce(d: int, m: nat)
    requires d >= 1
    ensures d * m >= m
  {
  }

  lemma Apart(q: nat, p: nat, m: nat)
    requires q < p
    ensures q * m + m <= p * m
  {
    AtLeastOnce(p - q, m);
    assert (p - q) * m == p * m - q * m;
  }

  lemma DivMod(n: nat, d: nat)
    requires d > 0
    ensures n == n / d * d + n % d && n % d < d
  {
  }

  // Quotient and remainder are unique.
  lemma Division(x: nat, q: nat, r: nat, m: nat)
    requires r < m && x == q * m + r
    ensures x / m == q && x % m == r
  {
    var p := x / m;
    DivMod(x, m);
    if q < p { Apart(q, p, m); } else if p < q { Apart(p, q, m); }
  }
}
