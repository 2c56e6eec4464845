/** Machine widths and the arithmetic the solver does not do by itself. */
module Arithmetic {

  const TWO_TO_THE_16: nat := 0x1_0000
  const TWO_TO_THE_32: nat := 0x1_0000_0000
  const TWO_TO_THE_64: nat := 0x1_0000_0000_0000_0000

  /** The quotient rounded up. */
  function CeilDiv(n: nat, d: nat): nat
    requires d > 0
  {
    (n + d - 1) / d
  }

  newtype byte = x: int | 0 <= x < 256

  lemma MulMonotone(c: nat, x: int, y: int)
    requires x <= y
    ensures c * x <= c * y
  {
  }

  lemma DivModUnique(n: int, p: nat, q: int, r: nat)
    requires 0 < p && r < p && n == p * q + r
    ensures n / p == q && n % p == r
  {
    var d := n / p - q;
    assert p * d == r - n % p;
    if d >= 1 { MulMonotone(p, 1, d); }
    if d <= -1 { MulMonotone(p, d, -1); }
  }

  lemma SmallMod(n: nat, p: nat)
    requires n < p
    ensures n % p == n
  {
    DivModUnique(n, p, 0, n);
  }

  lemma DivModSplit(n: nat, p: nat)
    requires p > 0
    ensures n == p * (n / p) + n % p && 0 <= n % p < p && n / p >= 0
  {
  }

  lemma SameProduct(c: nat, x: nat, y: nat)
    requires c > 0
    ensures c * x == c * y <==> x == y
  {
    if x < y { MulMonotone(c, x + 1, y); assert c * (x + 1) == c * x + c; }
    if y < x { MulMonotone(c, y + 1, x); assert c * (y + 1) == c * y + c; }
  }
}
