/** Facts about products and quotients that the solver should not have to find. */
module Arith {
  lemma {:induction false} MulMonotone(x: int, y: int, z: nat)
    requires x <= y
    ensures x * z <= y * z
  {
    if z > 0 {
      MulMonotone(x, y, z - 1);
      assert x * z == x * (z - 1) + x && y * z == y * (z - 1) + y;
    }
  }

  lemma DivMod(k: int, d: nat)
    requires d > 0
    ensures k == k / d * d + k % d && 0 <= k % d < d
  {
  }

  lemma DivNat(k: nat, d: nat)
    requires d > 0
    ensures k / d >= 0
  {
  }

  /** The quotient is determined by where the number lies. */
  lemma DivIs(k: int, d: nat, q: int)
    requires d > 0 && q * d <= k < q * d + d
    ensures k / d == q && k % d == k - q * d
  {
    DivMod(k, d);
    if k / d < q {
      MulMonotone(k / d + 1, q, d);
    } else if k / d > q {
      MulMonotone(q + 1, k / d, d);
    }
  }

  lemma RemainderOf(q: nat, d: nat, r: nat)
    requires r < d
    ensures (q * d + r) % d == r
  {
    DivIs(q * d + r, d, q);
    DivMod(q * d + r, d);
  }

  lemma DivMonotone(a: int, b: int, d: nat)
    requires a <= b && d > 0
    ensures a / d <= b / d
  {
    DivMod(a, d);
    DivMod(b, d);
    if a / d > b / d {
      MulMonotone(b / d + 1, a / d, d);
    }
  }
}
