/** Products, quotients and remainders. */
module Arith {

  lemma MulDistributes(a: int, b: int, d: int)
    ensures (a - b) * d == a * d - b * d && (a + b) * d == a * d + b * d
  {
  }

  lemma {:induction false} MulAtLeast(a: nat, d: nat)
    requires a >= 1
    ensures a * d >= d
  {
    if a > 1 {
      MulAtLeast(a - 1, d);
      MulDistributes(a, 1, d);
    }
  }

  lemma MulMonotone(a: nat, b: nat, d: nat)
    requires a < b
    ensures a * d + d <= b * d
  {
    MulAtLeast(b - a, d);
    MulDistributes(b, a, d);
  }

  lemma MulEight(q: nat, k: nat)
    ensures q * (8 * k) == 8 * (q * k)
  {
  }

  lemma DivMod(x: nat, d: nat)
    requires d > 0
    ensures x / d * d + x % d == x && x % d < d
  {
  }

  lemma DivUnique(x: nat, d: nat, q: nat, r: nat)
    requires d > 0 && r < d && x == q * d + r
    ensures x / d == q && x % d == r
  {
    DivMod(x, d);
    var q', r' := x / d, x % d;
    if q' < q {
      MulMonotone(q', q, d);
    } else if q < q' {
      MulMonotone(q, q', d);
    }
  }
}
