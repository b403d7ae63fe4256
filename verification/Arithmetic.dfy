/** The few facts about products and quotients that the other proofs share. */
module Arithmetic {

  lemma MulPositive(x: int, y: int)
    requires x > 0 && y > 0
    ensures x * y > 0
  {
  }

  lemma MulAtLeast(x: int, k: int)
    requires x >= 0 && k >= 1
    ensures x <= x * k
  {
  }

  lemma MulAssociative(x: int, y: int, z: int)
    ensures (x * y) * z == x * (y * z)
  {
  }

  lemma MulCommutes(x: int, y: int)
    ensures x * y == y * x
  {
  }

  lemma Distribute(x: int, y: int, k: int)
    ensures (x + y) * k == x * k + y * k
    ensures (x - y) * k == x * k - y * k
  {
  }

  lemma MulMonotone(x: int, y: int, k: int)
    requires x <= y && k >= 0
    ensures x * k <= y * k
  {
    Distribute(y, x, k);
    assert (y - x) * k >= 0;
  }

  lemma ScaledOrder(a: int, b: int, k: int)
    requires k > 0
    ensures a * k <= b * k <==> a <= b
    ensures a * k == b * k <==> a == b
  {
    if a < b {
      MulPositive(b - a, k);
      Distribute(b, a, k);
    } else if a > b {
      MulPositive(a - b, k);
      Distribute(a, b, k);
    }
  }

  lemma MulRegroup(c: int, x: int, y: int, z: int)
    ensures (c * x) * (y * z) == c * z * (x * y)
  {
  }

  lemma DivisionIdentity(c: int, d: int)
    requires d > 0
    ensures c == (c / d) * d + c % d && 0 <= c % d < d
  {
  }

  lemma DivisionBounds(c: nat, d: nat)
    requires d > 0
    ensures 0 <= c / d && 0 <= c % d < d
  {
  }

  /** Quotient and remainder are determined by the division identity. */
  lemma DivModUnique(c: int, q: int, r: int, d: int)
    requires d > 0 && c == q * d + r && 0 <= r < d
    ensures c / d == q && c % d == r
  {
    var k := c / d - q;
    assert k * d == r - c % d by {
      Distribute(c / d, q, d);
      assert c == d * (c / d) + c % d;
      assert d * (c / d) == (c / d) * d;
    }
    if k >= 1 {
      MulMonotone(1, k, d);
    } else if k <= -1 {
      MulMonotone(k, -1, d);
    }
  }
}
