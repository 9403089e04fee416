/**
 * Facts about integer division by a positive divisor (the group size),
 * proved from the definition of division.
 */
module Arith {

  /**
   * c * g written as repeated addition, so that chunk offsets stay linear
   * facts for the solver; MulIsProduct ties it to the product.
   */
  function Mul(c: nat, g: nat): nat {
    if c == 0 then 0 else Mul(c - 1, g) + g
  }

  lemma {:induction false} MulAtLeast(d: int, g: int)
    requires d >= 1 && g >= 0
    ensures d * g >= g
    decreases d
  {
    if d > 1 {
      MulAtLeast(d - 1, g);
      assert d * g == (d - 1) * g + g;
    }
  }

  /** Quotient and remainder are determined by a == q * g + r with 0 <= r < g. */
  lemma DivUnique(a: int, g: int, q: int, r: int)
    requires g > 0 && 0 <= r < g && a == q * g + r
    ensures a / g == q && a % g == r
  {
    var q', r' := a / g, a % g;
    assert a == q' * g + r';
    if q > q' {
      assert (q - q') * g == r' - r;
      MulAtLeast(q - q', g);
    } else if q < q' {
      assert (q' - q) * g == r - r';
      MulAtLeast(q' - q, g);
    }
  }

  lemma {:induction false} MulIsProduct(c: nat, g: nat)
    ensures Mul(c, g) == c * g
  {
    if c > 0 {
      MulIsProduct(c - 1, g);
    }
  }

  lemma {:induction false} MulMonotone(x: nat, q: nat, g: nat)
    requires x <= q
    ensures Mul(x, g) <= Mul(q, g)
    decreases q - x
  {
    if x < q {
      MulMonotone(x, q - 1, g);
    }
  }

  /** d lies in the q-th block of g: its quotient is q. */
  lemma QuotientBetween(d: int, q: nat, g: nat)
    requires g > 0 && Mul(q, g) <= d < Mul(q, g) + g
    ensures d / g == q
  {
    MulIsProduct(q, g);
    DivUnique(d, g, q, d - q * g);
  }

  /** A whole number c of blocks of g has quotient c. */
  lemma QuotientOf(d: int, c: nat, g: nat)
    requires g > 0 && d == Mul(c, g)
    ensures d / g == c
  {
    QuotientBetween(d, c, g);
  }

  /** Blocks numbered up to d / g start at or before d. */
  lemma MulBelow(x: nat, d: int, g: nat)
    requires g > 0 && 0 <= d && x <= d / g
    ensures Mul(x, g) <= d
  {
    var q, r := d / g, d % g;
    assert d == q * g + r;
    MulMonotone(x, q, g);
    MulIsProduct(q, g);
  }

  /**
   * Dividing x >= g by a divisor g >= 2 gives a quotient that is positive and
   * strictly below x.
   */
  lemma QuotientShrinks(x: int, g: int)
    requires 2 <= g <= x
    ensures 1 <= x / g < x
  {
    var q, r := x / g, x % g;
    assert x == q * g + r;
    if q >= 1 {
      MulAtLeast(q, g - 2);
      assert q * g == q * (g - 2) + 2 * q;
    }
  }

  /** The midpoint of [left, right] lies (right - left) / 2 past left. */
  lemma MidpointOffset(left: int, right: int)
    ensures (left + right) / 2 - left == (right - left) / 2
  {
    DivUnique(left + right, 2, (right - left) / 2 + left, (right - left) % 2);
  }

  lemma MulBelowAll(d: int, g: nat)
    requires g > 0 && 0 <= d
    ensures forall x: nat :: x <= d / g ==> Mul(x, g) <= d
  {
    forall x: nat | x <= d / g ensures Mul(x, g) <= d {
      MulBelow(x, d, g);
    }
  }
}
