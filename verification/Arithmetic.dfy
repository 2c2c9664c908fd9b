/** Integer division and products, one fact at a time. */
module Arithmetic {

  function Quotient(x: nat, d: nat): (q: nat)
    requires d > 0
  {
    x / d
  }

  function Remainder(x: nat, d: nat): (r: nat)
    requires d > 0
  {
    x % d
  }

  lemma DivMod(x: nat, d: nat)
    requires d > 0
    ensures x == d * Quotient(x, d) + Remainder(x, d) && Remainder(x, d) < d
  {}

  lemma EuclidUnique(x: int, d: int, q: int, r: int)
    requires d > 0 && 0 <= r < d && x == d * q + r
    ensures x / d == q && x % d == r
  {
    var q', r' := x / d, x % d;
    var t := q - q';
    assert d * t == r' - r by {
      assert d * q == d * q' + d * t;
    }
    if t != 0 {
      LargeMultiple(d, t);
    }
  }

  lemma LargeMultiple(d: int, t: int)
    requires d > 0 && t != 0
    ensures d * t >= d || d * t <= -d
  {
    if t >= 1 {
      assert d * t >= d * 1;
    } else {
      assert d * t <= d * -1;
    }
  }

  lemma ProductGrows(a: nat, b: nat, x: nat, y: nat)
    requires a <= b && x <= y
    ensures a * x <= b * y
  {
    assert b * y == a * x + (b - a) * y + a * (y - x);
    assert (b - a) * y >= 0 && a * (y - x) >= 0;
  }

  lemma PositiveFactor(d: nat, t: int)
    requires d > 0 && d * t > 0
    ensures d * t >= d
  {
    if t >= 1 {
      assert d * t == d + d * (t - 1);
    }
  }

  lemma NegativeProduct(d: nat, t: int)
    requires t <= 0
    ensures d * t <= 0
  {}
}
