/** log_2 of include/lib/math.h: a binary search for the highest set bit, rounded
    up for anything but a power of two. */
module Log2 {
  import opened Arithmetic
  import opened Bits

  /** The exact ceiling of the logarithm; 0 for 0. */
  ghost predicate IsCeiling(x: nat, y: nat) {
    x <= Pow2(y) && forall k: nat :: k < y ==> Pow2(k) < x
  }

  lemma CeilingUnique(x: nat, y: nat, z: nat)
    requires IsCeiling(x, y) && IsCeiling(x, z)
    ensures y == z
  {}

  function CeilLog2(x: nat): (y: nat)
    ensures IsCeiling(x, y)
  {
    CeilFrom(x, 0)
  }

  function {:induction false} CeilFrom(x: nat, k: nat): (y: nat)
    requires forall j: nat :: j < k ==> Pow2(j) < x
    ensures IsCeiling(x, y) && y >= k
    decreases x - Pow2(k)
  {
    if x <= Pow2(k) then k else CeilFrom(x, k + 1)
  }

  /** The table t. */
  function Mask(i: nat): nat {
    if i == 0 then 0xFFFFFFFF00000000 else if i == 1 then 0x00000000FFFF0000 else if i == 2 then 0x000000000000FF00
    else if i == 3 then 0x00000000000000F0 else if i == 4 then 0x000000000000000C else 0x0000000000000002
  }

  /** The i-th mask covers bits j to 2j - 1, where j is 32 halved i times. */
  lemma MaskShape(i: nat)
    requires i < 6
    ensures Half(i) > 0 && Mask(i) == Shl(Pow2(Half(i)) - 1, Half(i))
  {
    hide Shl;
    Pow2Sizes();
    ShlMultiplies(Pow2(Half(i)) - 1, Half(i));
    assert Pow2(4) == 16 && Pow2(2) == 4 && Pow2(1) == 2;
  }

  function Half(i: nat): nat {
    if i == 0 then 32 else if i == 1 then 16 else if i == 2 then 8
    else if i == 3 then 4 else if i == 4 then 2 else if i == 5 then 1 else 0
  }

  /** With fewer than 2j bits left, the mask tests whether any bit from j on is set. */
  lemma MaskTest(x: nat, j: nat)
    requires x < Pow2(2 * j)
    ensures And(x, Shl(Pow2(j) - 1, j)) == 0 <==> x < Pow2(j)
    ensures Shr(x, j) < Pow2(j)
  {
    hide And, Shl, Shr, Pow2;
    var q := Shr(x, j);
    AndShifted(x, Pow2(j) - 1, j);
    ShrDivides(x, j);
    Pow2Add(j, j);
    DivBounds(x, Pow2(j));
    AndLowMask(q, j);
    SmallMod(q, Pow2(j));
    ShlMultiplies(q, j);
    NonZeroProduct(q, Pow2(j));
  }

  lemma SmallMod(q: nat, d: nat)
    requires q < d
    ensures q % d == q
  {}

  lemma NonZeroProduct(q: nat, d: nat)
    requires d > 0
    ensures q * d == 0 <==> q == 0
  {}

  lemma DivBounds(x: nat, d: nat)
    requires d > 0 && x < d * d
    ensures x / d < d && (x / d == 0 <==> x < d)
  {
    var q, r := x / d, x % d;
    assert x == d * q + r;
    if q >= d {
      ProductGrows(d, d, d, q);
    }
    if q == 0 {
      assert d * 0 == 0;
    } else {
      ProductGrows(d, d, 1, q);
    }
  }

  /** What the loop has found out: x0 shifted right by s leaves x, and x has at
      most `width` bits. */
  ghost predicate Narrowed(x0: nat, s: nat, x: nat, width: nat) {
    Shr(x0, s) == x && 0 < x < Pow2(width)
  }

  lemma {:induction false} ShrAdd(x: nat, j: nat, k: nat)
    ensures Shr(Shr(x, j), k) == Shr(x, j + k)
  {
    if j > 0 {
      ShrAdd(x / 2, j - 1, k);
    }
  }

  /** x0 >> s == 1 says that s is the floor of the logarithm. */
  lemma {:induction false} ShrOne(x: nat, s: nat)
    requires Shr(x, s) == 1
    ensures Pow2(s) <= x < Pow2(s + 1)
  {
    if s > 0 {
      ShrOne(x / 2, s - 1);
    }
  }

  lemma FloorToCeiling(x: nat, s: nat, y: nat)
    requires Pow2(s) <= x < Pow2(s + 1)
    requires y == if x == Pow2(s) then s else s + 1
    ensures IsCeiling(x, y)
  {
    forall k: nat | k < y
      ensures Pow2(k) < x
    {
      if k < s {
        Pow2Monotone(k, s);
      }
    }
  }

  function Width(i: nat): nat {
    if i >= 6 then 1 else 2 * Half(i)
  }

  /** One round of the loop. */
  lemma Round(x0: nat, s: nat, x: nat, i: nat)
    requires i < 6 && Narrowed(x0, s, x, Width(i))
    ensures var k := if And(x, Mask(i)) == 0 then 0 else Half(i);
            Narrowed(x0, s + k, Shr(x, k), Width(i + 1))
  {
    hide And, Shl, Mask, Shr;
    MaskShape(i);
    MaskTest(x, Half(i));
    ShrAdd(x0, s, Half(i));
    ShrPositive(x, Half(i));
    ShrNone(x);
  }

  /** log_2: exact for every non-zero 64-bit input; 0 gives 0. */
  method Log2(x0: nat) returns (y: nat)
    requires x0 < Pow2(64)
    ensures y == CeilLog2(x0)
  {
    hide And, Shr, Shl, CeilLog2, Mask, Narrowed, Half, Pow2, Width, IsCeiling;
    ZeroCase();
    NarrowedAtFirst(x0);
    var x := x0;
    // x & (x - 1) with the subtraction of a 64-bit word
    y := if And(x, if x == 0 then 0xFFFF_FFFF_FFFF_FFFF else x - 1) == 0 then 0 else 1;
    ghost var up, s: nat := y, 0;
    var j := 32;
    var i := 0;
    while i < 6
      invariant 0 <= i <= 6 && j == Half(i)
      invariant x0 == 0 ==> x == 0 && y == 0
      invariant x0 != 0 ==> y == up + s && Narrowed(x0, s, x, Width(i))
    {
      if x0 != 0 {
        Round(x0, s, x, i);
      }
      var k := if And(x, Mask(i)) == 0 then 0 else j;
      y := y + k;
      x := Shr(x, k);
      s := s + k;
      HalfStep(i);
      j := j / 2;
      i := i + 1;
    }
    if x0 != 0 {
      LogDone(x0, s, x);
    }
  }

  lemma NarrowedAtFirst(x0: nat)
    requires x0 < Pow2(64)
    ensures x0 != 0 ==> Narrowed(x0, 0, x0, Width(0))
    ensures Half(0) == 32
  {}

  lemma LogDone(x0: nat, s: nat, x: nat)
    requires x0 != 0 && Narrowed(x0, s, x, Width(6))
    ensures CeilLog2(x0) == (if And(x0, x0 - 1) == 0 then 0 else 1) + s
  {
    hide And, Shr;
    assert Pow2(1) == 2;
    ShrOne(x0, s);
    AndPredecessor(x0, s);
    var y := (if And(x0, x0 - 1) == 0 then 0 else 1) + s;
    FloorToCeiling(x0, s, y);
    CeilingUnique(x0, y, CeilLog2(x0));
  }

  lemma ZeroCase()
    ensures And(0, 0xFFFF_FFFF_FFFF_FFFF) == 0 && CeilLog2(0) == 0
    ensures forall i :: 0 <= i < 6 ==> And(0, Mask(i)) == 0
    ensures forall k: nat :: Shr(0, k) == 0
  {
    forall k: nat
      ensures Shr(0, k) == 0
    {
      ShrDivides(0, k);
    }
    CeilingUnique(0, CeilLog2(0), 0);
  }

  lemma ShrNone(x: nat)
    ensures Shr(x, 0) == x
  {}

  lemma ShrPositive(x: nat, j: nat)
    ensures x >= Pow2(j) ==> Shr(x, j) > 0
  {
    ShrDivides(x, j);
    QuotientPositive(x, Pow2(j));
  }

  lemma QuotientPositive(x: nat, d: nat)
    requires d > 0
    ensures x >= d ==> x / d > 0
  {}

  lemma HalfStep(i: nat)
    requires i < 6
    ensures Half(i) / 2 == Half(i + 1)
    ensures Half(i) == if i == 5 then 1 else 2 * Half(i + 1)
  {}
}
