/** The byte-array bit sets of include/lib/bitset.h. */
module Bitset {
  import opened Bits

  type Bytes = seq<nat>

  predicate Within(b: Bytes, i: nat) {
    i / 8 < |b|
  }

  function Set(b: Bytes, i: nat): (r: Bytes)
    requires Within(b, i)
    ensures |r| == |b|
  {
    b[i / 8 := Or(b[i / 8], Pow2(i % 8))]
  }

  /** &= ~(1 << k) on an int. */
  function Unset(b: Bytes, i: nat): (r: Bytes)
    requires Within(b, i)
    ensures |r| == |b|
  {
    Pow2Sizes();
    Pow2Monotone(i % 8, 32);
    b[i / 8 := And(b[i / 8], 0xFFFF_FFFF - Pow2(i % 8))]
  }

  predicate Test(b: Bytes, i: nat)
    requires Within(b, i)
  {
    And(b[i / 8], Pow2(i % 8)) != 0
  }

  /** memset(bitset, BITSET_FULL, n) */
  function Full(n: nat): (b: Bytes)
    ensures |b| == n
  {
    seq(n, _ => 0xFF)
  }

  lemma TestIsBit(b: Bytes, i: nat)
    requires Within(b, i)
    ensures Test(b, i) <==> Bit(b[i / 8], i % 8)
  {
    AndPow2(b[i / 8], i % 8);
  }

  lemma SetBit(b: Bytes, i: nat, j: nat)
    requires Within(b, i) && Within(b, j)
    ensures Test(Set(b, i), j) <==> i == j || Test(b, j)
  {
    TestIsBit(b, j);
    TestIsBit(Set(b, i), j);
    hide Bit, And, Or, Pow2, Test;
    if i / 8 == j / 8 {
      BitOfOr(b[i / 8], Pow2(i % 8), j % 8);
      BitOfPow2(i % 8, j % 8);
    }
  }

  lemma UnsetBit(b: Bytes, i: nat, j: nat)
    requires Within(b, i) && Within(b, j)
    ensures Test(Unset(b, i), j) <==> i != j && Test(b, j)
  {
    TestIsBit(b, j);
    TestIsBit(Unset(b, i), j);
    hide Bit, And, Or, Pow2, Test;
    Pow2Sizes();
    Pow2Monotone(i % 8, 32);
    if i / 8 == j / 8 {
      BitOfAnd(b[i / 8], 0xFFFF_FFFF - Pow2(i % 8), j % 8);
      BitOfClearMask(32, i % 8, j % 8);
    }
  }

  lemma FullBit(n: nat, i: nat)
    requires Within(Full(n), i)
    ensures Test(Full(n), i)
  {
    TestIsBit(Full(n), i);
    BitOfOnes(8, i % 8);
    assert Pow2(8) == 256 by {
      Pow2Sizes();
    }
  }
}
