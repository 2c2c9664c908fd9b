/** Unsigned machine words as naturals, with the C bit operators defined digit
    by digit.  The lemmas turn the masks and shifts of the kernel sources into
    arithmetic, so that the other modules can reason with / and % only. */
module Bits {
  import opened Arithmetic

  function Pow2(k: nat): (r: nat)
    ensures r > 0
  {
    if k == 0 then 1 else 2 * Pow2(k - 1)
  }

  /** x >> k */
  function Shr(x: nat, k: nat): nat {
    if k == 0 then x else Shr(x / 2, k - 1)
  }

  /** x << k, without a width limit */
  function Shl(x: nat, k: nat): nat {
    if k == 0 then x else 2 * Shl(x, k - 1)
  }

  /** x & y */
  function And(x: nat, y: nat): nat {
    if x == 0 || y == 0 then 0
    else 2 * And(x / 2, y / 2) + (if x % 2 == 1 && y % 2 == 1 then 1 else 0)
  }

  /** x | y */
  function Or(x: nat, y: nat): nat
    decreases x + y
  {
    if x == 0 && y == 0 then 0
    else 2 * Or(x / 2, y / 2) + (if x % 2 == 1 || y % 2 == 1 then 1 else 0)
  }

  /** x ^ y */
  function Xor(x: nat, y: nat): nat
    decreases x + y
  {
    if x == 0 && y == 0 then 0
    else 2 * Xor(x / 2, y / 2) + (if x % 2 != y % 2 then 1 else 0)
  }

  /** Bit k of x. */
  predicate Bit(x: nat, k: nat) {
    Shr(x, k) % 2 == 1
  }

  lemma {:induction false} DivHalf(x: nat, d: nat)
    requires d > 0
    ensures x / (2 * d) == (x / 2) / d
    ensures x % (2 * d) == 2 * ((x / 2) % d) + x % 2
  {
    var q, r := (x / 2) / d, (x / 2) % d;
    assert x / 2 == q * d + r;
    assert x == (2 * d) * q + (2 * r + x % 2);
    EuclidUnique(x, 2 * d, q, 2 * r + x % 2);
  }

  lemma {:induction false} ShrDivides(x: nat, k: nat)
    ensures Shr(x, k) == x / Pow2(k)
  {
    if k > 0 {
      ShrDivides(x / 2, k - 1);
      DivHalf(x, Pow2(k - 1));
    }
  }

  lemma {:induction false} ShlMultiplies(x: nat, k: nat)
    ensures Shl(x, k) == x * Pow2(k)
  {
    if k > 0 {
      ShlMultiplies(x, k - 1);
    }
  }

  lemma {:induction false} Pow2Add(j: nat, k: nat)
    ensures Pow2(j + k) == Pow2(j) * Pow2(k)
  {
    if j > 0 {
      Pow2Add(j - 1, k);
      assert Pow2(j + k) == 2 * Pow2(j - 1 + k);
    }
  }

  lemma {:induction false} Pow2Monotone(j: nat, k: nat)
    requires j < k
    ensures Pow2(j) < Pow2(k)
  {
    if j < k - 1 {
      Pow2Monotone(j, k - 1);
    }
  }

  lemma {:induction false} Pow2Below(k: nat, s: nat)
    requires k <= s
    ensures Pow2(k) <= Pow2(s)
  {
    if k < s {
      Pow2Below(k, s - 1);
    }
  }

  lemma Pow2Reflects(j: nat, k: nat)
    requires Pow2(j) < Pow2(k)
    ensures j < k
  {
    if k <= j {
      Pow2Below(k, j);
    }
  }

  lemma Pow2Sizes()
    ensures Pow2(8) == 0x100 && Pow2(9) == 512 && Pow2(12) == 0x1000 && Pow2(16) == 0x1_0000
    ensures Pow2(18) == 0x4_0000 && Pow2(21) == 0x20_0000 && Pow2(27) == 0x800_0000
    ensures Pow2(30) == 0x4000_0000 && Pow2(32) == 0x1_0000_0000
    ensures Pow2(39) == 0x80_0000_0000 && Pow2(48) == 0x1_0000_0000_0000
    ensures Pow2(64) == 0x1_0000_0000_0000_0000
  {
    assert Pow2(4) == 16;
    Pow2Add(4, 4);
    Pow2Add(8, 1); Pow2Add(8, 4); Pow2Add(8, 8); Pow2Add(9, 9);
    Pow2Add(9, 12); Pow2Add(9, 18); Pow2Add(18, 12); Pow2Add(16, 16);
    Pow2Add(30, 9); Pow2Add(32, 16); Pow2Add(32, 32);
  }

  /** Masking with 2^k - 1 keeps the remainder. */
  lemma {:induction false} AndLowMask(x: nat, k: nat)
    ensures And(x, Pow2(k) - 1) == x % Pow2(k)
  {
    if x != 0 && k > 0 {
      AndLowMask(x / 2, k - 1);
      DivHalf(x, Pow2(k - 1));
      assert (Pow2(k) - 1) / 2 == Pow2(k - 1) - 1;
      assert (Pow2(k) - 1) % 2 == 1;
    }
  }

  /** A mask shifted up by k looks only at the bits from k on. */
  lemma {:induction false} AndShifted(x: nat, m: nat, k: nat)
    ensures And(x, Shl(m, k)) == Shl(And(Shr(x, k), m), k)
  {
    if k > 0 {
      AndShifted(x / 2, m, k - 1);
      AndEven(x, Shl(m, k - 1));
    }
  }

  lemma AndEven(x: nat, y: nat)
    ensures And(x, 2 * y) == 2 * And(x / 2, y)
  {}

  /** OR of fields that do not overlap is their sum. */
  lemma {:induction false} OrDisjoint(a: nat, b: nat, k: nat)
    requires b < Pow2(k)
    ensures Or(a * Pow2(k), b) == a * Pow2(k) + b
  {
    if k == 0 {
      OrZero(a);
    } else {
      var d := Pow2(k - 1);
      assert a * Pow2(k) == 2 * (a * d);
      OrDisjoint(a, b / 2, k - 1);
      assert (2 * (a * d)) / 2 == a * d && (2 * (a * d)) % 2 == 0;
    }
  }

  lemma {:induction false} OrZero(a: nat)
    ensures Or(a, 0) == a
  {
    if a > 0 {
      OrZero(a / 2);
    }
  }

  /** XOR with 2^k flips bit k: it adds or subtracts 2^k. */
  lemma {:induction false} XorBit(x: nat, k: nat)
    ensures Xor(x, Pow2(k)) == if Bit(x, k) then x - Pow2(k) else x + Pow2(k)
    ensures Bit(x, k) ==> x >= Pow2(k)
  {
    if k == 0 {
      XorZero(x / 2);
    } else {
      XorBit(x / 2, k - 1);
      assert Bit(x, k) == Bit(x / 2, k - 1);
      assert Pow2(k) / 2 == Pow2(k - 1) && Pow2(k) % 2 == 0;
    }
  }

  lemma {:induction false} XorZero(a: nat)
    ensures Xor(a, 0) == a
  {
    if a > 0 {
      XorZero(a / 2);
    }
  }

  lemma {:induction false} AndSelf(a: nat)
    ensures And(a, a) == a
  {
    if a > 0 {
      AndSelf(a / 2);
    }
  }

  /** x & (x - 1) is zero exactly for the powers of two. */
  lemma {:induction false} AndPredecessor(x: nat, k: nat)
    requires Pow2(k) <= x < Pow2(k + 1)
    ensures And(x, x - 1) == 0 <==> x == Pow2(k)
  {
    if k > 0 {
      AndPredecessor(x / 2, k - 1);
      if x % 2 == 0 {
        assert (x - 1) / 2 == x / 2 - 1;
      } else {
        assert (x - 1) / 2 == x / 2;
        AndSelf(x / 2);
      }
    }
  }

  lemma {:induction false} BitZero(k: nat)
    ensures !Bit(0, k)
  {
    if k > 0 {
      BitZero(k - 1);
    }
  }

  lemma {:induction false} BitOfAnd(x: nat, y: nat, k: nat)
    ensures Bit(And(x, y), k) <==> Bit(x, k) && Bit(y, k)
  {
    if x == 0 || y == 0 {
      BitZero(k);
    } else if k > 0 {
      BitOfAnd(x / 2, y / 2, k - 1);
    }
  }

  lemma {:induction false} BitOfOr(x: nat, y: nat, k: nat)
    ensures Bit(Or(x, y), k) <==> Bit(x, k) || Bit(y, k)
  {
    if x == 0 && y == 0 {
      BitZero(k);
    } else if k > 0 {
      BitOfOr(x / 2, y / 2, k - 1);
    }
  }

  lemma {:induction false} BitOfPow2(j: nat, k: nat)
    ensures Bit(Pow2(j), k) <==> j == k
  {
    if k > 0 && j > 0 {
      BitOfPow2(j - 1, k - 1);
    } else if k > 0 {
      BitZero(k - 1);
    }
  }

  /** Clearing mask: all ones in n bits except bit j. */
  lemma {:induction false} BitOfClearMask(n: nat, j: nat, k: nat)
    requires j < n && k < n
    ensures Pow2(j) < Pow2(n)
    ensures Bit(Pow2(n) - 1 - Pow2(j), k) <==> j != k
  {
    Pow2Monotone(j, n);
    var m := Pow2(n) - 1 - Pow2(j);
    if j == 0 {
      assert m == 2 * (Pow2(n - 1) - 1);
      if k > 0 {
        BitOfOnes(n - 1, k - 1);
      }
    } else {
      Pow2Monotone(j - 1, n - 1);
      assert m == 2 * (Pow2(n - 1) - 1 - Pow2(j - 1)) + 1;
      if k > 0 {
        BitOfClearMask(n - 1, j - 1, k - 1);
      }
    }
  }

  lemma {:induction false} BitOfOnes(n: nat, k: nat)
    requires k < n
    ensures Bit(Pow2(n) - 1, k)
  {
    if k > 0 {
      BitOfOnes(n - 1, k - 1);
      assert (Pow2(n) - 1) / 2 == Pow2(n - 1) - 1;
    } else {
      assert Pow2(n) == 2 * Pow2(n - 1);
    }
  }

  /** x & (1 << k) is non-zero exactly when bit k is set. */
  lemma {:induction false} AndPow2(x: nat, k: nat)
    ensures And(x, Pow2(k)) != 0 <==> Bit(x, k)
  {
    AndShifted(x, 1, k);
    ShlMultiplies(1, k);
    var q := Shr(x, k);
    assert And(q, 1) == q % 2;
    ShlMultiplies(And(q, 1), k);
    assert 0 * Pow2(k) == 0;
  }
}
