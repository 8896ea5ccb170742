/** Single bits of numbers, and what the bitwise operators do to them. */
module Bits {
  import opened Words

  predicate Bit(x: nat, i: nat) {
    if i == 0 then x % 2 == 1 else Bit(x / 2, i - 1)
  }

  lemma {:induction false} BitAnd(x: nat, y: nat, n: nat, i: nat)
    ensures Bit(And(x, y, n), i) == (i < n && Bit(x, i) && Bit(y, i))
  {
    if n == 0 {
      BitZero(i);
    } else if i > 0 {
      BitAnd(x / 2, y / 2, n - 1, i - 1);
      assert And(x, y, n) / 2 == And(x / 2, y / 2, n - 1);
    }
  }

  lemma {:induction false} BitOr(x: nat, y: nat, n: nat, i: nat)
    ensures Bit(Or(x, y, n), i) == (i < n && (Bit(x, i) || Bit(y, i)))
  {
    if n == 0 {
      BitZero(i);
    } else if i > 0 {
      BitOr(x / 2, y / 2, n - 1, i - 1);
      assert Or(x, y, n) / 2 == Or(x / 2, y / 2, n - 1);
    }
  }

  lemma {:induction false} BitZero(i: nat)
    ensures !Bit(0, i)
  {
    if i > 0 {
      BitZero(i - 1);
    }
  }

  lemma {:induction false} BitPow2(k: nat, i: nat)
    ensures Bit(Pow2(k), i) == (i == k)
  {
    if i == 0 {
    } else if k == 0 {
      BitZero(i - 1);
    } else {
      assert Pow2(k) / 2 == Pow2(k - 1);
      BitPow2(k - 1, i - 1);
    }
  }

  lemma {:induction false} BitNot(x: nat, n: nat, i: nat)
    requires x < Pow2(n)
    ensures Bit(Pow2(n) - 1 - x, i) == (i < n && !Bit(x, i))
  {
    if n == 0 {
      BitZero(i);
    } else if i > 0 {
      assert (Pow2(n) - 1 - x) / 2 == Pow2(n - 1) - 1 - x / 2;
      BitNot(x / 2, n - 1, i - 1);
    }
  }

  lemma {:induction false} AndBound(x: nat, y: nat, n: nat)
    ensures And(x, y, n) < Pow2(n)
  {
    if n > 0 {
      AndBound(x / 2, y / 2, n - 1);
    }
  }

  lemma {:induction false} OrBound(x: nat, y: nat, n: nat)
    ensures Or(x, y, n) < Pow2(n)
  {
    if n > 0 {
      OrBound(x / 2, y / 2, n - 1);
    }
  }

  /** Two numbers of `n` bits with the same bits are equal. */
  lemma {:induction false} SameBits(x: nat, y: nat, n: nat)
    requires x < Pow2(n) && y < Pow2(n)
    requires forall i: nat | i < n :: Bit(x, i) == Bit(y, i)
    ensures x == y
  {
    if n == 0 {
    } else {
      forall i: nat | i < n - 1
        ensures Bit(x / 2, i) == Bit(y / 2, i)
      {
        assert Bit(x, i + 1) == Bit(y, i + 1);
      }
      SameBits(x / 2, y / 2, n - 1);
      assert Bit(x, 0) == Bit(y, 0);
    }
  }

  lemma {:induction false} Pow2Monotone(m: nat, n: nat)
    requires m <= n
    ensures Pow2(m) <= Pow2(n)
    decreases n
  {
    if m < n {
      Pow2Monotone(m, n - 1);
    }
  }

  lemma Pow2Values()
    ensures Pow2(28) == 0x1000_0000 && Pow2(30) == 0x4000_0000 && Pow2(31) == 0x8000_0000
    ensures Pow2(32) == 0x1_0000_0000 && Pow2(64) == MODULUS
  {
    assert Pow2(4) == 16;
    assert Pow2(8) == 16 * Pow2(4);
    assert Pow2(12) == 16 * Pow2(8);
    assert Pow2(16) == 16 * Pow2(12);
    assert Pow2(20) == 16 * Pow2(16);
    assert Pow2(24) == 16 * Pow2(20);
    assert Pow2(28) == 16 * Pow2(24);
    assert Pow2(32) == 16 * Pow2(28);
    Pow2FiftySix();
    assert Pow2(60) == 16 * Pow2(56);
    assert Pow2(64) == 16 * Pow2(60);
  }

  lemma AndNonzero(x: nat, k: nat)
    requires k < 64
    ensures And(x, Pow2(k), 64) != 0 <==> Bit(x, k)
  {
    BitAnd(x, Pow2(k), 64, k);
    BitPow2(k, k);
    BitZero(k);
    if !Bit(x, k) {
      forall i: nat | i < 64
        ensures Bit(And(x, Pow2(k), 64), i) == Bit(0, i)
      {
        BitAnd(x, Pow2(k), 64, i);
        BitPow2(k, i);
        BitZero(i);
      }
      AndBound(x, Pow2(k), 64);
      SameBits(And(x, Pow2(k), 64), 0, 64);
    }
  }
}
