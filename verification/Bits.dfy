/** Bitwise operations on unsigned integers, and what they do bit by bit. */
module Bits {
  /** `x & y` */
  function And(x: nat, y: nat): nat {
    if x == 0 || y == 0 then 0 else 2 * And(x / 2, y / 2) + (x % 2) * (y % 2)
  }

  /** `x | y` */
  function Or(x: nat, y: nat): nat
    decreases x + y
  {
    if x == 0 then y
    else if y == 0 then x
    else 2 * Or(x / 2, y / 2) + (if x % 2 == 1 || y % 2 == 1 then 1 else 0)
  }

  /** `1 << k` */
  function Pow2(k: nat): (r: nat)
    ensures r > 0
  {
    if k == 0 then 1 else 2 * Pow2(k - 1)
  }

  predicate BitAt(x: nat, i: nat) {
    if i == 0 then x % 2 == 1 else BitAt(x / 2, i - 1)
  }

  lemma {:induction false} BitAtZero(i: nat)
    ensures !BitAt(0, i)
  {
    if i > 0 {
      BitAtZero(i - 1);
    }
  }

  lemma {:induction false} AndBit(x: nat, y: nat, i: nat)
    ensures BitAt(And(x, y), i) <==> BitAt(x, i) && BitAt(y, i)
  {
    BitAtZero(i);
    if x != 0 && y != 0 {
      var r := And(x / 2, y / 2);
      assert (x % 2) * (y % 2) == if x % 2 == 1 && y % 2 == 1 then 1 else 0;
      assert And(x, y) / 2 == r;
      if i > 0 {
        AndBit(x / 2, y / 2, i - 1);
      }
    }
  }

  lemma {:induction false} OrBit(x: nat, y: nat, i: nat)
    ensures BitAt(Or(x, y), i) <==> BitAt(x, i) || BitAt(y, i)
  {
    BitAtZero(i);
    if x != 0 && y != 0 {
      assert Or(x, y) / 2 == Or(x / 2, y / 2);
      if i > 0 {
        OrBit(x / 2, y / 2, i - 1);
      }
    }
  }

  lemma {:induction false} Pow2Bit(k: nat, i: nat)
    ensures BitAt(Pow2(k), i) <==> i == k
  {
    if k == 0 {
      if i > 0 {
        BitAtZero(i - 1);
      }
    } else if i > 0 {
      assert Pow2(k) / 2 == Pow2(k - 1);
      Pow2Bit(k - 1, i - 1);
    }
  }

  /** The complement of `1 << k` within `n` bits. */
  lemma {:induction false} ComplementBit(n: nat, k: nat, i: nat)
    requires k < n && i < n
    ensures Pow2(k) < Pow2(n)
    ensures BitAt(Pow2(n) - 1 - Pow2(k), i) <==> i != k
  {
    if k == 0 {
      Pow2Monotone(0, n);
      assert Pow2(n) - 1 - 1 == 2 * (Pow2(n - 1) - 1);
      if i > 0 {
        OnesBit(n - 1, i - 1);
      }
    } else {
      assert Pow2(n) == 2 * Pow2(n - 1) && Pow2(k) == 2 * Pow2(k - 1);
      if i == 0 {
        ComplementBit(n - 1, k - 1, 0);
      } else {
        ComplementBit(n - 1, k - 1, i - 1);
        assert (Pow2(n) - 1 - Pow2(k)) / 2 == Pow2(n - 1) - 1 - Pow2(k - 1);
      }
    }
  }

  lemma {:induction false} OnesBit(n: nat, i: nat)
    requires i < n
    ensures BitAt(Pow2(n) - 1, i)
  {
    if i > 0 {
      assert (Pow2(n) - 1) / 2 == Pow2(n - 1) - 1;
      OnesBit(n - 1, i - 1);
    }
  }

  lemma {:induction false} Pow2Monotone(a: nat, b: nat)
    requires a < b
    ensures 2 * Pow2(a) <= Pow2(b)
  {
    if a + 1 < b {
      Pow2Monotone(a, b - 1);
    }
  }

  lemma {:induction false} NonZeroBit(x: nat) returns (i: nat)
    requires x > 0
    ensures BitAt(x, i)
  {
    if x % 2 == 1 {
      i := 0;
    } else {
      i := NonZeroBit(x / 2);
      i := i + 1;
    }
  }

  lemma {:induction false} HighBit(x: nat, n: nat, i: nat)
    requires x < Pow2(n) && BitAt(x, i)
    ensures i < n
  {
    if n == 0 {
      BitAtZero(i);
    } else if i > 0 {
      HighBit(x / 2, n - 1, i - 1);
    }
  }

  // ------------------------------------------------------------------ bytes

  /** `(num & (1 << i)) != 0` */
  predicate GetBit(num: nat, i: nat) {
    And(num, Pow2(i)) != 0
  }

  /** `num | (1 << i)` */
  function SetBit(num: nat, i: nat): nat {
    Or(num, Pow2(i))
  }

  /** `num & ~(1 << i)` on a byte */
  function ClearBit(num: nat, i: nat): nat
    requires i < 8
  {
    ComplementBit(8, i, 0);
    And(num, Pow2(8) - 1 - Pow2(i))
  }

  /** Testing a bit with a mask is reading that bit. */
  lemma GetBitIs(num: nat, i: nat)
    ensures GetBit(num, i) <==> BitAt(num, i)
  {
    var m := And(num, Pow2(i));
    if m != 0 {
      var j := NonZeroBit(m);
      AndBit(num, Pow2(i), j);
      Pow2Bit(i, j);
    } else {
      AndBit(num, Pow2(i), i);
      Pow2Bit(i, i);
      BitAtZero(i);
    }
  }

  lemma SetBitIs(num: nat, i: nat, j: nat)
    ensures BitAt(SetBit(num, i), j) <==> j == i || BitAt(num, j)
  {
    OrBit(num, Pow2(i), j);
    Pow2Bit(i, j);
  }

  lemma ClearBitIs(num: nat, i: nat, j: nat)
    requires i < 8 && j < 8
    ensures BitAt(ClearBit(num, i), j) <==> j != i && BitAt(num, j)
  {
    ComplementBit(8, i, j);
    AndBit(num, Pow2(8) - 1 - Pow2(i), j);
  }

  lemma {:induction false} AndBelow(x: nat, y: nat)
    ensures And(x, y) <= x && And(x, y) <= y
  {
    if x != 0 && y != 0 {
      AndBelow(x / 2, y / 2);
      assert (x % 2) * (y % 2) <= x % 2 && (x % 2) * (y % 2) <= y % 2;
    }
  }

  lemma {:induction false} OrBelow(x: nat, y: nat, n: nat)
    requires x < Pow2(n) && y < Pow2(n)
    ensures Or(x, y) < Pow2(n)
  {
    if x != 0 && y != 0 {
      OrBelow(x / 2, y / 2, n - 1);
    }
  }

  /** A byte that is not zero has a bit set. */
  lemma NonZeroByte(x: nat) returns (i: nat)
    requires 0 < x < 256
    ensures i < 8 && BitAt(x, i)
  {
    i := NonZeroBit(x);
    assert Pow2(8) == 256 by {
      assert Pow2(4) == 16;
    }
    HighBit(x, 8, i);
  }
}
