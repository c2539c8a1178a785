/** The size-class arithmetic of src/slab.c. */
module SlabSizes {
  import opened Bits

  const NSLAB := 9
  const MAXSIZE := 2048

  /** The number of binary digits of `n`. */
  function Digits(n: nat): nat {
    if n == 0 then 0 else 1 + Digits(n / 2)
  }

  method GetNumOfBits(n: nat) returns (count: nat)
    ensures count == Digits(n)
  {
    count := 0;
    var m := n;
    while m != 0
      invariant count + Digits(m) == Digits(n)
    {
      m := m / 2;
      count := count + 1;
    }
  }

  /** `nextPowerOf2`, with its `n & (n - 1)` test. */
  function NextPowerOf2(n: nat): nat {
    if n < 8 then 8
    else if And(n, n - 1) == 0 then n
    else Pow2(Digits(n))
  }

  /** `getslabIdx` */
  function SlabIdx(n: nat): int {
    Digits(n) - 4
  }

  lemma {:induction false} AndSelf(n: nat)
    ensures And(n, n) == n
  {
    if n != 0 {
      AndSelf(n / 2);
      assert (n % 2) * (n % 2) == n % 2;
    }
  }

  ghost predicate IsPow2(n: nat) {
    exists k: nat :: n == Pow2(k)
  }

  /** Clearing the lowest bit leaves nothing exactly for powers of two. */
  lemma {:induction false} AndPredecessor(n: nat)
    requires n >= 1
    ensures And(n, n - 1) == 0 <==> IsPow2(n)
  {
    if n == 1 {
      assert n == Pow2(0);
    } else if n % 2 == 0 {
      AndPredecessor(n / 2);
      assert (n - 1) / 2 == n / 2 - 1;
      if IsPow2(n / 2) {
        var k: nat :| n / 2 == Pow2(k);
        assert n == Pow2(k + 1);
      }
      if IsPow2(n) {
        var k: nat :| n == Pow2(k);
        assert n / 2 == Pow2(k - 1);
      }
    } else {
      AndSelf(n / 2);
      assert (n - 1) / 2 == n / 2;
    }
  }

  /** `n` lies between the powers of two that its number of digits names. */
  lemma {:induction false} DigitsBound(n: nat)
    requires n >= 1
    ensures Digits(n) >= 1 && Pow2(Digits(n) - 1) <= n < Pow2(Digits(n))
  {
    if n > 1 {
      DigitsBound(n / 2);
    }
  }

  lemma {:induction false} DigitsPow2(k: nat)
    ensures Digits(Pow2(k)) == k + 1
  {
    if k > 0 {
      DigitsPow2(k - 1);
      assert Pow2(k) / 2 == Pow2(k - 1);
    }
  }

  /** `nextPowerOf2` rounds up to the least power of two that is at least `n`
      and at least 8. */
  lemma RoundsUp(n: nat)
    ensures IsPow2(NextPowerOf2(n))
    ensures NextPowerOf2(n) >= n && NextPowerOf2(n) >= 8
    ensures forall k: nat :: Pow2(k) >= n && Pow2(k) >= 8 ==> NextPowerOf2(n) <= Pow2(k)
  {
    if n < 8 {
      assert 8 == Pow2(3);
    } else {
      AndPredecessor(n);
      DigitsBound(n);
      var d := Digits(n);
      forall k: nat | Pow2(k) >= n
        ensures And(n, n - 1) != 0 ==> Pow2(d) <= Pow2(k)
      {
        if k < d {
          if k < d - 1 {
            Pow2Monotone(k, d - 1);
          }
          assert n == Pow2(k);
        } else if d < k {
          Pow2Monotone(d, k);
        }
      }
    }
  }

  /** The slab that serves a request, as `kmalloc` picks it. */
  function ClassOf(size: nat): int {
    SlabIdx(NextPowerOf2(size))
  }

  /** The class exists, its objects are large enough, and the next smaller
      class is too small. */
  lemma ClassFits(size: nat)
    requires 1 <= size <= MAXSIZE
    ensures 0 <= ClassOf(size) < NSLAB
    ensures NextPowerOf2(size) == Pow2(ClassOf(size) + 3) >= size
    ensures ClassOf(size) > 0 ==> Pow2(ClassOf(size) + 2) < size
  {
    RoundsUp(size);
    var k: nat :| NextPowerOf2(size) == Pow2(k);
    DigitsPow2(k);
    assert Pow2(4) == 16;
    assert Pow2(11) == 2048 by {
      assert Pow2(8) == 256 by {
        assert Pow2(5) == 32;
      }
    }
    if k < 3 {
      Pow2Monotone(k, 3);
      assert false;
    }
    if k > 11 {
      Pow2Monotone(11, k);
      assert false;
    }
    if k > 3 {
      Pow2Monotone(3, k);
      if k > 4 {
        Pow2Monotone(3, k - 1);
      }
      assert Pow2(k) == 2 * Pow2(k - 1);
      if Pow2(k - 1) >= size {
        assert false;
      }
    }
  }

  /** `kmfree` does not round up, so it finds the slab of `kmalloc` when it is
      given the class size itself. */
  lemma ClassOfClassSize(idx: nat)
    ensures SlabIdx(Pow2(idx + 3)) == idx
  {
    DigitsPow2(idx + 3);
  }

  /** And with any other size that belongs to the class it finds the slab below,
      or for fewer than eight bytes no slab at all. */
  lemma ClassOfOtherSize(size: nat)
    requires 1 <= size <= MAXSIZE
    ensures SlabIdx(size) == ClassOf(size) <==> IsPow2(size) && size >= 8
    ensures size > 8 && !IsPow2(size) ==> SlabIdx(size) == ClassOf(size) - 1
    ensures size < 8 ==> SlabIdx(size) < 0
  {
    ClassFits(size);
    DigitsBound(size);
    if size < 8 {
      if Digits(size) > 3 {
        Pow2Monotone(2, Digits(size) - 1);
        assert false;
      }
    } else {
      AndPredecessor(size);
      DigitsPow2(Digits(size));
    }
  }

  /** A caller that frees with the size it asked for: nine bytes come from the
      slab of 16-byte objects and go to the one of 8-byte objects, and five bytes
      go to a slab in front of the table. */
  lemma FreedElsewhere()
    ensures ClassOf(9) == 1 && SlabIdx(9) == 0
    ensures ClassOf(5) == 0 && SlabIdx(5) == -1
  {
    assert Digits(8) == 4 && Digits(9) == 4;
    AndSelf(4);
    AndPredecessor(9);
    ClassOfOtherSize(9);
  }
}
