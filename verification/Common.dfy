/** Small things that several modules use. */
module Common {
  datatype Option<+T> = None | Some(value: T)

  function Min(a: int, b: int): int {
    if a <= b then a else b
  }

  ghost function Elements(bs: seq<int>): (r: set<int>)
    ensures forall b :: b in r <==> b in bs
  {
    set b | b in bs
  }

  lemma {:induction false} ElementsCount(bs: seq<int>)
    ensures |Elements(bs)| <= |bs|
  {
    if bs != [] {
      ElementsCount(bs[..|bs| - 1]);
      assert Elements(bs) == Elements(bs[..|bs| - 1]) + {bs[|bs| - 1]};
    }
  }

  lemma SubsetCount<T>(a: set<T>, b: set<T>)
    requires a <= b
    ensures |a| <= |b|
  {
    assert b == a + (b - a);
  }

  lemma UnionCount<T>(a: set<T>, b: set<T>)
    ensures |a + b| <= |a| + |b|
  {
    assert a + b == a + (b - a);
    SubsetCount(b - a, b);
  }

  /** The `n` numbers from `a` on. */
  ghost function Range(a: int, n: nat): (r: set<int>)
    ensures |r| == n && forall x :: x in r <==> a <= x < a + n
  {
    if n == 0 then {} else Range(a, n - 1) + {a + n - 1}
  }

  lemma {:induction false} RangeCount(s: set<int>, a: int, n: nat)
    requires forall x :: x in s ==> a <= x < a + n
    ensures |s| <= n
  {
    if n == 0 {
      assert forall x :: x in s ==> x in {};
    } else {
      var t := s - {a + n - 1};
      RangeCount(t, a, n - 1);
      if a + n - 1 in s {
        assert s == t + {a + n - 1};
      } else {
        assert s == t;
      }
    }
  }
}
