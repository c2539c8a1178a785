/** The admission rule of src/log.c for operations that share some of the blocks
    they log, as file writes share the bitmap blocks: `log_write` absorbs a block
    that is logged already, so shared blocks take room in the log once. */
module LogSharing {
  import opened Params
  import opened Common
  import opened LogAdmission

  /** Each operation logs at most `inside` of the `shared` blocks and at most
      `outside` others. */
  datatype Split = Split(shared: set<int>, outside: nat, inside: nat)

  predicate Fits(x: Split, w: set<int>) {
    |w - x.shared| <= x.outside && |w * x.shared| <= x.inside
  }

  /** A step of the admission rule by operations that keep to the split. */
  predicate MayStep(s: State, a: Action, x: Split) {
    Enabled(s, a, x.outside + x.inside) && (a.Guard? ==> Fits(x, s.ops[a.p].wrote + {a.b}))
  }

  predicate CanRun(s: State, acts: seq<Action>, x: Split)
    decreases |acts|
  {
    acts == [] || (MayStep(s, acts[0], x) && CanRun(Next(s, acts[0], x.outside + x.inside), acts[1..], x))
  }

  function After(s: State, acts: seq<Action>, x: Split): State
    requires CanRun(s, acts, x)
    decreases |acts|
  {
    if acts == [] then s else After(Next(s, acts[0], x.outside + x.inside), acts[1..], x)
  }

  // ------------------------------------------- the rule without shared blocks

  /** The logged blocks that are not shared. */
  function Outs(bs: seq<int>, shared: set<int>): (r: seq<int>)
    ensures |r| <= |bs|
    ensures forall b :: b in r <==> b in bs && b !in shared
  {
    if bs == [] then []
    else
      var r := Outs(bs[..|bs| - 1], shared);
      assert forall b :: b in bs <==> b in bs[..|bs| - 1] || b == bs[|bs| - 1];
      if bs[|bs| - 1] in shared then r else r + [bs[|bs| - 1]]
  }

  predicate Distinct(bs: seq<int>) {
    forall i, j :: 0 <= i < j < |bs| ==> bs[i] != bs[j]
  }

  /** A list without repeats has at most `|shared|` shared entries. */
  lemma {:induction false} OutsCount(bs: seq<int>, shared: set<int>)
    requires Distinct(bs)
    ensures |bs| <= |Outs(bs, shared)| + |shared|
  {
    if bs != [] {
      var n := |bs| - 1;
      var b := bs[n];
      if b in shared {
        assert |shared - {b}| == |shared| - 1;
        OutsCount(bs[..n], shared - {b});
        OutsSame(bs[..n], shared, b);
      } else {
        OutsCount(bs[..n], shared);
      }
    }
  }

  lemma {:induction false} OutsSame(bs: seq<int>, shared: set<int>, b: int)
    requires b !in bs
    ensures Outs(bs, shared - {b}) == Outs(bs, shared)
  {
    if bs != [] {
      OutsSame(bs[..|bs| - 1], shared, b);
    }
  }

  lemma OutsAbsorb(bs: seq<int>, b: int, shared: set<int>)
    ensures Outs(Absorb(bs, b), shared) == if b in shared then Outs(bs, shared) else Absorb(Outs(bs, shared), b)
  {
    if b !in bs {
      assert (bs + [b])[..|bs|] == bs;
    }
  }

  function OwnOp(op: Op, shared: set<int>): Op {
    match op
    case Out => Out
    case In(w) => In(w - shared)
    case Passed(w, b) => if b in shared then In(w - shared) else Passed(w - shared, b)
  }

  function OwnOps(ops: seq<Op>, shared: set<int>): (r: seq<Op>)
    ensures |r| == |ops| && forall p :: 0 <= p < |ops| ==> r[p] == OwnOp(ops[p], shared)
  {
    seq(|ops|, p requires 0 <= p < |ops| => OwnOp(ops[p], shared))
  }

  /** The state as it would be if nobody ever logged a shared block. */
  function Own(s: State, shared: set<int>): State {
    State(OwnOps(s.ops, shared), s.outstanding, Outs(s.bs, shared), s.committing, false)
  }

  ghost predicate SharedInv(s: State, x: Split) {
    && Inv(Own(s, x.shared), x.outside)
    && Distinct(s.bs)
    && (s.committing || s.outstanding > 0 || s.bs == [])
    && (s.panicked ==> TooBig(|s.bs|, LOGBLOCKS))
  }

  lemma OwnUpdate(s: State, p: nat, op: Op, shared: set<int>)
    requires p < |s.ops|
    ensures OwnOps(s.ops[p := op], shared) == OwnOps(s.ops, shared)[p := OwnOp(op, shared)]
  {
  }

  lemma OwnCounts(s: State, p: nat, x: Split)
    requires SharedInv(s, x) && p < |s.ops| && !s.ops[p].Out?
    ensures s.outstanding >= 1 && !s.committing
  {
    ActivePositive(Own(s, x.shared).ops, p);
  }

  /** Every step is a step of the rule without shared blocks, or none. */
  lemma BeginShared(s: State, p: nat, x: Split)
    requires x.outside <= MAXOPBLOCKS && SharedInv(s, x) && MayStep(s, Begin(p), x)
    ensures SharedInv(Next(s, Begin(p), x.outside + x.inside), x)
  {
    var o := Own(s, x.shared);
    assert o.ops[p].Out? && Enabled(o, Begin(p), x.outside);
    StepKeeps(o, Begin(p), x.outside);
    OwnUpdate(s, p, In({}), x.shared);
    assert {} - x.shared == {};
  }

  lemma GuardShared(s: State, p: nat, b: int, x: Split)
    requires x.outside <= MAXOPBLOCKS && SharedInv(s, x) && MayStep(s, Guard(p, b), x)
    ensures SharedInv(Next(s, Guard(p, b), x.outside + x.inside), x)
  {
    OwnCounts(s, p, x);
    if !TooBig(|s.bs|, LOGBLOCKS) {
      var o, w := Own(s, x.shared), s.ops[p].wrote;
      OwnUpdate(s, p, Passed(w, b), x.shared);
      if b in x.shared {
        assert OwnOps(s.ops[p := Passed(w, b)], x.shared) == o.ops;
      } else {
        assert (w + {b}) - x.shared == (w - x.shared) + {b};
        assert Enabled(o, Guard(p, b), x.outside);
        StepKeeps(o, Guard(p, b), x.outside);
      }
    }
  }

  lemma AbsorbDistinct(bs: seq<int>, b: int)
    requires Distinct(bs)
    ensures Distinct(Absorb(bs, b))
  {
  }

  lemma AppendShared(s: State, p: nat, x: Split)
    requires x.outside <= MAXOPBLOCKS && SharedInv(s, x) && MayStep(s, Append(p), x)
    ensures SharedInv(Next(s, Append(p), x.outside + x.inside), x)
  {
    OwnCounts(s, p, x);
    var w, b := s.ops[p].wrote, s.ops[p].b;
    AbsorbDistinct(s.bs, b);
    if b in x.shared {
      AppendNone(s, p, x.shared);
    } else {
      AppendOwn(s, p, x.shared);
      StepKeeps(Own(s, x.shared), Append(p), x.outside);
    }
  }

  /** A shared block that is logged does not show among the others. */
  lemma AppendNone(s: State, p: nat, shared: set<int>)
    requires p < |s.ops| && s.ops[p].Passed? && s.ops[p].b in shared
    ensures Own(s.(ops := s.ops[p := In(s.ops[p].wrote + {s.ops[p].b})], bs := Absorb(s.bs, s.ops[p].b)), shared) == Own(s, shared)
  {
    var w, b := s.ops[p].wrote, s.ops[p].b;
    assert (w + {b}) - shared == w - shared;
    OwnUpdate(s, p, In(w + {b}), shared);
    OutsAbsorb(s.bs, b, shared);
    assert OwnOps(s.ops, shared)[p := In(w - shared)] == OwnOps(s.ops, shared);
  }

  lemma AppendOwn(s: State, p: nat, shared: set<int>)
    requires p < |s.ops| && s.ops[p].Passed? && s.ops[p].b !in shared
    ensures var w, b, o := s.ops[p].wrote, s.ops[p].b, Own(s, shared);
      && o.ops[p] == Passed(w - shared, b)
      && Own(s.(ops := s.ops[p := In(w + {b})], bs := Absorb(s.bs, b)), shared)
         == o.(ops := o.ops[p := In(w - shared + {b})], bs := Absorb(o.bs, b))
  {
    var w, b := s.ops[p].wrote, s.ops[p].b;
    assert (w + {b}) - shared == w - shared + {b};
    OwnUpdate(s, p, In(w + {b}), shared);
    OutsAbsorb(s.bs, b, shared);
  }

  lemma StepShared(s: State, a: Action, x: Split)
    requires x.outside <= MAXOPBLOCKS && SharedInv(s, x) && MayStep(s, a, x)
    ensures SharedInv(Next(s, a, x.outside + x.inside), x)
  {
    var o := Own(s, x.shared);
    match a
    case Begin(p) => BeginShared(s, p, x);
    case Guard(p, b) => GuardShared(s, p, b, x);
    case Append(p) => AppendShared(s, p, x);
    case End(p) =>
      OwnCounts(s, p, x);
      OwnUpdate(s, p, Out, x.shared);
      assert Enabled(o, End(p), x.outside);
      StepKeeps(o, End(p), x.outside);
    case Commit =>
      assert Enabled(o, Commit, x.outside);
      StepKeeps(o, Commit, x.outside);
    case Done =>
      assert Enabled(o, Done, x.outside);
      StepKeeps(o, Done, x.outside);
  }

  lemma {:induction false} RunShared(s: State, acts: seq<Action>, x: Split)
    requires x.outside <= MAXOPBLOCKS && SharedInv(s, x) && CanRun(s, acts, x)
    ensures SharedInv(After(s, acts, x), x)
    decreases |acts|
  {
    if acts != [] {
      StepShared(s, acts[0], x);
      RunShared(Next(s, acts[0], x.outside + x.inside), acts[1..], x);
    }
  }

  lemma InitShared(s: State, x: Split)
    requires Init(s)
    ensures SharedInv(s, x)
  {
    InitSums(Own(s, x.shared).ops, x.outside);
  }

  /** What is logged never exceeds the bound for the blocks that are not shared by
      more than the shared blocks. */
  lemma LoggedBound(s: State, acts: seq<Action>, x: Split)
    requires x.outside <= MAXOPBLOCKS && Init(s) && CanRun(s, acts, x)
    ensures |After(s, acts, x).bs| <= Bound(x.outside) + |x.shared|
    ensures After(s, acts, x).panicked ==> TooBig(|After(s, acts, x).bs|, LOGBLOCKS)
  {
    InitShared(s, x);
    RunShared(s, acts, x);
    var t := After(s, acts, x);
    OutsCount(t.bs, x.shared);
    SpareNonNegative(Own(t, x.shared).ops, Outs(t.bs, x.shared), x.outside);
  }

  // --------------------------------------------------------- a run that fails

  ghost predicate Reached(s: State, x: Split) {
    exists init, acts :: Init(init) && CanRun(init, acts, x) && After(init, acts, x) == s
  }

  lemma {:induction false} RunOneMore(s: State, acts: seq<Action>, a: Action, x: Split)
    requires CanRun(s, acts, x) && MayStep(After(s, acts, x), a, x)
    ensures CanRun(s, acts + [a], x)
    ensures After(s, acts + [a], x) == Next(After(s, acts, x), a, x.outside + x.inside)
    decreases |acts|
  {
    var all := acts + [a];
    assert all[0] == if acts == [] then a else acts[0];
    if acts == [] {
      assert all[1..] == [];
      assert CanRun(Next(s, a, x.outside + x.inside), [], x);
    } else {
      assert all[1..] == acts[1..] + [a];
      RunOneMore(Next(s, acts[0], x.outside + x.inside), acts[1..], a, x);
    }
  }

  lemma Step(s: State, a: Action, x: Split) returns (t: State)
    requires Reached(s, x) && MayStep(s, a, x)
    ensures t == Next(s, a, x.outside + x.inside) && Reached(t, x)
  {
    var init, acts :| Init(init) && CanRun(init, acts, x) && After(init, acts, x) == s;
    RunOneMore(init, acts, a, x);
    t := After(init, acts + [a], x);
  }

  lemma LogOne(s: State, p: nat, b: int, x: Split) returns (t: State)
    requires Reached(s, x) && !s.panicked && s.outstanding >= 1 && p < |s.ops| && s.ops[p].In?
    requires b !in s.bs && |s.bs| + 1 < LOGBLOCKS
    requires Fits(x, s.ops[p].wrote + {b}) && |s.ops[p].wrote + {b}| <= x.outside + x.inside
    ensures Reached(t, x)
    ensures t == s.(bs := s.bs + [b], ops := s.ops[p := In(s.ops[p].wrote + {b})])
  {
    hide Reached, Fits;
    var s1 := Step(s, Guard(p, b), x);
    t := Step(s1, Append(p), x);
  }

  /** Process `p` logs new blocks one after the other. */
  lemma {:induction false} LogNew(s: State, p: nat, xs: seq<int>, x: Split) returns (t: State)
    requires Reached(s, x) && !s.panicked && s.outstanding >= 1 && p < |s.ops| && s.ops[p].In?
    requires Distinct(s.bs + xs) && |s.bs| + |xs| < LOGBLOCKS
    requires Fits(x, s.ops[p].wrote + Elements(xs))
    ensures Reached(t, x)
    ensures t == s.(bs := s.bs + xs, ops := s.ops[p := In(s.ops[p].wrote + Elements(xs))])
    decreases |xs|
  {
    hide Reached, Fits;
    var w := s.ops[p].wrote;
    if xs == [] {
      assert w + Elements(xs) == w && s.bs + xs == s.bs;
      t := s;
    } else {
      var b := xs[0];
      NewBlock(s.bs, xs, w, x);
      var s1 := LogOne(s, p, b, x);
      t := LogNew(s1, p, xs[1..], x);
    }
  }

  lemma NewBlock(bs: seq<int>, xs: seq<int>, w: set<int>, x: Split)
    requires xs != [] && Distinct(bs + xs) && Fits(x, w + Elements(xs))
    ensures xs[0] !in bs && (bs + [xs[0]]) + xs[1..] == bs + xs
    ensures (w + {xs[0]}) + Elements(xs[1..]) == w + Elements(xs)
    ensures Fits(x, w + {xs[0]}) && |w + {xs[0]}| <= x.outside + x.inside
  {
    var b, v, all := xs[0], w + {xs[0]}, w + Elements(xs);
    assert (bs + xs)[|bs|] == b;
    forall i | 0 <= i < |bs| ensures bs[i] != b {
      assert (bs + xs)[i] == bs[i];
    }
    SubsetCount(v - x.shared, all - x.shared);
    SubsetCount(v * x.shared, all * x.shared);
    assert v == (v - x.shared) + (v * x.shared);
    UnionCount(v - x.shared, v * x.shared);
  }

  /** Some seven of the shared blocks and 22 others, all different. */
  lemma Blocks(shared: set<int>) returns (own: seq<int>, common: seq<int>)
    requires |shared| >= 7
    ensures |own| == 22 && |common| == 7 && Distinct(own + common)
    ensures (forall b :: b in own ==> b !in shared) && forall b :: b in common ==> b in shared
  {
    common := Pick(shared, 7);
    var top := Above(shared);
    own := seq(22, i => top + i);
    var all := own + common;
    forall i, j | 0 <= i < j < |all| ensures all[i] != all[j] {
      assert j >= 22 ==> all[j] == common[j - 22] && all[j] in shared;
      assert i >= 22 ==> all[i] == common[i - 22];
      assert i < 22 ==> all[i] == top + i;
    }
  }

  lemma {:induction false} Pick(shared: set<int>, n: nat) returns (xs: seq<int>)
    requires |shared| >= n
    ensures |xs| == n && Distinct(xs) && forall b :: b in xs ==> b in shared
    decreases n
  {
    if n == 0 {
      xs := [];
    } else {
      var b := Any(shared);
      var ys := Pick(shared - {b}, n - 1);
      xs := ys + [b];
    }
  }

  lemma Any(shared: set<int>) returns (b: int)
    requires |shared| > 0
    ensures b in shared
  {
    NoneIn(shared);
    b :| b in shared;
  }

  lemma NoneIn(shared: set<int>)
    ensures (forall b: int :: b !in shared) ==> |shared| == 0
  {
    if forall b: int :: b !in shared {
      assert shared == {};
    }
  }

  lemma {:induction false} Above(shared: set<int>) returns (top: int)
    ensures forall b :: b in shared ==> b < top
  {
    if shared == {} {
      top := 0;
    } else {
      var b := Any(shared);
      var low := Above(shared - {b});
      top := if b < low then low else b + 1;
      forall c | c in shared ensures c < top {
        assert c == b || c in shared - {b};
      }
    }
  }

  lemma SameSet(a: set<int>, b: set<int>)
    requires forall x: int :: x in a <==> x in b
    ensures a == b
  {
    assert forall x :: x in a ==> x in b;
    assert forall x :: x in b ==> x in a;
  }

  lemma OwnFits(x: Split, xs: seq<int>)
    requires |xs| <= x.outside && forall b :: b in xs ==> b !in x.shared
    ensures Fits(x, {} + Elements(xs))
  {
    ElementsCount(xs);
    var w := {} + Elements(xs);
    SameSet(w - x.shared, Elements(xs));
    SameSet(w * x.shared, {});
  }

  lemma BothFit(x: Split, own: seq<int>, common: seq<int>)
    requires |own| <= x.outside && forall b :: b in own ==> b !in x.shared
    requires |common| <= x.inside && forall b :: b in common ==> b in x.shared
    ensures Fits(x, {} + Elements(own + common))
  {
    ElementsCount(own);
    ElementsCount(common);
    var w := {} + Elements(own + common);
    assert forall b :: b in w <==> b in own || b in common;
    SameSet(w - x.shared, Elements(own));
    SameSet(w * x.shared, Elements(common));
  }

  /** While process 0 is between `begin_op` and `end_op`, process 1 does an operation
      that logs `xs` and begins another. */
  lemma OneMore(s: State, xs: seq<int>, x: Split) returns (t: State)
    requires Reached(s, x) && s == State([In({}), In({})], 2, s.bs, false, false)
    requires |s.bs| + |xs| <= 10 && |xs| <= x.outside && Distinct(s.bs + xs)
    requires forall b :: b in xs ==> b !in x.shared
    ensures Reached(t, x) && t == s.(bs := s.bs + xs)
  {
    OwnFits(x, xs);
    var s1 := LogNew(s, 1, xs, x);
    var s2 := Step(s1, End(1), x);
    t := Step(s2, Begin(1), x);
  }

  /** Two operations in an empty log. */
  lemma TwoIn(x: Split) returns (t: State)
    ensures Reached(t, x) && t == State([In({}), In({})], 2, [], false, false)
  {
    var s := State([Out, Out], 0, [], false, false);
    assert CanRun(s, [], x) && After(s, [], x) == s;
    var s1 := Step(s, Begin(0), x);
    t := Step(s1, Begin(1), x);
  }

  /** With seven shared blocks the log overflows: ten blocks are logged when the
      second of two operations is let in, and the two log six blocks of their own
      each and all seven shared ones. */
  lemma SevenPanics(x: Split) returns (t: State)
    requires x.outside == 6 && x.inside >= 4 && |x.shared| >= 7
    ensures Reached(t, x) && t.panicked
  {
    var own, common := Blocks(x.shared);
    var s := TwoIn(x);
    var a, b, c, d := own[..6], own[6..10], own[10..16] + common[..4], own[16..] + common[4..];
    Order(own, common);
    s := OneMore(s, a, x);
    s := OneMore(s, b, x);
    BothFit(x, own[10..16], common[..4]);
    s := LogNew(s, 0, c, x);
    BothFit(x, own[16..], common[4..]);
    s := LogNew(s, 1, d, x);
    assert s.ops[1].wrote + {d[0]} == s.ops[1].wrote;
    t := Step(s, Guard(1, d[0]), x);
  }

  /** The order in which `SevenPanics` logs its blocks. */
  lemma Order(own: seq<int>, common: seq<int>)
    requires |own| == 22 && |common| == 7 && Distinct(own + common)
    ensures var a, b, c, d := own[..6], own[6..10], own[10..16] + common[..4], own[16..] + common[4..];
      Distinct([] + a) && Distinct([] + a + b) && Distinct([] + a + b + c) && Distinct([] + a + b + c + d)
  {
    var a, b, c, d := own[..6], own[6..10], own[10..16] + common[..4], own[16..] + common[4..];
    var all := [] + a + b + c + d;
    var at := seq(29, i => if i < 16 then i else if i < 20 then i + 6 else if i < 26 then i - 4 else i);
    forall i | 0 <= i < 29 ensures all[i] == (own + common)[at[i]] {
    }
    forall i, j | 0 <= i < j < |all| ensures all[i] != all[j] {
      assert at[i] != at[j];
    }
    assert all[..20] == [] + a + b + c && all[..10] == [] + a + b && all[..6] == [] + a;
  }

  /** Exactly when operations that log six blocks of their own at most, and of the
      shared ones as many as four or more, never panic the log nor overrun it. */
  lemma SafeShared(x: Split)
    requires x.outside == 6 && x.inside >= 4
    ensures (forall s :: Reached(s, x) ==> Safe(s)) <==> |x.shared| <= 6
  {
    if |x.shared| <= 6 {
      forall s | Reached(s, x) ensures Safe(s) {
        var init, acts :| Init(init) && CanRun(init, acts, x) && After(init, acts, x) == s;
        LoggedBound(init, acts, x);
      }
    } else {
      var s := SevenPanics(x);
    }
  }
}
