/** The admission rule of src/log.c (`begin_op`, `log_write`, `end_op`) as a
    state machine over any number of processes. Each critical section of
    `log.lock` is one step. The guard of `log_write` reads `log.lh.n` before it
    takes the lock, so guard and append are two steps and other processes may
    run in between. */
module LogAdmission {
  import opened Params

  /** mkfs makes the log LOGSIZE blocks long, header included. */
  const LOGBLOCKS := LOGSIZE

  /** `begin_op` lets another operation in. */
  predicate Admits(n: nat, outstanding: nat) {
    n + (outstanding + 1) * MAXOPBLOCKS <= LOGSIZE
  }

  /** `log_write` panics: "too big a transaction". */
  predicate TooBig(n: nat, size: nat) {
    n >= LOGSIZE || n >= size - 1
  }

  /** The logged blocks after `log_write(b)`: appended unless absorbed. */
  function Absorb(bs: seq<int>, b: int): (r: seq<int>)
    ensures b in r
  {
    if b in bs then bs else bs + [b]
  }

  /** A process between `begin_op` and `end_op`: the distinct blocks it has
      written and the block whose `log_write` has passed the guard. */
  datatype Op = Out | In(wrote: set<int>) | Passed(wrote: set<int>, b: int)

  datatype State = State(ops: seq<Op>, outstanding: int, bs: seq<int>, committing: bool, panicked: bool)

  datatype Action =
    | Begin(p: nat)
    | Guard(p: nat, b: int)
    | Append(p: nat)
    | End(p: nat)
    | Commit
    | Done

  predicate Init(s: State) {
    && (forall p :: 0 <= p < |s.ops| ==> s.ops[p] == Out)
    && s.outstanding == 0 && s.bs == [] && !s.committing && !s.panicked
  }

  /** The action can happen, when operations write at most `most` distinct
      blocks each. A process that would sleep simply does not act. */
  predicate Enabled(s: State, a: Action, most: nat) {
    && !s.panicked
    && match a
       case Begin(p) => p < |s.ops| && s.ops[p].Out? && !s.committing && s.outstanding >= 0 && Admits(|s.bs|, s.outstanding)
       case Guard(p, b) => p < |s.ops| && s.ops[p].In? && |s.ops[p].wrote + {b}| <= most
       case Append(p) => p < |s.ops| && s.ops[p].Passed?
       case End(p) => p < |s.ops| && s.ops[p].In?
       case Commit => s.committing
       case Done => s.committing && s.bs == []
  }

  function Next(s: State, a: Action, most: nat): State
    requires Enabled(s, a, most)
  {
    match a
    case Begin(p) => s.(ops := s.ops[p := In({})], outstanding := s.outstanding + 1)
    case Guard(p, b) =>
      if TooBig(|s.bs|, LOGBLOCKS) || s.outstanding < 1 then s.(panicked := true)
      else s.(ops := s.ops[p := Passed(s.ops[p].wrote, b)])
    case Append(p) =>
      s.(ops := s.ops[p := In(s.ops[p].wrote + {s.ops[p].b})], bs := Absorb(s.bs, s.ops[p].b))
    case End(p) =>
      if s.committing then s.(panicked := true)
      else s.(ops := s.ops[p := Out], outstanding := s.outstanding - 1, committing := s.outstanding == 1)
    case Commit => s.(bs := [])
    case Done => s.(committing := false)
  }

  /** The actions are enabled one after the other and lead from `s` to `t`. */
  ghost predicate Run(s: State, acts: seq<Action>, most: nat, t: State)
    decreases |acts|
  {
    if acts == [] then s == t
    else Enabled(s, acts[0], most) && Run(Next(s, acts[0], most), acts[1..], most, t)
  }

  ghost predicate Reachable(s: State, most: nat) {
    exists s0, acts :: Init(s0) && Run(s0, acts, most, s)
  }

  // -------------------------------------------------------------- invariant

  /** Blocks an operation may still add. */
  function Spare(op: Op, most: nat): int {
    match op
    case Out => 0
    case In(wrote) => most - |wrote|
    case Passed(wrote, _) => most - |wrote|
  }

  function SpareSum(ops: seq<Op>, most: nat): int {
    if ops == [] then 0 else SpareSum(ops[..|ops| - 1], most) + Spare(ops[|ops| - 1], most)
  }

  function Active(ops: seq<Op>): nat {
    if ops == [] then 0 else Active(ops[..|ops| - 1]) + if ops[|ops| - 1].Out? then 0 else 1
  }

  /** Each outstanding operation keeps to its allowance, also with the write it
      is about to make, and what it wrote is in the log. */
  ghost predicate OpOk(op: Op, bs: seq<int>, most: nat) {
    match op
    case Out => true
    case In(wrote) => |wrote| <= most && forall b :: b in wrote ==> b in bs
    case Passed(wrote, b) => |wrote + {b}| <= most && |wrote| <= most && forall b :: b in wrote ==> b in bs
  }

  /** The largest number of blocks that can be logged or still be claimed. */
  function Bound(most: nat): nat {
    MAXOPBLOCKS + 2 * most
  }

  ghost predicate Inv(s: State, most: nat) {
    && s.outstanding == Active(s.ops)
    && (s.committing ==> s.outstanding == 0)
    && (!s.committing && s.outstanding == 0 ==> s.bs == [])
    && (forall p :: 0 <= p < |s.ops| ==> OpOk(s.ops[p], s.bs, most))
    && |s.bs| + SpareSum(s.ops, most) <= Bound(most)
    && (forall i, j :: 0 <= i < j < |s.bs| ==> s.bs[i] != s.bs[j])
    && (s.panicked ==> TooBig(|s.bs|, LOGBLOCKS))
  }

  lemma {:induction false} UpdateSums(ops: seq<Op>, p: nat, op: Op, most: nat)
    requires p < |ops|
    ensures SpareSum(ops[p := op], most) == SpareSum(ops, most) - Spare(ops[p], most) + Spare(op, most)
    ensures Active(ops[p := op]) == Active(ops) - (if ops[p].Out? then 0 else 1) + (if op.Out? then 0 else 1)
  {
    var n := |ops| - 1;
    if p < n {
      UpdateSums(ops[..n], p, op, most);
      assert ops[p := op][..n] == ops[..n][p := op];
    } else {
      assert ops[p := op][..n] == ops[..n];
    }
  }

  lemma {:induction false} ActivePositive(ops: seq<Op>, p: nat)
    requires p < |ops| && !ops[p].Out?
    ensures Active(ops) > 0
  {
    if p < |ops| - 1 {
      ActivePositive(ops[..|ops| - 1], p);
    }
  }

  /** What is still unclaimed is at most `most` for each active operation. */
  lemma {:induction false} SpareBound(ops: seq<Op>, most: nat)
    ensures SpareSum(ops, most) <= Active(ops) * most
  {
    if ops != [] {
      SpareBound(ops[..|ops| - 1], most);
    }
  }

  lemma {:induction false} SpareNonNegative(ops: seq<Op>, bs: seq<int>, most: nat)
    requires forall p :: 0 <= p < |ops| ==> OpOk(ops[p], bs, most)
    ensures SpareSum(ops, most) >= 0
  {
    if ops != [] {
      SpareNonNegative(ops[..|ops| - 1], bs, most);
    }
  }

  lemma {:induction false} InitSums(ops: seq<Op>, most: nat)
    requires forall p :: 0 <= p < |ops| ==> ops[p] == Out
    ensures SpareSum(ops, most) == 0 && Active(ops) == 0
  {
    if ops != [] {
      InitSums(ops[..|ops| - 1], most);
    }
  }

  /** begin_op: the newcomer's full allowance fits next to what is logged and
      what the others may still log. */
  lemma BeginKeeps(s: State, p: nat, most: nat)
    requires most <= MAXOPBLOCKS && Inv(s, most) && Enabled(s, Begin(p), most)
    ensures Inv(Next(s, Begin(p), most), most)
  {
    UpdateSums(s.ops, p, In({}), most);
    SpareBound(s.ops, most);
    var k := s.outstanding + 1;
    assert k * most <= k * MAXOPBLOCKS;
    if k == 1 {
      assert s.bs == [];
    } else {
      assert k * MAXOPBLOCKS - k * most == k * (MAXOPBLOCKS - most) >= 2 * (MAXOPBLOCKS - most);
    }
  }

  lemma AppendKeeps(s: State, p: nat, most: nat)
    requires Inv(s, most) && Enabled(s, Append(p), most)
    ensures Inv(Next(s, Append(p), most), most)
  {
    var op := s.ops[p];
    UpdateSums(s.ops, p, In(op.wrote + {op.b}), most);
    ActivePositive(s.ops, p);
    assert OpOk(op, s.bs, most);
    if op.b in op.wrote {
      assert op.wrote + {op.b} == op.wrote;
    } else {
      assert |op.wrote + {op.b}| == |op.wrote| + 1;
    }
  }

  lemma StepKeeps(s: State, a: Action, most: nat)
    requires most <= MAXOPBLOCKS && Inv(s, most) && Enabled(s, a, most)
    ensures Inv(Next(s, a, most), most)
  {
    match a
    case Begin(p) =>
      BeginKeeps(s, p, most);
    case Guard(p, b) =>
      UpdateSums(s.ops, p, Passed(s.ops[p].wrote, b), most);
      ActivePositive(s.ops, p);
      assert OpOk(s.ops[p], s.bs, most);
    case Append(p) =>
      AppendKeeps(s, p, most);
    case End(p) =>
      UpdateSums(s.ops, p, Out, most);
      ActivePositive(s.ops, p);
      assert OpOk(s.ops[p], s.bs, most);
    case Commit =>
      NoneActive(s.ops, most);
    case Done =>
  }

  lemma {:induction false} NoneActive(ops: seq<Op>, most: nat)
    requires Active(ops) == 0
    ensures SpareSum(ops, most) == 0 && forall p :: 0 <= p < |ops| ==> ops[p].Out?
  {
    if ops != [] {
      NoneActive(ops[..|ops| - 1], most);
    }
  }

  lemma {:induction false} RunKeeps(s: State, acts: seq<Action>, most: nat, t: State)
    requires most <= MAXOPBLOCKS && Inv(s, most) && Run(s, acts, most, t)
    ensures Inv(t, most)
    decreases |acts|
  {
    if acts != [] {
      StepKeeps(s, acts[0], most);
      RunKeeps(Next(s, acts[0], most), acts[1..], most, t);
    }
  }

  lemma ReachableInv(s: State, most: nat)
    requires most <= MAXOPBLOCKS && Reachable(s, most)
    ensures Inv(s, most)
  {
    var s0, acts :| Init(s0) && Run(s0, acts, most, s);
    InitSums(s0.ops, most);
    RunKeeps(s0, acts, most, s);
  }

  // ------------------------------------------------------------ main results

  /** Group commit: while a commit runs no operation is outstanding, so a commit
      never writes half an operation; the log holds each block once; and a block
      about to be appended has a slot in `block[LOGSIZE]`. */
  lemma GroupCommit(s: State, most: nat)
    requires most <= MAXOPBLOCKS && Reachable(s, most)
    ensures s.committing ==> forall p :: 0 <= p < |s.ops| ==> s.ops[p].Out?
    ensures forall i, j :: 0 <= i < j < |s.bs| ==> s.bs[i] != s.bs[j]
    ensures |s.bs| + SpareSum(s.ops, most) <= LOGSIZE
    ensures forall p :: 0 <= p < |s.ops| && s.ops[p].Passed? && s.ops[p].b !in s.bs ==> |s.bs| < LOGSIZE
  {
    ReachableInv(s, most);
    if s.committing {
      NoneActive(s.ops, most);
    }
    forall p | 0 <= p < |s.ops| && s.ops[p].Passed? && s.ops[p].b !in s.bs
      ensures |s.bs| < LOGSIZE
    {
      PlaceLeft(s, p, most);
    }
  }

  lemma PlaceLeft(s: State, p: nat, most: nat)
    requires most <= MAXOPBLOCKS && Inv(s, most) && p < |s.ops| && s.ops[p].Passed?
    ensures |s.bs| <= LOGSIZE && (s.ops[p].b in s.bs || |s.bs| < LOGSIZE)
  {
    SpareNonNegative(s.ops, s.bs, most);
    AppendKeeps(s.(panicked := false), p, most);
    var t := Next(s.(panicked := false), Append(p), most);
    SpareNonNegative(t.ops, t.bs, most);
  }

  /** No `log_write` has panicked and the logged blocks fit the log area. */
  predicate Safe(s: State) {
    !s.panicked && |s.bs| <= LOGBLOCKS - 1
  }

  lemma SafeBelow(s: State, most: nat)
    requires most < MAXOPBLOCKS && Reachable(s, most)
    ensures Safe(s)
  {
    ReachableInv(s, most);
    SpareNonNegative(s.ops, s.bs, most);
  }

  lemma {:induction false} RunAppend(s: State, acts: seq<Action>, most: nat, t: State, a: Action)
    requires Run(s, acts, most, t) && Enabled(t, a, most)
    ensures Run(s, acts + [a], most, Next(t, a, most))
    decreases |acts|
  {
    if acts != [] {
      RunAppend(Next(s, acts[0], most), acts[1..], most, t, a);
      assert (acts + [a])[1..] == acts[1..] + [a];
    } else {
      assert Run(Next(s, a, most), [], most, Next(s, a, most));
      assert ([] + [a])[1..] == [];
    }
  }

  lemma ReachNext(s: State, a: Action, most: nat)
    requires Reachable(s, most) && Enabled(s, a, most)
    ensures Reachable(Next(s, a, most), most)
  {
    var s0, acts :| Init(s0) && Run(s0, acts, most, s);
    RunAppend(s0, acts, most, s, a);
  }

  /** Process `p` logs `m` blocks nobody logged before. */
  lemma {:induction false} LogFresh(s: State, p: nat, m: nat) returns (t: State)
    requires Reachable(s, MAXOPBLOCKS) && !s.panicked && p < |s.ops| && s.ops[p].In?
    requires s.outstanding >= 1 && |s.ops[p].wrote| + m <= MAXOPBLOCKS && |s.bs| + m < LOGBLOCKS
    requires forall b :: b in s.bs ==> b < |s.bs|
    requires forall b :: b in s.ops[p].wrote ==> b in s.bs
    ensures Reachable(t, MAXOPBLOCKS) && !t.panicked && t.outstanding == s.outstanding
    ensures |t.bs| == |s.bs| + m && forall b :: b in t.bs ==> b < |t.bs|
    ensures |t.ops| == |s.ops| && t.ops[p].In? && |t.ops[p].wrote| == |s.ops[p].wrote| + m
    ensures forall b :: b in t.ops[p].wrote ==> b in t.bs
    ensures forall q :: 0 <= q < |s.ops| && q != p ==> t.ops[q] == s.ops[q]
    ensures forall b :: b in s.bs ==> b in t.bs
    decreases m
  {
    if m == 0 {
      t := s;
    } else {
      ReachNext(s, Guard(p, |s.bs|), MAXOPBLOCKS);
      var s1 := Next(s, Guard(p, |s.bs|), MAXOPBLOCKS);
      ReachNext(s1, Append(p), MAXOPBLOCKS);
      var s2 := Next(s1, Append(p), MAXOPBLOCKS);
      t := LogFresh(s2, p, m - 1);
    }
  }

  /** Three operations start at once on an empty log. */
  lemma ThreeIn() returns (s: State)
    ensures Reachable(s, MAXOPBLOCKS) && s == State([In({}), In({}), In({})], 3, [], false, false)
  {
    var s0 := State([Out, Out, Out], 0, [], false, false);
    assert Run(s0, [], MAXOPBLOCKS, s0);
    assert Reachable(s0, MAXOPBLOCKS);
    ReachNext(s0, Begin(0), MAXOPBLOCKS);
    var s1 := State([In({}), Out, Out], 1, [], false, false);
    assert s1 == Next(s0, Begin(0), MAXOPBLOCKS);
    ReachNext(s1, Begin(1), MAXOPBLOCKS);
    var s2 := State([In({}), In({}), Out], 2, [], false, false);
    assert s2 == Next(s1, Begin(1), MAXOPBLOCKS);
    ReachNext(s2, Begin(2), MAXOPBLOCKS);
    s := State([In({}), In({}), In({})], 3, [], false, false);
    assert s == Next(s2, Begin(2), MAXOPBLOCKS);
  }

  /** Three operations that each log ten blocks of their own: the thirtieth
      `log_write` panics, although every operation kept to MAXOPBLOCKS. */
  lemma TenBlocksPanic() returns (s: State)
    ensures Reachable(s, MAXOPBLOCKS) && s.panicked
  {
    var a := ThreeIn();
    var b := LogFresh(a, 0, 10);
    var c := LogFresh(b, 1, 10);
    var d := LogFresh(c, 2, 9);
    ReachNext(d, Guard(2, 29), MAXOPBLOCKS);
    s := Next(d, Guard(2, 29), MAXOPBLOCKS);
  }

  /** The guard read before the lock: two processes pass it with 28 blocks
      logged, both append, and the thirtieth logged block has no place in the
      log area: `write_log` would store it behind the log's last block. */
  lemma TenBlocksOverrun() returns (s: State)
    ensures Reachable(s, MAXOPBLOCKS) && !s.panicked && |s.bs| == LOGBLOCKS
  {
    var a := ThreeIn();
    var b := LogFresh(a, 0, 10);
    var c := LogFresh(b, 1, 9);
    var d := LogFresh(c, 2, 9);
    ReachNext(d, Guard(1, 28), MAXOPBLOCKS);
    var e := Next(d, Guard(1, 28), MAXOPBLOCKS);
    ReachNext(e, Guard(2, 29), MAXOPBLOCKS);
    var f := Next(e, Guard(2, 29), MAXOPBLOCKS);
    ReachNext(f, Append(1), MAXOPBLOCKS);
    var g := Next(f, Append(1), MAXOPBLOCKS);
    ReachNext(g, Append(2), MAXOPBLOCKS);
    s := Next(g, Append(2), MAXOPBLOCKS);
  }

  /** Exactly when the admission rule does its job: no interleaving panics or
      overruns the log area if and only if operations write fewer than
      MAXOPBLOCKS distinct blocks. */
  lemma SafeExactly(most: nat)
    requires most <= MAXOPBLOCKS
    ensures (forall s :: Reachable(s, most) ==> Safe(s)) <==> most < MAXOPBLOCKS
  {
    if most < MAXOPBLOCKS {
      forall s | Reachable(s, most)
        ensures Safe(s)
      {
        SafeBelow(s, most);
      }
    } else {
      var s := TenBlocksPanic();
    }
  }
}
