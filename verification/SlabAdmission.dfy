/** `kmalloc` and `kmfree` of src/slab.c under concurrent callers. `kmalloc`
    compares `num_used_objects` with the limits before it takes `stable.lock`,
    so its two tests and its critical section are three steps, and other
    processes may run in between. Objects are told apart by their bits. */
module SlabAdmission {
  import opened Arith
  import opened SlabModel
  import opened SlabSizes
  import opened SlabAllocator

  function PerPage(c: nat): (per: nat)
    requires c < NSLAB
    ensures per > 0
  {
    [512, 256, 128, 64, 32, 16, 8, 4, 2][c]
  }

  /** Objects that the pages of a class have room for. */
  function Limit(c: nat): (n: nat)
    requires c < NSLAB
    ensures 0 < n <= NBITS && (n == NBITS <==> c == 0)
  {
    PerPage(c) * MaxPages(c)
  }

  lemma LimitIs(idx: nat, size: nat, per: nat)
    requires Shape(idx, size, per)
    ensures PerPage(idx) == per
  {
    ShapeCases(idx, size, per);
  }

  /** A slab: its bitmap, its counter, and how often each object is in the hands
      of a caller. */
  datatype Class = Class(bits: seq<bool>, used: int, held: multiset<nat>)

  /** Where a process is in `kmalloc` of class `c`: outside, past the test of its
      own class, or past both. */
  datatype Caller = Out | Own(c: nat) | Past(c: nat)

  datatype State = State(procs: seq<Caller>, slabs: seq<Class>)

  datatype Action =
    | TestOwn(p: nat, c: nat)
    | TestFirst(p: nat)
    | Locked(p: nat)
    | Free(p: nat, c: nat, k: nat)

  ghost predicate Init(s: State) {
    && (forall p :: 0 <= p < |s.procs| ==> s.procs[p] == Out)
    && |s.slabs| == NSLAB
    && (forall c :: 0 <= c < NSLAB ==> Unused(s.slabs[c]))
  }

  ghost predicate Unused(x: Class) {
    && |x.bits| == NBITS && x.used == 0 && x.held == multiset{}
    && (forall k :: 0 <= k < NBITS ==> !x.bits[k])
  }

  /** An object is freed by a process that has it; one beyond the pages of the
      class `kmfree` does not find. */
  ghost predicate Enabled(s: State, a: Action) {
    && |s.slabs| == NSLAB
    && match a
       case TestOwn(p, c) => p < |s.procs| && s.procs[p].Out? && c < NSLAB
       case TestFirst(p) => p < |s.procs| && s.procs[p].Own? && s.procs[p].c < NSLAB
       case Locked(p) => p < |s.procs| && s.procs[p].Past? && s.procs[p].c < NSLAB
       case Free(p, c, k) =>
         p < |s.procs| && s.procs[p].Out? && c < NSLAB && k in s.slabs[c].held && k < Limit(c) && k < |s.slabs[c].bits|
  }

  /** The object that the critical section of `kmalloc` hands out: `setBitmap`
      returns 0 when it finds no clear bit. */
  ghost function Offered(bits: seq<bool>): nat {
    if FirstClear(bits) < |bits| then FirstClear(bits) else 0
  }

  ghost function TakenBits(bits: seq<bool>): seq<bool> {
    if FirstClear(bits) < |bits| then bits[FirstClear(bits) := true] else bits
  }

  ghost function Taken(x: Class): Class {
    Class(TakenBits(x.bits), x.used + 1, x.held + multiset{Offered(x.bits)})
  }

  /** The critical section of `kmfree`. */
  ghost function Dropped(x: Class, k: nat): Class
    requires k < |x.bits|
  {
    if x.used != 0 && x.bits[k] then Class(x.bits[k := false], x.used - 1, x.held - multiset{k})
    else x.(held := x.held - multiset{k})
  }

  ghost function Next(s: State, a: Action): State
    requires Enabled(s, a)
  {
    match a
    case TestOwn(p, c) => if s.slabs[c].used == PerPage(c) * 100 then s else s.(procs := s.procs[p := Own(c)])
    case TestFirst(p) =>
      s.(procs := s.procs[p := if s.slabs[0].used == PerPage(0) * 64 then Out else Past(s.procs[p].c)])
    case Locked(p) =>
      var c := s.procs[p].c;
      State(s.procs[p := Out], s.slabs[c := Taken(s.slabs[c])])
    case Free(p, c, k) => s.(slabs := s.slabs[c := Dropped(s.slabs[c], k)])
  }

  ghost predicate CanRun(s: State, acts: seq<Action>)
    decreases |acts|
  {
    acts == [] || (Enabled(s, acts[0]) && CanRun(Next(s, acts[0]), acts[1..]))
  }

  ghost function After(s: State, acts: seq<Action>): State
    requires CanRun(s, acts)
    decreases |acts|
  {
    if acts == [] then s else After(Next(s, acts[0]), acts[1..])
  }

  /** Nobody has an object that somebody else has, and every object lies in a
      page of its class. */
  ghost predicate ClassGood(x: Class, limit: nat) {
    forall k :: k in x.held ==> x.held[k] == 1 && k < limit
  }

  ghost predicate Good(s: State) {
    |s.slabs| == NSLAB && forall c :: 0 <= c < NSLAB ==> ClassGood(s.slabs[c], Limit(c))
  }

  // -------------------------------------------------------------- invariant

  /** The bitmap and the counter agree with what the callers have. */
  ghost predicate ClassOk(x: Class, limit: nat) {
    && |x.bits| == NBITS && x.used == Count(x.bits)
    && (forall k :: limit <= k < NBITS ==> !x.bits[k])
    && (forall k: nat :: x.held[k] == if k < NBITS && x.bits[k] then 1 else 0)
  }

  ghost predicate Inv(s: State) {
    && |s.slabs| == NSLAB
    && (forall c :: 0 <= c < NSLAB ==> ClassOk(s.slabs[c], Limit(c)))
    && (forall p :: 0 <= p < |s.procs| && !s.procs[p].Out? ==> s.procs[p].c < NSLAB)
  }

  /** No slot is left where `kmalloc` is about to take one. */
  ghost predicate Overruns(s: State, a: Action) {
    a.Locked? && Enabled(s, a) && s.slabs[s.procs[a.p].c].used >= Limit(s.procs[a.p].c)
  }

  /** A bitmap that counts `n` and has no bit at `n` or beyond is full up to `n`. */
  lemma {:induction false} CountAll(bits: seq<bool>, n: nat)
    requires n <= |bits| && Count(bits) >= n && forall k :: n <= k < |bits| ==> !bits[k]
    ensures forall k :: 0 <= k < n ==> bits[k]
  {
    if bits != [] {
      var m := |bits| - 1;
      if n == |bits| {
        CountBelow(bits[..m], m);
        CountAll(bits[..m], m);
      } else {
        CountAll(bits[..m], n);
      }
    }
  }

  /** Taking an object while a slot is left. */
  lemma TakenOk(x: Class, limit: nat)
    requires ClassOk(x, limit) && x.used < limit <= NBITS
    ensures ClassOk(Taken(x), limit)
  {
    var k := FirstClear(x.bits);
    CountPrefix(x.bits, k);
    CountUpdate(x.bits, k, true);
  }

  /** Taking one while none is left: the object is taken already, or it lies in
      the page after the last one. */
  lemma TakenBad(x: Class, limit: nat)
    requires ClassOk(x, limit) && x.used >= limit && 0 < limit <= NBITS
    ensures Offered(x.bits) == (if limit == NBITS then 0 else limit) && !ClassGood(Taken(x), limit)
  {
    CountAll(x.bits, limit);
    assert limit < NBITS ==> !x.bits[limit];
    assert FirstClear(x.bits) == limit;
    assert Taken(x).held[Offered(x.bits)] == x.held[Offered(x.bits)] + 1;
  }

  lemma DroppedOk(x: Class, limit: nat, k: nat)
    requires ClassOk(x, limit) && k in x.held && k < |x.bits|
    ensures ClassOk(Dropped(x, k), limit)
  {
    CountUpdate(x.bits, k, false);
    CountPositive(x.bits, k);
  }

  lemma {:induction false} CountPositive(bits: seq<bool>, k: nat)
    requires k < |bits| && bits[k]
    ensures Count(bits) > 0
  {
    if k < |bits| - 1 {
      CountPositive(bits[..|bits| - 1], k);
    }
  }

  lemma InvGood(s: State)
    requires Inv(s)
    ensures Good(s)
  {
    forall c | 0 <= c < NSLAB
      ensures ClassGood(s.slabs[c], Limit(c))
    {
      assert ClassOk(s.slabs[c], Limit(c));
    }
  }

  lemma NextKeeps(s: State, a: Action)
    requires Inv(s) && Enabled(s, a) && !Overruns(s, a)
    ensures Inv(Next(s, a))
  {
    match a
    case TestOwn(p, c) =>
    case TestFirst(p) =>
    case Locked(p) => TakenOk(s.slabs[s.procs[p].c], Limit(s.procs[p].c));
    case Free(p, c, k) => DroppedOk(s.slabs[c], Limit(c), k);
  }

  // ------------------------------------------------------------ main results

  /** One step hands an object out twice, or one beyond the pages of its class,
      exactly if no slot is left when the lock is taken. */
  lemma OverrunsExactly(s: State, a: Action)
    requires Inv(s) && Enabled(s, a)
    ensures Good(Next(s, a)) <==> !Overruns(s, a)
    ensures Good(Next(s, a)) <==> Inv(Next(s, a))
  {
    if Overruns(s, a) {
      var c := s.procs[a.p].c;
      TakenBad(s.slabs[c], Limit(c));
      assert !ClassGood(Next(s, a).slabs[c], Limit(c));
      if Inv(Next(s, a)) {
        InvGood(Next(s, a));
      }
    } else {
      NextKeeps(s, a);
      InvGood(Next(s, a));
    }
  }

  ghost predicate AlwaysGood(s: State, acts: seq<Action>)
    requires CanRun(s, acts)
    decreases |acts|
  {
    Good(s) && (acts != [] ==> AlwaysGood(Next(s, acts[0]), acts[1..]))
  }

  ghost predicate NeverOverruns(s: State, acts: seq<Action>)
    requires CanRun(s, acts)
    decreases |acts|
  {
    acts != [] ==> !Overruns(s, acts[0]) && NeverOverruns(Next(s, acts[0]), acts[1..])
  }

  /** Over whole runs: all objects in the hands of callers stay disjoint if and
      only if every critical section of `kmalloc` still finds a slot. */
  lemma {:induction false} GoodExactly(s: State, acts: seq<Action>)
    requires Inv(s) && CanRun(s, acts)
    ensures AlwaysGood(s, acts) <==> NeverOverruns(s, acts)
    decreases |acts|
  {
    InvGood(s);
    if acts != [] {
      OverrunsExactly(s, acts[0]);
      if !Overruns(s, acts[0]) {
        GoodExactly(Next(s, acts[0]), acts[1..]);
      }
    }
  }

  lemma InitInv(s: State)
    requires Init(s)
    ensures Inv(s)
  {
    forall c | 0 <= c < NSLAB
      ensures ClassOk(s.slabs[c], Limit(c))
    {
      assert Unused(s.slabs[c]);
      CountZero(s.slabs[c].bits);
    }
  }

  // --------------------------------------- callers past the tests, slots left

  /** How many processes are past both tests for class `c`. */
  function Pending(procs: seq<Caller>, c: nat): nat {
    if procs == [] then 0 else Pending(procs[..|procs| - 1], c) + if procs[|procs| - 1] == Past(c) then 1 else 0
  }

  /** There is a slot for each of them. */
  ghost predicate SlotsLeft(s: State)
    requires |s.slabs| == NSLAB
  {
    forall c :: 0 <= c < NSLAB ==> s.slabs[c].used + Pending(s.procs, c) <= Limit(c)
  }

  predicate AllLocked(acts: seq<Action>) {
    forall i :: 0 <= i < |acts| ==> acts[i].Locked?
  }

  lemma {:induction false} PendingUpdate(procs: seq<Caller>, p: nat, x: Caller, c: nat)
    requires p < |procs|
    ensures Pending(procs[p := x], c) == Pending(procs, c) - (if procs[p] == Past(c) then 1 else 0) + (if x == Past(c) then 1 else 0)
  {
    var n := |procs| - 1;
    if p < n {
      PendingUpdate(procs[..n], p, x, c);
      assert procs[p := x][..n] == procs[..n][p := x];
    } else {
      assert procs[p := x][..n] == procs[..n];
    }
  }

  lemma {:induction false} SomePending(procs: seq<Caller>, c: nat) returns (p: nat)
    requires Pending(procs, c) > 0
    ensures p < |procs| && procs[p] == Past(c)
  {
    var n := |procs| - 1;
    if procs[n] == Past(c) {
      p := n;
    } else {
      p := SomePending(procs[..n], c);
    }
  }

  lemma {:induction false} PendingOne(procs: seq<Caller>, p: nat)
    requires p < |procs| && procs[p].Past?
    ensures Pending(procs, procs[p].c) >= 1
  {
    if p < |procs| - 1 {
      PendingOne(procs[..|procs| - 1], p);
    }
  }

  lemma {:induction false} SlotsSuffice(s: State, acts: seq<Action>)
    requires Inv(s) && SlotsLeft(s) && CanRun(s, acts) && AllLocked(acts)
    ensures Good(After(s, acts))
    decreases |acts|
  {
    if acts == [] {
      InvGood(s);
    } else {
      var a := acts[0];
      assert a.Locked?;
      PendingOne(s.procs, a.p);
      NextKeeps(s, a);
      forall c | 0 <= c < NSLAB
        ensures Next(s, a).slabs[c].used + Pending(Next(s, a).procs, c) <= Limit(c)
      {
        PendingUpdate(s.procs, a.p, Out, c);
      }
      SlotsSuffice(Next(s, a), acts[1..]);
    }
  }

  lemma {:induction false} SlotsMissing(s: State, c: nat) returns (acts: seq<Action>)
    requires Inv(s) && c < NSLAB && s.slabs[c].used + Pending(s.procs, c) > Limit(c)
    ensures CanRun(s, acts) && AllLocked(acts) && !Good(After(s, acts))
    decreases Pending(s.procs, c)
  {
    UsedBound(s, c);
    var p := SomePending(s.procs, c);
    var a := Locked(p);
    var t := Next(s, a);
    if Overruns(s, a) {
      OverrunsExactly(s, a);
      acts := [a];
      assert acts[1..] == [];
      assert CanRun(t, []) && After(t, []) == t;
    } else {
      NextKeeps(s, a);
      PendingUpdate(s.procs, p, Out, c);
      var rest := SlotsMissing(t, c);
      acts := [a] + rest;
      assert acts[1..] == rest;
    }
  }

  /** The callers that have passed the tests get along in every order if and only
      if there is a slot for each. */
  lemma PendingExactly(s: State)
    requires Inv(s)
    ensures (forall acts :: CanRun(s, acts) && AllLocked(acts) ==> Good(After(s, acts))) <==> SlotsLeft(s)
  {
    if SlotsLeft(s) {
      forall acts | CanRun(s, acts) && AllLocked(acts)
        ensures Good(After(s, acts))
      {
        SlotsSuffice(s, acts);
      }
    } else {
      var c :| 0 <= c < NSLAB && s.slabs[c].used + Pending(s.procs, c) > Limit(c);
      var acts := SlotsMissing(s, c);
    }
  }

  ghost predicate AlwaysSlotsLeft(s: State, acts: seq<Action>)
    requires |s.slabs| == NSLAB && CanRun(s, acts)
    decreases |acts|
  {
    SlotsLeft(s) && (acts != [] ==> AlwaysSlotsLeft(Next(s, acts[0]), acts[1..]))
  }

  /** A run on which there always is keeps all objects disjoint, whatever else
      happens. */
  lemma {:induction false} ReservedGood(s: State, acts: seq<Action>)
    requires Inv(s) && CanRun(s, acts) && AlwaysSlotsLeft(s, acts)
    ensures AlwaysGood(s, acts)
    decreases |acts|
  {
    InvGood(s);
    if acts != [] {
      if acts[0].Locked? {
        PendingOne(s.procs, acts[0].p);
      }
      NextKeeps(s, acts[0]);
      ReservedGood(Next(s, acts[0]), acts[1..]);
    }
  }

  // -------------------------------------------------- how many callers are safe

  lemma {:induction false} Append(s: State, acts: seq<Action>, more: seq<Action>)
    requires CanRun(s, acts) && CanRun(After(s, acts), more)
    ensures CanRun(s, acts + more) && After(s, acts + more) == After(After(s, acts), more)
    decreases |acts|
  {
    if acts == [] {
      assert acts + more == more;
    } else {
      assert (acts + more)[0] == acts[0] && (acts + more)[1..] == acts[1..] + more;
      assert After(s, acts) == After(Next(s, acts[0]), acts[1..]);
      Append(Next(s, acts[0]), acts[1..], more);
    }
  }

  lemma One(s: State, a: Action)
    requires Enabled(s, a)
    ensures CanRun(s, [a]) && After(s, [a]) == Next(s, a)
  {
    assert [a][1..] == [];
    assert CanRun(Next(s, a), []) && After(Next(s, a), []) == Next(s, a);
  }

  lemma Three(s: State, a: Action, b: Action, c: Action)
    requires Enabled(s, a) && Enabled(Next(s, a), b) && Enabled(Next(Next(s, a), b), c)
    ensures CanRun(s, [a, b, c]) && After(s, [a, b, c]) == Next(Next(Next(s, a), b), c)
  {
    One(Next(Next(s, a), b), c);
    assert [a, b, c][1..] == [b, c] && [b, c][1..] == [c];
    assert CanRun(Next(s, a), [b, c]);
  }

  ghost predicate AllOut(s: State) {
    forall p :: 0 <= p < |s.procs| ==> s.procs[p] == Out
  }

  /** The objects in use are the first ones. */
  ghost predicate Packed(x: Class) {
    forall k :: 0 <= k < |x.bits| ==> (x.bits[k] <==> k < x.used)
  }

  lemma PackedTaken(x: Class)
    requires 0 <= x.used < |x.bits|
    ensures Packed(x) ==> FirstClear(x.bits) == x.used && Packed(Taken(x))
  {
    if Packed(x) {
      assert IsFirstZero(x.bits, FirstClear(x.bits)) && !x.bits[x.used];
      assert x.used > 0 ==> x.bits[x.used - 1];
      assert FirstClear(x.bits) < |x.bits|;
    }
  }

  /** Process 0 takes `m` objects of class `c` with nobody in its way. */
  lemma {:induction false} Fill(s: State, c: nat, m: nat) returns (acts: seq<Action>)
    requires Inv(s) && AllOut(s) && s.procs != [] && c < NSLAB
    requires s.slabs[c].used + m <= Limit(c) && (c != 0 ==> s.slabs[0].used == 0)
    ensures CanRun(s, acts)
    ensures var t := After(s, acts);
      && Inv(t) && AllOut(t) && |t.procs| == |s.procs| && t.slabs[c].used == s.slabs[c].used + m
      && (c != 0 ==> t.slabs[0].used == 0) && (Packed(s.slabs[c]) ==> Packed(t.slabs[c]))
    decreases m
  {
    if m == 0 {
      acts := [];
    } else {
      var s1 := Next(s, TestOwn(0, c));
      var s2 := Next(s1, TestFirst(0));
      var s3 := Next(s2, Locked(0));
      NextKeeps(s, TestOwn(0, c));
      NextKeeps(s1, TestFirst(0));
      NextKeeps(s2, Locked(0));
      PackedTaken(s.slabs[c]);
      Three(s, TestOwn(0, c), TestFirst(0), Locked(0));
      var rest := Fill(s3, c, m - 1);
      Append(s, [TestOwn(0, c), TestFirst(0), Locked(0)], rest);
      acts := [TestOwn(0, c), TestFirst(0), Locked(0)] + rest;
    }
  }

  /** Two processes pass the tests with one slot left, and both go on. */
  lemma Race(s: State, c: nat) returns (acts: seq<Action>)
    requires Inv(s) && AllOut(s) && |s.procs| >= 2 && c < NSLAB
    requires s.slabs[c].used == Limit(c) - 1 && (c != 0 ==> s.slabs[0].used == 0)
    ensures CanRun(s, acts) && |After(s, acts).slabs| == NSLAB
    ensures After(s, acts).slabs[c] == Taken(Taken(s.slabs[c]))
  {
    var s1 := Next(s, TestOwn(0, c));
    assert s1 == s.(procs := s.procs[0 := Own(c)]);
    var s2 := Next(s1, TestFirst(0));
    assert s2 == s.(procs := s.procs[0 := Past(c)]);
    var s3 := Next(s2, TestOwn(1, c));
    assert s3 == s.(procs := s.procs[0 := Past(c)][1 := Own(c)]);
    Three(s, TestOwn(0, c), TestFirst(0), TestOwn(1, c));
    var s4 := Next(s3, TestFirst(1));
    assert s4 == s.(procs := s.procs[0 := Past(c)][1 := Past(c)]);
    Three(s3, TestFirst(1), Locked(0), Locked(1));
    Append(s, [TestOwn(0, c), TestFirst(0), TestOwn(1, c)], [TestFirst(1), Locked(0), Locked(1)]);
    acts := [TestOwn(0, c), TestFirst(0), TestOwn(1, c)] + [TestFirst(1), Locked(0), Locked(1)];
  }

  lemma TakenTwice(x: Class, limit: nat)
    requires ClassOk(x, limit) && x.used == limit - 1 && 0 < limit <= NBITS
    ensures Taken(Taken(x)).used == limit + 1 && !ClassGood(Taken(Taken(x)), limit)
    ensures limit == NBITS ==> Taken(Taken(x)).held[0] == 2
    ensures limit < NBITS ==> limit in Taken(Taken(x)).held
  {
    var y := Taken(x);
    TakenOk(x, limit);
    TakenBad(y, limit);
    CountAll(y.bits, limit);
    assert y.held[0] == 1;
  }

  /** So the second overruns the class: object 0 of the smallest class is handed
      out twice, and the other classes hand out an object of page 101. The limits
      are compared with `==` only, so they stop nobody from then on. */
  lemma TwoAtOnce(s: State, c: nat) returns (acts: seq<Action>)
    requires Init(s) && |s.procs| >= 2 && c < NSLAB
    ensures CanRun(s, acts) && |After(s, acts).slabs| == NSLAB
    ensures After(s, acts).slabs[c].used == Limit(c) + 1 && !ClassGood(After(s, acts).slabs[c], Limit(c))
    ensures c == 0 ==> After(s, acts).slabs[0].held[0] == 2
    ensures c != 0 ==> Limit(c) in After(s, acts).slabs[c].held
  {
    InitInv(s);
    assert forall b :: 0 <= b < NSLAB ==> Unused(s.slabs[b]);
    var fill := Fill(s, c, Limit(c) - 1);
    var race := Race(After(s, fill), c);
    Append(s, fill, race);
    acts := fill + race;
    TakenTwice(After(s, fill).slabs[c], Limit(c));
  }

  /** A lone caller has a slot left once it is past the tests. */
  ghost predicate OwnSlot(s: State)
    requires |s.slabs| == NSLAB
  {
    forall p :: 0 <= p < |s.procs| && !s.procs[p].Out? ==>
      && s.procs[p].c < NSLAB
      && (s.procs[p].Past? || s.procs[p].c != 0 ==> s.slabs[s.procs[p].c].used < Limit(s.procs[p].c))
  }

  lemma UsedBound(s: State, c: nat)
    requires Inv(s) && c < NSLAB
    ensures 0 <= s.slabs[c].used <= Limit(c)
  {
    assert ClassOk(s.slabs[c], Limit(c));
    CountBelow(s.slabs[c].bits, Limit(c));
  }

  lemma OwnSlotKeeps(s: State, a: Action)
    requires Inv(s) && OwnSlot(s) && |s.procs| <= 1 && Enabled(s, a)
    ensures !Overruns(s, a) && OwnSlot(Next(s, a))
  {
    match a
    case TestOwn(p, c) => UsedBound(s, c);
    case TestFirst(p) =>
      UsedBound(s, 0);
      UsedBound(s, s.procs[p].c);
    case Locked(p) =>
    case Free(p, c, k) =>
  }

  lemma {:induction false} LoneCaller(s: State, acts: seq<Action>)
    requires Inv(s) && OwnSlot(s) && |s.procs| <= 1 && CanRun(s, acts)
    ensures Good(After(s, acts))
    decreases |acts|
  {
    if acts == [] {
      InvGood(s);
    } else {
      NextKeeps(s, acts[0]);
      OwnSlotKeeps(s, acts[0]);
      LoneCaller(Next(s, acts[0]), acts[1..]);
    }
  }

  /** The tests before the lock do their job in all interleavings if and only if
      there is at most one caller. */
  lemma CallersExactly(n: nat)
    ensures (forall s, acts :: Init(s) && |s.procs| == n && CanRun(s, acts) ==> Good(After(s, acts))) <==> n <= 1
  {
    if n <= 1 {
      forall s, acts | Init(s) && |s.procs| == n && CanRun(s, acts)
        ensures Good(After(s, acts))
      {
        InitInv(s);
        LoneCaller(s, acts);
      }
    } else {
      var unused := Class(seq(NBITS, _ => false), 0, multiset{});
      var s := State(seq(n, _ => Out), seq(NSLAB, _ => unused));
      var acts := TwoAtOnce(s, 0);
    }
  }

  // ------------------------------------------- the entry behind the page table

  /** The next object that `kmalloc` of class `c` takes lies in the page of table entry
      100, one behind the declared table, and the tests let it. */
  ghost predicate NextIsLast(s: State, c: nat)
    requires |s.slabs| == NSLAB && c < NSLAB
  {
    && s.slabs[c].used < Limit(c) && FirstClear(s.slabs[c].bits) < NBITS
    && FirstClear(s.slabs[c].bits) / PerPage(c) + 1 == 100
  }

  /** Some caller gets there, with nobody else about. */
  lemma FillsTable(s: State, c: nat) returns (acts: seq<Action>)
    requires Init(s) && s.procs != [] && 0 < c < NSLAB
    ensures CanRun(s, acts) && |After(s, acts).slabs| == NSLAB && NextIsLast(After(s, acts), c)
  {
    InitInv(s);
    assert forall b :: 0 <= b < NSLAB ==> Unused(s.slabs[b]);
    assert Limit(c) == PerPage(c) * 100;
    acts := Fill(s, c, PerPage(c) * 99);
    var x := After(s, acts).slabs[c];
    assert ClassOk(x, Limit(c));
    PackedTaken(x);
    DivIs(x.used, PerPage(c), 99);
  }

  /** The smallest class has 64 pages only, and its objects never lie in another. */
  lemma SmallestClass(s: State)
    requires |s.slabs| == NSLAB
    ensures !NextIsLast(s, 0)
  {
    var k := FirstClear(s.slabs[0].bits);
    if k < NBITS {
      DivMonotone(k, NBITS - 1, PerPage(0));
    }
  }

  /** Exactly the classes that lie behind the smallest reach the entry behind the
      table. */
  lemma LastEntryExactly(c: nat)
    requires c < NSLAB
    ensures (exists s, acts :: Init(s) && CanRun(s, acts) && |After(s, acts).slabs| == NSLAB && NextIsLast(After(s, acts), c)) <==> c != 0
  {
    if c == 0 {
      forall s, acts | Init(s) && CanRun(s, acts) && |After(s, acts).slabs| == NSLAB ensures !NextIsLast(After(s, acts), c) {
        SmallestClass(After(s, acts));
      }
    } else {
      var unused := Class(seq(NBITS, _ => false), 0, multiset{});
      var s := State([Out], seq(NSLAB, _ => unused));
      var acts := FillsTable(s, c);
      assert Init(s) && CanRun(s, acts) && |After(s, acts).slabs| == NSLAB && NextIsLast(After(s, acts), c);
    }
  }
}
