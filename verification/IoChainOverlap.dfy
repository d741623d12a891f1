/** How much the lock ring lets run at the same time: up to one call less than the
    ring has slots, all in the middle of their work, in any order of return. */
module IoChainOverlap {
  import opened Wrappers
  import opened IoChain
  import opened IoChainSafety
  import opened IoChainRuns

  /** Action `a` is possible and leads from `s` to `s'`. */
  ghost predicate Next(c: Config, s: State, a: Action, s': State) {
    c.ring > 0 && Shape(c, s) && CanDo(c, s, a) && s' == Do(c, s, a)
  }

  lemma NextKeeps(c: Config, s: State, a: Action, s': State)
    requires Inv(c, s) && Next(c, s, a, s')
    ensures Inv(c, s')
  {
    DoKeeps(c, s, a);
  }

  lemma RunFirst(c: Config, s: State, acts: seq<Action>, s': State) returns (m: State)
    requires acts != [] && Run(c, s, acts, s')
    ensures Next(c, s, acts[0], m) && Run(c, m, acts[1..], s')
  {
    m := Do(c, s, acts[0]);
  }

  lemma RunPrepend(c: Config, s: State, a: Action, m: State, acts: seq<Action>, s': State)
    requires Next(c, s, a, m) && Run(c, m, acts, s')
    ensures Run(c, s, [a] + acts, s')
  {
    assert ([a] + acts)[1..] == acts;
  }

  lemma {:induction false} RunsJoin(c: Config, s: State, acts: seq<Action>, m: State, more: seq<Action>, s': State)
    requires Run(c, s, acts, m) && Run(c, m, more, s')
    ensures Run(c, s, acts + more, s')
    decreases |acts|
  {
    if acts == [] {
      assert acts + more == more;
    } else {
      var s1 := RunFirst(c, s, acts, m);
      RunsJoin(c, s1, acts[1..], m, more, s');
      RunPrepend(c, s, acts[0], s1, acts[1..] + more, s');
      FirstAndRest(acts, more);
    }
  }

  lemma FirstAndRest(acts: seq<Action>, more: seq<Action>)
    requires acts != []
    ensures [acts[0]] + (acts[1..] + more) == acts + more
  {
  }

  /** Threads `0 .. k` are each in the middle of a call, all at the same stage `g`,
      and the other threads have not been asked for anything. */
  ghost predicate Level(c: Config, s: State, k: nat, g: nat) {
    && Inv(c, s)
    && |s.calls| == s.dispatched == k
    && (forall i :: 0 <= i < k ==> s.calls[i].stage == g && s.calls[i].owner == i)
    && (forall t :: k <= t < c.threads ==> s.threads[t] == Idle)
  }

  /** One more thread is on its way to the same place. */
  ghost predicate Climbing(c: Config, s: State, k: nat, g: nat, h: nat) {
    Inv(c, s) && Above(c, s, k, g, h)
  }

  ghost predicate Above(c: Config, s: State, k: nat, g: nat, h: nat)
    requires Shape(c, s)
  {
    && |s.calls| == s.dispatched == k + 1
    && (forall i :: 0 <= i < k ==> s.calls[i].stage == g && s.calls[i].owner == i)
    && s.calls[k].stage == h && s.calls[k].owner == k
    && (forall t :: k < t < c.threads ==> s.threads[t] == Idle)
  }

  /** The stages at which several calls can be at once: before the output pointer is
      claimed, and after it has been passed on. */
  predicate Meeting(g: nat) {
    g == FREED_IN || g == FREED_NEXT
  }

  /** A lock is free for the latest call if no call can hold it. */
  lemma ClimberFindsFree(n: nat, calls: seq<Call>, locks: seq<Option<nat>>, i: nat,
                         h0: nat, h1: nat, x0: nat, x1: nat)
    requires n > 0 && |locks| == n && Locks(n, calls, locks, h0, h1, x0, x1) && i < n
    requires forall m: nat :: m < |calls| ==> !Holds(n, m, calls[m].stage, i, h0, h1, x0, x1)
    ensures locks[i] == None
  {
    if locks[i].Some? {
      LocksAgree(n, calls, locks, i, locks[i].value, h0, h1, x0, x1);
    }
  }

  /** Fewer calls than slots do not meet in a slot. */
  lemma SlotsDiffer(n: nat, a: nat, b: nat)
    requires 0 < n && a < b < a + n
    ensures Slot(n, a) != Slot(n, b)
  {
    if Slot(n, a) == Slot(n, b) { SlotGap(n, a, b); }
  }

  lemma InThisFree(c: Config, s: State, k: nat, g: nat)
    requires Climbing(c, s, k, g, NUMBERED) && Meeting(g) && k + 1 < c.ring
    ensures s.inLock[Slot(c.ring, k)] == None
  {
    forall m: nat | m < |s.calls|
      ensures !Holds(c.ring, m, s.calls[m].stage, Slot(c.ring, k), IN_THIS, FREED_THIS, IN_NEXT, FREED_IN)
    {
      if m < k { SlotsDiffer(c.ring, m, k); }
    }
    ClimberFindsFree(c.ring, s.calls, s.inLock, Slot(c.ring, k), IN_THIS, FREED_THIS, IN_NEXT, FREED_IN);
  }

  lemma InNextFree(c: Config, s: State, k: nat, g: nat)
    requires Climbing(c, s, k, g, IN_THIS) && Meeting(g) && k + 1 < c.ring
    ensures s.inLock[Slot(c.ring, k + 1)] == None
  {
    forall m: nat | m < |s.calls|
      ensures !Holds(c.ring, m, s.calls[m].stage, Slot(c.ring, k + 1), IN_THIS, FREED_THIS, IN_NEXT, FREED_IN)
    {
      SlotsDiffer(c.ring, m, k + 1);
    }
    ClimberFindsFree(c.ring, s.calls, s.inLock, Slot(c.ring, k + 1), IN_THIS, FREED_THIS, IN_NEXT, FREED_IN);
  }

  lemma OutNextFree(c: Config, s: State, k: nat, g: nat)
    requires Climbing(c, s, k, g, IN_NEXT) && Meeting(g) && k + 1 < c.ring
    ensures s.outLock[Slot(c.ring, k + 1)] == None
  {
    forall m: nat | m < |s.calls|
      ensures !Holds(c.ring, m, s.calls[m].stage, Slot(c.ring, k + 1), OUT_THIS, FREED_OUT, OUT_NEXT, FREED_NEXT)
    {
      SlotsDiffer(c.ring, m, k + 1);
      if m < k { SlotsDiffer(c.ring, m + 1, k + 1); }
    }
    ClimberFindsFree(c.ring, s.calls, s.outLock, Slot(c.ring, k + 1), OUT_THIS, FREED_OUT, OUT_NEXT, FREED_NEXT);
  }

  lemma OutThisFree(c: Config, s: State, k: nat)
    requires Climbing(c, s, k, FREED_NEXT, FREED_IN) && k + 1 < c.ring
    ensures s.outLock[Slot(c.ring, k)] == None
  {
    forall m: nat | m < |s.calls|
      ensures !Holds(c.ring, m, s.calls[m].stage, Slot(c.ring, k), OUT_THIS, FREED_OUT, OUT_NEXT, FREED_NEXT)
    {
      if m == k { SlotNext(c.ring, k); }
    }
    ClimberFindsFree(c.ring, s.calls, s.outLock, Slot(c.ring, k), OUT_THIS, FREED_OUT, OUT_NEXT, FREED_NEXT);
  }

  lemma ClimberIsEnabled(c: Config, s: State, k: nat, g: nat, h: nat)
    requires Climbing(c, s, k, g, h) && Meeting(g) && h < g && k + 1 < c.ring
    ensures Enabled(c, s, k)
  {
    if h == NUMBERED {
      InThisFree(c, s, k, g);
    } else if h == IN_THIS {
      InNextFree(c, s, k, g);
    } else if h == IN_NEXT {
      OutNextFree(c, s, k, g);
    } else if h == FREED_IN {
      OutThisFree(c, s, k);
    }
  }

  /** What a step of call `k` does to the stages. */
  ghost predicate Moved(s: State, s': State, k: nat) {
    && k < |s.calls| == |s'.calls| && s'.dispatched == s.dispatched
    && s'.calls[k].stage == s.calls[k].stage + 1 && s'.calls[k].owner == s.calls[k].owner
    && (forall m :: 0 <= m < |s.calls| && m != k ==> s'.calls[m] == s.calls[m])
    && (s.calls[k].stage < FREED_THIS ==> s'.threads == s.threads)
  }

  lemma StepMoves(c: Config, s: State, k: nat)
    requires c.ring > 0 && Shape(c, s) && k < |s.calls| && s.calls[k].owner < |s.threads|
    ensures Moved(s, Step(c, s, k), k)
  {
  }

  lemma OwnerCanDo(c: Config, s: State, k: nat)
    requires c.ring > 0 && Shape(c, s) && Owners(s) && k < |s.calls| && Enabled(c, s, k)
    ensures Next(c, s, Advance(s.calls[k].owner), Step(c, s, k))
  {
    assert s.threads[s.calls[k].owner] == Running(k);
  }

  lemma EnabledSteps(c: Config, s: State, k: nat) returns (s': State)
    requires Inv(c, s) && k < |s.calls| && Enabled(c, s, k)
    ensures Inv(c, s') && Next(c, s, Advance(s.calls[k].owner), s') && Moved(s, s', k)
  {
    OwnerCanDo(c, s, k);
    StepMoves(c, s, k);
    s' := Step(c, s, k);
    NextKeeps(c, s, Advance(s.calls[k].owner), s');
  }

  lemma ClimberSteps(c: Config, s: State, k: nat, g: nat, h: nat) returns (s': State)
    requires Climbing(c, s, k, g, h) && Meeting(g) && h < g && k + 1 < c.ring
    ensures Next(c, s, Advance(k), s') && Climbing(c, s', k, g, h + 1)
  {
    ClimberIsEnabled(c, s, k, g, h);
    s' := EnabledSteps(c, s, k);
  }

  lemma {:induction false} Climb(c: Config, s: State, k: nat, g: nat, h: nat) returns (acts: seq<Action>, s': State)
    requires Climbing(c, s, k, g, h) && Meeting(g) && h <= g && k + 1 < c.ring
    ensures Run(c, s, acts, s') && Level(c, s', k + 1, g)
    decreases g - h
  {
    if h == g {
      acts, s' := [], s;
    } else {
      var s1 := ClimberSteps(c, s, k, g, h);
      var rest, s2 := Climb(c, s1, k, g, h + 1);
      RunPrepend(c, s, Advance(k), s1, rest, s2);
      acts, s' := [Advance(k)] + rest, s2;
    }
  }

  ghost predicate Joined(c: Config, s: State, k: nat, g: nat) {
    Inv(c, s) && Below(c, s, k, g)
  }

  ghost predicate Below(c: Config, s: State, k: nat, g: nat)
    requires Shape(c, s)
  {
    && |s.calls| == s.dispatched - 1 == k
    && (forall i :: 0 <= i < k ==> s.calls[i].stage == g && s.calls[i].owner == i)
    && k < c.threads && s.threads[k].Calling?
    && (forall t :: k < t < c.threads ==> s.threads[t] == Idle)
  }

  /** An idle thread is handed a block while the others are at work .. */
  lemma Joins(c: Config, s: State, k: nat, g: nat) returns (s': State)
    requires Level(c, s, k, g) && Meeting(g) && k < c.threads && k < c.parallel
    ensures Next(c, s, Dispatch(k), s') && Joined(c, s', k, g)
  {
    s' := Do(c, s, Dispatch(k));
    NextKeeps(c, s, Dispatch(k), s');
  }

  /** What drawing a number does to the calls. */
  ghost predicate Drawn(s: State, s': State, t: nat) {
    && |s'.calls| == |s.calls| + 1 && s'.dispatched == s.dispatched
    && s'.calls[|s.calls|].stage == NUMBERED && s'.calls[|s.calls|].owner == t
    && (forall m :: 0 <= m < |s.calls| ==> s'.calls[m] == s.calls[m])
    && |s'.threads| == |s.threads|
    && (forall u :: 0 <= u < |s.threads| && u != t ==> s'.threads[u] == s.threads[u])
  }

  lemma NumberDraws(c: Config, s: State, t: nat)
    requires c.ring > 0 && Shape(c, s) && CanDo(c, s, Number(t))
    ensures Drawn(s, Do(c, s, Number(t)), t)
  {
  }

  lemma EntryIsFree(c: Config, s: State, k: nat, g: nat)
    requires Joined(c, s, k, g) && Meeting(g)
    ensures CanDo(c, s, Number(k))
  {
    assert s.calls != [] ==> s.calls[|s.calls| - 1].stage == g;
  }

  lemma NumberSteps(c: Config, s: State, t: nat) returns (s': State)
    requires Inv(c, s) && CanDo(c, s, Number(t))
    ensures Inv(c, s') && Next(c, s, Number(t), s') && Drawn(s, s', t)
  {
    NumberDraws(c, s, t);
    s' := Do(c, s, Number(t));
    NextKeeps(c, s, Number(t), s');
  }

  lemma DrawnIsAbove(c: Config, s: State, s': State, k: nat, g: nat)
    requires Shape(c, s) && Shape(c, s') && Below(c, s, k, g) && Drawn(s, s', k)
    ensures Above(c, s', k, g, NUMBERED)
  {
  }

  /** .. and draws a number. */
  lemma DrawsNumber(c: Config, s: State, k: nat, g: nat) returns (s': State)
    requires Joined(c, s, k, g) && Meeting(g)
    ensures Next(c, s, Number(k), s') && Climbing(c, s', k, g, NUMBERED)
  {
    EntryIsFree(c, s, k, g);
    s' := NumberSteps(c, s, k);
    DrawnIsAbove(c, s, s', k, g);
  }

  lemma {:induction false} Gather(c: Config, s: State, k: nat, n: nat, g: nat)
    returns (acts: seq<Action>, s': State)
    requires Level(c, s, k, g) && Meeting(g) && k <= n <= c.threads && n <= c.parallel && n < c.ring
    ensures Run(c, s, acts, s') && Level(c, s', n, g)
    decreases n - k
  {
    if k == n {
      acts, s' := [], s;
    } else {
      var s1 := Joins(c, s, k, g);
      var s2 := DrawsNumber(c, s1, k, g);
      var climb, s3 := Climb(c, s2, k, g, NUMBERED);
      var rest, s4 := Gather(c, s3, k + 1, n, g);
      RunsJoin(c, s2, climb, s3, rest, s4);
      RunPrepend(c, s1, Number(k), s2, climb + rest, s4);
      RunPrepend(c, s, Dispatch(k), s1, [Number(k)] + (climb + rest), s4);
      acts, s' := [Dispatch(k)] + ([Number(k)] + (climb + rest)), s4;
    }
  }

  /** Calls really overlap: as many threads as there are, as long as they are fewer
      than the slots of the ring, can all be between their two locked sections, the
      place where a block is compressed, at the same time. */
  lemma OverlapReachable(c: Config, s0: State, n: nat) returns (acts: seq<Action>, s: State)
    requires c.Valid() && Init(c, s0) && n <= c.threads && n <= c.parallel && n <= c.ring - 1
    ensures Run(c, s0, acts, s) && |s.calls| == n
    ensures forall k :: 0 <= k < n ==> s.calls[k].owner == k && s.calls[k].stage == FREED_IN
    ensures ENTERED < FREED_IN < RETURNED
  {
    InitKeeps(c, s0);
    acts, s := Gather(c, s0, 0, n, FREED_IN);
  }

  /** Call `m` is at stage `h`, the others at the stage where the output is passed on. */
  ghost predicate Leaving(c: Config, s: State, n: nat, m: nat, h: nat) {
    && Inv(c, s)
    && m < |s.calls| == n
    && (forall k :: 0 <= k < n ==> s.calls[k].stage == if k == m then h else FREED_NEXT)
  }

  lemma LeaverSteps(c: Config, s: State, n: nat, m: nat, h: nat) returns (t: nat, s': State)
    requires Leaving(c, s, n, m, h) && FREED_NEXT <= h < RETURNED
    ensures Next(c, s, Advance(t), s') && Leaving(c, s', n, m, h + 1)
  {
    t := s.calls[m].owner;
    s' := EnabledSteps(c, s, m);
  }

  lemma {:induction false} Leave(c: Config, s: State, n: nat, m: nat, h: nat) returns (acts: seq<Action>, s': State)
    requires Leaving(c, s, n, m, h) && FREED_NEXT <= h <= RETURNED
    ensures Run(c, s, acts, s') && Leaving(c, s', n, m, RETURNED)
    decreases RETURNED - h
  {
    if h == RETURNED {
      acts, s' := [], s;
    } else {
      var t, s1 := LeaverSteps(c, s, n, m, h);
      var rest, s2 := Leave(c, s1, n, m, h + 1);
      RunPrepend(c, s, Advance(t), s1, rest, s2);
      acts, s' := [Advance(t)] + rest, s2;
    }
  }

  /** Calls write their bytes and return in any order: each of the overlapping calls
      can be the first. */
  lemma AnyCallReturnsFirst(c: Config, s0: State, n: nat, m: nat) returns (acts: seq<Action>, s: State)
    requires c.Valid() && Init(c, s0) && m < n <= c.threads && n <= c.parallel && n <= c.ring - 1
    ensures Run(c, s0, acts, s) && |s.calls| == n
    ensures forall k :: 0 <= k < n ==> (s.calls[k].stage == RETURNED <==> k == m)
  {
    InitKeeps(c, s0);
    var gather, s1 := Gather(c, s0, 0, n, FREED_NEXT);
    var leave, s2 := Leave(c, s1, n, m, FREED_NEXT);
    RunsJoin(c, s0, gather, s1, leave, s2);
    acts, s := gather + leave, s2;
  }

  /** Threads `0 .. k` have been handed a block and wait at the entry. */
  ghost predicate AtEntry(c: Config, s: State, k: nat) {
    && c.ring > 0 && Shape(c, s) && s.calls == [] && s.dispatched == k <= c.threads && s.nextLock == None
    && (forall t :: 0 <= t < k ==> s.threads[t].Calling?)
    && (forall t :: k <= t < c.threads ==> s.threads[t] == Idle)
  }

  lemma {:induction false} Assemble(c: Config, s: State, k: nat, n: nat) returns (acts: seq<Action>, s': State)
    requires c.Valid() && AtEntry(c, s, k) && k <= n <= c.threads && n <= c.parallel
    ensures Run(c, s, acts, s') && AtEntry(c, s', n)
    decreases n - k
  {
    if k == n {
      acts, s' := [], s;
    } else {
      var s1 := Do(c, s, Dispatch(k));
      var rest, s2 := Assemble(c, s1, k + 1, n);
      RunPrepend(c, s, Dispatch(k), s1, rest, s2);
      acts, s' := [Dispatch(k)] + rest, s2;
    }
  }

  /** Threads are handed blocks without waiting for each other, and any of them may be the one
      that draws the first number. */
  lemma AnyThreadEntersFirst(c: Config, s0: State, n: nat) returns (acts: seq<Action>, s: State)
    requires c.Valid() && Init(c, s0) && n <= c.threads && n <= c.parallel
    ensures Run(c, s0, acts, s) && c.ring > 0 && Shape(c, s) && s.dispatched == n
    ensures forall t :: 0 <= t < n ==> CanDo(c, s, Number(t))
  {
    acts, s := Assemble(c, s0, 0, n);
  }

  /** The ring admits no more than that: calls that are inside at the same time are
      less than `ring - 1` numbers apart. */
  lemma OverlapIsBounded(c: Config, s0: State, acts: seq<Action>, s: State, j: nat, k: nat)
    requires c.Valid() && Init(c, s0) && Run(c, s0, acts, s) && j < k < |s.calls|
    requires s.calls[j].stage < FREED_THIS && s.calls[k].stage >= ENTERED
    ensures k - j < c.ring - 1
  {
    InitKeeps(c, s0);
    RunKeeps(c, s0, acts, s);
  }
}
