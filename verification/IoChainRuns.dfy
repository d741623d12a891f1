/** Whole runs of the lock ring: every interleaving ends, and it ends with the
    bytes and the count of the serial run. */
module IoChainRuns {
  import opened Wrappers
  import opened IoChain
  import opened IoChainSafety

  lemma InitKeeps(c: Config, s: State)
    requires c.Valid() && Init(c, s)
    ensures Inv(c, s)
  {
    WaitingNone(s.threads);
  }

  lemma DoKeeps(c: Config, s: State, a: Action)
    requires Inv(c, s) && CanDo(c, s, a)
    ensures Inv(c, Do(c, s, a))
  {
    match a
    case Dispatch(t) => DispatchKeeps(c, s, t);
    case Number(t) => NumberKeeps(c, s, t);
    case Advance(t) => AdvanceKeeps(c, s, t);
  }

  /** The actions `acts`, each possible when its turn comes, lead from `s` to `s'`. */
  ghost predicate Run(c: Config, s: State, acts: seq<Action>, s': State)
    decreases |acts|
  {
    if acts == [] then s' == s
    else c.ring > 0 && Shape(c, s) && CanDo(c, s, acts[0]) && Run(c, Do(c, s, acts[0]), acts[1..], s')
  }

  lemma {:induction false} RunKeeps(c: Config, s: State, acts: seq<Action>, s': State)
    requires Inv(c, s) && Run(c, s, acts, s')
    ensures Inv(c, s')
    decreases |acts|
  {
    if acts != [] {
      DoKeeps(c, s, acts[0]);
      RunKeeps(c, Do(c, s, acts[0]), acts[1..], s');
    }
  }

  // ---- Safety ----

  lemma RegionsDisjoint(c: Config, s: State, j: nat, k: nat)
    requires Shape(c, s) && Locals(c, s)
    requires j < k < |s.calls| && s.calls[j].stage >= READ_OUT && s.calls[k].stage >= READ_OUT
    ensures s.calls[j].outp + |c.work(s.calls[j].job, s.calls[j].inp).produced| <= s.calls[k].outp
  {
    OutGrows(c, j + 1, k);
    assert OutAt(c, j + 1) == OutAt(c, j) + |EffectAt(c, j).produced|;
  }

  /** In every reachable state every call works with the pointers that its
      predecessor set, which are those of the serial run, and no two calls write
      to the same place. */
  lemma CallsSeeSerialPointers(c: Config, s0: State, acts: seq<Action>, s: State)
    requires c.Valid() && Init(c, s0) && Run(c, s0, acts, s)
    ensures Shape(c, s) && Locals(c, s)
    ensures forall j, k :: 0 <= j < k < |s.calls| && s.calls[j].stage >= READ_OUT && s.calls[k].stage >= READ_OUT ==>
              s.calls[j].outp + |c.work(s.calls[j].job, s.calls[j].inp).produced| <= s.calls[k].outp
  {
    InitKeeps(c, s0);
    RunKeeps(c, s0, acts, s);
    forall j, k | 0 <= j < k < |s.calls| && s.calls[j].stage >= READ_OUT && s.calls[k].stage >= READ_OUT
      ensures s.calls[j].outp + |c.work(s.calls[j].job, s.calls[j].inp).produced| <= s.calls[k].outp
    {
      RegionsDisjoint(c, s, j, k);
    }
  }

  lemma {:induction false} SerialBytes(c: Config, n: nat, k: nat, p: nat)
    requires k < n <= |c.jobs| && OutAt(c, k) <= p < OutAt(c, k + 1)
    ensures |SerialOutput(c, n)| == OutAt(c, n) - c.out0 && c.out0 <= p < OutAt(c, n)
    ensures SerialOutput(c, n)[p - c.out0] == EffectAt(c, k).produced[p - OutAt(c, k)]
    decreases n
  {
    SerialLength(c, n);
    SerialLength(c, n - 1);
    OutGrows(c, 0, k);
    OutGrows(c, k + 1, n);
    if k < n - 1 {
      SerialBytes(c, n - 1, k, p);
    }
  }

  lemma SerialLength(c: Config, n: nat)
    requires n <= |c.jobs|
    ensures |SerialOutput(c, n)| == OutAt(c, n) - c.out0
  {
  }

  /** Which serial call writes the byte at `p`. */
  lemma FindCall(c: Config, n: nat, p: nat) returns (k: nat)
    requires n <= |c.jobs| && c.out0 <= p < OutAt(c, n)
    ensures k < n && OutAt(c, k) <= p < OutAt(c, k + 1)
  {
    if p >= OutAt(c, n - 1) { k := n - 1; } else { k := FindCall(c, n - 1, p); }
  }

  lemma AllReturned(c: Config, calls: seq<Call>, n: nat)
    requires n <= |calls| <= |c.jobs|
    requires forall k :: 0 <= k < |calls| ==> calls[k].stage == RETURNED
    ensures Returned(c, calls, n) == CountAt(c, n)
  {
  }

  /** A buffer that holds `bytes` from `at` on and nothing else. */
  ghost predicate HoldsExactly(mem: map<nat, bv8>, at: nat, bytes: seq<bv8>) {
    && (forall p :: p in mem <==> at <= p < at + |bytes|)
    && (forall p :: p in mem ==> mem[p] == bytes[p - at])
  }

  lemma FinishedCalls(c: Config, s: State)
    requires Control(c, s) && Finished(c, s)
    ensures |s.calls| == |c.jobs|
    ensures forall k :: 0 <= k < |s.calls| ==> s.calls[k].stage == RETURNED
  {
    WaitingNone(s.threads);
  }

  lemma ReturnedMemory(c: Config, s: State)
    requires Shape(c, s) && Memory(c, s) && |s.calls| == |c.jobs|
    requires forall k :: 0 <= k < |s.calls| ==> s.calls[k].stage == RETURNED
    ensures HoldsExactly(s.mem, c.out0, SerialOutput(c, |c.jobs|))
    ensures s.count == CountAt(c, |c.jobs|)
  {
    AllReturned(c, s.calls, |s.calls|);
    SerialLength(c, |c.jobs|);
    forall p | c.out0 <= p < OutAt(c, |c.jobs|)
      ensures p in s.mem && s.mem[p] == SerialOutput(c, |c.jobs|)[p - c.out0]
    {
      var k := FindCall(c, |c.jobs|, p);
      SerialBytes(c, |c.jobs|, k, p);
      assert ByteInPlace(c, s.calls, s.mem, k, p);
    }
  }

  /** Whatever the number of threads and the interleaving, a run that has finished
      leaves the output and returns the count of the serial run. */
  lemma FinishedEqualsSerial(c: Config, s0: State, acts: seq<Action>, s: State)
    requires c.Valid() && Init(c, s0) && Run(c, s0, acts, s) && Finished(c, s)
    ensures HoldsExactly(s.mem, c.out0, SerialOutput(c, |c.jobs|))
    ensures s.count == CountAt(c, |c.jobs|)
  {
    InitKeeps(c, s0);
    RunKeeps(c, s0, acts, s);
    FinishedCalls(c, s);
    ReturnedMemory(c, s);
  }

  // ---- Progress ----

  lemma OldestCall(calls: seq<Call>, k: nat) returns (m: nat)
    requires k < |calls| && calls[k].stage < RETURNED
    requires forall j :: 0 <= j < |calls| ==> calls[j].stage <= RETURNED
    ensures m < |calls| && calls[m].stage < RETURNED
    ensures forall j :: 0 <= j < m ==> calls[j].stage == RETURNED
  {
    if j :| 0 <= j < k && calls[j].stage < RETURNED {
      m := OldestCall(calls, j);
    } else {
      m := k;
    }
  }

  /** When only the latest call is left, a lock it does not hold is free. */
  lemma LatestFindsFree(n: nat, calls: seq<Call>, locks: seq<Option<nat>>, i: nat, h0: nat, h1: nat, x0: nat, x1: nat)
    requires n > 0 && |locks| == n && Locks(n, calls, locks, h0, h1, x0, x1) && i < n
    requires h1 <= RETURNED && x1 <= RETURNED && calls != []
    requires forall j :: 0 <= j < |calls| - 1 ==> calls[j].stage == RETURNED
    requires var m := |calls| - 1;
             !(h0 <= calls[m].stage < h1 && i == Slot(n, m)) && !(x0 <= calls[m].stage < x1 && i == Slot(n, m + 1))
    ensures locks[i] == None
  {
  }

  /** Nobody can hold the output slot of the oldest call: its predecessor has
      returned and later calls of that slot wait for the oldest one. */
  lemma OldestFindsOut(c: Config, s: State, m: nat)
    requires c.Valid() && Shape(c, s) && OutLocks(c, s) && Window(c, s)
    requires m < |s.calls| && s.calls[m].stage == FREED_IN
    requires forall j :: 0 <= j < m ==> s.calls[j].stage == RETURNED
    ensures s.outLock[Slot(c.ring, m)] == None
  {
    var lock := s.outLock[Slot(c.ring, m)];
    if lock.Some? {
      OutHolder(c, s, m, lock.value);
      assert false;
    }
  }

  lemma OutHolder(c: Config, s: State, m: nat, v: nat)
    requires c.Valid() && Shape(c, s) && OutLocks(c, s) && m < |s.calls| && s.calls[m].stage == FREED_IN
    requires s.outLock[Slot(c.ring, m)] == Some(v)
    ensures v < |s.calls| && OUT_NEXT <= s.calls[v].stage < FREED_NEXT
    ensures v > m ==> m + c.ring <= v + 1
    ensures v != m
  {
    SlotNext(c.ring, m);
    if v > m {
      SlotGap(c.ring, m, if Slot(c.ring, v) == Slot(c.ring, m) then v else v + 1);
    }
  }

  lemma OldestEnters(c: Config, s: State)
    requires c.Valid() && Shape(c, s) && InLocks(c, s) && OutLocks(c, s) && s.calls != []
    requires forall j :: 0 <= j < |s.calls| - 1 ==> s.calls[j].stage == RETURNED
    requires s.calls[|s.calls| - 1].stage < ENTERED
    ensures Enabled(c, s, |s.calls| - 1)
  {
    var n, m := c.ring, |s.calls| - 1;
    var g := s.calls[m].stage;
    SlotNext(n, m);
    if g == NUMBERED {
      LatestFindsFree(n, s.calls, s.inLock, Slot(n, m), IN_THIS, FREED_THIS, IN_NEXT, FREED_IN);
    } else if g == IN_THIS {
      LatestFindsFree(n, s.calls, s.inLock, Slot(n, m + 1), IN_THIS, FREED_THIS, IN_NEXT, FREED_IN);
    } else if g == IN_NEXT {
      LatestFindsFree(n, s.calls, s.outLock, Slot(n, m + 1), OUT_THIS, FREED_OUT, OUT_NEXT, FREED_NEXT);
    }
  }

  /** The oldest call that has not returned is never blocked. */
  lemma OldestIsEnabled(c: Config, s: State, m: nat)
    requires c.Valid() && Shape(c, s) && Entry(s) && InLocks(c, s) && OutLocks(c, s) && Window(c, s)
    requires m < |s.calls| && s.calls[m].stage < RETURNED
    requires forall j :: 0 <= j < m ==> s.calls[j].stage == RETURNED
    ensures Enabled(c, s, m)
  {
    if s.calls[m].stage < ENTERED {
      assert m == |s.calls| - 1;
      OldestEnters(c, s);
    } else if s.calls[m].stage == FREED_IN {
      OldestFindsOut(c, s, m);
    }
  }

  /** No deadlock: as long as the work is not finished some thread can step. */
  lemma NeverStuck(c: Config, s: State) returns (a: Action)
    requires Inv(c, s) && !Finished(c, s)
    ensures CanDo(c, s, a)
  {
    if k :| 0 <= k < |s.calls| && s.calls[k].stage < RETURNED {
      var m := OldestCall(s.calls, k);
      OldestIsEnabled(c, s, m);
      a := Advance(s.calls[m].owner);
    } else if t :| 0 <= t < |s.threads| && s.threads[t].Calling? {
      a := Number(t);
    } else {
      WaitingNone(s.threads);
      a := Dispatch(0);
    }
  }

  function Remaining(calls: seq<Call>): int {
    if calls == [] then 0
    else Remaining(calls[..|calls| - 1]) + RETURNED - calls[|calls| - 1].stage
  }

  /** The number of steps that are left. */
  function StepsLeft(c: Config, s: State): int {
    16 * (|c.jobs| - s.dispatched) + 15 * Waiting(s.threads) + Remaining(s.calls)
  }

  lemma RemainingUpdate(calls: seq<Call>, k: nat, call: Call)
    requires k < |calls|
    ensures Remaining(calls[k := call]) == Remaining(calls) + calls[k].stage - call.stage
  {
    var n := |calls| - 1;
    if k == n {
      assert calls[k := call][..n] == calls[..n];
    } else {
      assert calls[k := call][..n] == calls[..n][k := call];
      RemainingUpdate(calls[..n], k, call);
    }
  }

  lemma RemainingNonnegative(calls: seq<Call>)
    requires forall k :: 0 <= k < |calls| ==> calls[k].stage <= RETURNED
    ensures Remaining(calls) >= 0
  {
  }

  /** Every action uses up exactly one step. */
  lemma StepsDecrease(c: Config, s: State, a: Action)
    requires c.ring > 0 && Shape(c, s) && Owners(s) && CanDo(c, s, a)
    ensures StepsLeft(c, Do(c, s, a)) == StepsLeft(c, s) - 1
  {
    match a
    case Dispatch(t) => WaitingUpdate(s.threads, t, Calling(c.jobs[s.dispatched]));
    case Number(t) =>
      WaitingUpdate(s.threads, t, Running(|s.calls|));
      var calls' := Do(c, s, a).calls;
      assert calls'[..|s.calls|] == s.calls;
    case Advance(t) =>
      var k := s.threads[t].iter;
      RemainingUpdate(s.calls, k, Step(c, s, k).calls[k]);
      WaitingUpdate(s.threads, t, Idle);
  }

  lemma {:induction false} RunLength(c: Config, s: State, acts: seq<Action>, s': State)
    requires Inv(c, s) && Run(c, s, acts, s')
    ensures StepsLeft(c, s') == StepsLeft(c, s) - |acts|
    decreases |acts|
  {
    if acts != [] {
      StepsDecrease(c, s, acts[0]);
      DoKeeps(c, s, acts[0]);
      RunLength(c, Do(c, s, acts[0]), acts[1..], s');
    }
  }

  lemma NothingLeft(c: Config, s: State)
    requires Inv(c, s)
    ensures StepsLeft(c, s) >= 0
    ensures Finished(c, s) <==> StepsLeft(c, s) == 0
  {
    RemainingNonnegative(s.calls);
    if Finished(c, s) {
      FinishedCalls(c, s);
      WaitingNone(s.threads);
      RemainingZero(s.calls);
    } else {
      var a := NeverStuck(c, s);
      StepsDecrease(c, s, a);
      DoKeeps(c, s, a);
      RemainingNonnegative(Do(c, s, a).calls);
    }
  }

  lemma FinishedStops(c: Config, s: State, a: Action)
    requires c.ring > 0 && Shape(c, s) && Finished(c, s)
    ensures !CanDo(c, s, a)
  {
    if a.t < |s.threads| { assert s.threads[a.t] == Idle; }
  }

  lemma StuckIsFinished(c: Config, s: State)
    requires Inv(c, s)
    ensures (forall a :: !CanDo(c, s, a)) <==> Finished(c, s)
  {
    if Finished(c, s) {
      forall a
        ensures !CanDo(c, s, a)
      {
        FinishedStops(c, s, a);
      }
    } else {
      var a := NeverStuck(c, s);
    }
  }

  /** Every run is finite, and a run that cannot be continued has finished: all
      schedules reach the serial result after 16 steps for each job. */
  lemma EveryScheduleFinishes(c: Config, s0: State, acts: seq<Action>, s: State)
    requires c.Valid() && Init(c, s0) && Run(c, s0, acts, s)
    ensures |acts| <= 16 * |c.jobs|
    ensures Shape(c, s)
    ensures (forall a :: !CanDo(c, s, a)) <==> Finished(c, s)
    ensures Finished(c, s) <==> |acts| == 16 * |c.jobs|
  {
    InitKeeps(c, s0);
    RunKeeps(c, s0, acts, s);
    RunLength(c, s0, acts, s);
    WaitingNone(s0.threads);
    NothingLeft(c, s);
    StuckIsFinished(c, s);
  }

  lemma RemainingZero(calls: seq<Call>)
    requires forall k :: 0 <= k < |calls| ==> calls[k].stage == RETURNED
    ensures Remaining(calls) == 0
  {
  }

  /** A ring of one slot locks the first caller out of its own slot: `2 <= ring` is
      needed, not only sufficient. */
  lemma RingOfOneDeadlocks(c: Config, s0: State)
    requires c.ring == 1 && c.threads == 1 && |c.jobs| > 0 && Init(c, s0)
    ensures exists s :: Run(c, s0, [Dispatch(0), Number(0), Advance(0)], s)
                     && !Finished(c, s) && Shape(c, s) && forall a :: !CanDo(c, s, a)
  {
    var s1 := Do(c, s0, Dispatch(0));
    var s2 := Do(c, s1, Number(0));
    var s3 := Do(c, s2, Advance(0));
    var acts := [Dispatch(0), Number(0), Advance(0)];
    assert acts[1..] == [Number(0), Advance(0)] && acts[1..][1..] == [Advance(0)] && acts[1..][1..][1..] == [];
    assert Run(c, s3, [], s3);
    assert Run(c, s2, [Advance(0)], s3);
    assert Run(c, s1, [Number(0), Advance(0)], s3);
    assert Run(c, s0, acts, s3);
    assert s3.inLock[0] == Some(0);
  }
}
