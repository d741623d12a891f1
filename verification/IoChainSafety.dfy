/** Every step of the lock ring keeps the invariant of `IoChain`. */
module IoChainSafety {
  import opened Arith
  import opened Wrappers
  import opened IoChain

  lemma SlotIsMod(n: nat, k: nat)
    requires n > 0
    ensures Slot(n, k) == k % n
  {
    var q := SlotQuotient(n, k);
    DivModUnique(k, q, Slot(n, k), n);
  }

  lemma SlotQuotient(n: nat, k: nat) returns (q: nat)
    requires n > 0
    ensures k == q * n + Slot(n, k)
  {
    if k < n {
      q := 0;
    } else {
      var q' := SlotQuotient(n, k - n);
      q := q' + 1;
    }
  }

  /** Two numbers of the same slot are a whole ring apart. */
  lemma SlotGap(n: nat, a: nat, b: nat)
    requires n > 0 && a < b && Slot(n, a) == Slot(n, b)
    ensures a + n <= b
  {
    if a >= n { SlotGap(n, a - n, b - n); }
  }

  /** Neighbouring slots differ on a ring of two or more. */
  lemma SlotNext(n: nat, k: nat)
    requires n >= 2
    ensures Slot(n, k) != Slot(n, k + 1)
  {
    if Slot(n, k) == Slot(n, k + 1) { SlotGap(n, k, k + 1); }
  }

  lemma StepOwners(c: Config, s: State, k: nat)
    requires c.ring > 0 && Shape(c, s) && Owners(s) && k < |s.calls| && s.calls[k].owner < |s.threads|
    requires Enabled(c, s, k)
    ensures Owners(Step(c, s, k))
  {
  }

  lemma StepEntry(c: Config, s: State, k: nat)
    requires c.ring > 0 && Shape(c, s) && Entry(s) && k < |s.calls| && s.calls[k].owner < |s.threads|
    requires Enabled(c, s, k)
    ensures Entry(Step(c, s, k))
  {
  }

  /** Whether call `m`, at stage `g`, holds lock `i`. */
  predicate Holds(n: nat, m: nat, g: nat, i: nat, h0: nat, h1: nat, x0: nat, x1: nat)
    requires n > 0
  {
    (h0 <= g < h1 && i == Slot(n, m)) || (x0 <= g < x1 && i == Slot(n, m + 1))
  }

  /** A lock is held by a call exactly when its stage says so. */
  ghost predicate Agrees(n: nat, calls: seq<Call>, lock: Option<nat>, i: nat, m: nat,
                         h0: nat, h1: nat, x0: nat, x1: nat)
    requires n > 0
  {
    lock == Some(m) <==> m < |calls| && Holds(n, m, calls[m].stage, i, h0, h1, x0, x1)
  }

  lemma LocksAgree(n: nat, calls: seq<Call>, locks: seq<Option<nat>>, i: nat, m: nat, h0: nat, h1: nat, x0: nat,
                   x1: nat)
    requires n > 0 && |locks| == n && Locks(n, calls, locks, h0, h1, x0, x1) && i < n
    ensures Agrees(n, calls, locks[i], i, m, h0, h1, x0, x1)
  {
  }

  ghost predicate AllAgree(n: nat, calls: seq<Call>, locks: seq<Option<nat>>, h0: nat, h1: nat, x0: nat, x1: nat)
    requires n > 0 && |locks| == n
  {
    forall i: nat, m: nat :: i < n ==> Agrees(n, calls, locks[i], i, m, h0, h1, x0, x1)
  }

  lemma HolderAgrees(n: nat, calls: seq<Call>, locks: seq<Option<nat>>, k: nat, h0: nat, h1: nat, x0: nat, x1: nat)
    requires n > 0 && |locks| == n && AllAgree(n, calls, locks, h0, h1, x0, x1) && k < |calls|
    ensures h0 <= calls[k].stage < h1 ==> locks[Slot(n, k)] == Some(k)
    ensures x0 <= calls[k].stage < x1 ==> locks[Slot(n, k + 1)] == Some(k)
  {
    assert Agrees(n, calls, locks[Slot(n, k)], Slot(n, k), k, h0, h1, x0, x1);
    assert Agrees(n, calls, locks[Slot(n, k + 1)], Slot(n, k + 1), k, h0, h1, x0, x1);
  }

  lemma AgreeLocks(n: nat, calls: seq<Call>, locks: seq<Option<nat>>, h0: nat, h1: nat, x0: nat, x1: nat)
    requires n > 0 && |locks| == n && AllAgree(n, calls, locks, h0, h1, x0, x1)
    ensures Locks(n, calls, locks, h0, h1, x0, x1)
  {
    forall k | 0 <= k < |calls|
      ensures h0 <= calls[k].stage < h1 ==> locks[Slot(n, k)] == Some(k)
      ensures x0 <= calls[k].stage < x1 ==> locks[Slot(n, k + 1)] == Some(k)
    {
      HolderAgrees(n, calls, locks, k, h0, h1, x0, x1);
    }
    forall i, k: nat {:trigger locks[i], Some(k)} | 0 <= i < n && locks[i] == Some(k)
      ensures k < |calls|
      ensures (h0 <= calls[k].stage < h1 && i == Slot(n, k)) || (x0 <= calls[k].stage < x1 && i == Slot(n, k + 1))
    {
      assert Agrees(n, calls, locks[i], i, k, h0, h1, x0, x1);
    }
  }

  /** A free lock is taken at stage `g`, one of the two stages at which a call takes a lock. */
  lemma TakeSlot(n: nat, calls: seq<Call>, locks: seq<Option<nat>>, k: nat, i: nat, g: nat,
                 h0: nat, h1: nat, x0: nat, x1: nat)
    requires n >= 2 && |locks| == n && Locks(n, calls, locks, h0, h1, x0, x1)
    requires 1 <= h0 < h1 && 1 <= x0 < x1 && h0 != x0 && h0 != x1 && h1 != x0 && h1 != x1
    requires k < |calls| && i < n && locks[i] == None && calls[k].stage == g - 1
    requires (g == h0 && i == Slot(n, k)) || (g == x0 && i == Slot(n, k + 1))
    ensures Locks(n, calls[k := calls[k].(stage := g)], locks[i := Some(k)], h0, h1, x0, x1)
  {
    var calls', locks' := calls[k := calls[k].(stage := g)], locks[i := Some(k)];
    forall j: nat, m: nat | j < n
      ensures Agrees(n, calls', locks'[j], j, m, h0, h1, x0, x1)
    {
      LocksAgree(n, calls, locks, j, m, h0, h1, x0, x1);
      assert locks'[j] == if j == i then Some(k) else locks[j];
      TakenAgrees(n, calls, calls', locks[j], locks'[j], k, i, g, j, m, h0, h1, x0, x1);
    }
    AgreeLocks(n, calls', locks', h0, h1, x0, x1);
  }

  lemma TakenAgrees(n: nat, calls: seq<Call>, calls': seq<Call>, lock: Option<nat>, lock': Option<nat>,
                    k: nat, i: nat, g: nat, j: nat, m: nat, h0: nat, h1: nat, x0: nat, x1: nat)
    requires n >= 2 && 1 <= h0 < h1 && 1 <= x0 < x1 && h0 != x0 && h0 != x1 && h1 != x0 && h1 != x1
    requires k < |calls| && calls[k].stage == g - 1 && calls' == calls[k := calls[k].(stage := g)]
    requires (g == h0 && i == Slot(n, k)) || (g == x0 && i == Slot(n, k + 1))
    requires Agrees(n, calls, lock, j, m, h0, h1, x0, x1)
    requires if j == i then lock == None && lock' == Some(k) else lock' == lock
    ensures Agrees(n, calls', lock', j, m, h0, h1, x0, x1)
  {
    SlotNext(n, k);
    if m == k {
      assert calls'[m].stage == g;
    } else if m < |calls| {
      assert calls'[m] == calls[m];
    }
  }

  /** A lock is released at stage `g`, one of the two stages at which a call releases one. */
  lemma FreeSlot(n: nat, calls: seq<Call>, locks: seq<Option<nat>>, k: nat, i: nat, g: nat,
                 h0: nat, h1: nat, x0: nat, x1: nat)
    requires n >= 2 && |locks| == n && Locks(n, calls, locks, h0, h1, x0, x1)
    requires 1 <= h0 < h1 && 1 <= x0 < x1 && h0 != x0 && h0 != x1 && h1 != x0 && h1 != x1
    requires k < |calls| && i < n && calls[k].stage == g - 1
    requires (g == h1 && i == Slot(n, k)) || (g == x1 && i == Slot(n, k + 1))
    ensures Locks(n, calls[k := calls[k].(stage := g)], locks[i := None], h0, h1, x0, x1)
  {
    var calls', locks' := calls[k := calls[k].(stage := g)], locks[i := None];
    forall j: nat, m: nat | j < n
      ensures Agrees(n, calls', locks'[j], j, m, h0, h1, x0, x1)
    {
      LocksAgree(n, calls, locks, j, m, h0, h1, x0, x1);
      LocksAgree(n, calls, locks, j, k, h0, h1, x0, x1);
      assert locks'[j] == if j == i then None else locks[j];
      FreedAgrees(n, calls, calls', locks[j], locks'[j], k, i, g, j, m, h0, h1, x0, x1);
    }
    AgreeLocks(n, calls', locks', h0, h1, x0, x1);
  }

  lemma FreedAgrees(n: nat, calls: seq<Call>, calls': seq<Call>, lock: Option<nat>, lock': Option<nat>,
                    k: nat, i: nat, g: nat, j: nat, m: nat, h0: nat, h1: nat, x0: nat, x1: nat)
    requires n >= 2 && 1 <= h0 < h1 && 1 <= x0 < x1 && h0 != x0 && h0 != x1 && h1 != x0 && h1 != x1
    requires k < |calls| && calls[k].stage == g - 1 && calls' == calls[k := calls[k].(stage := g)]
    requires (g == h1 && i == Slot(n, k)) || (g == x1 && i == Slot(n, k + 1))
    requires Agrees(n, calls, lock, j, m, h0, h1, x0, x1) && Agrees(n, calls, lock, j, k, h0, h1, x0, x1)
    requires if j == i then lock' == None else lock' == lock
    ensures Agrees(n, calls', lock', j, m, h0, h1, x0, x1)
  {
    SlotNext(n, k);
    if m == k {
      assert calls'[m].stage == g;
    } else if m < |calls| {
      assert calls'[m] == calls[m];
    }
  }

  lemma TakeHere(n: nat, calls: seq<Call>, locks: seq<Option<nat>>, k: nat, h0: nat, h1: nat, x0: nat, x1: nat)
    requires n >= 2 && |locks| == n && Locks(n, calls, locks, h0, h1, x0, x1)
    requires 1 <= h0 < h1 && 1 <= x0 < x1 && h0 != x0 && h0 != x1 && h1 != x0 && h1 != x1
    requires k < |calls|
    requires calls[k].stage == h0 - 1 && locks[Slot(n, k)] == None
    ensures Locks(n, calls[k := calls[k].(stage := h0)], locks[Slot(n, k) := Some(k)], h0, h1, x0, x1)
  {
    TakeSlot(n, calls, locks, k, Slot(n, k), h0, h0, h1, x0, x1);
  }

  lemma TakeNext(n: nat, calls: seq<Call>, locks: seq<Option<nat>>, k: nat, h0: nat, h1: nat, x0: nat, x1: nat)
    requires n >= 2 && |locks| == n && Locks(n, calls, locks, h0, h1, x0, x1)
    requires 1 <= h0 < h1 && 1 <= x0 < x1 && h0 != x0 && h0 != x1 && h1 != x0 && h1 != x1
    requires k < |calls|
    requires calls[k].stage == x0 - 1 && locks[Slot(n, k + 1)] == None
    ensures Locks(n, calls[k := calls[k].(stage := x0)], locks[Slot(n, k + 1) := Some(k)], h0, h1, x0, x1)
  {
    TakeSlot(n, calls, locks, k, Slot(n, k + 1), x0, h0, h1, x0, x1);
  }

  lemma FreeHere(n: nat, calls: seq<Call>, locks: seq<Option<nat>>, k: nat, h0: nat, h1: nat, x0: nat, x1: nat)
    requires n >= 2 && |locks| == n && Locks(n, calls, locks, h0, h1, x0, x1)
    requires 1 <= h0 < h1 && 1 <= x0 < x1 && h0 != x0 && h0 != x1 && h1 != x0 && h1 != x1
    requires k < |calls|
    requires calls[k].stage == h1 - 1
    ensures Locks(n, calls[k := calls[k].(stage := h1)], locks[Slot(n, k) := None], h0, h1, x0, x1)
  {
    FreeSlot(n, calls, locks, k, Slot(n, k), h1, h0, h1, x0, x1);
  }

  lemma FreeNext(n: nat, calls: seq<Call>, locks: seq<Option<nat>>, k: nat, h0: nat, h1: nat, x0: nat, x1: nat)
    requires n >= 2 && |locks| == n && Locks(n, calls, locks, h0, h1, x0, x1)
    requires 1 <= h0 < h1 && 1 <= x0 < x1 && h0 != x0 && h0 != x1 && h1 != x0 && h1 != x1
    requires k < |calls|
    requires calls[k].stage == x1 - 1
    ensures Locks(n, calls[k := calls[k].(stage := x1)], locks[Slot(n, k + 1) := None], h0, h1, x0, x1)
  {
    FreeSlot(n, calls, locks, k, Slot(n, k + 1), x1, h0, h1, x0, x1);
  }

  lemma LeaveLocks(n: nat, calls: seq<Call>, calls': seq<Call>, locks: seq<Option<nat>>, k: nat, h0: nat, h1: nat,
                   x0: nat, x1: nat)
    requires n >= 2 && |locks| == n && Locks(n, calls, locks, h0, h1, x0, x1)
    requires |calls'| == |calls| && k < |calls| && calls'[k].stage == calls[k].stage + 1
    requires calls[k].stage + 1 != h0 && calls[k].stage + 1 != h1 && calls[k].stage + 1 != x0
    requires calls[k].stage + 1 != x1
    requires forall m :: 0 <= m < |calls| && m != k ==> calls'[m] == calls[m]
    ensures Locks(n, calls', locks, h0, h1, x0, x1)
  {
  }

  /** A step that reads no pointer only moves the stage. */
  lemma StageMoves(c: Config, s: State, k: nat)
    requires c.ring > 0 && Shape(c, s) && k < |s.calls| && s.calls[k].owner < |s.threads|
    requires s.calls[k].stage != ENTERED && s.calls[k].stage != OUT_THIS
    ensures Step(c, s, k).calls == s.calls[k := s.calls[k].(stage := s.calls[k].stage + 1)]
  {
  }

  lemma StepInLocks(c: Config, s: State, k: nat)
    requires c.ring >= 2 && Shape(c, s) && InLocks(c, s)
    requires k < |s.calls| && s.calls[k].owner < |s.threads| && Enabled(c, s, k)
    ensures InLocks(c, Step(c, s, k))
  {
    var n, g := c.ring, s.calls[k].stage;
    if g == NUMBERED || g == IN_THIS || g == WROTE_IN || g == FREED_NEXT {
      StageMoves(c, s, k);
      if g == NUMBERED {
        TakeHere(n, s.calls, s.inLock, k, IN_THIS, FREED_THIS, IN_NEXT, FREED_IN);
      } else if g == IN_THIS {
        TakeNext(n, s.calls, s.inLock, k, IN_THIS, FREED_THIS, IN_NEXT, FREED_IN);
      } else if g == WROTE_IN {
        FreeNext(n, s.calls, s.inLock, k, IN_THIS, FREED_THIS, IN_NEXT, FREED_IN);
      } else {
        FreeHere(n, s.calls, s.inLock, k, IN_THIS, FREED_THIS, IN_NEXT, FREED_IN);
      }
    } else {
      StageGrows(c, s, k);
      LeaveLocks(n, s.calls, Step(c, s, k).calls, s.inLock, k, IN_THIS, FREED_THIS, IN_NEXT, FREED_IN);
    }
  }

  lemma StepOutLocks(c: Config, s: State, k: nat)
    requires c.ring >= 2 && Shape(c, s) && OutLocks(c, s)
    requires k < |s.calls| && s.calls[k].owner < |s.threads| && Enabled(c, s, k)
    ensures OutLocks(c, Step(c, s, k))
  {
    var n, g := c.ring, s.calls[k].stage;
    if g == FREED_IN || g == IN_NEXT || g == WROTE_OUT || g == READ_OUT {
      StageMoves(c, s, k);
      if g == FREED_IN {
        TakeHere(n, s.calls, s.outLock, k, OUT_THIS, FREED_OUT, OUT_NEXT, FREED_NEXT);
      } else if g == IN_NEXT {
        TakeNext(n, s.calls, s.outLock, k, OUT_THIS, FREED_OUT, OUT_NEXT, FREED_NEXT);
      } else if g == WROTE_OUT {
        FreeNext(n, s.calls, s.outLock, k, OUT_THIS, FREED_OUT, OUT_NEXT, FREED_NEXT);
      } else {
        FreeHere(n, s.calls, s.outLock, k, OUT_THIS, FREED_OUT, OUT_NEXT, FREED_NEXT);
      }
    } else {
      StageGrows(c, s, k);
      LeaveLocks(n, s.calls, Step(c, s, k).calls, s.outLock, k, OUT_THIS, FREED_OUT, OUT_NEXT, FREED_NEXT);
    }
  }

  /** Taking the lock of the next slot means that the call a ring earlier is done. */
  lemma TakenNextIsFree(c: Config, s: State, k: nat)
    requires c.ring >= 2 && Shape(c, s) && Entry(s) && InLocks(c, s)
    requires k < |s.calls| && Enabled(c, s, k) && s.calls[k].stage == IN_THIS && c.ring <= k + 1
    ensures s.calls[k + 1 - c.ring].stage >= FREED_THIS
  {
    assert Slot(c.ring, k + 1) == Slot(c.ring, k + 1 - c.ring);
  }

  lemma StageGrows(c: Config, s: State, k: nat)
    requires c.ring > 0 && Shape(c, s) && k < |s.calls| && s.calls[k].owner < |s.threads|
    ensures |Step(c, s, k).calls| == |s.calls| && Step(c, s, k).calls[k].stage == s.calls[k].stage + 1
    ensures forall m :: 0 <= m < |s.calls| && m != k ==> Step(c, s, k).calls[m] == s.calls[m]
  {
  }

  lemma StepWindow(c: Config, s: State, k: nat)
    requires c.ring >= 2 && Shape(c, s) && Entry(s) && InLocks(c, s) && Window(c, s)
    requires k < |s.calls| && s.calls[k].owner < |s.threads| && Enabled(c, s, k)
    ensures Window(c, Step(c, s, k))
  {
    if s.calls[k].stage == IN_THIS && c.ring <= k + 1 {
      TakenNextIsFree(c, s, k);
    }
    StageGrows(c, s, k);
    assert k > 0 ==> s.calls[k - 1].stage >= ENTERED;
    WindowKept(c, s.calls, Step(c, s, k).calls, k);
  }

  lemma WindowKept(c: Config, calls: seq<Call>, calls': seq<Call>, k: nat)
    requires k < |calls| == |calls'| && c.ring >= 2
    requires forall m :: 0 <= m < |calls| && m != k ==> calls'[m].stage == calls[m].stage
    requires calls'[k].stage == calls[k].stage + 1
    requires forall j, m :: 0 <= j < |calls| && 0 <= m < |calls| && calls[m].stage >= IN_NEXT && j + c.ring <= m + 1 ==>
               calls[j].stage >= FREED_THIS
    requires calls[k].stage == IN_THIS && c.ring <= k + 1 ==> calls[k + 1 - c.ring].stage >= FREED_THIS
    requires k > 0 ==> calls[k - 1].stage >= ENTERED
    ensures forall j, m :: 0 <= j < |calls| && 0 <= m < |calls| && calls'[m].stage >= IN_NEXT && j + c.ring <= m + 1 ==>
              calls'[j].stage >= FREED_THIS
  {
  }

  /** A pointer a call reads is the one its predecessor left: the predecessor no
      longer holds the lock of the slot. */
  lemma StepLocals(c: Config, s: State, k: nat)
    requires c.Valid() && Shape(c, s) && Entry(s) && InLocks(c, s) && OutLocks(c, s) && Pointers(c, s) && Locals(c, s)
    requires k < |s.calls| && s.calls[k].owner < |s.threads| && Enabled(c, s, k)
    ensures Locals(c, Step(c, s, k))
  {
    var g := s.calls[k].stage;
    if g == ENTERED {
      assert s.inLock[Slot(c.ring, k)] == Some(k);
      assert InFilled(s.calls, k);
    } else if g == OUT_THIS {
      assert s.outLock[Slot(c.ring, k)] == Some(k);
      assert OutFilled(s.calls, k);
    }
  }

  /** Writing the next slot overwrites no pointer that is still to be read. */
  lemma SlotIsFree(c: Config, s: State, k: nat, j: nat)
    requires c.Valid() && Shape(c, s) && Window(c, s) && k < |s.calls| && IN_NEXT <= s.calls[k].stage < FREED_THIS
    requires j <= |s.calls| && j != k + 1 && Slot(c.ring, j) == Slot(c.ring, k + 1)
    ensures !InFilled(s.calls, j) && !OutFilled(s.calls, j)
  {
    if j < k + 1 {
      SlotGap(c.ring, j, k + 1);
    } else {
      SlotGap(c.ring, k + 1, j);
    }
  }

  lemma StepInPointer(c: Config, s: State, k: nat, j: nat)
    requires c.Valid() && Shape(c, s) && Window(c, s)
    requires k < |s.calls| && s.calls[k].owner < |s.threads| && Enabled(c, s, k)
    requires s.calls[k].stage == READ_IN ==> s.calls[k].job == c.jobs[k] && s.calls[k].inp == InAt(c, k)
    requires j <= |s.calls| && InFilled(Step(c, s, k).calls, j)
    requires InFilled(s.calls, j) ==> s.inPtr[Slot(c.ring, j)] == InAt(c, j)
    ensures Step(c, s, k).inPtr[Slot(c.ring, j)] == InAt(c, j)
  {
    if s.calls[k].stage == READ_IN && j == k + 1 {
      assert InAt(c, j) == InAt(c, k) + EffectAt(c, k).consumed;
    } else {
      assert InFilled(s.calls, j);
      if s.calls[k].stage == READ_IN && Slot(c.ring, j) == Slot(c.ring, k + 1) {
        SlotIsFree(c, s, k, j);
        assert false;
      }
    }
  }

  lemma StepOutPointer(c: Config, s: State, k: nat, j: nat)
    requires c.Valid() && Shape(c, s) && Window(c, s)
    requires k < |s.calls| && s.calls[k].owner < |s.threads| && Enabled(c, s, k)
    requires s.calls[k].stage == FREED_OUT ==>
               s.calls[k].job == c.jobs[k] && s.calls[k].inp == InAt(c, k) && s.calls[k].outp == OutAt(c, k)
    requires j <= |s.calls| && OutFilled(Step(c, s, k).calls, j)
    requires OutFilled(s.calls, j) ==> s.outPtr[Slot(c.ring, j)] == OutAt(c, j)
    ensures Step(c, s, k).outPtr[Slot(c.ring, j)] == OutAt(c, j)
  {
    if s.calls[k].stage == FREED_OUT && j == k + 1 {
      assert OutAt(c, j) == OutAt(c, k) + |EffectAt(c, k).produced|;
    } else {
      assert OutFilled(s.calls, j);
      if s.calls[k].stage == FREED_OUT && Slot(c.ring, j) == Slot(c.ring, k + 1) {
        SlotIsFree(c, s, k, j);
        assert false;
      }
    }
  }

  lemma StepPointers(c: Config, s: State, k: nat)
    requires c.Valid() && Shape(c, s) && Window(c, s) && Pointers(c, s) && Locals(c, s)
    requires k < |s.calls| && s.calls[k].owner < |s.threads| && Enabled(c, s, k)
    ensures Pointers(c, Step(c, s, k))
  {
    var s' := Step(c, s, k);
    forall j | 0 <= j <= |s'.calls| && InFilled(s'.calls, j)
      ensures s'.inPtr[Slot(c.ring, j)] == InAt(c, j)
    {
      StepInPointer(c, s, k, j);
    }
    forall j | 0 <= j <= |s'.calls| && OutFilled(s'.calls, j)
      ensures s'.outPtr[Slot(c.ring, j)] == OutAt(c, j)
    {
      StepOutPointer(c, s, k, j);
    }
  }

  lemma WaitingUpdate(threads: seq<Thread>, t: nat, x: Thread)
    requires t < |threads|
    ensures Waiting(threads[t := x]) + (if threads[t].Calling? then 1 else 0)
            == Waiting(threads) + (if x.Calling? then 1 else 0)
  {
    var n := |threads| - 1;
    if t == n {
      assert threads[t := x][..n] == threads[..n];
    } else {
      assert threads[t := x][..n] == threads[..n][t := x];
      WaitingUpdate(threads[..n], t, x);
    }
  }

  lemma WaitingNone(threads: seq<Thread>)
    requires forall t :: 0 <= t < |threads| ==> !threads[t].Calling?
    ensures Waiting(threads) == 0
  {
  }

  lemma WaitingTwo(threads: seq<Thread>, t: nat, u: nat)
    requires t < |threads| && u < |threads| && t != u && threads[t].Calling? && threads[u].Calling?
    ensures Waiting(threads) >= 2
  {
    WaitingUpdate(threads, t, Idle);
    WaitingUpdate(threads[t := Idle], u, Idle);
  }

  lemma StepJobs(c: Config, s: State, k: nat)
    requires c.Valid() && Shape(c, s) && Owners(s) && Jobs(c, s) && k < |s.calls| && Enabled(c, s, k)
    ensures Jobs(c, Step(c, s, k))
  {
    WaitingUpdate(s.threads, s.calls[k].owner, Idle);
  }

  lemma OutGrows(c: Config, j: nat, k: nat)
    requires j <= k <= |c.jobs|
    ensures OutAt(c, j) <= OutAt(c, k)
  {
    if j < k { OutGrows(c, j, k - 1); }
  }

  lemma ReturnedStep(c: Config, calls: seq<Call>, calls': seq<Call>, k: nat, n: nat)
    requires k < |calls| == |calls'| <= |c.jobs| && n <= |calls|
    requires calls[k].stage != RETURNED
    requires forall m :: 0 <= m < |calls| && m != k ==> calls'[m] == calls[m]
    ensures Returned(c, calls', n)
            == Returned(c, calls, n) + (if k < n && calls'[k].stage == RETURNED then EffectAt(c, k).count else 0)
  {
  }

  /** The region of a call ends before those of later calls begin. */
  lemma RegionsApart(c: Config, j: nat, k: nat, p: nat)
    requires j < |c.jobs| && k < |c.jobs| && j != k && OutAt(c, j) <= p < OutAt(c, j + 1)
    ensures !(OutAt(c, k) <= p < OutAt(c, k + 1))
  {
    if j < k { OutGrows(c, j + 1, k); } else { OutGrows(c, k + 1, j); }
  }

  lemma RegionEnds(c: Config, k: nat)
    requires k < |c.jobs|
    ensures OutAt(c, k + 1) == OutAt(c, k) + |EffectAt(c, k).produced|
  {
  }

  /** The bytes of a call that has returned stay where they are. */
  lemma WriteByte(c: Config, calls: seq<Call>, calls': seq<Call>, mem: map<nat, bv8>, k: nat, j: nat, p: nat)
    requires k < |calls| == |calls'| <= |c.jobs| && calls[k].stage != RETURNED
    requires forall m :: 0 <= m < |calls| && m != k ==> calls'[m] == calls[m]
    requires ByteInPlace(c, calls, mem, j, p)
    ensures ByteInPlace(c, calls', Write(mem, OutAt(c, k), EffectAt(c, k).produced), j, p)
  {
    RegionEnds(c, k);
    if j < |calls| && j != k && OutAt(c, j) <= p < OutAt(c, j + 1) {
      assert calls'[j] == calls[j];
      RegionsApart(c, j, k, p);
    }
  }

  lemma StepByte(c: Config, s: State, k: nat, j: nat, p: nat)
    requires c.ring > 0 && Shape(c, s) && k < |s.calls| && s.calls[k].owner < |s.threads| && s.calls[k].stage < RETURNED
    requires s.calls[k].stage == FREED_THIS ==>
               s.calls[k].job == c.jobs[k] && s.calls[k].inp == InAt(c, k) && s.calls[k].outp == OutAt(c, k)
    requires ByteInPlace(c, s.calls, s.mem, j, p)
    ensures ByteInPlace(c, Step(c, s, k).calls, Step(c, s, k).mem, j, p)
  {
    if s.calls[k].stage == FREED_THIS {
      WriteByte(c, s.calls, Step(c, s, k).calls, s.mem, k, j, p);
    }
  }

  lemma StepBounds(c: Config, s: State, k: nat)
    requires c.ring > 0 && Shape(c, s) && k < |s.calls| && s.calls[k].owner < |s.threads|
    requires s.calls[k].stage == FREED_THIS ==>
               s.calls[k].job == c.jobs[k] && s.calls[k].inp == InAt(c, k) && s.calls[k].outp == OutAt(c, k)
    requires forall p :: p in s.mem ==> c.out0 <= p < OutAt(c, |c.jobs|)
    ensures forall p :: p in Step(c, s, k).mem ==> c.out0 <= p < OutAt(c, |c.jobs|)
  {
    assert OutAt(c, k + 1) == OutAt(c, k) + |EffectAt(c, k).produced|;
    OutGrows(c, 0, k);
    OutGrows(c, k + 1, |c.jobs|);
  }

  lemma StepCount(c: Config, s: State, k: nat)
    requires c.ring > 0 && Shape(c, s) && k < |s.calls| && s.calls[k].owner < |s.threads| && Enabled(c, s, k)
    requires s.calls[k].stage == FREED_THIS ==> s.calls[k].job == c.jobs[k] && s.calls[k].inp == InAt(c, k)
    requires s.count == Returned(c, s.calls, |s.calls|)
    ensures Step(c, s, k).count == Returned(c, Step(c, s, k).calls, |s.calls|)
  {
    ReturnedStep(c, s.calls, Step(c, s, k).calls, k, |s.calls|);
  }

  lemma StepMemory(c: Config, s: State, k: nat)
    requires c.Valid() && Shape(c, s) && Locals(c, s) && Memory(c, s)
    requires k < |s.calls| && s.calls[k].owner < |s.threads| && Enabled(c, s, k)
    ensures Memory(c, Step(c, s, k))
  {
    StepBounds(c, s, k);
    StepCount(c, s, k);
    forall j: nat, p: nat
      ensures ByteInPlace(c, Step(c, s, k).calls, Step(c, s, k).mem, j, p)
    {
      assert ByteInPlace(c, s.calls, s.mem, j, p);
      StepByte(c, s, k, j, p);
    }
  }

  // ---- The other two actions ----

  lemma DispatchJobs(c: Config, s: State, t: nat)
    requires c.Valid() && Shape(c, s) && Jobs(c, s) && CanDo(c, s, Dispatch(t))
    ensures Jobs(c, Do(c, s, Dispatch(t)))
  {
    WaitingUpdate(s.threads, t, Calling(c.jobs[s.dispatched]));
    if s.dispatched >= c.parallel { WaitingNone(s.threads); }
  }

  lemma DispatchOwners(c: Config, s: State, t: nat)
    requires c.ring > 0 && Shape(c, s) && Owners(s) && CanDo(c, s, Dispatch(t))
    ensures Owners(Do(c, s, Dispatch(t)))
  {
  }

  lemma DispatchKeeps(c: Config, s: State, t: nat)
    requires Inv(c, s) && CanDo(c, s, Dispatch(t))
    ensures Inv(c, Do(c, s, Dispatch(t)))
  {
    DispatchJobs(c, s, t);
    DispatchOwners(c, s, t);
  }

  lemma NumberJobs(c: Config, s: State, t: nat)
    requires c.Valid() && Shape(c, s) && Jobs(c, s) && CanDo(c, s, Number(t))
    ensures |s.calls| < s.dispatched
    ensures Jobs(c, Do(c, s, Number(t)))
  {
    WaitingUpdate(s.threads, t, Running(|s.calls|));
    var s' := Do(c, s, Number(t));
    forall u | 0 <= u < |s'.threads| && s'.threads[u].Calling?
      ensures |s'.calls| < |c.jobs| && s'.threads[u].job == c.jobs[|s'.calls|]
    {
      WaitingTwo(s.threads, t, u);
    }
  }

  lemma NumberLocks(n: nat, calls: seq<Call>, call: Call, locks: seq<Option<nat>>, h0: nat, h1: nat, x0: nat, x1: nat)
    requires n > 0 && |locks| == n && Locks(n, calls, locks, h0, h1, x0, x1)
    requires call.stage < h0 && call.stage < x0
    ensures Locks(n, calls + [call], locks, h0, h1, x0, x1)
  {
  }

  lemma NumberPointers(c: Config, s: State, t: nat)
    requires c.Valid() && Shape(c, s) && Jobs(c, s) && Pointers(c, s) && CanDo(c, s, Number(t))
    ensures |s.calls| < s.dispatched
    ensures Pointers(c, Do(c, s, Number(t)))
  {
    NumberJobs(c, s, t);
    var s' := Do(c, s, Number(t));
    forall k | 0 <= k <= |s'.calls| && InFilled(s'.calls, k)
      ensures s'.inPtr[Slot(c.ring, k)] == InAt(c, k)
    {
      assert InFilled(s.calls, k);
    }
    forall k | 0 <= k <= |s'.calls| && OutFilled(s'.calls, k)
      ensures s'.outPtr[Slot(c.ring, k)] == OutAt(c, k)
    {
      assert OutFilled(s.calls, k);
    }
  }

  lemma NumberMemory(c: Config, s: State, t: nat)
    requires c.Valid() && Shape(c, s) && Memory(c, s) && |s.calls| < s.dispatched && CanDo(c, s, Number(t))
    ensures Memory(c, Do(c, s, Number(t)))
  {
    var s' := Do(c, s, Number(t));
    forall k: nat, p: nat
      ensures ByteInPlace(c, s'.calls, s'.mem, k, p)
    {
      assert ByteInPlace(c, s.calls, s.mem, k, p);
    }
    ReturnedPrefix(c, s.calls, s'.calls, |s.calls|);
  }

  lemma ReturnedPrefix(c: Config, calls: seq<Call>, calls': seq<Call>, n: nat)
    requires n <= |calls| <= |calls'| <= |c.jobs| && calls'[..|calls|] == calls
    ensures Returned(c, calls', n) == Returned(c, calls, n)
  {
    if n > 0 {
      assert calls'[n - 1] == calls'[..|calls|][n - 1];
    }
  }

  lemma NumberOwners(c: Config, s: State, t: nat)
    requires c.ring > 0 && Shape(c, s) && Owners(s) && CanDo(c, s, Number(t))
    ensures Owners(Do(c, s, Number(t)))
  {
  }

  lemma NumberEntry(c: Config, s: State, t: nat)
    requires c.ring > 0 && Shape(c, s) && Entry(s) && Window(c, s) && CanDo(c, s, Number(t))
    ensures Entry(Do(c, s, Number(t))) && Window(c, Do(c, s, Number(t)))
  {
  }

  lemma NumberInOut(c: Config, s: State, t: nat)
    requires c.ring > 0 && Shape(c, s) && |s.calls| < s.dispatched && InLocks(c, s) && OutLocks(c, s)
    requires CanDo(c, s, Number(t))
    ensures InLocks(c, Do(c, s, Number(t))) && OutLocks(c, Do(c, s, Number(t)))
  {
    var call := Call(NUMBERED, s.threads[t].job, t, 0, 0);
    NumberLocks(c.ring, s.calls, call, s.inLock, IN_THIS, FREED_THIS, IN_NEXT, FREED_IN);
    NumberLocks(c.ring, s.calls, call, s.outLock, OUT_THIS, FREED_OUT, OUT_NEXT, FREED_NEXT);
  }

  lemma NumberControl(c: Config, s: State, t: nat)
    requires Control(c, s) && CanDo(c, s, Number(t))
    ensures |s.calls| < s.dispatched && Control(c, Do(c, s, Number(t)))
  {
    NumberJobs(c, s, t);
    NumberOwners(c, s, t);
    NumberEntry(c, s, t);
    NumberInOut(c, s, t);
  }

  lemma NumberLocals(c: Config, s: State, t: nat)
    requires c.Valid() && Shape(c, s) && Jobs(c, s) && Locals(c, s) && |s.calls| < s.dispatched
    requires CanDo(c, s, Number(t))
    ensures Locals(c, Do(c, s, Number(t)))
  {
  }

  lemma NumberKeeps(c: Config, s: State, t: nat)
    requires Inv(c, s) && CanDo(c, s, Number(t))
    ensures Inv(c, Do(c, s, Number(t)))
  {
    NumberControl(c, s, t);
    NumberPointers(c, s, t);
    NumberMemory(c, s, t);
    NumberLocals(c, s, t);
  }

  lemma StepControl(c: Config, s: State, k: nat)
    requires Control(c, s) && k < |s.calls| && Enabled(c, s, k)
    ensures Control(c, Step(c, s, k))
  {
    StepOwners(c, s, k);
    StepEntry(c, s, k);
    StepInLocks(c, s, k);
    StepOutLocks(c, s, k);
    StepWindow(c, s, k);
    StepJobs(c, s, k);
  }

  lemma StepData(c: Config, s: State, k: nat)
    requires Inv(c, s) && k < |s.calls| && Enabled(c, s, k)
    ensures Shape(c, Step(c, s, k)) && Data(c, Step(c, s, k))
  {
    StepPointers(c, s, k);
    StepLocals(c, s, k);
    StepMemory(c, s, k);
  }

  lemma AdvanceKeeps(c: Config, s: State, t: nat)
    requires Inv(c, s) && CanDo(c, s, Advance(t))
    ensures Inv(c, Do(c, s, Advance(t)))
  {
    StepControl(c, s, s.threads[t].iter);
    StepData(c, s, s.threads[t].iter);
  }
}
