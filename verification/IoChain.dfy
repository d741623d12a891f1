/** The lock ring that hands a chain of dependent blocks to a team of threads
    (`iochain.c`), together with the OpenMP loop that drives it
    (`bshuf_blocked_wrap_fun`).

    Every acquisition and release of a lock and every read and write of a shared
    pointer is a step of its own, so the steps of different threads interleave
    freely.  The local variables of a call are kept under the number the call
    draws (`this_iter`) and stay there after the call has returned; that
    history is what the invariant speaks about.
 */
module IoChain {
  import opened Wrappers

  /** One call of the block function, or the copy of the raw tail. */
  datatype Job = Block(size: nat) | Tail(nbytes: nat)

  /** What a call does once it knows where its input starts: how far it moves
      the input pointer, the bytes it writes and the count it returns. */
  datatype Effect = Effect(consumed: nat, produced: seq<bv8>, count: int)

  /** `ring` is IOC_SIZE.  `jobs[..parallel]` are the calls of the parallel loop,
      the others are made afterwards by one thread. */
  datatype Config = Config(ring: nat, threads: nat, jobs: seq<Job>, parallel: nat,
                           work: (Job, nat) -> Effect, in0: nat, out0: nat)
  {
    ghost predicate Valid() {
      && 2 <= ring
      && 1 <= threads
      && parallel <= |jobs|
      && (forall k :: 0 <= k < parallel ==> jobs[k] == jobs[0])
    }
  }

  // ---- The serial run ----

  /** Where call `k` finds its input when the calls are made one after another. */
  function InAt(c: Config, k: nat): nat
    requires k <= |c.jobs|
    decreases k, 0
  {
    if k == 0 then c.in0 else InAt(c, k - 1) + EffectAt(c, k - 1).consumed
  }

  function EffectAt(c: Config, k: nat): Effect
    requires k < |c.jobs|
    decreases k, 1
  {
    c.work(c.jobs[k], InAt(c, k))
  }

  function OutAt(c: Config, k: nat): nat
    requires k <= |c.jobs|
  {
    if k == 0 then c.out0 else OutAt(c, k - 1) + |EffectAt(c, k - 1).produced|
  }

  function CountAt(c: Config, k: nat): int
    requires k <= |c.jobs|
  {
    if k == 0 then 0 else CountAt(c, k - 1) + EffectAt(c, k - 1).count
  }

  function SerialOutput(c: Config, k: nat): seq<bv8>
    requires k <= |c.jobs|
  {
    if k == 0 then [] else SerialOutput(c, k - 1) + EffectAt(c, k - 1).produced
  }

  // ---- The threads ----

  /** The ring slot of call `k`, `k % n` (see `IoChainSafety.SlotIsMod`). */
  function Slot(n: nat, k: nat): (i: nat)
    requires n > 0
    ensures i < n
  {
    if k < n then k else Slot(n, k - n)
  }

  // How far a call has come.  The names say what has been done last.
  const NUMBERED := 0     // took next_lock, drew this_iter
  const IN_THIS := 1      // took in_pl[k]
  const IN_NEXT := 2      // took in_pl[k + 1]
  const OUT_NEXT := 3     // took out_pl[k + 1]
  const ENTERED := 4      // released next_lock
  const READ_IN := 5
  const WROTE_IN := 6
  const FREED_IN := 7     // released in_pl[k + 1]
  const OUT_THIS := 8     // took out_pl[k]
  const READ_OUT := 9
  const FREED_OUT := 10   // released out_pl[k]
  const WROTE_OUT := 11
  const FREED_NEXT := 12  // released out_pl[k + 1]
  const FREED_THIS := 13  // released in_pl[k]
  const RETURNED := 14    // wrote its bytes and returned its count

  datatype Call = Call(stage: nat, job: Job, owner: nat, inp: nat, outp: nat)

  datatype Thread = Idle | Calling(job: Job) | Running(iter: nat)

  /** `C->next` is `|calls|`. */
  datatype State = State(dispatched: nat,
                         nextLock: Option<nat>,
                         inLock: seq<Option<nat>>, inPtr: seq<nat>,
                         outLock: seq<Option<nat>>, outPtr: seq<nat>,
                         calls: seq<Call>,
                         threads: seq<Thread>,
                         mem: map<nat, bv8>,
                         count: int)

  ghost predicate Init(c: Config, s: State) {
    && s.dispatched == 0
    && s.nextLock == None
    && |s.inLock| == |s.inPtr| == |s.outLock| == |s.outPtr| == c.ring
    && (forall i :: 0 <= i < c.ring ==> s.inLock[i] == None && s.outLock[i] == None)
    && (c.ring > 0 ==> s.inPtr[0] == c.in0 && s.outPtr[0] == c.out0)
    && s.calls == []
    && |s.threads| == c.threads
    && (forall t :: 0 <= t < c.threads ==> s.threads[t] == Idle)
    && s.mem == map[]
    && s.count == 0
  }

  ghost predicate Finished(c: Config, s: State) {
    && s.dispatched == |c.jobs|
    && AllIdle(s)
  }

  ghost predicate AllIdle(s: State) {
    forall t :: 0 <= t < |s.threads| ==> s.threads[t] == Idle
  }

  /** `Dispatch` hands the next call to a thread, `Number` is the thread passing
      `next_lock` and drawing a number, `Advance` is its next step. */
  datatype Action = Dispatch(t: nat) | Number(t: nat) | Advance(t: nat)

  ghost predicate Shape(c: Config, s: State) {
    && |s.inLock| == |s.inPtr| == |s.outLock| == |s.outPtr| == c.ring
    && |s.threads| == c.threads
    && |s.calls| <= s.dispatched <= |c.jobs|
  }

  ghost predicate CanDo(c: Config, s: State, a: Action)
    requires Shape(c, s) && c.ring > 0
  {
    && a.t < |s.threads|
    && match a
       case Dispatch(t) =>
         && s.threads[t] == Idle
         && s.dispatched < |c.jobs|
         && (s.dispatched >= c.parallel ==> AllIdle(s))
       case Number(t) => s.threads[t].Calling? && s.nextLock == None
       case Advance(t) =>
         && s.threads[t].Running?
         && s.threads[t].iter < |s.calls|
         && s.calls[s.threads[t].iter].owner == t
         && Enabled(c, s, s.threads[t].iter)
  }

  predicate Enabled(c: Config, s: State, k: nat)
    requires |s.inLock| == |s.outLock| == c.ring > 0
    requires k < |s.calls|
  {
    var g := s.calls[k].stage;
    && g < RETURNED
    && (g == NUMBERED ==> s.inLock[Slot(c.ring, k)] == None)
    && (g == IN_THIS ==> s.inLock[Slot(c.ring, k + 1)] == None)
    && (g == IN_NEXT ==> s.outLock[Slot(c.ring, k + 1)] == None)
    && (g == FREED_IN ==> s.outLock[Slot(c.ring, k)] == None)
  }

  function Do(c: Config, s: State, a: Action): State
    requires Shape(c, s) && c.ring > 0 && CanDo(c, s, a)
  {
    match a
    case Dispatch(t) =>
      s.(dispatched := s.dispatched + 1, threads := s.threads[t := Calling(c.jobs[s.dispatched])])
    case Number(t) =>
      s.(nextLock := Some(|s.calls|),
         calls := s.calls + [Call(NUMBERED, s.threads[t].job, t, 0, 0)],
         threads := s.threads[t := Running(|s.calls|)])
    case Advance(t) => Step(c, s, s.threads[t].iter)
  }

  /** The next step of call `k`.  Its stage says which one it is; each part of the
      state lists the stages that touch it. */
  function Step(c: Config, s: State, k: nat): State
    requires |s.inLock| == |s.inPtr| == |s.outLock| == |s.outPtr| == c.ring > 0
    requires k < |s.calls| && s.calls[k].owner < |s.threads|
  {
    var call := s.calls[k];
    var here, next := Slot(c.ring, k), Slot(c.ring, k + 1);
    State(s.dispatched,
          if call.stage == OUT_NEXT then None else s.nextLock,
          StepLock(s.inLock, call.stage, k, here, next, NUMBERED, FREED_NEXT, IN_THIS, WROTE_IN),
          if call.stage == READ_IN then s.inPtr[next := call.inp + c.work(call.job, call.inp).consumed] else s.inPtr,
          StepLock(s.outLock, call.stage, k, here, next, FREED_IN, READ_OUT, IN_NEXT, WROTE_OUT),
          if call.stage == FREED_OUT then s.outPtr[next := call.outp + |c.work(call.job, call.inp).produced|]
          else s.outPtr,
          s.calls[k := StepCall(call, s.inPtr[here], s.outPtr[here])],
          if call.stage == FREED_THIS then s.threads[call.owner := Idle] else s.threads,
          if call.stage == FREED_THIS then Write(s.mem, call.outp, c.work(call.job, call.inp).produced) else s.mem,
          if call.stage == FREED_THIS then s.count + c.work(call.job, call.inp).count else s.count)
  }

  function StepCall(call: Call, inPtr: nat, outPtr: nat): Call {
    Call(call.stage + 1, call.job, call.owner,
         if call.stage == ENTERED then inPtr else call.inp,
         if call.stage == OUT_THIS then outPtr else call.outp)
  }

  /** The locks of one ring: `takeHere` .. `freeNext` are the stages at which a call
      takes and releases the lock of its own slot and the one of the next slot. */
  function StepLock(locks: seq<Option<nat>>, g: nat, k: nat, here: nat, next: nat,
                    takeHere: nat, freeHere: nat, takeNext: nat, freeNext: nat): (locks': seq<Option<nat>>)
    requires here < |locks| && next < |locks|
    ensures |locks'| == |locks|
  {
    if g == takeHere then locks[here := Some(k)]
    else if g == freeHere then locks[here := None]
    else if g == takeNext then locks[next := Some(k)]
    else if g == freeNext then locks[next := None]
    else locks
  }

  function Write(mem: map<nat, bv8>, at: nat, bytes: seq<bv8>): (mem': map<nat, bv8>)
    ensures forall p :: p in mem' <==> p in mem || at <= p < at + |bytes|
    ensures forall p :: p in mem' ==> mem'[p] == if at <= p < at + |bytes| then bytes[p - at] else mem[p]
    decreases |bytes|
  {
    if bytes == [] then mem else Write(mem[at := bytes[0]], at + 1, bytes[1..])
  }

  // ---- The invariant ----

  /** A call that has not returned is run by exactly one thread. */
  ghost predicate Owners(s: State) {
    && (forall t :: 0 <= t < |s.threads| && s.threads[t].Running? ==>
          && s.threads[t].iter < |s.calls|
          && s.calls[s.threads[t].iter].owner == t
          && s.calls[s.threads[t].iter].stage < RETURNED)
    && (forall k :: 0 <= k < |s.calls| ==>
          && s.calls[k].stage <= RETURNED
          && s.calls[k].owner < |s.threads|
          && (s.calls[k].stage < RETURNED ==> s.threads[s.calls[k].owner] == Running(k)))
  }

  /** Only the latest call can still be collecting its locks. */
  ghost predicate Entry(s: State) {
    && (forall k :: 0 <= k < |s.calls| - 1 ==> s.calls[k].stage >= ENTERED)
    && (s.nextLock.Some? ==> s.nextLock.value == |s.calls| - 1)
    && (s.nextLock.Some? <==> |s.calls| > 0 && s.calls[|s.calls| - 1].stage < ENTERED)
  }

  /** The locks of one ring are held by exactly the calls that took and did not
      release them, hence by one call at a time.  A call holds the lock of its own
      slot from stage `h0` until `h1` and the one of the next slot from `x0` until `x1`. */
  ghost predicate Locks(n: nat, calls: seq<Call>, locks: seq<Option<nat>>, h0: nat, h1: nat, x0: nat, x1: nat)
    requires n > 0 && |locks| == n
  {
    && (forall k :: 0 <= k < |calls| && h0 <= calls[k].stage < h1 ==> locks[Slot(n, k)] == Some(k))
    && (forall k :: 0 <= k < |calls| && x0 <= calls[k].stage < x1 ==> locks[Slot(n, k + 1)] == Some(k))
    && (forall i, k: nat {:trigger locks[i], Some(k)} :: 0 <= i < n && locks[i] == Some(k) ==>
          && k < |calls|
          && ((h0 <= calls[k].stage < h1 && i == Slot(n, k)) || (x0 <= calls[k].stage < x1 && i == Slot(n, k + 1))))
  }

  ghost predicate InLocks(c: Config, s: State)
    requires Shape(c, s) && c.ring > 0
  {
    Locks(c.ring, s.calls, s.inLock, IN_THIS, FREED_THIS, IN_NEXT, FREED_IN)
  }

  ghost predicate OutLocks(c: Config, s: State)
    requires Shape(c, s) && c.ring > 0
  {
    Locks(c.ring, s.calls, s.outLock, OUT_THIS, FREED_OUT, OUT_NEXT, FREED_NEXT)
  }

  /** No call gets ahead of another one by a whole ring. */
  ghost predicate Window(c: Config, s: State) {
    forall j, k :: 0 <= j < |s.calls| && 0 <= k < |s.calls| && s.calls[k].stage >= IN_NEXT && j + c.ring <= k + 1 ==>
      s.calls[j].stage >= FREED_THIS
  }

  /** The slot of call `k` carries a pointer the call may still read. */
  predicate InFilled(calls: seq<Call>, k: nat)
    requires k <= |calls|
  {
    (k > 0 ==> calls[k - 1].stage >= WROTE_IN) && (k < |calls| ==> calls[k].stage < FREED_THIS)
  }

  predicate OutFilled(calls: seq<Call>, k: nat)
    requires k <= |calls|
  {
    (k > 0 ==> calls[k - 1].stage >= WROTE_OUT) && (k < |calls| ==> calls[k].stage < FREED_THIS)
  }

  ghost predicate Pointers(c: Config, s: State)
    requires Shape(c, s) && c.ring > 0
  {
    && (forall k :: 0 <= k <= |s.calls| && InFilled(s.calls, k) ==> s.inPtr[Slot(c.ring, k)] == InAt(c, k))
    && (forall k :: 0 <= k <= |s.calls| && OutFilled(s.calls, k) ==> s.outPtr[Slot(c.ring, k)] == OutAt(c, k))
  }

  ghost predicate Locals(c: Config, s: State)
    requires Shape(c, s)
  {
    forall k :: 0 <= k < |s.calls| ==>
      && s.calls[k].job == c.jobs[k]
      && (s.calls[k].stage >= READ_IN ==> s.calls[k].inp == InAt(c, k))
      && (s.calls[k].stage >= READ_OUT ==> s.calls[k].outp == OutAt(c, k))
  }

  function Waiting(threads: seq<Thread>): nat {
    if threads == [] then 0 else Waiting(threads[..|threads| - 1]) + (if threads[|threads| - 1].Calling? then 1 else 0)
  }

  /** Whoever draws the next number has been given the job of that number. */
  ghost predicate Jobs(c: Config, s: State)
    requires Shape(c, s)
  {
    && s.dispatched == |s.calls| + Waiting(s.threads)
    && (s.dispatched > c.parallel ==> Waiting(s.threads) <= 1)
    && (forall t :: 0 <= t < |s.threads| && s.threads[t].Calling? ==>
          |s.calls| < |c.jobs| && s.threads[t].job == c.jobs[|s.calls|])
  }

  function Returned(c: Config, calls: seq<Call>, n: nat): int
    requires n <= |calls| <= |c.jobs|
  {
    if n == 0 then 0
    else Returned(c, calls, n - 1) + (if calls[n - 1].stage == RETURNED then EffectAt(c, n - 1).count else 0)
  }

  ghost predicate ByteInPlace(c: Config, calls: seq<Call>, mem: map<nat, bv8>, k: nat, p: nat)
    requires |calls| <= |c.jobs|
  {
    k < |calls| && calls[k].stage == RETURNED && OutAt(c, k) <= p < OutAt(c, k + 1) ==>
      p in mem && mem[p] == EffectAt(c, k).produced[p - OutAt(c, k)]
  }

  /** The buffer holds the bytes of the calls that have returned, each where the
      serial run puts them, and nothing else. */
  ghost predicate Memory(c: Config, s: State)
    requires Shape(c, s)
  {
    && (forall k: nat, p: nat :: ByteInPlace(c, s.calls, s.mem, k, p))
    && (forall p :: p in s.mem ==> c.out0 <= p < OutAt(c, |c.jobs|))
    && s.count == Returned(c, s.calls, |s.calls|)
  }

  /** Who runs what, who holds which lock. */
  ghost predicate Control(c: Config, s: State) {
    && c.Valid()
    && Shape(c, s)
    && Owners(s)
    && Entry(s)
    && InLocks(c, s)
    && OutLocks(c, s)
    && Window(c, s)
    && Jobs(c, s)
  }

  /** What the shared and local pointers and the buffer contain. */
  ghost predicate Data(c: Config, s: State)
    requires Shape(c, s) && c.ring > 0
  {
    && Pointers(c, s)
    && Locals(c, s)
    && Memory(c, s)
  }

  ghost predicate Inv(c: Config, s: State) {
    Control(c, s) && Data(c, s)
  }
}
