/** The stream synchronizer (`std-data-sync-stream`): an image is complete when all its parts
    have been announced; older incomplete images are then given up, and so is the oldest
    one when too many are waiting. */
module StreamSync {
  import opened Wrappers

  /** Ids in the order of their arrival, and how many parts of each have come. */
  datatype Sync = Sync(queue: seq<nat>, counts: map<nat, nat>)

  /** What a call returns: a complete image, if there is one, and the number of images given
      up; or it throws because there is no image to return. */
  datatype Reply = Reply(image: Option<nat>, corrupted: nat) | Impossible

  ghost predicate Distinct(s: seq<nat>) {
    forall i, j {:trigger Differ(s[i], s[j])} :: 0 <= i < j < |s| ==> Differ(s[i], s[j])
  }

  predicate Differ(a: nat, b: nat) { a != b }

  /** Queue and map hold the same distinct ids. */
  ghost predicate Matching(s: Sync) {
    Distinct(s.queue) && (forall id :: id in s.counts <==> id in s.queue)
  }

  /** What holds between two calls. */
  ghost predicate Valid(parts: nat, capacity: nat, s: Sync) {
    Matching(s) && |s.queue| <= capacity && Partial(parts, s.counts)
  }

  ghost predicate Partial(parts: nat, counts: map<nat, nat>) {
    forall id :: id in counts ==> 1 <= counts[id] < parts
  }

  // ---- One call ----

  function Remove(counts: map<nat, nat>, ids: seq<nat>): map<nat, nat> {
    map id | id in counts && id !in ids :: counts[id]
  }

  /** The first `k` ids leave. */
  function DropFront(s: Sync, k: nat): Sync
    requires k <= |s.queue|
  {
    Sync(s.queue[k..], Remove(s.counts, s.queue[..k]))
  }

  function Position(queue: seq<nat>, id: nat): (k: nat)
    ensures k <= |queue| && (k < |queue| ==> queue[k] == id) && id !in queue[..k]
    ensures id in queue ==> k < |queue|
  {
    if queue == [] || queue[0] == id then 0
    else
      var k := Position(queue[1..], id) + 1;
      assert queue[..k] == [queue[0]] + queue[1..][..k - 1];
      k
  }

  /** A new id joins the queue; the oldest one leaves if there are too many. */
  function Push(capacity: nat, s: Sync, id: nat): Sync {
    var t := Sync(s.queue + [id], s.counts[id := 0]);
    if |t.queue| > capacity then DropFront(t, 1) else t
  }

  function Admit(capacity: nat, s: Sync, id: nat): Sync {
    if id in s.counts then s else Push(capacity, s, id)
  }

  /** What `push_new_image_to_queue` returns. */
  function Evicted(capacity: nat, s: Sync, id: nat): nat {
    if id !in s.counts && |s.queue| + 1 > capacity then 1 else 0
  }

  function Parts(s: Sync, id: nat): nat {
    if id in s.counts then s.counts[id] else 0
  }

  function Count(s: Sync, id: nat): Sync {
    Sync(s.queue, s.counts[id := Parts(s, id) + 1])
  }

  /** `process_image_metadata`. */
  function Process(parts: nat, capacity: nat, s: Sync, id: nat): (Sync, Reply) {
    var t := Count(Admit(capacity, s, id), id);
    if t.counts[id] != parts then (t, Reply(None, Evicted(capacity, s, id)))
    else
      var k := Position(t.queue, id);
      if k == |t.queue| then (DropFront(t, k), Impossible) else (DropFront(t, k + 1), Reply(Some(id), k))
  }

  lemma AdmitMatches(capacity: nat, s: Sync, id: nat)
    requires Matching(s) && |s.queue| <= capacity && capacity >= 1
    ensures var t := Admit(capacity, s, id);
            && Matching(t) && |t.queue| <= capacity && id in t.queue && id in t.counts
            && (id !in s.counts ==> t.counts[id] == 0)
            && (forall x :: x in t.counts && x != id ==> x in s.counts && t.counts[x] == s.counts[x])
  {
    if id !in s.counts {
      var u := Sync(s.queue + [id], s.counts[id := 0]);
      assert u.queue[|s.queue|] == id;
      JoinMatches(s, id);
      if |u.queue| > capacity {
        assert u.queue == [u.queue[0]] + u.queue[1..];
        DropMatches(u, 1);
        assert u.queue[1..][|s.queue| - 1] == id;
      }
    }
  }

  lemma JoinMatches(s: Sync, id: nat)
    requires Matching(s) && id !in s.counts
    ensures Matching(Sync(s.queue + [id], s.counts[id := 0]))
  {
    var q := s.queue + [id];
    forall i, j | 0 <= i < j < |q|
      ensures Differ(q[i], q[j])
    {
      if j < |s.queue| { assert Differ(s.queue[i], s.queue[j]); } else { assert q[i] in s.queue; }
    }
  }

  lemma DropMatches(s: Sync, k: nat)
    requires Matching(s) && k <= |s.queue|
    ensures Matching(DropFront(s, k))
  {
    var q := s.queue[k..];
    forall i, j | 0 <= i < j < |q|
      ensures Differ(q[i], q[j])
    {
      assert Differ(s.queue[k + i], s.queue[k + j]);
    }
    forall id: nat
      ensures id in DropFront(s, k).counts <==> id in q
    {
      DropHolds(s, k, id);
    }
  }

  lemma DropHolds(s: Sync, k: nat, id: nat)
    requires Distinct(s.queue) && k <= |s.queue|
    ensures id in s.queue && id !in s.queue[..k] <==> id in s.queue[k..]
  {
    assert s.queue == s.queue[..k] + s.queue[k..];
    if id in s.queue[k..] {
      var j :| k <= j < |s.queue| && s.queue[j] == id;
      forall i | 0 <= i < k
        ensures s.queue[i] != id
      {
        assert Differ(s.queue[i], s.queue[j]);
      }
    }
  }

  /** The queue once `id` has joined it, before anything leaves. */
  function Joined(s: Sync, id: nat): seq<nat> {
    if id in s.counts then s.queue else s.queue + [id]
  }

  lemma AdmittedQueue(capacity: nat, s: Sync, id: nat)
    requires |s.queue| <= capacity && capacity >= 1
    ensures Evicted(capacity, s, id) <= |Joined(s, id)|
    ensures Admit(capacity, s, id).queue == Joined(s, id)[Evicted(capacity, s, id)..]
  {
  }

  /** With a single part nothing ever waits. */
  lemma WaitingNeedsParts(parts: nat, capacity: nat, s: Sync)
    requires Valid(parts, capacity, s) && s.queue != []
    ensures parts >= 2
  {
    assert s.queue[0] in s.counts;
  }

  lemma CountMatches(s: Sync, id: nat)
    requires Matching(s) && id in s.queue
    ensures Matching(Count(s, id))
  {
  }

  lemma CountedOnly(parts: nat, capacity: nat, s: Sync, id: nat)
    requires parts >= 1 && capacity >= 1 && Valid(parts, capacity, s) && Parts(s, id) + 1 != parts
    ensures var (s', r) := Process(parts, capacity, s, id);
            && Valid(parts, capacity, s') && s'.queue == Admit(capacity, s, id).queue
            && r == Reply(None, Evicted(capacity, s, id))
  {
    AdmitMatches(capacity, s, id);
    CountMatches(Admit(capacity, s, id), id);
  }

  /** What is left once the complete image and those before it have gone; the count of the
      complete one does not matter any more. */
  lemma CountForgotten(a: Sync, id: nat, k: nat)
    requires k < |a.queue| && a.queue[k] == id && id in a.counts
    ensures DropFront(Count(a, id), k + 1) == DropFront(a, k + 1)
    ensures id in a.queue[..k + 1]
  {
    assert a.queue[..k + 1][k] == id;
  }

  lemma NothingEvicted(parts: nat, capacity: nat, s: Sync, id: nat)
    requires parts >= 1 && capacity >= 1 && Valid(parts, capacity, s) && Parts(s, id) + 1 == parts
    ensures Evicted(capacity, s, id) == 0
  {
    if s.queue != [] { WaitingNeedsParts(parts, capacity, s); }
  }

  lemma Completed(parts: nat, capacity: nat, s: Sync, id: nat)
    requires parts >= 1 && capacity >= 1 && Valid(parts, capacity, s) && Parts(s, id) + 1 == parts
    ensures var (s', r) := Process(parts, capacity, s, id);
            var k := Position(Admit(capacity, s, id).queue, id);
            && Valid(parts, capacity, s') && k < |Admit(capacity, s, id).queue|
            && s'.queue == Admit(capacity, s, id).queue[k + 1..] && r == Reply(Some(id), k)
  {
    AdmitMatches(capacity, s, id);
    var a := Admit(capacity, s, id);
    CompletedAt(parts, capacity, a, id);
  }

  lemma CompletedAt(parts: nat, capacity: nat, a: Sync, id: nat)
    requires Matching(a) && |a.queue| <= capacity && id in a.queue && id in a.counts
    requires forall x :: x in a.counts && x != id ==> 1 <= a.counts[x] < parts
    ensures var k := Position(a.queue, id);
            k < |a.queue| && Valid(parts, capacity, DropFront(Count(a, id), k + 1))
  {
    LeftIsValid(parts, capacity, a, id, Position(a.queue, id));
  }

  lemma LeftIsValid(parts: nat, capacity: nat, a: Sync, id: nat, k: nat)
    requires Matching(a) && |a.queue| <= capacity && k < |a.queue| && a.queue[k] == id && id in a.counts
    requires forall x :: x in a.counts && x != id ==> 1 <= a.counts[x] < parts
    ensures Valid(parts, capacity, DropFront(Count(a, id), k + 1))
  {
    CountForgotten(a, id, k);
    DropMatches(a, k + 1);
    PartialLeft(parts, a.counts, a.queue[..k + 1], id);
  }

  lemma PartialLeft(parts: nat, counts: map<nat, nat>, ids: seq<nat>, id: nat)
    requires id in ids && forall x :: x in counts && x != id ==> 1 <= counts[x] < parts
    ensures Partial(parts, Remove(counts, ids))
  {
  }

  /** The contract of a call: it does not throw, the invariant is kept, ids only leave at the
      front of the queue, and they are either the complete image or counted as given up. */
  lemma ProcessTakesFromFront(parts: nat, capacity: nat, s: Sync, id: nat)
    requires parts >= 1 && capacity >= 1 && Valid(parts, capacity, s)
    ensures var (s', r) := Process(parts, capacity, s, id);
            && r.Reply? && Valid(parts, capacity, s')
            && (var gone := r.corrupted + (if r.image.Some? then 1 else 0);
                gone <= |Joined(s, id)| && s'.queue == Joined(s, id)[gone..]
                && (r.image.Some? ==> r.image == Some(id) && Joined(s, id)[gone - 1] == id))
            && (r.image.Some? <==> Parts(s, id) == parts - 1)
            && (r.image.None? ==>
                  r.corrupted == (if id !in s.queue && |s.queue| == capacity then 1 else 0))
  {
    AdmittedQueue(capacity, s, id);
    if Parts(s, id) + 1 == parts {
      NothingEvicted(parts, capacity, s, id);
      Completed(parts, capacity, s, id);
    } else {
      CountedOnly(parts, capacity, s, id);
    }
  }

  /** A call adds one to the parts of its image, or forgets a complete one, and leaves the counts
      of the other images that go on waiting alone. */
  lemma ProcessCounts(parts: nat, capacity: nat, s: Sync, id: nat)
    requires parts >= 1 && capacity >= 1 && Valid(parts, capacity, s)
    ensures var (s', r) := Process(parts, capacity, s, id);
            && r.Reply?
            && (id in s'.counts <==> r.image.None?)
            && (id in s'.counts ==> s'.counts[id] == Parts(s, id) + 1)
            && (forall x :: x in s'.counts && x != id ==> x in s.counts && s'.counts[x] == s.counts[x])
  {
    AdmitMatches(capacity, s, id);
    var a := Admit(capacity, s, id);
    if Parts(s, id) + 1 == parts {
      Completed(parts, capacity, s, id);
      CountForgotten(a, id, Position(a.queue, id));
    } else {
      CountedOnly(parts, capacity, s, id);
    }
  }

  // ---- Runs ----

  /** An id that has left, as a complete image or given up. */
  datatype Gone = Gone(id: nat, complete: bool)

  function GoneIds(gone: seq<Gone>): (ids: seq<nat>)
    ensures |ids| == |gone|
  {
    seq(|gone|, i requires 0 <= i < |gone| => gone[i].id)
  }

  function CompleteIds(gone: seq<Gone>): seq<nat> {
    if gone == [] then []
    else CompleteIds(gone[..|gone| - 1]) + (if gone[|gone| - 1].complete then [gone[|gone| - 1].id] else [])
  }

  /** A run: the state, the number of calls, the ids in the order in which entries were created
      for them, the call that created the latest entry of each, the images returned and the
      sum of the counts returned. */
  datatype Run = Run(s: Sync, calls: nat, created: seq<nat>, born: map<nat, nat>, emitted: seq<nat>,
                     corrupted: nat, thrown: bool)

  function RunStep(parts: nat, capacity: nat, r: Run, id: nat): Run {
    var (s', reply) := Process(parts, capacity, r.s, id);
    Run(s', r.calls + 1, if id in r.s.counts then r.created else r.created + [id],
        if id in r.s.counts then r.born else r.born[id := r.calls],
        if reply.Reply? && reply.image.Some? then r.emitted + [reply.image.value] else r.emitted,
        r.corrupted + (if reply.Reply? then reply.corrupted else 0), r.thrown || reply.Impossible?)
  }

  function RunOf(parts: nat, capacity: nat, ids: seq<nat>): Run {
    if ids == [] then Run(Sync([], map[]), 0, [], map[], [], 0, false)
    else RunStep(parts, capacity, RunOf(parts, capacity, ids[..|ids| - 1]), ids[|ids| - 1])
  }

  /** The ids that were created are those that have left, in order, and those in the queue. */
  ghost predicate Accounts(r: Run, gone: seq<Gone>) {
    && r.created == GoneIds(gone) + r.s.queue
    && r.emitted == CompleteIds(gone)
    && |gone| == |r.emitted| + r.corrupted
  }

  lemma {:induction false} GivenUp(gone: seq<Gone>, more: seq<Gone>)
    requires forall i :: 0 <= i < |more| ==> !more[i].complete
    ensures CompleteIds(gone + more) == CompleteIds(gone)
    decreases |more|
  {
    if more == [] {
      assert gone + more == gone;
    } else {
      var n := |more| - 1;
      assert (gone + more)[..|gone| + n] == gone + more[..n];
      GivenUp(gone, more[..n]);
    }
  }

  function Incomplete(ids: seq<nat>): (gone: seq<Gone>)
    ensures |gone| == |ids| && forall i :: 0 <= i < |ids| ==> gone[i] == Gone(ids[i], false)
  {
    seq(|ids|, i requires 0 <= i < |ids| => Gone(ids[i], false))
  }

  /** Ids that leave: first those given up, then perhaps the complete one. */
  function Leaving(joined: seq<nat>, k: nat, image: Option<nat>): seq<Gone>
    requires k <= |joined|
  {
    Incomplete(joined[..k]) + (if image.Some? then [Gone(image.value, true)] else [])
  }

  lemma LeavingIds(gone: seq<Gone>, joined: seq<nat>, k: nat, image: Option<nat>)
    requires k + (if image.Some? then 1 else 0) <= |joined| && (image.Some? ==> joined[k] == image.value)
    ensures GoneIds(gone + Leaving(joined, k, image)) == GoneIds(gone) + joined[..k + (if image.Some? then 1 else 0)]
  {
  }

  lemma LeavingComplete(gone: seq<Gone>, joined: seq<nat>, k: nat, image: Option<nat>)
    requires k <= |joined|
    ensures CompleteIds(gone + Leaving(joined, k, image))
            == CompleteIds(gone) + (if image.Some? then [image.value] else [])
  {
    var lost := Incomplete(joined[..k]);
    GivenUp(gone, lost);
    if image.Some? {
      var all := gone + Leaving(joined, k, image);
      assert all == gone + lost + [Gone(image.value, true)];
      assert all[..|all| - 1] == gone + lost;
    } else {
      assert gone + Leaving(joined, k, image) == gone + lost;
    }
  }

  lemma SplitJoined(ids: seq<nat>, joined: seq<nat>, n: nat)
    requires n <= |joined|
    ensures ids + joined == ids + joined[..n] + joined[n..]
  {
  }

  /** The accounts after a call that has made the ids of `joined` wait and let the first `k`
      of them go, and `image` after them. */
  lemma AccountsAfter(r: Run, gone: seq<Gone>, joined: seq<nat>, k: nat, image: Option<nat>, r': Run, n: nat)
    requires Accounts(r, gone) && n == k + (if image.Some? then 1 else 0) && n <= |joined|
    requires image.Some? ==> joined[k] == image.value
    requires r'.created == GoneIds(gone) + joined && r'.s.queue == joined[n..]
    requires r'.emitted == r.emitted + (if image.Some? then [image.value] else []) && r'.corrupted == r.corrupted + k
    ensures Accounts(r', gone + Leaving(joined, k, image))
  {
    LeavingIds(gone, joined, k, image);
    LeavingComplete(gone, joined, k, image);
    SplitJoined(GoneIds(gone), joined, n);
  }

  lemma CreatedJoined(r: Run, gone: seq<Gone>, id: nat)
    requires r.created == GoneIds(gone) + r.s.queue
    ensures (if id in r.s.counts then r.created else r.created + [id]) == GoneIds(gone) + Joined(r.s, id)
  {
  }

  lemma AccountsStep(parts: nat, capacity: nat, r: Run, gone: seq<Gone>, id: nat, s': Sync, reply: Reply)
    requires Accounts(r, gone) && Process(parts, capacity, r.s, id) == (s', reply) && reply.Reply?
    requires var n := reply.corrupted + (if reply.image.Some? then 1 else 0);
             && n <= |Joined(r.s, id)| && s'.queue == Joined(r.s, id)[n..]
             && (reply.image.Some? ==> reply.image == Some(id) && Joined(r.s, id)[n - 1] == id)
    ensures Accounts(RunStep(parts, capacity, r, id), gone + Leaving(Joined(r.s, id), reply.corrupted, reply.image))
  {
    var n := reply.corrupted + (if reply.image.Some? then 1 else 0);
    CreatedJoined(r, gone, id);
    AccountsAfter(r, gone, Joined(r.s, id), reply.corrupted, reply.image, RunStep(parts, capacity, r, id), n);
  }

  /** For every sequence of calls: no call throws, the queue stays bounded and in step with
      the counts, which stay below the number of parts; the ids created are those that have
      left, in order, and those still waiting; of those that left, exactly the complete ones
      have been returned, in the same order, and the others are what the returned counts add
      up to. */
  lemma {:induction false} RunAccounts(parts: nat, capacity: nat, ids: seq<nat>) returns (gone: seq<Gone>)
    requires parts >= 1 && capacity >= 1
    ensures var r := RunOf(parts, capacity, ids);
            && !r.thrown && Valid(parts, capacity, r.s) && Accounts(r, gone)
            && |r.created| == |r.emitted| + r.corrupted + |r.s.queue|
    decreases |ids|
  {
    if ids == [] {
      gone := [];
    } else {
      var n := |ids| - 1;
      var before := RunAccounts(parts, capacity, ids[..n]);
      var r, id := RunOf(parts, capacity, ids[..n]), ids[n];
      ProcessTakesFromFront(parts, capacity, r.s, id);
      var (s', reply) := Process(parts, capacity, r.s, id);
      AccountsStep(parts, capacity, r, before, id, s', reply);
      gone := before + Leaving(Joined(r.s, id), reply.corrupted, reply.image);
    }
  }

  /** How many of the calls from number `from` on are for `id`. */
  function Since(ids: seq<nat>, id: nat, from: nat): nat {
    if |ids| <= from then 0
    else Since(ids[..|ids| - 1], id, from) + (if ids[|ids| - 1] == id then 1 else 0)
  }

  lemma SinceStep(ids: seq<nat>, id: nat, x: nat, from: nat)
    requires from <= |ids|
    ensures Since(ids + [id], x, from) == Since(ids, x, from) + (if x == id then 1 else 0)
  {
    assert (ids + [id])[..|ids|] == ids;
  }

  /** Entry `x` counts the calls for `x` since the one that created it. */
  ghost predicate CountsCalls(ids: seq<nat>, r: Run, x: nat) {
    x in r.s.counts ==>
      && x in r.born && r.born[x] < |ids| && ids[r.born[x]] == x
      && r.s.counts[x] == Since(ids, x, r.born[x])
  }

  lemma CountsCallsStep(parts: nat, capacity: nat, ids: seq<nat>, r: Run, id: nat, x: nat)
    requires parts >= 1 && capacity >= 1 && Valid(parts, capacity, r.s) && r.calls == |ids|
    requires CountsCalls(ids, r, x) && CountsCalls(ids, r, id)
    ensures CountsCalls(ids + [id], RunStep(parts, capacity, r, id), x)
  {
    ProcessCounts(parts, capacity, r.s, id);
    var r' := RunStep(parts, capacity, r, id);
    if x in r'.s.counts {
      SinceStep(ids, id, x, r'.born[x]);
    }
  }

  lemma RunIsValid(parts: nat, capacity: nat, ids: seq<nat>)
    requires parts >= 1 && capacity >= 1
    ensures Valid(parts, capacity, RunOf(parts, capacity, ids).s)
  {
    var gone := RunAccounts(parts, capacity, ids);
  }

  lemma RunOneMore(parts: nat, capacity: nat, ids: seq<nat>, id: nat)
    ensures RunOf(parts, capacity, ids + [id]) == RunStep(parts, capacity, RunOf(parts, capacity, ids), id)
  {
    assert (ids + [id])[..|ids|] == ids;
  }

  lemma {:induction false} CallsCounted(parts: nat, capacity: nat, ids: seq<nat>)
    ensures RunOf(parts, capacity, ids).calls == |ids|
  {
    if ids != [] { CallsCounted(parts, capacity, ids[..|ids| - 1]); }
  }

  /** In every run every waiting entry holds the number of parts that have come for it. */
  lemma {:induction false} CountsAreCalls(parts: nat, capacity: nat, ids: seq<nat>, x: nat)
    requires parts >= 1 && capacity >= 1
    ensures CountsCalls(ids, RunOf(parts, capacity, ids), x)
    decreases |ids|
  {
    if ids != [] {
      var n := |ids| - 1;
      var q, id := ids[..n], ids[n];
      CountsAreCalls(parts, capacity, q, x);
      CountsAreCalls(parts, capacity, q, id);
      CountsAfter(parts, capacity, q, id, x);
      assert ids == q + [id];
    }
  }

  lemma CountsAfter(parts: nat, capacity: nat, ids: seq<nat>, id: nat, x: nat)
    requires parts >= 1 && capacity >= 1
    requires CountsCalls(ids, RunOf(parts, capacity, ids), x) && CountsCalls(ids, RunOf(parts, capacity, ids), id)
    ensures CountsCalls(ids + [id], RunOf(parts, capacity, ids + [id]), x)
  {
    CallsCounted(parts, capacity, ids);
    RunIsValid(parts, capacity, ids);
    CountsCallsStep(parts, capacity, ids, RunOf(parts, capacity, ids), id, x);
    RunOneMore(parts, capacity, ids, id);
  }

  /** The number of the call that created the entry of `id`, or of the next call if there is none. */
  function FirstCall(r: Run, id: nat): nat {
    if id in r.s.counts && id in r.born then r.born[id] else r.calls
  }

  /** The call that makes an image complete: after any calls, a call returns the image it is for
      if and only if it is the last of its parts, counted from the call that created the entry. */
  lemma CompleteOnLastPart(parts: nat, capacity: nat, ids: seq<nat>, id: nat)
    requires parts >= 1 && capacity >= 1
    ensures var r := RunOf(parts, capacity, ids);
            var first := FirstCall(r, id);
            var reply := Process(parts, capacity, r.s, id).1;
            && (if id in r.s.queue then first < |ids| && ids[first] == id else first == |ids|)
            && reply.Reply? && (reply.image == if Since(ids + [id], id, first) == parts then Some(id) else None)
  {
    RunIsValid(parts, capacity, ids);
    CallsCounted(parts, capacity, ids);
    CountsAreCalls(parts, capacity, ids, id);
    var r := RunOf(parts, capacity, ids);
    ProcessTakesFromFront(parts, capacity, r.s, id);
    SinceStep(ids, id, id, FirstCall(r, id));
  }

  // ---- The class ----

  class Synchronizer {
    const parts: nat
    const capacity: nat
    var queue: seq<nat>
    var counts: map<nat, nat>

    ghost function State(): Sync
      reads this
    {
      Sync(queue, counts)
    }

    constructor (parts: nat, capacity: nat)
      requires parts >= 1 && capacity >= 1
      ensures this.parts == parts && this.capacity == capacity && State() == Sync([], map[])
      ensures Valid(parts, capacity, State())
    {
      this.parts, this.capacity, queue, counts := parts, capacity, [], map[];
    }

    method PushNewImageToQueue(id: nat) returns (dropped: nat)
      requires id !in counts && capacity >= 1
      modifies this
      ensures State() == Push(capacity, old(State()), id) && dropped == Evicted(capacity, old(State()), id)
    {
      queue := queue + [id];
      counts := counts[id := 0];
      if |queue| > capacity {
        DropOldest();
        return 1;
      }
      return 0;
    }

    method DropOldest()
      requires queue != []
      modifies this
      ensures State() == DropFront(old(State()), 1)
    {
      var id := queue[0];
      assert queue[..1] == [id];
      queue := queue[1..];
      counts := counts - {id};
    }

    method DiscardStaleImages(id: nat) returns (corrupted: nat)
      modifies this
      ensures corrupted == Position(old(queue), id) && State() == DropFront(old(State()), corrupted)
    {
      corrupted := 0;
      assert counts == Remove(old(counts), []);
      while queue != [] && queue[0] != id
        invariant corrupted <= |old(queue)| && State() == DropFront(old(State()), corrupted)
        invariant Position(old(queue), id) == corrupted + Position(queue, id)
        decreases |queue|
      {
        ghost var was := queue;
        counts := counts - {queue[0]};
        assert old(queue)[..corrupted + 1] == old(queue)[..corrupted] + [queue[0]];
        queue := queue[1..];
        corrupted := corrupted + 1;
      }
    }

    method GetFullImage(id: nat) returns (reply: Reply)
      modifies this
      ensures var (t, k) := (old(State()), Position(old(queue), id));
              && (k == |t.queue| ==> State() == DropFront(t, k) && reply == Impossible)
              && (k < |t.queue| ==> State() == DropFront(t, k + 1) && reply == Reply(Some(id), k))
    {
      var corrupted := DiscardStaleImages(id);
      if queue == [] { return Impossible; }
      assert old(queue)[..corrupted + 1] == old(queue)[..corrupted] + [id];
      queue := queue[1..];
      counts := counts - {id};
      assert counts == Remove(old(counts), old(queue)[..corrupted + 1]);
      return Reply(Some(id), corrupted);
    }

    /** `process_image_metadata` as it stands. */
    method Handle(id: nat) returns (reply: Reply)
      requires capacity >= 1 && (id in counts || id in Push(capacity, State(), id).counts)
      modifies this
      ensures (State(), reply) == Process(parts, capacity, old(State()), id)
    {
      var corrupted := 0;
      if id !in counts { corrupted := PushNewImageToQueue(id); }
      counts := counts[id := counts[id] + 1];
      if counts[id] == parts {
        reply := GetFullImage(id);
      } else {
        reply := Reply(None, corrupted);
      }
    }

    /** It keeps the invariant and never throws. */
    method ProcessImageMetadata(id: nat) returns (reply: Reply)
      requires parts >= 1 && capacity >= 1 && Valid(parts, capacity, State())
      modifies this
      ensures (State(), reply) == Process(parts, capacity, old(State()), id)
      ensures Valid(parts, capacity, State()) && reply.Reply?
    {
      ProcessTakesFromFront(parts, capacity, State(), id);
      AdmitMatches(capacity, State(), id);
      reply := Handle(id);
    }
  }
}
