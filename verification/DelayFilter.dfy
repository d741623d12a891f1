/** The delay filter (`std-delay-filter`) and the shared memory ring it relies on
    (`ram_buffer.cpp`): metadata is held back for a while, but never so long that the
    image itself has been overwritten. */
module DelayFilter {
  import opened Wrappers
  import opened Arith

  const MIN_HISTORY: nat := 998
  const MIN_SLOTS: nat := 1000

  /** `slots_number`: as many images as fit into the memory, but not less than a minimum. */
  function SlotsNumber(ramBytes: nat, imageBytes: nat): (n: nat)
    requires imageBytes > 0
    ensures n >= MIN_SLOTS && (n > MIN_SLOTS ==> n * imageBytes <= ramBytes) && ramBytes < (n + 1) * imageBytes
  {
    var slots := ramBytes / imageBytes;
    assert slots * imageBytes <= ramBytes < (slots + 1) * imageBytes by {
      assert ramBytes == slots * imageBytes + ramBytes % imageBytes;
      assert (slots + 1) * imageBytes == slots * imageBytes + imageBytes;
    }
    assert (slots + 1) * imageBytes <= (MIN_SLOTS + 1) * imageBytes || slots > MIN_SLOTS by {
      if slots <= MIN_SLOTS { MulMonotone(slots + 1, MIN_SLOTS + 1, imageBytes); }
    }
    if slots > MIN_SLOTS then slots else MIN_SLOTS
  }

  /** Metadata of image `id` and the time it was pushed. */
  datatype Item = Item(time: int, id: nat)

  // ---- The filter as a queue ----

  /** One turn of the main loop, on a queue of less than `size` items: push, then pop the
      oldest item if the queue is full or the item is old enough. */
  function Turn(size: nat, period: int, q: seq<Item>, x: Item, now: int): (seq<Item>, Option<nat>) {
    var q' := q + [x];
    if |q'| == size || period < now - q'[0].time then (q'[1..], Some(q'[0].id)) else (q', None)
  }

  datatype Arrival = Arrival(item: Item, popTime: int)

  datatype Run = Run(queue: seq<Item>, emitted: seq<nat>)

  function RunOf(size: nat, period: int, arrivals: seq<Arrival>): Run {
    if arrivals == [] then Run([], [])
    else
      var r, a := RunOf(size, period, arrivals[..|arrivals| - 1]), arrivals[|arrivals| - 1];
      var (q, out) := Turn(size, period, r.queue, a.item, a.popTime);
      Run(q, if out.Some? then r.emitted + [out.value] else r.emitted)
  }

  function Ids(q: seq<Item>): (ids: seq<nat>)
    ensures |ids| == |q|
  {
    seq(|q|, i requires 0 <= i < |q| => q[i].id)
  }

  function Inputs(arrivals: seq<Arrival>): (ids: seq<nat>)
    ensures |ids| == |arrivals|
  {
    seq(|arrivals|, i requires 0 <= i < |arrivals| => arrivals[i].item.id)
  }

  lemma TurnIds(size: nat, period: int, q: seq<Item>, x: Item, now: int)
    requires |q| < size
    ensures var (q', out) := Turn(size, period, q, x, now);
            |q'| < size && Ids(q) + [x.id] == (if out.Some? then [out.value] else []) + Ids(q')
  {
    var q' := q + [x];
    assert Ids(q') == Ids(q) + [x.id];
    assert Ids(q') == [q'[0].id] + Ids(q'[1..]);
  }

  /** Nothing is lost, nothing is reordered: what has been emitted is a prefix of what came
      in, and the rest is waiting; less than `size` items wait. */
  lemma {:induction false} EmittedIsPrefix(size: nat, period: int, arrivals: seq<Arrival>)
    requires size >= 1
    ensures var r := RunOf(size, period, arrivals);
            |r.queue| < size && r.emitted + Ids(r.queue) == Inputs(arrivals)
  {
    if arrivals != [] {
      var n := |arrivals| - 1;
      var r, a := RunOf(size, period, arrivals[..n]), arrivals[n];
      EmittedIsPrefix(size, period, arrivals[..n]);
      TurnIds(size, period, r.queue, a.item, a.popTime);
      assert Inputs(arrivals) == Inputs(arrivals[..n]) + [a.item.id];
      var (q, out) := Turn(size, period, r.queue, a.item, a.popTime);
      AppendAssoc(r.emitted, Ids(r.queue), a.item.id, if out.Some? then [out.value] else [], Ids(q));
    }
  }

  lemma AppendAssoc(emitted: seq<nat>, waiting: seq<nat>, id: nat, out: seq<nat>, left: seq<nat>)
    requires waiting + [id] == out + left
    ensures emitted + waiting + [id] == emitted + out + left
  {
    assert emitted + waiting + [id] == emitted + (waiting + [id]);
  }

  function Items(arrivals: seq<Arrival>): (items: seq<Item>)
    ensures |items| == |arrivals|
  {
    seq(|arrivals|, i requires 0 <= i < |arrivals| => arrivals[i].item)
  }

  /** The queue holds the arrivals that have not been emitted, with their times. */
  lemma {:induction false} QueueIsRest(size: nat, period: int, arrivals: seq<Arrival>)
    requires size >= 1
    ensures var r := RunOf(size, period, arrivals);
            |r.emitted| <= |arrivals| && r.queue == Items(arrivals[|r.emitted|..])
  {
    if arrivals != [] {
      var n := |arrivals| - 1;
      var r, a := RunOf(size, period, arrivals[..n]), arrivals[n];
      QueueIsRest(size, period, arrivals[..n]);
      ItemsStep(arrivals, |r.emitted|);
    }
  }

  lemma ItemsStep(arrivals: seq<Arrival>, e: nat)
    requires arrivals != [] && e <= |arrivals| - 1
    ensures Items(arrivals[e..]) == Items(arrivals[..|arrivals| - 1][e..]) + [arrivals[|arrivals| - 1].item]
    ensures Items(arrivals[e..])[1..] == Items(arrivals[e + 1..])
  {
  }

  /** When an item leaves: on every arrival the oldest item that waits is emitted if and only if
      the ring is full or the item has been held for longer than the period. */
  lemma HeldUntil(size: nat, period: int, arrivals: seq<Arrival>)
    requires size >= 1 && arrivals != []
    ensures var n := |arrivals| - 1;
            var (r, r') := (RunOf(size, period, arrivals[..n]), RunOf(size, period, arrivals));
            var e := |r.emitted|;
            && e <= n
            && r'.emitted == r.emitted
                             + if n + 1 - e == size || period < arrivals[n].popTime - arrivals[e].item.time
                               then [arrivals[e].item.id] else []
  {
    var n := |arrivals| - 1;
    QueueIsRest(size, period, arrivals[..n]);
    ItemsStep(arrivals, |RunOf(size, period, arrivals[..n]).emitted|);
  }

  // ---- The ring ----

  /** Index `i` steps after `begin`, at most one turn of the ring. */
  function Wrap(size: nat, begin: nat, i: nat): nat {
    if begin + i < size then begin + i else begin + i - size
  }

  /** `increment`. */
  function Increment(size: nat, index: nat): (j: nat)
    requires index < size
    ensures j == Wrap(size, index, 1)
  {
    NextIndex(size, index);
    (index + 1) % size
  }

  lemma NextIndex(size: nat, index: nat)
    requires index < size
    ensures (index + 1) % size == Wrap(size, index, 1)
  {
    if index + 1 == size {
      DivModUnique(index + 1, 1, 0, size);
    } else {
      DivModUnique(index + 1, 0, index + 1, size);
    }
  }

  class MetaBuffer {
    const buffer: array<Item>
    const period: int
    var begin: nat
    var end: nat
    /** The items between `begin` and `end`; when these are equal the ring is empty before a
        push and full after it. */
    ghost var contents: seq<Item>

    ghost predicate Valid()
      reads this, buffer
    {
      && buffer.Length > 0 && begin < buffer.Length && end < buffer.Length
      && |contents| <= buffer.Length && end == Wrap(buffer.Length, begin, |contents|)
      && forall i :: 0 <= i < |contents| ==> buffer[Wrap(buffer.Length, begin, i)] == contents[i]
    }

    constructor (slots: nat, period: int)
      requires slots >= MIN_SLOTS
      ensures Valid() && contents == [] && buffer.Length == slots - MIN_HISTORY && this.period == period
      ensures fresh(buffer)
    {
      buffer := new Item[slots - MIN_HISTORY](_ => Item(0, 0));
      this.period, begin, end, contents := period, 0, 0, [];
    }

    method Push(x: Item)
      requires Valid() && |contents| < buffer.Length
      modifies this, buffer
      ensures Valid() && contents == old(contents) + [x]
    {
      buffer[end] := x;
      end := Increment(buffer.Length, end);
      contents := contents + [x];
    }

    /** Pops the oldest item if the ring is full or the item is old enough. */
    method Pop(now: int) returns (id: Option<nat>)
      requires Valid() && contents != []
      modifies this
      ensures Valid()
      ensures var out := |old(contents)| == buffer.Length || period < now - old(contents)[0].time;
              && id == (if out then Some(old(contents)[0].id) else None)
              && contents == (if out then old(contents)[1..] else old(contents))
    {
      var index := begin;
      if index == end || period < now - buffer[index].time {
        begin := Increment(buffer.Length, begin);
        contents := contents[1..];
        return Some(buffer[index].id);
      }
      return None;
    }

    /** The body of the main loop. */
    method OnImage(x: Item, now: int) returns (id: Option<nat>)
      requires Valid() && |contents| < buffer.Length
      modifies this, buffer
      ensures Valid() && (contents, id) == Turn(buffer.Length, period, old(contents), x, now)
      ensures |contents| < buffer.Length
    {
      Push(x);
      id := Pop(now);
    }
  }

  // ---- The images in shared memory ----

  /** What is in a slot after images have been written: the last one with that slot number. */
  function InSlot(slots: nat, written: seq<nat>, slot: nat): Option<nat>
    requires slots > 0
  {
    if written == [] then None
    else if written[|written| - 1] % slots == slot then Some(written[|written| - 1])
    else InSlot(slots, written[..|written| - 1], slot)
  }

  ghost predicate Consecutive(ids: seq<nat>) {
    forall i :: 0 <= i < |ids| ==> ids[i] == ids[0] + i
  }

  lemma DifferentSlots(a: nat, b: nat, slots: nat)
    requires a < b < a + slots
    ensures a % slots != b % slots
  {
    var q, r := a / slots, a % slots;
    assert a == q * slots + r;
    var d := b - a;
    if r + d < slots {
      DivModUnique(b, q, r + d, slots);
    } else {
      assert (q + 1) * slots == q * slots + slots;
      DivModUnique(b, q + 1, r + d - slots, slots);
    }
  }

  /** Consecutive images survive for one turn of the ring. */
  lemma {:induction false} StaysInSlot(slots: nat, written: seq<nat>, e: nat)
    requires slots > 0 && Consecutive(written) && e < |written| <= e + slots
    ensures InSlot(slots, written, written[e] % slots) == Some(written[e])
    decreases |written|
  {
    var n := |written| - 1;
    if e < n {
      assert written[..n][e] == written[e];
      StaysInSlot(slots, written[..n], e);
      DifferentSlots(written[e], written[n], slots);
    }
  }

  /** An image that the filter emits is still in its slot, and stays there while 998 further
      images are written. */
  lemma EmittedStillInRam(slots: nat, period: int, arrivals: seq<Arrival>, written: seq<nat>)
    requires slots >= MIN_SLOTS && arrivals != []
    requires Consecutive(written) && Inputs(arrivals) <= written && |written| <= |arrivals| + MIN_HISTORY
    ensures var size := slots - MIN_HISTORY;
            var (r, r') := (RunOf(size, period, arrivals[..|arrivals| - 1]), RunOf(size, period, arrivals));
            r'.emitted != r.emitted ==>
              && |r'.emitted| == |r.emitted| + 1
              && (var id := r'.emitted[|r.emitted|]; InSlot(slots, written, id % slots) == Some(id))
  {
    var size, n := slots - MIN_HISTORY, |arrivals| - 1;
    var r, r' := RunOf(size, period, arrivals[..n]), RunOf(size, period, arrivals);
    if r'.emitted != r.emitted {
      EmittedIsPrefix(size, period, arrivals[..n]);
      EmittedIsPrefix(size, period, arrivals);
      var e := |r.emitted|;
      assert r'.emitted[e] == (r'.emitted + Ids(r'.queue))[e] == Inputs(arrivals)[e] == written[e];
      StaysInSlot(slots, written, e);
    }
  }
}
