/** Assembling frames from UDP packets: the packet loops of the Gigafrost and of the Eiger
    receiver.  They flush a frame at different moments; both refine one grouping of the
    packets by frame id. */
module FrameAssembly {
  const INVALID_IMAGE_ID: nat := 0xFFFF_FFFF_FFFF_FFFF

  /** Packet `index` of frame `id`. */
  datatype Packet = Packet(id: nat, index: nat, data: seq<bv8>)

  datatype Frame = Frame(id: nat, missing: int, bytes: seq<bv8>)

  /** `n` packets make a frame; packet `i` fills the bytes from `off(i)` to `off(i + 1)`. */
  datatype Layout = Layout(n: nat, off: nat -> nat)
  {
    ghost predicate Valid() {
      && n > 0 && off(0) == 0
      && (forall i, j :: 0 <= i <= j <= n ==> off(i) <= off(j))
    }
  }

  /** Packets carry as many bytes as their place holds. */
  ghost predicate Fits(l: Layout, p: Packet) {
    p.index < l.n && p.id < INVALID_IMAGE_ID && l.off(p.index) <= l.off(p.index + 1) <= l.off(p.index) + |p.data|
  }

  function Payload(l: Layout, p: Packet): seq<bv8>
    requires Fits(l, p)
  {
    p.data[..l.off(p.index + 1) - l.off(p.index)]
  }

  function Paint(l: Layout, buffer: seq<bv8>, p: Packet): (r: seq<bv8>)
    requires Fits(l, p) && l.off(p.index + 1) <= |buffer|
    ensures |r| == |buffer|
  {
    buffer[..l.off(p.index)] + Payload(l, p) + buffer[l.off(p.index + 1)..]
  }

  /** The variables of the receiver and what it has sent. */
  datatype Receiver = Receiver(id: nat, missing: int, buffer: seq<bv8>, sent: seq<Frame>)

  ghost predicate Ready(l: Layout, r: Receiver, p: Packet) {
    Fits(l, p) && l.off(p.index + 1) <= |r.buffer|
  }

  /** `send_image_id`. */
  function Flush(r: Receiver): Receiver {
    r.(sent := r.sent + [Frame(r.id, r.missing, r.buffer)], id := INVALID_IMAGE_ID)
  }

  /** `init_frame_metadata`, after the previous frame has been sent if it had not been. */
  function NewFrame(l: Layout, r: Receiver, p: Packet): Receiver {
    (if r.id != INVALID_IMAGE_ID then Flush(r) else r).(id := p.id, missing := l.n)
  }

  function Accumulate(l: Layout, r: Receiver, p: Packet): Receiver
    requires Ready(l, r, p)
  {
    r.(missing := r.missing - 1, buffer := Paint(l, r.buffer, p))
  }

  /** The Gigafrost receiver: the last packet of a frame sends it. */
  function GigafrostStep(l: Layout, r: Receiver, p: Packet): Receiver
    requires Ready(l, r, p)
  {
    var r' := Accumulate(l, if r.id == p.id then r else NewFrame(l, r, p), p);
    if p.index == l.n - 1 then Flush(r') else r'
  }

  /** The Eiger receiver: the last packet sends a frame unless it is also the first one. */
  function EigerStep(l: Layout, r: Receiver, p: Packet): Receiver
    requires Ready(l, r, p)
  {
    if r.id == p.id then
      var r' := Accumulate(l, r, p);
      if p.index == l.n - 1 then Flush(r') else r'
    else Accumulate(l, NewFrame(l, r, p), p)
  }

  datatype Detector = Gigafrost | Eiger

  function Step(d: Detector, l: Layout, r: Receiver, p: Packet): (r': Receiver)
    requires Ready(l, r, p)
    ensures |r'.buffer| == |r.buffer|
  {
    if d == Gigafrost then GigafrostStep(l, r, p) else EigerStep(l, r, p)
  }

  /** The receiver after the packets of a stream. */
  function Run(d: Detector, l: Layout, r0: Receiver, ps: seq<Packet>): (r: Receiver)
    requires forall i :: 0 <= i < |ps| ==> Ready(l, r0, ps[i])
    ensures |r.buffer| == |r0.buffer|
  {
    if ps == [] then r0
    else
      var r := Run(d, l, r0, ps[..|ps| - 1]);
      assert Ready(l, r0, ps[|ps| - 1]);
      Step(d, l, r, ps[|ps| - 1])
  }

  ghost predicate Start(l: Layout, r: Receiver) {
    r.id == INVALID_IMAGE_ID && r.sent == [] && |r.buffer| == l.off(l.n)
  }

  /** Packets come in order or not at all. */
  ghost predicate InOrder(ps: seq<Packet>) {
    forall i, j {:trigger Follows(ps[i], ps[j])} :: 0 <= i < j < |ps| ==> Follows(ps[i], ps[j])
  }

  predicate Follows(p: Packet, q: Packet) {
    p.id < q.id || (p.id == q.id && p.index < q.index)
  }

  ghost predicate Stream(l: Layout, ps: seq<Packet>) {
    InOrder(ps) && forall i :: 0 <= i < |ps| ==> Fits(l, ps[i])
  }

  // ---- The grouping ----

  /** How many packets of frame `id` there are, and their payloads in a row. */
  function Count(ps: seq<Packet>, id: nat): nat {
    if ps == [] then 0 else Count(ps[..|ps| - 1], id) + (if ps[|ps| - 1].id == id then 1 else 0)
  }

  function Payloads(l: Layout, ps: seq<Packet>, id: nat): seq<bv8>
    requires forall i :: 0 <= i < |ps| ==> Fits(l, ps[i])
  {
    if ps == [] then []
    else Payloads(l, ps[..|ps| - 1], id) + (if ps[|ps| - 1].id == id then Payload(l, ps[|ps| - 1]) else [])
  }

  /** The ids in a stream, each once, in the order of their first packets. */
  function Ids(ps: seq<Packet>): seq<nat> {
    if ps == [] then []
    else
      var n := |ps| - 1;
      if n > 0 && ps[n - 1].id == ps[n].id then Ids(ps[..n]) else Ids(ps[..n]) + [ps[n].id]
  }

  /** The payload of a packet is where it belongs. */
  ghost predicate At(l: Layout, p: Packet, bytes: seq<bv8>)
    requires Fits(l, p)
  {
    l.off(p.index + 1) <= |bytes| && bytes[l.off(p.index)..l.off(p.index + 1)] == Payload(l, p)
  }

  /** So are the payloads of all packets of frame `id` that have come. */
  ghost predicate Placed(l: Layout, ps: seq<Packet>, id: nat, bytes: seq<bv8>)
    requires forall i :: 0 <= i < |ps| ==> Fits(l, ps[i])
  {
    forall i :: 0 <= i < |ps| && ps[i].id == id ==> At(l, ps[i], bytes)
  }

  /** A frame that has been sent tells how many of its packets are missing, holds those that
      have come, each in its place, and one that is complete holds nothing else. */
  ghost predicate FrameOf(l: Layout, ps: seq<Packet>, f: Frame)
    requires forall i :: 0 <= i < |ps| ==> Fits(l, ps[i])
  {
    && f.missing == l.n - Count(ps, f.id)
    && 0 <= f.missing < l.n
    && Placed(l, ps, f.id, f.bytes)
    && (f.missing == 0 ==> f.bytes == Payloads(l, ps, f.id))
  }

  /** The frame being assembled: `m` of its packets have come, and if none of the first ones
      is missing their payloads fill the beginning of the buffer. */
  ghost predicate Pending(l: Layout, ps: seq<Packet>, buffer: seq<bv8>)
    requires ps != [] && forall i :: 0 <= i < |ps| ==> Fits(l, ps[i])
  {
    var p := ps[|ps| - 1];
    var m := Count(ps, p.id);
    && 1 <= m <= p.index + 1
    && |buffer| == l.off(l.n)
    && Placed(l, ps, p.id, buffer)
    && (m == p.index + 1 ==> l.off(m) <= |buffer| && buffer[..l.off(m)] == Payloads(l, ps, p.id))
  }

  ghost predicate Sent(l: Layout, ps: seq<Packet>, sent: seq<Frame>, n: nat)
    requires forall i :: 0 <= i < |ps| ==> Fits(l, ps[i])
  {
    && |sent| == n <= |Ids(ps)|
    && forall k :: 0 <= k < n ==> sent[k].id == Ids(ps)[k] && FrameOf(l, ps, sent[k])
  }

  /** Every frame has been sent once, in order, except perhaps the last one. */
  ghost predicate Inv(l: Layout, ps: seq<Packet>, r: Receiver)
    requires forall i :: 0 <= i < |ps| ==> Fits(l, ps[i])
  {
    && |r.buffer| == l.off(l.n)
    && (ps == [] ==> r.id == INVALID_IMAGE_ID && r.sent == [])
    && (ps != [] ==> Pending(l, ps, r.buffer) && Ids(ps) != [] && Ids(ps)[|Ids(ps)| - 1] == ps[|ps| - 1].id)
    && (ps != [] && r.id != INVALID_IMAGE_ID ==>
          && r.id == ps[|ps| - 1].id && r.missing == l.n - Count(ps, r.id)
          && Sent(l, ps, r.sent, |Ids(ps)| - 1))
    && (ps != [] && r.id == INVALID_IMAGE_ID ==> ps[|ps| - 1].index == l.n - 1 && Sent(l, ps, r.sent, |Ids(ps)|))
  }

  // ---- Facts about the grouping ----

  lemma Snoc(ps: seq<Packet>, p: Packet)
    ensures (ps + [p])[..|ps|] == ps
  {
  }

  lemma CountStep(ps: seq<Packet>, p: Packet, id: nat)
    ensures Count(ps + [p], id) == Count(ps, id) + (if p.id == id then 1 else 0)
  {
    Snoc(ps, p);
  }

  lemma PayloadsStep(l: Layout, ps: seq<Packet>, p: Packet, id: nat)
    requires (forall i :: 0 <= i < |ps| ==> Fits(l, ps[i])) && Fits(l, p)
    ensures forall i :: 0 <= i < |ps + [p]| ==> Fits(l, (ps + [p])[i])
    ensures Payloads(l, ps + [p], id) == Payloads(l, ps, id) + (if p.id == id then Payload(l, p) else [])
  {
    Snoc(ps, p);
  }

  lemma {:induction false} Unseen(l: Layout, ps: seq<Packet>, id: nat)
    requires forall i :: 0 <= i < |ps| ==> Fits(l, ps[i])
    requires forall i :: 0 <= i < |ps| ==> ps[i].id != id
    ensures Count(ps, id) == 0 && Payloads(l, ps, id) == []
  {
    if ps != [] { Unseen(l, ps[..|ps| - 1], id); }
  }

  lemma IdsStep(ps: seq<Packet>, p: Packet)
    ensures Ids(ps + [p]) == if ps != [] && ps[|ps| - 1].id == p.id then Ids(ps) else Ids(ps) + [p.id]
  {
    Snoc(ps, p);
  }

  ghost predicate Increasing(ids: seq<nat>) {
    forall i, j :: 0 <= i < j < |ids| ==> ids[i] < ids[j]
  }

  ghost predicate Seen(ps: seq<Packet>, id: nat) {
    exists i :: 0 <= i < |ps| && ps[i].id == id
  }

  lemma SeenStep(ps: seq<Packet>, p: Packet, id: nat)
    ensures Seen(ps + [p], id) <==> Seen(ps, id) || id == p.id
  {
    var all := ps + [p];
    assert all[|ps|] == p;
    if Seen(ps, id) {
      var i :| 0 <= i < |ps| && ps[i].id == id;
      assert all[i].id == id;
    }
  }

  lemma {:induction false} IdsAreSeen(ps: seq<Packet>, id: nat)
    ensures id in Ids(ps) <==> Seen(ps, id)
  {
    if ps != [] {
      var n := |ps| - 1;
      assert ps == ps[..n] + [ps[n]];
      IdsAreSeen(ps[..n], id);
      SeenStep(ps[..n], ps[n], id);
    }
  }

  /** The ids of an ordered stream increase, so no two frames have the same one. */
  lemma {:induction false} IdsIncrease(ps: seq<Packet>)
    requires InOrder(ps)
    ensures Increasing(Ids(ps))
    ensures ps != [] ==> Ids(ps) != [] && Ids(ps)[|Ids(ps)| - 1] == ps[|ps| - 1].id
  {
    if ps != [] {
      var n := |ps| - 1;
      assert InOrder(ps[..n]) by {
        forall i, j | 0 <= i < j < n
          ensures Follows(ps[..n][i], ps[..n][j])
        {
          assert Follows(ps[i], ps[j]);
        }
      }
      IdsIncrease(ps[..n]);
      assert n > 0 ==> ps[..n][n - 1] == ps[n - 1] && Follows(ps[n - 1], ps[n]);
    }
  }

  // ---- One packet ----

  lemma PaintedPrefix(l: Layout, buffer: seq<bv8>, p: Packet)
    requires l.Valid() && Fits(l, p) && |buffer| == l.off(l.n) && l.off(p.index + 1) <= |buffer|
    ensures Paint(l, buffer, p)[..l.off(p.index + 1)] == buffer[..l.off(p.index)] + Payload(l, p)
  {
  }

  lemma PaintKeeps(l: Layout, buffer: seq<bv8>, p: Packet, q: Packet)
    requires l.Valid() && Fits(l, p) && Fits(l, q) && l.off(p.index + 1) <= |buffer|
    requires q.index < p.index && At(l, q, buffer)
    ensures At(l, q, Paint(l, buffer, p))
  {
    assert l.off(q.index + 1) <= l.off(p.index);
    assert Paint(l, buffer, p)[..l.off(p.index)] == buffer[..l.off(p.index)];
    SliceOfPrefix(Paint(l, buffer, p), buffer, l.off(q.index), l.off(q.index + 1), l.off(p.index));
  }

  lemma SliceOfPrefix(a: seq<bv8>, b: seq<bv8>, i: nat, j: nat, n: nat)
    requires i <= j <= n <= |a| && n <= |b| && a[..n] == b[..n]
    ensures a[i..j] == b[i..j]
  {
    forall k | i <= k < j
      ensures a[k] == b[k]
    {
      assert a[..n][k] == b[..n][k];
    }
  }

  lemma PaintPlaces(l: Layout, buffer: seq<bv8>, p: Packet)
    requires Fits(l, p) && l.off(p.index + 1) <= |buffer|
    ensures At(l, p, Paint(l, buffer, p))
  {
  }

  /** A packet goes to its place and leaves the packets of its frame before it alone. */
  lemma PlacedStep(l: Layout, ps: seq<Packet>, buffer: seq<bv8>, p: Packet)
    requires l.Valid() && Stream(l, ps + [p]) && Stream(l, ps) && Fits(l, p) && l.off(p.index + 1) <= |buffer|
    requires ps != [] && ps[|ps| - 1].id == p.id ==> Placed(l, ps, p.id, buffer)
    ensures Placed(l, ps + [p], p.id, Paint(l, buffer, p))
  {
    var all := ps + [p];
    Before(l, ps, p);
    forall i | 0 <= i < |all| && all[i].id == p.id
      ensures At(l, all[i], Paint(l, buffer, p))
    {
      if i == |ps| {
        PaintPlaces(l, buffer, p);
      } else {
        assert all[i] == ps[i] && all[|ps|] == p && Follows(all[i], all[|ps|]);
        PaintKeeps(l, buffer, p, ps[i]);
      }
    }
  }

  lemma PendingFirst(l: Layout, ps: seq<Packet>, buffer: seq<bv8>, p: Packet)
    requires l.Valid() && Stream(l, ps + [p]) && |buffer| == l.off(l.n) && l.off(p.index + 1) <= |buffer|
    requires ps != [] ==> ps[|ps| - 1].id != p.id
    ensures Count(ps + [p], p.id) == 1
    ensures Pending(l, ps + [p], Paint(l, buffer, p))
  {
    Before(l, ps, p);
    Unseen(l, ps, p.id);
    CountStep(ps, p, p.id);
    assert Fits(l, (ps + [p])[|ps|]);
    PayloadsStep(l, ps, p, p.id);
    PaintedPrefix(l, buffer, p);
    PlacedStep(l, ps, buffer, p);
    assert [] + Payload(l, p) == Payload(l, p);
  }

  /** The packets before a new frame belong to other frames. */
  lemma Before(l: Layout, ps: seq<Packet>, p: Packet)
    requires Stream(l, ps + [p])
    ensures Stream(l, ps)
    ensures ps != [] && ps[|ps| - 1].id != p.id ==> forall i :: 0 <= i < |ps| ==> ps[i].id < p.id
    ensures ps != [] && ps[|ps| - 1].id == p.id ==> ps[|ps| - 1].index < p.index
  {
    var all := ps + [p];
    forall i | 0 <= i < |ps|
      ensures Fits(l, ps[i]) && ps[i].id <= ps[|ps| - 1].id <= p.id
    {
      assert all[i] == ps[i] && Fits(l, all[i]);
      assert all[|ps|] == p && all[|ps| - 1] == ps[|ps| - 1];
      assert Follows(all[|ps| - 1], all[|ps|]);
      assert i < |ps| - 1 ==> Follows(all[i], all[|ps| - 1]);
    }
    forall i, j | 0 <= i < j < |ps|
      ensures Follows(ps[i], ps[j])
    {
      assert Follows(all[i], all[j]);
    }
    if ps != [] { assert Follows(all[|ps| - 1], all[|ps|]); }
  }

  lemma PendingNext(l: Layout, ps: seq<Packet>, buffer: seq<bv8>, p: Packet)
    requires l.Valid() && Stream(l, ps + [p]) && Stream(l, ps) && ps != [] && ps[|ps| - 1].id == p.id
    requires Pending(l, ps, buffer) && l.off(p.index + 1) <= |buffer|
    ensures Count(ps + [p], p.id) == Count(ps, p.id) + 1
    ensures Pending(l, ps + [p], Paint(l, buffer, p))
  {
    Before(l, ps, p);
    CountStep(ps, p, p.id);
    PayloadsStep(l, ps, p, p.id);
    PaintedPrefix(l, buffer, p);
    PlacedStep(l, ps, buffer, p);
  }

  /** The frame that is being assembled, as it is sent. */
  lemma FlushedFrame(l: Layout, ps: seq<Packet>, r: Receiver)
    requires l.Valid() && Stream(l, ps) && ps != [] && Pending(l, ps, r.buffer)
    requires r.id == ps[|ps| - 1].id && r.missing == l.n - Count(ps, r.id)
    ensures FrameOf(l, ps, Frame(r.id, r.missing, r.buffer))
  {
    assert Fits(l, ps[|ps| - 1]);
  }

  /** Packets of another frame do not concern a frame that has been sent. */
  lemma FrameStays(l: Layout, ps: seq<Packet>, p: Packet, f: Frame)
    requires (forall i :: 0 <= i < |ps| ==> Fits(l, ps[i])) && Fits(l, p) && FrameOf(l, ps, f) && f.id != p.id
    ensures forall i :: 0 <= i < |ps + [p]| ==> Fits(l, (ps + [p])[i])
    ensures FrameOf(l, ps + [p], f)
  {
    CountStep(ps, p, f.id);
    PayloadsStep(l, ps, p, f.id);
  }

  lemma SentStays(l: Layout, ps: seq<Packet>, p: Packet, sent: seq<Frame>, n: nat)
    requires Stream(l, ps) && Stream(l, ps + [p]) && Sent(l, ps, sent, n)
    requires forall k :: 0 <= k < n ==> Ids(ps)[k] != p.id
    ensures Sent(l, ps + [p], sent, n)
  {
    IdsStep(ps, p);
    assert (ps + [p])[|ps|] == p;
    forall k | 0 <= k < n
      ensures sent[k].id == Ids(ps + [p])[k] && FrameOf(l, ps + [p], sent[k])
    {
      FrameStays(l, ps, p, sent[k]);
    }
  }

  lemma SentOneMore(l: Layout, ps: seq<Packet>, sent: seq<Frame>, f: Frame)
    requires Stream(l, ps) && ps != [] && Ids(ps) != [] && Sent(l, ps, sent, |Ids(ps)| - 1)
    requires f.id == Ids(ps)[|Ids(ps)| - 1] && FrameOf(l, ps, f)
    ensures Sent(l, ps, sent + [f], |Ids(ps)|)
  {
  }

  /** Everything up to `ps` has been sent, whether the last packet did it or not. */
  lemma FlushAll(l: Layout, ps: seq<Packet>, r: Receiver) returns (r': Receiver)
    requires l.Valid() && Stream(l, ps) && Inv(l, ps, r)
    ensures r' == (if r.id != INVALID_IMAGE_ID then Flush(r) else r) && Sent(l, ps, r'.sent, |Ids(ps)|)
    ensures r'.buffer == r.buffer
  {
    r' := if r.id != INVALID_IMAGE_ID then Flush(r) else r;
    if r.id != INVALID_IMAGE_ID {
      FlushedFrame(l, ps, r);
      SentOneMore(l, ps, r.sent, Frame(r.id, r.missing, r.buffer));
    }
  }

  lemma NewIdUnseen(l: Layout, ps: seq<Packet>, p: Packet)
    requires Stream(l, ps + [p]) && (ps != [] ==> ps[|ps| - 1].id != p.id)
    ensures p.id !in Ids(ps) && Ids(ps + [p]) == Ids(ps) + [p.id]
  {
    Before(l, ps, p);
    IdsAreSeen(ps, p.id);
    IdsStep(ps, p);
  }

  /** All frames before a new one have been sent. */
  lemma EarlierSent(l: Layout, ps: seq<Packet>, r: Receiver, p: Packet) returns (f: Receiver)
    requires l.Valid() && Stream(l, ps + [p]) && Stream(l, ps) && Inv(l, ps, r)
    requires ps != [] ==> ps[|ps| - 1].id != p.id
    ensures f == (if r.id != INVALID_IMAGE_ID then Flush(r) else r) && f.buffer == r.buffer
    ensures Sent(l, ps + [p], f.sent, |Ids(ps + [p])| - 1)
  {
    f := FlushAll(l, ps, r);
    NewIdUnseen(l, ps, p);
    SentStays(l, ps, p, f.sent, |Ids(ps)|);
  }

  /** The invariant while the last frame is being assembled. */
  lemma Assembling(l: Layout, ps: seq<Packet>, r: Receiver)
    requires ps != [] && (forall i :: 0 <= i < |ps| ==> Fits(l, ps[i])) && Pending(l, ps, r.buffer)
    requires Ids(ps) != [] && Ids(ps)[|Ids(ps)| - 1] == ps[|ps| - 1].id == r.id != INVALID_IMAGE_ID
    requires r.missing == l.n - Count(ps, r.id) && Sent(l, ps, r.sent, |Ids(ps)| - 1)
    ensures Inv(l, ps, r)
  {
  }

  /** What the first packet of a frame makes of the variables. */
  lemma NewFrameIs(l: Layout, r: Receiver, f: Receiver, p: Packet)
    requires Ready(l, r, p) && f == (if r.id != INVALID_IMAGE_ID then Flush(r) else r)
    ensures Accumulate(l, NewFrame(l, r, p), p) == Receiver(p.id, l.n - 1, Paint(l, r.buffer, p), f.sent)
  {
  }

  /** What is known of a stream that has just started a frame. */
  lemma FirstFacts(l: Layout, ps: seq<Packet>, p: Packet, buffer: seq<bv8>) returns (all: seq<Packet>)
    requires l.Valid() && Stream(l, ps + [p]) && |buffer| == l.off(l.n)
    requires ps != [] ==> ps[|ps| - 1].id != p.id
    ensures all == ps + [p] && all != [] && all[|all| - 1] == p && Fits(l, p) && l.off(p.index + 1) <= |buffer|
    ensures forall i :: 0 <= i < |all| ==> Fits(l, all[i])
    ensures Count(all, p.id) == 1 && Pending(l, all, Paint(l, buffer, p))
    ensures Ids(all) != [] && Ids(all)[|Ids(all)| - 1] == p.id
  {
    all := ps + [p];
    assert all[|ps|] == p && Fits(l, all[|ps|]);
    IdsStep(ps, p);
    PendingFirst(l, ps, buffer, p);
  }

  lemma FirstAssembling(l: Layout, ps: seq<Packet>, p: Packet, buffer: seq<bv8>, sent: seq<Frame>)
    requires l.Valid() && Stream(l, ps + [p]) && |buffer| == l.off(l.n) && Fits(l, p) && l.off(p.index + 1) <= |buffer|
    requires ps != [] ==> ps[|ps| - 1].id != p.id
    requires Sent(l, ps + [p], sent, |Ids(ps + [p])| - 1)
    ensures Inv(l, ps + [p], Receiver(p.id, l.n - 1, Paint(l, buffer, p), sent))
  {
    var all := FirstFacts(l, ps, p, buffer);
    Assembling(l, all, Receiver(p.id, l.n - 1, Paint(l, buffer, p), sent));
  }

  /** A packet of a new frame. */
  lemma FirstPacket(l: Layout, ps: seq<Packet>, r: Receiver, p: Packet)
    requires l.Valid() && Stream(l, ps + [p]) && Stream(l, ps) && Inv(l, ps, r) && Ready(l, r, p)
    requires ps != [] ==> ps[|ps| - 1].id != p.id
    ensures r.id != p.id && Inv(l, ps + [p], Accumulate(l, NewFrame(l, r, p), p))
    ensures Accumulate(l, NewFrame(l, r, p), p).id != INVALID_IMAGE_ID
  {
    var f := EarlierSent(l, ps, r, p);
    NewFrameIs(l, r, f, p);
    FirstAssembling(l, ps, p, r.buffer, f.sent);
  }

  /** A further packet of the current frame. */
  lemma NextPacket(l: Layout, ps: seq<Packet>, r: Receiver, p: Packet)
    requires l.Valid() && Stream(l, ps + [p]) && Stream(l, ps) && Inv(l, ps, r) && Ready(l, r, p)
    requires ps != [] && ps[|ps| - 1].id == p.id
    ensures r.id == p.id && Inv(l, ps + [p], Accumulate(l, r, p)) && r.id != INVALID_IMAGE_ID
  {
    Before(l, ps, p);
    IdsIncrease(ps);
    IdsStep(ps, p);
    SentStays(l, ps, p, r.sent, |Ids(ps)| - 1);
    PendingNext(l, ps, r.buffer, p);
  }

  /** The last packet of a frame may send it. */
  lemma LastPacket(l: Layout, ps: seq<Packet>, r: Receiver)
    requires l.Valid() && Stream(l, ps) && ps != [] && Inv(l, ps, r) && r.id != INVALID_IMAGE_ID
    requires ps[|ps| - 1].index == l.n - 1
    ensures Inv(l, ps, Flush(r))
  {
    var r' := FlushAll(l, ps, r);
  }

  lemma StepKeeps(d: Detector, l: Layout, ps: seq<Packet>, r: Receiver, p: Packet)
    requires l.Valid() && Stream(l, ps + [p]) && Stream(l, ps) && Inv(l, ps, r) && Ready(l, r, p)
    ensures Inv(l, ps + [p], Step(d, l, r, p))
  {
    var all := ps + [p];
    assert all[|all| - 1] == p;
    if ps != [] && ps[|ps| - 1].id == p.id {
      NextPacket(l, ps, r, p);
      if p.index == l.n - 1 { LastPacket(l, all, Accumulate(l, r, p)); }
    } else {
      FirstPacket(l, ps, r, p);
      if p.index == l.n - 1 { LastPacket(l, all, Accumulate(l, NewFrame(l, r, p), p)); }
    }
  }

  // ---- Whole streams ----

  lemma AllReady(l: Layout, r0: Receiver, ps: seq<Packet>)
    requires l.Valid() && Stream(l, ps) && |r0.buffer| == l.off(l.n)
    ensures forall i :: 0 <= i < |ps| ==> Ready(l, r0, ps[i])
  {
    forall i | 0 <= i < |ps|
      ensures Ready(l, r0, ps[i])
    {
      assert Fits(l, ps[i]);
    }
  }

  lemma {:induction false} RunKeeps(d: Detector, l: Layout, r0: Receiver, ps: seq<Packet>)
    requires l.Valid() && Stream(l, ps) && Start(l, r0) && forall i :: 0 <= i < |ps| ==> Ready(l, r0, ps[i])
    ensures Inv(l, ps, Run(d, l, r0, ps))
  {
    if ps != [] {
      var n := |ps| - 1;
      var q, p := ps[..n], ps[n];
      assert ps == q + [p];
      Before(l, q, p);
      assert forall i :: 0 <= i < n ==> q[i] == ps[i];
      RunKeeps(d, l, r0, q);
      assert Ready(l, r0, ps[n]);
      StepKeeps(d, l, q, Run(d, l, r0, q), p);
    }
  }

  /** When the last frame of a stream has been sent: the Gigafrost receiver sends a frame on its
      last packet, the Eiger receiver only if that packet is not the first of the frame that
      has come.  Otherwise the frame waits for the next one. */
  predicate LastIsSent(d: Detector, l: Layout, ps: seq<Packet>) {
    var n := |ps| - 1;
    || ps == []
    || (ps[n].index == l.n - 1 && (d == Eiger ==> n > 0 && ps[n - 1].id == ps[n].id))
  }

  lemma StepSends(d: Detector, l: Layout, ps: seq<Packet>, r: Receiver, p: Packet)
    requires l.Valid() && Stream(l, ps + [p]) && Stream(l, ps) && Inv(l, ps, r) && Ready(l, r, p)
    ensures Step(d, l, r, p).id == INVALID_IMAGE_ID <==> LastIsSent(d, l, ps + [p])
  {
    if ps != [] && ps[|ps| - 1].id == p.id {
      NextPacket(l, ps, r, p);
    } else {
      FirstPacket(l, ps, r, p);
    }
  }

  lemma RunSends(d: Detector, l: Layout, r0: Receiver, ps: seq<Packet>)
    requires l.Valid() && Stream(l, ps) && Start(l, r0) && forall i :: 0 <= i < |ps| ==> Ready(l, r0, ps[i])
    ensures Run(d, l, r0, ps).id == INVALID_IMAGE_ID <==> LastIsSent(d, l, ps)
  {
    if ps != [] {
      var n := |ps| - 1;
      var q, p := ps[..n], ps[n];
      assert ps == q + [p];
      Before(l, q, p);
      assert forall i :: 0 <= i < n ==> q[i] == ps[i];
      RunKeeps(d, l, r0, q);
      assert Ready(l, r0, ps[n]);
      StepSends(d, l, q, Run(d, l, r0, q), p);
    }
  }

  /** For every stream that is in order, with any packets lost, and for either receiver: the
      frames sent have the ids of the stream, increasing, each once, and the last one has been
      sent exactly when its last packet says so; each tells how many of its packets have not
      come and holds the others in their places; and one that misses none holds exactly its
      payloads. */
  lemma FramesAreRight(d: Detector, l: Layout, r0: Receiver, ps: seq<Packet>)
    requires l.Valid() && Stream(l, ps) && Start(l, r0)
    ensures forall i :: 0 <= i < |ps| ==> Ready(l, r0, ps[i])
    ensures var sent := Run(d, l, r0, ps).sent;
            && Increasing(Ids(ps))
            && (forall id :: id in Ids(ps) <==> Seen(ps, id))
            && |sent| == (if LastIsSent(d, l, ps) then |Ids(ps)| else |Ids(ps)| - 1)
            && (forall k :: 0 <= k < |sent| ==> sent[k].id == Ids(ps)[k] && FrameOf(l, ps, sent[k]))
  {
    AllReady(l, r0, ps);
    RunKeeps(d, l, r0, ps);
    RunSends(d, l, r0, ps);
    IdsIncrease(ps);
    forall id
      ensures id in Ids(ps) <==> Seen(ps, id)
    {
      IdsAreSeen(ps, id);
    }
  }

  /** The two receivers send the same frames, except that one may be a frame behind. */
  lemma ReceiversAgree(l: Layout, r0: Receiver, ps: seq<Packet>, k: nat)
    requires l.Valid() && Stream(l, ps) && Start(l, r0)
    ensures forall i :: 0 <= i < |ps| ==> Ready(l, r0, ps[i])
    ensures var (g, e) := (Run(Gigafrost, l, r0, ps).sent, Run(Eiger, l, r0, ps).sent);
            k < |g| && k < |e| ==> g[k].id == e[k].id && g[k].missing == e[k].missing
                                   && (g[k].missing == 0 ==> g[k].bytes == e[k].bytes)
  {
    FramesAreRight(Gigafrost, l, r0, ps);
    FramesAreRight(Eiger, l, r0, ps);
  }

  // ---- The receivers as they run ----

  /** The receiver's variables, its frame buffer and the frames handed to the sender. */
  class PacketLoop {
    var id: nat
    var missing: int
    const buffer: array<bv8>
    var sent: seq<Frame>

    ghost function State(): Receiver
      reads this, buffer
    {
      Receiver(id, missing, buffer[..], sent)
    }

    constructor (l: Layout)
      requires l.Valid()
      ensures Start(l, State()) && fresh(buffer)
    {
      id, missing, sent := INVALID_IMAGE_ID, 0, [];
      buffer := new bv8[l.off(l.n)];
    }

    method SendImageId()
      modifies this
      ensures State() == Flush(old(State()))
    {
      sent := sent + [Frame(id, missing, buffer[..])];
      id := INVALID_IMAGE_ID;
    }

    method CopyPacket(l: Layout, p: Packet)
      requires Fits(l, p) && l.off(p.index + 1) <= buffer.Length
      modifies buffer
      ensures buffer[..] == Paint(l, old(buffer[..]), p)
    {
      var lo, n := l.off(p.index), l.off(p.index + 1) - l.off(p.index);
      ghost var was := buffer[..];
      for i := 0 to n
        invariant forall j :: 0 <= j < buffer.Length ==>
                    buffer[j] == if lo <= j < lo + i then p.data[j - lo] else was[j]
      {
        buffer[lo + i] := p.data[i];
      }
    }

    /** `process_packet` of the Gigafrost receiver. */
    method ProcessPacket(l: Layout, p: Packet)
      requires Ready(l, State(), p)
      modifies this, buffer
      ensures State() == (var r := Accumulate(l, old(State()), p); if p.index == l.n - 1 then Flush(r) else r)
    {
      missing := missing - 1;
      CopyPacket(l, p);
      if p.index == l.n - 1 { SendImageId(); }
    }

    /** The body of the packet loop of the Gigafrost receiver. */
    method OnGigafrostPacket(l: Layout, p: Packet)
      requires Ready(l, State(), p)
      modifies this, buffer
      ensures State() == GigafrostStep(l, old(State()), p)
    {
      if id == p.id {
        ProcessPacket(l, p);
      } else {
        if id != INVALID_IMAGE_ID { SendImageId(); }
        id, missing := p.id, l.n;
        ProcessPacket(l, p);
      }
    }

    /** The body of the packet loop of the Eiger receiver. */
    method OnEigerPacket(l: Layout, p: Packet)
      requires Ready(l, State(), p)
      modifies this, buffer
      ensures State() == EigerStep(l, old(State()), p)
    {
      if id == p.id {
        CopyPacket(l, p);
        missing := missing - 1;
        if p.index == l.n - 1 { SendImageId(); }
      } else {
        if id != INVALID_IMAGE_ID { SendImageId(); }
        id, missing := p.id, l.n;
        CopyPacket(l, p);
        missing := missing - 1;
      }
    }
  }
}
