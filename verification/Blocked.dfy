/** `bshuf_blocked_wrap_fun`: a buffer is cut into blocks, a short block and a raw
    tail, and the calls run over the lock ring of `IoChain`. */
module Blocked {
  import opened Arith
  import opened Wrappers
  import opened IoChain
  import opened IoChainRuns
  import IoChainOverlap

  /** A pair of block functions: `enc(chunk, size)` are the bytes written for a block of
      `size` elements, `dec(s, size)` the block at the head of `s` and the number of
      bytes it takes. */
  datatype BlockCodec = BlockCodec(enc: (seq<bv8>, nat) -> seq<bv8>, dec: (seq<bv8>, nat) -> Option<(seq<bv8>, nat)>)

  /** `dec` undoes `enc`, whatever follows in the buffer. */
  ghost predicate Undoes(k: BlockCodec, e: nat, size: nat) {
    forall chunk: seq<bv8>, rest: seq<bv8> :: |chunk| == size * e ==> UndoesAt(k, size, chunk, rest)
  }

  predicate UndoesAt(k: BlockCodec, size: nat, chunk: seq<bv8>, rest: seq<bv8>) {
    k.dec(k.enc(chunk, size) + rest, size) == Some((chunk, |k.enc(chunk, size)|))
  }

  // ---- How a buffer is cut ----

  /** The sizes, in elements, of the calls of the block function. */
  function BlockSizes(size: nat, block: nat): seq<nat>
    requires block > 0
  {
    if size >= block then [block] + BlockSizes(size - block, block)
    else if size >= 8 then [size / 8 * 8]
    else []
  }

  /** `n` full blocks and a last one, when there is one. */
  function Cut(n: nat, block: nat, last: nat): seq<nat> {
    seq(n, _ => block) + (if last > 0 then [last] else [])
  }

  lemma StepDown(size: nat, block: nat)
    requires 0 < block <= size
    ensures size / block == (size - block) / block + 1 && size % block == (size - block) % block
  {
    var q, r := (size - block) / block, (size - block) % block;
    assert size - block == q * block + r;
    DivModUnique(size, q + 1, r, block);
  }

  /** The sizes as the wrapper computes them. */
  lemma {:induction false} BlockSizesAre(size: nat, block: nat)
    requires block > 0
    ensures BlockSizes(size, block) == Cut(size / block, block, size % block / 8 * 8)
  {
    if size >= block {
      BlockSizesAre(size - block, block);
      StepDown(size, block);
      CutStep((size - block) / block, block, size % block / 8 * 8);
    } else {
      DivModUnique(size, 0, size, block);
    }
  }

  lemma CutStep(n: nat, block: nat, last: nat)
    ensures Cut(n + 1, block, last) == [block] + Cut(n, block, last)
  {
  }

  function Bytes(sizes: seq<nat>, e: nat): nat {
    if sizes == [] then 0 else sizes[0] * e + Bytes(sizes[1..], e)
  }

  lemma {:induction false} BytesAppend(a: seq<nat>, b: seq<nat>, e: nat)
    ensures Bytes(a + b, e) == Bytes(a, e) + Bytes(b, e)
  {
    if a == [] {
      assert a + b == b;
    } else {
      assert (a + b)[1..] == a[1..] + b;
      BytesAppend(a[1..], b, e);
    }
  }

  lemma MulStep(n: int, c: int)
    ensures n * c == c + (n - 1) * c
  {
  }

  lemma Distribute(a: nat, b: nat, e: nat)
    ensures a * e + b * e == (a + b) * e
  {
  }

  lemma ShortCover(size: nat, e: nat)
    ensures size / 8 * 8 * e + size % 8 * e == size * e
  {
    Distribute(size / 8 * 8, size % 8, e);
  }

  /** Blocks, the short block and the tail cover the buffer exactly. */
  lemma {:induction false} BlocksCover(size: nat, e: nat, block: nat)
    requires block > 0 && block % 8 == 0
    ensures Bytes(BlockSizes(size, block), e) + size % 8 * e == size * e
  {
    var sizes := BlockSizes(size, block);
    if size >= block {
      assert sizes[1..] == BlockSizes(size - block, block);
      BlocksCover(size - block, e, block);
      assert (size - block) % 8 == size % 8;
      Distribute(size - block, block, e);
    } else if size >= 8 {
      BytesOne(size / 8 * 8, e);
      ShortCover(size, e);
    }
  }

  lemma BytesOne(b: nat, e: nat)
    ensures Bytes([b], e) == b * e
  {
    assert [b][1..] == [];
  }

  lemma {:induction false} BlockSizesBounded(size: nat, block: nat, b: nat)
    requires block > 0 && block % 8 == 0 && b in BlockSizes(size, block)
    ensures 0 < b <= block && b <= size && b % 8 == 0
  {
    if size >= block && b != block {
      BlockSizesBounded(size - block, block, b);
    }
  }

  // ---- The format ----

  function Encode(k: BlockCodec, data: seq<bv8>, e: nat, sizes: seq<nat>): seq<bv8>
    requires Bytes(sizes, e) <= |data|
    decreases |sizes|
  {
    if sizes == [] then data
    else k.enc(data[..sizes[0] * e], sizes[0]) + Encode(k, data[sizes[0] * e..], e, sizes[1..])
  }

  /** The decoded bytes and the number of bytes read; `None` when a block is refused. */
  function Decode(k: BlockCodec, s: seq<bv8>, sizes: seq<nat>, tail: nat): Option<(seq<bv8>, nat)>
    decreases |sizes|
  {
    if sizes == [] then if tail <= |s| then Some((s[..tail], tail)) else None
    else
      match k.dec(s, sizes[0])
      case None => None
      case Some((chunk, n)) =>
        if n > |s| then None
        else match Decode(k, s[n..], sizes[1..], tail)
             case None => None
             case Some((rest, m)) => Some((chunk + rest, n + m))
  }

  /** The first block of what was encoded, and what follows it. */
  lemma EncodeFirst(k: BlockCodec, data: seq<bv8>, e: nat, sizes: seq<nat>, rest: seq<bv8>)
    requires sizes != [] && Bytes(sizes, e) <= |data|
    ensures var n := sizes[0] * e;
            Encode(k, data, e, sizes) + rest
            == k.enc(data[..n], sizes[0]) + (Encode(k, data[n..], e, sizes[1..]) + rest)
  {
  }

  /** Decoding goes on behind a block that has been decoded. */
  lemma DecodeFirst(k: BlockCodec, s: seq<bv8>, n: nat, sizes: seq<nat>, tail: nat, chunk: seq<bv8>)
    requires sizes != [] && n <= |s| && k.dec(s, sizes[0]) == Some((chunk, n))
    ensures var d := Decode(k, s[n..], sizes[1..], tail);
            Decode(k, s, sizes, tail) == if d.None? then None else Some((chunk + d.value.0, n + d.value.1))
  {
  }

  lemma Behind(frame: seq<bv8>, more: seq<bv8>)
    ensures (frame + more)[|frame|..] == more
  {
  }

  /** Every block can be undone. */
  ghost predicate AllUndone(k: BlockCodec, e: nat, sizes: seq<nat>) {
    forall b :: b in sizes ==> Undoes(k, e, b)
  }

  lemma HeadUndone(k: BlockCodec, e: nat, sizes: seq<nat>, chunk: seq<bv8>, more: seq<bv8>)
    requires AllUndone(k, e, sizes) && sizes != [] && |chunk| == sizes[0] * e
    ensures k.dec(k.enc(chunk, sizes[0]) + more, sizes[0]) == Some((chunk, |k.enc(chunk, sizes[0])|))
    ensures AllUndone(k, e, sizes[1..])
  {
    assert sizes[0] in sizes && Undoes(k, e, sizes[0]) && UndoesAt(k, sizes[0], chunk, more);
    assert forall b :: b in sizes[1..] ==> b in sizes;
  }

  /** Decoding what was encoded restores the data and reads exactly the encoded bytes,
      whatever follows them. */
  lemma {:induction false} DecodeEncode(k: BlockCodec, data: seq<bv8>, e: nat, sizes: seq<nat>, rest: seq<bv8>)
    requires AllUndone(k, e, sizes) && Bytes(sizes, e) <= |data|
    ensures Decode(k, Encode(k, data, e, sizes) + rest, sizes, |data| - Bytes(sizes, e))
            == Some((data, |Encode(k, data, e, sizes)|))
    decreases |sizes|
  {
    if sizes == [] {
      assert (data + rest)[..|data|] == data;
    } else {
      var n := sizes[0] * e;
      var chunk, more := data[..n], data[n..];
      var frame, enc := k.enc(chunk, sizes[0]), Encode(k, more, e, sizes[1..]);
      EncodeFirst(k, data, e, sizes, rest);
      HeadUndone(k, e, sizes, chunk, enc + rest);
      DecodeEncode(k, more, e, sizes[1..], rest);
      Behind(frame, enc + rest);
      DecodeFirst(k, frame + (enc + rest), |frame|, sizes, |data| - Bytes(sizes, e), chunk);
      assert chunk + more == data;
    }
  }

  /** An encoded block of `a` elements is refused as one of `b` elements. */
  ghost predicate Refuses(k: BlockCodec, e: nat, a: nat, b: nat) {
    forall chunk: seq<bv8>, rest: seq<bv8> :: |chunk| == a * e ==> RefusesAt(k, a, b, chunk, rest)
  }

  predicate RefusesAt(k: BlockCodec, a: nat, b: nat, chunk: seq<bv8>, rest: seq<bv8>) {
    k.dec(k.enc(chunk, a) + rest, b) == None
  }

  /** `k` tells blocks of different sizes apart. */
  ghost predicate Strict(k: BlockCodec, e: nat, sizes: seq<nat>) {
    forall a, b: nat :: a in sizes && a != b ==> Refuses(k, e, a, b)
  }

  lemma HeadRefused(k: BlockCodec, e: nat, sizes: seq<nat>, b: nat, chunk: seq<bv8>, more: seq<bv8>)
    requires Strict(k, e, sizes) && sizes != [] && |chunk| == sizes[0] * e
    ensures sizes[0] != b ==> k.dec(k.enc(chunk, sizes[0]) + more, b) == None
    ensures Strict(k, e, sizes[1..])
  {
    assert sizes[0] in sizes;
    if sizes[0] != b { assert Refuses(k, e, sizes[0], b) && RefusesAt(k, sizes[0], b, chunk, more); }
    assert forall a :: a in sizes[1..] ==> a in sizes;
  }

  predicate Positive(sizes: seq<nat>) {
    forall i :: 0 <= i < |sizes| ==> sizes[i] > 0
  }

  lemma PositiveBytes(sizes: seq<nat>, e: nat)
    requires sizes != [] && sizes[0] > 0 && e > 0
    ensures Bytes(sizes, e) > 0
  {
    MulMonotone(1, sizes[0], e);
  }

  /** Such a codec refuses a buffer that has been cut in another way. */
  lemma {:induction false} OtherCutRefused(k: BlockCodec, data: seq<bv8>, e: nat, sizes: seq<nat>, other: seq<nat>,
                                           rest: seq<bv8>, tail: nat)
    requires e > 0 && Bytes(sizes, e) == Bytes(other, e) <= |data| && sizes != other
    requires AllUndone(k, e, sizes) && Strict(k, e, sizes) && Positive(sizes) && Positive(other)
    ensures Decode(k, Encode(k, data, e, sizes) + rest, other, tail) == None
    decreases |sizes|
  {
    if sizes == [] {
      PositiveBytes(other, e);
    } else if other == [] {
      PositiveBytes(sizes, e);
    } else {
      var n := sizes[0] * e;
      var chunk, more := data[..n], data[n..];
      var frame, enc := k.enc(chunk, sizes[0]), Encode(k, more, e, sizes[1..]);
      EncodeFirst(k, data, e, sizes, rest);
      HeadRefused(k, e, sizes, other[0], chunk, enc + rest);
      if sizes[0] == other[0] {
        HeadUndone(k, e, sizes, chunk, enc + rest);
        Behind(frame, enc + rest);
        DecodeFirst(k, frame + (enc + rest), |frame|, other, tail, chunk);
        SameHead(sizes, other);
        OtherCutRefused(k, more, e, sizes[1..], other[1..], rest, tail);
      }
    }
  }

  lemma SameHead(a: seq<nat>, b: seq<nat>)
    requires a != [] && b != [] && a[0] == b[0] && a != b
    ensures a[1..] != b[1..]
  {
    assert a == [a[0]] + a[1..] && b == [b[0]] + b[1..];
  }

  /** Buffers of whole blocks can be encoded one by one. */
  lemma {:induction false} EncodeAppend(k: BlockCodec, a: seq<bv8>, b: seq<bv8>, e: nat, sa: seq<nat>, sb: seq<nat>)
    requires Bytes(sa, e) == |a| && Bytes(sb, e) <= |b|
    ensures Bytes(sa + sb, e) <= |a + b|
    ensures Encode(k, a + b, e, sa + sb) == Encode(k, a, e, sa) + Encode(k, b, e, sb)
    decreases |sa|
  {
    BytesAppend(sa, sb, e);
    if sa == [] {
      assert sa + sb == sb && a + b == b;
    } else {
      var n := sa[0] * e;
      assert (sa + sb)[1..] == sa[1..] + sb && (sa + sb)[0] == sa[0];
      assert (a + b)[..n] == a[..n] && (a + b)[n..] == a[n..] + b;
      EncodeAppend(k, a[n..], b, e, sa[1..], sb);
    }
  }

  predicate Multiple(m: nat, block: nat)
    requires block > 0
  {
    m == 0 || (m >= block && Multiple(m - block, block))
  }

  lemma {:induction false} MultipleIs(m: nat, block: nat)
    requires block > 0
    ensures Multiple(m, block) <==> m % block == 0
  {
    if m >= block {
      MultipleIs(m - block, block);
      StepDown(m, block);
    } else {
      DivModUnique(m, 0, m, block);
    }
  }

  lemma {:induction false} MultipleOfEight(m: nat, block: nat)
    requires block > 0 && Multiple(m, block) && block % 8 == 0
    ensures m % 8 == 0
  {
    if m >= block { MultipleOfEight(m - block, block); }
  }

  lemma {:induction false} BlockSizesAppend(m: nat, n: nat, block: nat)
    requires block > 0 && Multiple(m, block)
    ensures BlockSizes(m + n, block) == BlockSizes(m, block) + BlockSizes(n, block)
  {
    if m >= block {
      var m' := m - block;
      BlockSizesAppend(m', n, block);
      BlockSizesStep(m, block);
      BlockSizesStep(m + n, block);
    }
  }

  lemma BlockSizesStep(size: nat, block: nat)
    requires 0 < block <= size
    ensures BlockSizes(size, block) == [block] + BlockSizes(size - block, block)
  {
  }

  /** No block of `size` elements is longer than its bound and a header. */
  ghost predicate Bounded(k: BlockCodec, e: nat, size: nat, bound: nat -> nat, header: nat) {
    forall chunk: seq<bv8> :: |chunk| == size * e ==> |k.enc(chunk, size)| <= bound(size * e) + header
  }

  /** A longest possible output, block by block. */
  function BoundOf(sizes: seq<nat>, e: nat, bound: nat -> nat, header: nat): nat {
    if sizes == [] then 0 else bound(sizes[0] * e) + header + BoundOf(sizes[1..], e, bound, header)
  }

  lemma {:induction false} EncodeBounded(k: BlockCodec, data: seq<bv8>, e: nat, sizes: seq<nat>, bound: nat -> nat,
                                         header: nat)
    requires Bytes(sizes, e) <= |data|
    requires forall b :: b in sizes ==> Bounded(k, e, b, bound, header)
    ensures |Encode(k, data, e, sizes)| <= BoundOf(sizes, e, bound, header) + (|data| - Bytes(sizes, e))
    decreases |sizes|
  {
    if sizes != [] {
      assert Bounded(k, e, sizes[0], bound, header);
      EncodeBounded(k, data[sizes[0] * e..], e, sizes[1..], bound, header);
    }
  }

  /** The codec needs its bound for every block of this size. */
  ghost predicate Meets(k: BlockCodec, e: nat, size: nat, bound: nat -> nat, header: nat) {
    forall chunk: seq<bv8> :: |chunk| == size * e ==> |k.enc(chunk, size)| == bound(size * e) + header
  }

  lemma {:induction false} EncodeMeets(k: BlockCodec, data: seq<bv8>, e: nat, sizes: seq<nat>, bound: nat -> nat,
                                       header: nat)
    requires Bytes(sizes, e) <= |data|
    requires forall b :: b in sizes ==> Meets(k, e, b, bound, header)
    ensures |Encode(k, data, e, sizes)| == BoundOf(sizes, e, bound, header) + (|data| - Bytes(sizes, e))
    decreases |sizes|
  {
    if sizes != [] {
      assert Meets(k, e, sizes[0], bound, header);
      EncodeMeets(k, data[sizes[0] * e..], e, sizes[1..], bound, header);
    }
  }

  lemma {:induction false} BoundOfAppend(a: seq<nat>, b: seq<nat>, e: nat, bound: nat -> nat, header: nat)
    ensures BoundOf(a + b, e, bound, header) == BoundOf(a, e, bound, header) + BoundOf(b, e, bound, header)
  {
    if a == [] {
      assert a + b == b;
    } else {
      assert (a + b)[1..] == a[1..] + b;
      BoundOfAppend(a[1..], b, e, bound, header);
    }
  }

  lemma {:induction false} BoundOfRepeat(n: nat, block: nat, e: nat, bound: nat -> nat, header: nat)
    ensures BoundOf(seq(n, _ => block), e, bound, header) == (bound(block * e) + header) * n
  {
    var s := seq(n, _ => block);
    if n > 0 {
      assert s[1..] == seq(n - 1, _ => block);
      BoundOfRepeat(n - 1, block, e, bound, header);
      MulStep(n, bound(block * e) + header);
    }
  }

  lemma BoundOfCut(n: nat, block: nat, last: nat, e: nat, bound: nat -> nat, header: nat)
    ensures BoundOf(Cut(n, block, last), e, bound, header)
            == (bound(block * e) + header) * n + (if last > 0 then bound(last * e) + header else 0)
  {
    BoundOfAppend(seq(n, _ => block), if last > 0 then [last] else [], e, bound, header);
    BoundOfRepeat(n, block, e, bound, header);
    assert last > 0 ==> [last][1..] == [];
  }

  // ---- The calls on the lock ring ----

  /** Bytes past the end are of no interest. */
  function Slice(s: seq<bv8>, at: nat, n: nat): (r: seq<bv8>)
    ensures |r| == n
  {
    if at + n <= |s| then s[at..at + n] else seq(n, _ => 0)
  }

  function From(s: seq<bv8>, at: nat): seq<bv8> {
    if at <= |s| then s[at..] else []
  }

  /** A call that encodes returns the number of bytes it wrote ... */
  function EncodeEffect(k: BlockCodec, data: seq<bv8>, e: nat, job: Job, at: nat): Effect {
    match job
    case Block(size) =>
      var bytes := k.enc(Slice(data, at, size * e), size);
      Effect(size * e, bytes, |bytes|)
    case Tail(n) => Effect(n, Slice(data, at, n), n)
  }

  /** ... and one that decodes the number of bytes it read. */
  function DecodeEffect(k: BlockCodec, s: seq<bv8>, job: Job, at: nat): Effect {
    match job
    case Block(size) =>
      (match k.dec(From(s, at), size)
       case None => Effect(0, [], -91)
       case Some((chunk, n)) => Effect(n, chunk, n))
    case Tail(n) => Effect(n, Slice(s, at, n), n)
  }

  function Calls(sizes: seq<nat>, tail: nat): seq<Job> {
    seq(|sizes|, i requires 0 <= i < |sizes| => Block(sizes[i])) + [Tail(tail)]
  }

  /** The calls made for `size` elements: the full blocks in parallel, then the rest. */
  function ChainOf(work: (Job, nat) -> Effect, size: nat, e: nat, block: nat, ring: nat, threads: nat): Config
    requires block > 0
  {
    Config(ring, threads, Calls(BlockSizes(size, block), size % 8 * e), size / block, work, 0, 0)
  }

  function EncodeChain(k: BlockCodec, data: seq<bv8>, size: nat, e: nat, block: nat, ring: nat, threads: nat): Config
    requires block > 0
  {
    ChainOf((job: Job, at: nat) => EncodeEffect(k, data, e, job, at), size, e, block, ring, threads)
  }

  function DecodeChain(k: BlockCodec, s: seq<bv8>, size: nat, e: nat, block: nat, ring: nat, threads: nat): Config
    requires block > 0
  {
    ChainOf((job: Job, at: nat) => DecodeEffect(k, s, job, at), size, e, block, ring, threads)
  }

  lemma ChainValid(work: (Job, nat) -> Effect, size: nat, e: nat, block: nat, ring: nat, threads: nat)
    requires block > 0 && 2 <= ring && 1 <= threads
    ensures ChainOf(work, size, e, block, ring, threads).Valid()
  {
    BlockSizesAre(size, block);
  }

  /** All full blocks are there for the threads: as many of them as there are threads can be in
      the middle of their work at once, if they are fewer than the slots of the ring. */
  lemma FullBlocksOverlap(work: (Job, nat) -> Effect, size: nat, e: nat, block: nat, c: Config, s0: State, n: nat)
    returns (acts: seq<Action>, s: State)
    requires block > 0 && 2 <= c.ring && 1 <= c.threads
    requires c == ChainOf(work, size, e, block, c.ring, c.threads) && Init(c, s0)
    requires n <= c.threads && n <= size / block && n < c.ring
    ensures Run(c, s0, acts, s) && |s.calls| == n
    ensures forall k :: 0 <= k < n ==> s.calls[k].stage == FREED_IN && s.calls[k].job == Block(block)
  {
    ChainValid(work, size, e, block, c.ring, c.threads);
    acts, s := IoChainOverlap.OverlapReachable(c, s0, n);
    CallsSeeSerialPointers(c, s0, acts, s);
    BlockSizesAre(size, block);
  }

  /** What the calls from `i` on write when they are made in order. */
  function OutputFrom(c: Config, i: nat): seq<bv8>
    requires i <= |c.jobs|
    decreases |c.jobs| - i
  {
    if i == |c.jobs| then [] else EffectAt(c, i).produced + OutputFrom(c, i + 1)
  }

  lemma {:induction false} OutputSplit(c: Config, i: nat)
    requires i <= |c.jobs|
    ensures SerialOutput(c, |c.jobs|) == SerialOutput(c, i) + OutputFrom(c, i)
    decreases |c.jobs| - i
  {
    if i < |c.jobs| { OutputSplit(c, i + 1); }
  }

  lemma SizesFrom(sizes: seq<nat>, i: nat)
    requires i < |sizes|
    ensures sizes[i..] != [] && sizes[i..][0] == sizes[i] && sizes[i..][1..] == sizes[i + 1..]
  {
  }

  lemma DataFrom(s: seq<bv8>, at: nat, n: nat)
    requires at + n <= |s|
    ensures s[at..][..n] == Slice(s, at, n) && s[at..][n..] == s[at + n..]
  {
  }

  lemma LastCall(c: Config, i: nat)
    requires |c.jobs| == i + 1
    ensures OutputFrom(c, i) == EffectAt(c, i).produced
    ensures InAt(c, |c.jobs|) == InAt(c, i) + EffectAt(c, i).consumed
    ensures CountAt(c, |c.jobs|) == CountAt(c, i) + EffectAt(c, i).count
  {
    assert OutputFrom(c, i + 1) == [];
  }

  lemma EncodeUnfold(k: BlockCodec, data: seq<bv8>, e: nat, sizes: seq<nat>, i: nat, at: nat)
    requires i < |sizes| && at + Bytes(sizes[i..], e) <= |data|
    ensures var n := sizes[i] * e;
            && Bytes(sizes[i..], e) == n + Bytes(sizes[i + 1..], e)
            && Encode(k, data[at..], e, sizes[i..])
               == k.enc(Slice(data, at, n), sizes[i]) + Encode(k, data[at + n..], e, sizes[i + 1..])
  {
    SizesFrom(sizes, i);
    DataFrom(data, at, sizes[i] * e);
  }

  /** What call `i` does, and where the next one starts. */
  lemma CallOf(c: Config, i: nat, job: Job, effect: Effect)
    requires i < |c.jobs| && c.jobs[i] == job && c.work(job, InAt(c, i)) == effect
    ensures InAt(c, i + 1) == InAt(c, i) + effect.consumed
    ensures OutputFrom(c, i) == effect.produced + OutputFrom(c, i + 1)
  {
  }

  lemma EncodeCall(c: Config, k: BlockCodec, data: seq<bv8>, e: nat, sizes: seq<nat>, i: nat, at: nat)
    returns (next: nat)
    requires i < |sizes| && at + Bytes(sizes[i..], e) <= |data|
    requires i < |c.jobs| && c.jobs[i] == Block(sizes[i]) && InAt(c, i) == at
    requires c.work(Block(sizes[i]), at) == EncodeEffect(k, data, e, Block(sizes[i]), at)
    ensures next == InAt(c, i + 1) && next + Bytes(sizes[i + 1..], e) == at + Bytes(sizes[i..], e)
    ensures OutputFrom(c, i + 1) == Encode(k, data[next..], e, sizes[i + 1..]) ==>
              OutputFrom(c, i) == Encode(k, data[at..], e, sizes[i..])
  {
    EncodeUnfold(k, data, e, sizes, i, at);
    CallOf(c, i, Block(sizes[i]), EncodeEffect(k, data, e, Block(sizes[i]), at));
    next := at + sizes[i] * e;
  }

  lemma EncodeTail(c: Config, k: BlockCodec, data: seq<bv8>, e: nat, sizes: seq<nat>, tail: nat, at: nat)
    requires |c.jobs| == |sizes| + 1 && c.jobs[|sizes|] == Tail(tail) && InAt(c, |sizes|) == at && at + tail == |data|
    requires c.work(Tail(tail), at) == EncodeEffect(k, data, e, Tail(tail), at)
    ensures OutputFrom(c, |sizes|) == Encode(k, data[at..], e, sizes[|sizes|..])
  {
    DataFrom(data, at, tail);
    LastCall(c, |sizes|);
  }

  lemma {:induction false} EncodeFrom(c: Config, k: BlockCodec, data: seq<bv8>, e: nat, sizes: seq<nat>,
                                      tail: nat, i: nat, at: nat)
    requires c.jobs == Calls(sizes, tail) && i <= |sizes| && InAt(c, i) == at
    requires at + Bytes(sizes[i..], e) + tail == |data|
    requires forall job, at :: c.work(job, at) == EncodeEffect(k, data, e, job, at)
    ensures OutputFrom(c, i) == Encode(k, data[at..], e, sizes[i..])
    decreases |sizes| - i
  {
    if i < |sizes| {
      var next := EncodeCall(c, k, data, e, sizes, i, at);
      EncodeFrom(c, k, data, e, sizes, tail, i + 1, next);
    } else {
      EncodeTail(c, k, data, e, sizes, tail, at);
    }
  }

  lemma {:induction false} CountIsLength(c: Config, n: nat)
    requires n <= |c.jobs| && forall job, at :: c.work(job, at).count == |c.work(job, at).produced|
    ensures CountAt(c, n) == |SerialOutput(c, n)|
  {
    if n > 0 { CountIsLength(c, n - 1); }
  }

  /** Call after call, the serial run writes the encoded bytes. */
  lemma SerialEncodes(c: Config, k: BlockCodec, data: seq<bv8>, e: nat, sizes: seq<nat>, tail: nat)
    requires c.jobs == Calls(sizes, tail) && c.in0 == 0 && Bytes(sizes, e) + tail == |data|
    requires forall job, at :: c.work(job, at) == EncodeEffect(k, data, e, job, at)
    ensures SerialOutput(c, |c.jobs|) == Encode(k, data, e, sizes)
  {
    assert sizes[0..] == sizes && data[0..] == data;
    EncodeFrom(c, k, data, e, sizes, tail, 0, 0);
    OutputSplit(c, 0);
  }

  lemma {:induction false} DecodeFrom(c: Config, k: BlockCodec, s: seq<bv8>, sizes: seq<nat>, tail: nat, i: nat)
    requires c.jobs == Calls(sizes, tail) && i <= |sizes| && InAt(c, i) <= |s|
    requires forall job, at :: c.work(job, at) == DecodeEffect(k, s, job, at)
    requires Decode(k, s[InAt(c, i)..], sizes[i..], tail).Some?
    ensures Decode(k, s[InAt(c, i)..], sizes[i..], tail).value.0 == OutputFrom(c, i)
    ensures Decode(k, s[InAt(c, i)..], sizes[i..], tail).value.1 == InAt(c, |c.jobs|) - InAt(c, i)
    ensures CountAt(c, |c.jobs|) - CountAt(c, i) == InAt(c, |c.jobs|) - InAt(c, i)
    decreases |sizes| - i
  {
    var at := InAt(c, i);
    if i < |sizes| {
      SizesFrom(sizes, i);
      assert c.jobs[i] == Block(sizes[i]);
      var n := k.dec(s[at..], sizes[i]).value.1;
      DataFrom(s, at, n);
      DecodeFrom(c, k, s, sizes, tail, i + 1);
    } else {
      DataFrom(s, at, tail);
      LastCall(c, i);
    }
  }

  lemma SerialDecodes(c: Config, k: BlockCodec, s: seq<bv8>, sizes: seq<nat>, tail: nat)
    requires c.jobs == Calls(sizes, tail) && c.in0 == 0
    requires forall job, at :: c.work(job, at) == DecodeEffect(k, s, job, at)
    requires Decode(k, s, sizes, tail).Some?
    ensures Decode(k, s, sizes, tail).value.0 == SerialOutput(c, |c.jobs|)
    ensures Decode(k, s, sizes, tail).value.1 == InAt(c, |c.jobs|) == CountAt(c, |c.jobs|)
  {
    assert sizes[0..] == sizes && s[0..] == s;
    DecodeFrom(c, k, s, sizes, tail, 0);
    OutputSplit(c, 0);
  }

  /** Every schedule of the threads leaves the encoded bytes in the buffer. */
  lemma ParallelEncode(k: BlockCodec, data: seq<bv8>, size: nat, e: nat, block: nat, c: Config,
                       s0: State, acts: seq<Action>, s: State)
    requires block > 0 && block % 8 == 0 && |data| == size * e
    requires 2 <= c.ring && 1 <= c.threads && c == EncodeChain(k, data, size, e, block, c.ring, c.threads)
    requires Init(c, s0) && Run(c, s0, acts, s) && Finished(c, s)
    ensures Bytes(BlockSizes(size, block), e) <= |data|
    ensures HoldsExactly(s.mem, 0, Encode(k, data, e, BlockSizes(size, block)))
    ensures s.count == |Encode(k, data, e, BlockSizes(size, block))|
  {
    BlocksCover(size, e, block);
    ChainValid(c.work, size, e, block, c.ring, c.threads);
    FinishedEqualsSerial(c, s0, acts, s);
    SerialEncodes(c, k, data, e, BlockSizes(size, block), size % 8 * e);
    CountIsLength(c, |c.jobs|);
  }

  lemma ParallelDecode(k: BlockCodec, s: seq<bv8>, size: nat, e: nat, block: nat, c: Config,
                       s0: State, acts: seq<Action>, s': State)
    requires block > 0 && 2 <= c.ring && 1 <= c.threads && c == DecodeChain(k, s, size, e, block, c.ring, c.threads)
    requires Init(c, s0) && Run(c, s0, acts, s') && Finished(c, s')
    requires Decode(k, s, BlockSizes(size, block), size % 8 * e).Some?
    ensures var (data, n) := Decode(k, s, BlockSizes(size, block), size % 8 * e).value;
            HoldsExactly(s'.mem, 0, data) && s'.count == n
  {
    ChainValid(c.work, size, e, block, c.ring, c.threads);
    FinishedEqualsSerial(c, s0, acts, s');
    SerialDecodes(c, k, s, BlockSizes(size, block), size % 8 * e);
  }

  /** Every schedule of the decoding threads restores what any schedule of the encoding
      threads wrote, with other thread and ring numbers if need be; the two counts agree. */
  lemma ParallelRoundTrip(k: BlockCodec, data: seq<bv8>, size: nat, e: nat, block: nat, enc: seq<bv8>, rest: seq<bv8>,
                          c: Config, s0: State, acts: seq<Action>, s: State,
                          d: Config, t0: State, acts': seq<Action>, t: State)
    requires block > 0 && block % 8 == 0 && |data| == size * e
    requires AllUndone(k, e, BlockSizes(size, block))
    requires 2 <= c.ring && 1 <= c.threads && c == EncodeChain(k, data, size, e, block, c.ring, c.threads)
    requires Init(c, s0) && Run(c, s0, acts, s) && Finished(c, s)
    requires HoldsExactly(s.mem, 0, enc)
    requires 2 <= d.ring && 1 <= d.threads && d == DecodeChain(k, enc + rest, size, e, block, d.ring, d.threads)
    requires Init(d, t0) && Run(d, t0, acts', t) && Finished(d, t)
    ensures HoldsExactly(t.mem, 0, data)
    ensures s.count == t.count == |enc|
  {
    var sizes := BlockSizes(size, block);
    assert Bytes(sizes, e) + size % 8 * e == size * e by { BlocksCover(size, e, block); }
    assert enc == Encode(k, data, e, sizes) && s.count == |enc| by {
      ParallelEncode(k, data, size, e, block, c, s0, acts, s);
      SameBytes(s.mem, 0, enc, Encode(k, data, e, sizes));
    }
    assert Decode(k, enc + rest, sizes, size % 8 * e) == Some((data, |enc|)) by {
      DecodeEncode(k, data, e, sizes, rest);
    }
    ParallelDecode(k, enc + rest, size, e, block, d, t0, acts', t);
  }

  lemma SameBytes(mem: map<nat, bv8>, at: nat, a: seq<bv8>, b: seq<bv8>)
    requires HoldsExactly(mem, at, a) && HoldsExactly(mem, at, b)
    ensures a == b
  {
    assert |a| < |b| ==> at + |a| in mem;
    assert |b| < |a| ==> at + |b| in mem;
    forall i | 0 <= i < |a|
      ensures a[i] == b[i]
    {
      assert at + i in mem;
    }
  }
}
