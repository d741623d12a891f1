/** The block functions of `bitshuffle.c`: elements shuffled bit by bit, and the same
    compressed by LZ4 behind a length. */
module Codec {
  import opened Arith
  import opened Wrappers
  import opened IoChain
  import opened IoChainRuns
  import opened Blocked
  import opened ShuffleSpec
  import opened BitShuffleFast
  import BE = BigEndian

  /** LZ4, seen from outside. */
  datatype Lz4 = Lz4(compress: seq<bv8> -> seq<bv8>, decompress: (seq<bv8>, nat) -> Option<seq<bv8>>, bound: nat -> nat)

  const LZ4_MAX_INPUT: nat := 0x7E00_0000

  /** What the codec promises for inputs it accepts: decompressing undoes compressing, and
      the output is no longer than `LZ4_compressBound` says, which is an `int`. */
  ghost predicate Sound(z: Lz4) {
    forall s: seq<bv8> :: |s| <= LZ4_MAX_INPUT ==>
      && z.decompress(z.compress(s), |s|) == Some(s)
      && |z.compress(s)| <= z.bound(|s|) < 0x8000_0000
  }

  const BLOCKED_MULT := 8
  const TARGET_BLOCK_SIZE_B := 8192
  const MIN_RECOMMEND_BLOCK := 128

  function DefaultBlockSize(e: nat): (b: nat)
    requires e > 0
    ensures b % BLOCKED_MULT == 0 && b >= MIN_RECOMMEND_BLOCK
  {
    var b := TARGET_BLOCK_SIZE_B / e / BLOCKED_MULT * BLOCKED_MULT;
    if b > MIN_RECOMMEND_BLOCK then b else MIN_RECOMMEND_BLOCK
  }

  /** The default is the largest multiple of eight elements that fits the target, unless that is
      below the minimum. */
  lemma DefaultIsLargest(e: nat, m: nat)
    requires e > 0 && m % BLOCKED_MULT == 0
    ensures m * e <= TARGET_BLOCK_SIZE_B ==> m <= DefaultBlockSize(e)
    ensures DefaultBlockSize(e) > MIN_RECOMMEND_BLOCK ==> DefaultBlockSize(e) * e <= TARGET_BLOCK_SIZE_B
  {
    var t := TARGET_BLOCK_SIZE_B / e;
    assert TARGET_BLOCK_SIZE_B == t * e + TARGET_BLOCK_SIZE_B % e;
    if m * e <= TARGET_BLOCK_SIZE_B && m > t { MulGrows(t, m, e); }
    MulMonotone(t / BLOCKED_MULT * BLOCKED_MULT, t, e);
  }

  /** Block size 0 asks for the default. */
  function Resolve(block: nat, e: nat): (b: nat)
    requires e > 0
    ensures b > 0
    ensures b % BLOCKED_MULT == 0 <==> block % BLOCKED_MULT == 0
  {
    if block == 0 then DefaultBlockSize(e) else block
  }

  // ---- One block ----

  /** One block behind its length. */
  function Frame(z: Lz4, chunk: seq<bv8>, size: nat, e: nat): seq<bv8> {
    var payload := z.compress(Shuffle(chunk, size / 8, e));
    BE.Encode(|payload|, 4) + payload
  }

  /** The block at the head of `s` and the number of bytes it takes.  The length is read
      into an `int32_t`. */
  function DecodeFrame(z: Lz4, s: seq<bv8>, size: nat, e: nat): Option<(seq<bv8>, nat)> {
    if |s| < 4 then None
    else
      var nbytes := BE.Decode(s[..4]);
      if nbytes >= 0x8000_0000 || |s| < 4 + nbytes then None
      else match z.decompress(s[4..4 + nbytes], size * e)
           case None => None
           case Some(p) => if |p| != size * e then None else Some((Unshuffle(p, size / 8, e), 4 + nbytes))
  }

  function DecodePlain(s: seq<bv8>, size: nat, e: nat): Option<(seq<bv8>, nat)> {
    if |s| < size * e then None else Some((Unshuffle(s[..size * e], size / 8, e), size * e))
  }

  function Lz4Blocks(z: Lz4, e: nat): BlockCodec {
    BlockCodec((chunk: seq<bv8>, size: nat) => Frame(z, chunk, size, e),
               (s: seq<bv8>, size: nat) => DecodeFrame(z, s, size, e))
  }

  function PlainBlocks(e: nat): BlockCodec {
    BlockCodec((chunk: seq<bv8>, size: nat) => Shuffle(chunk, size / 8, e),
               (s: seq<bv8>, size: nat) => DecodePlain(s, size, e))
  }

  lemma EightTimes(size: nat, e: nat)
    requires size % 8 == 0
    ensures size * e == 8 * (size / 8) * e == 8 * e * (size / 8)
  {
  }

  lemma ShuffledPayload(z: Lz4, chunk: seq<bv8>, size: nat, e: nat)
    requires Sound(z) && size % 8 == 0 && |chunk| == size * e <= LZ4_MAX_INPUT
    ensures var s := Shuffle(chunk, size / 8, e);
            && |s| == size * e
            && z.decompress(z.compress(s), size * e) == Some(s)
            && |z.compress(s)| < 0x8000_0000
            && Unshuffle(s, size / 8, e) == chunk
  {
    EightTimes(size, e);
    UnshuffleInverts(chunk, size / 8, e);
    var s := Shuffle(chunk, size / 8, e);
    assert |s| == size * e;
  }

  lemma Parts(head: seq<bv8>, body: seq<bv8>, rest: seq<bv8>)
    ensures (head + body + rest)[..|head|] == head
    ensures (head + body + rest)[|head|..|head| + |body|] == body
  {
  }

  /** A length in `n` bytes, the bytes it announces, and what follows. */
  lemma HeadOf(payload: seq<bv8>, rest: seq<bv8>, n: nat)
    requires |payload| < BE.Pow256(n)
    ensures var s := BE.Encode(|payload|, n) + payload + rest;
            BE.Decode(s[..n]) == |payload| && s[n..n + |payload|] == payload
  {
    Parts(BE.Encode(|payload|, n), payload, rest);
    BE.RoundTrip(|payload|, n);
  }

  lemma HeadOfFrame(payload: seq<bv8>, rest: seq<bv8>)
    requires |payload| < 0x8000_0000
    ensures var s := BE.Encode(|payload|, 4) + payload + rest;
            BE.Decode(s[..4]) == |payload| && s[4..4 + |payload|] == payload
  {
    BE.Pow256Values();
    HeadOf(payload, rest, 4);
  }

  lemma DecodeFrameOf(z: Lz4, frame: seq<bv8>, payload: seq<bv8>, p: seq<bv8>, rest: seq<bv8>, size: nat, e: nat)
    requires |payload| < 0x8000_0000 && z.decompress(payload, size * e) == Some(p) && |p| == size * e
    requires frame == BE.Encode(|payload|, 4) + payload
    ensures DecodeFrame(z, frame + rest, size, e) == Some((Unshuffle(p, size / 8, e), |frame|))
  {
    HeadOfFrame(payload, rest);
  }

  lemma FrameRoundTrip(z: Lz4, chunk: seq<bv8>, size: nat, e: nat, rest: seq<bv8>)
    requires Sound(z) && size % 8 == 0 && |chunk| == size * e <= LZ4_MAX_INPUT
    ensures DecodeFrame(z, Frame(z, chunk, size, e) + rest, size, e) == Some((chunk, |Frame(z, chunk, size, e)|))
  {
    ShuffledPayload(z, chunk, size, e);
    var p := Shuffle(chunk, size / 8, e);
    DecodeFrameOf(z, Frame(z, chunk, size, e), z.compress(p), p, rest, size, e);
  }

  /** A block that does not decompress to its size is refused, and so is one that is cut short. */
  lemma WrongSizeRefused(z: Lz4, payload: seq<bv8>, rest: seq<bv8>, size: nat, e: nat)
    requires |payload| < 0x8000_0000
    ensures var d := z.decompress(payload, size * e);
            DecodeFrame(z, BE.Encode(|payload|, 4) + payload + rest, size, e).Some? <==>
              d.Some? && |d.value| == size * e
  {
    HeadOfFrame(payload, rest);
  }

  lemma Lz4Undoes(z: Lz4, size: nat, e: nat)
    requires Sound(z) && size % 8 == 0 && size * e <= LZ4_MAX_INPUT
    ensures Undoes(Lz4Blocks(z, e), e, size)
  {
    forall chunk: seq<bv8>, rest: seq<bv8> | |chunk| == size * e
      ensures UndoesAt(Lz4Blocks(z, e), size, chunk, rest)
    {
      FrameRoundTrip(z, chunk, size, e, rest);
    }
  }

  lemma PlainUndoes(size: nat, e: nat)
    requires size % 8 == 0
    ensures Undoes(PlainBlocks(e), e, size)
  {
    forall chunk: seq<bv8>, rest: seq<bv8> | |chunk| == size * e
      ensures UndoesAt(PlainBlocks(e), size, chunk, rest)
    {
      EightTimes(size, e);
      var s := Shuffle(chunk, size / 8, e);
      assert (s + rest)[..size * e] == s;
      UnshuffleInverts(chunk, size / 8, e);
    }
  }

  /** `bshuf_compress_lz4_block` between reading its pointers and writing its bytes. */
  method CompressBlock(z: Lz4, a: array<bv8>, size: nat, e: nat) returns (frame: array<bv8>, count: int)
    requires a.Length == size * e
    ensures fresh(frame) && count == if size % 8 == 0 then frame.Length else -80
    ensures count >= 0 ==> frame[..] == Lz4Blocks(z, e).enc(a[..], size)
  {
    var tmp := new bv8[size * e];
    count := TransBitElemVector(a, tmp, size, e, 32);
    if count < 0 { return new bv8[0], count; }
    frame := WriteFrame(z.compress(tmp[..]), 4);
    count := frame.Length;
  }

  /** The length, in `n` bytes, and the compressed bytes. */
  method WriteFrame(payload: seq<bv8>, n: nat) returns (frame: array<bv8>)
    ensures fresh(frame) && frame[..] == BE.Encode(|payload|, n) + payload
  {
    frame := new bv8[|payload| + n](i requires 0 <= i < |payload| + n => if i < n then 0 else payload[i - n]);
    BE.WriteUint(frame, 0, |payload|, n);
    assert frame[..] == frame[0..0 + n] + payload;
  }

  /** `bshuf_decompress_lz4_block`: -91 or another negative number refuses the block. */
  method DecompressBlock(z: Lz4, s: seq<bv8>, size: nat, e: nat) returns (out: array<bv8>, count: int)
    ensures out.Length == size * e
    ensures count >= 0 ==> Lz4Blocks(z, e).dec(s, size) == Some((out[..], count))
    ensures count < 0 <==> Lz4Blocks(z, e).dec(s, size) == None || size % 8 != 0
  {
    out := new bv8[size * e];
    if |s| < 4 { return out, -1; }
    var nbytes := BE.ReadUint(s, 0, 4);
    assert s[0..0 + 4] == s[..4];
    if nbytes >= 0x8000_0000 || |s| < 4 + nbytes { return out, -1; }
    match z.decompress(s[4..4 + nbytes], size * e)
    case None => return out, -1001;
    case Some(p) =>
      if |p| != size * e { return out, -91; }
      var tmp := new bv8[size * e](i requires 0 <= i < size * e => p[i]);
      assert tmp[..] == p;
      count := UntransBitElemVector(tmp, out, size, e);
      if count >= 0 { count := nbytes + 4; }
  }

  // ---- Whole buffers ----

  /** `bshuf_blocked_wrap_fun` once the block size is known; `None` is the error -81. */
  function EncodeAll(k: BlockCodec, data: seq<bv8>, size: nat, e: nat, block: nat): (enc: Option<seq<bv8>>)
    requires block > 0 && |data| == size * e
    ensures enc.Some? <==> block % BLOCKED_MULT == 0
  {
    if block % BLOCKED_MULT != 0 then None
    else
      BlocksCover(size, e, block);
      Some(Encode(k, data, e, BlockSizes(size, block)))
  }

  function DecodeAll(k: BlockCodec, s: seq<bv8>, size: nat, e: nat, block: nat): Option<(seq<bv8>, nat)>
    requires block > 0
  {
    if block % BLOCKED_MULT != 0 then None else Decode(k, s, BlockSizes(size, block), size % 8 * e)
  }

  lemma DecodeAllEncoded(k: BlockCodec, data: seq<bv8>, size: nat, e: nat, block: nat, rest: seq<bv8>, enc: seq<bv8>)
    requires block > 0 && |data| == size * e && EncodeAll(k, data, size, e, block) == Some(enc)
    requires AllUndone(k, e, BlockSizes(size, block))
    ensures DecodeAll(k, enc + rest, size, e, block) == Some((data, |enc|))
  {
    BlocksCover(size, e, block);
    DecodeEncode(k, data, e, BlockSizes(size, block), rest);
  }

  /** LZ4 accepts the largest block that is cut from `size` elements. */
  predicate FitsLz4(size: nat, e: nat, block: nat) {
    block * e <= LZ4_MAX_INPUT || size * e <= LZ4_MAX_INPUT
  }

  lemma BlocksFit(size: nat, e: nat, block: nat, b: nat)
    requires block > 0 && block % 8 == 0 && FitsLz4(size, e, block) && b in BlockSizes(size, block)
    ensures b % 8 == 0 && b * e <= LZ4_MAX_INPUT
  {
    BlockSizesBounded(size, block, b);
    MulMonotone(b, size, e);
    MulMonotone(b, block, e);
  }

  lemma AllBlocksUndone(z: Lz4, size: nat, e: nat, block: nat)
    requires Sound(z) && block > 0 && block % 8 == 0 && FitsLz4(size, e, block)
    ensures AllUndone(Lz4Blocks(z, e), e, BlockSizes(size, block))
  {
    forall b | b in BlockSizes(size, block)
      ensures Undoes(Lz4Blocks(z, e), e, b)
    {
      BlocksFit(size, e, block, b);
      Lz4Undoes(z, b, e);
    }
  }

  lemma AllBlocksUnshuffled(size: nat, e: nat, block: nat)
    requires block > 0 && block % 8 == 0
    ensures AllUndone(PlainBlocks(e), e, BlockSizes(size, block))
  {
    forall b | b in BlockSizes(size, block)
      ensures Undoes(PlainBlocks(e), e, b)
    {
      BlockSizesBounded(size, block, b);
      PlainUndoes(b, e);
    }
  }

  // `bshuf_compress_lz4`, `bshuf_decompress_lz4`, `bshuf_bitshuffle`, `bshuf_bitunshuffle`.

  function CompressLz4(z: Lz4, data: seq<bv8>, size: nat, e: nat, block: nat): Option<seq<bv8>>
    requires e > 0 && |data| == size * e
  {
    EncodeAll(Lz4Blocks(z, e), data, size, e, Resolve(block, e))
  }

  function DecompressLz4(z: Lz4, s: seq<bv8>, size: nat, e: nat, block: nat): Option<(seq<bv8>, nat)>
    requires e > 0
  {
    DecodeAll(Lz4Blocks(z, e), s, size, e, Resolve(block, e))
  }

  function BitShuffle(data: seq<bv8>, size: nat, e: nat, block: nat): Option<seq<bv8>>
    requires e > 0 && |data| == size * e
  {
    EncodeAll(PlainBlocks(e), data, size, e, Resolve(block, e))
  }

  function BitUnshuffle(s: seq<bv8>, size: nat, e: nat, block: nat): Option<(seq<bv8>, nat)>
    requires e > 0
  {
    DecodeAll(PlainBlocks(e), s, size, e, Resolve(block, e))
  }

  lemma DecodeFrames(z: Lz4, data: seq<bv8>, size: nat, e: nat, block: nat, rest: seq<bv8>, enc: seq<bv8>)
    requires Sound(z) && block > 0 && |data| == size * e && FitsLz4(size, e, block)
    requires EncodeAll(Lz4Blocks(z, e), data, size, e, block) == Some(enc)
    ensures DecodeAll(Lz4Blocks(z, e), enc + rest, size, e, block) == Some((data, |enc|))
  {
    AllBlocksUndone(z, size, e, block);
    DecodeAllEncoded(Lz4Blocks(z, e), data, size, e, block, rest, enc);
  }

  /** Decompressing restores the input and reads exactly the bytes compressing wrote,
      whatever follows them. */
  lemma DecompressCompress(z: Lz4, data: seq<bv8>, size: nat, e: nat, block: nat, rest: seq<bv8>)
    requires Sound(z) && e > 0 && |data| == size * e && FitsLz4(size, e, Resolve(block, e))
    ensures var enc := CompressLz4(z, data, size, e, block);
            && (enc.Some? <==> block % 8 == 0)
            && (enc.Some? ==> DecompressLz4(z, enc.value + rest, size, e, block) == Some((data, |enc.value|)))
  {
    if block % 8 == 0 {
      DecodeFrames(z, data, size, e, Resolve(block, e), rest, CompressLz4(z, data, size, e, block).value);
    }
  }

  /** Blocked unshuffling of a blocked shuffle is the identity. */
  lemma UnshuffleShuffled(data: seq<bv8>, size: nat, e: nat, block: nat, rest: seq<bv8>)
    requires e > 0 && |data| == size * e
    ensures var enc := BitShuffle(data, size, e, block);
            && (enc.Some? <==> block % 8 == 0)
            && (enc.Some? ==> BitUnshuffle(enc.value + rest, size, e, block) == Some((data, |enc.value|)))
  {
    if block % 8 == 0 {
      AllBlocksUnshuffled(size, e, Resolve(block, e));
      DecodeAllEncoded(PlainBlocks(e), data, size, e, Resolve(block, e), rest, BitShuffle(data, size, e, block).value);
    }
  }

  /** The same for threads: whatever the schedules, what the compressing threads wrote is
      restored by the decompressing threads, and both return the number of its bytes. */
  lemma ThreadsRestore(z: Lz4, data: seq<bv8>, size: nat, e: nat, block: nat, enc: seq<bv8>, rest: seq<bv8>,
                       c: Config, s0: State, acts: seq<Action>, s: State,
                       d: Config, t0: State, acts': seq<Action>, t: State)
    requires Sound(z) && block > 0 && |data| == size * e && FitsLz4(size, e, block) && block % 8 == 0
    requires 2 <= c.ring && 1 <= c.threads
    requires c == EncodeChain(Lz4Blocks(z, e), data, size, e, block, c.ring, c.threads)
    requires Init(c, s0) && Run(c, s0, acts, s) && Finished(c, s) && HoldsExactly(s.mem, 0, enc)
    requires 2 <= d.ring && 1 <= d.threads
    requires d == DecodeChain(Lz4Blocks(z, e), enc + rest, size, e, block, d.ring, d.threads)
    requires Init(d, t0) && Run(d, t0, acts', t) && Finished(d, t)
    ensures HoldsExactly(t.mem, 0, data) && s.count == t.count == |enc|
    ensures EncodeAll(Lz4Blocks(z, e), data, size, e, block) == Some(enc)
  {
    var k := Lz4Blocks(z, e);
    AllBlocksUndone(z, size, e, block);
    ParallelEncode(k, data, size, e, block, c, s0, acts, s);
    SameBytes(s.mem, 0, enc, Encode(k, data, e, BlockSizes(size, block)));
    ParallelRoundTrip(k, data, size, e, block, enc, rest, c, s0, acts, s, d, t0, acts', t);
  }

  // ---- Streams in a row ----

  /** Streams can be cut at block boundaries: compressing one part after the other gives the
      compressed whole. */
  lemma CompressAppend(k: BlockCodec, a: seq<bv8>, b: seq<bv8>, m: nat, n: nat, e: nat, block: nat)
    requires |a| == m * e && |b| == n * e && block > 0 && block % 8 == 0 && m % block == 0
    ensures |a + b| == (m + n) * e
    ensures EncodeAll(k, a + b, m + n, e, block)
            == Some(EncodeAll(k, a, m, e, block).value + EncodeAll(k, b, n, e, block).value)
  {
    MultipleIs(m, block);
    MultipleOfEight(m, block);
    BlockSizesAppend(m, n, block);
    BlocksCover(m, e, block);
    BlocksCover(n, e, block);
    EncodeAppend(k, a, b, e, BlockSizes(m, block), BlockSizes(n, block));
    BlocksCover(m + n, e, block);
  }

  lemma DecodeAppended(k: BlockCodec, a: seq<bv8>, b: seq<bv8>, m: nat, n: nat, e: nat, block: nat, s: seq<bv8>,
                       t: seq<bv8>)
    requires |a| == m * e && |b| == n * e && block > 0 && m % block == 0
    requires EncodeAll(k, a, m, e, block) == Some(s) && EncodeAll(k, b, n, e, block) == Some(t)
    requires AllUndone(k, e, BlockSizes(m + n, block))
    ensures DecodeAll(k, s + t, m + n, e, block) == Some((a + b, |s| + |t|))
  {
    CompressAppend(k, a, b, m, n, e, block);
    DecodeAllEncoded(k, a + b, m + n, e, block, [], s + t);
    assert s + t + [] == s + t;
  }

  /** Two compressed streams in a row decompress like one. */
  lemma DecompressAppended(z: Lz4, a: seq<bv8>, b: seq<bv8>, m: nat, n: nat, e: nat, block: nat, s: seq<bv8>,
                           t: seq<bv8>)
    requires Sound(z) && |a| == m * e && |b| == n * e && block > 0 && m % block == 0 && FitsLz4(m + n, e, block)
    requires EncodeAll(Lz4Blocks(z, e), a, m, e, block) == Some(s)
    requires EncodeAll(Lz4Blocks(z, e), b, n, e, block) == Some(t)
    ensures DecodeAll(Lz4Blocks(z, e), s + t, m + n, e, block) == Some((a + b, |s| + |t|))
  {
    assert block % 8 == 0;
    assert AllUndone(Lz4Blocks(z, e), e, BlockSizes(m + n, block)) by {
      AllBlocksUndone(z, m + n, e, block);
    }
    DecodeAppended(Lz4Blocks(z, e), a, b, m, n, e, block, s, t);
  }

  // ---- The bound ----

  /** `bshuf_compress_lz4_bound` once the block size is known; the error -81 becomes a huge
      `size_t` there and is not modelled. */
  function CompressBound(z: Lz4, size: nat, e: nat, block: nat): nat
    requires block > 0
  {
    BoundFor(z, size / block, block, size % block / BLOCKED_MULT * BLOCKED_MULT, size % BLOCKED_MULT, e)
  }

  function BoundFor(z: Lz4, n: nat, block: nat, leftover: nat, tail: nat, e: nat): nat {
    (z.bound(block * e) + 4) * n + (if leftover > 0 then z.bound(leftover * e) + 4 else 0) + tail * e
  }

  lemma FrameBounded(z: Lz4, chunk: seq<bv8>, size: nat, e: nat)
    requires Sound(z) && size % 8 == 0 && size * e <= LZ4_MAX_INPUT
    ensures |Frame(z, chunk, size, e)| <= z.bound(size * e) + 4
  {
    EightTimes(size, e);
  }

  lemma FramesBounded(z: Lz4, size: nat, e: nat, block: nat)
    requires Sound(z) && block > 0 && FitsLz4(size, e, block) && block % 8 == 0
    ensures forall c :: c in BlockSizes(size, block) ==> Bounded(Lz4Blocks(z, e), e, c, z.bound, 4)
  {
    forall c | c in BlockSizes(size, block)
      ensures Bounded(Lz4Blocks(z, e), e, c, z.bound, 4)
    {
      BlocksFit(size, e, block, c);
      forall chunk: seq<bv8> | |chunk| == c * e
        ensures |Lz4Blocks(z, e).enc(chunk, c)| <= z.bound(c * e) + 4
      {
        FrameBounded(z, chunk, c, e);
      }
    }
  }

  /** The same bound, block by block. */
  function LongestOutput(z: Lz4, size: nat, e: nat, block: nat): nat
    requires block > 0
  {
    BoundOf(BlockSizes(size, block), e, z.bound, 4) + size % 8 * e
  }

  lemma BoundIsLongest(z: Lz4, size: nat, e: nat, block: nat)
    requires block > 0
    ensures LongestOutput(z, size, e, block) == CompressBound(z, size, e, block)
  {
    BlockSizesAre(size, block);
    BoundOfCut(size / block, block, size % block / 8 * 8, e, z.bound, 4);
  }

  lemma EncodeAllBounded(k: BlockCodec, z: Lz4, data: seq<bv8>, size: nat, e: nat, sizes: seq<nat>)
    requires |data| == size * e && Bytes(sizes, e) + size % 8 * e == size * e
    requires forall c :: c in sizes ==> Bounded(k, e, c, z.bound, 4)
    ensures |Encode(k, data, e, sizes)| <= BoundOf(sizes, e, z.bound, 4) + size % 8 * e
  {
    EncodeBounded(k, data, e, sizes, z.bound, 4);
  }

  /** Compressing never writes more than the bound. */
  lemma CompressBounded(z: Lz4, data: seq<bv8>, size: nat, e: nat, block: nat, enc: seq<bv8>)
    requires Sound(z) && block > 0 && |data| == size * e && FitsLz4(size, e, block)
    requires EncodeAll(Lz4Blocks(z, e), data, size, e, block) == Some(enc)
    ensures |enc| <= LongestOutput(z, size, e, block) == CompressBound(z, size, e, block)
  {
    FramesBounded(z, size, e, block);
    BlocksCover(size, e, block);
    EncodeAllBounded(Lz4Blocks(z, e), z, data, size, e, BlockSizes(size, block));
    BoundIsLongest(z, size, e, block);
  }

  // ---- A codec that does not compress ----

  /** The premise about LZ4 can be met, if only by not compressing at all; decompressing then
      refuses a wrong size, as LZ4 does. */
  function Stored(): Lz4 {
    Lz4((s: seq<bv8>) => s, (s: seq<bv8>, n: nat) => if |s| == n then Some(s) else None, (n: nat) => n)
  }

  lemma StoredSound()
    ensures Sound(Stored())
  {
  }

  lemma StoredMeets(size: nat, e: nat, block: nat)
    requires block > 0 && block % 8 == 0
    ensures forall c :: c in BlockSizes(size, block) ==> Meets(Lz4Blocks(Stored(), e), e, c, Stored().bound, 4)
  {
    forall c | c in BlockSizes(size, block)
      ensures Meets(Lz4Blocks(Stored(), e), e, c, Stored().bound, 4)
    {
      BlockSizesBounded(size, block, c);
      EightTimes(c, e);
    }
  }

  lemma EncodeAllMeets(k: BlockCodec, z: Lz4, data: seq<bv8>, size: nat, e: nat, sizes: seq<nat>)
    requires |data| == size * e && Bytes(sizes, e) + size % 8 * e == size * e
    requires forall c :: c in sizes ==> Meets(k, e, c, z.bound, 4)
    ensures |Encode(k, data, e, sizes)| == BoundOf(sizes, e, z.bound, 4) + size % 8 * e
  {
    EncodeMeets(k, data, e, sizes, z.bound, 4);
  }

  /** No smaller bound would do: data that do not compress need all of it. */
  lemma BoundIsAttained(data: seq<bv8>, size: nat, e: nat, block: nat, enc: seq<bv8>)
    requires block > 0 && |data| == size * e
    requires EncodeAll(Lz4Blocks(Stored(), e), data, size, e, block) == Some(enc)
    ensures |enc| == CompressBound(Stored(), size, e, block)
  {
    StoredMeets(size, e, block);
    BlocksCover(size, e, block);
    EncodeAllMeets(Lz4Blocks(Stored(), e), Stored(), data, size, e, BlockSizes(size, block));
    BoundIsLongest(Stored(), size, e, block);
  }

  lemma ProductsDiffer(a: nat, b: nat, e: nat)
    requires e > 0 && a != b
    ensures a * e != b * e
  {
    if a < b { MulGrows(a, b, e); } else { MulGrows(b, a, e); }
  }

  lemma StoredRefuses(e: nat, a: nat, b: nat)
    requires e > 0 && a % 8 == 0 && a * e <= LZ4_MAX_INPUT && a != b
    ensures Refuses(Lz4Blocks(Stored(), e), e, a, b)
  {
    var z := Stored();
    forall chunk: seq<bv8>, rest: seq<bv8> | |chunk| == a * e
      ensures RefusesAt(Lz4Blocks(z, e), a, b, chunk, rest)
    {
      var payload := Shuffle(chunk, a / 8, e);
      EightTimes(a, e);
      ProductsDiffer(a, b, e);
      HeadOfFrame(payload, rest);
    }
  }
}
