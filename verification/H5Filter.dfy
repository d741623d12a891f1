/** Chunks in the layout of the HDF5 LZ4 filter: the filter `bshuf_h5_filter`, and the
    compression service that writes such chunks without it. */
module H5Filter {
  import opened Arith
  import opened Wrappers
  import opened Blocked
  import opened Codec
  import BE = BigEndian

  const H5_COMPRESS_LZ4 := 2
  const H5_COMPRESS_ZSTD := 3

  /** Eight bytes of data size, four bytes of block size. */
  function Header(nbytes: nat, blockBytes: nat): (h: seq<bv8>)
    ensures |h| == 12
  {
    BE.Encode(nbytes, 8) + BE.Encode(blockBytes, 4)
  }

  lemma ReadHeader(nbytes: nat, blockBytes: nat, rest: seq<bv8>)
    requires nbytes < 0x1_0000_0000_0000_0000
    ensures var s := Header(nbytes, blockBytes) + rest;
            && BE.Decode(s[..8]) == nbytes
            && BE.Decode(s[8..12]) == blockBytes % 0x1_0000_0000
            && s[12..] == rest
  {
    var s := Header(nbytes, blockBytes) + rest;
    assert s[..8] == BE.Encode(nbytes, 8) && s[8..12] == BE.Encode(blockBytes, 4);
    BE.Pow256Values();
    BE.RoundTrip(nbytes, 8);
    BE.DecodeEncode(blockBytes, 4);
  }

  lemma SmallMod(x: nat, n: nat)
    requires n > 0
    ensures x % n == x <==> x < n
  {
    if x < n { DivModUnique(x, 0, x, n); }
  }

  /** The header carries the block size exactly when its bytes fit the field. */
  lemma HeaderCarriesBlock(block: nat, e: nat)
    requires e > 0
    ensures block * e % 0x1_0000_0000 / e == block <==> block * e < 0x1_0000_0000
  {
    var x, r := block * e, block * e % 0x1_0000_0000;
    DivModUnique(x, block, 0, e);
    assert r / e * e <= r;
  }

  /** The value an `int64_t` has once it is stored in an `int`. */
  function Int32(x: nat): (n: int)
    ensures x < 0x8000_0000 ==> n == x
  {
    var r := x % 0x1_0000_0000;
    if r < 0x8000_0000 then r else r - 0x1_0000_0000
  }

  function Take(s: seq<bv8>, n: nat): seq<bv8> {
    if n <= |s| then s[..n] else s
  }

  /** Header and compressed data; `None` for an error.  The size of the compressed data is
      kept in an `int`. */
  function Chunk(nbytes: nat, blockBytes: nat, enc: Option<seq<bv8>>): Option<seq<bv8>> {
    if enc.None? || Int32(|enc.value|) < 0 then None
    else Some(Take(Header(nbytes, blockBytes) + enc.value, 12 + Int32(|enc.value|)))
  }

  function Forward(k: BlockCodec, data: seq<bv8>, e: nat, block: nat): Option<seq<bv8>>
    requires e > 0 && block > 0
  {
    if |data| % e != 0 then None
    else Chunk(|data|, block * e, EncodeAll(k, data, |data| / e, e, block))
  }

  /** Sizes are read from the chunk. */
  function Reverse(k: BlockCodec, chunk: seq<bv8>, e: nat): Option<seq<bv8>>
    requires e > 0
  {
    if |chunk| < 12 then None else ReverseBody(k, chunk[12..], e, BE.Decode(chunk[..8]), BE.Decode(chunk[8..12]))
  }

  function ReverseBody(k: BlockCodec, body: seq<bv8>, e: nat, nbytes: nat, blockBytes: nat): Option<seq<bv8>>
    requires e > 0
  {
    if nbytes % e != 0 then None
    else Decoded(DecodeAll(k, body, nbytes / e, e, Resolve(blockBytes / e, e)))
  }

  /** The count is kept in an `int` here, too. */
  function Decoded(d: Option<(seq<bv8>, nat)>): Option<seq<bv8>> {
    if d.None? || Int32(d.value.1) < 0 then None else Some(d.value.0)
  }

  /** `bshuf_h5_filter` with the parameters `cd`; `None` is the result 0. */
  function Filter(z: Lz4, cd: seq<nat>, reverse: bool, buf: seq<bv8>): Option<seq<bv8>>
    requires |cd| >= 3 ==> cd[2] > 0
  {
    if |cd| < 3 then None
    else
      var e, block := cd[2], if |cd| > 3 then cd[3] else 0;
      if |cd| > 4 && cd[4] == H5_COMPRESS_ZSTD then None
      else if |cd| > 4 && cd[4] == H5_COMPRESS_LZ4 then
        if reverse then Reverse(Lz4Blocks(z, e), buf, e) else Forward(Lz4Blocks(z, e), buf, e, Resolve(block, e))
      else if |buf| % e != 0 then None
      else if reverse then Decoded(BitUnshuffle(buf, |buf| / e, e, block))
      else
        var enc := BitShuffle(buf, |buf| / e, e, block);
        if enc.None? || Int32(|enc.value|) < 0 then None else enc
  }

  // ---- The format ----

  /** Blocks of `b` and of `h` elements cut a buffer of `size` elements in the same way. */
  ghost predicate SameCut(size: nat, b: nat, h: nat)
    requires b > 0 && h > 0
  {
    h % 8 == 0 && BlockSizes(size, h) == BlockSizes(size, b)
  }

  /** Writing a header and compressed data and reading them back, the block size found in the
      header being `h`. */
  lemma ReverseChunk(k: BlockCodec, data: seq<bv8>, nbytes: nat, size: nat, e: nat, b: nat, h: nat, blockBytes: nat,
                     enc: seq<bv8>, rest: seq<bv8>)
    requires e > 0 && b > 0 && |data| == size * e && nbytes < 0x1_0000_0000_0000_0000
    requires Resolve(blockBytes % 0x1_0000_0000 / e, e) == h && SameCut(size, b, h)
    requires EncodeAll(k, data, size, e, b) == Some(enc) && |enc| < 0x8000_0000
    requires AllUndone(k, e, BlockSizes(size, b))
    requires nbytes / e == size
    ensures Chunk(nbytes, blockBytes, Some(enc)) == Some(Header(nbytes, blockBytes) + enc)
    ensures Reverse(k, Header(nbytes, blockBytes) + enc + rest, e) == if nbytes % e == 0 then Some(data) else None
  {
    WholeChunk(nbytes, blockBytes, enc, rest);
    ReadHeader(nbytes, blockBytes, enc + rest);
    DecodeAllEncoded(k, data, size, e, b, rest, enc);
  }

  lemma WholeChunk(nbytes: nat, blockBytes: nat, enc: seq<bv8>, rest: seq<bv8>)
    requires |enc| < 0x8000_0000
    ensures Chunk(nbytes, blockBytes, Some(enc)) == Some(Header(nbytes, blockBytes) + enc)
    ensures Header(nbytes, blockBytes) + enc + rest == Header(nbytes, blockBytes) + (enc + rest)
  {
    TakeAll(Header(nbytes, blockBytes) + enc);
    Regroup(Header(nbytes, blockBytes), enc, rest);
  }

  lemma TakeAll(s: seq<bv8>)
    ensures Take(s, |s|) == s
  {
  }

  lemma Regroup(a: seq<bv8>, b: seq<bv8>, c: seq<bv8>)
    ensures a + b + c == a + (b + c)
  {
  }

  /** The block size that the reverse filter finds in a chunk written with blocks of `b`. */
  function HeaderBlock(b: nat, e: nat): (h: nat)
    requires e > 0
    ensures h > 0
  {
    Resolve(b * e % 0x1_0000_0000 / e, e)
  }

  lemma SmallBlock(size: nat, b: nat, e: nat)
    requires e > 0 && b > 0 && b % 8 == 0 && b * e < 0x1_0000_0000
    ensures HeaderBlock(b, e) == b && SameCut(size, b, HeaderBlock(b, e))
  {
    HeaderCarriesBlock(b, e);
  }

  /** What the forward filter writes is decoded by the reverse filter, whatever block size
      that one has been configured with, if the header leads to the same blocks. */
  lemma ReverseForward(k: BlockCodec, data: seq<bv8>, size: nat, e: nat, b: nat, h: nat, rest: seq<bv8>)
    requires e > 0 && b > 0 && |data| == size * e && |data| < 0x1_0000_0000_0000_0000
    requires b % 8 == 0 && h == HeaderBlock(b, e) && SameCut(size, b, h)
    requires AllUndone(k, e, BlockSizes(size, b))
    requires |EncodeAll(k, data, size, e, b).value| < 0x8000_0000
    ensures Forward(k, data, e, b).Some?
    ensures Reverse(k, Forward(k, data, e, b).value + rest, e) == Some(data)
  {
    DivModUnique(|data|, size, 0, e);
    ReverseChunk(k, data, |data|, size, e, b, h, b * e, EncodeAll(k, data, size, e, b).value, rest);
  }

  /** If it leads to other blocks, a codec that tells sizes apart refuses the chunk. */
  lemma ReverseRefuses(k: BlockCodec, data: seq<bv8>, size: nat, e: nat, b: nat, h: nat, rest: seq<bv8>)
    requires e > 0 && b > 0 && |data| == size * e && |data| < 0x1_0000_0000_0000_0000
    requires b % 8 == 0 && h == HeaderBlock(b, e) && !SameCut(size, b, h)
    requires AllUndone(k, e, BlockSizes(size, b)) && Strict(k, e, BlockSizes(size, b))
    requires |EncodeAll(k, data, size, e, b).value| < 0x8000_0000
    ensures Forward(k, data, e, b).Some?
    ensures Reverse(k, Forward(k, data, e, b).value + rest, e) == None
  {
    DivModUnique(|data|, size, 0, e);
    var enc := EncodeAll(k, data, size, e, b).value;
    WholeChunk(|data|, b * e, enc, rest);
    ReadHeader(|data|, b * e, enc + rest);
    if h % 8 == 0 { DecodeOtherCut(k, data, size, e, b, h, enc, rest); }
  }

  lemma PositiveSizes(size: nat, b: nat)
    requires b > 0 && b % 8 == 0
    ensures Positive(BlockSizes(size, b))
  {
    var sizes := BlockSizes(size, b);
    forall i | 0 <= i < |sizes|
      ensures sizes[i] > 0
    {
      BlockSizesBounded(size, b, sizes[i]);
    }
  }

  lemma DecodeOtherCut(k: BlockCodec, data: seq<bv8>, size: nat, e: nat, b: nat, h: nat, enc: seq<bv8>, rest: seq<bv8>)
    requires e > 0 && b > 0 && h > 0 && |data| == size * e && EncodeAll(k, data, size, e, b) == Some(enc)
    requires h % 8 == 0 && BlockSizes(size, h) != BlockSizes(size, b)
    requires AllUndone(k, e, BlockSizes(size, b)) && Strict(k, e, BlockSizes(size, b))
    ensures DecodeAll(k, enc + rest, size, e, h) == None
  {
    BlocksCover(size, e, b);
    BlocksCover(size, e, h);
    PositiveSizes(size, b);
    PositiveSizes(size, h);
    OtherCutRefused(k, data, e, BlockSizes(size, b), BlockSizes(size, h), rest, size % 8 * e);
  }

  /** The sizes LZ4 and the `int`s of the filter can deal with. */
  ghost predicate Manageable(z: Lz4, size: nat, e: nat, block: nat)
    requires block > 0
  {
    FitsLz4(size, e, block) && LongestOutput(z, size, e, block) < 0x8000_0000
  }

  lemma CompressedSize(z: Lz4, data: seq<bv8>, size: nat, e: nat, block: nat)
    requires Sound(z) && |data| == size * e && block > 0 && block % 8 == 0 && Manageable(z, size, e, block)
    ensures |EncodeAll(Lz4Blocks(z, e), data, size, e, block).value| < 0x8000_0000
    ensures AllUndone(Lz4Blocks(z, e), e, BlockSizes(size, block))
  {
    CompressBounded(z, data, size, e, block, EncodeAll(Lz4Blocks(z, e), data, size, e, block).value);
    AllBlocksUndone(z, size, e, block);
  }

  // ---- The filter ----

  lemma ForwardWhen(k: BlockCodec, data: seq<bv8>, e: nat, b: nat)
    requires e > 0 && b > 0 && Forward(k, data, e, b).Some?
    ensures |data| % e == 0 && b % 8 == 0
  {
  }

  lemma ForwardExactly(k: BlockCodec, data: seq<bv8>, size: nat, e: nat, b: nat, h: nat)
    requires e > 0 && b > 0 && |data| == size * e && |data| < 0x1_0000_0000_0000_0000
    requires b % 8 == 0 && h == HeaderBlock(b, e) && SameCut(size, b, h)
    requires AllUndone(k, e, BlockSizes(size, b))
    requires |EncodeAll(k, data, size, e, b).value| < 0x8000_0000
    ensures Forward(k, data, e, b).Some? && Reverse(k, Forward(k, data, e, b).value, e) == Some(data)
  {
    ReverseForward(k, data, size, e, b, h, []);
    var chunk := Forward(k, data, e, b).value;
    assert chunk + [] == chunk;
  }

  /** Compressed chunks: the forward filter writes one exactly when the data are whole
      elements and the block size is a multiple of eight, and the reverse filter
      restores the data if the header leads to the same blocks, whatever block size it has
      been configured with. */
  lemma CompressedChunkRestored(z: Lz4, data: seq<bv8>, size: nat, e: nat, b: nat, h: nat)
    requires Sound(z) && e > 0 && b > 0 && size == |data| / e && Manageable(z, size, e, b)
    requires |data| < 0x1_0000_0000_0000_0000 && h == HeaderBlock(b, e)
    ensures var chunk := Forward(Lz4Blocks(z, e), data, e, b);
            && (b % 8 == 0 && |data| % e == 0 && SameCut(size, b, h) ==>
                  chunk.Some? && Reverse(Lz4Blocks(z, e), chunk.value, e) == Some(data))
            && (chunk.Some? <==> |data| % e == 0 && b % 8 == 0)
  {
    var k := Lz4Blocks(z, e);
    if |data| % e == 0 && b % 8 == 0 {
      WholeElements(|data|, e);
      CompressedSize(z, data, size, e, b);
      ForwardWritten(k, data, size, e, b);
      if SameCut(size, b, h) { ForwardExactly(k, data, size, e, b, h); }
    } else if Forward(k, data, e, b).Some? {
      ForwardWhen(k, data, e, b);
    }
  }

  lemma ForwardWritten(k: BlockCodec, data: seq<bv8>, size: nat, e: nat, b: nat)
    requires e > 0 && b > 0 && b % 8 == 0 && |data| == size * e
    requires |EncodeAll(k, data, size, e, b).value| < 0x8000_0000
    ensures Forward(k, data, e, b).Some?
  {
    DivModUnique(|data|, size, 0, e);
  }

  lemma StoredStrict(size: nat, e: nat, b: nat)
    requires e > 0 && b > 0 && b % 8 == 0 && FitsLz4(size, e, b)
    ensures Strict(Lz4Blocks(Stored(), e), e, BlockSizes(size, b))
  {
    forall a, c: nat | a in BlockSizes(size, b) && a != c
      ensures Refuses(Lz4Blocks(Stored(), e), e, a, c)
    {
      BlocksFit(size, e, b, a);
      StoredRefuses(e, a, c);
    }
  }

  /** That the header leads to the same blocks is also necessary: otherwise no chunk at all is
      decoded when the codec stores the data and checks their size. */
  lemma OtherBlocksRefused(data: seq<bv8>, size: nat, e: nat, b: nat, h: nat)
    requires e > 0 && b > 0 && b % 8 == 0 && |data| == size * e && |data| < 0x1_0000_0000_0000_0000
    requires Manageable(Stored(), size, e, b) && h == HeaderBlock(b, e) && !SameCut(size, b, h)
    ensures var chunk := Forward(Lz4Blocks(Stored(), e), data, e, b);
            chunk.Some? && Reverse(Lz4Blocks(Stored(), e), chunk.value, e) == None
  {
    var k := Lz4Blocks(Stored(), e);
    StoredSound();
    CompressedSize(Stored(), data, size, e, b);
    StoredStrict(size, e, b);
    ReverseRefuses(k, data, size, e, b, h, []);
    var chunk := Forward(k, data, e, b).value;
    assert chunk + [] == chunk;
  }

  /** A block of 2^29 + 8 elements of eight bytes: its 2^32 + 64 bytes look like 64 in the
      header, and sixteen elements, written as one block, are read as two. */
  lemma BigBlockRefused(data: seq<bv8>)
    requires |data| == 128
    ensures var (k, b) := (Lz4Blocks(Stored(), 8), 0x2000_0008);
            Forward(k, data, 8, b).Some? && Reverse(k, Forward(k, data, 8, b).value, 8) == None
  {
    var b := 0x2000_0008;
    assert HeaderBlock(b, 8) == 8;
    assert BlockSizes(16, b) == [16];
    assert BlockSizes(8, 8) == [8] + BlockSizes(0, 8);
    assert BlockSizes(16, 8) == [8] + BlockSizes(8, 8) == [8, 8];
    assert Manageable(Stored(), 16, 8, b) by {
      var sizes: seq<nat> := [16];
      assert sizes[1..] == [];
      assert BoundOf(sizes, 8, Stored().bound, 4) == 132;
    }
    OtherBlocksRefused(data, 16, 8, b, 8);
  }

  lemma FilterDispatch(z: Lz4, cd: seq<nat>, buf: seq<bv8>, k: BlockCodec, e: nat)
    requires |cd| > 4 && cd[4] == H5_COMPRESS_LZ4 && e == cd[2] > 0 && k == Lz4Blocks(z, e)
    ensures Filter(z, cd, false, buf) == Forward(k, buf, e, Resolve(cd[3], e))
    ensures Filter(z, cd, true, buf) == Reverse(k, buf, e)
  {
  }

  /** The same, in terms of the parameters of the two filters. */
  lemma Lz4FilterRestores(z: Lz4, cd: seq<nat>, cd': seq<nat>, data: seq<bv8>, size: nat, e: nat, b: nat, h: nat)
    requires Sound(z) && |cd| > 4 && |cd'| > 4 && cd[4] == cd'[4] == H5_COMPRESS_LZ4 && cd[2] == cd'[2] == e > 0
    requires b == Resolve(cd[3], e) && size == |data| / e && Manageable(z, size, e, b) && h == HeaderBlock(b, e)
    requires |data| < 0x1_0000_0000_0000_0000
    ensures Filter(z, cd, false, data).Some? <==> |data| % e == 0 && b % 8 == 0
    ensures Filter(z, cd, false, data).Some? && SameCut(size, b, h) ==>
              Filter(z, cd', true, Filter(z, cd, false, data).value) == Some(data)
  {
    var k := Lz4Blocks(z, e);
    var chunk := Forward(k, data, e, b);
    assert Filter(z, cd, false, data) == chunk by { FilterDispatch(z, cd, data, k, e); }
    assert (chunk.Some? <==> |data| % e == 0 && b % 8 == 0)
           && (chunk.Some? && SameCut(size, b, h) ==> Reverse(k, chunk.value, e) == Some(data)) by {
      CompressedChunkRestored(z, data, size, e, b, h);
    }
    if chunk.Some? {
      FilterDispatch(z, cd', chunk.value, k, e);
    }
  }

  /** A chunk, byte for byte: the size of the data in eight bytes, the size of a block in four,
      then the encoded data and nothing else. */
  ghost predicate ChunkOf(chunk: seq<bv8>, nbytes: nat, blockBytes: nat, enc: seq<bv8>) {
    && |chunk| == 12 + |enc|
    && BE.Decode(chunk[..8]) == nbytes
    && BE.Decode(chunk[8..12]) == blockBytes % 0x1_0000_0000
    && chunk[12..] == enc
  }

  lemma ReadChunk(nbytes: nat, blockBytes: nat, enc: seq<bv8>)
    requires nbytes < 0x1_0000_0000_0000_0000
    ensures ChunkOf(Header(nbytes, blockBytes) + enc, nbytes, blockBytes, enc)
  {
    ReadHeader(nbytes, blockBytes, enc);
  }

  lemma ForwardIs(k: BlockCodec, data: seq<bv8>, size: nat, e: nat, b: nat, bytes: nat, enc: seq<bv8>)
    requires e > 0 && b > 0 && |data| == size * e && |data| < 0x1_0000_0000_0000_0000 && bytes == b * e
    requires EncodeAll(k, data, size, e, b) == Some(enc) && |enc| < 0x8000_0000
    ensures Forward(k, data, e, b).Some? && ChunkOf(Forward(k, data, e, b).value, |data|, bytes, enc)
  {
    DivModUnique(|data|, size, 0, e);
    WholeChunk(|data|, bytes, enc, []);
    ReadChunk(|data|, bytes, enc);
  }

  /** The forward filter writes exactly the header and what `bshuf_compress_lz4` writes. */
  lemma Lz4FilterWrites(z: Lz4, cd: seq<nat>, data: seq<bv8>, size: nat, e: nat, b: nat, blockBytes: nat,
                        enc: seq<bv8>)
    requires |cd| > 4 && cd[4] == H5_COMPRESS_LZ4 && cd[2] == e > 0 && b == Resolve(cd[3], e) && blockBytes == b * e
    requires |data| == size * e && |data| < 0x1_0000_0000_0000_0000
    requires CompressLz4(z, data, size, e, cd[3]) == Some(enc) && |enc| < 0x8000_0000
    ensures var chunk := Filter(z, cd, false, data);
            chunk.Some? && ChunkOf(chunk.value, |data|, blockBytes, enc)
  {
    var k := Lz4Blocks(z, e);
    assert Filter(z, cd, false, data) == Forward(k, data, e, b) by { FilterDispatch(z, cd, data, k, e); }
    ForwardIs(k, data, size, e, b, blockBytes, enc);
  }

  /** Too few parameters and a compression that is not built in are errors, whatever the data. */
  lemma FilterRefuses(z: Lz4, cd: seq<nat>, reverse: bool, buf: seq<bv8>)
    requires |cd| < 3 || (cd[2] > 0 && |cd| > 4 && cd[4] == H5_COMPRESS_ZSTD)
    ensures Filter(z, cd, reverse, buf) == None
  {
  }

  lemma ShuffledLength(data: seq<bv8>, e: nat, sizes: seq<nat>)
    requires Bytes(sizes, e) <= |data| && forall b :: b in sizes ==> b % 8 == 0
    ensures |Encode(PlainBlocks(e), data, e, sizes)| == |data|
    decreases |sizes|
  {
    if sizes != [] {
      assert sizes[0] in sizes && forall b :: b in sizes[1..] ==> b in sizes;
      EightTimes(sizes[0], e);
      ShuffledLength(data[sizes[0] * e..], e, sizes[1..]);
    }
  }

  /** Chunks that are only shuffled; their size is kept in an `int`, too. */
  lemma ShuffledChunkRestored(z: Lz4, cd: seq<nat>, data: seq<bv8>)
    requires |cd| >= 3 && cd[2] > 0 && (|cd| > 4 ==> cd[4] != H5_COMPRESS_LZ4 && cd[4] != H5_COMPRESS_ZSTD)
    ensures var chunk := Filter(z, cd, false, data);
            && (chunk.Some? <==> |data| % cd[2] == 0 && (|cd| > 3 ==> cd[3] % 8 == 0) && Int32(|data|) >= 0)
            && (chunk.Some? ==> |chunk.value| == |data| && Filter(z, cd, true, chunk.value) == Some(data))
            && (chunk.Some? ==>
                  && |data| / cd[2] * cd[2] == |data|
                  && chunk == BitShuffle(data, |data| / cd[2], cd[2], if |cd| > 3 then cd[3] else 0))
  {
    var e, block := cd[2], if |cd| > 3 then cd[3] else 0;
    var size, b := |data| / e, Resolve(block, e);
    if |data| % e == 0 && block % 8 == 0 {
      assert |data| == size * e;
      forall c | c in BlockSizes(size, b)
        ensures c % 8 == 0
      {
        BlockSizesBounded(size, b, c);
      }
      BlocksCover(size, e, b);
      ShuffledLength(data, e, BlockSizes(size, b));
      UnshuffleShuffled(data, size, e, block, []);
      var enc := BitShuffle(data, size, e, block).value;
      assert enc + [] == enc;
    }
  }

  // ---- The compression service ----

  /** The message for an image, if one is sent: the header names the configured block size
      in bytes as it is. */
  function Message(k: BlockCodec, image: seq<bv8>, e: nat, blockBytes: nat): Option<seq<bv8>>
    requires e > 0
  {
    var size := |image| / e;
    WholeElements(|image|, e);
    var enc := EncodeAll(k, image[..size * e], size, e, Resolve(blockBytes / e, e));
    if enc.None? || Int32(|enc.value|) <= 0 then None else Chunk(|image|, blockBytes, enc)
  }

  lemma WholeElements(n: nat, e: nat)
    requires e > 0
    ensures 0 <= n / e * e <= n && (n % e == 0 ==> n / e * e == n)
  {
  }

  /** The data of a message, for a block size that the header carries. */
  lemma MessageOf(k: BlockCodec, image: seq<bv8>, data: seq<bv8>, size: nat, e: nat, blockBytes: nat, b: nat,
                  enc: seq<bv8>, rest: seq<bv8>)
    requires e > 0 && b > 0 && size == |image| / e && |data| == size * e && data <= image
    requires |image| < 0x1_0000_0000_0000_0000 && blockBytes < 0x8000_0000 && b == Resolve(blockBytes / e, e)
    requires EncodeAll(k, data, size, e, b) == Some(enc) && 0 < |enc| < 0x8000_0000
    requires AllUndone(k, e, BlockSizes(size, b))
    ensures Message(k, image, e, blockBytes) == Some(Header(|image|, blockBytes) + enc)
    ensures Reverse(k, Header(|image|, blockBytes) + enc + rest, e) == if |image| % e == 0 then Some(data) else None
  {
    var n := size * e;
    assert image[..n] == data;
    SmallMod(blockBytes, 0x1_0000_0000);
    ReverseChunk(k, data, |image|, size, e, b, b, blockBytes, enc, rest);
  }

  lemma EncodedNonempty(z: Lz4, k: BlockCodec, data: seq<bv8>, size: nat, e: nat, b: nat)
    requires e > 0 && b > 0 && b % 8 == 0 && |data| == size * e && k == Lz4Blocks(z, e)
    ensures |EncodeAll(k, data, size, e, b).value| > 0 <==> size > 0
  {
    BlocksCover(size, e, b);
    if size > 0 { MulMonotone(1, size, e); }
  }

  lemma SentDecodes(k: BlockCodec, image: seq<bv8>, data: seq<bv8>, size: nat, e: nat, blockBytes: nat, b: nat,
                    rest: seq<bv8>)
    requires e > 0 && b > 0 && size == |image| / e && |data| == size * e && data <= image
    requires |image| < 0x1_0000_0000_0000_0000 && blockBytes < 0x8000_0000 && b == Resolve(blockBytes / e, e)
    requires b % 8 == 0 ==> AllUndone(k, e, BlockSizes(size, b))
    requires b % 8 == 0 ==> (|EncodeAll(k, data, size, e, b).value| > 0 <==> size > 0)
    requires b % 8 == 0 ==> |EncodeAll(k, data, size, e, b).value| < 0x8000_0000
    ensures Message(k, image, e, blockBytes).Some? <==> size > 0 && b % 8 == 0
    ensures Message(k, image, e, blockBytes).Some? ==>
              Reverse(k, Message(k, image, e, blockBytes).value + rest, e)
              == if |image| % e == 0 then Some(data) else None
  {
    if b % 8 == 0 && size > 0 {
      MessageOf(k, image, data, size, e, blockBytes, b, EncodeAll(k, data, size, e, b).value, rest);
    }
  }

  lemma MessageFacts(z: Lz4, k: BlockCodec, data: seq<bv8>, size: nat, e: nat, b: nat)
    requires Sound(z) && k == Lz4Blocks(z, e) && e > 0 && b > 0 && b % 8 == 0 && |data| == size * e
    requires Manageable(z, size, e, b)
    ensures AllUndone(k, e, BlockSizes(size, b))
    ensures |EncodeAll(k, data, size, e, b).value| > 0 <==> size > 0
    ensures |EncodeAll(k, data, size, e, b).value| < 0x8000_0000
  {
    CompressedSize(z, data, size, e, b);
    EncodedNonempty(z, k, data, size, e, b);
  }

  /** An image is sent exactly when it has at least one element and blocks are a multiple of
      eight elements; what is sent decodes through the reverse filter to the elements of the
      image, unless the image is not made of whole elements, which that filter refuses. */
  lemma SentImageDecodes(z: Lz4, k: BlockCodec, image: seq<bv8>, data: seq<bv8>, size: nat, e: nat, blockBytes: nat,
                         b: nat,
                         rest: seq<bv8>)
    requires Sound(z) && k == Lz4Blocks(z, e)
    requires e > 0 && b > 0 && size == |image| / e && |data| == size * e && data <= image
    requires b == Resolve(blockBytes / e, e) && Manageable(z, size, e, b)
    requires |image| < 0x1_0000_0000_0000_0000 && blockBytes < 0x8000_0000
    ensures Message(k, image, e, blockBytes).Some? <==> size > 0 && b % 8 == 0
    ensures Message(k, image, e, blockBytes).Some? ==>
              Reverse(k, Message(k, image, e, blockBytes).value + rest, e)
              == if |image| % e == 0 then Some(data) else None
    ensures |image| % e == 0 ==> data == image
  {
    if b % 8 == 0 {
      MessageFacts(z, k, data, size, e, b);
    }
    SentDecodes(k, image, data, size, e, blockBytes, b, rest);
    WholeElements(|image|, e);
  }

  // ---- The buffers ----

  method CopyInto(out: array<bv8>, at: nat, s: seq<bv8>)
    requires at + |s| <= out.Length
    modifies out
    ensures out[at..at + |s|] == s && out[..at] == old(out[..at])
    ensures forall i :: 0 <= i < out.Length && !(at <= i < at + |s|) ==> out[i] == old(out[i])
  {
    for i := 0 to |s|
      invariant forall j :: 0 <= j < i ==> out[at + j] == s[j]
      invariant forall j :: 0 <= j < out.Length && !(at <= j < at + |s|) ==> out[j] == old(out[j])
    {
      out[at + i] := s[i];
    }
  }

  /** Two numbers of `m` and `n` bytes. */
  method WriteHeader(out: array<bv8>, x: nat, m: nat, y: nat, n: nat)
    requires m + n <= out.Length
    modifies out
    ensures out[..m + n] == BE.Encode(x, m) + BE.Encode(y, n)
  {
    ghost var first, second := BE.Encode(x, m), BE.Encode(y, n);
    BE.WriteUint(out, 0, x, m);
    assert out[..m] == first by { assert out[..m] == out[0..0 + m]; }
    BE.WriteUint(out, m, y, n);
    assert out[..m] == first;
    assert out[..m + n] == out[..m] + out[m..m + n];
  }

  method WriteFields(out: array<bv8>, x: nat, m: nat, y: nat, n: nat, enc: seq<bv8>)
    requires m + n + |enc| <= out.Length
    modifies out
    ensures out[..m + n + |enc|] == BE.Encode(x, m) + BE.Encode(y, n) + enc
  {
    WriteHeader(out, x, m, y, n);
    AppendAt(out, m + n, enc);
  }

  method AppendAt(out: array<bv8>, at: nat, s: seq<bv8>)
    requires at + |s| <= out.Length
    modifies out
    ensures out[..at + |s|] == old(out[..at]) + s
  {
    CopyInto(out, at, s);
    assert out[..at + |s|] == out[..at] + out[at..at + |s|];
  }

  method WriteChunk(out: array<bv8>, nbytes: nat, blockBytes: nat, enc: seq<bv8>)
    requires 12 + |enc| <= out.Length
    modifies out
    ensures out[..12 + |enc|] == Header(nbytes, blockBytes) + enc
  {
    WriteFields(out, nbytes, 8, blockBytes, 4, enc);
  }

  /** The service writes the chunk to the slot of the image and sends its size. */
  method CompressImage(k: BlockCodec, image: seq<bv8>, slot: array<bv8>, e: nat, blockBytes: nat) returns (size: int)
    requires e > 0 && 0 <= |image| / e * e <= |image|
    requires var enc := EncodeAll(k, image[..|image| / e * e], |image| / e, e, Resolve(blockBytes / e, e));
             enc.Some? ==> 12 + |enc.value| <= slot.Length
    requires slot.Length >= 12
    modifies slot
    ensures size <= 0 <==> Message(k, image, e, blockBytes) == None
    ensures size > 0 ==> 12 + size <= slot.Length && Message(k, image, e, blockBytes) == Some(slot[..12 + size])
  {
    var enc := EncodeAll(k, image[..|image| / e * e], |image| / e, e, Resolve(blockBytes / e, e));
    match enc
    case None =>
      WriteChunk(slot, |image|, blockBytes, []);
      size := -81;
    case Some(bytes) =>
      WriteChunk(slot, |image|, blockBytes, bytes);
      size := Int32(|bytes|);
      if size > 0 { assert slot[..12 + |bytes|][..12 + size] == slot[..12 + size]; }
  }

  method ForwardBuffer(k: BlockCodec, buf: array<bv8>, e: nat, b: nat) returns (n: nat, out: array<bv8>)
    requires e > 0 && b > 0
    ensures Forward(k, buf[..], e, b) == None ==> n == 0 && out == buf
    ensures Forward(k, buf[..], e, b).Some? ==>
              fresh(out) && n <= out.Length && Forward(k, buf[..], e, b) == Some(out[..n])
  {
    n, out := 0, buf;
    var nbytes := buf.Length;
    if nbytes % e != 0 { return; }
    var enc := EncodeAll(k, buf[..], nbytes / e, e, b);
    if enc.None? || Int32(|enc.value|) < 0 { return; }
    out := new bv8[12 + |enc.value|];
    n := 12 + Int32(|enc.value|);
    WriteChunk(out, nbytes, b * e, enc.value);
    assert out[..12 + |enc.value|][..n] == out[..n];
  }

  method ReverseBuffer(k: BlockCodec, buf: array<bv8>, e: nat) returns (n: nat, out: array<bv8>)
    requires e > 0
    ensures Reverse(k, buf[..], e) == None ==> n == 0 && out == buf
    ensures Reverse(k, buf[..], e).Some? ==> fresh(out) && n <= out.Length && Reverse(k, buf[..], e) == Some(out[..n])
  {
    n, out := 0, buf;
    if buf.Length < 12 { return; }
    var nbytes := BE.ReadUint(buf[..], 0, 8);
    var blockBytes := BE.ReadUint(buf[..], 8, 4);
    assert buf[..][0..0 + 8] == buf[..][..8];
    var d := ReverseBody(k, buf[..][12..], e, nbytes, blockBytes);
    if d.Some? { n, out := NewBuffer(d.value); }
  }

  method NewBuffer(s: seq<bv8>) returns (n: nat, out: array<bv8>)
    ensures fresh(out) && n == out.Length && out[..n] == s
  {
    n, out := |s|, new bv8[|s|];
    CopyInto(out, 0, s);
    assert out[..n] == out[0..0 + |s|];
  }

  /** The filter fills a new buffer; 0 and the old buffer are returned for an error. */
  method RunFilter(z: Lz4, cd: seq<nat>, reverse: bool, buf: array<bv8>) returns (n: nat, out: array<bv8>)
    requires |cd| >= 3 ==> cd[2] > 0
    ensures Filter(z, cd, reverse, buf[..]) == None ==> n == 0 && out == buf
    ensures Filter(z, cd, reverse, buf[..]).Some? ==>
              fresh(out) && n <= out.Length && Filter(z, cd, reverse, buf[..]) == Some(out[..n])
  {
    n, out := 0, buf;
    if |cd| < 3 || (|cd| > 4 && cd[4] == H5_COMPRESS_ZSTD) { return; }
    var e, block := cd[2], if |cd| > 3 then cd[3] else 0;
    if |cd| > 4 && cd[4] == H5_COMPRESS_LZ4 {
      if reverse {
        n, out := ReverseBuffer(Lz4Blocks(z, e), buf, e);
      } else {
        n, out := ForwardBuffer(Lz4Blocks(z, e), buf, e, Resolve(block, e));
      }
    } else {
      if buf.Length % e != 0 { return; }
      if reverse {
        var d := Decoded(BitUnshuffle(buf[..], buf.Length / e, e, block));
        if d.Some? { n, out := NewBuffer(d.value); }
      } else {
        var enc := BitShuffle(buf[..], buf.Length / e, e, block);
        if enc.Some? && Int32(|enc.value|) >= 0 { n, out := NewBuffer(enc.value); }
      }
    }
  }
}
