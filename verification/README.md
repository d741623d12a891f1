# Verified model of the detector data acquisition core

This project models the parts of the data acquisition system in which a mistake silently costs
image data, and proves what they promise:

* the **bitshuffle codec**: the bit transpose and its inverse, scalar and vectorised, the
  blocked format with its LZ4 frames and raw tail, and the ring of locks over which the blocks
  of a buffer are processed by a team of threads (`Bits`, `Grid`, `ShuffleSpec`, `BitShuffle`,
  `BitShuffleSimd`, `Unpack`, `BitShuffleFast`, `IoChain`, `IoChainSafety`, `IoChainRuns`,
  `IoChainOverlap`, `Blocked`, `Codec`), the big endian headers (`BigEndian`), the HDF5 filter and the
  compression service (`H5Filter`);
* the **Gigafrost converter**, which unpacks twelve-bit pixels and scatters eight module
  streams into one image, and the simulator's packing that it undoes (`PixelPacking`,
  `GfConverter`);
* the **recording protocol** between the driver and its writers (`Recording`);
* **frame assembly** from UDP packets and the packet geometry (`FrameAssembly`, `Geometry`);
* the two **image synchronizers** (`StreamSync`, `ModuleSync`);
* the **delay filter** over the shared memory ring, the **split** of an image among senders, the
  two-level **file index** and the periodic **live stream** (`DelayFilter`, `ImageSplit`,
  `FileIndex`, `LiveStream`).

`Arith` and `Wrappers` hold facts about quotients and the option type.

How to read the models:

* Concurrent code is a state machine.  In `IoChain` every acquisition and release of a lock and
  every access to a shared pointer is a step, in `Recording` every message sent, received or
  acted upon; a run is any sequence of steps that are possible when their turn comes, and the
  theorems are about all runs.
* Code that works in place is a method or a class, proved against a function of the old state;
  what the repository promises is then proved about that function.
* Bytes are `bv8` where bits matter and numbers below 256 where values matter.  LZ4 is any pair
  of functions such that decompressing undoes compressing and the output is within its bound.
* Indices of tables are built by counting rows (`Grid.At`), ring slots by counting turns
  (`IoChain.Slot`); `Grid.AtProduct` and `IoChainSafety.SlotIsMod` say that these are the usual
  `row * width + column` and `k % n`.

Some promises hold only under a condition, which is given exactly:

* the ring of locks needs at least two slots: with one, the first caller waits for itself
  (`IoChainRuns.RingOfOneDeadlocks`);
* a chunk header carries the block size if and only if the block has less than 2^32 bytes
  (`H5Filter.HeaderCarriesBlock`); a chunk is restored, for every codec, if and only if the size
  in the header cuts the data into the same blocks (`H5Filter.Lz4FilterRestores`,
  `H5Filter.OtherBlocksRefused`, with an input in `H5Filter.BigBlockRefused`);
* `file_saved` means that the images of a writer are on disk if and only if the writer has not
  been started again while its file was open (`Recording.SavedMeansRecorded`); a writer that was
  started again answers as if nothing had happened (`Recording.RestartLosesImages`);
* a stop request that arrives in the recording loop is obeyed, with at most one more image, if and
  only if the driver is not listening for the first of several images, because that image sets the
  state back to recording (`Recording.StopIsObeyed`); one that arrives while the files are being
  created is overwritten as well (`Recording.StopInCreationForgotten`);
* receiver and converter of a Gigafrost module look for an image in the same place of their shared
  memory if and only if the last packet of a frame needs no padding: the receiver counts the
  padding of that packet and the converter does not (`Geometry.SlotsAgree`, with a size in
  `Geometry.OddLastRow`);
* the module synchronizer reports an image as lost when the cache grows above its size, one call
  before it drops any (`ModuleSync.ReportedEarly`);
* when not all forwarders are used, the number of senders that run is the number of parts the
  stream synchronizer waits for if and only if the image is not larger than the largest one and
  the parts of the senders it takes reach its end (`ImageSplit.SendersAreExpected`); for images
  of the largest size this means that the forwarders divide it.  Five forwarders of full
  Gigafrost images send five parts while six are expected, and so do ten forwarders of images of
  half the height (`ImageSplit.FiveForwardersMismatch`, `ImageSplit.HalfImagesMismatch`);
* the parts tile the image if and only if, in addition, no part that is needed starts late
  (`ImageSplit.PartsTile`, with a lost byte in `ImageSplit.ByteLost`).

## Model

| member | source | states |
|---|---|---|
| `IoChainSafety.SlotIsMod` | source/external/bitshuffle/iochain.c:50-52 | the slot of a call is its number modulo the ring size |
| `IoChainSafety.DispatchKeeps` | source/external/bitshuffle/bitshuffle_core.c:1691-1707 | handing the next block to an idle thread, whatever the other threads are doing (`IoChainOverlap.AnyThreadEntersFirst`), keeps the invariant of the chain |
| `IoChainSafety.NumberKeeps` | source/external/bitshuffle/iochain.c:42-48 | drawing a number under the entry lock keeps it: numbers are drawn in order and the job belongs to the number |
| `IoChainSafety.AdvanceKeeps` | source/external/bitshuffle/iochain.c:49-89 | every lock, unlock, pointer read and pointer write of a call keeps it: one holder per lock, filled slots carry the serial pointers, written bytes are where the serial run puts them |
| `IoChainRuns.CallsSeeSerialPointers` | source/external/bitshuffle/iochain.c:42-89 | in every reachable state each call works with the input and output pointers of the serial run, which its predecessor set, and no two calls write to overlapping places |
| `IoChainRuns.FinishedEqualsSerial` | source/external/bitshuffle/bitshuffle_core.c:1682-1722 | for any number of threads and any interleaving, with as many calls in flight as the ring admits (`IoChainOverlap.OverlapReachable`), a finished run leaves exactly the bytes of the serial run and returns its count |
| `IoChainRuns.OldestIsEnabled` | source/external/bitshuffle/iochain.c:42-89 | the oldest call that has not returned is never blocked |
| `IoChainRuns.NeverStuck` | source/external/bitshuffle/iochain.c:42-89 | as long as work is left some thread can step, also with more threads than ring slots |
| `IoChainRuns.StepsDecrease` | source/external/bitshuffle/iochain.c:42-89 | every action uses up exactly one of the remaining steps |
| `IoChainRuns.EveryScheduleFinishes` | source/external/bitshuffle/bitshuffle_core.c:1692-1722 | every schedule ends after sixteen steps for each call, and a run is stuck if and only if it has finished |
| `IoChainRuns.RingOfOneDeadlocks` | source/external/bitshuffle/iochain.h:37-43 | with a ring of one slot the first call locks itself out: two slots are needed |
| `IoChainOverlap.OverlapReachable` | source/external/bitshuffle/bitshuffle_core.c:1691-1701 | calls overlap: for every n up to the number of threads, of parallel blocks and of ring slots less one, a run leads to n calls that are all between their two locked sections at once |
| `IoChainOverlap.AnyCallReturnsFirst` | source/external/bitshuffle/iochain.c:70-89 | each of n overlapping calls can be the first to write its bytes and return |
| `IoChainOverlap.AnyThreadEntersFirst` | source/external/bitshuffle/bitshuffle_core.c:1691-1694 | n threads can be handed blocks before any has entered, and then each of them may draw the first number |
| `IoChainOverlap.OverlapIsBounded` | source/external/bitshuffle/iochain.h:37-43 | no more calls overlap than that: two calls inside at the same time are less than ring - 1 numbers apart in every reachable state |
| `Bits.Trans8x8Transposes` | source/external/bitshuffle/bitshuffle_core.c:91-98 | the three masked swaps transpose the 8x8 bit matrix in a 64-bit word |
| `ShuffleSpec.ShuffleShuffles` | source/external/bitshuffle/bitshuffle_core.c:258-278 | the shuffle sends bit k of byte j of element 8m+c to bit c of byte m in row 8j+k |
| `ShuffleSpec.UnshuffleShuffles` | source/external/bitshuffle/bitshuffle_core.c:351-369 | the unshuffled buffer is one whose shuffle is the input |
| `ShuffleSpec.ShuffleUnique` | source/external/bitshuffle/bitshuffle_core.c:258-278 | no other buffer of the same size meets the formula |
| `ShuffleSpec.UnshuffleUnique` | source/external/bitshuffle/bitshuffle_core.c:351-369 | no two buffers have the same shuffle |
| `ShuffleSpec.UnshuffleInverts` | source/external/bitshuffle/bitshuffle_core.c:351-369 | unshuffling undoes shuffling and the other way round |
| `BitShuffle.TransByteElemRemainder` | source/external/bitshuffle/bitshuffle_core.c:145-172 | transposes the bytes of the elements from `start` on and leaves the other columns alone; -80 unless `start` is a multiple of eight |
| `BitShuffle.TransByteElemScal` | source/external/bitshuffle/bitshuffle_core.c:176-180 | byte j of element i goes to column i of row j |
| `BitShuffle.TransBitByteRemainder` | source/external/bitshuffle/bitshuffle_core.c:184-217 | transposes the bits of all words from `start` on, the words before it keep their bytes; -80 for partial words |
| `BitShuffle.TransBitByteScal` | source/external/bitshuffle/bitshuffle_core.c:221-225 | transposes bits within bytes for the whole buffer |
| `BitShuffle.TransElem` | source/external/bitshuffle/bitshuffle_core.c:229-242 | transposes a table of entries of any width |
| `BitShuffle.TransComposes` | source/external/bitshuffle/bitshuffle_core.c:258-278 | byte transpose, bit transpose and row transpose together are the shuffle |
| `BitShuffle.TransBitElemScal` | source/external/bitshuffle/bitshuffle_core.c:258-278 | the scalar worker computes the shuffle and returns the size, or -80 when the size is not a multiple of eight |
| `BitShuffle.TransByteBitrowScal` | source/external/bitshuffle/bitshuffle_core.c:283-306 | transposes the bytes of the bit rows |
| `BitShuffle.ShuffleBitEightelemScal` | source/external/bitshuffle/bitshuffle_core.c:310-347 | transposes the bits of every word within its block of eight elements |
| `BitShuffle.UntransComposes` | source/external/bitshuffle/bitshuffle_core.c:351-369 | these two stages together are the unshuffle |
| `BitShuffle.UntransBitElemScal` | source/external/bitshuffle/bitshuffle_core.c:351-369 | the scalar worker computes the unshuffle |
| `BitShuffleSimd.MoveMasks` | source/external/bitshuffle/bitshuffle_core.c:1116-1124 | eight rounds of movemask and shift store the bit columns of a vector as rows |
| `BitShuffleSimd.TransBitByteVector` | source/external/bitshuffle/bitshuffle_core.c:1099-1128 | the SSE loop (width 16) and the AVX loop (1389-1416, width 32) with the scalar remainder transpose the bits like the scalar worker |
| `Unpack.Network16` | source/external/bitshuffle/bitshuffle_core.c:890-918 | the unpack network sorts the bytes of sixteen two-byte elements into two rows |
| `Unpack.Network32` | source/external/bitshuffle/bitshuffle_core.c:922-964 | the same for four bytes |
| `Unpack.Network64` | source/external/bitshuffle/bitshuffle_core.c:968-1033 | the same for eight bytes |
| `BitShuffleFast.TransByteElemPower` | source/external/bitshuffle/bitshuffle_core.c:890-1033 | the loops around these networks with the scalar remainder transpose the bytes for every size |
| `BitShuffleFast.TransElemType` | source/external/bitshuffle/bitshuffle_core.c:112-128 | the eight-at-a-time loop and its remainder transpose a table of wide elements |
| `BitShuffleFast.HierarchyTransposes` | source/external/bitshuffle/bitshuffle_core.c:1066-1094 | wide elements, then bytes, then chunk rows is the direct byte transpose |
| `BitShuffleFast.TransByteElemSse` | source/external/bitshuffle/bitshuffle_core.c:1037-1095 | for every element size the result is the byte transpose of the scalar worker |
| `BitShuffleFast.TransBitElemVector` | source/external/bitshuffle/bitshuffle_core.c:1132-1151 | the vectorised worker computes the same shuffle as the scalar one (AVX: 1420-1440) |
| `BitShuffleFast.ShuffleBitEightelemSse` | source/external/bitshuffle/bitshuffle_core.c:1262-1295 | every word of every block is transposed, as the scalar worker does |
| `BitShuffleFast.ShuffleBitEightelemAvx` | source/external/bitshuffle/bitshuffle_core.c:1539-1572 | the same with the loops exchanged and wider vectors |
| `BitShuffleFast.UntransBitElemVector` | source/external/bitshuffle/bitshuffle_core.c:1576-1593 | the vectorised worker computes the unshuffle |
| `BigEndian.DecodeEncode` | source/external/bitshuffle/bitshuffle_core.c:1775-1821 | reading a written number gives it modulo the width of the field |
| `BigEndian.RoundTrip` | source/external/bitshuffle/bitshuffle_core.c:1775-1821 | a number that fits is read back |
| `BigEndian.WriteUint` | source/external/bitshuffle/bitshuffle_core.c:1775-1808 | the loop writes the digits into its field and nowhere else |
| `BigEndian.ReadUint` | source/external/bitshuffle/bitshuffle_core.c:1787-1821 | the loop reads the number whose digits the field holds |
| `Blocked.BlockSizesAre` | source/external/bitshuffle/bitshuffle_core.c:1695-1707 | the calls are the full blocks and, if there is one, the short block |
| `Blocked.BlocksCover` | source/external/bitshuffle/bitshuffle_core.c:1695-1718 | blocks, short block and raw tail cover the buffer exactly |
| `Blocked.DecodeEncode` | source/external/bitshuffle/bitshuffle_core.c:1669-1723 | for block functions that undo each other, decoding restores the data and reads exactly the encoded bytes, whatever follows |
| `Blocked.SerialEncodes` | source/external/bitshuffle/bitshuffle_core.c:1695-1722 | the serial run of the chain writes the encoded buffer |
| `Blocked.SerialDecodes` | source/external/bitshuffle/bitshuffle_core.c:1695-1722 | the serial run of the chain decodes and counts the bytes read |
| `Blocked.ParallelEncode` | source/external/bitshuffle/bitshuffle_core.c:1691-1723 | every schedule of encoding threads leaves the encoded buffer and returns its size |
| `Blocked.ParallelRoundTrip` | source/external/bitshuffle/bitshuffle_core.c:1691-1723 | every schedule of decoding threads restores what any schedule of encoding threads wrote |
| `Blocked.FullBlocksOverlap` | source/external/bitshuffle/bitshuffle_core.c:1691-1701 | the same for a buffer: any number of its full blocks, up to threads and slots less one, can be in work at once |
| `Codec.DefaultIsLargest` | source/external/bitshuffle/bitshuffle_core.c:1830-1838 | the largest multiple of eight elements that fits the target, unless that is below the minimum |
| `Codec.CompressBlock` | source/external/bitshuffle/bitshuffle.c:31-74 | writes the length and the compressed shuffle of the block |
| `Codec.DecompressBlock` | source/external/bitshuffle/bitshuffle.c:78-114 | reads one frame; a negative count if and only if the frame is refused |
| `Codec.FrameRoundTrip` | source/external/bitshuffle/bitshuffle.c:31-114 | a frame decodes to its block and takes exactly its own bytes |
| `Codec.WrongSizeRefused` | source/external/bitshuffle/bitshuffle.c:91-104 | a frame is accepted if and only if its payload decompresses to exactly the size of the block |
| `Codec.DecompressCompress` | source/external/bitshuffle/bitshuffle.c:231-242 | compressing succeeds if and only if the block size is 0 or a multiple of eight; decompressing restores the input and reads exactly the bytes written |
| `Codec.UnshuffleShuffled` | source/external/bitshuffle/bitshuffle_core.c:1727-1855 | blocked unshuffling of a blocked shuffle is the identity for every size and element size |
| `Codec.ThreadsRestore` | source/external/bitshuffle/bitshuffle.c:31-114 | the same for the threads: any decompressing schedule restores what any compressing schedule wrote, and the counts agree |
| `Codec.CompressAppend` | source/external/bitshuffle/bitshuffle.c:231-235 | compressing two buffers one after the other is compressing their concatenation when the first is whole blocks |
| `Codec.DecompressAppended` | source/external/bitshuffle/bitshuffle.c:231-242 | two such streams in a row decompress to the two inputs in a row |
| `Codec.CompressBounded` | source/external/bitshuffle/bitshuffle.c:209-228 | compressing never writes more than the bound |
| `Codec.BoundIsAttained` | source/external/bitshuffle/bitshuffle.c:209-228 | and data that do not compress need all of it, for every size and block size |
| `H5Filter.HeaderCarriesBlock` | source/external/bitshuffle/bshuf_h5filter.c:138-140 | the block size read from a header is the one written if and only if its bytes fit 32 bits |
| `H5Filter.Lz4FilterWrites` | source/external/bitshuffle/bshuf_h5filter.c:191-211 | a compressed chunk is exactly eight bytes with the size of the data, four with the block size in bytes modulo 2^32, and the output of the compressor: 12 bytes longer than that output |
| `H5Filter.FilterRefuses` | source/external/bitshuffle/bshuf_h5filter.c:109-130 | too few parameters and ZSTD are refused in both directions |
| `H5Filter.ReverseForward` | source/external/bitshuffle/bshuf_h5filter.c:115-211 | what the forward filter writes (exactly `Lz4FilterWrites`) is decoded by the reverse filter if the size in the header cuts the data into the same blocks |
| `H5Filter.Lz4FilterRestores` | source/external/bitshuffle/bshuf_h5filter.c:115-211 | the forward filter writes a chunk if and only if the data are whole elements and blocks a multiple of eight, and the reverse filter restores the data, whatever its own block size is, if the size in the header cuts them into the same blocks |
| `H5Filter.SmallBlock` | source/external/bitshuffle/bshuf_h5filter.c:138-199 | which it does for blocks of less than 2^32 bytes |
| `H5Filter.OtherBlocksRefused` | source/external/bitshuffle/bshuf_h5filter.c:115-211 | otherwise nothing is restored when the codec stores the data and checks their size, as LZ4 does |
| `H5Filter.BigBlockRefused` | source/external/bitshuffle/bshuf_h5filter.c:138-199 | an element size and block size for which no sixteen elements are restored |
| `H5Filter.ShuffledChunkRestored` | source/external/bitshuffle/bshuf_h5filter.c:157-206 | chunks that are only shuffled are the blocked shuffle of the data, of the same size, and are restored, for any size the `int` result can hold |
| `H5Filter.RunFilter` | source/external/bitshuffle/bshuf_h5filter.c:98-235 | the filter fills a new buffer with the specified bytes or returns 0 and the old buffer |
| `H5Filter.CompressImage` | source/std-data-compress/h5bitshuffle-lz4/src/compress.cpp:79-97 | the service writes header and compressed image to the slot and sends exactly when the specification does |
| `H5Filter.MessageOf` | source/std-data-compress/h5bitshuffle-lz4/src/compress.cpp:79-97 | the message is the header and the encoded image and nothing else, and decodes to it |
| `H5Filter.SentImageDecodes` | source/std-data-compress/h5bitshuffle-lz4/src/compress.cpp:72-97 | an image is sent if and only if it has an element and blocks are a multiple of eight elements (0 meaning the default on both sides); it decodes through the reverse filter to its elements, or is refused there if it is not whole elements |
| `PixelPacking.MakePixel` | std_buffer/gigafrost/udp_sim_gf.py:57-69 | or-ing the fields gives the number in which each of them has its own bits |
| `PixelPacking.SimPixelFields` | std_buffer/gigafrost/udp_sim_gf.py:57-69 | two bits of quadrant, one of link, one of packet, four of row and four of column can be read off the pixel |
| `PixelPacking.GeneratePacket` | std_buffer/gigafrost/udp_sim_gf.py:50-74 | the loops pack the pixels of the packet as digits to the base 4096; overflow if they do not fit |
| `PixelPacking.PacketFits` | std_buffer/gigafrost/udp_sim_gf.py:74-74 | pixels fit into one and a half bytes each, so that there is no overflow |
| `PixelPacking.ReadHandle` | source/std-data-convert/std-data-convert-gf/src/converter.cpp:12-19 | the bit fields of three bytes are two pixels of the stream |
| `PixelPacking.UnpackedPacked` | source/std-data-convert/std-data-convert-gf/src/converter.cpp:42-50 | taking pixels out three bytes at a time undoes packing them into one little endian number |
| `PixelPacking.PacketsJoin` | std_buffer/gigafrost/udp_sim_gf.py:70-74 | packing two pieces of whole pairs one after the other is packing them together |
| `PixelPacking.PacketStreamIs` | std_buffer/gigafrost/udp_sim_gf.py:50-74 | however a frame is cut into packets of whole pairs, its bytes are those of all its pixels packed together |
| `GfConverter.RowStart` | source/std-data-convert/std-data-convert-gf/src/converter.cpp:53-72 | start index and row jump lead to the row of the image that holds a row of the module |
| `GfConverter.OwnerOf` | source/std-data-convert/std-data-convert-gf/src/converter.cpp:53-72 | every pixel of the image belongs to exactly one of the eight modules |
| `GfConverter.NumberOfModule` | source/std-data-convert/std-data-convert-gf/src/main.cpp:46-46 | the eight module numbers are the eight modules |
| `GfConverter.Convert` | source/std-data-convert/std-data-convert-gf/src/converter.cpp:32-51 | a conversion writes the pixels of its module, each to its place, and nothing else |
| `GfConverter.ConvertRestores` | source/std-data-convert/std-data-convert-gf/src/converter.cpp:32-51 | after converting what a module sent of an image, its pixels are those of the image |
| `GfConverter.EightModulesRebuild` | source/std-data-convert/std-data-convert-gf/src/converter.cpp:32-72 | eight conversions in any order, from any buffer, rebuild the image |
| `GfConverter.RowsCarry` | std_buffer/gigafrost/udp_sim_gf.py:94-128 | packets of whole rows, as the simulator sends them, carry the pixels of a module |
| `GfConverter.ConvertAll` | source/std-data-convert/std-data-convert-gf/src/main.cpp:46-86 | converting what all modules sent packet by packet, in any order and from any buffer, rebuilds the image; converters are addressed by module number |
| `Recording.WriterIndex` | source/std-det-driver/src/writer_driver.cpp:190-194 | the index is a data writer |
| `Recording.RunKeeps` | source/std-det-driver/src/writer_driver.cpp:77-90 | in every reachable state the driver has given up or every writer has carried out a beginning of what was sent to it, with one answer for each create, confirm and close, or could not create its file |
| `Recording.ConfirmedMeansWritten` | source/std-det-driver/src/writer_driver.cpp:235-243 | when all writers have confirmed, the images of each are in its file if and only if it has not been started again with the file open |
| `Recording.SavedMeansRecorded` | source/std-det-driver/src/writer_driver.cpp:159-252 | a session that reaches `file_saved` has recorded no more images than asked for and has each writer create its file, write exactly its images in order, confirm, then close, and leaves all channels empty, whatever timeouts, failures, crashes and restarts are possible; the file is on disk if and only if the writer was not started again while it was open |
| `Recording.RecordedBounded` | source/std-det-driver/src/writer_driver.cpp:196-219 | in every reachable state no more images are recorded than asked for, and fewer while an image is taken up |
| `Recording.UninterruptedIsComplete` | source/std-det-driver/src/writer_driver.cpp:196-219 | a saved session that nobody stopped has recorded exactly the number of images asked for |
| `Recording.StopIsObeyed` | source/std-det-driver/src/writer_driver.cpp:202-208 | a stop request in the loop leads to at most one more image in every run, if and only if the driver is not listening for the first of several images |
| `Recording.StopEndsRecording` | source/std-det-driver/src/writer_driver.cpp:202-219 | a stop request does not wait for images: the driver alone can go on to the confirmation with no image but one it has taken up |
| `Recording.StopInCreationForgotten` | source/std-det-driver/src/writer_driver.cpp:77-90 | a stop request while the files are being created can be followed by a session that records everything |
| `Recording.SavedHasNoTimeout` | source/std-det-driver/src/writer_driver.cpp:175-188 | no run that misses an answer is saved |
| `Recording.FailedCreationIsError` | source/std-det-driver/src/writer_driver.cpp:175-188 | a writer that cannot create its file, or does not answer, can end the session in the error state |
| `Recording.WorkedAnswers` | source/std-det-writer/src/main.cpp:92-130 | a writer answers every command except images and a failed switch of the user, with a failure exactly when it cannot create the file |
| `Recording.RestartLosesImages` | source/std-det-writer/src/main.cpp:121-129 | for any configuration, images and writer there is a session that ends in `file_saved` although the writer has lost its file in a restart |
| `Recording.AssignedCount` | source/std-det-driver/src/writer_driver.cpp:190-194 | the images are dealt out in turn: numbers per writer differ by at most one |
| `Recording.FilesInterleave` | source/std-det-driver/src/writer_driver.cpp:196-219 | image k is image k / D in the file of writer k % D, so reading the files in turn gives the recorded sequence |
| `Recording.SomeSessionIsSaved` | source/std-det-driver/src/writer_driver.cpp:77-90 | for any number of writers, with or without metadata writer, and any images there is a session that ends in `file_saved` with them, stopped only if fewer images come than were asked for |
| `FrameAssembly.FramesAreRight` | source/std-udp-recv/src/gigafrost/main.cpp:154-179 | for every stream in order with any losses, both receivers send each frame id once and in order; the last frame has been sent exactly when its last packet came (Eiger: and was not its first one), otherwise it is the only one missing; n_missing is the number of packets that did not come, the others are in their places, and a frame that misses none holds exactly its payloads |
| `FrameAssembly.StepKeeps` | source/std-udp-recv/src/eiger/main.cpp:93-128 | one packet keeps the invariant under either flush rule |
| `FrameAssembly.StepSends` | source/std-udp-recv/src/eiger/main.cpp:98-112 | a packet leaves no frame pending if and only if it is the last one of its frame and, for the Eiger receiver, not the first that came |
| `FrameAssembly.ReceiversAgree` | source/std-udp-recv/src/eiger/main.cpp:93-128 | the two receivers send the same frames, one may be a frame behind |
| `FrameAssembly.PacketLoop.ProcessPacket` | source/std-udp-recv/src/gigafrost/main.cpp:67-89 | counts the packet, copies it to its place and sends the frame after its last packet |
| `FrameAssembly.PacketLoop.OnGigafrostPacket` | source/std-udp-recv/src/gigafrost/main.cpp:157-179 | metadata, missing count, buffer and frames sent change as the runs of `FramesAreRight` take them |
| `FrameAssembly.PacketLoop.OnEigerPacket` | source/std-udp-recv/src/eiger/main.cpp:93-128 | the same for the Eiger receiver, which does not send a frame on a first packet that is also the last (`StepSends`) |
| `Geometry.PacketsAreSound` | source/detectors/include/detectors/gigafrost.hpp:114-157 | at least one row fits, no packet exceeds the payload with its padding, the rows of the packets add up to the module |
| `Geometry.RowsAre` | source/detectors/include/detectors/gigafrost.hpp:117-129 | how many rows the payload has room for: two for each pair of rows that fits, one less when the blocks do not fill cache lines |
| `Geometry.PacketsPadded` | source/detectors/include/detectors/gigafrost.hpp:131-142 | for widths that are a multiple of 24 the bytes of a packet are those of its pixels rounded up to the next multiple of 72 |
| `Geometry.PacketsTile` | source/std-udp-recv/src/gigafrost/main.cpp:103-125 | for widths that are a multiple of 48 the packets tile the bytes of the module, and a frame is as long as the module |
| `Geometry.SlotsAgree` | source/std-data-convert/std-data-convert-gf/src/main.cpp:31-39 | receiver (gigafrost/main.cpp:119-125) and converter find every image in the same place if and only if the last packet has an even number of rows or the width is a multiple of 48 |
| `Geometry.OddLastRow` | source/std-data-convert/std-data-convert-gf/src/main.cpp:31-39 | a module size for which they do not |
| `StreamSync.ProcessTakesFromFront` | source/std-data-sync/std-data-sync-stream/src/synchronizer.cpp:20-67 | a call never throws, keeps queue and counts in step and bounded, and lets ids leave at the front only: as the complete image, which has all its parts, or counted as given up; without a complete image one is given up exactly when a new one comes to a full queue |
| `StreamSync.ProcessCounts` | source/std-data-sync/std-data-sync-stream/src/synchronizer.cpp:20-30 | a call adds one to its image, or forgets it when it is complete, and leaves the other waiting counts alone |
| `StreamSync.CountsAreCalls` | source/std-data-sync/std-data-sync-stream/src/synchronizer.cpp:20-30 | in every run the count of a waiting image is the number of calls for it since the one that created its entry |
| `StreamSync.CompleteOnLastPart` | source/std-data-sync/std-data-sync-stream/src/synchronizer.cpp:20-30 | in every run a call returns its image if and only if it is the n-th for it since its entry was created |
| `StreamSync.RunAccounts` | source/std-data-sync/std-data-sync-stream/src/synchronizer.cpp:20-84 | for every sequence of calls: images returned are a subsequence of those created, created = returned + given up + waiting, and the returned counts add up to those given up |
| `StreamSync.Synchronizer.DiscardStaleImages` | source/std-data-sync/std-data-sync-stream/src/synchronizer.cpp:44-55 | the loop drops exactly the ids before the complete one |
| `StreamSync.Synchronizer.ProcessImageMetadata` | source/std-data-sync/std-data-sync-stream/src/synchronizer.cpp:20-30 | queue, counts and reply change as the runs of `RunAccounts` and `CompleteOnLastPart` take them, the invariant is kept and the method never throws |
| `ModuleSync.PoppedIsComplete` | source/std-data-sync/std-data-sync-module/include/synchronizer.hpp:38-103 | after any calls the cache is bounded, a popped image has the least id, is the frame that came first for it and received every expected module exactly once since its entry was created, and losses do not exceed the returned counts |
| `ModuleSync.CompleteIsPopped` | source/std-data-sync/std-data-sync-module/include/synchronizer.hpp:47-56 | after any calls the first image is popped if and only if every expected module has come for it once |
| `ModuleSync.OthersStay` | source/std-data-sync/std-data-sync-module/include/synchronizer.hpp:67-91 | a frame leaves entries of other images alone, except the oldest, which goes exactly when a new image finds more than the cache is meant to hold |
| `ModuleSync.ReportedEarly` | source/std-data-sync/std-data-sync-module/include/synchronizer.hpp:67-76 | what is reported is what is lost, and one more when a new image takes the cache above its size |
| `ModuleSync.SetAllIs` | source/std-data-sync/std-data-sync-module/include/synchronizer.hpp:59-65 | without a mask exactly the modules below the number of modules are expected |
| `ModuleSync.PopsIncrease` | source/std-data-sync/std-data-sync-module/include/synchronizer.hpp:47-56 | in any segment of any run in which no entry is inserted for an image that is not newer than those popped in the segment before it, popped ids strictly increase |
| `ModuleSync.EntriesBalance` | source/std-data-sync/std-data-sync-module/include/synchronizer.hpp:67-91 | a call creates an entry for a new image and removes exactly those counted lost |
| `ModuleSync.Synchronizer.ProcessImageMetadata` | source/std-data-sync/std-data-sync-module/include/synchronizer.hpp:38-45 | search of the ordered map, eviction of the oldest image, mask update and removal on a duplicate change the cache and return the count as the runs of `PoppedIsComplete` take them |
| `ModuleSync.Synchronizer.PopNextFullImage` | source/std-data-sync/std-data-sync-module/include/synchronizer.hpp:47-56 | the first entry of the ordered map leaves if and only if its mask is empty |
| `DelayFilter.EmittedIsPrefix` | source/std-delay-filter/src/main.cpp:60-68 | what is emitted is a prefix of what came in and the rest is waiting: nothing is lost, reordered or overwritten |
| `DelayFilter.HeldUntil` | source/std-delay-filter/src/meta_buffer.cpp:21-37 | on every arrival the oldest waiting item is emitted if and only if the ring is full or it has been held for longer than the period |
| `DelayFilter.MetaBuffer.OnImage` | source/std-delay-filter/src/meta_buffer.cpp:21-42 | push then pop on the ring of indices is one turn of the queue, although equal indices mean empty before and full after a push |
| `DelayFilter.StaysInSlot` | source/core-buffer/src/ram_buffer.cpp:58-68 | an image stays in its slot for a whole turn of the ring |
| `DelayFilter.EmittedStillInRam` | source/std-delay-filter/src/meta_buffer.cpp:10-19 | an emitted image is still in its slot and survives 998 further images |
| `DelayFilter.SlotsNumber` | source/utils/src/image_size_calc.cpp:30-36 | at least 1000 slots, more only if they fit the memory, and never fewer than fit it |
| `ImageSplit.PartsDisjoint` | source/utils/src/image_size_calc.cpp:38-64 | parts lie inside the image and do not overlap |
| `ImageSplit.PartsTile` | source/utils/src/image_size_calc.cpp:38-64 | every byte is sent, by exactly one sender, if and only if no part that is needed starts late, the last of them reaches the end of the image, and enough senders have been started; stated for every image and split size |
| `ImageSplit.CoveredOnce` | source/utils/src/image_size_calc.cpp:38-64 | no byte is sent by two senders |
| `ImageSplit.WholeImageTiles` | source/utils/src/image_size_calc.cpp:38-64 | for an image as large as what is divided, in particular with all forwarders in use, the parts tile if and only if the forwarders divide it |
| `ImageSplit.ByteLost` | source/utils/src/image_size_calc.cpp:38-64 | five forwarders of full Gigafrost images leave out the byte between the third and the fourth part |
| `ImageSplit.UseAllMisses` | source/utils/src/image_size_calc.cpp:38-64 | with all forwarders exactly image mod forwarders bytes are missed, so the image is complete if and only if they divide it |
| `ImageSplit.FullImagesSentWhole` | source/std-stream-send/src/sender.cpp:76-92 | with full images no sender exits, one part is expected, and every byte of an image is sent by exactly the sender whose turn it is |
| `ImageSplit.AllSendersExpected` | source/utils/src/image_size_calc.cpp:66-75 | with all forwarders the synchronizer expects as many parts as senders run |
| `ImageSplit.SendersAreExpected` | source/std-stream-send/src/sender.cpp:55-58 | otherwise the senders that do not exit are as many as expected (stream_sync.cpp:33) if and only if the image is not larger than the largest one and the parts of the senders it takes reach its end; for every image size |
| `ImageSplit.ActiveIs` | source/std-stream-send/src/sender.cpp:55-58 | how many senders do not exit, for every image size |
| `ImageSplit.DividedAlwaysExpected` | source/utils/src/image_size_calc.cpp:66-75 | when the forwarders divide the largest image the numbers agree for every image |
| `ImageSplit.LargestImageExpected` | source/utils/src/image_size_calc.cpp:66-75 | for images of the largest size the numbers agree if and only if the forwarders divide it |
| `ImageSplit.FiveForwardersMismatch` | source/utils/src/image_size_calc.cpp:66-75 | five forwarders of full Gigafrost images: five senders, six parts expected |
| `ImageSplit.HalfImagesMismatch` | source/utils/src/image_size_calc.cpp:66-75 | ten forwarders of Gigafrost images of half the height: five senders, six parts expected |
| `FileIndex.LookupIsLeast` | source/std-buffer/std-buffer-common/src/file_handler.cpp:39-61 | the two-level lookup returns the least stored file not older than the one of the image, and nothing if and only if there is none |
| `FileIndex.NamesRoundDown` | source/std-buffer/std-buffer-common/src/file_handler.cpp:111-119 | file and folder names are the first image of the thousand and of the million an image belongs to |
| `FileIndex.AddFileKeeps` | source/std-buffer/std-buffer-common/src/file_handler.cpp:84-100 | writing an image keeps folders non-empty and within their million |
| `FileIndex.WrittenIsFound` | source/std-buffer/std-buffer-common/src/file_handler.cpp:111-119 | an image that has been written is found in its own file |
| `LiveStream.PeriodicCondition.ShouldSend` | source/std-live-stream/src/live_stream.cpp:72-85 | counter, next time and answer change as the runs of `RateIsBounded` take them, including the increment on a failed comparison |
| `LiveStream.RateIsBounded` | source/std-live-stream/src/live_stream.cpp:66-85 | images are sent in bursts of N consecutive ones, started more than a period apart, and at most N * floor((T - t0) / P) by time T |
| `LiveStream.SentExactly` | source/std-live-stream/src/live_stream.cpp:72-85 | an image is sent if and only if the last burst is not finished or it comes more than a period after the start of that burst |

## Left out

- UntransBitElemVector: transposes the bytes of the bit rows with the scalar worker instead of the SSE and AVX networks (bitshuffle_core.c 1156-1258 and 1444-1535), which are more permutations of the same kind.
- NEON workers, big endian machines and the ZSTD paths.
- Blocks that fail inside the lock ring (allocation or codec errors): such a call returns while it holds locks; "no block fails" is a premise. Memory is sequentially consistent.
- CompressBound: the error -81, which wraps around to a huge unsigned number there, is not modelled.
- CompressImage: requires a slot that holds the compressed image; the slots of the service have the size of the image and rely on the data being compressible.
- DecompressBlock: which negative number an LZ4 error becomes.
- DecodeFrame: a header whose length does not fit 31 bits, or that reaches beyond the buffer, is refused; the code hands it to LZ4.
- Lz4FilterRestores: for compressed sizes below 2^31, which the code keeps in an `int`, and data below 2^64 bytes.
- SentImageDecodes: the same.
- Lz4FilterWrites: the same.
- ConvertAll: the converters are separate processes that write to one shared image; they are run one after the other here, in any order, which is justified by their disjoint index sets.
- Convert: for heights and widths that are multiples of four; the pixels of padded packets (module widths that are not a multiple of 48 with an odd number of rows) are not a plain stream of pixels and are left out, here and in `PacketsTile`.
- Recording: messages in flight survive the restart of a writer; the test and the change of state of a stop request are one step; the progress of the driver, file names and what HDF5 does with a file that is not closed.
- ProcessPacket: padded packets, whose copy reaches into the place of the next packet.
- OnGigafrostPacket: the same; the metadata fields copied from the first packet, and packets out of order.
- OnEigerPacket: packets out of order.
- StreamSync: the statistics of the main loop, which only counts given up images when an image is complete.
- ModuleSync: whether an image is good, which only depends on the frame that came first.
- FileIndex: directory listing, sorting and the spelling of file names; the contents of the files.
- LiveStream: the batch condition, a plain remainder.
- The metadata synchronizer, the replay driver, the buffer loader, the Jungfrau conversion, sockets, shared memory, Redis, statistics and the web interface.
