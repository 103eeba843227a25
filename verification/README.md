# OffDrop file-transfer core: a verified model

This project models the C++ core of OffDrop and proves what a transfer promises. It covers the sender's
chunker, the binary wire codec, a channel that reorders, repeats, truncates and drops frames, the receiver
that writes decrypted chunks in place, and the blockwise SHA-256 check.

`dafny verify dfyconfig.toml` checks everything.

| file | modules | what it models |
|---|---|---|
| `Base.dfy` | `Base` | fixed-width integers and their wrap-around, errors, constants |
| `Words.dfy` | `Bits`, `LittleEndian` | shift, mask and or; the little-endian helpers and the growing byte buffer |
| `Protocol.dfy` | `Protocol`, `ProtocolTheorems` | encoders and decoders; what each decoder accepts, exactly |
| `Files.dfy` | `Files` | files, input streams with position and state flag, seeking output streams |
| `Crypto.dfy` | `Crypto` | abstract AES-256-GCM and SHA-256 with stated laws; encrypt, decrypt, file hash |
| `Chunker.dfy` | `Chunker` | the offer and the sender's loop |
| `Reassembly.dfy` | `Reassembly` | the receiver's state as a value: counting, refinement, confluence |
| `Receiver.dfy` | `Receiver` | `FileReceiver`, updating its mask, counter and file in place |
| `Transfer.dfy` | `Transfer` | whole runs over chunks, in any order and number, and under other indices |
| `SizeBound.dfy` | `SizeBound` | files of every size: where transfers stop being exact and what happens beyond |
| `Wire.dfy` | `Wire` | the same runs as bytes on the wire, including several frames in one buffer |
| `EndToEnd.dfy` | `EndToEnd` | the loopback transport and the complete transfer wired over it |

## How the model is set up

- Objects that the source updates in place are classes with the same fields. Loops are loops. Each method is
  proved equal to a function of its inputs or of the old state, and the theorems are about those functions.
- An exception is an `Err` result. The reading order of the tests, hence which error wins, is the source's.
- A `std::string` is a byte string. `uint32_t` casts, `uint64_t` sums, `size_t` sums and the conversion to
  `std::streamoff` are written out with their wrap-around, and shown not to wrap where they do not.
- Encryption is any pair `seal`/`open` that satisfies `Crypto.LawfulAead`: opening undoes sealing, the ciphertext
  is as long as the plaintext, the tag has 16 bytes. Nonces are arbitrary 12-byte inputs, since the source
  draws them at random. Hashing is any init/update/final that satisfies `Crypto.LawfulHash`: updates
  concatenate, an empty update does nothing, digests have 32 bytes. Both laws have instances
  (`Crypto.LawfulAeadExists`, `Crypto.LawfulHashExists`), so no theorem is vacuous.
- Environment of the run theorems (`Transfer.Schedule`): every delivered chunk was emitted by some run of the
  sender on this file, under any nonces, or is rejected by the receiver. The source authenticates a chunk's
  contents but passes no associated data, so the index is not part of what the cipher checks; this is why the
  assumption is stated on whole chunks. Counting, progress and refinement need no such assumption.
- The source file does not change between the offer and the last read.

## Main results

1. **Whole runs.** `Transfer.WholeRun`: for every file of at most (2^32 - 1) * 16384 bytes and every finite
   schedule, the output is at every moment the source with zeros for the blocks still missing. The receiver
   is complete exactly when every index has been accepted, and then the output equals the source.
   `Wire.WireTransfer` is the same over raw buffers: frames of genuine chunks with anything after them or any
   announced length, truncated frames, and whatever is refused. `EndToEnd.TransferFile` runs the whole
   pipeline on objects.
2. **The size bound is exact.** `SizeBound.SizeBoundExact`: over the same schedules completion means equality if
   and only if the size is at most that bound. `SizeBound.SenderRunExact` says so of the sender's own run, which
   completes the receiver for files of every size. Past the bound the 32-bit count announces too few blocks, so
   the tail is lost, and the 32-bit index wraps, so later blocks overwrite the announced ones:
   `SizeBound.SenderRunFolds` gives the resulting file byte by byte. `Chunker.OfferAgreement` finds the same bound
   in the offer.
3. **Decoders are characterised exactly.** A decoder returns p on b if and only if p's lengths fit their
   prefixes and p's encoding is a prefix of b. Round trips (with their exact condition), rejection of every
   truncation, injectivity and unique decodability of frame streams follow.
4. **Refinement and confluence.** Mask, counter and file refine a finite map of blocks, for arbitrary chunks of
   at most a block; the final state depends only on what was delivered. Without the length limit each byte is
   that of the last accepted chunk covering it (`Reassembly.LastWriterWins`), and two chunks commute exactly
   when their overlap agrees (`Reassembly.StepsCommuteExact`); sealed chunks that break it are
   `Reassembly.OversizedDoesNotCommute`.
5. **Counting.** For arbitrary histories, the redundant counter is the number of distinct accepted indices.
6. **Where assumptions end.** Two things the code does not guarantee, with their exact conditions. When frames
   share a buffer, only the first is received: a full run of the sender completes exactly when no two frames
   do (`Wire.CoalescedTransferExact`), although the stream itself splits uniquely. The cipher does not cover the
   index: a complete receiver fed genuine chunks under other indices holds the source exactly when each block
   that stands in for another equals it up to zeros (`Transfer.RelabelledExact`).

## Where comments and code disagree

The model follows the code in each case.

- The comments in `core/include/protocol.hpp` give fixed lengths for keys, digests, nonces and tags; the decoders
  accept any length below 2^32. Only `DecryptChunk` checks nonce and tag.
- `core/include/chunking.hpp:36` lists only authentication failure for `ReceiveChunk`; it also throws on an index
  out of range, and checks that first.
- The data callback of the end-to-end test ignores the announced payload length and decodes all that follows
  the header, so bytes after the chunk are tolerated (`Wire.WireDecodedExact`) and a second frame is lost.

## Model

| member | source | states |
|---|---|---|
| `LittleEndian.ByteBuffer.PutU32` | core/src/protocol.cpp:10-15 | appends the four base-256 digits of the value, lowest first |
| `LittleEndian.ByteBuffer.PutU64` | core/src/protocol.cpp:22-24 | the loop appends the eight base-256 digits, lowest first |
| `LittleEndian.GetU32` | core/src/protocol.cpp:17-20 | shifting and or-ing four bytes gives their weighted sum, without wrap |
| `LittleEndian.GetU64` | core/src/protocol.cpp:26-30 | the or-accumulation loop gives the weighted sum of eight bytes, without wrap |
| `LittleEndian.DigitsCons` | core/src/protocol.cpp:22-24 | the bytes extracted by shift and mask are the base-256 digits |
| `LittleEndian.ValueOfDigits` | core/src/protocol.cpp:10-30 | reading what was written returns the value, for every value that fits |
| `LittleEndian.DigitsOfValue` | core/src/protocol.cpp:10-30 | writing what was read returns the bytes, for every byte string |
| `LittleEndian.OrNextByte` | core/src/protocol.cpp:26-30 | one or-step of the accumulation adds the next byte's weight and stays in range |
| `Protocol.PutBytes` | core/src/protocol.cpp:32-40 | appends the length truncated to 32 bits and then the data |
| `Protocol.ReadBytes` | core/src/protocol.cpp:43-56 | returns the length-prefixed block at the offset and advances past it; says which truncation test fails, where the offset is left then, and that it never leaves the buffer |
| `Protocol.FrameMessage` | core/src/protocol.cpp:60-68 | version, type, 32-bit length, payload |
| `Protocol.ParseHeader` | core/src/protocol.cpp:70-80 | computes the parse that `ParseHeaderExact` characterises, with the short-header error before the version error |
| `Protocol.EncodeHello` | core/src/protocol.cpp:82-87 | writes the two length-prefixed fields in order |
| `Protocol.DecodeHello` | core/src/protocol.cpp:89-95 | computes the parse that `DecodeHelloExact` characterises, on every buffer |
| `Protocol.EncodeFileOffer` | core/src/protocol.cpp:97-104 | writes name, 64-bit size, digest and 32-bit count in order |
| `Protocol.DecodeFileOffer` | core/src/protocol.cpp:106-118 | computes the parse that `DecodeFileOfferExact` characterises, with every truncation error in its order |
| `Protocol.EncodeChunk` | core/src/protocol.cpp:120-127 | writes index, nonce, ciphertext and tag in order |
| `Protocol.DecodeChunk` | core/src/protocol.cpp:129-139 | computes the parse that `DecodeChunkExact` characterises, with every truncation error in its order |
| `ProtocolTheorems.BlockAtExact` | core/src/protocol.cpp:43-51 | a block is read at an offset iff its prefixed form stands there, and the offset then moves by its length |
| `ProtocolTheorems.DecodeHelloExact` | core/src/protocol.cpp:89-95 | decoding b gives p iff p's lengths fit 32 bits and p's encoding is a prefix of b |
| `ProtocolTheorems.DecodeFileOfferExact` | core/src/protocol.cpp:106-118 | the same for file offers |
| `ProtocolTheorems.DecodeChunkExact` | core/src/protocol.cpp:129-139 | the same for chunks |
| `ProtocolTheorems.ParseHeaderExact` | core/src/protocol.cpp:70-80 | parsing gives h iff h has the protocol's version and its six bytes are a prefix |
| `ProtocolTheorems.HelloRoundTrip` | core/tests/test_protocol.cpp:6-16 | decode after encode, with anything appended, returns the record iff its lengths fit their prefixes |
| `ProtocolTheorems.FileOfferRoundTrip` | core/tests/test_protocol.cpp:18-32 | the same for file offers |
| `ProtocolTheorems.ChunkRoundTrip` | core/tests/test_protocol.cpp:34-48 | the same for chunks |
| `ProtocolTheorems.ProperPrefixRejected` | core/src/protocol.cpp:89-139 | every strict prefix of a well-sized record is refused, in all three formats |
| `ProtocolTheorems.FirstFrameExact` | core/src/protocol.cpp:60-80 | parsing a header and cutting the announced payload yields f iff f's frame is a prefix of the buffer |
| `ProtocolTheorems.SplitExact` | core/include/protocol.hpp:41-53 | a byte stream splits into a list of frames iff it is the concatenation of that list's frames |
| `ProtocolTheorems.FramesPrefixFree` | core/src/protocol.cpp:60-68 | no frame is a proper prefix of another, and framing is injective |
| `ProtocolTheorems.FrameLayout` | core/include/protocol.hpp:41-46 | byte 0 is 1, byte 1 the type, bytes 2 to 5 the low 32 bits of the length, little-endian, then the payload |
| `ProtocolTheorems.ParseHeaderOutcome` | core/src/protocol.cpp:70-80 | too short exactly below 6 bytes, version mismatch exactly when byte 0 is not 1, otherwise type and length as they stand at bytes 1 and 2 to 5 |
| `ProtocolTheorems.WordIsLittleEndian` | core/src/protocol.cpp:17-20 | a word's value is its bytes weighted 1, 2^8, 2^16 and 2^24 |
| `ProtocolTheorems.HelloLayout` | core/src/protocol.cpp:82-87 | at which offset each field and length of a hello stands, and the total size, for lengths of any size |
| `ProtocolTheorems.FileOfferLayout` | core/src/protocol.cpp:97-104 | the same for file offers |
| `ProtocolTheorems.ChunkLayout` | core/src/protocol.cpp:120-127 | the same for chunks |
| `ProtocolTheorems.DecodeHelloOutcome` | core/src/protocol.cpp:89-95 | which truncation error any buffer gets, and when none, in terms of its size and announced lengths |
| `ProtocolTheorems.DecodeFileOfferOutcome` | core/src/protocol.cpp:106-118 | the same for file offers |
| `ProtocolTheorems.DecodeChunkOutcome` | core/src/protocol.cpp:129-139 | the same for chunks |
| `Crypto.EncryptChunk` | core/src/crypto.cpp:95-127 | the result carries the drawn nonce and what the cipher seals under it; for every plaintext whose length fits the cipher's int, the tag has 16 bytes, the ciphertext is as long as the plaintext and decrypting returns the plaintext |
| `Crypto.DecryptChunk` | core/src/crypto.cpp:129-164 | which of nonce size, tag size and authentication fails, in this order; success exactly when the sizes are right and the cipher opens, with the plaintext it opens to |
| `Crypto.Sha256File` | core/src/crypto.cpp:175-197 | the 64 KiB read loop terminates and its digest is that of one update with the whole contents, also for empty files and exact multiples |
| `Crypto.Sha256OfPieces` | core/src/crypto.cpp:166-197 | however data is cut, updating with the pieces in order gives the one-shot hash of all of it |
| `Crypto.Sha256Distinguishes` | core/src/crypto.cpp:166-173 | absent a collision of the primitive, one-shot hashes agree exactly on equal data |
| `Files.InStream.Read` | core/src/chunking.cpp:30-33 | a full read keeps the stream good; a short read delivers the rest, leaves the rest of the buffer stale and ends the stream |
| `Files.OutStream.Write` | core/src/chunking.cpp:80-81 | a write past the end zero-fills the gap, an empty or failed one changes nothing, all other bytes stay |
| `Chunker.PrepareFileOffer` | core/src/chunking.cpp:9-21 | an error exactly when the file does not exist, otherwise its name, size, digest and count; the count is the number of chunks iff the file is at most (2^32 - 1) * 16384 bytes |
| `Chunker.FileNameExact` | core/src/chunking.cpp:14 | the offered name is the separator-free part at the start of a POSIX path or right after its last separator |
| `Chunker.OfferAgreement` | core/src/chunking.cpp:15-19 | the truncated ceiling division equals the chunk count, and the counted blocks cover the file, iff the size is within that bound, over all 64-bit sizes |
| `Chunker.OfferCount` | core/src/chunking.cpp:17-19 | the offered count for every 64-bit size: the chunk count modulo 2^32, and zero when the sum itself wraps |
| `Chunker.SendFileChunks` | core/src/chunking.cpp:23-47 | an error without any call when the file cannot be opened; otherwise the loop terminates and calls the sink once per block, in order, up to and including the first call that throws, whose error it passes on; how many calls that makes is stated; for files of any size, with the 32-bit index wrapping |
| `Chunker.SenderChunkAt` | core/src/chunking.cpp:30-45 | call i carries index i modulo 2^32 and the nonce drawn for it, and opens to block i; no block is empty and only the last may be short |
| `Chunker.SenderPartition` | core/src/chunking.cpp:28-46 | the emitted chunks, opened and joined, are the file |
| `Receiver.FileReceiver.constructor` | core/src/chunking.cpp:49-64 | the output is truncated and zero-filled to the expected size (left empty above 2^63 bytes, where the seek offset is negative), nothing marked, counter zero |
| `Receiver.FileReceiver.ReceiveChunk` | core/src/chunking.cpp:66-87 | accepted exactly when the index is in range, nonce and tag have their sizes and the cipher opens, and then the opened bytes are written at the offset, the index marked and counted once; which error otherwise, and nothing changes; in all cases one step of the specification |
| `Receiver.FileReceiver.IsComplete` | core/include/chunking.hpp:39 | comparing two counters says that every bit of the mask is set |
| `Receiver.FileReceiver.VerifyIntegrity` | core/src/chunking.cpp:89-92 | true iff the digest of an update with the whole output is the expected one |
| `Reassembly.VerdictExact` | core/src/chunking.cpp:67-75 | a chunk is accepted as p iff its index is in range, nonce and tag have 12 and 16 bytes and the cipher opens it to p |
| `Reassembly.CompleteIffAllMarked` | core/include/chunking.hpp:39-51 | pigeonhole: the counter never exceeds the total and reaches it iff all bits are set |
| `Reassembly.CountingInvariant` | core/src/chunking.cpp:66-87 | after any history of arbitrary chunks the set bits are the accepted indices and the counter counts them |
| `Reassembly.CompletionByCounting` | core/include/chunking.hpp:39 | over any history, complete iff every index was accepted at least once; the counter is the number of distinct accepted indices |
| `Reassembly.Progress` | core/src/chunking.cpp:83-86 | the counter rises by one exactly on the first accept of an index, and rejected chunks leave the state unchanged |
| `Reassembly.PlaceRefines` | core/src/chunking.cpp:79-86 | accepting a chunk of at most a block, even past the preallocated end, is one update of the abstract map of blocks |
| `Reassembly.RunRefines` | core/src/chunking.cpp:49-87 | every run over such chunks, in any order, with any duplicates, any offer and any preallocation, refines the map |
| `Reassembly.LastWriterWins` | core/src/chunking.cpp:76-81 | for arbitrary histories and plaintexts of any length, each byte is what the last accepted chunk covering it wrote, and zero when none does |
| `Reassembly.LengthIsFurthestWrite` | core/src/chunking.cpp:55-81 | for arbitrary histories the file's length is the larger of the preallocation and the furthest end of a non-empty write |
| `Reassembly.TailNeverWritten` | core/src/chunking.cpp:67-81 | with plaintexts of at most a block nothing is written past the last announced block |
| `Reassembly.RepresentsUnique` | core/include/chunking.hpp:45-51 | the map determines file, mask and counter completely |
| `Reassembly.ScheduleIndependence` | core/include/chunking.hpp:27-28 | two histories that deliver the same (index, plaintext) pairs, in any order and number, end in the same state |
| `Reassembly.CommuteExact` | core/src/chunking.cpp:79-86 | two accepted chunks with distinct indices commute iff the bytes where one runs into the other's block agree, for plaintexts of any length |
| `Reassembly.StepsCommuteExact` | core/src/chunking.cpp:66-87 | the same for any two accepted chunks as the receiver gets them |
| `Reassembly.BlocksCommute` | core/src/chunking.cpp:79-86 | plaintexts of at most a block always commute |
| `Reassembly.OversizedDoesNotCommute` | core/src/chunking.cpp:66-87 | two sealed chunks that the receiver accepts, one a byte longer than a block, do not commute |
| `Transfer.FileIsPartial` | core/src/chunking.cpp:55-87 | at every moment the file has the expected length, received blocks equal the source and missing ones are zero, for any announced count |
| `Transfer.WholeRun` | core/src/chunking.cpp:23-92 | for every file within the bound and every schedule of genuine and rejected chunks: invariant of the state, complete iff all indices accepted, and complete implies equal to the source |
| `Transfer.FullRun` | core/tests/test_chunking_e2e.cpp:77-101 | after any earlier schedule, one more full run of the sender, under any nonces, completes the receiver with the source's contents |
| `Transfer.OnlyIndicesMatter` | core/tests/test_chunking_e2e.cpp:103-129 | the state depends only on the set of indices delivered, not on order, repeats or nonces |
| `Transfer.CompleteFile` | core/src/chunking.cpp:66-87 | for any announced count, a complete receiver holds the source iff the source is zero past the announced chunks |
| `Transfer.MatchesExactly` | core/src/chunking.cpp:66-87 | at any moment the file equals the source iff every missing block is zero in the source |
| `Transfer.IntegrityExact` | core/src/chunking.cpp:89-92 | absent a collision of the primitive between the two files, the hash check passes iff every missing block is zero in the source |
| `Transfer.FileMatchesBlocks` | core/src/chunking.cpp:66-87 | for any history of chunks of at most a block, the file equals the source iff each block put together, filled up with zeros, equals the source's block |
| `Transfer.RelabelledVerdict` | core/src/crypto.cpp:129-164 | no associated data: a genuine chunk under any index in range is accepted with its own plaintext |
| `Transfer.RelabelledExact` | core/src/chunking.cpp:66-87 | a complete receiver fed genuine chunks under other indices holds the source iff each stand-in equals its block up to zeros |
| `Transfer.SenderCompletes` | core/src/chunking.cpp:28-46 | for files of every size the sender's first chunks, as many as are announced, complete the receiver |
| `SizeBound.SizeBoundExact` | core/src/chunking.cpp:15-19 | over all schedules, completion means equality for all files of n bytes iff n is at most (2^32 - 1) * 16384, for every 64-bit n |
| `SizeBound.OversizedLosesTail` | core/src/chunking.cpp:15-19 | for every larger n and any nonces, a file whose first chunks, as the sender emits them, complete the receiver with a different file |
| `SizeBound.TailIsLost` | core/src/chunking.cpp:15-19 | past the bound no schedule whatsoever delivers a nonzero last byte |
| `SizeBound.SenderRunExact` | core/src/chunking.cpp:23-47 | the sender's own run completes the receiver for every size, and reproduces all files of n bytes iff n is within the bound |
| `SizeBound.SenderRunFolds` | core/src/chunking.cpp:28-46 | the file after the sender's own run, index wrap included: each announced offset holds the last source byte whose wrapped index leads there, the rest is zero |
| `Wire.WireDecodedExact` | core/tests/test_chunking_e2e.cpp:54-60 | the callback takes a buffer for chunk c iff version and type match and c's encoding follows the header |
| `Wire.WireRoundTrip` | core/tests/test_chunking_e2e.cpp:54-67 | encoding, framing, parsing and decoding return the chunk iff its lengths fit |
| `Wire.TruncatedFrameRefused` | core/src/protocol.cpp:60-139 | every strict prefix of a chunk's frame is refused |
| `Wire.HandledExact` | core/tests/test_chunking_e2e.cpp:54-60 | the callback returns normally iff bytes 0 and 1 are 1 and 6 and the encoding of a chunk follows that is in range, well sized and authentic |
| `Wire.HandledErrors` | core/tests/test_chunking_e2e.cpp:54-60 | which throw of the header, of the type check or of the decoder leaves the callback |
| `Wire.HandledRejections` | core/tests/test_chunking_e2e.cpp:54-60 | which throw of the receiver leaves the callback once a chunk is decoded |
| `Wire.TruncatedFrameThrows` | core/tests/test_chunking_e2e.cpp:54-60 | every strict prefix of a chunk's frame makes the callback throw |
| `Wire.TrailingBytesIgnored` | core/tests/test_chunking_e2e.cpp:54-60 | bytes after a chunk's frame in the same buffer change nothing |
| `Wire.WireRunIsRun` | core/tests/test_chunking_e2e.cpp:54-60 | handling raw buffers is receiving the chunks they carry, and nothing else |
| `Wire.WireTransfer` | core/tests/test_chunking_e2e.cpp:54-71 | the whole-run theorem over raw buffers: any buffer that carries a genuine chunk, truncated frames of genuine chunks, and anything refused |
| `Wire.CoalescedDeliversFirst` | core/tests/test_chunking_e2e.cpp:54-60 | a buffer that is the stream of several chunk frames is one step with the first chunk, though it splits into all frames |
| `Wire.CoalescedTransferExact` | core/tests/test_chunking_e2e.cpp:54-71 | when the frames of a full sender run are grouped into buffers, the receiver completes iff no two share one |
| `Wire.FrameSize` | core/src/protocol.cpp:120-127 | each frame is 50 bytes plus the plaintext, at most 16434 |
| `Wire.WireConservation` | core/src/chunking.cpp:28-46 | all frames of a file total its size plus 50 bytes per chunk, and their concatenation splits back into them |
| `Wire.FrameDelivers` | core/tests/test_chunking_e2e.cpp:54-67 | one frame of the sender, handled by the callback, is accepted and is one step of the receiver |
| `EndToEnd.DataHandler.Call` | core/tests/test_chunking_e2e.cpp:54-60 | parse, check the type, decode, receive; the receiver makes one wire step, the first throw is the result, and errors change nothing |
| `EndToEnd.LoopbackTransport.ConnectPeers` | core/include/transport.hpp:81-84 | each end becomes the other's peer |
| `EndToEnd.LoopbackTransport.SetOnDataReceived` | core/include/transport.hpp:75-78 | replaces the stored callback |
| `EndToEnd.LoopbackTransport.Send` | core/include/transport.hpp:71-73 | the peer's callback handles the bytes at once, under the sender's own name whatever name was passed, and what it throws leaves Send; without a peer or callback the bytes are dropped |
| `EndToEnd.SendAll` | core/tests/test_chunking_e2e.cpp:63-67 | every chunk is encoded, framed and handled by the peer's callback under the sender's name, no call throws, and together this is the receiver's run over them |
| `EndToEnd.TransferFile` | core/tests/test_chunking_e2e.cpp:41-71 | for every file within the bound, the receiver completes, the output equals the source and the integrity check passes |

## Left out

- EncryptChunk: the calls on the OpenSSL context, and the resizing of the output vectors between them, are one abstract `seal`; nothing is promised of plaintexts over 2^31 - 1 bytes, whose length the source casts to `int`, and failures of the random generator are not modelled.
- DecryptChunk: the calls on the OpenSSL context are one abstract `open`, whose failure is the authentication error.
- SendFileChunks: the callback records its calls, and `SendAll` then does with each what the test's callback does; the interleaving of reading and sending is not kept, which the sender cannot observe.
- Send: the stored callback is the one the end-to-end test installs, since a callback of arbitrary code is not expressible here.
- DecodeHello: buffers are at most 2^64 - 2^32 bytes, the range in which the offset sums cannot wrap; no `std::vector` is longer than 2^63 - 1.
- DecodeFileOffer: the same bound on the buffer.
- DecodeChunk: the same bound on the buffer.
- RunRefines: accepted plaintexts are at most 16384 bytes, as every sender's are; for longer ones the file is described by `LastWriterWins` and `LengthIsFurthestWrite`, and `StepsCommuteExact` still holds.
- FileIsPartial: files are at most 2^63 bytes, the largest size whose preallocating seek has a representable offset; above it the constructor's branch is modelled (`Reassembly.Preallocated`), and counting and refinement are proved.
- SenderRunFolds: the same limit on sizes.
- WireTransfer: a frame whose damage leaves a decodable chunk is assumed to fail authentication or to carry a genuine chunk as emitted. This does not follow from the cipher when only the four index bytes are damaged (`Transfer.RelabelledVerdict`); `Transfer.RelabelledExact` says when such a transfer is still exact.
- PrepareFileOffer: paths are POSIX paths; other separators and root names are not modelled.
- File-system failures: a source that is missing or cannot be opened is modelled; opening the output, seeks to representable offsets and writes succeed.
- X25519, HKDF, AES-GCM and SHA-256 internals, which the repository calls in OpenSSL.
- The handshake, accept, reject and done messages: the source has only comments and an enumeration for them; `session.hpp` is not part of this model.
- The remaining `LoopbackTransport` methods, which do nothing, and the platform bridges, C API and Go daemon, which copy memory.
