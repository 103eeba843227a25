/** The sending side: the offer and the read-encrypt-emit loop. */
module Chunker {
  import opened Base
  import opened Files
  import opened Crypto
  import opened Protocol

  /** How many blocks of CHUNK_SIZE bytes cover n bytes. */
  function ChunkCount(n: nat): nat {
    (n + CHUNK_SIZE - 1) / CHUNK_SIZE
  }

  /** Block i of a file: full, except that the last one may be shorter; empty past the end. */
  function Slice(src: Bytes, i: nat): (r: Bytes)
    ensures |r| <= CHUNK_SIZE
  {
    src[Min(i * CHUNK_SIZE, |src|)..Min((i + 1) * CHUNK_SIZE, |src|)]
  }

  /** The 64-bit sum, the division and the 32-bit cast of the offer. */
  function TotalChunks(size: u64): u32 {
    if size == 0 then 0 else ToU32(ToU64(size + CHUNK_SIZE - 1) / CHUNK_SIZE)
  }

  const SLASH: u8 := 47

  /** What follows the last separator of a POSIX path. */
  function FileName(path: Bytes): Bytes {
    if path == [] || path[|path| - 1] == SLASH then []
    else FileName(path[..|path| - 1]) + [path[|path| - 1]]
  }

  /** The name is the separator-free part that starts the path or comes right after a separator. */
  lemma {:induction false} FileNameExact(path: Bytes, dir: Bytes, name: Bytes)
    requires path == dir + name
    ensures FileName(path) == name <==> 47 !in name && (dir == [] || dir[|dir| - 1] == 47)
    decreases |path|
  {
    if path == [] || path[|path| - 1] == SLASH {
      assert name != [] ==> name[|name| - 1] == path[|path| - 1];
      assert name == [] ==> path == dir;
    } else if name == [] {
      assert path == dir;
    } else {
      var front, last := name[..|name| - 1], name[|name| - 1];
      assert path[..|path| - 1] == dir + front && last == path[|path| - 1];
      assert name == front + [last];
      FileNameExact(path[..|path| - 1], dir, front);
    }
  }

  /** The file is what the path names, or null when there is none. */
  method PrepareFileOffer(h: Hash, path: Bytes, file: File?) returns (r: Result<FileOffer>)
    requires LawfulHash(h) && (file != null ==> |file.contents| < U64_LIMIT)
    ensures file == null <==> r == Err(FileNotFound)
    ensures file != null ==> r == Ok(FileOffer(FileName(path), |file.contents|,
                                               h.final(h.update(h.init, file.contents)),
                                               TotalChunks(|file.contents|)))
    ensures r.Ok? ==> (r.value.totalChunks == ChunkCount(|file.contents|) <==> |file.contents| <= MAX_FILE)
    ensures r.Ok? ==> (r.value.WellSized() <==> |FileName(path)| < U32_LIMIT)
  {
    if file == null { return Err(FileNotFound); }
    var offer := FileOffer(FileName(path), 0, [], 0);
    offer := offer.(fileSize := |file.contents|);
    var digest := Sha256File(h, file);
    offer := offer.(sha256 := digest);
    offer := offer.(totalChunks := ToU32(ToU64(offer.fileSize + CHUNK_SIZE - 1) / CHUNK_SIZE));
    if offer.fileSize == 0 {
      offer := offer.(totalChunks := 0);
    }
    OfferAgreement(|file.contents|);
    r := Ok(offer);
  }

  /** The offered count for every size: the low 32 bits, and zero when the 64-bit sum itself wraps. */
  lemma OfferCount(size: u64)
    ensures TotalChunks(size) == if size <= 0xFFFF_FFFF_FFFF_C000 then ChunkCount(size) % 0x1_0000_0000 else 0
  {
  }

  /** The offered count is the number of chunks exactly up to (2^32 - 1) * 16384 bytes. */
  lemma OfferAgreement(size: u64)
    ensures TotalChunks(size) == ChunkCount(size) <==> size <= MAX_FILE
    ensures size <= TotalChunks(size) * CHUNK_SIZE <==> size <= MAX_FILE
  {
    if size <= MAX_FILE {
      assert ChunkCount(size) < U32_LIMIT;
    } else {
      assert ChunkCount(size) >= U32_LIMIT;
    }
  }

  /**
   The callback given to SendFileChunks, with the calls it has received. It may throw: which call is the first
   to do so, and what it throws, is arbitrary.
   */
  class ChunkSink {
    const failure: Option<(nat, Error)>
    var calls: seq<Chunk>

    constructor (failure: Option<(nat, Error)>)
      ensures calls == [] && this.failure == failure
    {
      calls := [];
      this.failure := failure;
    }

    method Call(c: Chunk) returns (r: Result<()>)
      modifies this`calls
      ensures calls == old(calls) + [c]
      ensures forall e :: failure == Some((|old(calls)|, e)) ==> r == Err(e)
      ensures (failure == None || failure.value.0 != |old(calls)|) ==> r == Ok(())
    {
      r := if Fails(failure, |calls|) then Err(failure.value.1) else Ok(());
      calls := calls + [c];
    }
  }

  predicate Fails(failure: Option<(nat, Error)>, call: nat) {
    failure.Some? && failure.value.0 == call
  }

  /** The first call to throw is one of the n from the given one on. */
  predicate Throws(failure: Option<(nat, Error)>, start: nat, n: nat) {
    failure.Some? && start <= failure.value.0 < start + n
  }

  /** Block i sealed under some nonce; the index is a 32-bit counter. */
  function ChunkFor(ss: Session, nonce: Nonce, src: Bytes, i: nat): Chunk {
    var e := Sealed(ss, nonce, Slice(src, i));
    Chunk(ToU32(i), e.nonce, e.ciphertext, e.tag)
  }

  function SenderChunks(ss: Session, nonces: nat -> Nonce, src: Bytes): (r: seq<Chunk>)
    ensures |r| == ChunkCount(|src|)
  {
    seq(ChunkCount(|src|), i requires 0 <= i => ChunkFor(ss, nonces(i), src, i))
  }

  lemma CountCovers(n: nat)
    ensures n <= ChunkCount(n) * CHUNK_SIZE < n + CHUNK_SIZE
  {
  }

  /** After k full blocks, or at the end of the file after its last block. */
  predicate AfterBlocks(src: Bytes, k: nat, pos: nat, good: bool) {
    if good then pos == k * CHUNK_SIZE <= |src| else k == ChunkCount(|src|) && pos == |src|
  }

  /** A read after k blocks returns the next block, or nothing when there is none left. */
  lemma NextBlock(src: Bytes, k: nat, n: nat)
    requires AfterBlocks(src, k, k * CHUNK_SIZE, true) && n == Min(CHUNK_SIZE, |src| - k * CHUNK_SIZE)
    ensures src[k * CHUNK_SIZE..k * CHUNK_SIZE + n] == Slice(src, k)
    ensures if n == 0 then k == ChunkCount(|src|) else k < ChunkCount(|src|)
    ensures n > 0 ==> AfterBlocks(src, k + 1, k * CHUNK_SIZE + n, n == CHUNK_SIZE)
  {
    CountCovers(|src|);
  }

  /** The first k chunks are received and no call threw. */
  ghost predicate Emitted(failure: Option<(nat, Error)>, before: seq<Chunk>, chunks: seq<Chunk>, k: nat,
                          calls: seq<Chunk>)
  {
    && k <= |chunks| && calls == before + chunks[..k]
    && !Throws(failure, |before|, k)
  }

  lemma EmitNext(failure: Option<(nat, Error)>, before: seq<Chunk>, chunks: seq<Chunk>, k: nat, calls: seq<Chunk>)
    requires k < |chunks| && Emitted(failure, before, chunks, k, calls)
    ensures |calls| == |before| + k && calls + [chunks[k]] == before + chunks[..k + 1]
    ensures !Fails(failure, |calls|) ==> Emitted(failure, before, chunks, k + 1, calls + [chunks[k]])
  {
    assert chunks[..k] + [chunks[k]] == chunks[..k + 1];
    assert before + chunks[..k] + [chunks[k]] == before + chunks[..k + 1];
  }

  /** The 32-bit counter after one more chunk. */
  lemma IndexNext(k: nat)
    ensures ToU32(ToU32(k) + 1) == ToU32(k + 1)
  {
  }

  lemma SenderChunkIs(ss: Session, nonces: nat -> Nonce, src: Bytes, k: nat)
    requires k < ChunkCount(|src|)
    ensures var e := Sealed(ss, nonces(k), Slice(src, k));
            SenderChunks(ss, nonces, src)[k] == Chunk(ToU32(k), e.nonce, e.ciphertext, e.tag)
  {
  }

  /**
   One call of the sink per block of the file, in order, until one throws; the nonces are arbitrary. The file
   is null when it cannot be opened.
   */
  method SendFileChunks(file: File?, ss: Session, nonces: nat -> Nonce, sink: ChunkSink) returns (r: Result<()>)
    requires LawfulAead(ss.aead)
    modifies sink`calls
    ensures file == null ==> r == Err(CannotOpenFile) && sink.calls == old(sink.calls)
    ensures file != null ==>
              var f, start := sink.failure, |old(sink.calls)|;
              if f.Some? && start <= f.value.0 < start + ChunkCount(|file.contents|)
              then && r == Err(f.value.1)
                   && sink.calls
                        == old(sink.calls) + SenderChunks(ss, nonces, file.contents)[..f.value.0 - start + 1]
              else r == Ok(()) && sink.calls == old(sink.calls) + SenderChunks(ss, nonces, file.contents)
  {
    if file == null { return Err(CannotOpenFile); }
    var f := new InStream(file);
    var buf := new u8[CHUNK_SIZE](_ => 0);
    var index: u32 := 0;
    var k: nat := 0;  // nonces drawn so far
    ghost var src, before := file.contents, sink.calls;
    ghost var chunks := SenderChunks(ss, nonces, src);
    while f.good
      invariant AfterBlocks(src, k, f.pos, f.good)
      invariant index == ToU32(k)
      invariant Emitted(sink.failure, before, chunks, k, sink.calls)
      decreases |src| - f.pos, f.good
    {
      var n := f.Read(buf);
      NextBlock(src, k, n);
      if n <= 0 {
        break;
      }
      var plaintext := buf[..n];
      assert plaintext == Slice(src, k);
      var enc := EncryptChunk(ss, nonces(k), plaintext);
      var payload := Chunk(index, enc.nonce, enc.ciphertext, enc.tag);
      SenderChunkIs(ss, nonces, src, k);
      EmitNext(sink.failure, before, chunks, k, sink.calls);
      var called := sink.Call(payload);
      if called.Err? {
        return called;
      }
      IndexNext(k);
      index := ToU32(index + 1);
      k := k + 1;
    }
    assert chunks[..k] == chunks;
    r := Ok(());
  }

  /** No block is empty and all but the last are full. */
  lemma BlockSizes(src: Bytes, i: nat)
    requires i < ChunkCount(|src|)
    ensures Slice(src, i) != []
    ensures i + 1 < ChunkCount(|src|) ==> |Slice(src, i)| == CHUNK_SIZE
    ensures i + 1 == ChunkCount(|src|) ==> |Slice(src, i)| == |src| - i * CHUNK_SIZE
  {
  }

  /** What a receiver with the key gets out of chunks, in order. */
  function OpenedAll(ss: Session, chunks: seq<Chunk>): Bytes {
    if chunks == [] then []
    else
      var c := chunks[|chunks| - 1];
      var p := Opened(ss, EncryptedChunk(c.nonce, c.ciphertext, c.tag));
      OpenedAll(ss, chunks[..|chunks| - 1]) + if p.Ok? then p.value else []
  }

  lemma ChunkOpens(ss: Session, nonce: Nonce, src: Bytes, i: nat)
    requires LawfulAead(ss.aead)
    ensures var c := ChunkFor(ss, nonce, src, i);
            && Opened(ss, EncryptedChunk(c.nonce, c.ciphertext, c.tag)) == Ok(Slice(src, i))
            && |c.nonce| == 12 && |c.ciphertext| == |Slice(src, i)| && |c.tag| == 16
  {
    assert ss.aead.seal(ss.key, nonce, Slice(src, i)) == ss.aead.seal(ss.key, nonce, Slice(src, i));
  }

  lemma SlicesJoin(src: Bytes, i: nat)
    ensures src[..Min(i * CHUNK_SIZE, |src|)] + Slice(src, i) == src[..Min((i + 1) * CHUNK_SIZE, |src|)]
  {
  }

  /** The first n emitted chunks carry exactly the first n blocks of the file. */
  lemma {:induction false} SenderPrefix(ss: Session, nonces: nat -> Nonce, src: Bytes, n: nat)
    requires LawfulAead(ss.aead) && n <= ChunkCount(|src|)
    ensures OpenedAll(ss, SenderChunks(ss, nonces, src)[..n]) == src[..Min(n * CHUNK_SIZE, |src|)]
  {
    if n == 0 {
    } else {
      var chunks, k := SenderChunks(ss, nonces, src), n - 1;
      SenderPrefix(ss, nonces, src, k);
      assert chunks[..n] == chunks[..k] + [ChunkFor(ss, nonces(k), src, k)];
      assert chunks[..n][..k] == chunks[..k];
      assert OpenedAll(ss, chunks[..n]) == OpenedAll(ss, chunks[..k]) + Slice(src, k) by {
        ChunkOpens(ss, nonces(k), src, k);
      }
      SlicesJoin(src, k);
    }
  }

  /** The emitted chunks, opened and joined, are the file. */
  lemma SenderPartition(ss: Session, nonces: nat -> Nonce, src: Bytes)
    requires LawfulAead(ss.aead)
    ensures OpenedAll(ss, SenderChunks(ss, nonces, src)) == src
  {
    SenderPrefix(ss, nonces, src, ChunkCount(|src|));
    assert SenderChunks(ss, nonces, src)[..ChunkCount(|src|)] == SenderChunks(ss, nonces, src);
  }

  /** Emitted chunk i has index i and opens to block i, which is never empty and full unless it is the last. */
  lemma SenderChunkAt(ss: Session, nonces: nat -> Nonce, src: Bytes, i: nat)
    requires LawfulAead(ss.aead) && i < ChunkCount(|src|)
    ensures var c, start := SenderChunks(ss, nonces, src)[i], i * CHUNK_SIZE;
            && c.chunkIndex == i % 0x1_0000_0000
            && c.nonce == nonces(i) && |c.tag| == 16
            && 0 < |c.ciphertext| <= CHUNK_SIZE
            && start + |c.ciphertext| <= |src|
            && Opened(ss, EncryptedChunk(c.nonce, c.ciphertext, c.tag)) == Ok(src[start..start + |c.ciphertext|])
            && (|c.ciphertext| < CHUNK_SIZE ==> i + 1 == ChunkCount(|src|))
  {
    ChunkOpens(ss, nonces(i), src, i);
    BlockSizes(src, i);
    assert Slice(src, i) == src[i * CHUNK_SIZE..i * CHUNK_SIZE + |Slice(src, i)|];
  }
}
