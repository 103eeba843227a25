/** Whole transfers: any delivery schedule of a sender's chunks. */
module Transfer {
  import opened Base
  import opened Files
  import opened Crypto
  import opened Protocol
  import opened Chunker
  import opened Reassembly

  /** Largest size whose preallocating seek has a non-negative offset. */
  const MAX_SEEK: nat := 0x8000_0000_0000_0000

  /** Accepted chunks carry the block of their index. */
  ghost predicate Benign(ss: Session, src: Bytes, total: u32, events: seq<Chunk>) {
    forall c <- events :: Verdict(ss, total, c).Ok? ==> Verdict(ss, total, c).value == Slice(src, c.chunkIndex)
  }

  /** Some run of the sender on this file emitted the chunk. */
  ghost predicate Genuine(ss: Session, src: Bytes, c: Chunk) {
    exists i: nat, nonce: Nonce :: i < ChunkCount(|src|) && c == ChunkFor(ss, nonce, src, i)
  }

  /**
   What the channel may deliver: chunks of any sender runs on this file, in any order and number,
   mixed with chunks the receiver rejects.
   */
  ghost predicate Schedule(ss: Session, src: Bytes, total: u32, events: seq<Chunk>) {
    forall c <- events :: Genuine(ss, src, c) || Verdict(ss, total, c).Err?
  }

  /** The source with zeros for the blocks that are missing. */
  function Partial(src: Bytes, got: set<int>): Bytes {
    seq(|src|, j requires 0 <= j < |src| => if j / CHUNK_SIZE in got then src[j] else 0)
  }

  lemma SliceAt(src: Bytes, j: nat)
    requires j < |src|
    ensures var i := j / CHUNK_SIZE;
            j % CHUNK_SIZE < |Slice(src, i)| && Slice(src, i)[j % CHUNK_SIZE] == src[j]
  {
  }

  lemma BenignBlocks(ss: Session, src: Bytes, total: u32, events: seq<Chunk>)
    requires Benign(ss, src, total, events)
    ensures Small(ss, total, events) && Consistent(ss, total, events)
    ensures forall i <- Blocks(ss, total, events) :: i >= 0 && Blocks(ss, total, events)[i] == Slice(src, i)
  {
    BlocksAreDelivered(ss, total, events);
    var m := Blocks(ss, total, events);
    forall i <- m
      ensures i >= 0 && m[i] == Slice(src, i)
    {
      assert (i, m[i]) in Delivered(ss, total, events);
    }
  }

  lemma SlicesArePartial(s: State, src: Bytes, m: map<int, Bytes>)
    requires Represents(s, |src|, m)
    requires forall i <- m :: i >= 0 && m[i] == Slice(src, i)
    ensures s.file == Partial(src, m.Keys)
  {
    assert |s.file| == |src|;
    forall j | 0 <= j < |src|
      ensures s.file[j] == Partial(src, m.Keys)[j]
    {
      SliceAt(src, j);
      assert s.file[j] == ByteAt(m, j);
    }
  }

  /** The file during a transfer is the source with the missing blocks still zero, never longer or shorter. */
  lemma FileIsPartial(ss: Session, src: Bytes, total: u32, events: seq<Chunk>)
    requires |src| <= MAX_SEEK && Benign(ss, src, total, events)
    ensures Run(ss, Init(|src|, total), events).file == Partial(src, Accepted(ss, total, events))
  {
    BenignBlocks(ss, src, total, events);
    RunRefines(ss, |src|, total, events);
    CountingInvariant(ss, |src|, total, events);
    SlicesArePartial(Run(ss, Init(|src|, total), events), src, Blocks(ss, total, events));
  }

  lemma GenuineVerdict(ss: Session, nonce: Nonce, src: Bytes, total: u32, i: nat)
    requires LawfulAead(ss.aead)
    ensures Verdict(ss, total, ChunkFor(ss, nonce, src, i))
         == if ToU32(i) < total then Ok(Slice(src, i)) else Err(IndexOutOfRange)
  {
    ChunkOpens(ss, nonce, src, i);
  }

  lemma ScheduleIsBenign(ss: Session, src: Bytes, total: u32, events: seq<Chunk>)
    requires LawfulAead(ss.aead) && |src| <= MAX_FILE && Schedule(ss, src, total, events)
    ensures Benign(ss, src, total, events)
  {
    forall c <- events | Genuine(ss, src, c)
      ensures Verdict(ss, total, c).Ok? ==> Verdict(ss, total, c).value == Slice(src, c.chunkIndex)
    {
      var i: nat, nonce: Nonce :| i < ChunkCount(|src|) && c == ChunkFor(ss, nonce, src, i);
      GenuineVerdict(ss, nonce, src, total, i);
    }
  }

  /** A complete receiver holds the source exactly when nothing but zeros lies past the offered chunks. */
  lemma CompleteFile(ss: Session, src: Bytes, total: u32, events: seq<Chunk>)
    requires |src| <= MAX_SEEK && Benign(ss, src, total, events)
    requires Run(ss, Init(|src|, total), events).Complete()
    ensures Run(ss, Init(|src|, total), events).file == src
       <==> forall j | total * CHUNK_SIZE <= j < |src| :: src[j] == 0
  {
    MatchesExactly(ss, src, total, events);
    CompletionByCounting(ss, |src|, total, events);
    forall j | 0 <= j < |src|
      ensures j / CHUNK_SIZE in Indices(total) <==> j < total * CHUNK_SIZE
    {
    }
  }

  /** The file matches the source exactly when every block not yet received is all zeros in the source. */
  lemma MatchesExactly(ss: Session, src: Bytes, total: u32, events: seq<Chunk>)
    requires |src| <= MAX_SEEK && Benign(ss, src, total, events)
    ensures Run(ss, Init(|src|, total), events).file == src
       <==> forall j | 0 <= j < |src| && j / CHUNK_SIZE !in Accepted(ss, total, events) :: src[j] == 0
  {
    FileIsPartial(ss, src, total, events);
    var f := Run(ss, Init(|src|, total), events).file;
    forall j | 0 <= j < |src|
      ensures f[j] == if j / CHUNK_SIZE in Accepted(ss, total, events) then src[j] else 0
    {
    }
  }

  /** Without a collision between the two files, so does the integrity check, complete or not. */
  lemma IntegrityExact(h: Hash, ss: Session, src: Bytes, total: u32, events: seq<Chunk>)
    requires |src| <= MAX_SEEK && Benign(ss, src, total, events)
    requires NoCollision(h, Run(ss, Init(|src|, total), events).file, src)
    ensures Sha256Bytes(h, Run(ss, Init(|src|, total), events).file) == Sha256Bytes(h, src)
       <==> forall j | 0 <= j < |src| && j / CHUNK_SIZE !in Accepted(ss, total, events) :: src[j] == 0
  {
    Sha256Distinguishes(h, Run(ss, Init(|src|, total), events).file, src);
    MatchesExactly(ss, src, total, events);
  }

  /** Whole-run correctness for every file the offer can describe and every delivery schedule. */
  lemma WholeRun(ss: Session, src: Bytes, events: seq<Chunk>)
    requires LawfulAead(ss.aead) && |src| <= MAX_FILE
    requires Schedule(ss, src, TotalChunks(|src|), events)
    ensures var s, got := Run(ss, Init(|src|, TotalChunks(|src|)), events), Accepted(ss, TotalChunks(|src|), events);
            && WellFormed(s) && Marked(s.mask) == got
            && s.file == Partial(src, got)
            && (s.Complete() <==> got == Indices(ChunkCount(|src|)))
            && (s.Complete() ==> s.file == src)
  {
    var total := TotalChunks(|src|);
    OfferAgreement(|src|);
    ScheduleIsBenign(ss, src, total, events);
    FileIsPartial(ss, src, total, events);
    CountingInvariant(ss, |src|, total, events);
    CompletionByCounting(ss, |src|, total, events);
    if Run(ss, Init(|src|, total), events).Complete() {
      CompleteFile(ss, src, total, events);
    }
  }

  /** The state depends only on which indices have been delivered. */
  lemma OnlyIndicesMatter(ss: Session, src: Bytes, total: u32, xs: seq<Chunk>, ys: seq<Chunk>)
    requires |src| < U64_LIMIT && Benign(ss, src, total, xs) && Benign(ss, src, total, ys)
    requires Accepted(ss, total, xs) == Accepted(ss, total, ys)
    ensures Run(ss, Init(|src|, total), xs) == Run(ss, Init(|src|, total), ys)
  {
    BenignBlocks(ss, src, total, xs);
    DeliveredPairs(ss, src, total, xs);
    DeliveredPairs(ss, src, total, ys);
    ScheduleIndependence(ss, |src|, total, xs, ys);
  }

  lemma DeliveredPairs(ss: Session, src: Bytes, total: u32, events: seq<Chunk>)
    requires Benign(ss, src, total, events)
    ensures forall i, p :: (i, p) in Delivered(ss, total, events)
                      <==> i in Accepted(ss, total, events) && i >= 0 && p == Slice(src, i)
  {
  }

  /** Whatever was delivered before, one more full run of the sender, under new nonces, completes the receiver. */
  lemma FullRun(ss: Session, nonces: nat -> Nonce, src: Bytes, earlier: seq<Chunk>)
    requires LawfulAead(ss.aead) && |src| <= MAX_FILE && Schedule(ss, src, TotalChunks(|src|), earlier)
    ensures var s := Run(ss, Init(|src|, TotalChunks(|src|)), earlier + SenderChunks(ss, nonces, src));
            s.Complete() && s.file == src
  {
    OfferAgreement(|src|);
    var total, chunks := TotalChunks(|src|), SenderChunks(ss, nonces, src);
    SenderChunksGenuine(ss, nonces, src);
    assert Schedule(ss, src, total, earlier + chunks) by {
      forall c <- earlier + chunks
        ensures Genuine(ss, src, c) || Verdict(ss, total, c).Err?
      {
        assert c in earlier || c in chunks;
      }
    }
    FirstChunksAccepted(ss, nonces, src, total, chunks);
    WholeRun(ss, src, earlier + chunks);
    AcceptedSuperset(ss, total, chunks, earlier + chunks);
  }

  lemma SenderChunksGenuine(ss: Session, nonces: nat -> Nonce, src: Bytes)
    ensures forall c <- SenderChunks(ss, nonces, src) :: Genuine(ss, src, c)
  {
    var chunks := SenderChunks(ss, nonces, src);
    forall c <- chunks
      ensures Genuine(ss, src, c)
    {
      var i :| 0 <= i < |chunks| && chunks[i] == c;
      assert c == ChunkFor(ss, nonces(i), src, i);
    }
  }

  lemma AcceptedSuperset(ss: Session, total: u32, xs: seq<Chunk>, ys: seq<Chunk>)
    requires Accepted(ss, total, xs) == Indices(total)
    requires forall c <- xs :: c in ys
    ensures Accepted(ss, total, ys) == Indices(total)
  {
    assert Accepted(ss, total, xs) <= Accepted(ss, total, ys);
  }

  lemma FirstChunksAccepted(ss: Session, nonces: nat -> Nonce, src: Bytes, total: u32, events: seq<Chunk>)
    requires LawfulAead(ss.aead) && |events| == total
    requires forall i | 0 <= i < total :: events[i] == ChunkFor(ss, nonces(i), src, i)
    ensures Accepted(ss, total, events) == Indices(total)
    ensures Benign(ss, src, total, events)
  {
    forall i: nat | i < total
      ensures Verdict(ss, total, events[i]) == Ok(Slice(src, i)) && events[i].chunkIndex == i
    {
      GenuineVerdict(ss, nonces(i), src, total, i);
    }
    forall i | i in Indices(total)
      ensures i in Accepted(ss, total, events)
    {
      assert events[i] in events && Verdict(ss, total, events[i]).Ok?;
    }
  }

  /** The sender's first chunks, as many as the offer announces, complete the receiver for every file. */
  lemma SenderCompletes(ss: Session, nonces: nat -> Nonce, src: Bytes, events: seq<Chunk>)
    requires LawfulAead(ss.aead) && |src| < U64_LIMIT
    requires TotalChunks(|src|) <= |events| && events <= SenderChunks(ss, nonces, src)
    ensures Schedule(ss, src, TotalChunks(|src|), events)
    ensures Run(ss, Init(|src|, TotalChunks(|src|)), events).Complete()
  {
    var total, chunks := TotalChunks(|src|), SenderChunks(ss, nonces, src);
    SenderChunksGenuine(ss, nonces, src);
    assert forall c <- events :: c in chunks;
    assert forall i | 0 <= i < total :: events[..total][i] == chunks[i] == ChunkFor(ss, nonces(i), src, i);
    FirstChunksAccepted(ss, nonces, src, total, events[..total]);
    AcceptedSuperset(ss, total, events[..total], events);
    CompletionByCounting(ss, |src|, total, events);
  }

  lemma CountReachesTotal(n: u64)
    ensures TotalChunks(n) <= ChunkCount(n)
  {
  }

  // ---------- Blocks delivered under other indices ----------

  /** A block, filled up with zeros, is the given part of the source. */
  predicate Pads(b: Bytes, part: Bytes) {
    |b| <= |part| && forall o | 0 <= o < |part| :: part[o] == if o < |b| then b[o] else 0
  }

  /** For any history of chunks of at most a block, the file is the source exactly when each block is, up to zeros. */
  lemma FileMatchesBlocks(ss: Session, src: Bytes, total: u32, events: seq<Chunk>)
    requires |src| <= MAX_SEEK && Small(ss, total, events)
    ensures Run(ss, Init(|src|, total), events).file == src
       <==> forall k: nat :: Pads(BlockOf(Blocks(ss, total, events), k), Slice(src, k))
  {
    RunRefines(ss, |src|, total, events);
    var s, m := Run(ss, Init(|src|, total), events), Blocks(ss, total, events);
    assert forall i <- m :: i in Marked(s.mask);
    if s.file == src {
      forall k: nat
        ensures Pads(BlockOf(m, k), Slice(src, k))
      {
        MatchingBlock(src, m, k);
      }
    }
    if forall k: nat :: Pads(BlockOf(m, k), Slice(src, k)) {
      PaddedFile(s.file, src, m);
    }
  }

  lemma MatchingBlock(src: Bytes, m: map<int, Bytes>, k: nat)
    requires HasExtent(src, |src|, m) && HasBytes(src, m)
    ensures Pads(BlockOf(m, k), Slice(src, k))
  {
    var b, part := BlockOf(m, k), Slice(src, k);
    assert b != [] ==> EndOf(m, k) <= |src|;
    forall o | 0 <= o < |part|
      ensures part[o] == if o < |b| then b[o] else 0
    {
      OffsetInBlock(k, k * CHUNK_SIZE + o);
      assert src[k * CHUNK_SIZE + o] == ByteAt(m, k * CHUNK_SIZE + o);
    }
  }

  lemma PaddedFile(file: Bytes, src: Bytes, m: map<int, Bytes>)
    requires HasExtent(file, |src|, m) && HasBytes(file, m)
    requires forall i <- m :: i >= 0
    requires forall k: nat :: Pads(BlockOf(m, k), Slice(src, k))
    ensures file == src
  {
    forall i <- m
      ensures m[i] != [] ==> EndOf(m, i) <= |src|
    {
      assert Pads(BlockOf(m, i), Slice(src, i));
    }
    forall j | 0 <= j < |src|
      ensures file[j] == src[j]
    {
      assert file[j] == ByteAt(m, j);
      SliceAt(src, j);
      assert Pads(BlockOf(m, j / CHUNK_SIZE), Slice(src, j / CHUNK_SIZE));
    }
  }

  /** The index is not part of what is authenticated: a genuine chunk is accepted under any index in range. */
  lemma RelabelledVerdict(ss: Session, nonce: Nonce, src: Bytes, total: u32, i: nat, k: u32)
    requires LawfulAead(ss.aead)
    ensures Verdict(ss, total, ChunkFor(ss, nonce, src, i).(chunkIndex := k))
         == if k < total then Ok(Slice(src, i)) else Err(IndexOutOfRange)
  {
    ChunkOpens(ss, nonce, src, i);
  }

  /** Accepted chunks with index k carry block from(k) of the source. */
  ghost predicate Relabelled(ss: Session, src: Bytes, total: u32, events: seq<Chunk>, from: nat -> nat) {
    forall c <- events :: Verdict(ss, total, c).Ok? ==> Verdict(ss, total, c).value == Slice(src, from(c.chunkIndex))
  }

  /**
   Exactly when a complete receiver fed genuine chunks under other indices still holds the source: when each
   block that came in the place of another is equal to it, or shorter and equal up to zeros.
   */
  lemma RelabelledExact(ss: Session, src: Bytes, events: seq<Chunk>, from: nat -> nat)
    requires |src| <= MAX_FILE && Relabelled(ss, src, TotalChunks(|src|), events, from)
    requires Run(ss, Init(|src|, TotalChunks(|src|)), events).Complete()
    ensures Run(ss, Init(|src|, TotalChunks(|src|)), events).file == src
       <==> forall k: nat | k < ChunkCount(|src|) :: Pads(Slice(src, from(k)), Slice(src, k))
  {
    var total := TotalChunks(|src|);
    OfferAgreement(|src|);
    RelabelledBlocks(ss, src, total, events, from);
    FileMatchesBlocks(ss, src, total, events);
    CompletionByCounting(ss, |src|, total, events);
    PadsBelow(src, Blocks(ss, total, events), from, total);
  }

  lemma PadsBelow(src: Bytes, m: map<int, Bytes>, from: nat -> nat, total: nat)
    requires total == ChunkCount(|src|) && forall k :: k in m <==> 0 <= k < total
    requires forall k: nat | k < total :: m[k] == Slice(src, from(k))
    ensures (forall k: nat :: Pads(BlockOf(m, k), Slice(src, k)))
       <==> forall k: nat | k < total :: Pads(Slice(src, from(k)), Slice(src, k))
  {
    CountCovers(|src|);
    forall k: nat
      ensures Pads(BlockOf(m, k), Slice(src, k)) <==> k >= total || Pads(Slice(src, from(k)), Slice(src, k))
    {
      assert k in m <==> k < total;
      assert k >= total ==> Slice(src, k) == [];
    }
  }

  lemma RelabelledBlocks(ss: Session, src: Bytes, total: u32, events: seq<Chunk>, from: nat -> nat)
    requires Relabelled(ss, src, total, events, from)
    ensures Small(ss, total, events)
    ensures Blocks(ss, total, events).Keys == Accepted(ss, total, events)
    ensures forall k: nat | k in Accepted(ss, total, events) :: Blocks(ss, total, events)[k] == Slice(src, from(k))
  {
    BlocksAreDelivered(ss, total, events);
    var m := Blocks(ss, total, events);
    forall k
      ensures k in m <==> k in Accepted(ss, total, events)
      ensures k in m ==> k >= 0 && m[k] == Slice(src, from(k))
    {
      if k in m {
        assert (k, m[k]) in Delivered(ss, total, events);
      }
      if k in Accepted(ss, total, events) {
        assert (k, Slice(src, from(k))) in Delivered(ss, total, events);
      }
    }
  }
}
