/** Files of every size: where transfers stop being exact, and what the sender's own run does beyond. */
module SizeBound {
  import opened Base
  import opened Files
  import opened Crypto
  import opened Protocol
  import opened Chunker
  import opened Reassembly
  import opened Transfer

  // ---------- The bound on the file size is exact ----------

  /** Every completed transfer of a file of n bytes reproduces it. */
  ghost predicate TransfersExactly(ss: Session, n: u64) {
    forall src: Bytes, events | |src| == n && Schedule(ss, src, TotalChunks(n), events) ::
      Run(ss, Init(n, TotalChunks(n)), events).Complete() ==> Run(ss, Init(n, TotalChunks(n)), events).file == src
  }

  lemma ScheduleIsSmall(ss: Session, src: Bytes, total: u32, events: seq<Chunk>)
    requires LawfulAead(ss.aead) && Schedule(ss, src, total, events)
    ensures Small(ss, total, events)
  {
    forall c <- events | Genuine(ss, src, c)
      ensures Verdict(ss, total, c).Ok? ==> |Verdict(ss, total, c).value| <= CHUNK_SIZE
    {
      var i: nat, nonce: Nonce :| i < ChunkCount(|src|) && c == ChunkFor(ss, nonce, src, i);
      GenuineVerdict(ss, nonce, src, total, i);
    }
  }

  /** Past the bound no schedule at all, complete or not, delivers a last byte that is not zero. */
  lemma TailIsLost(ss: Session, src: Bytes, events: seq<Chunk>)
    requires LawfulAead(ss.aead) && MAX_FILE < |src| < U64_LIMIT && src[|src| - 1] != 0
    requires Schedule(ss, src, TotalChunks(|src|), events)
    ensures Run(ss, Init(|src|, TotalChunks(|src|)), events).file != src
  {
    OfferAgreement(|src|);
    ScheduleIsSmall(ss, src, TotalChunks(|src|), events);
    TailNeverWritten(ss, |src|, TotalChunks(|src|), events);
  }

  /** Past the bound, the first chunks of any sender run complete the receiver of a file of ones without its tail. */
  lemma OversizedLosesTail(ss: Session, nonces: nat -> Nonce, n: u64) returns (src: Bytes, events: seq<Chunk>)
    requires LawfulAead(ss.aead) && MAX_FILE < n
    ensures |src| == n && events <= SenderChunks(ss, nonces, src)
    ensures Schedule(ss, src, TotalChunks(n), events)
    ensures Run(ss, Init(n, TotalChunks(n)), events).Complete()
    ensures Run(ss, Init(n, TotalChunks(n)), events).file != src
  {
    CountReachesTotal(n);
    src := seq(n, _ => 1);
    events := SenderChunks(ss, nonces, src)[..TotalChunks(n)];
    SenderCompletes(ss, nonces, src, events);
    TailIsLost(ss, src, events);
  }

  /** The 32-bit chunk count makes completion mean equality exactly up to (2^32 - 1) * 16384 bytes. */
  lemma SizeBoundExact(ss: Session, n: u64)
    requires LawfulAead(ss.aead)
    ensures TransfersExactly(ss, n) <==> n <= MAX_FILE
  {
    if n <= MAX_FILE {
      forall src: Bytes, events | |src| == n && Schedule(ss, src, TotalChunks(n), events)
        ensures var s := Run(ss, Init(n, TotalChunks(n)), events);
                s.Complete() ==> s.file == src
      {
        WholeRun(ss, src, events);
      }
    } else {
      var src, events := OversizedLosesTail(ss, _ => Zeros(12), n);
    }
  }

  /** One undisturbed run of the sender reproduces every file of n bytes. */
  ghost predicate SenderReproduces(ss: Session, nonces: nat -> Nonce, n: u64) {
    forall src: Bytes | |src| == n ::
      Run(ss, Init(n, TotalChunks(n)), SenderChunks(ss, nonces, src)).file == src
  }

  /** The sender's own run always completes the receiver, and reproduces the file exactly up to the same bound. */
  lemma SenderRunExact(ss: Session, nonces: nat -> Nonce, n: u64)
    requires LawfulAead(ss.aead)
    ensures forall src: Bytes | |src| == n ::
              Run(ss, Init(n, TotalChunks(n)), SenderChunks(ss, nonces, src)).Complete()
    ensures SenderReproduces(ss, nonces, n) <==> n <= MAX_FILE
  {
    CountReachesTotal(n);
    forall src: Bytes | |src| == n
      ensures Run(ss, Init(n, TotalChunks(n)), SenderChunks(ss, nonces, src)).Complete()
      ensures n <= MAX_FILE ==> Run(ss, Init(n, TotalChunks(n)), SenderChunks(ss, nonces, src)).file == src
    {
      SenderCompletes(ss, nonces, src, SenderChunks(ss, nonces, src));
      if n <= MAX_FILE {
        WholeRun(ss, src, SenderChunks(ss, nonces, src));
      }
    }
    if n > MAX_FILE {
      var src: Bytes := seq(n, _ => 1);
      SenderCompletes(ss, nonces, src, SenderChunks(ss, nonces, src));
      TailIsLost(ss, src, SenderChunks(ss, nonces, src));
    }
  }

  // ---------- What the sender's own run writes when its index wraps ----------

  /** The number of bytes after which the 32-bit chunk index repeats. */
  const PERIOD: nat := 0x4000_0000_0000

  /** The last offset below e at which the sender, its index wrapping, has a byte for offset j of the receiver. */
  function LastCopy(j: nat, e: nat): nat
    requires j < e
  {
    e - 1 - (e - 1 - j) % PERIOD
  }

  /** The first e bytes of the source folded onto the announced blocks, later ones over earlier ones. */
  function Folded(src: Bytes, total: u32, e: nat): Bytes
    requires e <= |src|
  {
    seq(|src|, j requires 0 <= j => if j < total * CHUNK_SIZE && j < e then src[LastCopy(j, e)] else 0)
  }

  lemma LastCopyIs(j: nat, e: nat, p: nat, m: nat)
    requires p == j + PERIOD * m && p < e <= p + PERIOD
    ensures LastCopy(j, e) == p
  {
    assert e - 1 - j == PERIOD * m + (e - 1 - p);
  }

  lemma LastCopyOf(j: nat, e: nat) returns (m: nat)
    requires j < e
    ensures LastCopy(j, e) == j + PERIOD * m < e <= LastCopy(j, e) + PERIOD
  {
    m := (e - 1 - j) / PERIOD;
  }

  /** The next copy of an offset outside the next block lies past that block. */
  lemma CopyBound(j: nat, start: nat, q: nat, e: nat, e': nat, p: nat, m: nat)
    requires e == PERIOD * q + start && start + CHUNK_SIZE <= PERIOD && e < e' <= e + CHUNK_SIZE
    requires p == j + PERIOD * m && p < e <= p + PERIOD && j < PERIOD
    requires !(start <= j < start + (e' - e))
    ensures e' <= p + PERIOD
  {
  }

  /** An offset outside the block of chunk k keeps the copy it had. */
  lemma OtherOffsets(src: Bytes, total: u32, k: nat, j: nat)
    requires k < ChunkCount(|src|) && j < total * CHUNK_SIZE
    requires ToU32(k) < total ==> !(ToU32(k) * CHUNK_SIZE <= j < ToU32(k) * CHUNK_SIZE + |Slice(src, k)|)
    ensures var e, e' := k * CHUNK_SIZE, Min((k + 1) * CHUNK_SIZE, |src|);
            (j < e <==> j < e') && (j < e ==> LastCopy(j, e') == LastCopy(j, e))
  {
    var q, start := k / U32_LIMIT, ToU32(k) * CHUNK_SIZE;
    var e, e' := k * CHUNK_SIZE, Min((k + 1) * CHUNK_SIZE, |src|);
    assert e == PERIOD * q + start;
    if j < e {
      var m := LastCopyOf(j, e);
      CopyBound(j, start, q, e, e', LastCopy(j, e), m);
      LastCopyIs(j, e', LastCopy(j, e), m);
    }
  }

  lemma FoldNext(src: Bytes, total: u32, k: nat)
    requires k < ChunkCount(|src|)
    ensures k * CHUNK_SIZE <= |src|
    ensures var before := Folded(src, total, k * CHUNK_SIZE);
            var after := Folded(src, total, Min((k + 1) * CHUNK_SIZE, |src|));
            after == if ToU32(k) < total then WriteAt(before, ToU32(k) * CHUNK_SIZE, Slice(src, k)) else before
  {
    var e, e' := k * CHUNK_SIZE, Min((k + 1) * CHUNK_SIZE, |src|);
    var q, i := k / U32_LIMIT, ToU32(k);
    assert e == PERIOD * q + i * CHUNK_SIZE;
    var before, after := Folded(src, total, e), Folded(src, total, e');
    var expected := if i < total then WriteAt(before, i * CHUNK_SIZE, Slice(src, k)) else before;
    forall j | 0 <= j < |src|
      ensures after[j] == expected[j]
    {
      if i < total && i * CHUNK_SIZE <= j < i * CHUNK_SIZE + |Slice(src, k)| {
        LastCopyIs(j, e', e + (j - i * CHUNK_SIZE), q);
      } else if j < total * CHUNK_SIZE {
        OtherOffsets(src, total, k, j);
      }
    }
  }

  lemma {:induction false} SenderPrefixFolds(ss: Session, nonces: nat -> Nonce, src: Bytes, total: u32, k: nat)
    requires LawfulAead(ss.aead) && |src| <= MAX_SEEK && k <= ChunkCount(|src|)
    ensures Run(ss, Init(|src|, total), SenderChunks(ss, nonces, src)[..k]).file
         == Folded(src, total, Min(k * CHUNK_SIZE, |src|))
  {
    if k == 0 {
      assert Folded(src, total, 0) == Zeros(|src|);
    } else {
      var chunks, i := SenderChunks(ss, nonces, src), k - 1;
      var c, before := ChunkFor(ss, nonces(i), src, i), Run(ss, Init(|src|, total), chunks[..i]);
      SenderPrefixFolds(ss, nonces, src, total, i);
      assert chunks[..k] == chunks[..i] + [c];
      RunSnoc(ss, Init(|src|, total), chunks[..i], c);
      assert Step(ss, before, c).file
          == if ToU32(i) < total then WriteAt(before.file, ToU32(i) * CHUNK_SIZE, Slice(src, i)) else before.file by {
        GenuineVerdict(ss, nonces(i), src, total, i);
      }
      FoldNext(src, total, i);
    }
  }

  /**
   The sender's own run on a file of any size: each announced offset ends up with the last of the source bytes
   whose wrapped index leads there, and the offsets past the announced blocks stay zero.
   */
  lemma SenderRunFolds(ss: Session, nonces: nat -> Nonce, src: Bytes, total: u32)
    requires LawfulAead(ss.aead) && |src| <= MAX_SEEK
    ensures Run(ss, Init(|src|, total), SenderChunks(ss, nonces, src)).file == Folded(src, total, |src|)
  {
    var chunks := SenderChunks(ss, nonces, src);
    CountCovers(|src|);
    SenderPrefixFolds(ss, nonces, src, total, |chunks|);
    assert chunks[..|chunks|] == chunks;
  }
}
