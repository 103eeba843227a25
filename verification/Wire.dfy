/** Transfers as bytes on the wire: what the receiving callback makes of raw buffers. */
module Wire {
  import opened Base
  import opened Files
  import opened Crypto
  import opened Protocol
  import opened ProtocolTheorems
  import opened Chunker
  import opened Reassembly
  import opened Transfer

  /** The test harness's data callback: parse the header, cut it off, decode the rest as a chunk. */
  function WireDecoded(raw: Bytes): Result<Chunk> {
    var h :- ParsedHeader(raw);
    if h.msgType != CHUNK_MESSAGE then Err(UnexpectedType) else DecodedChunk(raw[HEADER_SIZE..])
  }

  function ChunkFrame(c: Chunk): Bytes {
    Framed(CHUNK_MESSAGE, EncodedChunk(c))
  }

  /** Which buffers the callback takes for a chunk: the announced length plays no part. */
  lemma WireDecodedExact(raw: Bytes, c: Chunk)
    ensures WireDecoded(raw) == Ok(c)
       <==> && c.WellSized() && |raw| >= 6 && raw[0] == 1 && raw[1] == 6
            && EncodedChunk(c) <= raw[6..]
  {
    if |raw| >= HEADER_SIZE {
      DecodeChunkExact(raw[HEADER_SIZE..], c);
    }
  }

  lemma WireRoundTrip(c: Chunk)
    ensures WireDecoded(ChunkFrame(c)) == Ok(c) <==> c.WellSized()
  {
    var raw := ChunkFrame(c);
    assert raw[HEADER_SIZE..] == EncodedChunk(c);
    WireDecodedExact(raw, c);
  }

  /** Bytes after the frame change nothing. */
  lemma TrailingBytesIgnored(c: Chunk, rest: Bytes)
    requires c.WellSized()
    ensures WireDecoded(ChunkFrame(c) + rest) == Ok(c)
  {
    var raw := ChunkFrame(c) + rest;
    assert raw[HEADER_SIZE..] == EncodedChunk(c) + rest;
    WireDecodedExact(raw, c);
  }

  lemma TruncatedFrameRefused(c: Chunk, cut: Bytes)
    requires c.WellSized() && cut < ChunkFrame(c)
    ensures WireDecoded(cut).Err?
  {
    var raw := ChunkFrame(c);
    WireRoundTrip(c);
    assert raw[HEADER_SIZE..] == EncodedChunk(c);
    if WireDecoded(cut).Ok? {
      WireDecodedExact(cut, WireDecoded(cut).value);
      assert cut[HEADER_SIZE..] <= raw[HEADER_SIZE..];
      WireDecodedExact(raw, WireDecoded(cut).value);
    }
  }

  /** What the callback comes to: the first step that throws, or nothing. */
  function Handled(ss: Session, total: u32, raw: Bytes): Result<()> {
    var c :- WireDecoded(raw);
    var p :- Verdict(ss, total, c);
    Ok(())
  }

  /** The chunk is in range, has the sizes of AES-GCM and authenticates. */
  predicate Authentic(ss: Session, total: u32, c: Chunk) {
    && c.chunkIndex < total && |c.nonce| == 12 && |c.tag| == 16
    && ss.aead.open(ss.key, c.nonce, c.ciphertext, c.tag).Some?
  }

  /** A buffer is handled without a throw exactly when an authentic chunk follows a version 1, type 6 header. */
  lemma HandledExact(ss: Session, total: u32, raw: Bytes)
    ensures Handled(ss, total, raw) == Ok(())
       <==> && |raw| >= 6 && raw[0] == 1 && raw[1] == 6
            && exists c: Chunk :: c.WellSized() && EncodedChunk(c) <= raw[6..] && Authentic(ss, total, c)
  {
    if WireDecoded(raw).Ok? {
      WireDecodedExact(raw, WireDecoded(raw).value);
    }
    if c: Chunk :| |raw| >= 6 && raw[0] == 1 && raw[1] == 6
                   && c.WellSized() && EncodedChunk(c) <= raw[6..] && Authentic(ss, total, c) {
      WireDecodedExact(raw, c);
    }
  }

  /** Which throw leaves the callback: of the header, of the type check, of the decoder. */
  lemma HandledErrors(ss: Session, total: u32, raw: Bytes)
    ensures Handled(ss, total, raw) == Err(HeaderTooShort) <==> |raw| < 6
    ensures Handled(ss, total, raw) == Err(VersionMismatch) <==> |raw| >= 6 && raw[0] != 1
    ensures Handled(ss, total, raw) == Err(UnexpectedType) <==> |raw| >= 6 && raw[0] == 1 && raw[1] != 6
    ensures |raw| >= 6 && raw[0] == 1 && raw[1] == 6 && DecodedChunk(raw[6..]).Err? ==>
              Handled(ss, total, raw) == Err(DecodedChunk(raw[6..]).error)
  {
    if |raw| >= 6 {
      ChunkErrorsOnly(raw[6..]);
    }
  }

  lemma ChunkErrorsOnly(b: Bytes)
    ensures DecodedChunk(b).Err? ==>
              DecodedChunk(b).error in {TruncatedChunkIndex, TruncatedLengthPrefix, TruncatedPayload}
  {
  }

  /** And, when a well-sized chunk was decoded, of the receiver. */
  lemma HandledRejections(ss: Session, total: u32, c: Chunk, rest: Bytes)
    requires c.WellSized()
    ensures var r := Handled(ss, total, ChunkFrame(c) + rest);
            && (r == Err(IndexOutOfRange) <==> c.chunkIndex >= total)
            && (r == Err(BadNonceSize) <==> c.chunkIndex < total && |c.nonce| != 12)
            && (r == Err(BadTagSize) <==> c.chunkIndex < total && |c.nonce| == 12 && |c.tag| != 16)
            && (r == Err(AuthenticationFailed)
                <==> && c.chunkIndex < total && |c.nonce| == 12 && |c.tag| == 16
                     && ss.aead.open(ss.key, c.nonce, c.ciphertext, c.tag) == None)
            && (r == Ok(()) <==> Authentic(ss, total, c))
  {
    TrailingBytesIgnored(c, rest);
  }

  /** Every strict prefix of a chunk's frame makes the callback throw. */
  lemma TruncatedFrameThrows(ss: Session, total: u32, c: Chunk, cut: Bytes)
    requires c.WellSized() && cut < ChunkFrame(c)
    ensures Handled(ss, total, cut).Err?
  {
    TruncatedFrameRefused(c, cut);
  }

  function WireStep(ss: Session, s: State, raw: Bytes): (r: State)
    requires s.Shaped()
    ensures r.Shaped() && r.total == s.total
  {
    match WireDecoded(raw)
    case Ok(c) => Step(ss, s, c)
    case Err(_) => s
  }

  function WireRun(ss: Session, s: State, raws: seq<Bytes>): (r: State)
    requires s.Shaped()
    ensures r.Shaped() && r.total == s.total
  {
    if raws == [] then s else WireStep(ss, WireRun(ss, s, raws[..|raws| - 1]), raws[|raws| - 1])
  }

  /** The chunks a sequence of raw buffers carries. */
  function Carried(raws: seq<Bytes>): seq<Chunk> {
    if raws == [] then []
    else
      var rest := Carried(raws[..|raws| - 1]);
      match WireDecoded(raws[|raws| - 1])
      case Ok(c) => rest + [c]
      case Err(_) => rest
  }

  lemma {:induction false} WireRunIsRun(ss: Session, s: State, raws: seq<Bytes>)
    requires s.Shaped()
    ensures WireRun(ss, s, raws) == Run(ss, s, Carried(raws))
  {
    if raws == [] {
    } else {
      var front, raw := raws[..|raws| - 1], raws[|raws| - 1];
      WireRunIsRun(ss, s, front);
      if WireDecoded(raw).Ok? {
        RunSnoc(ss, s, Carried(front), WireDecoded(raw).value);
      }
    }
  }

  lemma {:induction false} CarriedMember(raws: seq<Bytes>, c: Chunk)
    requires c in Carried(raws)
    ensures exists raw <- raws :: WireDecoded(raw) == Ok(c)
  {
    var front, last := raws[..|raws| - 1], raws[|raws| - 1];
    assert last in raws;
    if c in Carried(front) {
      CarriedMember(front, c);
      var raw :| raw in front && WireDecoded(raw) == Ok(c);
      assert raw in raws;
    }
  }

  /**
   A buffer is a truncated frame of a genuine chunk, carries a genuine chunk, whatever follows it and whatever
   length it announces, or carries nothing acceptable.
   */
  ghost predicate Harmless(ss: Session, src: Bytes, total: u32, raw: Bytes) {
    || (exists c :: Genuine(ss, src, c) && raw <= ChunkFrame(c))
    || WireDecoded(raw).Err?
    || Genuine(ss, src, WireDecoded(raw).value)
    || Verdict(ss, total, WireDecoded(raw).value).Err?
  }

  lemma PrefixCarries(ss: Session, src: Bytes, c: Chunk, raw: Bytes)
    requires LawfulAead(ss.aead) && Genuine(ss, src, c) && raw <= ChunkFrame(c)
    ensures WireDecoded(raw).Ok? ==> WireDecoded(raw).value == c
  {
    GenuineSized(ss, src, c);
    WireRoundTrip(c);
    if raw != ChunkFrame(c) {
      TruncatedFrameRefused(c, raw);
    }
  }

  lemma GenuineSized(ss: Session, src: Bytes, c: Chunk)
    requires LawfulAead(ss.aead) && Genuine(ss, src, c)
    ensures c.WellSized()
  {
    var i: nat, nonce: Nonce :| i < ChunkCount(|src|) && c == ChunkFor(ss, nonce, src, i);
    ChunkOpens(ss, nonce, src, i);
  }

  /** Whole-run correctness over a channel that reorders, repeats, truncates, pads and drops frames. */
  lemma WireTransfer(ss: Session, src: Bytes, raws: seq<Bytes>)
    requires LawfulAead(ss.aead) && |src| <= MAX_FILE
    requires forall raw <- raws :: Harmless(ss, src, TotalChunks(|src|), raw)
    ensures var s := WireRun(ss, Init(|src|, TotalChunks(|src|)), raws);
            var got := Accepted(ss, TotalChunks(|src|), Carried(raws));
            && s.file == Partial(src, got)
            && (s.Complete() <==> got == Indices(ChunkCount(|src|)))
            && (s.Complete() ==> s.file == src)
  {
    var total := TotalChunks(|src|);
    forall c <- Carried(raws)
      ensures Genuine(ss, src, c) || Verdict(ss, total, c).Err?
    {
      CarriedMember(raws, c);
      var raw :| raw in raws && WireDecoded(raw) == Ok(c);
      if g :| Genuine(ss, src, g) && raw <= ChunkFrame(g) {
        PrefixCarries(ss, src, g, raw);
      }
    }
    WireRunIsRun(ss, Init(|src|, total), raws);
    WholeRun(ss, src, Carried(raws));
  }

  // ---------- Several frames in one buffer ----------

  function Frames(chunks: seq<Chunk>): seq<Frame> {
    seq(|chunks|, i requires 0 <= i < |chunks| => Frame(CHUNK_MESSAGE, EncodedChunk(chunks[i])))
  }

  lemma CoalescedDecodes(chunks: seq<Chunk>)
    requires chunks != [] && chunks[0].WellSized()
    ensures WireDecoded(Stream(Frames(chunks))) == Ok(chunks[0])
  {
    var frames := Frames(chunks);
    assert frames[0] == Frame(CHUNK_MESSAGE, EncodedChunk(chunks[0]));
    TrailingBytesIgnored(chunks[0], Stream(frames[1..]));
  }

  /**
   A buffer that is the stream of several chunk frames delivers the first and silently loses the rest, although
   the stream splits into all of them.
   */
  lemma CoalescedDeliversFirst(ss: Session, s: State, chunks: seq<Chunk>)
    requires s.Shaped() && chunks != [] && chunks[0].WellSized()
    ensures WireStep(ss, s, Stream(Frames(chunks))) == Step(ss, s, chunks[0])
    ensures Sized(Frames(chunks)) ==> Split(Stream(Frames(chunks))) == Ok(Frames(chunks))
  {
    CoalescedDecodes(chunks);
    SplitExact(Stream(Frames(chunks)), Frames(chunks));
  }

  /** The chunks whose frames end up in one buffer. */
  datatype Group = Group(first: Chunk, rest: seq<Chunk>) {
    function Buffer(): Bytes {
      Stream(Frames([first] + rest))
    }
  }

  function Buffers(groups: seq<Group>): seq<Bytes> {
    if groups == [] then [] else Buffers(groups[..|groups| - 1]) + [groups[|groups| - 1].Buffer()]
  }

  function Flatten(groups: seq<Group>): seq<Chunk> {
    if groups == [] then []
    else Flatten(groups[..|groups| - 1]) + ([groups[|groups| - 1].first] + groups[|groups| - 1].rest)
  }

  function Firsts(groups: seq<Group>): (r: seq<Chunk>)
    ensures |r| == |groups|
  {
    if groups == [] then [] else Firsts(groups[..|groups| - 1]) + [groups[|groups| - 1].first]
  }

  /** Every group has one chunk only. */
  ghost predicate Separate(groups: seq<Group>) {
    forall i | 0 <= i < |groups| :: groups[i].rest == []
  }

  lemma {:induction false} CoalescedCarries(groups: seq<Group>)
    requires forall c <- Flatten(groups) :: c.WellSized()
    ensures Carried(Buffers(groups)) == Firsts(groups)
  {
    if groups == [] {
    } else {
      var front, g := groups[..|groups| - 1], groups[|groups| - 1];
      assert forall c <- Flatten(front) :: c in Flatten(groups);
      CoalescedCarries(front);
      assert g.first in Flatten(groups);
      CoalescedDecodes([g.first] + g.rest);
      CarriedSnoc(Buffers(front), g.Buffer());
    }
  }

  lemma CarriedSnoc(raws: seq<Bytes>, raw: Bytes)
    ensures Carried(raws + [raw]) == Carried(raws) + if WireDecoded(raw).Ok? then [WireDecoded(raw).value] else []
  {
    assert (raws + [raw])[..|raws|] == raws;
  }

  lemma {:induction false} GroupCount(groups: seq<Group>)
    ensures |groups| <= |Flatten(groups)|
    ensures |groups| == |Flatten(groups)| <==> Separate(groups)
    ensures Separate(groups) ==> Firsts(groups) == Flatten(groups)
  {
    if groups == [] {
    } else {
      var front, last := groups[..|groups| - 1], groups[|groups| - 1];
      assert Separate(groups) <==> Separate(front) && last.rest == [] by {
        assert groups == front + [last];
      }
      GroupCount(front);
    }
  }

  lemma {:induction false} AcceptedAtMost(ss: Session, total: u32, events: seq<Chunk>)
    ensures |Accepted(ss, total, events)| <= |events|
  {
    if events == [] {
    } else {
      var front, c := events[..|events| - 1], events[|events| - 1];
      AcceptedAtMost(ss, total, front);
      assert events == front + [c];
      AcceptedSnoc(ss, total, front, c);
    }
  }

  /** A full run of the sender completes the receiver exactly when no two of its frames share a buffer. */
  lemma CoalescedTransferExact(ss: Session, nonces: nat -> Nonce, src: Bytes, groups: seq<Group>)
    requires LawfulAead(ss.aead) && |src| <= MAX_FILE
    requires Flatten(groups) == SenderChunks(ss, nonces, src)
    ensures WireRun(ss, Init(|src|, TotalChunks(|src|)), Buffers(groups)).Complete() <==> Separate(groups)
  {
    var total, chunks := TotalChunks(|src|), SenderChunks(ss, nonces, src);
    OfferAgreement(|src|);
    GroupCount(groups);
    SenderChunksGenuine(ss, nonces, src);
    forall c <- chunks
      ensures c.WellSized()
    {
      GenuineSized(ss, src, c);
    }
    CoalescedCarries(groups);
    WireRunIsRun(ss, Init(|src|, total), Buffers(groups));
    AcceptedAtMost(ss, total, Firsts(groups));
    CompletionByCounting(ss, |src|, total, Firsts(groups));
    SenderCompletes(ss, nonces, src, chunks);
  }

  // ---------- Bytes on the wire ----------

  lemma FrameSize(ss: Session, nonce: Nonce, src: Bytes, i: nat)
    requires LawfulAead(ss.aead)
    ensures |ChunkFrame(ChunkFor(ss, nonce, src, i))| == 50 + |Slice(src, i)| <= 16434
  {
    ChunkOpens(ss, nonce, src, i);
    ChunkFrameSize(ChunkFor(ss, nonce, src, i));
  }

  /** The frame of the sender's chunk k takes the receiver from having chunks 0..k-1 to having chunks 0..k. */
  lemma FrameDelivers(ss: Session, nonces: nat -> Nonce, src: Bytes, s: State, k: nat)
    requires LawfulAead(ss.aead) && |src| <= MAX_FILE && k < ChunkCount(|src|)
    requires s.Shaped() && s.total == TotalChunks(|src|)
    ensures var chunks := SenderChunks(ss, nonces, src);
            && |ChunkFrame(chunks[k])| <= 16434
            && WireDecoded(ChunkFrame(chunks[k])) == Ok(chunks[k])
            && Handled(ss, s.total, ChunkFrame(chunks[k])) == Ok(())
            && WireStep(ss, Run(ss, s, chunks[..k]), ChunkFrame(chunks[k])) == Run(ss, s, chunks[..k + 1])
  {
    var chunks, c := SenderChunks(ss, nonces, src), ChunkFor(ss, nonces(k), src, k);
    assert chunks[k] == c && chunks[..k + 1] == chunks[..k] + [c];
    FrameSize(ss, nonces(k), src, k);
    assert WireDecoded(ChunkFrame(c)) == Ok(c) by {
      ChunkOpens(ss, nonces(k), src, k);
      WireRoundTrip(c);
    }
    assert Verdict(ss, s.total, c).Ok? by {
      OfferAgreement(|src|);
      GenuineVerdict(ss, nonces(k), src, s.total, k);
    }
    RunSnoc(ss, s, chunks[..k], c);
  }

  /** Frames for the blocks from i on. */
  function FramesFrom(ss: Session, nonces: nat -> Nonce, src: Bytes, i: nat): seq<Frame>
    requires i <= ChunkCount(|src|)
  {
    seq(ChunkCount(|src|) - i, k requires 0 <= k =>
        Frame(CHUNK_MESSAGE, EncodedChunk(ChunkFor(ss, nonces(i + k), src, i + k))))
  }

  lemma {:induction false} StreamSize(ss: Session, nonces: nat -> Nonce, src: Bytes, i: nat)
    requires LawfulAead(ss.aead) && i <= ChunkCount(|src|)
    ensures |Stream(FramesFrom(ss, nonces, src, i))|
         == 50 * (ChunkCount(|src|) - i) + |src| - Min(i * CHUNK_SIZE, |src|)
    decreases ChunkCount(|src|) - i
  {
    CountCovers(|src|);
    if i < ChunkCount(|src|) {
      StreamSize(ss, nonces, src, i + 1);
      StreamStep(ss, nonces, src, i);
    } else {
      assert Stream([]) == [];
    }
  }

  lemma StreamStep(ss: Session, nonces: nat -> Nonce, src: Bytes, i: nat)
    requires LawfulAead(ss.aead) && i < ChunkCount(|src|)
    ensures |Stream(FramesFrom(ss, nonces, src, i))|
         == 50 + |Slice(src, i)| + |Stream(FramesFrom(ss, nonces, src, i + 1))|
  {
    var frames := FramesFrom(ss, nonces, src, i);
    assert frames[0] == Frame(CHUNK_MESSAGE, EncodedChunk(ChunkFor(ss, nonces(i), src, i)));
    assert frames[1..] == FramesFrom(ss, nonces, src, i + 1);
    FrameSize(ss, nonces(i), src, i);
  }

  /** A whole transfer puts the file and 50 bytes per chunk on the wire, and the stream splits back into its frames. */
  lemma WireConservation(ss: Session, nonces: nat -> Nonce, src: Bytes)
    requires LawfulAead(ss.aead)
    ensures var frames := FramesFrom(ss, nonces, src, 0);
            && |Stream(frames)| == |src| + 50 * ChunkCount(|src|)
            && Split(Stream(frames)) == Ok(frames)
  {
    var frames := FramesFrom(ss, nonces, src, 0);
    StreamSize(ss, nonces, src, 0);
    forall f <- frames
      ensures |f.payload| < U32_LIMIT
    {
      var k :| 0 <= k < |frames| && frames[k] == f;
      FrameSize(ss, nonces(k), src, k);
    }
    SplitExact(Stream(frames), frames);
  }
}
