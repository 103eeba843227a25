/** The messages, what their encoders write and what their decoders accept. */
module Protocol {
  import opened Base
  import opened LittleEndian

  datatype Hello = Hello(deviceName: Bytes, publicKey: Bytes) {
    predicate WellSized() {
      |deviceName| < U32_LIMIT && |publicKey| < U32_LIMIT
    }
  }

  datatype FileOffer = FileOffer(fileName: Bytes, fileSize: u64, sha256: Bytes, totalChunks: u32) {
    predicate WellSized() {
      |fileName| < U32_LIMIT && |sha256| < U32_LIMIT
    }
  }

  datatype Chunk = Chunk(chunkIndex: u32, nonce: Bytes, ciphertext: Bytes, tag: Bytes) {
    predicate WellSized() {
      |nonce| < U32_LIMIT && |ciphertext| < U32_LIMIT && |tag| < U32_LIMIT
    }
  }

  /** msgType is any byte: the cast to the enumeration is unchecked. */
  datatype Header = Header(version: u8, msgType: u8, payloadLen: u32)

  // ---------- What the encoders write ----------

  function Prefixed(data: Bytes): Bytes {
    Digits(ToU32(|data|), 4) + data
  }

  function EncodedHello(p: Hello): Bytes {
    Prefixed(p.deviceName) + Prefixed(p.publicKey)
  }

  function EncodedFileOffer(p: FileOffer): Bytes {
    Prefixed(p.fileName) + Digits(p.fileSize, 8) + Prefixed(p.sha256) + Digits(p.totalChunks, 4)
  }

  function EncodedChunk(p: Chunk): Bytes {
    Digits(p.chunkIndex, 4) + Prefixed(p.nonce) + Prefixed(p.ciphertext) + Prefixed(p.tag)
  }

  function EncodedHeader(h: Header): Bytes {
    [h.version, h.msgType] + Digits(h.payloadLen, 4)
  }

  function Framed(msgType: u8, payload: Bytes): Bytes {
    EncodedHeader(Header(PROTOCOL_VERSION, msgType, ToU32(|payload|))) + payload
  }

  method PutBytes(buf: ByteBuffer, data: Bytes)
    modifies buf
    ensures buf.bytes == old(buf.bytes) + Prefixed(data)
  {
    buf.PutU32(ToU32(|data|));
    buf.Insert(data);
  }

  method EncodeHello(p: Hello) returns (r: Bytes)
    ensures r == EncodedHello(p)
  {
    var buf := new ByteBuffer();
    PutBytes(buf, p.deviceName);
    PutBytes(buf, p.publicKey);
    r := buf.bytes;
  }

  method EncodeFileOffer(p: FileOffer) returns (r: Bytes)
    ensures r == EncodedFileOffer(p)
  {
    var buf := new ByteBuffer();
    PutBytes(buf, p.fileName);
    assert buf.bytes == Prefixed(p.fileName);
    buf.PutU64(p.fileSize);
    PutBytes(buf, p.sha256);
    buf.PutU32(p.totalChunks);
    r := buf.bytes;
  }

  method EncodeChunk(p: Chunk) returns (r: Bytes)
    ensures r == EncodedChunk(p)
  {
    var buf := new ByteBuffer();
    buf.PutU32(p.chunkIndex);
    assert buf.bytes == Digits(p.chunkIndex, 4);
    PutBytes(buf, p.nonce);
    PutBytes(buf, p.ciphertext);
    PutBytes(buf, p.tag);
    r := buf.bytes;
  }

  method FrameMessage(msgType: u8, payload: Bytes) returns (r: Bytes)
    ensures r == Framed(msgType, payload)
  {
    var out := new ByteBuffer();
    out.PushBack(PROTOCOL_VERSION);
    out.PushBack(msgType);
    out.PutU32(ToU32(|payload|));
    out.Insert(payload);
    r := out.bytes;
  }

  // ---------- What the decoders read ----------

  /** The length-prefixed block at an offset, with the offset after it. */
  function BlockAt(b: Bytes, off: nat): (r: Result<(Bytes, nat)>)
    requires off <= |b|
    ensures r.Ok? ==> r.value.1 == off + 4 + |r.value.0| <= |b|
  {
    if off + 4 > |b| then Err(TruncatedLengthPrefix)
    else
      var end := off + 4 + Value(b[off..off + 4]);
      if end > |b| then Err(TruncatedPayload) else Ok((b[off + 4..end], end))
  }

  function WordAt(b: Bytes, off: nat, n: nat, e: Error): (r: Result<(nat, nat)>)
    requires off <= |b|
    ensures r.Ok? ==> r.value.0 < Capacity(n) && r.value.1 == off + n <= |b|
  {
    if off + n > |b| then Err(e)
    else
      DigitsOfValue(b[off..off + n]);
      Ok((Value(b[off..off + n]), off + n))
  }

  function DecodedHello(b: Bytes): Result<Hello> {
    var (name, o1) :- BlockAt(b, 0);
    var (key, o2) :- BlockAt(b, o1);
    Ok(Hello(name, key))
  }

  function DecodedFileOffer(b: Bytes): Result<FileOffer> {
    Capacities();
    var (name, o1) :- BlockAt(b, 0);
    var (size, o2) :- WordAt(b, o1, 8, TruncatedFileSize);
    var (sha, o3) :- BlockAt(b, o2);
    var (total, o4) :- WordAt(b, o3, 4, TruncatedTotalChunks);
    Ok(FileOffer(name, size, sha, total))
  }

  function DecodedChunk(b: Bytes): Result<Chunk> {
    Capacities();
    var (index, o1) :- WordAt(b, 0, 4, TruncatedChunkIndex);
    var (nonce, o2) :- BlockAt(b, o1);
    var (ciphertext, o3) :- BlockAt(b, o2);
    var (tag, o4) :- BlockAt(b, o3);
    Ok(Chunk(index, nonce, ciphertext, tag))
  }

  function ParsedHeader(raw: Bytes): (r: Result<Header>)
    ensures r.Ok? ==> |raw| >= HEADER_SIZE
  {
    if |raw| < HEADER_SIZE then Err(HeaderTooShort)
    else
      var h := Header(raw[0], raw[1], GetU32(raw[2..6]));
      if h.version != PROTOCOL_VERSION then Err(VersionMismatch) else Ok(h)
  }

  /** The size_t that the reading helpers advance through a reference. */
  class Cursor {
    var offset: u64

    constructor ()
      ensures offset == 0
    {
      offset := 0;
    }
  }

  /** The offset a throwing read leaves behind is the one reached before the failing test. */
  method ReadBytes(buf: Bytes, cursor: Cursor) returns (r: Result<Bytes>)
    requires cursor.offset <= |buf| <= MAX_BUFFER
    modifies cursor
    ensures r.Ok? ==> BlockAt(buf, old(cursor.offset)) == Ok((r.value, cursor.offset))
    ensures r.Err? ==> BlockAt(buf, old(cursor.offset)) == Err(r.error)
    ensures r.Err? ==> cursor.offset == old(cursor.offset) + (if r.error == TruncatedPayload then 4 else 0)
    ensures cursor.offset <= |buf|
  {
    if SizeAdd(cursor.offset, 4) > |buf| { return Err(TruncatedLengthPrefix); }
    var len := GetU32(buf[cursor.offset..cursor.offset + 4]);
    cursor.offset := SizeAdd(cursor.offset, 4);
    if SizeAdd(cursor.offset, len) > |buf| { return Err(TruncatedPayload); }
    r := Ok(buf[cursor.offset..cursor.offset + len]);
    cursor.offset := SizeAdd(cursor.offset, len);
  }

  method DecodeHello(payload: Bytes) returns (r: Result<Hello>)
    requires |payload| <= MAX_BUFFER
    ensures r == DecodedHello(payload)
  {
    var cursor := new Cursor();
    var name :- ReadBytes(payload, cursor);
    var key :- ReadBytes(payload, cursor);
    r := Ok(Hello(name, key));
  }

  method DecodeFileOffer(payload: Bytes) returns (r: Result<FileOffer>)
    requires |payload| <= MAX_BUFFER
    ensures r == DecodedFileOffer(payload)
  {
    var cursor := new Cursor();
    var name :- ReadBytes(payload, cursor);
    if SizeAdd(cursor.offset, 8) > |payload| { return Err(TruncatedFileSize); }
    var size := GetU64(payload[cursor.offset..cursor.offset + 8]);
    cursor.offset := SizeAdd(cursor.offset, 8);
    var sha :- ReadBytes(payload, cursor);
    if SizeAdd(cursor.offset, 4) > |payload| { return Err(TruncatedTotalChunks); }
    var total := GetU32(payload[cursor.offset..cursor.offset + 4]);
    cursor.offset := SizeAdd(cursor.offset, 4);
    r := Ok(FileOffer(name, size, sha, total));
  }

  method DecodeChunk(payload: Bytes) returns (r: Result<Chunk>)
    requires |payload| <= MAX_BUFFER
    ensures r == DecodedChunk(payload)
  {
    var cursor := new Cursor();
    if SizeAdd(cursor.offset, 4) > |payload| { return Err(TruncatedChunkIndex); }
    var index := GetU32(payload[cursor.offset..cursor.offset + 4]);
    cursor.offset := SizeAdd(cursor.offset, 4);
    var nonce :- ReadBytes(payload, cursor);
    var ciphertext :- ReadBytes(payload, cursor);
    var tag :- ReadBytes(payload, cursor);
    r := Ok(Chunk(index, nonce, ciphertext, tag));
  }

  method ParseHeader(raw: Bytes) returns (r: Result<Header>)
    ensures r == ParsedHeader(raw)
  {
    if |raw| < HEADER_SIZE { return Err(HeaderTooShort); }
    var h := Header(raw[0], raw[1], GetU32(raw[2..6]));
    if h.version != PROTOCOL_VERSION { return Err(VersionMismatch); }
    r := Ok(h);
  }
}

/** Each decoder succeeds with p exactly on the extensions of p's encoding. */
module ProtocolTheorems {
  import opened Base
  import opened LittleEndian
  import opened Protocol

  predicate Occurs(part: Bytes, b: Bytes, off: nat) {
    off + |part| <= |b| && b[off..off + |part|] == part
  }

  lemma OccursSplit(x: Bytes, y: Bytes, b: Bytes, off: nat)
    ensures Occurs(x + y, b, off) <==> Occurs(x, b, off) && Occurs(y, b, off + |x|)
  {
    if off + |x| + |y| <= |b| {
      var w := b[off..off + |x + y|];
      assert w[..|x|] == b[off..off + |x|];
      assert w[|x|..] == b[off + |x|..off + |x| + |y|];
      assert w == w[..|x|] + w[|x|..];
      assert (x + y)[..|x|] == x && (x + y)[|x|..] == y;
    }
  }

  lemma DigitsOccur(v: nat, n: nat, b: Bytes, off: nat)
    requires off + n <= |b| && v < Capacity(n)
    ensures Occurs(Digits(v, n), b, off) <==> Value(b[off..off + n]) == v
  {
    ValueOfDigits(v, n);
    DigitsOfValue(b[off..off + n]);
  }

  lemma WordAtExact(b: Bytes, off: nat, n: nat, e: Error, v: nat)
    requires off <= |b| && v < Capacity(n)
    ensures WordAt(b, off, n, e).Ok? && WordAt(b, off, n, e).value.0 == v <==> Occurs(Digits(v, n), b, off)
    ensures WordAt(b, off, n, e).Ok? ==> WordAt(b, off, n, e).value.1 == off + n
  {
    if off + n <= |b| {
      DigitsOccur(v, n, b, off);
    }
  }

  lemma BlockAtExact(b: Bytes, off: nat, d: Bytes)
    requires off <= |b|
    ensures BlockAt(b, off).Ok? && BlockAt(b, off).value.0 == d
       <==> |d| < U32_LIMIT && Occurs(Prefixed(d), b, off)
    ensures BlockAt(b, off).Ok? && BlockAt(b, off).value.0 == d
        ==> BlockAt(b, off).value.1 == off + |Prefixed(d)|
  {
    var n := ToU32(|d|);
    Capacities();
    OccursSplit(Digits(n, 4), d, b, off);
    if off + 4 <= |b| {
      DigitsOccur(n, 4, b, off);
      DigitsOfValue(b[off..off + 4]);
    }
  }

  ghost predicate ReadsBlock(b: Bytes, off: nat, d: Bytes) {
    off <= |b| && BlockAt(b, off) == Ok((d, off + 4 + |d|))
  }

  ghost predicate ReadsWord(b: Bytes, off: nat, n: nat, e: Error, v: nat) {
    off <= |b| && WordAt(b, off, n, e) == Ok((v, off + n))
  }

  lemma BlockReads(b: Bytes, off: nat, d: Bytes)
    ensures ReadsBlock(b, off, d) <==> |d| < U32_LIMIT && Occurs(Prefixed(d), b, off)
  {
    if off <= |b| {
      BlockAtExact(b, off, d);
    }
  }

  lemma WordReads(b: Bytes, off: nat, n: nat, e: Error, v: nat)
    requires v < Capacity(n)
    ensures ReadsWord(b, off, n, e, v) <==> Occurs(Digits(v, n), b, off)
  {
    if off <= |b| {
      WordAtExact(b, off, n, e, v);
    }
  }

  ghost predicate ReadsBlocks(b: Bytes, off: nat, d: Bytes, e: Bytes) {
    ReadsBlock(b, off, d) && ReadsBlock(b, off + 4 + |d|, e)
  }

  ghost predicate ReadsBlockWord(b: Bytes, off: nat, d: Bytes, n: nat, e: Error, v: nat) {
    ReadsBlock(b, off, d) && ReadsWord(b, off + 4 + |d|, n, e, v)
  }

  ghost predicate ReadsWordBlock(b: Bytes, off: nat, n: nat, e: Error, v: nat, d: Bytes) {
    ReadsWord(b, off, n, e, v) && ReadsBlock(b, off + n, d)
  }

  lemma BlocksRead(b: Bytes, off: nat, d: Bytes, e: Bytes)
    ensures ReadsBlocks(b, off, d, e)
       <==> |d| < U32_LIMIT && |e| < U32_LIMIT && Occurs(Prefixed(d) + Prefixed(e), b, off)
  {
    BlockReads(b, off, d);
    BlockReads(b, off + 4 + |d|, e);
    OccursSplit(Prefixed(d), Prefixed(e), b, off);
  }

  lemma BlockWordReads(b: Bytes, off: nat, d: Bytes, n: nat, e: Error, v: nat)
    requires v < Capacity(n)
    ensures ReadsBlockWord(b, off, d, n, e, v)
       <==> |d| < U32_LIMIT && Occurs(Prefixed(d) + Digits(v, n), b, off)
  {
    BlockReads(b, off, d);
    WordReads(b, off + 4 + |d|, n, e, v);
    OccursSplit(Prefixed(d), Digits(v, n), b, off);
  }

  lemma WordBlockReads(b: Bytes, off: nat, n: nat, e: Error, v: nat, d: Bytes)
    requires v < Capacity(n)
    ensures ReadsWordBlock(b, off, n, e, v, d)
       <==> |d| < U32_LIMIT && Occurs(Digits(v, n) + Prefixed(d), b, off)
  {
    WordReads(b, off, n, e, v);
    BlockReads(b, off + n, d);
    OccursSplit(Digits(v, n), Prefixed(d), b, off);
  }

  lemma Halves(x: Bytes, y: Bytes, z: Bytes, w: Bytes, b: Bytes, off: nat)
    requires off == |x| + |y|
    ensures x + y + z + w <= b <==> Occurs(x + y, b, 0) && Occurs(z + w, b, off)
  {
    OccursSplit(x + y, z + w, b, 0);
    assert x + y + z + w == (x + y) + (z + w);
  }

  lemma DecodeHelloExact(b: Bytes, p: Hello)
    ensures DecodedHello(b) == Ok(p) <==> p.WellSized() && EncodedHello(p) <= b
  {
    BlocksRead(b, 0, p.deviceName, p.publicKey);
  }

  ghost predicate FileOfferReads(b: Bytes, p: FileOffer) {
    && ReadsBlockWord(b, 0, p.fileName, 8, TruncatedFileSize, p.fileSize)
    && ReadsBlockWord(b, 12 + |p.fileName|, p.sha256, 4, TruncatedTotalChunks, p.totalChunks)
  }

  lemma FileOfferOccurs(b: Bytes, p: FileOffer)
    ensures FileOfferReads(b, p) <==> p.WellSized() && EncodedFileOffer(p) <= b
  {
    var off := 12 + |p.fileName|;
    Capacities();
    BlockWordReads(b, 0, p.fileName, 8, TruncatedFileSize, p.fileSize);
    BlockWordReads(b, off, p.sha256, 4, TruncatedTotalChunks, p.totalChunks);
    Halves(Prefixed(p.fileName), Digits(p.fileSize, 8), Prefixed(p.sha256), Digits(p.totalChunks, 4), b, off);
  }

  /** A file offer is decoded exactly when its four parts are read one after the other. */
  lemma FileOfferReadsExact(b: Bytes, p: FileOffer)
    ensures DecodedFileOffer(b) == Ok(p) <==> FileOfferReads(b, p)
  {
    Capacities();
    var name := BlockAt(b, 0);
    if name.Ok? {
      var o1 := name.value.1;
      var size := WordAt(b, o1, 8, TruncatedFileSize);
      if size.Ok? {
        var o2 := size.value.1;
        var sha := BlockAt(b, o2);
        if sha.Ok? {
          var o3 := sha.value.1;
          var total := WordAt(b, o3, 4, TruncatedTotalChunks);
          if total.Ok? {
            assert DecodedFileOffer(b) == Ok(FileOffer(name.value.0, size.value.0, sha.value.0, total.value.0));
          }
        }
      }
    }
  }

  lemma DecodeFileOfferExact(b: Bytes, p: FileOffer)
    ensures DecodedFileOffer(b) == Ok(p) <==> p.WellSized() && EncodedFileOffer(p) <= b
  {
    FileOfferReadsExact(b, p);
    FileOfferOccurs(b, p);
  }

  ghost predicate ChunkReads(b: Bytes, p: Chunk) {
    && ReadsWordBlock(b, 0, 4, TruncatedChunkIndex, p.chunkIndex, p.nonce)
    && ReadsBlocks(b, 8 + |p.nonce|, p.ciphertext, p.tag)
  }

  lemma ChunkOccurs(b: Bytes, p: Chunk)
    ensures ChunkReads(b, p) <==> p.WellSized() && EncodedChunk(p) <= b
  {
    var off := 8 + |p.nonce|;
    Capacities();
    WordBlockReads(b, 0, 4, TruncatedChunkIndex, p.chunkIndex, p.nonce);
    BlocksRead(b, off, p.ciphertext, p.tag);
    Halves(Digits(p.chunkIndex, 4), Prefixed(p.nonce), Prefixed(p.ciphertext), Prefixed(p.tag), b, off);
  }

  /** A chunk is decoded exactly when its four parts are read one after the other. */
  lemma ChunkReadsExact(b: Bytes, p: Chunk)
    ensures DecodedChunk(b) == Ok(p) <==> ChunkReads(b, p)
  {
    Capacities();
    var index := WordAt(b, 0, 4, TruncatedChunkIndex);
    if index.Ok? {
      var nonce := BlockAt(b, 4);
      if nonce.Ok? {
        var o2 := nonce.value.1;
        var ciphertext := BlockAt(b, o2);
        if ciphertext.Ok? {
          var o3 := ciphertext.value.1;
          var tag := BlockAt(b, o3);
          if tag.Ok? {
            assert DecodedChunk(b) == Ok(Chunk(index.value.0, nonce.value.0, ciphertext.value.0, tag.value.0));
          }
        }
      }
    }
  }

  lemma DecodeChunkExact(b: Bytes, p: Chunk)
    ensures DecodedChunk(b) == Ok(p) <==> p.WellSized() && EncodedChunk(p) <= b
  {
    ChunkReadsExact(b, p);
    ChunkOccurs(b, p);
  }

  lemma ParseHeaderExact(raw: Bytes, h: Header)
    ensures ParsedHeader(raw) == Ok(h) <==> h.version == PROTOCOL_VERSION && EncodedHeader(h) <= raw
  {
    Capacities();
    if |raw| >= HEADER_SIZE {
      OccursSplit([h.version, h.msgType], Digits(h.payloadLen, 4), raw, 0);
      DigitsOccur(h.payloadLen, 4, raw, 2);
      assert raw[0..2] == [raw[0], raw[1]];
    }
  }

  /** Encoding then decoding returns the record exactly when its lengths fit their 32-bit prefixes. */
  lemma HelloRoundTrip(p: Hello, rest: Bytes)
    ensures DecodedHello(EncodedHello(p) + rest) == Ok(p) <==> p.WellSized()
  {
    DecodeHelloExact(EncodedHello(p) + rest, p);
  }

  lemma FileOfferRoundTrip(p: FileOffer, rest: Bytes)
    ensures DecodedFileOffer(EncodedFileOffer(p) + rest) == Ok(p) <==> p.WellSized()
  {
    DecodeFileOfferExact(EncodedFileOffer(p) + rest, p);
  }

  lemma ChunkRoundTrip(p: Chunk, rest: Bytes)
    ensures DecodedChunk(EncodedChunk(p) + rest) == Ok(p) <==> p.WellSized()
  {
    DecodeChunkExact(EncodedChunk(p) + rest, p);
  }

  /** Every strict prefix of a well-sized record is refused, in each of the three formats. */
  lemma ProperPrefixRejected(hello: Hello, offer: FileOffer, chunk: Chunk, cut: Bytes)
    ensures hello.WellSized() && cut < EncodedHello(hello) ==> DecodedHello(cut).Err?
    ensures offer.WellSized() && cut < EncodedFileOffer(offer) ==> DecodedFileOffer(cut).Err?
    ensures chunk.WellSized() && cut < EncodedChunk(chunk) ==> DecodedChunk(cut).Err?
  {
    DecodeHelloExact(EncodedHello(hello), hello);
    DecodeFileOfferExact(EncodedFileOffer(offer), offer);
    DecodeChunkExact(EncodedChunk(chunk), chunk);
    if DecodedHello(cut).Ok? {
      DecodeHelloExact(cut, DecodedHello(cut).value);
      DecodeHelloExact(EncodedHello(hello), DecodedHello(cut).value);
    }
    if DecodedFileOffer(cut).Ok? {
      DecodeFileOfferExact(cut, DecodedFileOffer(cut).value);
      DecodeFileOfferExact(EncodedFileOffer(offer), DecodedFileOffer(cut).value);
    }
    if DecodedChunk(cut).Ok? {
      DecodeChunkExact(cut, DecodedChunk(cut).value);
      DecodeChunkExact(EncodedChunk(chunk), DecodedChunk(cut).value);
    }
  }

  // ---------- The layout on the wire, offset by offset ----------

  function Word(a: int, b: int, c: int, d: int): int {
    a + 0x100 * b + 0x1_0000 * c + 0x100_0000 * d
  }

  lemma WordIsLittleEndian(w: Bytes)
    requires |w| == 4
    ensures Value(w) == Word(w[0], w[1], w[2], w[3])
  {
    assert w[1..][1..] == w[2..] && w[2..][1..] == w[3..] && w[3..][1..] == [];
    assert Value(w[3..]) == w[3];
    assert Value(w[2..]) == w[2] + 0x100 * Value(w[3..]);
    assert Value(w[1..]) == w[1] + 0x100 * Value(w[2..]);
  }

  /** A little-endian number of n bytes stands at the offset. */
  ghost predicate HasWord(b: Bytes, off: nat, n: nat, v: nat) {
    off + n <= |b| && Value(b[off..off + n]) == v
  }

  /** The low 32 bits of a length and then the data stand at the offset. */
  ghost predicate HasBlock(b: Bytes, off: nat, d: Bytes) {
    && HasWord(b, off, 4, |d| % 0x1_0000_0000)
    && off + 4 + |d| <= |b| && b[off + 4..off + 4 + |d|] == d
  }

  lemma WordBytes(v: nat, n: nat, b: Bytes, off: nat)
    requires v < Capacity(n) && Occurs(Digits(v, n), b, off)
    ensures HasWord(b, off, n, v)
  {
    DigitsOccur(v, n, b, off);
  }

  lemma PartsOccur(x: Bytes, y: Bytes, z: Bytes, w: Bytes, b: Bytes, off: nat)
    requires b == x + y + z + w && off == |x| + |y|
    ensures Occurs(x, b, 0) && Occurs(y, b, |x|) && Occurs(z, b, off) && Occurs(w, b, off + |z|)
  {
    Halves(x, y, z, w, b, off);
    OccursSplit(x, y, b, 0);
    OccursSplit(z, w, b, off);
  }

  lemma BlockBytes(d: Bytes, b: Bytes, off: nat)
    requires Occurs(Prefixed(d), b, off)
    ensures HasBlock(b, off, d)
  {
    Capacities();
    OccursSplit(Digits(ToU32(|d|), 4), d, b, off);
    DigitsOccur(ToU32(|d|), 4, b, off);
  }

  /** Version 1, type, 32-bit length, payload. */
  lemma FrameLayout(msgType: u8, payload: Bytes)
    ensures var f := Framed(msgType, payload);
            && |f| == 6 + |payload| && f[0] == 1 && f[1] == msgType
            && Value(f[2..6]) == |payload| % 0x1_0000_0000 && f[6..] == payload
  {
    var f, n := Framed(msgType, payload), ToU32(|payload|);
    Capacities();
    assert f[2..6] == Digits(n, 4);
    ValueOfDigits(n, 4);
  }

  /** Which error a header gets, and the fields of one that is accepted. */
  lemma ParseHeaderOutcome(raw: Bytes)
    ensures ParsedHeader(raw) == Err(HeaderTooShort) <==> |raw| < 6
    ensures ParsedHeader(raw) == Err(VersionMismatch) <==> |raw| >= 6 && raw[0] != 1
    ensures |raw| >= 6 && raw[0] == 1 ==>
              && ParsedHeader(raw).Ok?
              && ParsedHeader(raw).value.version == 1 && ParsedHeader(raw).value.msgType == raw[1]
              && ParsedHeader(raw).value.payloadLen == Word(raw[2], raw[3], raw[4], raw[5])
  {
    if |raw| >= 6 {
      WordIsLittleEndian(raw[2..6]);
    }
  }

  lemma HelloLayout(p: Hello)
    ensures var b, o := EncodedHello(p), 4 + |p.deviceName|;
            && |b| == o + 4 + |p.publicKey|
            && HasBlock(b, 0, p.deviceName) && HasBlock(b, o, p.publicKey)
  {
    var b, o := EncodedHello(p), 4 + |p.deviceName|;
    OccursSplit(Prefixed(p.deviceName), Prefixed(p.publicKey), b, 0);
    BlockBytes(p.deviceName, b, 0);
    BlockBytes(p.publicKey, b, o);
  }

  lemma FileOfferParts(p: FileOffer)
    ensures var b, o1 := EncodedFileOffer(p), 4 + |p.fileName|;
            && |b| == o1 + 16 + |p.sha256|
            && Occurs(Prefixed(p.fileName), b, 0) && Occurs(Digits(p.fileSize, 8), b, o1)
            && Occurs(Prefixed(p.sha256), b, o1 + 8) && Occurs(Digits(p.totalChunks, 4), b, o1 + 12 + |p.sha256|)
  {
    PartsOccur(Prefixed(p.fileName), Digits(p.fileSize, 8), Prefixed(p.sha256), Digits(p.totalChunks, 4),
               EncodedFileOffer(p), 12 + |p.fileName|);
  }

  lemma FileOfferLayout(p: FileOffer)
    ensures var b, o1 := EncodedFileOffer(p), 4 + |p.fileName|;
            var o3 := o1 + 12 + |p.sha256|;
            && |b| == o3 + 4
            && HasBlock(b, 0, p.fileName) && HasWord(b, o1, 8, p.fileSize)
            && HasBlock(b, o1 + 8, p.sha256) && HasWord(b, o3, 4, p.totalChunks)
  {
    var b, o1 := EncodedFileOffer(p), 4 + |p.fileName|;
    var o3 := o1 + 12 + |p.sha256|;
    Capacities();
    FileOfferParts(p);
    BlockBytes(p.fileName, b, 0);
    WordBytes(p.fileSize, 8, b, o1);
    BlockBytes(p.sha256, b, o1 + 8);
    WordBytes(p.totalChunks, 4, b, o3);
  }

  lemma ChunkLayout(p: Chunk)
    ensures var b, o2 := EncodedChunk(p), 8 + |p.nonce|;
            var o3 := o2 + 4 + |p.ciphertext|;
            && |b| == o3 + 4 + |p.tag|
            && HasWord(b, 0, 4, p.chunkIndex) && HasBlock(b, 4, p.nonce)
            && HasBlock(b, o2, p.ciphertext) && HasBlock(b, o3, p.tag)
  {
    var b, o2 := EncodedChunk(p), 8 + |p.nonce|;
    var o3 := o2 + 4 + |p.ciphertext|;
    Capacities();
    PartsOccur(Digits(p.chunkIndex, 4), Prefixed(p.nonce), Prefixed(p.ciphertext), Prefixed(p.tag), b, o2);
    WordBytes(p.chunkIndex, 4, b, 0);
    BlockBytes(p.nonce, b, 4);
    BlockBytes(p.ciphertext, b, o2);
    BlockBytes(p.tag, b, o3);
  }

  // ---------- Which error a refused buffer gets ----------

  /** The length a prefix at an offset announces; zero past the end. */
  function LengthAt(b: Bytes, off: nat): nat {
    if off + 4 <= |b| then Value(b[off..off + 4]) else 0
  }

  lemma DecodeHelloOutcome(b: Bytes)
    ensures var r, n := DecodedHello(b), LengthAt(b, 0);
            var m := LengthAt(b, 4 + n);
            && (r == Err(TruncatedLengthPrefix) <==> |b| < 4 || 4 + n <= |b| < 8 + n)
            && (r == Err(TruncatedPayload) <==> 4 <= |b| < 4 + n || 8 + n <= |b| < 8 + n + m)
            && (r.Ok? <==> 8 + n + m <= |b|)
  {
  }

  lemma DecodeFileOfferOutcome(b: Bytes)
    ensures var r, n := DecodedFileOffer(b), LengthAt(b, 0);
            var m := LengthAt(b, 12 + n);
            && (r == Err(TruncatedLengthPrefix) <==> |b| < 4 || 12 + n <= |b| < 16 + n)
            && (r == Err(TruncatedPayload) <==> 4 <= |b| < 4 + n || 16 + n <= |b| < 16 + n + m)
            && (r == Err(TruncatedFileSize) <==> 4 <= |b| && 4 + n <= |b| < 12 + n)
            && (r == Err(TruncatedTotalChunks) <==> 16 + n + m <= |b| < 20 + n + m)
            && (r.Ok? <==> 20 + n + m <= |b|)
  {
    Capacities();
  }

  lemma DecodeChunkOutcome(b: Bytes)
    ensures var r, n := DecodedChunk(b), LengthAt(b, 4);
            var m := LengthAt(b, 8 + n);
            var t := LengthAt(b, 12 + n + m);
            && (r == Err(TruncatedChunkIndex) <==> |b| < 4)
            && (r == Err(TruncatedLengthPrefix)
                <==> 4 <= |b| < 8 || (8 <= |b| && 8 + n <= |b| < 12 + n) || 12 + n + m <= |b| < 16 + n + m)
            && (r == Err(TruncatedPayload)
                <==> 8 <= |b| < 8 + n || 12 + n <= |b| < 12 + n + m || 16 + n + m <= |b| < 16 + n + m + t)
            && (r.Ok? <==> 16 + n + m + t <= |b|)
  {
    Capacities();
  }

  // ---------- Streams of frames ----------

  datatype Frame = Frame(msgType: u8, payload: Bytes)

  function Stream(frames: seq<Frame>): Bytes {
    if frames == [] then [] else Framed(frames[0].msgType, frames[0].payload) + Stream(frames[1..])
  }

  /** Parse a header and cut the payload it announces; the second result is where the frame ends. */
  function FirstFrame(b: Bytes): (r: Result<(Frame, nat)>)
    ensures r.Ok? ==> HEADER_SIZE <= r.value.1 <= |b|
  {
    var h :- ParsedHeader(b);
    var end := HEADER_SIZE + h.payloadLen;
    if end > |b| then Err(TruncatedPayload) else Ok((Frame(h.msgType, b[HEADER_SIZE..end]), end))
  }

  function Split(b: Bytes): Result<seq<Frame>> {
    if b == [] then Ok([])
    else
      var (f, end) :- FirstFrame(b);
      var rest :- Split(b[end..]);
      Ok([f] + rest)
  }

  lemma FirstFrameExact(b: Bytes, f: Frame)
    ensures FirstFrame(b).Ok? && FirstFrame(b).value.0 == f
       <==> |f.payload| < U32_LIMIT && Framed(f.msgType, f.payload) <= b
    ensures FirstFrame(b).Ok? && FirstFrame(b).value.0 == f
        ==> FirstFrame(b).value.1 == |Framed(f.msgType, f.payload)|
  {
    var h := Header(PROTOCOL_VERSION, f.msgType, ToU32(|f.payload|));
    var x := EncodedHeader(h);
    assert Framed(f.msgType, f.payload) <= b <==> x <= b && Occurs(f.payload, b, |x|) by {
      OccursSplit(x, f.payload, b, 0);
    }
    HeaderFields(b, h);
  }

  /** A parsed header is determined by the type byte and the length it announces. */
  lemma HeaderFields(b: Bytes, h: Header)
    requires h.version == PROTOCOL_VERSION
    ensures EncodedHeader(h) <= b
       <==> && ParsedHeader(b).Ok?
            && ParsedHeader(b).value.msgType == h.msgType
            && ParsedHeader(b).value.payloadLen == h.payloadLen
  {
    ParseHeaderExact(b, h);
    assert ParsedHeader(b).Ok? ==> ParsedHeader(b).value.version == PROTOCOL_VERSION;
  }

  ghost predicate Sized(frames: seq<Frame>) {
    forall f <- frames :: |f.payload| < U32_LIMIT
  }

  /** A byte stream splits into a list of frames exactly when it is that list's concatenation. */
  lemma {:induction false} SplitExact(b: Bytes, frames: seq<Frame>)
    ensures Split(b) == Ok(frames) <==> Sized(frames) && b == Stream(frames)
    decreases |frames|
  {
    if frames == [] {
    } else {
      var f, tail := frames[0], frames[1..];
      var x := Framed(f.msgType, f.payload);
      assert frames == [f] + tail;
      FirstFrameExact(b, f);
      if x <= b {
        assert b == x + b[|x|..];
        SplitExact(b[|x|..], tail);
      }
      assert Sized(frames) <==> |f.payload| < U32_LIMIT && Sized(tail);
    }
  }

  /** No frame is a proper prefix of another. */
  lemma FramesPrefixFree(f: Frame, g: Frame)
    requires |f.payload| < U32_LIMIT && |g.payload| < U32_LIMIT
    requires Framed(f.msgType, f.payload) <= Framed(g.msgType, g.payload)
    ensures f == g
  {
    FirstFrameExact(Framed(g.msgType, g.payload), f);
    FirstFrameExact(Framed(g.msgType, g.payload), g);
  }

  /** The overhead of one chunk on the wire is 22 bytes more than its three fields. */
  lemma ChunkFrameSize(c: Chunk)
    ensures |Framed(CHUNK_MESSAGE, EncodedChunk(c))| == 22 + |c.nonce| + |c.ciphertext| + |c.tag|
  {
  }
}
