/** The loopback transport and the transfer the end-to-end test wires over it. */
module EndToEnd {
  import opened Base
  import opened Files
  import opened Crypto
  import opened Protocol
  import opened Chunker
  import opened Reassembly
  import opened Receiver
  import opened Transfer
  import opened Wire

  /** The receiving side's data callback, with what it captures. */
  class DataHandler {
    const receiver: FileReceiver
    const session: Session
    ghost var callers: seq<string>  // the names the calls came with

    /** What a call changes. */
    ghost function Frame(): set<object> {
      {this} + receiver.Repr()
    }

    constructor (receiver: FileReceiver, session: Session)
      ensures this.receiver == receiver && this.session == session && callers == []
    {
      this.receiver, this.session := receiver, session;
      callers := [];
    }

    method Call(peerId: string, raw: Bytes) returns (r: Result<()>)
      requires receiver.Valid() && |raw| <= MAX_BUFFER
      modifies Frame()
      ensures receiver.Valid() && receiver.State() == WireStep(session, old(receiver.State()), raw)
      ensures r == Handled(session, receiver.totalChunks, raw)
      ensures callers == old(callers) + [peerId]
    {
      callers := callers + [peerId];
      var header :- ParseHeader(raw);
      if header.msgType != CHUNK_MESSAGE {
        return Err(UnexpectedType);
      }
      var chunk :- DecodeChunk(raw[HEADER_SIZE..]);
      r := receiver.ReceiveChunk(session, chunk);
    }
  }

  class LoopbackTransport {
    const selfId: string
    var peer: LoopbackTransport?
    var onData: DataHandler?

    constructor (selfId: string)
      ensures this.selfId == selfId && peer == null && onData == null
    {
      this.selfId := selfId;
      peer, onData := null, null;
    }

    method SetOnDataReceived(cb: DataHandler?)
      modifies this`onData
      ensures onData == cb
    {
      onData := cb;
    }

    static method ConnectPeers(a: LoopbackTransport, b: LoopbackTransport)
      modifies a`peer, b`peer
      ensures a.peer == b && b.peer == a
    {
      a.peer := b;
      b.peer := a;
    }

    /** The callback that Send would invoke, if any. */
    ghost function Target(): DataHandler?
      reads this, peer
    {
      if peer == null then null else peer.onData
    }

    /** Delivers the bytes to the peer's callback at once, whatever the peer name; without one, drops them. */
    method Send(peerId: string, data: Bytes) returns (r: Result<()>)
      requires Target() != null ==> Target().receiver.Valid() && |data| <= MAX_BUFFER
      modifies if Target() == null then {} else Target().Frame()
      ensures Target() == old(Target())
      ensures Target() == null ==> r.Ok?
      ensures var t := Target();
              t != null ==>
                && t.receiver.Valid()
                && t.receiver.State() == WireStep(t.session, old(t.receiver.State()), data)
                && r == Handled(t.session, t.receiver.totalChunks, data)
                && t.callers == old(t.callers) + [selfId]
    {
      r := Ok(());
      if peer != null && peer.onData != null {
        r := peer.onData.Call(selfId, data);
      }
    }
  }

  /** Two connected transports, with the receiver behind the second one's callback. */
  method Connect(receiver: FileReceiver, ss: Session) returns (alice: LoopbackTransport, handler: DataHandler)
    ensures alice.Target() == handler && handler.receiver == receiver && handler.session == ss
    ensures fresh(alice) && fresh(alice.peer) && fresh(handler)
  {
    alice := new LoopbackTransport("alice");
    var bob := new LoopbackTransport("bob");
    LoopbackTransport.ConnectPeers(alice, bob);
    handler := new DataHandler(receiver, ss);
    bob.SetOnDataReceived(handler);
  }

  /** What the sender's callback does with each chunk: encode, frame and send; no call throws. */
  method SendAll(chunks: seq<Chunk>, alice: LoopbackTransport, handler: DataHandler,
                 ghost nonces: nat -> Nonce, ghost src: Bytes)
    requires LawfulAead(handler.session.aead) && |src| <= MAX_FILE
    requires chunks == SenderChunks(handler.session, nonces, src)
    requires alice.Target() == handler && handler.receiver.Valid()
    requires handler.receiver.totalChunks == TotalChunks(|src|)
    modifies handler.Frame()
    ensures handler.receiver.Valid()
    ensures handler.receiver.State() == Run(handler.session, old(handler.receiver.State()), chunks)
    ensures handler.callers == old(handler.callers) + seq(|chunks|, _ => alice.selfId)
  {
    ghost var s, callers := handler.receiver.State(), handler.callers;
    for k := 0 to |chunks|
      invariant alice.Target() == handler && handler.receiver.Valid()
      invariant handler.receiver.State() == Run(handler.session, s, chunks[..k])
      invariant handler.callers == callers + seq(k, _ => alice.selfId)
    {
      FrameDelivers(handler.session, nonces, src, s, k);
      var payload := EncodeChunk(chunks[k]);
      var framed := FrameMessage(CHUNK_MESSAGE, payload);
      var sent := alice.Send("bob", framed);
      assert sent.Ok?;
    }
    assert chunks[..|chunks|] == chunks;
  }

  /** The sending side's loop over a fresh connection to the receiver. */
  method SendFile(file: File, ss: Session, nonces: nat -> Nonce, receiver: FileReceiver)
    requires LawfulAead(ss.aead) && |file.contents| <= MAX_FILE && file !in receiver.Repr()
    requires receiver.Valid() && receiver.totalChunks == TotalChunks(|file.contents|)
    modifies receiver.Repr()
    ensures receiver.Valid()
    ensures receiver.State() == Run(ss, old(receiver.State()), SenderChunks(ss, nonces, file.contents))
  {
    var alice, handler := Connect(receiver, ss);
    var sink := new ChunkSink(None);
    var sent := SendFileChunks(file, ss, nonces, sink);
    assert sent.Ok? && sink.calls == SenderChunks(ss, nonces, file.contents);
    SendAll(sink.calls, alice, handler, nonces, file.contents);
  }

  /** Offer, chunk, encode, frame, send, parse, decode, receive: the receiver ends up with the file. */
  method TransferFile(h: Hash, ss: Session, file: File, path: Bytes, nonces: nat -> Nonce, output: File)
    returns (receiver: FileReceiver, intact: bool)
    requires LawfulHash(h) && LawfulAead(ss.aead)
    requires |file.contents| <= MAX_FILE && file != output
    modifies output
    ensures receiver.output == output && receiver.Valid() && receiver.IsComplete()
    ensures output.contents == file.contents
    ensures intact
  {
    var prepared := PrepareFileOffer(h, path, file);
    var offer := prepared.value;
    receiver := new FileReceiver(output, offer.fileSize, offer.totalChunks, offer.sha256);
    SendFile(file, ss, nonces, receiver);
    FullRun(ss, nonces, file.contents, []);
    assert [] + SenderChunks(ss, nonces, file.contents) == SenderChunks(ss, nonces, file.contents);
    intact := receiver.VerifyIntegrity(h);
  }
}
