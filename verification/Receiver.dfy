/** The receiving object, updated in place. */
module Receiver {
  import opened Base
  import opened Files
  import opened Crypto
  import opened Protocol
  import opened Reassembly

  class FileReceiver {
    const output: File
    const expectedSize: u64
    const totalChunks: u32
    const expectedSha256: Bytes
    const receivedMask: array<bool>
    var receivedCount: u32

    ghost function Repr(): set<object> {
      {this, output, receivedMask}
    }

    ghost function State(): State
      reads Repr()
    {
      Reassembly.State(totalChunks, output.contents, receivedMask[..], receivedCount)
    }

    /** One bit per chunk, and the counter is the number of set bits. */
    ghost predicate Valid()
      reads Repr()
    {
      WellFormed(State())
    }

    /** Truncates the output file and preallocates it by writing its last byte. */
    constructor (output: File, expectedSize: u64, totalChunks: u32, expectedSha256: Bytes)
      modifies output
      ensures Valid() && State() == Init(expectedSize, totalChunks)
      ensures this.output == output && this.expectedSize == expectedSize && this.totalChunks == totalChunks
      ensures this.expectedSha256 == expectedSha256 && fresh(receivedMask)
      ensures output.contents == Zeros(if expectedSize <= 0x8000_0000_0000_0000 then expectedSize else 0)
      ensures receivedCount == 0 && receivedMask.Length == totalChunks
      ensures forall i | 0 <= i < totalChunks :: !receivedMask[i]
    {
      this.output, this.expectedSize, this.totalChunks := output, expectedSize, totalChunks;
      this.expectedSha256 := expectedSha256;
      receivedCount := 0;
      receivedMask := new bool[totalChunks](_ => false);
      new;
      output.contents := [];
      var f := new OutStream(output);
      if expectedSize > 0 {
        f.Seekp(ToStreamOff(expectedSize - 1));
        f.Write([0]);
      }
      assert output.contents == Zeros(Preallocated(expectedSize));
      assert receivedMask[..] == Init(expectedSize, totalChunks).mask;
      assert Marked(receivedMask[..]) == {};
    }

    /** Decrypts, writes at the chunk's offset and marks it; a rejected chunk changes nothing. */
    method ReceiveChunk(ss: Session, chunk: Chunk) returns (r: Result<()>)
      requires Valid()
      modifies Repr()
      ensures Valid() && State() == Step(ss, old(State()), chunk)
      ensures r == Err(IndexOutOfRange) <==> chunk.chunkIndex >= totalChunks
      ensures r == Err(BadNonceSize) <==> chunk.chunkIndex < totalChunks && |chunk.nonce| != 12
      ensures r == Err(BadTagSize) <==> chunk.chunkIndex < totalChunks && |chunk.nonce| == 12 && |chunk.tag| != 16
      ensures r == Err(AuthenticationFailed)
         <==> && chunk.chunkIndex < totalChunks && |chunk.nonce| == 12 && |chunk.tag| == 16
              && ss.aead.open(ss.key, chunk.nonce, chunk.ciphertext, chunk.tag) == None
      ensures r == Ok(())
         <==> && chunk.chunkIndex < totalChunks && |chunk.nonce| == 12 && |chunk.tag| == 16
              && ss.aead.open(ss.key, chunk.nonce, chunk.ciphertext, chunk.tag).Some?
      ensures r.Err? ==>
                && output.contents == old(output.contents)
                && receivedMask[..] == old(receivedMask[..]) && receivedCount == old(receivedCount)
      ensures r.Ok? ==>
                && output.contents
                     == WriteAt(old(output.contents), chunk.chunkIndex * CHUNK_SIZE,
                                ss.aead.open(ss.key, chunk.nonce, chunk.ciphertext, chunk.tag).value)
                && receivedMask[..] == old(receivedMask[..])[chunk.chunkIndex as int := true]
                && receivedCount == old(receivedCount) + if old(receivedMask[chunk.chunkIndex]) then 0 else 1
    {
      if chunk.chunkIndex >= totalChunks {
        return Err(IndexOutOfRange);
      }
      var plaintext :- DecryptChunk(ss, EncryptedChunk(chunk.nonce, chunk.ciphertext, chunk.tag));
      ghost var mask := receivedMask[..];
      MarkedUpdate(mask, chunk.chunkIndex);
      var f := new OutStream(output);
      f.Seekp(ToStreamOff(ToU64(chunk.chunkIndex * CHUNK_SIZE)));
      f.Write(plaintext);
      if !receivedMask[chunk.chunkIndex] {
        CompleteIffAllMarked(old(State()));
        receivedMask[chunk.chunkIndex] := true;
        receivedCount := receivedCount + 1;
      }
      assert receivedMask[..] == mask[chunk.chunkIndex as int := true];
      r := Ok(());
    }

    /** The counter test means that every chunk has been marked. */
    predicate IsComplete()
      requires Valid()
      reads Repr()
      ensures IsComplete() <==> State().Complete()
      ensures IsComplete() <==> forall i | 0 <= i < receivedMask.Length :: receivedMask[i]
    {
      CompleteIffAllMarked(State());
      assert forall i | 0 <= i < receivedMask.Length :: receivedMask[i] == State().mask[i];
      receivedCount == totalChunks
    }

    method VerifyIntegrity(h: Hash) returns (r: bool)
      requires LawfulHash(h)
      ensures r <==> h.final(h.update(h.init, output.contents)) == expectedSha256
    {
      var actual := Sha256File(h, output);
      r := actual == expectedSha256;
    }
  }
}
