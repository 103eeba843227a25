/** Authenticated encryption and hashing over abstract primitives with stated laws. */
module Crypto {
  import opened Base
  import opened Files

  type Key = k: Bytes | |k| == 32 witness Zeros(32)
  type Nonce = n: Bytes | |n| == 12 witness Zeros(12)

  datatype EncryptedChunk = EncryptedChunk(nonce: Bytes, ciphertext: Bytes, tag: Bytes)

  /** AES-256-GCM without associated data: seal gives ciphertext and tag, open gives the plaintext. */
  datatype Aead = Aead(seal: (Key, Nonce, Bytes) -> (Bytes, Bytes),
                       open: (Key, Nonce, Bytes, Bytes) -> Option<Bytes>)

  const MAX_INT: nat := 0x7FFF_FFFF

  /** Opening undoes sealing, ciphertexts keep the length and tags have 16 bytes. */
  ghost predicate LawfulAead(a: Aead) {
    forall key, nonce, p: Bytes {:trigger a.seal(key, nonce, p)} | |p| <= MAX_INT ::
      var (c, t) := a.seal(key, nonce, p);
      |c| == |p| && |t| == 16 && a.open(key, nonce, c, t) == Some(p)
  }

  /** The laws are satisfiable. */
  lemma LawfulAeadExists() returns (a: Aead)
    ensures LawfulAead(a)
  {
    a := Aead((_, _, p) => (p, Zeros(16)), (_, _, c, t) => if t == Zeros(16) then Some(c) else None);
  }

  /** The cipher with the key both ends share. */
  datatype Session = Session(aead: Aead, key: Key)

  function Sealed(ss: Session, nonce: Nonce, plaintext: Bytes): EncryptedChunk {
    var (c, t) := ss.aead.seal(ss.key, nonce, plaintext);
    EncryptedChunk(nonce, c, t)
  }

  function Opened(ss: Session, chunk: EncryptedChunk): Result<Bytes> {
    if |chunk.nonce| != 12 then Err(BadNonceSize)
    else if |chunk.tag| != 16 then Err(BadTagSize)
    else match ss.aead.open(ss.key, chunk.nonce, chunk.ciphertext, chunk.tag)
         case Some(p) => Ok(p)
         case None => Err(AuthenticationFailed)
  }

  /**
   The nonce, which the source draws from RAND_bytes, is a parameter. The cipher takes the length as an int;
   nothing is promised of what it makes of a longer plaintext.
   */
  method EncryptChunk(ss: Session, nonce: Nonce, plaintext: Bytes) returns (r: EncryptedChunk)
    requires LawfulAead(ss.aead)
    ensures r == Sealed(ss, nonce, plaintext)
    ensures r.nonce == nonce && (r.ciphertext, r.tag) == ss.aead.seal(ss.key, nonce, plaintext)
    ensures |plaintext| <= MAX_INT ==>
              Opened(ss, r) == Ok(plaintext) && |r.ciphertext| == |plaintext| && |r.tag| == 16
  {
    var (c, t) := ss.aead.seal(ss.key, nonce, plaintext);
    r := EncryptedChunk(nonce, c, t);
  }

  method DecryptChunk(ss: Session, chunk: EncryptedChunk) returns (r: Result<Bytes>)
    ensures r == Opened(ss, chunk)
    ensures r.Ok? ==>
              && |chunk.nonce| == 12 && |chunk.tag| == 16
              && ss.aead.open(ss.key, chunk.nonce, chunk.ciphertext, chunk.tag) == Some(r.value)
    ensures r == Err(BadNonceSize) <==> |chunk.nonce| != 12
    ensures r == Err(BadTagSize) <==> |chunk.nonce| == 12 && |chunk.tag| != 16
    ensures r == Err(AuthenticationFailed)
       <==> && |chunk.nonce| == 12 && |chunk.tag| == 16
            && ss.aead.open(ss.key, chunk.nonce, chunk.ciphertext, chunk.tag) == None
  {
    if |chunk.nonce| != 12 { return Err(BadNonceSize); }
    if |chunk.tag| != 16 { return Err(BadTagSize); }
    var p := ss.aead.open(ss.key, chunk.nonce, chunk.ciphertext, chunk.tag);
    if p == None { return Err(AuthenticationFailed); }
    r := Ok(p.value);
  }

  /** The incremental SHA-256 interface; a digest context is memory, that is, a byte string. */
  datatype Hash = Hash(init: Bytes, update: (Bytes, Bytes) -> Bytes, final: Bytes -> Bytes)

  /** Updates concatenate, an empty update does nothing and digests have 32 bytes. */
  ghost predicate LawfulHash(h: Hash) {
    && (forall c, a, b :: h.update(h.update(c, a), b) == h.update(c, a + b))
    && (forall c :: h.update(c, []) == c)
    && (forall c :: |h.final(c)| == 32)
  }

  lemma LawfulHashExists() returns (h: Hash)
    ensures LawfulHash(h)
  {
    h := Hash([], (c, a) => c + a, c => if |c| >= 32 then c[..32] else c + Zeros(32 - |c|));
    forall c: Bytes, a: Bytes, b: Bytes
      ensures h.update(h.update(c, a), b) == h.update(c, a + b)
    {
      assert c + a + b == c + (a + b);
    }
    assert forall c: Bytes :: c + [] == c;
  }

  /** One-shot hashing. */
  function Sha256Bytes(h: Hash, data: Bytes): Bytes {
    h.final(h.update(h.init, data))
  }

  /** The contexts reached by updating with pieces in order. */
  function AbsorbAll(h: Hash, ctx: Bytes, pieces: seq<Bytes>): Bytes
    decreases |pieces|
  {
    if pieces == [] then ctx else AbsorbAll(h, h.update(ctx, pieces[0]), pieces[1..])
  }

  function Join(pieces: seq<Bytes>): Bytes {
    if pieces == [] then [] else pieces[0] + Join(pieces[1..])
  }

  lemma {:induction false} AbsorbsJoin(h: Hash, ctx: Bytes, pieces: seq<Bytes>)
    requires LawfulHash(h)
    ensures AbsorbAll(h, ctx, pieces) == h.update(ctx, Join(pieces))
    decreases |pieces|
  {
    if pieces == [] {
    } else {
      AbsorbsJoin(h, h.update(ctx, pieces[0]), pieces[1..]);
    }
  }

  /** However data is cut into pieces, hashing them one by one is the one-shot hash of all of it. */
  lemma Sha256OfPieces(h: Hash, pieces: seq<Bytes>)
    requires LawfulHash(h)
    ensures h.final(AbsorbAll(h, h.init, pieces)) == Sha256Bytes(h, Join(pieces))
  {
    AbsorbsJoin(h, h.init, pieces);
  }

  /** The primitive does not give these two inputs the same digest unless they are equal. */
  ghost predicate NoCollision(h: Hash, a: Bytes, b: Bytes) {
    h.final(h.update(h.init, a)) == h.final(h.update(h.init, b)) ==> a == b
  }

  lemma Sha256Distinguishes(h: Hash, a: Bytes, b: Bytes)
    requires NoCollision(h, a, b)
    ensures Sha256Bytes(h, a) == Sha256Bytes(h, b) <==> a == b
  {
  }

  /** Hashing a file in 64 KiB reads gives the one-shot hash of its contents. */
  method Sha256File(h: Hash, file: File) returns (digest: Bytes)
    requires LawfulHash(h)
    ensures digest == Sha256Bytes(h, file.contents)
    ensures digest == h.final(h.update(h.init, file.contents)) && |digest| == 32
  {
    var f := new InStream(file);
    var ctx := h.init;
    var buf := new u8[0x1_0000](_ => 0);
    while f.good
      invariant f.pos <= |f.contents|
      invariant ctx == h.update(h.init, f.contents[..f.pos])
      invariant !f.good ==> f.pos == |f.contents|
      decreases |f.contents| - f.pos, f.good
    {
      ghost var start := f.pos;
      var n := f.Read(buf);
      assert f.contents[..start] + buf[..n] == f.contents[..f.pos];
      if n > 0 {
        ctx := h.update(ctx, buf[..n]);
      }
    }
    assert f.contents[..f.pos] == f.contents;
    digest := h.final(ctx);
  }
}
