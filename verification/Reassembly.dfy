/** The receiver's state as a value, one delivery as a step, and what every run keeps. */
module Reassembly {
  import opened Base
  import opened Files
  import opened Crypto
  import opened Protocol

  datatype State = State(total: u32, file: Bytes, mask: seq<bool>, count: nat) {
    predicate Shaped() {
      |mask| == total
    }

    predicate Complete() {
      count == total
    }
  }

  /** Length of the zero-filled file the constructor leaves; the seek fails when its offset is negative. */
  function Preallocated(size: u64): nat {
    if size > 0 && ToStreamOff(size - 1) < 0 then 0 else size
  }

  function Init(size: u64, total: u32): (s: State)
    ensures s.Shaped()
  {
    State(total, Zeros(Preallocated(size)), seq(total, _ => false), 0)
  }

  /** The plaintext of an accepted chunk, or why it is rejected; this does not depend on the state. */
  function Verdict(ss: Session, total: u32, c: Chunk): Result<Bytes> {
    if c.chunkIndex >= total then Err(IndexOutOfRange)
    else Opened(ss, EncryptedChunk(c.nonce, c.ciphertext, c.tag))
  }

  /** What is accepted, and as what, in terms of the chunk and the cipher alone. */
  lemma VerdictExact(ss: Session, total: u32, c: Chunk, p: Bytes)
    ensures Verdict(ss, total, c) == Ok(p)
       <==> && c.chunkIndex < total && |c.nonce| == 12 && |c.tag| == 16
            && ss.aead.open(ss.key, c.nonce, c.ciphertext, c.tag) == Some(p)
  {
  }

  function Place(s: State, i: nat, p: Bytes): (r: State)
    requires i < |s.mask|
    ensures |r.mask| == |s.mask| && r.total == s.total
  {
    s.(file := WriteAt(s.file, i * CHUNK_SIZE, p),
       mask := s.mask[i := true],
       count := if s.mask[i] then s.count else s.count + 1)
  }

  function Step(ss: Session, s: State, c: Chunk): (r: State)
    requires s.Shaped()
    ensures r.Shaped() && r.total == s.total
  {
    match Verdict(ss, s.total, c)
    case Ok(p) => Place(s, c.chunkIndex, p)
    case Err(_) => s
  }

  function Run(ss: Session, s: State, events: seq<Chunk>): (r: State)
    requires s.Shaped()
    ensures r.Shaped() && r.total == s.total
  {
    if events == [] then s else Step(ss, Run(ss, s, events[..|events| - 1]), events[|events| - 1])
  }

  lemma RunSnoc(ss: Session, s: State, events: seq<Chunk>, c: Chunk)
    requires s.Shaped()
    ensures Run(ss, s, events + [c]) == Step(ss, Run(ss, s, events), c)
  {
    assert (events + [c])[..|events|] == events;
  }

  // ---------- Completion by counting, for arbitrary deliveries ----------

  function Marked(mask: seq<bool>): set<int> {
    set i | 0 <= i < |mask| && mask[i]
  }

  /** The counter is the population count of the mask. */
  predicate WellFormed(s: State) {
    s.Shaped() && s.count == |Marked(s.mask)|
  }

  /** Indices of the chunks in a delivery history that were accepted at least once. */
  function Accepted(ss: Session, total: u32, events: seq<Chunk>): set<int> {
    set c | c in events && Verdict(ss, total, c).Ok? :: c.chunkIndex
  }

  lemma AcceptedSnoc(ss: Session, total: u32, events: seq<Chunk>, c: Chunk)
    ensures Accepted(ss, total, events + [c])
         == Accepted(ss, total, events) + if Verdict(ss, total, c).Ok? then {c.chunkIndex} else {}
  {
    assert forall d :: d in events + [c] <==> d in events || d == c;
  }

  lemma MarkedUpdate(mask: seq<bool>, i: nat)
    requires i < |mask|
    ensures Marked(mask[i := true]) == Marked(mask) + {i}
    ensures |Marked(mask[i := true])| == |Marked(mask)| + if mask[i] then 0 else 1
  {
    assert Marked(mask[i := true]) == Marked(mask) + {i};
    assert mask[i] ==> Marked(mask) + {i} == Marked(mask);
  }

  /** All the indices of a transfer of n chunks. */
  function Indices(n: nat): (r: set<int>)
    ensures forall i :: i in r <==> 0 <= i < n
    ensures |r| == n
  {
    if n == 0 then {} else Indices(n - 1) + {n - 1}
  }

  lemma SubsetSize(a: set<int>, b: set<int>)
    requires a <= b
    ensures |a| <= |b| && (|a| == |b| <==> a == b)
  {
    assert b == a + (b - a);
  }

  /** Pigeonhole: the counter reaches total exactly when every bit is set. */
  lemma CompleteIffAllMarked(s: State)
    requires WellFormed(s)
    ensures s.count <= s.total
    ensures s.Complete() <==> forall i | 0 <= i < s.total :: s.mask[i]
  {
    SubsetSize(Marked(s.mask), Indices(s.total));
    assert forall i | 0 <= i < s.total :: i in Marked(s.mask) <==> s.mask[i];
  }

  /** After any history whatsoever the set bits are the accepted indices and the counter counts them. */
  lemma {:induction false} CountingInvariant(ss: Session, size: u64, total: u32, events: seq<Chunk>)
    ensures var s := Run(ss, Init(size, total), events);
            WellFormed(s) && Marked(s.mask) == Accepted(ss, total, events)
  {
    if events == [] {
      assert Marked(Init(size, total).mask) == {};
    } else {
      var front, c := events[..|events| - 1], events[|events| - 1];
      assert events == front + [c];
      CountingInvariant(ss, size, total, front);
      AcceptedSnoc(ss, total, front, c);
      if c.chunkIndex < total {
        MarkedUpdate(Run(ss, Init(size, total), front).mask, c.chunkIndex);
      }
    }
  }

  /** IsComplete holds exactly when every index was accepted at least once. */
  lemma CompletionByCounting(ss: Session, size: u64, total: u32, events: seq<Chunk>)
    ensures var s := Run(ss, Init(size, total), events);
            && s.count == |Accepted(ss, total, events)| <= total
            && (s.Complete() <==> Accepted(ss, total, events) == Indices(total))
  {
    CountingInvariant(ss, size, total, events);
    SubsetSize(Accepted(ss, total, events), Indices(total));
  }

  /** What is left to receive drops by one on the first accept of an index and never otherwise changes. */
  lemma Progress(ss: Session, size: u64, total: u32, events: seq<Chunk>, c: Chunk)
    ensures var before := Run(ss, Init(size, total), events);
            var after := Run(ss, Init(size, total), events + [c]);
            && after.count == before.count
                 + (if Verdict(ss, total, c).Ok? && c.chunkIndex !in Accepted(ss, total, events) then 1 else 0)
            && (Verdict(ss, total, c).Err? ==> after == before)
  {
    RunSnoc(ss, Init(size, total), events, c);
    CountingInvariant(ss, size, total, events);
  }

  // ---------- Refinement: file, mask and counter are a finite map of blocks ----------

  /** A shorter rewrite of a block leaves the tail of what was there. */
  function Overlay(was: Bytes, p: Bytes): Bytes {
    p + if |was| > |p| then was[|p|..] else []
  }

  function BlockOf(m: map<int, Bytes>, i: int): Bytes {
    if i in m then m[i] else []
  }

  function Placed(m: map<int, Bytes>, i: int, p: Bytes): map<int, Bytes> {
    m[i := Overlay(BlockOf(m, i), p)]
  }

  function Absorb(ss: Session, total: u32, m: map<int, Bytes>, c: Chunk): map<int, Bytes> {
    match Verdict(ss, total, c)
    case Ok(p) => Placed(m, c.chunkIndex, p)
    case Err(_) => m
  }

  /** The blocks a delivery history has put together. */
  function Blocks(ss: Session, total: u32, events: seq<Chunk>): map<int, Bytes> {
    if events == [] then map[]
    else Absorb(ss, total, Blocks(ss, total, events[..|events| - 1]), events[|events| - 1])
  }

  function ByteAt(m: map<int, Bytes>, j: nat): u8 {
    var b := BlockOf(m, j / CHUNK_SIZE);
    if j % CHUNK_SIZE < |b| then b[j % CHUNK_SIZE] else 0
  }

  function EndOf(m: map<int, Bytes>, i: int): int {
    i * CHUNK_SIZE + |BlockOf(m, i)|
  }

  /** The marked indices are the map's keys and the counter is their number. */
  ghost predicate CountsKeys(s: State, m: map<int, Bytes>) {
    s.Shaped() && Marked(s.mask) == m.Keys && s.count == |m|
  }

  /** The file is as long as the preallocation and the non-empty blocks make it. */
  ghost predicate HasExtent(file: Bytes, base: nat, m: map<int, Bytes>) {
    && base <= |file|
    && (forall i <- m :: |m[i]| <= CHUNK_SIZE && (m[i] != [] ==> EndOf(m, i) <= |file|))
    && (|file| == base || exists i <- m :: m[i] != [] && EndOf(m, i) == |file|)
  }

  /** The file holds the blocks, and zeros elsewhere. */
  ghost predicate HasBytes(file: Bytes, m: map<int, Bytes>) {
    forall j | 0 <= j < |file| :: file[j] == ByteAt(m, j)
  }

  ghost predicate Represents(s: State, base: nat, m: map<int, Bytes>) {
    CountsKeys(s, m) && HasExtent(s.file, base, m) && HasBytes(s.file, m)
  }

  /** The map determines the whole state. */
  lemma RepresentsUnique(s: State, t: State, base: nat, m: map<int, Bytes>)
    requires s.total == t.total && Represents(s, base, m) && Represents(t, base, m)
    ensures s == t
  {
    assert |s.file| == |t.file|;
    assert s.file == t.file;
    forall i | 0 <= i < |s.mask|
      ensures s.mask[i] == t.mask[i]
    {
      assert i in Marked(s.mask) <==> i in Marked(t.mask);
    }
    assert s.mask == t.mask;
  }

  lemma OffsetInBlock(i: nat, j: nat)
    requires i * CHUNK_SIZE <= j < i * CHUNK_SIZE + CHUNK_SIZE
    ensures j / CHUNK_SIZE == i && j % CHUNK_SIZE == j - i * CHUNK_SIZE
  {
  }

  lemma BlockCoversOffset(j: nat)
    ensures j / CHUNK_SIZE * CHUNK_SIZE <= j < j / CHUNK_SIZE * CHUNK_SIZE + CHUNK_SIZE
    ensures j % CHUNK_SIZE == j - j / CHUNK_SIZE * CHUNK_SIZE
  {
  }

  lemma PlaceCounts(s: State, m: map<int, Bytes>, i: nat, p: Bytes)
    requires CountsKeys(s, m) && i < |s.mask|
    ensures CountsKeys(Place(s, i, p), Placed(m, i, p))
  {
    MarkedUpdate(s.mask, i);
    assert i in Marked(s.mask) <==> s.mask[i];
    assert Placed(m, i, p).Keys == m.Keys + {i};
  }

  lemma WriteKeepsBytes(file: Bytes, base: nat, m: map<int, Bytes>, i: nat, p: Bytes)
    requires HasExtent(file, base, m) && HasBytes(file, m) && |p| <= CHUNK_SIZE
    ensures HasBytes(WriteAt(file, i * CHUNK_SIZE, p), Placed(m, i, p))
  {
    var g := WriteAt(file, i * CHUNK_SIZE, p);
    forall j | 0 <= j < |g|
      ensures g[j] == ByteAt(Placed(m, i, p), j)
    {
      BlockCoversOffset(j);
      if i * CHUNK_SIZE <= j < i * CHUNK_SIZE + CHUNK_SIZE {
        OffsetInBlock(i, j);
      }
      assert j < |file| ==> file[j] == ByteAt(m, j);
    }
  }

  lemma WriteKeepsExtent(file: Bytes, base: nat, m: map<int, Bytes>, i: nat, p: Bytes)
    requires HasExtent(file, base, m) && |p| <= CHUNK_SIZE
    ensures HasExtent(WriteAt(file, i * CHUNK_SIZE, p), base, Placed(m, i, p))
  {
    var g, m' := WriteAt(file, i * CHUNK_SIZE, p), Placed(m, i, p);
    assert forall k <- m' :: k != i ==> EndOf(m', k) == EndOf(m, k);
    if |g| > |file| {
      assert i in m' && m'[i] != [] && EndOf(m', i) == |g|;
    } else if |file| != base {
      var k :| k in m && m[k] != [] && EndOf(m, k) == |file|;
      assert k in m' && m'[k] != [] && EndOf(m', k) == |g|;
    }
  }

  /** Accepting one chunk of at most a block is absorbing it into the map. */
  lemma PlaceRefines(s: State, base: nat, m: map<int, Bytes>, i: nat, p: Bytes)
    requires Represents(s, base, m) && i < |s.mask| && |p| <= CHUNK_SIZE
    ensures Represents(Place(s, i, p), base, Placed(m, i, p))
  {
    PlaceCounts(s, m, i, p);
    WriteKeepsBytes(s.file, base, m, i, p);
    WriteKeepsExtent(s.file, base, m, i, p);
  }

  /** No accepted plaintext is longer than a block. */
  ghost predicate Small(ss: Session, total: u32, events: seq<Chunk>) {
    forall c <- events :: Verdict(ss, total, c).Ok? ==> |Verdict(ss, total, c).value| <= CHUNK_SIZE
  }

  /** Every run over such chunks, in any order and with any repeats, refines the map of blocks. */
  lemma {:induction false} RunRefines(ss: Session, size: u64, total: u32, events: seq<Chunk>)
    requires Small(ss, total, events)
    ensures Represents(Run(ss, Init(size, total), events), Preallocated(size), Blocks(ss, total, events))
  {
    if events == [] {
      assert Marked(Init(size, total).mask) == {};
    } else {
      var front, c := events[..|events| - 1], events[|events| - 1];
      assert forall d <- front :: d in events;
      RunRefines(ss, size, total, front);
      assert c in events;
      if Verdict(ss, total, c).Ok? {
        PlaceRefines(Run(ss, Init(size, total), front), Preallocated(size), Blocks(ss, total, front),
                     c.chunkIndex, Verdict(ss, total, c).value);
      }
    }
  }

  /** Nothing is ever written past the last announced block. */
  lemma TailNeverWritten(ss: Session, size: u64, total: u32, events: seq<Chunk>)
    requires Small(ss, total, events)
    ensures var f := Run(ss, Init(size, total), events).file;
            && |f| <= Max(Preallocated(size), total * CHUNK_SIZE)
            && forall j | total * CHUNK_SIZE <= j < |f| :: f[j] == 0
  {
    RunRefines(ss, size, total, events);
    var s, m := Run(ss, Init(size, total), events), Blocks(ss, total, events);
    assert forall i <- m :: i in Marked(s.mask);
    forall j | total * CHUNK_SIZE <= j < |s.file|
      ensures s.file[j] == 0
    {
      assert s.file[j] == ByteAt(m, j);
    }
  }

  // ---------- Last writer wins, for plaintexts of any length ----------

  predicate Covers(ss: Session, total: u32, c: Chunk, j: nat) {
    var v := Verdict(ss, total, c);
    v.Ok? && c.chunkIndex * CHUNK_SIZE <= j < c.chunkIndex * CHUNK_SIZE + |v.value|
  }

  /** Delivery i is the last accepted one whose write covers offset j. */
  ghost predicate LastCover(ss: Session, total: u32, events: seq<Chunk>, i: nat, j: nat) {
    && i < |events| && Covers(ss, total, events[i], j)
    && forall k | i < k < |events| :: !Covers(ss, total, events[k], j)
  }

  ghost predicate NeverCovered(ss: Session, total: u32, events: seq<Chunk>, j: nat) {
    forall c <- events :: !Covers(ss, total, c, j)
  }

  function ByteOf(ss: Session, total: u32, c: Chunk, j: nat): u8
    requires Covers(ss, total, c, j)
  {
    Verdict(ss, total, c).value[j - c.chunkIndex * CHUNK_SIZE]
  }

  /** The last byte written at an offset, found from the end of the history. */
  function Written(ss: Session, total: u32, events: seq<Chunk>, j: nat): Option<u8> {
    if events == [] then None
    else
      var c := events[|events| - 1];
      if Covers(ss, total, c, j) then Some(ByteOf(ss, total, c, j))
      else Written(ss, total, events[..|events| - 1], j)
  }

  lemma {:induction false} WrittenIsLast(ss: Session, total: u32, events: seq<Chunk>, i: nat, j: nat)
    requires LastCover(ss, total, events, i, j)
    ensures Written(ss, total, events, j) == Some(ByteOf(ss, total, events[i], j))
  {
    if i == |events| - 1 {
    } else {
      var front := events[..|events| - 1];
      assert forall k | 0 <= k < |front| :: front[k] == events[k];
      assert LastCover(ss, total, front, i, j);
      WrittenIsLast(ss, total, front, i, j);
    }
  }

  lemma {:induction false} NothingWritten(ss: Session, total: u32, events: seq<Chunk>, j: nat)
    requires NeverCovered(ss, total, events, j)
    ensures Written(ss, total, events, j) == None
  {
    if events == [] {
    } else {
      NothingWritten(ss, total, events[..|events| - 1], j);
    }
  }

  lemma {:induction false} FileIsWritten(ss: Session, size: u64, total: u32, events: seq<Chunk>, j: nat)
    ensures var f, w := Run(ss, Init(size, total), events).file, Written(ss, total, events, j);
            if w.Some? then j < |f| && f[j] == w.value else j < |f| ==> f[j] == 0
  {
    if events == [] {
    } else {
      FileIsWritten(ss, size, total, events[..|events| - 1], j);
    }
  }

  /** Each byte of the file is what the last accepted chunk covering it wrote, and zero if there is none. */
  lemma LastWriterWins(ss: Session, size: u64, total: u32, events: seq<Chunk>, j: nat)
    ensures forall i: nat | LastCover(ss, total, events, i, j) ::
              var f := Run(ss, Init(size, total), events).file;
              j < |f| && f[j] == ByteOf(ss, total, events[i], j)
    ensures NeverCovered(ss, total, events, j) ==>
              var f := Run(ss, Init(size, total), events).file;
              j < |f| ==> f[j] == 0
  {
    FileIsWritten(ss, size, total, events, j);
    forall i: nat | LastCover(ss, total, events, i, j)
      ensures Written(ss, total, events, j) == Some(ByteOf(ss, total, events[i], j))
    {
      WrittenIsLast(ss, total, events, i, j);
    }
    if NeverCovered(ss, total, events, j) {
      NothingWritten(ss, total, events, j);
    }
  }

  /** Where the write of an accepted, non-empty chunk ends. */
  function WriteEnd(ss: Session, total: u32, c: Chunk): nat {
    var v := Verdict(ss, total, c);
    if v.Ok? && v.value != [] then c.chunkIndex * CHUNK_SIZE + |v.value| else 0
  }

  /** The file is as long as the preallocation and the furthest write make it. */
  lemma {:induction false} LengthIsFurthestWrite(ss: Session, size: u64, total: u32, events: seq<Chunk>)
    ensures var n := |Run(ss, Init(size, total), events).file|;
            && Preallocated(size) <= n
            && (forall c <- events :: WriteEnd(ss, total, c) <= n)
            && (n == Preallocated(size) || exists c <- events :: WriteEnd(ss, total, c) == n)
  {
    if events == [] {
    } else {
      var front, c := events[..|events| - 1], events[|events| - 1];
      LengthIsFurthestWrite(ss, size, total, front);
      assert forall d :: d in events <==> d in front || d == c by {
        assert events == front + [c];
      }
      var before, n := |Run(ss, Init(size, total), front).file|, |Run(ss, Init(size, total), events).file|;
      assert n == Max(before, WriteEnd(ss, total, c));
      if n != before {
        assert c in events && WriteEnd(ss, total, c) == n;
      }
    }
  }

  // ---------- Order, duplicates and retransmission do not matter ----------

  /** The accepted (index, plaintext) pairs of a history. */
  function Delivered(ss: Session, total: u32, events: seq<Chunk>): set<(int, Bytes)> {
    set c | c in events && Verdict(ss, total, c).Ok? :: (c.chunkIndex, Verdict(ss, total, c).value)
  }

  /** Accepted chunks with the same index carry the same plaintext. */
  ghost predicate Consistent(ss: Session, total: u32, events: seq<Chunk>) {
    forall a, b | a in Delivered(ss, total, events) && b in Delivered(ss, total, events) :: a.0 == b.0 ==> a == b
  }

  lemma DeliveredSnoc(ss: Session, total: u32, events: seq<Chunk>, c: Chunk)
    ensures Delivered(ss, total, events + [c]) == Delivered(ss, total, events)
              + if Verdict(ss, total, c).Ok? then {(c.chunkIndex, Verdict(ss, total, c).value)} else {}
  {
    assert forall d :: d in events + [c] <==> d in events || d == c;
  }

  ghost predicate HasExactly(m: map<int, Bytes>, pairs: set<(int, Bytes)>) {
    forall i, p :: (i, p) in pairs <==> i in m && m[i] == p
  }

  lemma HasExactlyUnique(m: map<int, Bytes>, n: map<int, Bytes>, pairs: set<(int, Bytes)>)
    requires HasExactly(m, pairs) && HasExactly(n, pairs)
    ensures m == n
  {
    forall i | i in m
      ensures i in n && n[i] == m[i]
    {
      assert (i, m[i]) in pairs;
    }
    forall i | i in n
      ensures i in m
    {
      assert (i, n[i]) in pairs;
    }
  }

  /** The blocks put together from consistent chunks are the plaintexts delivered. */
  lemma {:induction false} BlocksAreDelivered(ss: Session, total: u32, events: seq<Chunk>)
    requires Consistent(ss, total, events)
    ensures HasExactly(Blocks(ss, total, events), Delivered(ss, total, events))
  {
    if events == [] {
    } else {
      var front, c := events[..|events| - 1], events[|events| - 1];
      assert events == front + [c];
      DeliveredSnoc(ss, total, front, c);
      BlocksAreDelivered(ss, total, front);
      var m := Blocks(ss, total, front);
      if Verdict(ss, total, c).Ok? {
        var i, p := c.chunkIndex as int, Verdict(ss, total, c).value;
        if i in m {
          assert (i, m[i]) in Delivered(ss, total, events) && (i, p) in Delivered(ss, total, events);
        }
        assert Overlay(BlockOf(m, i), p) == p;
      }
    }
  }

  /** The final state depends only on the set of accepted (index, plaintext) pairs. */
  lemma ScheduleIndependence(ss: Session, size: u64, total: u32, xs: seq<Chunk>, ys: seq<Chunk>)
    requires Small(ss, total, xs) && Consistent(ss, total, xs)
    requires Delivered(ss, total, xs) == Delivered(ss, total, ys)
    ensures Run(ss, Init(size, total), xs) == Run(ss, Init(size, total), ys)
  {
    BlocksAreDelivered(ss, total, xs);
    BlocksAreDelivered(ss, total, ys);
    HasExactlyUnique(Blocks(ss, total, xs), Blocks(ss, total, ys), Delivered(ss, total, xs));
    RunRefines(ss, size, total, xs);
    forall c <- ys | Verdict(ss, total, c).Ok?
      ensures |Verdict(ss, total, c).value| <= CHUNK_SIZE
    {
      assert (c.chunkIndex as int, Verdict(ss, total, c).value) in Delivered(ss, total, xs);
    }
    RunRefines(ss, size, total, ys);
    RepresentsUnique(Run(ss, Init(size, total), xs), Run(ss, Init(size, total), ys), Preallocated(size),
                     Blocks(ss, total, xs));
  }

  /** Where a write at off runs past the start of one gap bytes further on, both write the same bytes. */
  ghost predicate OverlapAgrees(p: Bytes, gap: nat, q: Bytes) {
    forall d | 0 <= d < |q| :: gap + d < |p| ==> p[gap + d] == q[d]
  }

  lemma WritesCommuteExact(file: Bytes, off: nat, p: Bytes, gap: nat, q: Bytes)
    ensures WriteAt(WriteAt(file, off, p), off + gap, q) == WriteAt(WriteAt(file, off + gap, q), off, p)
       <==> OverlapAgrees(p, gap, q)
  {
    var a := WriteAt(WriteAt(file, off, p), off + gap, q);
    var b := WriteAt(WriteAt(file, off + gap, q), off, p);
    assert |a| == |b|;
    if OverlapAgrees(p, gap, q) {
      forall j | 0 <= j < |a|
        ensures a[j] == b[j]
      {
        if 0 <= j - off - gap < |q| && j - off < |p| {
          assert p[gap + (j - off - gap)] == q[j - off - gap];
        }
      }
    } else {
      var d :| 0 <= d < |q| && gap + d < |p| && p[gap + d] != q[d];
      assert a[off + gap + d] == q[d] && b[off + gap + d] == p[gap + d];
    }
  }

  /** Exactly when two accepted chunks with distinct indices commute, for plaintexts of any length. */
  lemma CommuteExact(s: State, i: nat, p: Bytes, k: nat, q: Bytes)
    requires i < k < |s.mask|
    ensures Place(Place(s, i, p), k, q) == Place(Place(s, k, q), i, p)
       <==> OverlapAgrees(p, (k - i) * CHUNK_SIZE, q)
  {
    var a, b := Place(Place(s, i, p), k, q), Place(Place(s, k, q), i, p);
    assert a.mask == b.mask && a.count == b.count;
    assert i * CHUNK_SIZE + (k - i) * CHUNK_SIZE == k * CHUNK_SIZE;
    WritesCommuteExact(s.file, i * CHUNK_SIZE, p, (k - i) * CHUNK_SIZE, q);
  }

  /** Plaintexts of at most a block always commute. */
  lemma BlocksCommute(s: State, i: nat, p: Bytes, k: nat, q: Bytes)
    requires i < k < |s.mask| && |p| <= CHUNK_SIZE
    ensures Place(Place(s, i, p), k, q) == Place(Place(s, k, q), i, p)
  {
    assert (k - i) * CHUNK_SIZE >= |p|;
    CommuteExact(s, i, p, k, q);
  }

  /** The same for the chunks themselves, whatever sealed them. */
  lemma StepsCommuteExact(ss: Session, s: State, a: Chunk, b: Chunk)
    requires s.Shaped() && a.chunkIndex < b.chunkIndex
    requires Verdict(ss, s.total, a).Ok? && Verdict(ss, s.total, b).Ok?
    ensures Step(ss, Step(ss, s, a), b) == Step(ss, Step(ss, s, b), a)
       <==> OverlapAgrees(Verdict(ss, s.total, a).value, (b.chunkIndex - a.chunkIndex) * CHUNK_SIZE,
                          Verdict(ss, s.total, b).value)
  {
    CommuteExact(s, a.chunkIndex, Verdict(ss, s.total, a).value, b.chunkIndex, Verdict(ss, s.total, b).value);
  }

  /** A plaintext of any length sealed for an index. */
  function SealedChunk(ss: Session, nonce: Nonce, index: u32, p: Bytes): Chunk {
    var e := Sealed(ss, nonce, p);
    Chunk(index, e.nonce, e.ciphertext, e.tag)
  }

  lemma SealedVerdict(ss: Session, nonce: Nonce, total: u32, index: u32, p: Bytes)
    requires LawfulAead(ss.aead) && index < total && |p| <= MAX_INT
    ensures Verdict(ss, total, SealedChunk(ss, nonce, index, p)) == Ok(p)
  {
    assert ss.aead.seal(ss.key, nonce, p) == ss.aead.seal(ss.key, nonce, p);
  }

  /** A sealed chunk one byte longer than a block is accepted and does not commute with the next block's. */
  lemma OversizedDoesNotCommute(ss: Session, nonce: Nonce, s: State, i: u32)
    requires LawfulAead(ss.aead) && s.Shaped() && i + 1 < s.total
    ensures var a := SealedChunk(ss, nonce, i, Zeros(CHUNK_SIZE + 1));
            var b := SealedChunk(ss, nonce, i + 1, [1]);
            && Verdict(ss, s.total, a).Ok? && Verdict(ss, s.total, b).Ok?
            && Step(ss, Step(ss, s, a), b) != Step(ss, Step(ss, s, b), a)
  {
    var p: Bytes := Zeros(CHUNK_SIZE + 1);
    SealedVerdict(ss, nonce, s.total, i, p);
    SealedVerdict(ss, nonce, s.total, i + 1, [1]);
    StepsCommuteExact(ss, s, SealedChunk(ss, nonce, i, p), SealedChunk(ss, nonce, i + 1, [1]));
    assert p[CHUNK_SIZE + 0] != [1][0];
  }
}
