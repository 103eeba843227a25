/** Files on disk and the streams that read and write them. Opens and writes succeed. */
module Files {
  import opened Base

  function Min(a: nat, b: nat): nat {
    if a <= b then a else b
  }

  function Max(a: nat, b: nat): nat {
    if a <= b then b else a
  }

  function Zeros(n: nat): Bytes {
    seq(n, _ => 0)
  }

  /** A file after writing data at an offset: a gap reads as zeros, an empty write changes nothing. */
  function WriteAt(file: Bytes, off: nat, data: Bytes): (r: Bytes)
    ensures |r| == if data == [] then |file| else Max(|file|, off + |data|)
    ensures forall j | 0 <= j < |r| ::
              r[j] == if off <= j < off + |data| then data[j - off] else if j < |file| then file[j] else 0
  {
    seq(if data == [] then |file| else Max(|file|, off + |data|), j requires 0 <= j =>
        if off <= j < off + |data| then data[j - off] else if j < |file| then file[j] else 0)
  }

  /** Conversion of an unsigned 64-bit value to std::streamoff. */
  function ToStreamOff(v: u64): int {
    if v <= MAX_STREAMOFF then v else v - U64_LIMIT
  }

  class File {
    var contents: Bytes

    constructor (contents: Bytes)
      ensures this.contents == contents
    {
      this.contents := contents;
    }
  }

  /** std::ifstream over a file that nobody changes meanwhile. */
  class InStream {
    const contents: Bytes
    var pos: nat
    var good: bool

    constructor (file: File)
      ensures contents == file.contents && pos == 0 && good
    {
      contents := file.contents;
      pos, good := 0, true;
    }

    /** Reads up to buf.Length bytes; a short read sets eofbit and failbit. The result is gcount(). */
    method Read(buf: array<u8>) returns (n: nat)
      requires pos <= |contents|
      modifies this, buf
      ensures n == if old(good) then Min(buf.Length, |contents| - old(pos)) else 0
      ensures pos == old(pos) + n && pos <= |contents|
      ensures good == (old(good) && n == buf.Length)
      ensures buf[..n] == contents[old(pos)..pos]
      ensures buf[n..] == old(buf[n..])
    {
      n := if good then Min(buf.Length, |contents| - pos) else 0;
      forall j | 0 <= j < n {
        buf[j] := contents[pos + j];
      }
      pos := pos + n;
      good := good && n == buf.Length;
    }
  }

  /** An output stream on an existing file. */
  class OutStream {
    const file: File
    var pos: nat
    var fail: bool

    constructor (file: File)
      ensures this.file == file && pos == 0 && !fail
    {
      this.file := file;
      pos, fail := 0, false;
    }

    method Seekp(off: int)
      modifies this
      ensures fail == (old(fail) || off < 0)
      ensures pos == if fail then old(pos) else off
    {
      if off < 0 {
        fail := true;
      }
      if !fail {
        pos := off;
      }
    }

    method Write(data: Bytes)
      modifies this, file
      ensures fail == old(fail)
      ensures file.contents == if fail then old(file.contents) else WriteAt(old(file.contents), old(pos), data)
      ensures pos == if fail then old(pos) else old(pos) + |data|
    {
      if !fail && data != [] {
        var f := file.contents;
        if |f| < pos {
          f := f + Zeros(pos - |f|);
        }
        file.contents := f[..pos] + data + f[Min(pos + |data|, |f|)..];
        pos := pos + |data|;
        assert file.contents == WriteAt(old(file.contents), old(pos), data);
      }
    }
  }
}
