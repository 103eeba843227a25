/** Fixed-width integers, byte strings, results and the constants of the protocol. */
module Base {
  type u8 = x: int | 0 <= x < 0x100
  type u32 = x: int | 0 <= x < 0x1_0000_0000
  type u64 = x: int | 0 <= x < 0x1_0000_0000_0000_0000

  type Bytes = seq<u8>

  /** Number of plaintext bytes in every chunk but the last. */
  const CHUNK_SIZE: nat := 16384

  const PROTOCOL_VERSION: u8 := 1
  const HEADER_SIZE: nat := 6
  const CHUNK_MESSAGE: u8 := 6

  const U32_LIMIT: nat := 0x1_0000_0000
  const U64_LIMIT: nat := 0x1_0000_0000_0000_0000

  /** The largest std::streamoff. */
  const MAX_STREAMOFF: nat := 0x7FFF_FFFF_FFFF_FFFF

  /** The largest buffer in which adding a 32-bit length to an offset cannot wrap a 64-bit size_t. */
  const MAX_BUFFER: nat := U64_LIMIT - U32_LIMIT

  /** The largest file whose number of chunks fits in 32 bits: (2^32 - 1) * 16384 bytes. */
  const MAX_FILE: nat := 0x3FFF_FFFF_C000

  datatype Option<+T> = None | Some(value: T)

  /** What a call that throws std::runtime_error throws. */
  datatype Error =
    | FileNotFound
    | CannotOpenFile
    | TruncatedLengthPrefix
    | TruncatedPayload
    | TruncatedFileSize
    | TruncatedTotalChunks
    | TruncatedChunkIndex
    | HeaderTooShort
    | VersionMismatch
    | UnexpectedType
    | BadNonceSize
    | BadTagSize
    | AuthenticationFailed
    | IndexOutOfRange

  datatype Result<+T> = Ok(value: T) | Err(error: Error) {
    predicate IsFailure() { Err? }

    function PropagateFailure<U>(): Result<U>
      requires Err?
    {
      Err(error)
    }

    function Extract(): T
      requires Ok?
    {
      value
    }
  }

  /** static_cast<uint32_t> of an unsigned value. */
  function ToU32(n: nat): (r: u32)
    ensures n < U32_LIMIT <==> r == n
  {
    n % U32_LIMIT
  }

  /** Truncation to uint64_t. */
  function ToU64(n: nat): (r: u64)
    ensures n < U64_LIMIT <==> r == n
  {
    n % U64_LIMIT
  }

  /** size_t addition, which wraps at 2^64. */
  function SizeAdd(a: nat, b: nat): (r: u64)
    ensures a + b < U64_LIMIT <==> r == a + b
  {
    ToU64(a + b)
  }
}
