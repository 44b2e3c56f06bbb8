/** Byte-level vocabulary shared by the header codec, the member-stream codec and the
    package facade: bytes, 16-bit words in little-endian order, the wire constants and
    the errors the codec returns. */
module Wire {

  /** A Go `byte` (uint8). */
  type byte = x: int | 0 <= x < 0x100

  /** A Go `uint16`. */
  type uint16 = x: int | 0 <= x < 0x1_0000

  /** Length of the fixed header: message id, declared size, two trailer bytes. */
  const HeadLen: nat := 6

  /** The trailer that closes every header, as one little-endian word and as its two bytes. */
  const HeadTail: uint16 := 0x1F9E
  const HeadTail1: byte := 0x9E
  const HeadTail2: byte := 0x1F

  /** The largest payload the format can declare. */
  const MaxLength: nat := 65535

  datatype Option<+T> = None | Some(value: T)

  datatype Result<+T, +E> = Ok(value: T) | Err(error: E)

  /** The errors of the codec. `EOF` and `UnexpectedEOF` are the two errors a full read
      reports when the stream ends early: `EOF` when no byte at all was available,
      `UnexpectedEOF` when some but not enough were. */
  datatype Error =
    | EOF
    | UnexpectedEOF
      /** the trailer of a header is not 0x9E 0x1F; carries the header bytes */
    | HeadMismatch(head: seq<byte>)
      /** a member announces more value bytes than the payload has left */
    | MemberTruncated
      /** the members would need more payload bytes than a header can declare */
    | SizeOverflow(size: nat)
      /** a conventional accessor found its key absent */
    | MissingMember(key: byte)
      /** the writer accepted fewer bytes than it was given */
    | ShortWrite

  /** The error of a full read of a field that found only `available` bytes. */
  function ReadError(available: nat): (e: Error)
    ensures e == EOF <==> available == 0
    ensures e == EOF || e == UnexpectedEOF
  {
    if available == 0 then EOF else UnexpectedEOF
  }

  function Min(a: int, b: int): int {
    if a <= b then a else b
  }

  /** The two bytes of `x`, low byte first. */
  function Le16(x: uint16): (r: seq<byte>)
    ensures |r| == 2
    ensures Le16Value(r[0], r[1]) == x
  {
    [x % 0x100, x / 0x100]
  }

  /** The word whose little-endian bytes are `lo`, `hi`. */
  function Le16Value(lo: byte, hi: byte): (x: uint16)
    ensures x % 0x100 == lo && x / 0x100 == hi
  {
    lo + 0x100 * hi
  }

  /** Decoding then encoding a little-endian word gives back its two bytes. */
  lemma Le16OfValue(lo: byte, hi: byte)
    ensures Le16(Le16Value(lo, hi)) == [lo, hi]
  {
  }
}
