/**
 The LZ4 block decoder as functions on values: what the loader stub's `Lz4Uncompressor`
 reads from its source and writes to its destination region, for every byte string.

 A failed `AMS_ABORT_UNLESS` is an abort; an access that the C++ code performs without a
 check, outside the block or outside the region, is out of bounds.
 */
module Lz4Block {
  import opened Bytes

  type Offset = x: int | 0 <= x < 0x1_0000
  type MatchLength = x: int | 4 <= x witness 4

  datatype Length = Length(size: nat, next: nat) | Truncated

  /** The do-while loop of `GetCopySize`: add bytes until one differs from 0xFF. */
  function ReadExtension(src: seq<byte>, i: nat, size: nat): (r: Length)
    requires i <= |src|
    ensures r.Length? ==> i < r.next <= |src| && size <= r.size
    decreases |src| - i
  {
    if i == |src| then Truncated
    else if src[i] == 0xFF then ReadExtension(src, i + 1, size + 0xFF)
    else Length(size + src[i], i + 1)
  }

  function ReadLength(src: seq<byte>, i: nat, nibble: nat): (r: Length)
    requires i <= |src|
    ensures r.Length? ==> i <= r.next <= |src|
  {
    if nibble >= 0xF then ReadExtension(src, i, nibble) else Length(nibble, i)
  }

  /** Little-endian 16-bit value. */
  function Wide(lo: byte, hi: byte): Offset {
    lo as int + 256 * hi as int
  }

  /**
   What the decode loop reads: literals followed by a match, again and again, until a last
   sequence of literals only.  The other constructors say where a malformed block stops it.
   */
  datatype Block =
    | Tail(literals: seq<byte>)
    | Entry(literals: seq<byte>, offset: Offset, length: MatchLength, rest: Block)
    | NoToken
    | BadLiterals
    | LiteralsOutside
    | BadMatch(literals: seq<byte>)

  /** The reads of the loop from offset `i`. Every iteration consumes source, so it ends. */
  function Parse(src: seq<byte>, i: nat): (r: Block)
    decreases if i < |src| then |src| - i else 0, 1
  {
    if i >= |src| then NoToken else
    match ReadLength(src, i + 1, src[i] / 16)
    case Truncated => BadLiterals
    case Length(n, j) =>
      if j + n > |src| then LiteralsOutside
      else if j + n == |src| then Tail(src[j..])
      else if j + n + 1 == |src| then BadMatch(src[j..j + n])
      else ParseMatch(src, j + n, src[j..j + n], src[i] % 16)
  }

  function ParseMatch(src: seq<byte>, k: nat, literals: seq<byte>, nibble: nat): (r: Block)
    requires k + 2 <= |src|
    decreases |src| - k, 0
  {
    match ReadLength(src, k + 2, nibble)
    case Truncated => BadMatch(literals)
    case Length(size, next) => Entry(literals, Wide(src[k], src[k + 1]), size + 4, Parse(src, next))
  }

  function Splice(dst: seq<byte>, d: nat, data: seq<byte>): (r: seq<byte>)
    requires d + |data| <= |dst|
    ensures |r| == |dst|
  {
    dst[..d] + data + dst[d + |data|..]
  }

  /** A byte-by-byte copy of `n` bytes upwards from `offset` bytes back, or ahead if it is negative. */
  function CopyForward(dst: seq<byte>, d: nat, offset: int, n: nat): (r: seq<byte>)
    requires offset <= d && d + n <= |dst| && d - offset + n <= |dst|
    ensures |r| == |dst|
    decreases n
  {
    if n == 0 then dst else CopyForward(dst[d := dst[d - offset]], d + 1, offset, n - 1)
  }

  datatype Outcome = Done(dst: seq<byte>, size: nat) | Abort | OutOfBounds

  /** The writes of the loop, into the region `dst` from offset `d`. */
  function Execute(b: Block, dst: seq<byte>, d: nat): (r: Outcome)
    requires d <= |dst|
    ensures r.Done? ==> |r.dst| == |dst| && d <= r.size <= |dst|
    decreases b
  {
    match b
    case NoToken => OutOfBounds
    case BadLiterals => Abort
    case LiteralsOutside => OutOfBounds
    case BadMatch(literals) => if d + |literals| > |dst| then OutOfBounds else Abort
    case Tail(literals) =>
      if d + |literals| > |dst| then OutOfBounds
      else Done(Splice(dst, d, literals), d + |literals|)
    case Entry(literals, offset, length, rest) =>
      var e := d + |literals|;
      if e > |dst| then OutOfBounds
      else if offset > e then Abort
      else if e + length > |dst| then OutOfBounds
      else Execute(rest, CopyForward(Splice(dst, d, literals), e, offset, length), e + length)
  }

  function Decode(src: seq<byte>, dst: seq<byte>): Outcome {
    Execute(Parse(src, 0), dst, 0)
  }
}
