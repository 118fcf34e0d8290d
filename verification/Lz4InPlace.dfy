/**
 Decoding a block over itself: how much room behind the output keeps the writes of the
 decoder away from the source bytes it has not read yet.
 */
module Lz4InPlace {
  import opened Bytes
  import opened Lz4Block
  import opened Lz4Format

  function ExtraLength(n: nat): nat {
    if n < 15 then 0 else (n - 15) / 255 + 1
  }

  function EncodedLength(b: Block): nat
    requires Complete(b)
  {
    match b
    case Tail(literals) => 1 + ExtraLength(|literals|) + |literals|
    case Entry(literals, _, length, rest) =>
      3 + ExtraLength(|literals|) + |literals| + ExtraLength(length - 4) + EncodedLength(rest)
  }

  lemma {:induction false} EncodedLengthIsLength(b: Block, hint: nat)
    requires Complete(b) && hint <= 15
    ensures |Encode(b, hint)| == EncodedLength(b)
    decreases b
  {
    match b
    case Tail(_) =>
    case Entry(_, _, _, rest) => EncodedLengthIsLength(rest, hint);
  }

  /**
   The block is decoded at `d` in a memory whose offset `end` is the end of the encoded
   block: after every match the output stops short of the bytes still to be read.
   */
  predicate Roomy(b: Block, d: nat, end: nat)
    requires Complete(b)
  {
    b.Entry? ==>
      var d' := d + |b.literals| + b.length;
      d' + EncodedLength(b.rest) <= end && Roomy(b.rest, d', end)
  }

  function Literals(b: Block): nat
    requires Complete(b)
  {
    match b
    case Tail(literals) => |literals|
    case Entry(literals, _, _, rest) => |literals| + Literals(rest)
  }

  /** A block is hardly longer than its output: only literal runs cost more than they yield. */
  lemma {:induction false} Expansion(b: Block)
    requires Complete(b)
    ensures EncodedLength(b) <= Size(b) + Literals(b) / 255 + 2
    ensures Literals(b) <= EncodedLength(b)
    decreases b
  {
    match b
    case Tail(_) =>
    case Entry(_, _, _, rest) => Expansion(rest);
  }

  /** The margin: one byte for every 255 literals, and two more. */
  lemma {:induction false} MarginSuffices(b: Block, d: nat, end: nat)
    requires Complete(b) && d + Size(b) + Literals(b) / 255 + 2 <= end
    ensures Roomy(b, d, end)
    decreases b
  {
    match b
    case Tail(_) =>
    case Entry(literals, _, length, rest) =>
      Expansion(rest);
      MarginSuffices(rest, d + |literals| + length, end);
  }
}
