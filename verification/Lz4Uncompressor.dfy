/**
 The loader stub's `Lz4Uncompressor`, with its two running offsets and its destination
 written in place, and the two uses the loader makes of it.  Source and destination may be
 the same memory.
 */
module Lz4Uncompressor {
  import opened Bytes
  import opened Lz4Block
  import opened Lz4Format
  import opened Lz4InPlace
  import opened Lz4Overlap

  datatype Status = Finished | Aborted | Strayed

  ghost predicate Agrees(status: Status, outcome: Outcome) {
    match outcome
    case Done(_, _) => status == Finished
    case Abort => status == Aborted
    case OutOfBounds => status == Strayed
  }

  lemma SpliceNothing(dst: seq<byte>, d: nat)
    requires d <= |dst|
    ensures Splice(dst, d, []) == dst
  {
  }

  lemma SpliceNext(dst: seq<byte>, d: nat, data: seq<byte>, x: byte)
    requires d + |data| < |dst|
    ensures Splice(dst, d, data)[d + |data| := x] == Splice(dst, d, data + [x])
  {
  }

  class Uncompressor {
    const src: array<byte>
    const srcBase: nat
    const srcSize: nat
    var srcOffset: nat
    const dst: array<byte>
    var dstOffset: nat

    constructor (dst: array<byte>, src: array<byte>, srcBase: nat, srcSize: nat)
      requires srcBase + srcSize <= src.Length
      ensures this.src == src && this.srcBase == srcBase && this.srcSize == srcSize && this.dst == dst
      ensures Valid() && srcOffset == 0 && dstOffset == 0
    {
      this.src, this.srcBase, this.srcSize, this.srcOffset := src, srcBase, srcSize, 0;
      this.dst, this.dstOffset := dst, 0;
    }

    ghost predicate Valid()
      reads this
    {
      srcBase + srcSize <= src.Length && srcOffset <= srcSize && dstOffset <= dst.Length
    }

    /** The source as it is now. */
    ghost function Input(): (r: seq<byte>)
      requires srcBase + srcSize <= src.Length
      reads src
      ensures |r| == srcSize
    {
      src[srcBase..srcBase + srcSize]
    }

    method ReadByte() returns (b: byte)
      requires Valid() && srcOffset < srcSize
      modifies this`srcOffset
      ensures Valid() && srcOffset == old(srcOffset) + 1 && b == Input()[old(srcOffset)]
    {
      b := src[srcBase + srcOffset];
      srcOffset := srcOffset + 1;
    }

    predicate CanRead()
      reads this
    {
      srcOffset < srcSize
    }

    method GetCopySize(control: nat) returns (ok: bool, size: nat)
      requires Valid() && control <= 0xF
      modifies this`srcOffset
      ensures Valid() && srcOffset >= old(srcOffset)
      ensures match ReadLength(Input(), old(srcOffset), control)
              case Truncated => !ok
              case Length(n, next) => ok && size == n && srcOffset == next
    {
      size := control;
      ok := true;
      if control >= 0xF {
        var more := true;
        while more
          invariant Valid() && srcOffset >= old(srcOffset)
          invariant more ==> ReadExtension(Input(), old(srcOffset), control) == ReadExtension(Input(), srcOffset, size)
          invariant !more ==> ReadExtension(Input(), old(srcOffset), control) == Length(size, srcOffset)
          decreases srcSize - srcOffset, more
        {
          if !CanRead() {
            ok := false;
            return;
          }
          var next := ReadByte();
          size := size + next;
          more := next == 0xFF;
        }
      }
    }

    /** `memcpy` from the source, byte by byte upwards. */
    method Copy(size: nat, ghost block: seq<byte>)
      requires Valid() && |block| == srcSize && (src != dst ==> block == Input())
      requires srcOffset + size <= srcSize && dstOffset + size <= dst.Length
      modifies this`srcOffset, this`dstOffset, dst
      ensures Valid() && srcOffset == old(srcOffset) + size && dstOffset == old(dstOffset) + size
      ensures dst[..] == CopyLiterals(src == dst, block, srcBase, old(dst[..]), old(srcOffset), old(dstOffset), size)
    {
      hide Splice;
      ghost var was, d, from := dst[..], dstOffset, srcBase + srcOffset;
      SpliceNothing(was, d);
      assert block[srcOffset..srcOffset + 0] == [];
      var k := 0;
      while k < size
        invariant k <= size && srcOffset == old(srcOffset) && dstOffset == old(dstOffset)
        invariant src == dst ==> CopyForward(was, d, d - from, size) == CopyForward(dst[..], d + k, d - from, size - k)
        invariant src != dst ==> Input() == block && dst[..] == Splice(was, d, block[srcOffset..srcOffset + k])
      {
        ghost var now := dst[..];
        ghost var x := src[from + k];
        SpliceNext(was, d, block[srcOffset..srcOffset + k], block[srcOffset + k]);
        dst[dstOffset + k] := src[srcBase + srcOffset + k];
        assert dst[..] == now[d + k := x];
        assert block[srcOffset..srcOffset + k] + [block[srcOffset + k]] == block[srcOffset..srcOffset + k + 1];
        k := k + 1;
      }
      dstOffset := dstOffset + size;
      srcOffset := srcOffset + size;
    }

    /** The wide copy: each byte from `offset` bytes back, which may already be a copied one. */
    method CopyBack(offset: nat, length: nat)
      requires Valid() && offset <= dstOffset && dstOffset + length <= dst.Length
      modifies this`dstOffset, dst
      ensures Valid() && dstOffset == old(dstOffset) + length
      ensures dst[..] == CopyForward(old(dst[..]), old(dstOffset), offset, length)
    {
      var end := dstOffset + length;
      var cur := dstOffset;
      while cur < end
        invariant old(dstOffset) <= cur <= end && dstOffset == cur
        invariant CopyForward(old(dst[..]), old(dstOffset), offset, length) ==
                  CopyForward(dst[..], cur, offset, end - cur)
      {
        ghost var was := dst[..];
        dst[cur] := dst[cur - offset];
        assert dst[..] == was[cur := was[cur - offset]];
        cur := cur + 1;
        dstOffset := cur;
      }
    }

    /** The decode loop, on any bytes, with source and destination apart or in one memory. */
    method Uncompress() returns (status: Status)
      requires Valid() && srcOffset == 0 && dstOffset == 0
      modifies this`srcOffset, this`dstOffset, dst
      ensures var outcome := Decoding(src == dst, old(Input()), srcBase, old(dst[..]), 0, 0);
              Agrees(status, outcome) &&
              (outcome.Done? ==> dst[..] == outcome.dst && dstOffset == outcome.size)
    {
      hide Decoding, DecodingMatch, CopyLiterals, CopyForward, ReadLength, Wide;
      ghost var block, shared := Input(), src == dst;
      ghost var outcome := Decoding(shared, block, srcBase, dst[..], 0, 0);
      while true
        invariant Valid() && (!shared ==> Input() == block)
        invariant Decoding(shared, block, srcBase, dst[..], srcOffset, dstOffset) == outcome
        decreases srcSize - srcOffset
      {
        ghost var i, d, mem := srcOffset, dstOffset, dst[..];
        FirstHalf(shared, block, srcBase, mem, i, d);
        assert Source(shared, block, srcBase, mem) == Input();
        if !CanRead() { return Strayed; }
        var control := ReadByte();

        var ok, size := GetCopySize(control / 16);
        if !ok { return Aborted; }
        if srcOffset + size > srcSize || dstOffset + size > dst.Length { return Strayed; }
        Copy(size, block);

        if srcOffset >= srcSize { return Finished; }

        ghost var k, e, mem' := srcOffset, dstOffset, dst[..];
        assert Source(shared, block, srcBase, mem') == Input();
        var low := ReadByte();
        if !CanRead() { return Aborted; }
        SecondHalf(shared, block, srcBase, mem', k, e, control % 16);
        var high := ReadByte();
        var offset := Wide(low, high);

        ok, size := GetCopySize(control % 16);
        if !ok || offset > dstOffset { return Aborted; }
        if dstOffset + size + 4 > dst.Length { return Strayed; }
        CopyBack(offset, size + 4);
      }
    }
  }

  /** The cases of an iteration up to the end of its literals. */
  lemma FirstHalf(shared: bool, block: seq<byte>, base: nat, mem: seq<byte>, i: nat, d: nat)
    requires (shared ==> base + |block| <= |mem|) && d <= |mem|
    ensures i >= |block| ==> Decoding(shared, block, base, mem, i, d) == OutOfBounds
    ensures i < |block| ==>
              var src := Source(shared, block, base, mem);
              var read := ReadLength(src, i + 1, src[i] / 16);
              if read.Truncated? then Decoding(shared, block, base, mem, i, d) == Abort
              else if read.next + read.size > |block| || d + read.size > |mem| then
                Decoding(shared, block, base, mem, i, d) == OutOfBounds
              else
                var mem' := CopyLiterals(shared, block, base, mem, read.next, d, read.size);
                var k := read.next + read.size;
                Decoding(shared, block, base, mem, i, d) ==
                if k == |block| then Done(mem', d + read.size)
                else if k + 1 == |block| then Abort
                else DecodingMatch(shared, block, base, mem', k, d + read.size, src[i] % 16)
  {
    hide ReadLength, CopyLiterals, DecodingMatch, Source;
  }

  lemma SecondHalf(shared: bool, block: seq<byte>, base: nat, mem: seq<byte>, k: nat, d: nat, nibble: nat)
    requires (shared ==> base + |block| <= |mem|) && d <= |mem| && k + 2 <= |block|
    ensures var src := Source(shared, block, base, mem);
            var read, offset := ReadLength(src, k + 2, nibble), Wide(src[k], src[k + 1]);
            if read.Truncated? || offset > d then DecodingMatch(shared, block, base, mem, k, d, nibble) == Abort
            else if d + read.size + 4 > |mem| then DecodingMatch(shared, block, base, mem, k, d, nibble) == OutOfBounds
            else
              DecodingMatch(shared, block, base, mem, k, d, nibble) ==
              Decoding(shared, block, base, CopyForward(mem, d, offset, read.size + 4), read.next, d + read.size + 4)
  {
    hide ReadLength, Decoding, CopyForward, Source, Wide;
  }

  // ----- the two uses the loader makes of it

  /** The program image is decoded into a region of its own. */
  method UncompressProgram(region: array<byte>, image: array<byte>, ghost b: Block, ghost hint: nat)
    requires region != image
    requires Complete(b) && hint <= 15 && image[..] == Encode(b, hint)
    requires NonZeroOffsets(b) && InReach(b, 0) && Size(b) <= region.Length
    modifies region
    ensures region[..] == Meaning(b, []) + old(region[..])[Size(b)..]
  {
    hide Parse, Encode, Execute, Meaning, Complete, Roomy, InReach, NonZeroOffsets, Size, Decoding;
    RoundTrip(b, hint, region[..]);
    assert image[0..image.Length] == image[..];
    ApartIsDecode(image[..], 0, region[..], 0, 0);
    var u := new Uncompressor(region, image, 0, image.Length);
    var status := u.Uncompress();
  }

  /**
   The boot image is first moved to the end of the region it is decoded into, then decoded
   over itself.  The region has to be longer than the output by a margin that is never more than
   the 255th part of the image and two bytes.
   */
  method UncompressBootCode(region: array<byte>, image: array<byte>, ghost b: Block, ghost hint: nat)
    requires region != image
    requires Complete(b) && hint <= 15 && image[..] == Encode(b, hint)
    requires NonZeroOffsets(b) && InReach(b, 0) && Size(b) + Literals(b) / 255 + 2 <= region.Length
    modifies region
    ensures region[..Size(b)] == Meaning(b, [])
  {
    hide Parse, Encode, Execute, Meaning, Complete, Roomy, InReach, NonZeroOffsets, Size, Decoding;
    EncodedLengthIsLength(b, hint);
    Expansion(b);
    var base := region.Length - image.Length;
    forall k | 0 <= k < image.Length {
      region[base + k] := image[k];
    }
    assert region[base..region.Length] == image[..];

    RoundTrip(b, hint, region[..]);
    assert image[..] == image[..][0..];
    ParseEncoded(b, hint, image[..], 0);
    MarginSuffices(b, 0, region.Length);
    RoomedIsDecode(image[..], base, region[..], 0, 0);
    var u := new Uncompressor(region, region, base, image.Length);
    var status := u.Uncompress();
  }
}
