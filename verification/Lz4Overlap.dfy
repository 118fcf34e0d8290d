/**
 The decode loop step by step on memory, source and destination either apart or in one memory.
 Apart it is the decoder of `Lz4Block`; in one memory it is so too if the block leaves room, and
 not in general with one byte less.
 */
module Lz4Overlap {
  import opened Arithmetic
  import opened Bytes
  import opened Lz4Block
  import opened Lz4Format
  import opened Lz4InPlace

  /** The bytes the loop reads: those of the memory at `base` when it is shared. */
  function Source(shared: bool, block: seq<byte>, base: nat, mem: seq<byte>): (r: seq<byte>)
    requires shared ==> base + |block| <= |mem|
    ensures |r| == |block|
  {
    if shared then mem[base..base + |block|] else block
  }

  function CopyLiterals(shared: bool, block: seq<byte>, base: nat, mem: seq<byte>, j: nat, d: nat, n: nat)
    : (r: seq<byte>)
    requires (shared ==> base + |block| <= |mem|) && j + n <= |block| && d + n <= |mem|
    ensures |r| == |mem|
  {
    if shared then CopyForward(mem, d, d - (base + j), n) else Splice(mem, d, block[j..j + n])
  }

  /** The loop from source offset `i` and destination offset `d`. */
  function Decoding(shared: bool, block: seq<byte>, base: nat, mem: seq<byte>, i: nat, d: nat): Outcome
    requires (shared ==> base + |block| <= |mem|) && d <= |mem|
    decreases if i < |block| then |block| - i else 0, 1
  {
    if i >= |block| then OutOfBounds else
    var src := Source(shared, block, base, mem);
    match ReadLength(src, i + 1, src[i] / 16)
    case Truncated => Abort
    case Length(n, j) =>
      if j + n > |block| || d + n > |mem| then OutOfBounds
      else
        var mem' := CopyLiterals(shared, block, base, mem, j, d, n);
        if j + n == |block| then Done(mem', d + n)
        else if j + n + 1 == |block| then Abort
        else DecodingMatch(shared, block, base, mem', j + n, d + n, src[i] % 16)
  }

  /** The rest of an iteration, from the match offset on. */
  function DecodingMatch(shared: bool, block: seq<byte>, base: nat, mem: seq<byte>, k: nat, d: nat, nibble: nat)
    : Outcome
    requires (shared ==> base + |block| <= |mem|) && d <= |mem| && k + 2 <= |block|
    decreases |block| - k, 0
  {
    var src := Source(shared, block, base, mem);
    match ReadLength(src, k + 2, nibble)
    case Truncated => Abort
    case Length(size, next) =>
      var offset := Wide(src[k], src[k + 1]);
      if offset > d then Abort
      else if d + size + 4 > |mem| then OutOfBounds
      else Decoding(shared, block, base, CopyForward(mem, d, offset, size + 4), next, d + size + 4)
  }

  // ----- apart

  /** One iteration of the decode loop, read off the block and the region. */
  lemma Iteration(block: seq<byte>, i: nat, dst: seq<byte>, d: nat)
    requires d <= |dst|
    ensures i >= |block| ==> Execute(Parse(block, i), dst, d) == OutOfBounds
    ensures i < |block| ==>
              match ReadLength(block, i + 1, block[i] / 16)
              case Truncated => Execute(Parse(block, i), dst, d) == Abort
              case Length(n, j) =>
                if j + n > |block| || d + n > |dst| then Execute(Parse(block, i), dst, d) == OutOfBounds
                else if j + n == |block| then
                  Execute(Parse(block, i), dst, d) == Done(Splice(dst, d, block[j..j + n]), d + n)
                else if j + n + 1 == |block| then Execute(Parse(block, i), dst, d) == Abort
                else
                  Execute(Parse(block, i), dst, d) ==
                  AtMatch(block, j + n, block[i] % 16, Splice(dst, d, block[j..j + n]), d + n)
  {
    hide ReadLength, Splice, CopyForward, ParseMatch, AtMatch;
    if i < |block| {
      match ReadLength(block, i + 1, block[i] / 16)
      case Truncated =>
      case Length(n, j) =>
        if j + n == |block| { assert block[j..] == block[j..j + n]; }
        if j + n + 2 <= |block| { MatchIteration(block, j + n, block[j..j + n], block[i] % 16, dst, d); }
    }
  }

  lemma MatchIteration(block: seq<byte>, k: nat, literals: seq<byte>, nibble: nat, dst: seq<byte>, d: nat)
    requires k + 2 <= |block| && d <= |dst|
    ensures Execute(ParseMatch(block, k, literals, nibble), dst, d) ==
            if d + |literals| > |dst| then OutOfBounds
            else AtMatch(block, k, nibble, Splice(dst, d, literals), d + |literals|)
  {
    hide ReadLength, Splice, CopyForward, Parse, Wide;
  }

  /** The rest of an iteration, from the match offset on. */
  ghost function AtMatch(block: seq<byte>, k: nat, nibble: nat, dst: seq<byte>, d: nat): Outcome
    requires k + 2 <= |block| && d <= |dst|
  {
    match ReadLength(block, k + 2, nibble)
    case Truncated => Abort
    case Length(size, next) =>
      var offset := Wide(block[k], block[k + 1]);
      if offset > d then Abort
      else if d + size + 4 > |dst| then OutOfBounds
      else Execute(Parse(block, next), CopyForward(dst, d, offset, size + 4), d + size + 4)
  }

  /** Source and destination apart: the decoder on values. */
  lemma {:induction false} ApartIsDecode(block: seq<byte>, base: nat, mem: seq<byte>, i: nat, d: nat)
    requires d <= |mem|
    ensures Decoding(false, block, base, mem, i, d) == Execute(Parse(block, i), mem, d)
    decreases if i < |block| then |block| - i else 0, 1
  {
    hide Execute, Parse, Splice, ReadLength, DecodingMatch;
    Iteration(block, i, mem, d);
    if i >= |block| {
    } else {
      match ReadLength(block, i + 1, block[i] / 16)
      case Truncated =>
      case Length(n, j) =>
        if j + n + 2 <= |block| && d + n <= |mem| {
          ApartIsMatch(block, base, Splice(mem, d, block[j..j + n]), j + n, d + n, block[i] % 16);
        }
    }
  }

  lemma {:induction false} ApartIsMatch(block: seq<byte>, base: nat, mem: seq<byte>, k: nat, d: nat, nibble: nat)
    requires d <= |mem| && k + 2 <= |block|
    ensures DecodingMatch(false, block, base, mem, k, d, nibble) == AtMatch(block, k, nibble, mem, d)
    decreases |block| - k, 0
  {
    hide Execute, Parse, ReadLength, Decoding, CopyForward, Wide;
    match ReadLength(block, k + 2, nibble)
    case Truncated =>
    case Length(size, next) =>
      var offset := Wide(block[k], block[k + 1]);
      if offset <= d && d + size + 4 <= |mem| {
        ApartIsDecode(block, base, CopyForward(mem, d, offset, size + 4), next, d + size + 4);
      }
  }

  // ----- in one memory, with room

  /** In a roomy block, the output after an entry ends before the next unread byte. */
  lemma RoomAfterEntry(block: seq<byte>, i: nat, d: nat, end: nat, n: nat, j: nat, size: nat, next: nat)
    requires Complete(Parse(block, i)) && Roomy(Parse(block, i), d, end) && i < |block| <= end
    requires ReadLength(block, i + 1, block[i] / 16) == Length(n, j) && j + n + 2 <= |block|
    requires ReadLength(block, j + n + 2, block[i] % 16) == Length(size, next)
    ensures var d' := d + n + size + 4;
            d' <= end - |block| + next && Complete(Parse(block, next)) && Roomy(Parse(block, next), d', end)
  {
    hide ReadLength, EncodedLength, Encode;
    assert Parse(block, i).Entry? && Parse(block, i).rest == Parse(block, next);
    var hint := EncodeParsed(block, next);
    EncodedLengthIsLength(Parse(block, next), hint);
  }

  /** The memory holds the block from offset `i` on. */
  ghost predicate Unread(block: seq<byte>, base: nat, mem: seq<byte>, i: nat) {
    base + |block| <= |mem| && forall k :: i <= k < |block| ==> mem[base + k] == block[k]
  }

  lemma {:induction false} SameExtension(a: seq<byte>, b: seq<byte>, i: nat, size: nat)
    requires |a| == |b| && i <= |a| && forall k :: i <= k < |a| ==> a[k] == b[k]
    ensures ReadExtension(a, i, size) == ReadExtension(b, i, size)
    decreases |a| - i
  {
    if i == |a| {
    } else {
      SameExtension(a, b, i + 1, size + 0xFF);
    }
  }

  lemma SameLength(block: seq<byte>, base: nat, mem: seq<byte>, i: nat, nibble: nat)
    requires Unread(block, base, mem, i) && i <= |block|
    ensures ReadLength(Source(true, block, base, mem), i, nibble) == ReadLength(block, i, nibble)
  {
    SameExtension(Source(true, block, base, mem), block, i, nibble);
  }

  /** Copying bytes that lie ahead puts them where they are wanted. */
  lemma {:induction false} CopyAhead(mem: seq<byte>, from: nat, d: nat, data: seq<byte>)
    requires d <= from && from + |data| <= |mem| && mem[from..from + |data|] == data
    ensures CopyForward(mem, d, d - from, |data|) == Splice(mem, d, data)
    decreases |data|
  {
    if data == [] {
    } else {
      var mem', rest := mem[d := data[0]], data[1..];
      assert mem[from] == mem[from..from + |data|][0] == data[0];
      assert mem'[from + 1..from + |data|] == mem[from..from + |data|][1..] == rest;
      CopyAhead(mem', from + 1, d + 1, rest);
      assert Splice(mem', d + 1, rest) == Splice(mem, d, data);
    }
  }

  lemma LiteralsAhead(block: seq<byte>, base: nat, mem: seq<byte>, j: nat, d: nat, n: nat)
    requires Unread(block, base, mem, j) && j + n <= |block| && d <= base + j
    ensures CopyLiterals(true, block, base, mem, j, d, n) == Splice(mem, d, block[j..j + n])
    ensures Unread(block, base, Splice(mem, d, block[j..j + n]), j + n)
  {
    assert mem[base + j..base + j + n] == block[j..j + n];
    CopyAhead(mem, base + j, d, block[j..j + n]);
  }

  lemma MatchBehind(block: seq<byte>, base: nat, mem: seq<byte>, d: nat, offset: nat, n: nat, next: nat)
    requires Unread(block, base, mem, next) && offset <= d && d + n <= base + next && next <= |block|
    ensures Unread(block, base, CopyForward(mem, d, offset, n), next)
  {
    CopyMatchFrame(mem, d, offset, n);
  }

  /** What an iteration in one memory needs: unread source, and room for all that follows. */
  ghost predicate Roomed(block: seq<byte>, base: nat, mem: seq<byte>, i: nat, d: nat) {
    && Unread(block, base, mem, i) && d <= base + i && d <= |mem|
    && Complete(Parse(block, i)) && Roomy(Parse(block, i), d, base + |block|)
  }

  /** In one memory with room: the same, nothing unread being overwritten. */
  lemma {:induction false} RoomedIsDecode(block: seq<byte>, base: nat, mem: seq<byte>, i: nat, d: nat)
    requires Roomed(block, base, mem, i, d)
    ensures Decoding(true, block, base, mem, i, d) == Execute(Parse(block, i), mem, d)
    decreases if i < |block| then |block| - i else 0, 2
  {
    hide Execute, Parse, Splice, ReadLength, DecodingMatch, CopyLiterals, Complete, Roomy, CopyForward;
    Iteration(block, i, mem, d);
    if i >= |block| {
    } else {
      SameLength(block, base, mem, i + 1, block[i] / 16);
      match ReadLength(block, i + 1, block[i] / 16)
      case Truncated =>
      case Length(n, j) =>
        if j + n <= |block| && d + n <= |mem| {
          LiteralsAhead(block, base, mem, j, d, n);
          if j + n + 2 <= |block| { RoomedIsMatch(block, base, mem, i, d, j, n, Splice(mem, d, block[j..j + n])); }
        }
    }
  }

  lemma NextWithin(block: seq<byte>, i: nat, nibble: nat)
    requires i <= |block|
    ensures var r := ReadLength(block, i, nibble); r.Length? ==> i <= r.next <= |block|
  {
  }

  /** An iteration with room is followed by one with room. */
  lemma RoomedNext(block: seq<byte>, base: nat, mem: seq<byte>, i: nat, d: nat, n: nat, j: nat, size: nat, next: nat,
                   mem': seq<byte>, offset: nat)
    requires Roomed(block, base, mem, i, d) && i < |block| && ReadLength(block, i + 1, block[i] / 16) == Length(n, j)
    requires j + n + 2 <= |block| && ReadLength(block, j + n + 2, block[i] % 16) == Length(size, next)
    requires Unread(block, base, mem', j + n) && |mem'| == |mem| && offset <= d + n && d + n + size + 4 <= |mem|
    ensures Roomed(block, base, CopyForward(mem', d + n, offset, size + 4), next, d + n + size + 4)
  {
    hide Parse, ReadLength, Complete, Roomy, CopyForward;
    RoomAfterEntry(block, i, d, base + |block|, n, j, size, next);
    NextWithin(block, j + n + 2, block[i] % 16);
    MatchBehind(block, base, mem', d + n, offset, size + 4, next);
  }

  /** The cases of the second half of an iteration. */
  lemma ReadsMatch(block: seq<byte>, base: nat, mem: seq<byte>, k: nat, d: nat, nibble: nat, read: Length,
                   offset: Offset)
    requires base + |block| <= |mem| && k + 2 <= |block| && d <= |mem|
    requires var src := Source(true, block, base, mem);
             read == ReadLength(src, k + 2, nibble) && offset == Wide(src[k], src[k + 1])
    ensures read.Truncated? || offset > d ==> DecodingMatch(true, block, base, mem, k, d, nibble) == Abort
    ensures read.Length? && offset <= d && d + read.size + 4 > |mem| ==>
              DecodingMatch(true, block, base, mem, k, d, nibble) == OutOfBounds
    ensures read.Length? && offset <= d && d + read.size + 4 <= |mem| ==>
              DecodingMatch(true, block, base, mem, k, d, nibble) ==
              Decoding(true, block, base, CopyForward(mem, d, offset, read.size + 4), read.next, d + read.size + 4)
  {
    hide ReadLength, Decoding, Wide, CopyForward, Source;
  }

  lemma SourceAgrees(block: seq<byte>, base: nat, mem: seq<byte>, k: nat, nibble: nat)
    requires Unread(block, base, mem, k) && k + 2 <= |block|
    ensures base + |block| <= |mem|
    ensures var src := Source(true, block, base, mem);
            src[k] == block[k] && src[k + 1] == block[k + 1] &&
            ReadLength(src, k + 2, nibble) == ReadLength(block, k + 2, nibble)
  {
    SameLength(block, base, mem, k + 2, nibble);
  }

  lemma MeansMatch(block: seq<byte>, mem: seq<byte>, k: nat, d: nat, nibble: nat, read: Length, offset: Offset)
    requires k + 2 <= |block| && d <= |mem|
    requires read == ReadLength(block, k + 2, nibble) && offset == Wide(block[k], block[k + 1])
    ensures read.Truncated? || offset > d ==> AtMatch(block, k, nibble, mem, d) == Abort
    ensures read.Length? && offset <= d && d + read.size + 4 > |mem| ==>
              AtMatch(block, k, nibble, mem, d) == OutOfBounds
    ensures read.Length? && offset <= d && d + read.size + 4 <= |mem| ==>
              AtMatch(block, k, nibble, mem, d) ==
              Execute(Parse(block, read.next), CopyForward(mem, d, offset, read.size + 4), d + read.size + 4)
  {
    hide ReadLength, Execute, Parse, Wide, CopyForward;
  }

  lemma {:induction false} RoomedIsMatch(block: seq<byte>, base: nat, mem: seq<byte>, i: nat, d: nat, j: nat, n: nat,
                                         mem': seq<byte>)
    requires Roomed(block, base, mem, i, d) && i < |block| && ReadLength(block, i + 1, block[i] / 16) == Length(n, j)
    requires j + n + 2 <= |block| && d + n <= |mem| == |mem'| && Unread(block, base, mem', j + n)
    ensures base + |block| <= |mem|
    ensures DecodingMatch(true, block, base, mem', j + n, d + n, block[i] % 16) ==
            AtMatch(block, j + n, block[i] % 16, mem', d + n)
    decreases |block| - i, 1
  {
    hide Execute, Parse, ReadLength, Decoding, DecodingMatch, AtMatch, Wide, CopyForward, Roomed, Unread, Source;
    var k, nibble := j + n, block[i] % 16;
    SourceAgrees(block, base, mem', k, nibble);
    var read, offset := ReadLength(block, k + 2, nibble), Wide(block[k], block[k + 1]);
    ReadsMatch(block, base, mem', k, d + n, nibble, read, offset);
    MeansMatch(block, mem', k, d + n, nibble, read, offset);
    if read.Length? && offset <= d + n && d + n + read.size + 4 <= |mem| {
      RoomedThen(block, base, mem, i, d, n, j, read.size, read.next, mem', offset);
    }
  }

  lemma {:induction false} RoomedThen(block: seq<byte>, base: nat, mem: seq<byte>, i: nat, d: nat, n: nat, j: nat,
                                      size: nat, next: nat, mem': seq<byte>, offset: nat)
    requires Roomed(block, base, mem, i, d) && i < |block| && ReadLength(block, i + 1, block[i] / 16) == Length(n, j)
    requires j + n + 2 <= |block| && ReadLength(block, j + n + 2, block[i] % 16) == Length(size, next)
    requires Unread(block, base, mem', j + n) && |mem'| == |mem| && offset <= d + n && d + n + size + 4 <= |mem|
    ensures base + |block| <= |mem|
    ensures var mem'', d' := CopyForward(mem', d + n, offset, size + 4), d + n + size + 4;
            Decoding(true, block, base, mem'', next, d') == Execute(Parse(block, next), mem'', d')
    decreases |block| - i, 0
  {
    hide Execute, Parse, Decoding, CopyForward, Complete, Roomy;
    RoomedNext(block, base, mem, i, d, n, j, size, next, mem', offset);
    assert i < next;
    hide ReadLength;
    RoomedIsDecode(block, base, CopyForward(mem', d + n, offset, size + 4), next, d + n + size + 4);
  }

  // ----- in one memory, with one byte less

  /** A byte, repeated four times, and 15 + 255k literals. */
  function TightBlock(k: nat): Block {
    Entry([0xE0], 1, 4, Tail(Literals255(15 + 255 * k)))
  }

  function Literals255(n: nat): (r: seq<byte>)
    ensures |r| == n && forall i :: 0 <= i < n ==> r[i] == 0xFF
  {
    seq(n, _ => 0xFF)
  }

  lemma {:induction false} FullExtension(k: nat, i: nat)
    requires i < k + 1
    ensures |Extension(255 * k)| == k + 1 && Extension(255 * k)[i] == if i < k then 0xFF else 0
    decreases k
  {
    if k == 0 {
    } else {
      assert 255 * k - 255 == 255 * (k - 1);
      if i > 0 { FullExtension(k - 1, i - 1); } else { FullExtension(k - 1, 0); }
    }
  }

  lemma TightBytes(k: nat, hint: nat)
    requires hint <= 15
    ensures Complete(TightBlock(k)) && NonZeroOffsets(TightBlock(k)) && InReach(TightBlock(k), 0)
    ensures Encode(TightBlock(k), hint) ==
            [0x10, 0xE0, 1, 0, 0xF0 + hint] + (Extension(255 * k) + Literals255(15 + 255 * k))
  {
    hide Extension, Literals255;
    var tail := Tail(Literals255(15 + 255 * k));
    assert EncodeHead([0xE0], 0) == [0x10, 0xE0];
    assert EncodeMatch(1, 4) == [1, 0];
    assert Encode(tail, hint) == [0xF0 + hint] + Extension(255 * k) + Literals255(15 + 255 * k);
  }

  /** Behind the tail's token all bytes are 0xFF but the one that ends the extension. */
  lemma TightTail(k: nat, hint: nat, p: nat)
    requires hint <= 15 && 5 <= p < 21 + 256 * k
    ensures var enc := Encode(TightBlock(k), hint);
            |enc| == 21 + 256 * k && enc[p] == if p == 5 + k then 0 else 0xFF
  {
    TightBytes(k, hint);
    hide Encode, Extension;
    FullExtension(k, if p - 5 < k + 1 then p - 5 else 0);
  }

  lemma TightSize(k: nat)
    ensures Complete(TightBlock(k)) && Size(TightBlock(k)) == 20 + 255 * k
    ensures Literals(TightBlock(k)) == 16 + 255 * k && Literals(TightBlock(k)) / 255 == k
  {
    ModUnique(16 + 255 * k, 255, k, 16);
  }

  lemma SelfCopy(mem: seq<byte>, d: nat, n: nat)
    requires d + n <= |mem|
    ensures CopyForward(mem, d, 0, n) == mem
    decreases n
  {
    if n == 0 {
    } else {
      assert mem[d := mem[d]] == mem;
      SelfCopy(mem, d + 1, n - 1);
    }
  }

  /** The match runs over the token of the literals behind it. */
  lemma FirstIteration(enc: seq<byte>, hint: nat)
    requires 21 <= |enc| && hint <= 15 && enc[0..5] == [0x10, 0xE0, 1, 0, 0xF0 + hint]
    ensures Decoding(true, enc, 0, enc, 0, 0) == Decoding(true, enc, 0, [0xE0, 0xE0, 0xE0, 0xE0, 0xE0] + enc[5..], 4, 5)
  {
    hide Decoding, CopyForward;
    assert enc[0] == enc[0..5][0] && enc[1] == enc[0..5][1] && enc[2] == enc[0..5][2] && enc[3] == enc[0..5][3];
    var mem' := enc[0 := 0xE0];
    OneCopied(enc);
    FirstStep(enc);
    FourCopied(mem');
    var mem'' := [0xE0, 0xE0, 0xE0, 0xE0, 0xE0] + enc[5..];
    assert mem'[1 := 0xE0][2 := 0xE0][3 := 0xE0][4 := 0xE0] == mem'';
  }

  lemma OneCopied(mem: seq<byte>)
    requires 2 <= |mem|
    ensures CopyForward(mem, 0, -1, 1) == mem[0 := mem[1]]
  {
    assert CopyForward(mem[0 := mem[1]], 1, -1, 0) == mem[0 := mem[1]];
  }

  lemma FourCopied(mem: seq<byte>)
    requires 5 <= |mem| && mem[0] == 0xE0
    ensures CopyForward(mem, 1, 1, 4) == mem[1 := 0xE0][2 := 0xE0][3 := 0xE0][4 := 0xE0]
  {
    var m1 := mem[1 := 0xE0];
    var m2 := m1[2 := 0xE0];
    var m3 := m2[3 := 0xE0];
    assert CopyForward(mem, 1, 1, 4) == CopyForward(m1, 2, 1, 3) == CopyForward(m2, 3, 1, 2);
    assert CopyForward(m2, 3, 1, 2) == CopyForward(m3, 4, 1, 1) == CopyForward(m3[4 := 0xE0], 5, 1, 0);
  }

  lemma FirstStep(enc: seq<byte>)
    requires 21 <= |enc| && enc[0] == 0x10 && enc[1] == 0xE0 && enc[2] == 1 && enc[3] == 0
    ensures var mem' := CopyForward(enc, 0, -1, 1);
            mem'[2] == 1 && mem'[3] == 0 ==>
            Decoding(true, enc, 0, enc, 0, 0) == Decoding(true, enc, 0, CopyForward(mem', 1, 1, 4), 4, 5)
  {
    hide CopyForward;
    assert Source(true, enc, 0, enc) == enc;
    var mem' := CopyForward(enc, 0, -1, 1);
    assert Source(true, enc, 0, mem') == mem';
    assert ReadLength(enc, 1, 1) == Length(1, 1) && ReadLength(mem', 4, 0) == Length(0, 4);
    assert Decoding(true, enc, 0, enc, 0, 0) == DecodingMatch(true, enc, 0, mem', 2, 1, 0);
    assert Wide(1, 0) == 1;
  }

  /** What it left there reads as fourteen literals and a match far out of reach. */
  lemma SecondIteration(enc: seq<byte>, mem: seq<byte>)
    requires 21 <= |enc| == |mem| && mem[4] == 0xE0 && mem[19] as int + mem[20] as int >= 0xFF
    ensures Decoding(true, enc, 0, mem, 4, 5) == Abort
  {
    hide CopyForward;
    assert Source(true, enc, 0, mem) == mem;
    SelfCopy(mem, 5, 14);
    assert ReadLength(mem, 5, 14) == Length(14, 5) && ReadLength(mem, 21, 0) == Length(0, 21);
    assert Decoding(true, enc, 0, mem, 4, 5) == DecodingMatch(true, enc, 0, mem, 19, 19, 0);
  }

  /**
   The margin cannot be lowered by one: for every k there is a block with 255k + 16 literals that
   has one byte less of margin and aborts when it is decoded over itself, although it decodes
   elsewhere.
   */
  lemma MarginIsTight(k: nat, hint: nat, dst: seq<byte>)
    requires hint <= 15
    ensures var b := TightBlock(k);
            Complete(b) && NonZeroOffsets(b) && InReach(b, 0) &&
            var enc := Encode(b, hint);
            Literals(b) / 255 == k && |enc| == Size(b) + Literals(b) / 255 + 1 &&
            Decoding(true, enc, 0, enc, 0, 0) == Abort &&
            (|dst| == |enc| ==> Decode(enc, dst) == Done(Meaning(b, []) + dst[Size(b)..], Size(b)))
  {
    TightSize(k);
    hide Decoding, Encode, Meaning, Extension, Decode, Size, TightBlock, Literals, Literals255, Complete, InReach;
    hide NonZeroOffsets;
    var b := TightBlock(k);
    TightBytes(k, hint);
    var enc := Encode(b, hint);
    TightTail(k, hint, 19);
    TightTail(k, hint, 20);
    assert enc[0..5] == [0x10, 0xE0, 1, 0, 0xF0 + hint];
    FirstIteration(enc, hint);
    var mem := [0xE0, 0xE0, 0xE0, 0xE0, 0xE0] + enc[5..];
    assert mem[19] == enc[19] && mem[20] == enc[20];
    SecondIteration(enc, mem);
    if |dst| == |enc| { RoundTrip(b, hint, dst); }
  }
}
