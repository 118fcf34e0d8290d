/**
 The LZ4 Block Format, independently of any decoder: the bytes that encode a block and the
 output it means.  The decoder of `Lz4Block` accepts exactly these encodings and produces
 exactly this meaning.
 */
module Lz4Format {
  import opened Arithmetic
  import opened Bytes
  import opened Lz4Block

  /** A block that ends in its last sequence. */
  predicate Complete(b: Block) {
    match b
    case Tail(_) => true
    case Entry(_, _, _, rest) => Complete(rest)
    case _ => false
  }

  /** Length extension: 255 for every full 255, then the remainder. */
  function Extension(n: nat): (r: seq<byte>)
    ensures |r| == n / 255 + 1
  {
    if n < 255 then [n] else [255] + Extension(n - 255)
  }

  function Nibble(n: nat): (r: nat)
    ensures r <= 15
  {
    if n < 15 then n else 15
  }

  function Extra(n: nat): seq<byte> {
    if n < 15 then [] else Extension(n - 15)
  }

  function EncodeHead(literals: seq<byte>, nibble: nat): seq<byte>
    requires nibble <= 15
  {
    [Nibble(|literals|) * 16 + nibble] + Extra(|literals|) + literals
  }

  function EncodeMatch(offset: Offset, length: MatchLength): (r: seq<byte>)
    ensures 2 <= |r|
  {
    [offset % 256, offset / 256] + Extra(length - 4)
  }

  /** `hint` is the unused low half of the last token, which a decoder ignores. */
  function Encode(b: Block, hint: nat): seq<byte>
    requires Complete(b) && hint <= 15
  {
    match b
    case Tail(literals) => EncodeHead(literals, hint)
    case Entry(literals, offset, length, rest) =>
      EncodeHead(literals, Nibble(length - 4)) + (EncodeMatch(offset, length) + Encode(rest, hint))
  }

  function Size(b: Block): nat
    requires Complete(b)
  {
    match b
    case Tail(literals) => |literals|
    case Entry(literals, _, length, rest) => |literals| + length + Size(rest)
  }

  /** No match reaches further back than the output produced so far. */
  predicate InReach(b: Block, produced: nat)
    requires Complete(b)
  {
    b.Entry? ==>
      b.offset <= produced + |b.literals| && InReach(b.rest, produced + |b.literals| + b.length)
  }

  predicate NonZeroOffsets(b: Block)
    requires Complete(b)
  {
    b.Entry? ==> 0 < b.offset && NonZeroOffsets(b.rest)
  }

  /** The last `offset` bytes of `out`, repeated for `n` bytes. */
  function Periodic(out: seq<byte>, offset: nat, n: nat): (r: seq<byte>)
    requires 0 < offset <= |out|
    ensures |r| == n
  {
    seq(n, k requires 0 <= k < n => out[|out| - offset + k % offset])
  }

  /** The output a block means, on top of the output before it. */
  function Meaning(b: Block, out: seq<byte>): (r: seq<byte>)
    requires Complete(b) && NonZeroOffsets(b) && InReach(b, |out|)
    ensures |r| == |out| + Size(b)
    decreases b
  {
    match b
    case Tail(literals) => out + literals
    case Entry(literals, offset, length, rest) =>
      Meaning(rest, out + literals + Periodic(out + literals, offset, length))
  }

  // ----- parsing inverts encoding

  ghost predicate Holds(src: seq<byte>, i: nat, data: seq<byte>) {
    i + |data| <= |src| && src[i..i + |data|] == data
  }

  lemma HoldsSplit(src: seq<byte>, i: nat, a: seq<byte>, b: seq<byte>)
    requires Holds(src, i, a + b)
    ensures Holds(src, i, a) && Holds(src, i + |a|, b)
  {
    assert src[i..i + |a|] == (a + b)[..|a|];
    assert src[i + |a|..i + |a| + |b|] == (a + b)[|a|..];
  }

  lemma {:induction false} ExtensionRoundTrip(src: seq<byte>, i: nat, size: nat, n: nat)
    requires Holds(src, i, Extension(n))
    ensures ReadExtension(src, i, size) == Length(size + n, i + |Extension(n)|)
    decreases n
  {
    assert src[i] == src[i..i + |Extension(n)|][0];
    if n < 255 {
    } else {
      assert src[i + 1..i + |Extension(n)|] == src[i..i + |Extension(n)|][1..] == Extension(n - 255);
      ExtensionRoundTrip(src, i + 1, size + 255, n - 255);
    }
  }

  lemma LengthRoundTrip(src: seq<byte>, i: nat, n: nat)
    requires Holds(src, i, Extra(n))
    ensures ReadLength(src, i, Nibble(n)) == Length(n, i + |Extra(n)|)
  {
    if n >= 15 { ExtensionRoundTrip(src, i, 15, n - 15); }
  }

  lemma HeadRoundTrip(src: seq<byte>, i: nat, literals: seq<byte>, nibble: nat)
    requires nibble <= 15 && Holds(src, i, EncodeHead(literals, nibble))
    ensures src[i] / 16 == Nibble(|literals|) && src[i] % 16 == nibble
    ensures ReadLength(src, i + 1, src[i] / 16) == Length(|literals|, i + 1 + |Extra(|literals|)|)
    ensures Holds(src, i + 1 + |Extra(|literals|)|, literals)
  {
    hide ReadLength, Extra;
    var token := [Nibble(|literals|) * 16 + nibble];
    HoldsSplit(src, i, token + Extra(|literals|), literals);
    HoldsSplit(src, i, token, Extra(|literals|));
    assert src[i] == src[i..i + 1][0];
    LengthRoundTrip(src, i + 1, |literals|);
  }

  lemma TailRoundTrip(src: seq<byte>, i: nat, literals: seq<byte>, hint: nat)
    requires hint <= 15 && i <= |src| && src[i..] == EncodeHead(literals, hint)
    ensures Parse(src, i) == Tail(literals)
  {
    assert src[i..] == src[i..|src|];
    HeadRoundTrip(src, i, literals, hint);
  }

  lemma MatchBytes(src: seq<byte>, k: nat, offset: Offset, length: MatchLength)
    requires Holds(src, k, EncodeMatch(offset, length))
    ensures Wide(src[k], src[k + 1]) == offset
    ensures ReadLength(src, k + 2, Nibble(length - 4)) ==
            Length(length - 4, k + |EncodeMatch(offset, length)|)
  {
    var lo, hi := offset % 256, offset / 256;
    HoldsSplit(src, k, [lo, hi], Extra(length - 4));
    assert src[k] == src[k..k + 2][0] && src[k + 1] == src[k..k + 2][1];
    LengthRoundTrip(src, k + 2, length - 4);
  }

  lemma MatchRoundTrip(src: seq<byte>, k: nat, literals: seq<byte>, offset: Offset, length: MatchLength)
    requires Holds(src, k, EncodeMatch(offset, length))
    ensures ParseMatch(src, k, literals, Nibble(length - 4)) ==
            Entry(literals, offset, length, Parse(src, k + |EncodeMatch(offset, length)|))
  {
    MatchBytes(src, k, offset, length);
  }

  lemma TokenRoundTrip(src: seq<byte>, i: nat, literals: seq<byte>, nibble: nat)
    requires nibble <= 15 && Holds(src, i, EncodeHead(literals, nibble))
    requires i + |EncodeHead(literals, nibble)| + 2 <= |src|
    ensures Parse(src, i) == ParseMatch(src, i + |EncodeHead(literals, nibble)|, literals, nibble)
  {
    HeadRoundTrip(src, i, literals, nibble);
  }

  lemma HoldsFront(src: seq<byte>, i: nat, a: seq<byte>, b: seq<byte>)
    requires i <= |src| && src[i..] == a + b
    ensures Holds(src, i, a) && src[i + |a|..] == b
  {
    assert src[i..i + |a|] == src[i..][..|a|];
    assert src[i + |a|..] == src[i..][|a|..];
  }

  /** Reading an encoded block gives the block back. */
  lemma {:induction false} ParseEncoded(b: Block, hint: nat, src: seq<byte>, i: nat)
    requires Complete(b) && hint <= 15 && i <= |src| && src[i..] == Encode(b, hint)
    ensures Parse(src, i) == b
    decreases b
  {
    hide Parse, ParseMatch, EncodeHead, EncodeMatch;
    match b
    case Tail(literals) => TailRoundTrip(src, i, literals, hint);
    case Entry(literals, offset, length, rest) =>
      var head, pair := EncodeHead(literals, Nibble(length - 4)), EncodeMatch(offset, length);
      HoldsFront(src, i, head, pair + Encode(rest, hint));
      HoldsFront(src, i + |head|, pair, Encode(rest, hint));
      ParseEncoded(rest, hint, src, i + |head| + |pair|);
      TokenRoundTrip(src, i, literals, Nibble(length - 4));
      MatchRoundTrip(src, i + |head|, literals, offset, length);
  }

  lemma {:induction false} ExtensionParse(src: seq<byte>, i: nat, size: nat) returns (n: nat)
    requires i <= |src| && ReadExtension(src, i, size).Length?
    ensures ReadExtension(src, i, size) == Length(size + n, i + |Extension(n)|)
    ensures Holds(src, i, Extension(n))
    decreases |src| - i
  {
    if src[i] == 0xFF {
      var m := ExtensionParse(src, i + 1, size + 0xFF);
      n := m + 255;
      assert src[i..i + |Extension(n)|] == [src[i]] + src[i + 1..i + 1 + |Extension(m)|];
    } else {
      n := src[i];
    }
  }

  lemma LengthParse(src: seq<byte>, i: nat, nibble: nat) returns (n: nat)
    requires i <= |src| && nibble <= 15 && ReadLength(src, i, nibble).Length?
    ensures ReadLength(src, i, nibble) == Length(n, i + |Extra(n)|)
    ensures Holds(src, i, Extra(n)) && Nibble(n) == nibble
  {
    if nibble == 15 {
      var m := ExtensionParse(src, i, 15);
      n := m + 15;
    } else {
      n := nibble;
    }
  }

  lemma HeadShape(src: seq<byte>, i: nat, n: nat)
    requires i < |src| && Holds(src, i + 1, Extra(n)) && Nibble(n) == src[i] / 16
    requires i + 1 + |Extra(n)| + n <= |src|
    ensures var j := i + 1 + |Extra(n)|; src[i..j + n] == EncodeHead(src[j..j + n], src[i] % 16)
  {
    var j := i + 1 + |Extra(n)|;
    assert src[i..j + n] == [src[i]] + src[i + 1..j] + src[j..j + n];
  }

  lemma HeadParse(src: seq<byte>, i: nat)
    requires i < |src| && ReadLength(src, i + 1, src[i] / 16).Length?
    ensures var t := ReadLength(src, i + 1, src[i] / 16);
            t.next + t.size <= |src| ==>
              src[i..t.next + t.size] == EncodeHead(src[t.next..t.next + t.size], src[i] % 16)
  {
    hide EncodeHead;
    var n := LengthParse(src, i + 1, src[i] / 16);
    if i + 1 + |Extra(n)| + n <= |src| { HeadShape(src, i, n); }
  }

  lemma TokenParse(src: seq<byte>, i: nat) returns (j: nat, n: nat)
    requires Complete(Parse(src, i))
    ensures i < j && j + n <= |src| && src[i..j + n] == EncodeHead(src[j..j + n], src[i] % 16)
    ensures j + n == |src| ==> Parse(src, i) == Tail(src[j..])
    ensures j + n < |src| ==>
              j + n + 2 <= |src| && Parse(src, i) == ParseMatch(src, j + n, src[j..j + n], src[i] % 16)
  {
    var t := ReadLength(src, i + 1, src[i] / 16);
    j, n := t.next, t.size;
    HeadParse(src, i);
  }

  lemma MatchShape(src: seq<byte>, k: nat, m: nat)
    requires k + 2 <= |src| && Holds(src, k + 2, Extra(m))
    ensures src[k..k + 2 + |Extra(m)|] == EncodeMatch(Wide(src[k], src[k + 1]), m + 4)
  {
    var next := k + 2 + |Extra(m)|;
    assert src[k..next] == [src[k], src[k + 1]] + src[k + 2..next];
  }

  lemma MatchParse(src: seq<byte>, k: nat, literals: seq<byte>, nibble: nat)
    returns (offset: Offset, length: MatchLength, next: nat)
    requires k + 2 <= |src| && nibble <= 15 && Complete(ParseMatch(src, k, literals, nibble))
    ensures ParseMatch(src, k, literals, nibble) == Entry(literals, offset, length, Parse(src, next))
    ensures k < next <= |src| && src[k..next] == EncodeMatch(offset, length)
    ensures Nibble(length - 4) == nibble
  {
    var m := LengthParse(src, k + 2, nibble);
    offset, length, next := Wide(src[k], src[k + 1]), m + 4, k + 2 + |Extra(m)|;
    MatchShape(src, k, m);
  }

  lemma Assemble(src: seq<byte>, i: nat, k: nat, next: nat, b: Block, hint: nat)
    requires Complete(b) && b.Entry? && hint <= 15 && i <= k <= next <= |src|
    requires src[i..k] == EncodeHead(b.literals, Nibble(b.length - 4))
    requires src[k..next] == EncodeMatch(b.offset, b.length)
    requires src[next..] == Encode(b.rest, hint)
    ensures src[i..] == Encode(b, hint)
  {
    hide EncodeHead, EncodeMatch;
    assert src[i..] == src[i..k] + (src[k..next] + src[next..]);
  }

  lemma EntryParse(src: seq<byte>, i: nat) returns (k: nat, next: nat)
    requires Complete(Parse(src, i)) && Parse(src, i).Entry?
    ensures var b := Parse(src, i);
            i < k < next <= |src| && b.rest == Parse(src, next) &&
            src[i..k] == EncodeHead(b.literals, Nibble(b.length - 4)) &&
            src[k..next] == EncodeMatch(b.offset, b.length)
  {
    hide EncodeHead, EncodeMatch, Parse, ParseMatch, Nibble;
    var j, n := TokenParse(src, i);
    k := j + n;
    var offset, length;
    offset, length, next := MatchParse(src, k, src[j..k], src[i] % 16);
  }

  lemma MatchIsNoTail(src: seq<byte>, k: nat, literals: seq<byte>, nibble: nat)
    requires k + 2 <= |src|
    ensures !ParseMatch(src, k, literals, nibble).Tail?
  {
    hide ReadLength, Parse;
  }

  lemma TailParse(src: seq<byte>, i: nat)
    requires Parse(src, i).Tail?
    ensures i < |src| && src[i..] == EncodeHead(Parse(src, i).literals, src[i] % 16)
  {
    hide EncodeHead, Parse, ParseMatch;
    var j, n := TokenParse(src, i);
    if j + n < |src| { MatchIsNoTail(src, j + n, src[j..j + n], src[i] % 16); }
    assert src[i..] == src[i..j + n] && src[j..] == src[j..j + n];
  }

  /** A block that was read without error is what the bytes encode. */
  lemma {:induction false} EncodeParsed(src: seq<byte>, i: nat) returns (hint: nat)
    requires Complete(Parse(src, i))
    ensures i < |src| && hint <= 15 && src[i..] == Encode(Parse(src, i), hint)
    decreases |src| - i
  {
    hide Parse, EncodeHead, EncodeMatch;
    if Parse(src, i).Tail? {
      TailParse(src, i);
      hint := src[i] % 16;
    } else {
      var k, next := EntryParse(src, i);
      hint := EncodeParsed(src, next);
      Assemble(src, i, k, next, Parse(src, i), hint);
    }
  }

  // ----- executing a block produces its meaning

  lemma {:induction false} CopyMatchFrame(dst: seq<byte>, d: nat, offset: nat, n: nat)
    requires offset <= d && d + n <= |dst|
    ensures forall k :: 0 <= k < |dst| && !(d <= k < d + n) ==> CopyForward(dst, d, offset, n)[k] == dst[k]
    decreases n
  {
    if n == 0 {
    } else {
      CopyMatchFrame(dst[d := dst[d - offset]], d + 1, offset, n - 1);
    }
  }

  /** A match copy repeats the output before it, even where it overlaps itself. */
  lemma {:induction false} CopyMatchIsPeriodic(dst: seq<byte>, d: nat, offset: nat, n: nat, base: nat)
    requires 0 < offset <= base <= d && d + n <= |dst|
    requires forall k :: base <= k < d ==> dst[k] == dst[base - offset + (k - base) % offset]
    ensures forall k :: base <= k < d + n ==>
              CopyForward(dst, d, offset, n)[k] == dst[base - offset + (k - base) % offset]
    decreases n
  {
    if n == 0 {
    } else {
      var dst' := dst[d := dst[d - offset]];
      if d - offset >= base {
        ModBack(d - base, offset);
      } else {
        ModUnique(d - base, offset, 0, d - base);
      }
      CopyMatchIsPeriodic(dst', d + 1, offset, n - 1, base);
    }
  }

  lemma MatchMeaning(dst: seq<byte>, d: nat, out: seq<byte>, offset: nat, n: nat)
    requires d == |out| && d + n <= |dst| && dst[..d] == out && 0 < offset <= d
    ensures CopyForward(dst, d, offset, n)[..d + n] == out + Periodic(out, offset, n)
  {
    CopyMatchIsPeriodic(dst, d, offset, n, d);
    CopyMatchFrame(dst, d, offset, n);
    var r := CopyForward(dst, d, offset, n);
    forall k | 0 <= k < d + n ensures r[k] == (out + Periodic(out, offset, n))[k] {
      if k < d {
        assert out[k] == dst[..d][k];
      } else {
        assert dst[d - offset + (k - d) % offset] == dst[..d][d - offset + (k - d) % offset];
      }
    }
  }

  lemma EntryMeaning(dst: seq<byte>, d: nat, out: seq<byte>, literals: seq<byte>, offset: Offset, length: nat)
    requires d == |out| && d + |literals| + length <= |dst| && dst[..d] == out
    requires 0 < offset <= d + |literals|
    ensures CopyForward(Splice(dst, d, literals), d + |literals|, offset, length)[..d + |literals| + length]
         == out + literals + Periodic(out + literals, offset, length)
  {
    assert Splice(dst, d, literals)[..d + |literals|] == out + literals;
    MatchMeaning(Splice(dst, d, literals), d + |literals|, out + literals, offset, length);
  }

  /** A block runs to the end exactly when its matches stay in reach and its output fits. */
  lemma {:induction false} ExecutesWhenFits(b: Block, dst: seq<byte>, d: nat)
    requires d <= |dst|
    ensures Execute(b, dst, d).Done? <==> Complete(b) && InReach(b, d) && d + Size(b) <= |dst|
    ensures Execute(b, dst, d).Done? ==> Execute(b, dst, d).size == d + Size(b)
    decreases b
  {
    hide CopyForward, Splice;
    match b
    case Entry(literals, offset, length, rest) =>
      var e := d + |literals|;
      if offset <= e && e + length <= |dst| {
        ExecutesWhenFits(rest, CopyForward(Splice(dst, d, literals), e, offset, length), e + length);
      }
    case _ =>
  }

  /** What it then leaves in the region: its meaning, on top of the output before it. */
  lemma {:induction false} ExecuteMeaning(b: Block, dst: seq<byte>, d: nat, out: seq<byte>)
    requires Complete(b) && NonZeroOffsets(b) && InReach(b, d) && d + Size(b) <= |dst|
    requires d == |out| && dst[..d] == out && Execute(b, dst, d).Done?
    ensures Execute(b, dst, d).dst[..d + Size(b)] == Meaning(b, out)
    decreases b
  {
    hide CopyForward;
    match b
    case Tail(literals) => assert Splice(dst, d, literals)[..d + |literals|] == out + literals;
    case Entry(literals, offset, length, rest) =>
      EntryMeaning(dst, d, out, literals, offset, length);
      var dst' := CopyForward(Splice(dst, d, literals), d + |literals|, offset, length);
      var d' := d + |literals| + length;
      assert Execute(b, dst, d) == Execute(rest, dst', d');
      ExecuteMeaning(rest, dst', d', out + literals + Periodic(out + literals, offset, length));
  }

  lemma EntryFrame(dst: seq<byte>, d: nat, literals: seq<byte>, offset: nat, length: nat)
    requires offset <= d + |literals| && d + |literals| + length <= |dst|
    ensures var r := CopyForward(Splice(dst, d, literals), d + |literals|, offset, length);
            forall k :: 0 <= k < |dst| && !(d <= k < d + |literals| + length) ==> r[k] == dst[k]
  {
    CopyMatchFrame(Splice(dst, d, literals), d + |literals|, offset, length);
  }

  /** Nothing outside the output of the block is written. */
  lemma {:induction false} ExecuteFrame(b: Block, dst: seq<byte>, d: nat)
    requires d <= |dst| && Execute(b, dst, d).Done?
    ensures var r := Execute(b, dst, d);
            forall k :: 0 <= k < |dst| && !(d <= k < r.size) ==> r.dst[k] == dst[k]
    decreases b
  {
    match b
    case Tail(literals) =>
    case Entry(literals, offset, length, rest) =>
      hide CopyForward, Splice;
      EntryFrame(dst, d, literals, offset, length);
      ExecuteFrame(rest, CopyForward(Splice(dst, d, literals), d + |literals|, offset, length),
                   d + |literals| + length);
  }

  // ----- the decoder

  /** Round trip: decoding an encoded block writes exactly its meaning and nothing else. */
  lemma RoundTrip(b: Block, hint: nat, dst: seq<byte>)
    requires Complete(b) && hint <= 15 && NonZeroOffsets(b) && InReach(b, 0) && Size(b) <= |dst|
    ensures Decode(Encode(b, hint), dst) == Done(Meaning(b, []) + dst[Size(b)..], Size(b))
  {
    hide Parse, Execute, Encode, Meaning;
    var src := Encode(b, hint);
    assert src[0..] == src;
    ParseEncoded(b, hint, src, 0);
    ExecutesWhenFits(b, dst, 0);
    ExecuteMeaning(b, dst, 0, []);
    ExecuteFrame(b, dst, 0);
    var r := Execute(b, dst, 0);
    assert r.dst == r.dst[..r.size] + r.dst[r.size..];
    assert r.dst[r.size..] == dst[r.size..];
  }

  ghost predicate Encodes(src: seq<byte>, b: Block, hint: nat) {
    Complete(b) && hint <= 15 && src == Encode(b, hint)
  }

  /** The decoder completes exactly on the encodings of blocks in reach that fit the region. */
  lemma AcceptsExactlyEncodings(src: seq<byte>, dst: seq<byte>)
    ensures Decode(src, dst).Done? <==>
            exists b, hint :: Encodes(src, b, hint) && InReach(b, 0) && Size(b) <= |dst|
  {
    assert src[0..] == src;
    var p := Parse(src, 0);
    ExecutesWhenFits(p, dst, 0);
    if Decode(src, dst).Done? {
      var hint := EncodeParsed(src, 0);
      assert Encodes(src, p, hint);
    }
    forall b, hint | Encodes(src, b, hint) && InReach(b, 0) && Size(b) <= |dst|
      ensures Decode(src, dst).Done?
    {
      ParseEncoded(b, hint, src, 0);
    }
  }
}
