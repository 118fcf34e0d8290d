/**
 The decoder against the format: it succeeds exactly on the images that hold the stream of some
 items, with their meaning as the result.
 */
module BlzDecoding {
  import opened Arithmetic
  import opened Bytes
  import opened Options
  import opened Words
  import opened Blz
  import opened BlzFormat

  /** Reading `c` downwards from `index`, with Python's indices, yields `s`. */
  ghost predicate Reads(c: seq<byte>, index: int, s: seq<byte>) {
    forall k :: 0 <= k < |s| ==> At(c, index - 1 - k) == Some(s[k])
  }

  lemma ReadsSplit(c: seq<byte>, index: int, a: seq<byte>, b: seq<byte>)
    ensures Reads(c, index, a + b) <==> Reads(c, index, a) && Reads(c, index - |a|, b)
  {
    if Reads(c, index, a + b) {
      forall k | 0 <= k < |a| ensures At(c, index - 1 - k) == Some(a[k]) { assert (a + b)[k] == a[k]; }
      forall k | 0 <= k < |b| ensures At(c, index - |a| - 1 - k) == Some(b[k]) { assert (a + b)[|a| + k] == b[k]; }
    }
    if Reads(c, index, a) && Reads(c, index - |a|, b) {
      forall k | 0 <= k < |a + b| ensures At(c, index - 1 - k) == Some((a + b)[k]) {
        if k >= |a| { assert b[k - |a|] == (a + b)[k]; }
      }
    }
  }

  lemma ReadsOne(c: seq<byte>, index: int, x: byte)
    ensures Reads(c, index, [x]) <==> At(c, index - 1) == Some(x)
  {
    if Reads(c, index, [x]) { assert [x][0] == x; }
  }

  lemma ReadsPair(c: seq<byte>, index: int, s: seq<byte>)
    requires |s| == 2
    ensures Reads(c, index, s) <==> At(c, index - 1) == Some(s[0]) && At(c, index - 2) == Some(s[1])
  {
  }

  /** The decoder looks for matches in front of index 2 only; `n` flags are left of the group. */
  predicate Placed(items: Items, n: nat, index: int)
    decreases items, if n == 0 then 1 else 0
  {
    match items
    case End => true
    case Literal(_, rest) => if n == 0 then Placed(items, 8, index - 1) else Placed(rest, n - 1, index - 1)
    case Match(_, _, rest) =>
      if n == 0 then Placed(items, 8, index - 1) else index >= 2 && Placed(rest, n - 1, index - 2)
  }

  // ----- one step of the decoder

  /** The decoder with `n` flags of `control` left. */
  function Onward(c: seq<byte>, index: int, control: byte, n: nat, out: seq<byte>, size: nat): (r: Result)
    requires |out| <= size
    ensures r.Ok? ==> |r.data| == size
  {
    if |out| == size then Ok(out)
    else if n == 0 then Groups(c, index, out, size)
    else Flags(c, index, control, n, out, size)
  }

  lemma GroupNext(c: seq<byte>, index: int, control: byte, out: seq<byte>, size: nat)
    requires |out| < size
    ensures Onward(c, index, control, 0, out, size) ==
            if At(c, index - 1).None? then Error else Onward(c, index - 1, At(c, index - 1).value, 8, out, size)
  {
    hide Flags, At;
  }

  lemma AfterIsOnward(c: seq<byte>, index: int, control: byte, n: nat, out: seq<byte>, size: nat, before: nat)
    requires before < |out| <= size && 1 <= n
    ensures After(c, index, control, n, out, size, before) == Onward(c, index, Shift(control), n - 1, out, size)
  {
    hide Groups, Flags, Shift;
  }

  lemma LiteralNext(c: seq<byte>, index: int, control: byte, n: nat, out: seq<byte>, size: nat)
    requires |out| < size && 1 <= n && control < 0x80
    ensures Onward(c, index, control, n, out, size) ==
            if At(c, index - 1).None? then Error
            else Onward(c, index - 1, Shift(control), n - 1, [At(c, index - 1).value] + out, size)
  {
    hide Groups, At, Shift, After;
    if At(c, index - 1).Some? {
      AfterIsOnward(c, index - 1, control, n, [At(c, index - 1).value] + out, size, |out|);
    }
  }

  lemma MatchNext(c: seq<byte>, index: int, control: byte, n: nat, out: seq<byte>, size: nat)
    requires |out| < size && 1 <= n && control >= 0x80
    ensures index < 2 || At(c, index - 2).None? || At(c, index - 1).None? ==>
              Onward(c, index, control, n, out, size) == Error
    ensures index >= 2 && At(c, index - 2).Some? && At(c, index - 1).Some? ==>
              var lo, hi := At(c, index - 2).value, At(c, index - 1).value;
              var length, distance := MatchLength(lo, hi), MatchOffset(lo, hi) + 1;
              if size - |out| < length || distance > |out| then Onward(c, index, control, n, out, size) == Error
              else Onward(c, index, control, n, out, size) ==
                   Onward(c, index - 2, Shift(control), n - 1, Periodic(out, distance, length) + out, size)
  {
    hide Groups, At, Shift, MatchLength, MatchOffset, Repeat, Periodic, After;
    if index >= 2 && At(c, index - 2).Some? && At(c, index - 1).Some? {
      var lo, hi := At(c, index - 2).value, At(c, index - 1).value;
      var length, distance := MatchLength(lo, hi), MatchOffset(lo, hi) + 1;
      if distance <= |out| && length <= size - |out| {
        MatchRepeats(out, distance, length);
        AfterIsOnward(c, index - 2, control, n, Repeat(out, distance - 1, length), size, |out|);
      }
    }
  }

  /** A match's two bytes and its distance and length determine each other. */
  lemma MatchPair(distance: Distance, length: RunLength, lo: byte, hi: byte)
    ensures EncodeMatch(distance, length) == [hi, lo] <==>
            MatchLength(lo, hi) == length && MatchOffset(lo, hi) == distance - 1
  {
    MatchBytes(distance, length);
    if MatchLength(lo, hi) == length && MatchOffset(lo, hi) == distance - 1 {
      var v := lo as int + 256 * hi as int;
      assert v == v / 0x1000 * 0x1000 + v % 0x1000;
      ModUnique(v, 256, hi, lo);
    }
  }

  // ----- decoding a stream

  /** Reading the stream of the items produces their meaning, and the decoder goes on behind it. */
  lemma {:induction false} Through(items: Items, n: nat, spare: nat, control: byte, c: seq<byte>, index: int,
                                   out: seq<byte>, size: nat) returns (control': byte, n': nat)
    requires n <= 8 && (n > 0 ==> ControlFor(control, items, n, spare) && control % Pow2(8 - n) == 0)
    requires Reads(c, index, Body(items, n, spare)) && Placed(items, n, index)
    requires InReach(items, |out|) && |out| + Length(items) <= size
    ensures n' <= 8 && (n' > 0 ==> ControlFor(control', End, n', spare) && control' % Pow2(8 - n') == 0)
    ensures Onward(c, index, control, n, out, size) ==
            Onward(c, index - |Body(items, n, spare)|, control', n', Meaning(items, out), size)
    decreases items, if n == 0 then 1 else 0
  {
    hide Onward, At, Pow2, Shift, ControlFor, Reads;
    if items.End? {
      control', n' := control, n;
    } else if n == 0 {
      var flags := Bit8(items, spare);
      GroupStarts(items, spare);
      ReadsSplit(c, index, [flags], Body(items, 8, spare));
      ReadsOne(c, index, flags);
      GroupNext(c, index, control, out, size);
      control', n' := Through(items, 8, spare, flags, c, index - 1, out, size);
    } else {
      NextControl(items, n, spare, control);
      ShiftClears(control, n);
      hide Meaning, InReach, Length, Placed, Body;
      if items.Literal? {
        LiteralThrough(items, n, spare, control, c, index, out, size);
        control', n' := Through(items.rest, n - 1, spare, Shift(control), c, index - 1, [items.value] + out, size);
      } else {
        MatchThrough(items, n, spare, control, c, index, out, size);
        control', n' := Through(items.rest, n - 1, spare, Shift(control), c, index - 2,
                                Periodic(out, items.distance, items.length) + out, size);
      }
    }
  }

  /** One literal of a stream. */
  lemma LiteralThrough(items: Items, n: nat, spare: nat, control: byte, c: seq<byte>, index: int,
                       out: seq<byte>, size: nat)
    requires items.Literal? && 1 <= n <= 8 && control < 0x80
    requires Reads(c, index, Body(items, n, spare)) && Placed(items, n, index)
    requires InReach(items, |out|) && |out| + Length(items) <= size
    ensures var rest, out' := items.rest, [items.value] + out;
            Reads(c, index - 1, Body(rest, n - 1, spare)) && Placed(rest, n - 1, index - 1) &&
            InReach(rest, |out'|) && |out'| + Length(rest) <= size && Meaning(items, out) == Meaning(rest, out') &&
            |Body(items, n, spare)| == 1 + |Body(rest, n - 1, spare)| &&
            Onward(c, index, control, n, out, size) == Onward(c, index - 1, Shift(control), n - 1, out', size)
  {
    hide Onward, At, Shift, Reads;
    ReadsSplit(c, index, [items.value], Body(items.rest, n - 1, spare));
    ReadsOne(c, index, items.value);
    LiteralNext(c, index, control, n, out, size);
  }

  /** One match of a stream. */
  lemma MatchThrough(items: Items, n: nat, spare: nat, control: byte, c: seq<byte>, index: int,
                     out: seq<byte>, size: nat)
    requires items.Match? && 1 <= n <= 8 && control >= 0x80
    requires Reads(c, index, Body(items, n, spare)) && Placed(items, n, index)
    requires InReach(items, |out|) && |out| + Length(items) <= size
    ensures var rest, out' := items.rest, Periodic(out, items.distance, items.length) + out;
            Reads(c, index - 2, Body(rest, n - 1, spare)) && Placed(rest, n - 1, index - 2) &&
            InReach(rest, |out'|) && |out'| + Length(rest) <= size && Meaning(items, out) == Meaning(rest, out') &&
            |Body(items, n, spare)| == 2 + |Body(rest, n - 1, spare)| &&
            Onward(c, index, control, n, out, size) == Onward(c, index - 2, Shift(control), n - 1, out', size)
  {
    hide Onward, At, Shift, Reads, Periodic, MatchLength, MatchOffset, EncodeMatch;
    var pair := EncodeMatch(items.distance, items.length);
    ReadsSplit(c, index, pair, Body(items.rest, n - 1, spare));
    ReadsPair(c, index, pair);
    assert pair == [pair[0], pair[1]];
    MatchPair(items.distance, items.length, pair[1], pair[0]);
    MatchNext(c, index, control, n, out, size);
  }

  lemma GroupStarts(items: Items, spare: nat)
    ensures ControlFor(Bit8(items, spare), items, 8, spare) && Bit8(items, spare) % Pow2(0) == 0
  {
    assert Pow2(0) == 1;
  }

  /** Whatever is decoded without error was the stream of some items. */
  lemma {:induction false} Read(c: seq<byte>, index: int, control: byte, n: nat, out: seq<byte>, size: nat)
    returns (items: Items, spare: nat)
    requires |out| <= size && n <= 8 && (n > 0 ==> control % Pow2(8 - n) == 0)
    requires Onward(c, index, control, n, out, size).Ok?
    ensures n > 0 ==> ControlFor(control, items, n, spare)
    ensures Reads(c, index, Body(items, n, spare)) && Placed(items, n, index)
    ensures InReach(items, |out|) && |out| + Length(items) == size
    ensures Onward(c, index, control, n, out, size) == Ok(Meaning(items, out))
    decreases size - |out|, if n == 0 then 2 else 1
  {
    if |out| == size {
      items, spare := End, if n > 0 then control / Pow2(8 - n) else 0;
      if n > 0 { SpareControl(n, control); }
    } else if n == 0 {
      assert Pow2(0) == 1;
      hide Onward, At, Pow2;
      GroupNext(c, index, control, out, size);
      var flags := At(c, index - 1).value;
      items, spare := Read(c, index - 1, flags, 8, out, size);
      GroupRead(items, spare, flags);
      ReadsOne(c, index, flags);
      ReadsSplit(c, index, [flags], Body(items, 8, spare));
    } else if control < 0x80 {
      items, spare := ReadLiteral(c, index, control, n, out, size);
    } else {
      items, spare := ReadMatch(c, index, control, n, out, size);
    }
  }

  lemma GroupRead(items: Items, spare: nat, flags: byte)
    requires ControlFor(flags, items, 8, spare) && !items.End?
    ensures Body(items, 0, spare) == [flags] + Body(items, 8, spare)
  {
    assert Pow2(0) == 1;
  }

  lemma {:induction false} ReadLiteral(c: seq<byte>, index: int, control: byte, n: nat, out: seq<byte>, size: nat)
    returns (items: Items, spare: nat)
    requires |out| < size && 1 <= n <= 8 && control % Pow2(8 - n) == 0 && control < 0x80
    requires Onward(c, index, control, n, out, size).Ok?
    ensures ControlFor(control, items, n, spare)
    ensures Reads(c, index, Body(items, n, spare)) && Placed(items, n, index)
    ensures InReach(items, |out|) && |out| + Length(items) == size
    ensures Onward(c, index, control, n, out, size) == Ok(Meaning(items, out))
    decreases size - |out|, 0
  {
    hide Onward, At, Pow2, Shift, ControlFor;
    LiteralNext(c, index, control, n, out, size);
    ShiftClears(control, n);
    var value := At(c, index - 1).value;
    var rest;
    rest, spare := Read(c, index - 1, Shift(control), n - 1, [value] + out, size);
    items := Literal(value, rest);
    ControlBack(items, n, spare, control);
    ReadsOne(c, index, value);
    ReadsSplit(c, index, [value], Body(rest, n - 1, spare));
  }

  lemma {:induction false} ReadMatch(c: seq<byte>, index: int, control: byte, n: nat, out: seq<byte>, size: nat)
    returns (items: Items, spare: nat)
    requires |out| < size && 1 <= n <= 8 && control % Pow2(8 - n) == 0 && control >= 0x80
    requires Onward(c, index, control, n, out, size).Ok?
    ensures ControlFor(control, items, n, spare)
    ensures Reads(c, index, Body(items, n, spare)) && Placed(items, n, index)
    ensures InReach(items, |out|) && |out| + Length(items) == size
    ensures Onward(c, index, control, n, out, size) == Ok(Meaning(items, out))
    decreases size - |out|, 0
  {
    hide Onward, At, Pow2, Shift, ControlFor, MatchLength, MatchOffset, Periodic, EncodeMatch;
    MatchNext(c, index, control, n, out, size);
    ShiftClears(control, n);
    var lo, hi := At(c, index - 2).value, At(c, index - 1).value;
    var length, distance := MatchLength(lo, hi), MatchOffset(lo, hi) + 1;
    var rest;
    rest, spare := Read(c, index - 2, Shift(control), n - 1, Periodic(out, distance, length) + out, size);
    items := Match(distance, length, rest);
    ControlBack(items, n, spare, control);
    MatchPair(distance, length, lo, hi);
    ReadsPair(c, index, EncodeMatch(distance, length));
    ReadsSplit(c, index, EncodeMatch(distance, length), Body(rest, n - 1, spare));
  }

  // ----- whole images

  /** The image holds the stream of `items`, where its footer says, and nothing else is asked of it. */
  ghost predicate Encodes(image: seq<byte>, items: Items, spare: nat) {
    && 0xC <= |image| && InReach(items, 0)
    && var compressed, header := Word(image, |image| - 12), Word(image, |image| - 8);
       var extra := Word(image, |image| - 4);
       compressed <= |image| &&
       if compressed + extra == 0 then items.End?
       else
         Length(items) == |image| + extra &&
         var index: int := compressed as int - header;
         Reads(image[|image| - compressed..], index, Stream(items, spare)) && Placed(items, 0, index)
  }

  lemma GroupsIsOnward(c: seq<byte>, index: int, out: seq<byte>, size: nat)
    requires |out| <= size
    ensures Groups(c, index, out, size) == Onward(c, index, 0, 0, out, size)
  {
  }

  lemma EncodedDecodes(image: seq<byte>, items: Items, spare: nat)
    requires Encodes(image, items, spare)
    ensures Decompress(image) == Ok(Meaning(items, []))
  {
    hide Word, Groups;
    var compressed, header := Word(image, |image| - 12), Word(image, |image| - 8);
    var extra := Word(image, |image| - 4);
    if compressed + extra == 0 {
    } else {
      var c, size := image[|image| - compressed..], |image| + extra;
      var index: int := compressed as int - header;
      GroupsIsOnward(c, index, [], size);
      var control, n := Through(items, 0, spare, 0, c, index, [], size);
    }
  }

  /** What is decoded without error is the meaning of the items whose stream the image holds. */
  lemma DecodedMeans(image: seq<byte>) returns (items: Items, spare: nat)
    requires Decompress(image).Ok?
    ensures Encodes(image, items, spare) && Decompress(image) == Ok(Meaning(items, []))
  {
    hide Word, Groups;
    var compressed, header := Word(image, |image| - 12), Word(image, |image| - 8);
    var extra := Word(image, |image| - 4);
    if compressed + extra == 0 {
      items, spare := End, 0;
    } else {
      var c, size := image[|image| - compressed..], |image| + extra;
      var index: int := compressed as int - header;
      GroupsIsOnward(c, index, [], size);
      items, spare := Read(c, index, 0, 0, [], size);
    }
  }

  /** The decoder succeeds with `data` exactly when the image holds the stream of items that mean it. */
  lemma DecodesExactly(image: seq<byte>, data: seq<byte>)
    ensures Decompress(image) == Ok(data) <==>
            exists items, spare :: Encodes(image, items, spare) && Meaning(items, []) == data
  {
    hide Decompress, Meaning;
    if Decompress(image) == Ok(data) {
      var items, spare := DecodedMeans(image);
    }
    forall items, spare | Encodes(image, items, spare) && Meaning(items, []) == data
      ensures Decompress(image) == Ok(data)
    {
      EncodedDecodes(image, items, spare);
    }
  }

  // ----- images that were made

  lemma {:induction false} PlacedInFront(items: Items, n: nat, spare: nat, index: int)
    requires |Body(items, n, spare)| <= index
    ensures Placed(items, n, index)
    decreases items, if n == 0 then 1 else 0
  {
    match items
    case End =>
    case Literal(_, rest) =>
      if n == 0 { PlacedInFront(items, 8, spare, index - 1); } else { PlacedInFront(rest, n - 1, spare, index - 1); }
    case Match(_, _, rest) =>
      if n == 0 { PlacedInFront(items, 8, spare, index - 1); } else { PlacedInFront(rest, n - 1, spare, index - 2); }
  }

  lemma ImageParts(items: Items, spare: nat, gap: seq<byte>)
    requires ImageLength(items, spare, gap) <= Length(items) < 0x1_0000_0000
    ensures var image, total := Image(items, spare, gap), ImageLength(items, spare, gap);
            |image| == total && 12 <= total &&
            Word(image, total - 12) == total && Word(image, total - 8) == |gap| + 12 &&
            Word(image, total - 4) == Length(items) - total &&
            Reads(image, |Stream(items, spare)|, Stream(items, spare)) && Placed(items, 0, |Stream(items, spare)|)
  {
    PlacedInFront(items, 0, spare, |Stream(items, spare)|);
    hide Stream, Bytes32, Length, Placed, Word;
    var total := ImageLength(items, spare, gap);
    var front := Reversed(Stream(items, spare)) + gap;
    Footer(front, total, |gap| + 12, Length(items) - total);
    StreamRead(Stream(items, spare), gap, Bytes32(total) + (Bytes32(|gap| + 12) + Bytes32(Length(items) - total)));
  }

  lemma StreamRead(s: seq<byte>, gap: seq<byte>, footer: seq<byte>)
    ensures Reads(Reversed(s) + gap + footer, |s|, s)
  {
    var image := Reversed(s) + gap + footer;
    forall k | 0 <= k < |s| ensures At(image, |s| - 1 - k) == Some(s[k]) {
      assert image[|s| - 1 - k] == Reversed(s)[|s| - 1 - k];
    }
  }

  lemma Footer(front: seq<byte>, x: nat, y: nat, z: nat)
    requires x < 0x1_0000_0000 && y < 0x1_0000_0000 && z < 0x1_0000_0000
    ensures var image := front + (Bytes32(x) + (Bytes32(y) + Bytes32(z)));
            |image| == |front| + 12 && Word(image, |front|) == x && Word(image, |front| + 4) == y &&
            Word(image, |front| + 8) == z
  {
    hide Bytes32, Word;
    var image, i := front + (Bytes32(x) + (Bytes32(y) + Bytes32(z))), |front|;
    assert image[i..i + 4] == Bytes32(x);
    assert image[i + 4..i + 8] == Bytes32(y);
    assert image[i + 8..i + 12] == Bytes32(z);
    WordRoundTrip(image, i, x);
    WordRoundTrip(image, i + 4, y);
    WordRoundTrip(image, i + 8, z);
  }

  /**
   Round trip: whatever fills the spare flag bits and the gap before the footer, decoding
   the image of a list of items gives the list's meaning.
   */
  lemma RoundTrip(items: Items, spare: nat, gap: seq<byte>)
    requires InReach(items, 0) && ImageLength(items, spare, gap) <= Length(items) < 0x1_0000_0000
    ensures Decompress(Image(items, spare, gap)) == Ok(Meaning(items, []))
  {
    hide Image, Word, Stream, Placed, Length, Reads, Decompress, Meaning, InReach, ImageLength;
    ImageParts(items, spare, gap);
    StreamLength(items, spare, gap);
    var image := Image(items, spare, gap);
    assert image[0..] == image;
    EncodedDecodes(image, items, spare);
  }

  // ----- images behind an uncompressed prefix

  lemma {:induction false} MeaningKeeps(items: Items, out: seq<byte>)
    requires InReach(items, |out|)
    ensures Meaning(items, out)[Length(items)..] == out
    decreases items
  {
    hide Periodic;
    match items
    case End =>
    case Literal(value, rest) =>
      MeaningKeeps(rest, [value] + out);
      assert Meaning(items, out)[Length(items)..] == Meaning(rest, [value] + out)[Length(rest)..][1..];
    case Match(distance, length, rest) =>
      var more := Periodic(out, distance, length) + out;
      MeaningKeeps(rest, more);
      assert Meaning(items, out)[Length(items)..] == Meaning(rest, more)[Length(rest)..][length..];
  }

  /** What has been produced stays at the end of the result. */
  lemma OnwardKeeps(c: seq<byte>, index: int, control: byte, n: nat, out: seq<byte>, size: nat)
    requires |out| <= size && n <= 8 && (n > 0 ==> control % Pow2(8 - n) == 0)
    requires Onward(c, index, control, n, out, size).Ok?
    ensures Onward(c, index, control, n, out, size).data[size - |out|..] == out
  {
    hide Onward, Pow2, Meaning;
    var items, spare := Read(c, index, control, n, out, size);
    MeaningKeeps(items, out);
  }

  /** With no stream left, the next byte comes from the end of `c`: its last, or the one before. */
  lemma BelowStream(c: seq<byte>, control: byte, n: nat, out: seq<byte>, size: nat)
    requires 2 <= |c| && |out| < size && n <= 8 && (n > 0 ==> control % Pow2(8 - n) == 0)
    ensures var r := Onward(c, 0, control, n, out, size);
            r.Ok? ==> r.data[size - |out|..] == out && r.data[size - |out| - 1] in {c[|c| - 1], c[|c| - 2]}
  {
    assert Pow2(0) == 1;
    hide Onward, Pow2, Shift;
    if n == 0 {
      GroupNext(c, 0, control, out, size);
      LiteralBelow(c, -1, c[|c| - 1], 8, out, size);
    } else {
      LiteralBelow(c, 0, control, n, out, size);
    }
  }

  lemma LiteralBelow(c: seq<byte>, index: int, control: byte, n: nat, out: seq<byte>, size: nat)
    requires 2 <= |c| && -1 <= index <= 0 && |out| < size && 1 <= n <= 8 && control % Pow2(8 - n) == 0
    ensures var r := Onward(c, index, control, n, out, size);
            r.Ok? ==> r.data[size - |out|..] == out && r.data[size - |out| - 1] == c[|c| + index - 1]
  {
    hide Onward, Pow2, Shift;
    if control >= 0x80 {
      MatchNext(c, index, control, n, out, size);
    } else {
      LiteralNext(c, index, control, n, out, size);
      ShiftClears(control, n);
      var x := c[|c| + index - 1];
      var r := Onward(c, index, control, n, out, size);
      if r.Ok? {
        OnwardKeeps(c, index - 1, Shift(control), n - 1, [x] + out, size);
        var tail := r.data[size - |out| - 1..];
        assert tail == [x] + out && tail[0] == x && r.data[size - |out|..] == tail[1..];
      }
    }
  }

  /** Behind the stream of an image with a prefix the decoder is not done. */
  lemma GoesOn(p: seq<byte>, items: Items, spare: nat, gap: seq<byte>) returns (control: byte, n: nat)
    requires InReach(items, 0) && ImageLength(items, spare, gap) <= Length(items) < 0x1_0000_0000
    ensures n <= 8 && (n > 0 ==> ControlFor(control, End, n, spare) && control % Pow2(8 - n) == 0)
    ensures Decompress(p + Image(items, spare, gap)) ==
            Onward(Image(items, spare, gap), 0, control, n, Meaning(items, []), |p| + Length(items))
  {
    hide Image, Word, Stream, Placed, Length, Reads, Meaning, Onward, Pow2, Decompress, ImageLength, Body, InReach;
    hide ControlFor;
    ImageParts(items, spare, gap);
    var image, size, index := Image(items, spare, gap), |p| + Length(items), |Stream(items, spare)|;
    StreamLength(items, spare, gap);
    StreamIsBody(items, spare);
    Prefixed(p, image, |image|, |gap| + 12, Length(items) - |image|);
    assert Decompress(p + image) == Onward(image, index, 0, 0, [], size);
    control, n := Through(items, 0, spare, 0, image, index, [], size);
    assert index - |Body(items, 0, spare)| == 0;
  }

  /**
   An uncompressed prefix is not kept: the decoder goes on below the stream with the bytes at the
   end of the image. It raises, or the byte it puts directly below the meaning of the image is one
   of the image's last two.
   */
  lemma PrefixIsDecodedInto(p: seq<byte>, items: Items, spare: nat, gap: seq<byte>)
    requires p != [] && InReach(items, 0) && ImageLength(items, spare, gap) <= Length(items) < 0x1_0000_0000
    ensures var image := Image(items, spare, gap);
            2 <= |image| &&
            var r := Decompress(p + image);
            r.Ok? ==>
              |r.data| == |p| + Length(items) && r.data[|p|..] == Meaning(items, []) &&
              r.data[|p| - 1] in {image[|image| - 1], image[|image| - 2]}
  {
    hide Image, Length, Meaning, Onward, Pow2, Decompress;
    var control, n := GoesOn(p, items, spare, gap);
    BelowStream(Image(items, spare, gap), control, n, Meaning(items, []), |p| + Length(items));
  }

  lemma StreamLength(items: Items, spare: nat, gap: seq<byte>)
    ensures ImageLength(items, spare, gap) - (|gap| + 12) == |Stream(items, spare)|
  {
  }

  /** The decoder sees an image in front of which something lies only through its own bytes. */
  lemma Prefixed(p: seq<byte>, image: seq<byte>, compressed: nat, header: nat, extra: nat)
    requires 12 <= |image| == compressed
    requires Word(image, |image| - 12) == compressed && Word(image, |image| - 8) == header
    requires Word(image, |image| - 4) == extra
    ensures Decompress(p + image) == Onward(image, compressed - header, 0, 0, [], |p| + |image| + extra)
  {
    hide Word, Groups, Onward;
    PrefixedWords(p, image);
    var whole := p + image;
    assert whole[|whole| - |image|..] == image;
    GroupsIsOnward(image, compressed as int - header, [], |p| + |image| + extra);
  }

  lemma StreamIsBody(items: Items, spare: nat)
    ensures Body(items, 0, spare) == Stream(items, spare)
  {
  }

  lemma PrefixedWords(p: seq<byte>, image: seq<byte>)
    requires 12 <= |image|
    ensures var whole := p + image;
            Word(whole, |whole| - 12) == Word(image, |image| - 12) &&
            Word(whole, |whole| - 8) == Word(image, |image| - 8) && Word(whole, |whole| - 4) == Word(image, |image| - 4)
  {
  }

  /** So a prefix that does not end in one of those two bytes is always lost. */
  lemma PrefixIsLost(p: seq<byte>, items: Items, spare: nat, gap: seq<byte>)
    requires p != [] && InReach(items, 0) && ImageLength(items, spare, gap) <= Length(items) < 0x1_0000_0000
    requires var image := Image(items, spare, gap); p[|p| - 1] !in image[|image| - 2..]
    ensures Decompress(p + Image(items, spare, gap)) != Ok(p + Meaning(items, []))
  {
    PrefixIsDecodedInto(p, items, spare, gap);
    hide Image, Decompress, Meaning, Length;
    var image := Image(items, spare, gap);
    assert image[|image| - 2..] == [image[|image| - 2], image[|image| - 1]];
    assert (p + Meaning(items, []))[|p| - 1] == p[|p| - 1];
  }

  /** What the prefix holds is never looked at: of every length, at most one prefix can be kept. */
  lemma PrefixIsIgnored(p: seq<byte>, q: seq<byte>, image: seq<byte>)
    requires |p| == |q| && 12 <= |image| && Word(image, |image| - 12) <= |image|
    ensures Decompress(p + image) == Decompress(q + image)
  {
    hide Word, Groups;
    PrefixedWords(p, image);
    PrefixedWords(q, image);
    var compressed := Word(image, |image| - 12);
    assert (p + image)[|p + image| - compressed..] == image[|image| - compressed..];
    assert (q + image)[|q + image| - compressed..] == image[|image| - compressed..];
  }

  /**
   So it is kept exactly when it is what the image alone makes the decoder put there, whatever
   bytes `q` lie in its place.
   */
  lemma PrefixKeptExactly(p: seq<byte>, q: seq<byte>, items: Items, spare: nat, gap: seq<byte>)
    requires p != [] && |q| == |p|
    requires InReach(items, 0) && ImageLength(items, spare, gap) <= Length(items) < 0x1_0000_0000
    ensures var r := Decompress(q + Image(items, spare, gap));
            Decompress(p + Image(items, spare, gap)) == Ok(p + Meaning(items, [])) <==>
            r.Ok? && |p| <= |r.data| && r.data[..|p|] == p
  {
    hide Image, Decompress, Meaning, Length, Word, ImageLength, InReach, Reads, Placed, Stream;
    PrefixIsDecodedInto(q, items, spare, gap);
    ImageParts(items, spare, gap);
    PrefixIsIgnored(p, q, Image(items, spare, gap));
    var r := Decompress(q + Image(items, spare, gap));
    if r.Ok? { Joined(p, r.data, Meaning(items, [])); }
    assert (p + Meaning(items, []))[..|p|] == p;
  }

  lemma Joined(p: seq<byte>, data: seq<byte>, end: seq<byte>)
    requires |p| <= |data| && data[|p|..] == end
    ensures data == p + end <==> data[..|p|] == p
  {
    assert data == data[..|p|] + data[|p|..];
  }

  /** A zero byte in front of an image with clear spare flags that grows by less than 64 KiB is kept. */
  lemma ZeroIsKept(items: Items, gap: seq<byte>)
    requires InReach(items, 0) && ImageLength(items, 0, gap) <= Length(items) < 0x1_0000_0000
    requires Length(items) - ImageLength(items, 0, gap) < 0x1_0000
    ensures Decompress([0] + Image(items, 0, gap)) == Ok([0] + Meaning(items, []))
  {
    hide Image, Length, Meaning, Onward, Pow2, Decompress, ImageLength, InReach, ControlFor;
    ImageEnd(items, 0, gap);
    var image := Image(items, 0, gap);
    assert image[|image| - 2..][0] == 0 && image[|image| - 2..][1] == 0;
    var control, n := GoesOn([0], items, 0, gap);
    if n > 0 { NoFlags(control, n); }
    ZeroBelow(image, control, n, Meaning(items, []));
  }

  lemma NoFlags(control: byte, n: nat)
    requires 1 <= n <= 8 && ControlFor(control, End, n, 0)
    ensures control == 0
  {
    assert Control(End, n, 0) == 0;
    hide Pow2, Control;
    assert 0 * Pow2(8 - n) == 0;
  }

  lemma ZeroBelow(c: seq<byte>, control: byte, n: nat, out: seq<byte>)
    requires 2 <= |c| && c[|c| - 1] == 0 == c[|c| - 2] && (n > 0 ==> control == 0)
    ensures Onward(c, 0, control, n, out, |out| + 1) == Ok([0] + out)
  {
    if n == 0 {
      GroupNext(c, 0, control, out, |out| + 1);
      LiteralNext(c, -1, 0, 8, out, |out| + 1);
    } else {
      LiteralNext(c, 0, control, n, out, |out| + 1);
    }
  }

  /** Four literals and a match: 19 bytes that decode to 21. */
  function SmallItems(): Items {
    Literal(1, Literal(2, Literal(3, Literal(4, Match(4, 17, End)))))
  }

  /** In bytes. */
  lemma SmallDecodes()
    ensures Decompress([0x01, 0xE0, 4, 3, 2, 1, 0x08] + [19, 0, 0, 0] + [12, 0, 0, 0] + [2, 0, 0, 0]) ==
            Ok([1, 4, 3, 2, 1, 4, 3, 2, 1, 4, 3, 2, 1, 4, 3, 2, 1, 4, 3, 2, 1])
  {
    SmallStream();
    SmallImage();
    SmallMeaning();
    hide Stream, Image, Meaning, Decompress, SmallItems;
    RoundTrip(SmallItems(), 0, []);
  }

  /** In front of this image a single byte 7 is lost. */
  lemma SmallPrefixLost()
    ensures InReach(SmallItems(), 0) && ImageLength(SmallItems(), 0, []) <= Length(SmallItems())
    ensures Decompress([7] + Image(SmallItems(), 0, [])) != Ok([7] + Meaning(SmallItems(), []))
  {
    SmallStream();
    hide Stream, Image, Meaning, Decompress, SmallItems;
    ImageEnd(SmallItems(), 0, []);
    PrefixIsLost([7], SmallItems(), 0, []);
  }

  /** A zero there is kept. */
  lemma SmallPrefixKept()
    ensures Decompress([0] + Image(SmallItems(), 0, [])) == Ok([0] + Meaning(SmallItems(), []))
  {
    SmallStream();
    hide Stream, Image, Meaning, Decompress, SmallItems;
    ZeroIsKept(SmallItems(), []);
  }

  /** The last two bytes of an image are the upper half of its last word. */
  lemma ImageEnd(items: Items, spare: nat, gap: seq<byte>)
    requires ImageLength(items, spare, gap) <= Length(items) < 0x1_0000_0000
    ensures var image, extra := Image(items, spare, gap), Length(items) - ImageLength(items, spare, gap);
            2 <= |image| && image[|image| - 2..] == [extra / 0x1_0000 % 256, extra / 0x100_0000 % 256]
  {
    hide Stream, Length;
  }

  lemma SmallStream()
    ensures Stream(SmallItems(), 0) == [0x08, 1, 2, 3, 4, 0xE0, 0x01]
    ensures InReach(SmallItems(), 0) && Length(SmallItems()) == 21
  {
    SmallReach();
    SmallControl();
    SmallBody();
    hide Bit8, Body, InReach, Length;
    assert Stream(SmallItems(), 0) == [Bit8(SmallItems(), 0)] + Body(SmallItems(), 8, 0);
  }

  lemma SmallBody()
    ensures Body(SmallItems(), 8, 0) == [1, 2, 3, 4, 0xE0, 0x01]
  {
    assert EncodeMatch(4, 17) == [0xE0, 0x01];
    hide EncodeMatch, Body;
    var i4 := Match(4, 17, End);
    var i3 := Literal(4, i4);
    var i2 := Literal(3, i3);
    var i1 := Literal(2, i2);
    BodyNext(i4, 4);
    BodyNext(i3, 5);
    BodyNext(i2, 6);
    BodyNext(i1, 7);
    BodyNext(SmallItems(), 8);
    assert Body(i4, 4, 0) == [0xE0, 0x01] && Body(i3, 5, 0) == [4, 0xE0, 0x01] && Body(i2, 6, 0) == [3, 4, 0xE0, 0x01];
    assert Body(i1, 7, 0) == [2, 3, 4, 0xE0, 0x01];
  }

  lemma BodyNext(items: Items, n: nat)
    requires 1 <= n && !items.End?
    ensures var front := if items.Literal? then [items.value] else EncodeMatch(items.distance, items.length);
            Body(items, n, 0) == front + Body(items.rest, n - 1, 0)
    ensures 1 < n ==> Body(End, n - 1, 0) == []
  {
    hide Bit8, Control;
  }

  lemma SmallControl()
    ensures Bit8(SmallItems(), 0) == 0x08
  {
    var last := Match(4, 17, End);
    assert Pow2(3) == 8 && Control(End, 3, 0) == 0 % Pow2(3);
    assert Control(last, 4, 0) == 8;
    assert Control(Literal(3, Literal(4, last)), 6, 0) == 8;
  }

  lemma SmallReach()
    ensures InReach(SmallItems(), 0) && Length(SmallItems()) == 21
  {
    var last := Match(4, 17, End);
    assert Length(last) == 17 && InReach(last, 4);
    assert Length(Literal(3, Literal(4, last))) == 19 && InReach(Literal(3, Literal(4, last)), 2);
  }

  lemma ImageWithoutGap(items: Items)
    requires ImageLength(items, 0, []) <= Length(items) < 0x1_0000_0000
    ensures var total := ImageLength(items, 0, []);
            Image(items, 0, []) ==
            Reversed(Stream(items, 0)) + Bytes32(total) + Bytes32(12) + Bytes32(Length(items) - total)
  {
    hide Stream, Bytes32, Reversed, Length;
  }

  lemma SmallImage()
    ensures ImageLength(SmallItems(), 0, []) <= Length(SmallItems())
    ensures Image(SmallItems(), 0, []) ==
            [0x01, 0xE0, 4, 3, 2, 1, 0x08] + [19, 0, 0, 0] + [12, 0, 0, 0] + [2, 0, 0, 0]
  {
    SmallStream();
    hide Stream, Length, SmallItems, Image;
    ImageWithoutGap(SmallItems());
    SmallPieces();
    hide Bytes32, Reversed;
  }

  lemma SmallPieces()
    ensures Reversed([0x08, 1, 2, 3, 4, 0xE0, 0x01]) == [0x01, 0xE0, 4, 3, 2, 1, 0x08]
    ensures Bytes32(19) == [19, 0, 0, 0] && Bytes32(12) == [12, 0, 0, 0] && Bytes32(2) == [2, 0, 0, 0]
  {
  }

  lemma SmallMeaning()
    ensures InReach(SmallItems(), 0)
    ensures Meaning(SmallItems(), []) == [1, 4, 3, 2, 1, 4, 3, 2, 1, 4, 3, 2, 1, 4, 3, 2, 1, 4, 3, 2, 1]
  {
    SmallReach();
    hide Length;
    var last, out := Match(4, 17, End), [4, 3, 2, 1];
    assert Periodic(out, 4, 17) == [1, 4, 3, 2, 1, 4, 3, 2, 1, 4, 3, 2, 1, 4, 3, 2, 1];
    hide Periodic;
    assert Meaning(last, out) == Periodic(out, 4, 17) + out;
    assert [4] + ([3] + ([2] + ([1] + []))) == out;
    assert Meaning(Literal(3, Literal(4, last)), [2] + ([1] + [])) == Meaning(last, [4] + ([3] + ([2] + ([1] + []))));
  }
}
