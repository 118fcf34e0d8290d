/**
 The backward LZ ("BLZ") decoder of the NXO loader.  Both the compressed stream and the
 output run from high to low addresses: control bytes of eight flags, then for each flag
 one literal byte or a two-byte match against output already written above.
 */
module Blz {
  import opened Bytes
  import opened Options
  import opened Words

  /** `Error` stands for every Python exception the function can raise. */
  datatype Result = Ok(data: seq<byte>) | Error

  /** A Python list index: negative indices count from the end. */
  function At(s: seq<byte>, i: int): (r: Option<byte>)
    ensures 0 <= i < |s| ==> r == Some(s[i])
    ensures r.None? <==> i >= |s| || i < -|s|
  {
    if 0 <= i < |s| then Some(s[i])
    else if -|s| <= i < 0 then Some(s[|s| + i])
    else None
  }

  // ----- the decoder

  /** `out` is the output written so far, the top `|out|` bytes of `size`. */
  function Groups(c: seq<byte>, index: int, out: seq<byte>, size: nat): (r: Result)
    requires |out| <= size
    ensures r.Ok? ==> |r.data| == size
    decreases size - |out|, 9
  {
    if |out| == size then Ok(out) else
    match At(c, index - 1)
    case None => Error
    case Some(control) => Flags(c, index - 1, control, 8, out, size)
  }

  /** The remaining `n` flags of a group, in the top bits of `control`. */
  function Flags(c: seq<byte>, index: int, control: byte, n: nat, out: seq<byte>, size: nat): (r: Result)
    requires |out| < size && 1 <= n
    ensures r.Ok? ==> |r.data| == size
    decreases size - |out|, n
  {
    if control >= 0x80 then
      if index < 2 then Error else
      match (At(c, index - 2), At(c, index - 1))
      case (Some(lo), Some(hi)) =>
        var length, offset := MatchLength(lo, hi), MatchOffset(lo, hi);
        if size - |out| < length || offset >= |out| then Error
        else After(c, index - 2, control, n, Repeat(out, offset, length), size, |out|)
      case _ => Error
    else
      match At(c, index - 1)
      case Some(value) => After(c, index - 1, control, n, [value] + out, size, |out|)
      case None => Error
  }

  function After(c: seq<byte>, index: int, control: byte, n: nat, out: seq<byte>, size: nat, before: nat): (r: Result)
    requires before < |out| <= size && 1 <= n
    ensures r.Ok? ==> |r.data| == size
    decreases size - before, 0
  {
    if |out| == size then Ok(out)
    else if n == 1 then Groups(c, index, out, size)
    else Flags(c, index, Shift(control), n - 1, out, size)
  }

  function Shift(control: byte): byte {
    (control as int * 2) % 256
  }

  function MatchLength(lo: byte, hi: byte): (r: nat)
    ensures 3 <= r <= 18
  {
    (lo + 256 * hi as int) / 0x1000 + 3
  }

  function MatchOffset(lo: byte, hi: byte): (r: nat)
    ensures 2 <= r <= 4097
  {
    (lo + 256 * hi as int) % 0x1000 + 2
  }

  /** `n` bytes in front of `out`, each a copy of the one `offset` places behind the next. */
  function Repeat(out: seq<byte>, offset: nat, n: nat): (r: seq<byte>)
    requires offset < |out|
    ensures |r| == |out| + n
    decreases n
  {
    if n == 0 then out else Repeat([out[offset]] + out, offset, n - 1)
  }

  function Decompress(image: seq<byte>): (r: Result)
  {
    if |image| < 0xC then Error else
    var compressed := Word(image, |image| - 12);
    var header := Word(image, |image| - 8);
    var extra := Word(image, |image| - 4);
    if |image| < compressed then Error
    else if compressed + extra == 0 then Ok([])
    else Groups(image[|image| - compressed..], compressed - header, [], |image| + extra)
  }

  /** The output positions `size - 1` down to `size - n`, in that order. */
  ghost predicate Descending(writes: seq<nat>, size: nat, n: nat) {
    |writes| == n && forall k :: 0 <= k < n ==> writes[k] == size - 1 - k
  }

  /**
   The match loop: copy `length` bytes downwards, each from `offset` places above its successor.
   `log` is `writes` with every position written since.
   */
  method CopyDown(data: array<byte>, outIndex: nat, offset: nat, length: nat, ghost writes: seq<nat>)
    returns (ghost log: seq<nat>)
    requires length <= outIndex && outIndex + offset < data.Length
    requires Descending(writes, data.Length, data.Length - outIndex)
    modifies data
    ensures data[outIndex - length..] == Repeat(old(data[outIndex..]), offset, length)
    ensures Descending(log, data.Length, data.Length - outIndex + length)
  {
    hide Repeat;
    log := writes;
    RepeatDone(data[outIndex..], offset);
    var j := 0;
    while j < length
      invariant j <= length && Descending(log, data.Length, data.Length - outIndex + j)
      invariant Repeat(data[outIndex - j..], offset, length - j) == Repeat(old(data[outIndex..]), offset, length)
    {
      ghost var out := data[outIndex - j..];
      RepeatNext(out, offset, length - j);
      data[outIndex - j - 1] := data[outIndex - j + offset];
      log := log + [outIndex - j - 1];
      assert data[outIndex - j - 1..] == [out[offset]] + out;
      j := j + 1;
    }
    RepeatDone(data[outIndex - j..], offset);
  }

  lemma RepeatDone(out: seq<byte>, offset: nat)
    requires offset < |out|
    ensures Repeat(out, offset, 0) == out
  {
  }

  lemma RepeatNext(out: seq<byte>, offset: nat, n: nat)
    requires offset < |out| && 0 < n
    ensures Repeat(out, offset, n) == Repeat([out[offset]] + out, offset, n - 1)
  {
  }

  /** The body of the flag loop: one literal or one match. */
  method Item(c: seq<byte>, index: int, control: byte, ghost n: nat, data: array<byte>, outIndex: nat,
              ghost writes: seq<nat>)
    returns (ok: bool, index': int, outIndex': nat, ghost log: seq<nat>)
    requires 0 < outIndex <= data.Length && 1 <= n
    requires Descending(writes, data.Length, data.Length - outIndex)
    modifies data
    ensures ok ==> outIndex' < outIndex && Descending(log, data.Length, data.Length - outIndex')
    ensures Flags(c, index, control, n, old(data[outIndex..]), data.Length) ==
            if ok
            then After(c, index', control, n, data[outIndex'..], data.Length, data.Length - outIndex)
            else Error
  {
    hide After, Repeat, MatchLength, MatchOffset;
    ok, index', outIndex', log := false, index, outIndex, writes;
    if control >= 0x80 {
      if index < 2 { return; }
      index' := index - 2;
      if At(c, index').None? || At(c, index' + 1).None? { return; }
      var lo, hi := At(c, index').value, At(c, index' + 1).value;
      var length, offset := MatchLength(lo, hi), MatchOffset(lo, hi);
      if outIndex < length || outIndex + offset >= data.Length { return; }
      log := CopyDown(data, outIndex, offset, length, writes);
      outIndex' := outIndex - length;
    } else {
      index' := index - 1;
      if At(c, index').None? { return; }
      ghost var out := data[outIndex..];
      outIndex' := outIndex - 1;
      data[outIndex'] := At(c, index').value;
      log := log + [outIndex'];
      assert data[outIndex'..] == [data[outIndex']] + out;
    }
    ok := true;
  }

  /**
   `kip1_blz_decompress`: the output list is filled from its end, every position once.
   `writes` records the positions in the order they are written.
   */
  method DecompressList(image: seq<byte>) returns (r: Result, ghost writes: seq<nat>)
    ensures r == Decompress(image)
    ensures r.Ok? ==> Descending(writes, |r.data|, |r.data|)
  {
    hide Groups, Flags, At;
    writes := [];
    if |image| < 0xC { return Error, []; }
    var compressed := Word(image, |image| - 12);
    var header := Word(image, |image| - 8);
    var extra := Word(image, |image| - 4);
    if |image| < compressed { return Error, []; }
    if compressed + extra == 0 { return Ok([]), []; }

    var c := image[|image| - compressed..];
    var size := |image| + extra;
    var data := new byte[size];
    var index := compressed as int - header as int;
    var outIndex := size;
    ghost var goal := Groups(c, index, [], size);
    assert data[size..] == [];
    while outIndex > 0
      invariant 0 <= outIndex <= size && Descending(writes, size, size - outIndex)
      invariant Groups(c, index, data[outIndex..], size) == goal
    {
      GroupStep(c, index, data[outIndex..], size);
      index := index - 1;
      if At(c, index).None? { return Error, writes; }
      var control := At(c, index).value;
      ghost var start := outIndex;
      var i := 0;
      while i < 8 && outIndex > 0
        invariant 0 <= i <= 8 && 0 <= outIndex <= size && Descending(writes, size, size - outIndex)
        invariant outIndex == 0 ==> goal == Ok(data[outIndex..])
        invariant outIndex > 0 && i == 8 ==> goal == Groups(c, index, data[outIndex..], size)
        invariant outIndex > 0 && i < 8 ==> goal == Flags(c, index, control, 8 - i, data[outIndex..], size)
        invariant if i == 0 then outIndex == start else outIndex < start
      {
        var ok;
        ok, index, outIndex, writes := Item(c, index, control, 8 - i, data, outIndex, writes);
        if !ok { return Error, writes; }
        control := Shift(control);
        i := i + 1;
      }
      GroupStep(c, index, data[outIndex..], size);
    }
    GroupStep(c, index, data[outIndex..], size);
    assert data[0..] == data[..];
    r := Ok(data[..]);
  }

  lemma GroupStep(c: seq<byte>, index: int, out: seq<byte>, size: nat)
    requires |out| <= size
    ensures |out| == size ==> Groups(c, index, out, size) == Ok(out)
    ensures |out| < size && At(c, index - 1).None? ==> Groups(c, index, out, size) == Error
    ensures |out| < size && At(c, index - 1).Some? ==>
              Groups(c, index, out, size) == Flags(c, index - 1, At(c, index - 1).value, 8, out, size)
  {
  }
}
