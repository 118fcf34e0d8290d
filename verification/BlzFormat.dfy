/**
 The BLZ format, independently of the decoder: what a list of literals and matches means
 and the image that encodes it.
 */
module BlzFormat {
  import opened Arithmetic
  import opened Bytes
  import opened Blz
  import opened Words

  type Distance = x: int | 3 <= x <= 4098 witness 3
  type RunLength = x: int | 3 <= x <= 18 witness 3

  /** Items in decoding order: the first one produces the end of the output. */
  datatype Items =
    | End
    | Literal(value: byte, rest: Items)
    | Match(distance: Distance, length: RunLength, rest: Items)

  function Length(items: Items): nat {
    match items
    case End => 0
    case Literal(_, rest) => 1 + Length(rest)
    case Match(_, length, rest) => length + Length(rest)
  }

  /** Every match refers to output that has been produced before it. */
  predicate InReach(items: Items, produced: nat) {
    match items
    case End => true
    case Literal(_, rest) => InReach(rest, produced + 1)
    case Match(distance, length, rest) => distance <= produced && InReach(rest, produced + length)
  }

  /** The first `distance` bytes of `out`, repeated downwards for `n` bytes. */
  function Periodic(out: seq<byte>, distance: nat, n: nat): (r: seq<byte>)
    requires 0 < distance <= |out|
    ensures |r| == n
  {
    seq(n, k requires 0 <= k < n => out[distance - 1 - (n - 1 - k) % distance])
  }

  function Meaning(items: Items, out: seq<byte>): (r: seq<byte>)
    requires InReach(items, |out|)
    ensures |r| == |out| + Length(items)
    decreases items
  {
    match items
    case End => out
    case Literal(value, rest) => Meaning(rest, [value] + out)
    case Match(distance, length, rest) => Meaning(rest, Periodic(out, distance, length) + out)
  }

  // ----- encoding

  /** The flags of the next `n` items, top bit first; `spare` fills the bits no item uses. */
  function Control(items: Items, n: nat, spare: nat): (r: nat)
    ensures r < Pow2(n)
  {
    if n == 0 then 0
    else match items
      case End => spare % Pow2(n)
      case Literal(_, rest) => Control(rest, n - 1, spare)
      case Match(_, _, rest) => Pow2(n - 1) + Control(rest, n - 1, spare)
  }

  function Bit8(items: Items, spare: nat): byte {
    assert Pow2(8) == 256 by { assert Pow2(4) == 16; }
    Control(items, 8, spare)
  }

  /** The stream in reading order, that is from its highest address down. */
  function Stream(items: Items, spare: nat): (r: seq<byte>)
    decreases items, 1
  {
    if items.End? then [] else [Bit8(items, spare)] + Body(items, 8, spare)
  }

  /** What follows a control byte of which `n` flags are left. */
  function Body(items: Items, n: nat, spare: nat): (r: seq<byte>)
    decreases items, if n == 0 then 2 else 0
  {
    if n == 0 then Stream(items, spare)
    else match items
      case End => []
      case Literal(value, rest) => [value] + Body(rest, n - 1, spare)
      case Match(distance, length, rest) =>
        EncodeMatch(distance, length) + Body(rest, n - 1, spare)
  }

  function EncodeMatch(distance: Distance, length: RunLength): (r: seq<byte>)
    ensures |r| == 2
  {
    var v := (length - 3) * 0x1000 + (distance - 3);
    [v / 256, v % 256]
  }

  function Reversed(s: seq<byte>): (r: seq<byte>)
    ensures |r| == |s|
  {
    seq(|s|, k requires 0 <= k < |s| => s[|s| - 1 - k])
  }

  /** The stream, any bytes between it and the footer, and the footer. */
  function Image(items: Items, spare: nat, gap: seq<byte>): (r: seq<byte>)
    requires ImageLength(items, spare, gap) <= Length(items) < 0x1_0000_0000
    ensures |r| == ImageLength(items, spare, gap)
  {
    var total := ImageLength(items, spare, gap);
    Reversed(Stream(items, spare)) + gap
      + (Bytes32(total) + (Bytes32(|gap| + 12) + Bytes32(Length(items) - total)))
  }

  function ImageLength(items: Items, spare: nat, gap: seq<byte>): nat {
    |Stream(items, spare)| + |gap| + 12
  }

  // ----- matches and flags

  lemma {:induction false} RepeatIsPeriodic(out: seq<byte>, offset: nat, n: nat, base: seq<byte>, m: nat)
    requires offset < |base| && out == Periodic(base, offset + 1, m) + base
    ensures Repeat(out, offset, n) == Periodic(base, offset + 1, m + n) + base
    decreases n
  {
    if n == 0 {
    } else {
      PeriodicNext(base, offset + 1, m);
      RepeatIsPeriodic([out[offset]] + out, offset, n - 1, base, m + 1);
    }
  }

  /** The byte a repetition adds next is the one it finds `distance` places above. */
  lemma NextByte(base: seq<byte>, distance: nat, m: nat)
    requires 0 < distance <= |base|
    ensures (Periodic(base, distance, m) + base)[distance - 1] == base[distance - 1 - m % distance]
  {
    if m < distance {
      ModUnique(m, distance, 0, m);
    } else {
      ModBack(m, distance);
    }
  }

  lemma PeriodicNext(base: seq<byte>, distance: nat, m: nat)
    requires 0 < distance <= |base|
    ensures var out := Periodic(base, distance, m) + base;
            [out[distance - 1]] + out == Periodic(base, distance, m + 1) + base
  {
    NextByte(base, distance, m);
    assert Periodic(base, distance, m + 1) == [base[distance - 1 - m % distance]] + Periodic(base, distance, m);
  }

  lemma BelowTopBit(c: nat, p: nat, q: nat)
    requires c < p && 0 < q && p * q == 128
    ensures c * q < 128
  {
    assert c * q <= (p - 1) * q;
  }

  lemma ShiftFlag(flag: bool, c: nat, p: nat, q: nat, control: byte)
    requires c < p && 0 < q && p * q == 128 && control == ((if flag then p else 0) + c) * q
    ensures (control >= 0x80 <==> flag) && Shift(control) == c * (2 * q)
  {
    BelowTopBit(c, p, q);
    var x := c * q;
    assert control == (if flag then 128 else 0) + x by {
      assert (p + c) * q == p * q + c * q;
    }
    assert c * (2 * q) == 2 * x;
  }

  lemma PowersOfByte(n: nat)
    requires 1 <= n <= 8
    ensures Pow2(n - 1) * Pow2(8 - n) == 128 && Pow2(9 - n) == 2 * Pow2(8 - n)
  {
    assert Pow2(0) == 1 && Pow2(1) == 2 && Pow2(2) == 4 && Pow2(3) == 8;
    assert Pow2(4) == 16 && Pow2(5) == 32 && Pow2(6) == 64 && Pow2(7) == 128;
  }

  lemma MatchBytes(distance: Distance, length: RunLength)
    ensures var v := (length - 3) * 0x1000 + (distance - 3);
            MatchLength(v % 256, v / 256) == length && MatchOffset(v % 256, v / 256) == distance - 1
  {
  }

  lemma MatchRepeats(out: seq<byte>, distance: nat, n: nat)
    requires 0 < distance <= |out|
    ensures Repeat(out, distance - 1, n) == Periodic(out, distance, n) + out
  {
    RepeatIsPeriodic(out, distance - 1, n, out, 0);
  }

  ghost predicate ControlFor(control: byte, items: Items, n: nat, spare: nat) {
    n <= 8 && control == Control(items, n, spare) * Pow2(8 - n)
  }

  /** The top bit of a control byte is the next flag, and shifting it out leaves the others. */
  lemma NextControl(items: Items, n: nat, spare: nat, control: byte)
    requires !items.End? && 1 <= n && ControlFor(control, items, n, spare)
    ensures (control >= 0x80 <==> items.Match?) && ControlFor(Shift(control), items.rest, n - 1, spare)
  {
    hide Shift;
    PowersOfByte(n);
    ShiftFlag(items.Match?, Control(items.rest, n - 1, spare), Pow2(n - 1), Pow2(8 - n), control);
  }

  /** Shifting keeps the bits below the flags clear. */
  lemma ShiftClears(control: byte, n: nat)
    requires 1 <= n <= 8 && control % Pow2(8 - n) == 0
    ensures Shift(control) % Pow2(9 - n) == 0
  {
    hide Shift, Pow2;
    var a := ShiftSplits(control, n);
    ModUnique(Shift(control), Pow2(9 - n), if a >= Pow2(n - 1) then a - Pow2(n - 1) else a, 0);
  }

  lemma ShiftSplits(control: byte, n: nat) returns (a: nat)
    requires 1 <= n <= 8 && control % Pow2(8 - n) == 0
    ensures control == a * Pow2(8 - n) && a < 2 * Pow2(n - 1) && (control >= 0x80 <==> a >= Pow2(n - 1))
    ensures var b := if a >= Pow2(n - 1) then a - Pow2(n - 1) else a;
            Shift(control) == b * Pow2(9 - n)
  {
    PowersOfByte(n);
    hide Pow2;
    var p, q := Pow2(n - 1), Pow2(8 - n);
    a := control / q;
    assert control == a * q;
    TopFlag(a, p, q);
    var flag, b := a >= p, if a >= p then a - p else a;
    assert control == ((if flag then p else 0) + b) * q;
    ShiftFlag(flag, b, p, q, control);
  }

  lemma TopFlag(a: nat, p: nat, q: nat)
    requires 0 < q && p * q == 128 && a * q < 256
    ensures a < 2 * p
  {
    if a >= 2 * p {
      MulMono(2 * p, a, q);
      Associate(2, p, q);
    }
  }

  /** Conversely, a control byte is made of its top bit and what shifting it out leaves. */
  lemma ControlBack(items: Items, n: nat, spare: nat, control: byte)
    requires !items.End? && 1 <= n <= 8 && control % Pow2(8 - n) == 0 && (control >= 0x80 <==> items.Match?)
    requires 1 < n ==> ControlFor(Shift(control), items.rest, n - 1, spare)
    ensures ControlFor(control, items, n, spare)
  {
    var a := ShiftSplits(control, n);
    var p, c := Pow2(n - 1), Control(items.rest, n - 1, spare);
    assert n == 1 ==> p == 1 && c == 0;
    assert Control(items, n, spare) == (if items.Match? then p else 0) + c;
    hide Pow2, Shift, Control;
    var b := if a >= p then a - p else a;
    if n > 1 { SameFactor(b, c, Pow2(9 - n)); }
    assert a == Control(items, n, spare);
  }

  lemma SameFactor(b: nat, c: nat, m: nat)
    requires 0 < m && b * m == c * m
    ensures b == c
  {
    ModUnique(b * m, m, b, 0);
    ModUnique(c * m, m, c, 0);
  }

  /** Flags that no item uses are spare. */
  lemma SpareControl(n: nat, control: byte)
    requires 1 <= n <= 8 && control % Pow2(8 - n) == 0
    ensures ControlFor(control, End, n, control / Pow2(8 - n))
  {
    var a := ShiftSplits(control, n);
    assert Pow2(n) == 2 * Pow2(n - 1);
    hide Pow2;
    ModUnique(control, Pow2(8 - n), a, 0);
    ModUnique(a, Pow2(n), 0, a);
  }
}
