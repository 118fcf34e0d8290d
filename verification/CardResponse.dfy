/**
 Fields of the 136-bit R2 response.  The controller leaves it in four registers without its
 checksum, so `_sdmmc_cache_rsp` shifts it by one byte into four words, most significant
 word first, and `unstuff_bits` cuts fields out of them.
 */
module CardResponse {
  import opened Arithmetic
  import opened BitMask

  type word = x: int | 0 <= x < 0x1_0000_0000

  /** Registers 0 to 3, least significant first. */
  datatype Registers = Registers(r0: word, r1: word, r2: word, r3: word)

  function ShiftLeft8(w: word): word { w * 256 % 0x1_0000_0000 }

  /** The top byte of `below` goes into the byte that shifting has freed. */
  lemma ByteIsFree(w: word, below: word)
    ensures Or(ShiftLeft8(w), below / 0x100_0000) == ShiftLeft8(w) + below / 0x100_0000 < 0x1_0000_0000
  {
    assert Pow2(8) == 256 by { assert Pow2(4) == 16; PowSum(4, 4); }
    ModUnique(w * 256, 0x1_0000_0000, w / 0x100_0000, w % 0x100_0000 * 256);
    OrIsSum(below / 0x100_0000, ShiftLeft8(w), 8);
  }

  function Carried(w: word, below: word): word {
    ByteIsFree(w, below);
    Or(ShiftLeft8(w), below / 0x100_0000)
  }

  /** The words the loop of `_sdmmc_cache_rsp` stores. */
  function CachedWord(r: Registers, i: nat): word
    requires i < 4
  {
    match i
    case 0 => Carried(r.r3, r.r2)
    case 1 => Carried(r.r2, r.r1)
    case 2 => Carried(r.r1, r.r0)
    case 3 => ShiftLeft8(r.r0)
  }

  /** The 120 bits of the registers as one number, and the 128 bits of the cached words. */
  function RegisterValue(r: Registers): nat {
    r.r0 + 0x1_0000_0000 * r.r1 + 0x1_0000_0000_0000_0000 * r.r2 + 0x1_0000_0000_0000_0000_0000_0000 * r.r3
  }

  function Value(rsp: seq<word>): nat
    requires |rsp| == 4
  {
    rsp[3] as int + 0x1_0000_0000 * rsp[2] as int + 0x1_0000_0000_0000_0000 * rsp[1] as int
    + 0x1_0000_0000_0000_0000_0000_0000 * rsp[0] as int
  }

  lemma CachedValue(r: Registers)
    ensures Value([CachedWord(r, 0), CachedWord(r, 1), CachedWord(r, 2), CachedWord(r, 3)])
         == RegisterValue(r) * 256 % 0x1_0000_0000_0000_0000_0000_0000_0000_0000
  {
    var rsp := [CachedWord(r, 0), CachedWord(r, 1), CachedWord(r, 2), CachedWord(r, 3)];
    hide Or;
    ByteIsFree(r.r3, r.r2);
    ByteIsFree(r.r2, r.r1);
    ByteIsFree(r.r1, r.r0);
    ByteCarried(r.r0);
    ByteCarried(r.r1);
    ByteCarried(r.r2);
    ByteCarried(r.r3);
    ModUnique(RegisterValue(r) * 256, 0x1_0000_0000_0000_0000_0000_0000_0000_0000, r.r3 / 0x100_0000, Value(rsp));
  }

  lemma ByteCarried(w: word)
    ensures w * 256 == w / 0x100_0000 * 0x1_0000_0000 + ShiftLeft8(w)
  {
    ModUnique(w * 256, 0x1_0000_0000, w / 0x100_0000, w % 0x100_0000 * 256);
  }

  /** The R2 branch of `_sdmmc_cache_rsp`. */
  method CacheResponse(r: Registers, rsp: array<word>)
    requires rsp.Length == 4
    modifies rsp
    ensures Value(rsp[..]) == RegisterValue(r) * 256 % 0x1_0000_0000_0000_0000_0000_0000_0000_0000
  {
    hide Value, RegisterValue, Or, ShiftLeft8;
    var i := 0;
    while i < 4
      invariant 0 <= i <= 4
      invariant forall k :: 0 <= k < i - 1 ==> rsp[k] == CachedWord(r, k)
      invariant 0 < i ==> rsp[i - 1] == ShiftLeft8(Register(r, i - 1))
    {
      var temp := Register(r, i);
      rsp[i] := ShiftLeft8(temp);
      if i != 0 {
        ByteIsFree(Register(r, i - 1), temp);
        rsp[i - 1] := Or(rsp[i - 1], temp / 0x100_0000);
      }
      i := i + 1;
    }
    CachedValue(r);
    assert rsp[..] == [CachedWord(r, 0), CachedWord(r, 1), CachedWord(r, 2), CachedWord(r, 3)];
  }

  function Register(r: Registers, i: nat): word
    requires i < 4
  {
    match i
    case 0 => r.r3
    case 1 => r.r2
    case 2 => r.r1
    case 3 => r.r0
  }

  /** `unstuff_bits`: the word that holds bit `start`, and the word above it if the field crosses over. */
  function Unstuff(rsp: seq<word>, start: nat, size: nat): nat
    requires |rsp| == 4 && 1 <= size <= 32 && start + size <= 128
  {
    var off, shift := 3 - start / 32, start % 32;
    if size + shift > 32 then Crossing(rsp[off], rsp[off - 1], shift, size) else Downward(rsp[off], shift) % Pow2(size)
  }

  /** `w << n` and `w >> n`. */
  function Upward(w: word, n: nat): word { w * Pow2(n) % 0x1_0000_0000 }

  function Downward(w: word, n: nat): nat {
    QuotientIsNat(w, Pow2(n));
    w / Pow2(n)
  }

  function Crossing(w: word, above: word, shift: nat, size: nat): nat
    requires shift < 32
  {
    Or(Downward(w, shift), Upward(above, 32 - shift)) % Pow2(size)
  }

  /** The word above goes into the bits that shifting has freed. */
  lemma CrossingIsSum(w: word, above: word, shift: nat)
    requires shift < 32
    ensures var low, high := Downward(w, shift), Upward(above, 32 - shift);
            Or(low, high) == low + high
  {
    PowerOfWord();
    hide Pow2;
    var p, r := Pow2(shift), Pow2(32 - shift);
    PowSum(32 - shift, shift);
    assert w == w / p * p + w % p;
    MulCancel(w / p, r, p);
    Remainder(above, r, p);
    OrIsSum(Downward(w, shift), Upward(above, 32 - shift), 32 - shift);
  }

  /** What is left of a multiple is a multiple. */
  lemma Remainder(a: nat, r: nat, p: nat)
    requires 0 < r && 0 < p
    ensures 0 < r * p && a * r % (r * p) % r == 0
  {
    var q, rest := a / p, a % p;
    assert a == q * p + rest;
    Distribute(q * p, rest, r);
    Associate(q, p, r);
    MulMono(rest + 1, p, r);
    Distribute(rest, 1, r);
    ModUnique(a * r, r * p, q, rest * r);
    ModUnique(rest * r, r, rest, 0);
  }

  /** Word `q` of the response and everything above it. */
  function Above(rsp: seq<word>, q: nat): nat
    requires |rsp| == 4 && q <= 4
    decreases 4 - q
  {
    if q == 4 then 0 else rsp[3 - q] + 0x1_0000_0000 * Above(rsp, q + 1)
  }

  lemma AboveIsQuotient(rsp: seq<word>, q: nat)
    requires |rsp| == 4 && q < 4
    ensures Value(rsp) / Pow2(32 * q) == Above(rsp, q)
  {
    PowerOfWord();
    hide Pow2;
    var a1 := rsp[2] + 0x1_0000_0000 * (rsp[1] + 0x1_0000_0000 * rsp[0] as int);
    AboveWords(rsp);
    if q == 1 {
      ModUnique(Value(rsp), 0x1_0000_0000, a1, rsp[3]);
    } else if q == 2 {
      ModUnique(Value(rsp), 0x1_0000_0000_0000_0000, rsp[1] + 0x1_0000_0000 * rsp[0] as int,
                rsp[3] as int + 0x1_0000_0000 * rsp[2] as int);
    } else if q == 3 {
      ModUnique(Value(rsp), 0x1_0000_0000_0000_0000_0000_0000, rsp[0],
                rsp[3] as int + 0x1_0000_0000 * rsp[2] as int + 0x1_0000_0000_0000_0000 * rsp[1] as int);
    }
  }

  lemma AboveWords(rsp: seq<word>)
    requires |rsp| == 4
    ensures Above(rsp, 3) == rsp[0] && Above(rsp, 2) == rsp[1] + 0x1_0000_0000 * rsp[0] as int
    ensures Above(rsp, 1) == rsp[2] + 0x1_0000_0000 * (rsp[1] + 0x1_0000_0000 * rsp[0] as int)
    ensures Above(rsp, 0) == Value(rsp)
  {
    assert Above(rsp, 4) == 0;
    assert Above(rsp, 3) == rsp[0];
    assert Above(rsp, 2) == rsp[1] + 0x1_0000_0000 * Above(rsp, 3);
    assert Above(rsp, 1) == rsp[2] + 0x1_0000_0000 * Above(rsp, 2);
  }

  lemma PowerOfWord()
    ensures Pow2(0) == 1 && Pow2(32) == 0x1_0000_0000 && Pow2(64) == 0x1_0000_0000_0000_0000
    ensures Pow2(96) == 0x1_0000_0000_0000_0000_0000_0000
  {
    assert Pow2(4) == 16;
    assert Pow2(0) == 1;
    hide Pow2;
    PowSum(4, 4);
    PowSum(8, 8);
    PowSum(16, 16);
    PowSum(32, 32);
    PowSum(64, 32);
  }

  /** A word shifted right, with the bits above it shifted in. */
  lemma ShiftedIn(w: nat, u: nat, s: nat)
    requires s < 32
    ensures (w + 0x1_0000_0000 * u) / Pow2(s) == w / Pow2(s) + u * Pow2(32 - s)
  {
    PowerOfWord();
    hide Pow2;
    PowSum(32 - s, s);
    var p, r := Pow2(s), Pow2(32 - s);
    Associate(u, r, p);
    ModShift(w, p, u * r);
  }

  /** Multiples of a larger power of two do not change a remainder. */
  lemma DropMultiple(x: nat, k: nat, big: nat, size: nat)
    requires size <= big
    ensures (x + k * Pow2(big)) % Pow2(size) == x % Pow2(size)
  {
    hide Pow2;
    PowSum(big - size, size);
    Associate(k, Pow2(big - size), Pow2(size));
    ModShift(x, Pow2(size), k * Pow2(big - size));
  }

  /** Of what is shifted in, only the word directly above can reach the field. */
  lemma DropAbove(low: nat, v: nat, u: nat, r: nat, size: nat)
    requires size <= 32
    ensures (low + (v + 0x1_0000_0000 * u) * r) % Pow2(size) == (low + v * r % 0x1_0000_0000) % Pow2(size)
  {
    PowerOfWord();
    hide Pow2;
    var q, rest := v * r / 0x1_0000_0000, v * r % 0x1_0000_0000;
    Distribute(v, 0x1_0000_0000 * u, r);
    Associate(0x1_0000_0000, u, r);
    DropMultiple(low + rest, q + u * r, 32, size);
  }

  lemma Quotient(rsp: seq<word>, q: nat, s: nat)
    requires |rsp| == 4 && q < 4 && s < 32
    ensures Value(rsp) / Pow2(32 * q + s) == rsp[3 - q] / Pow2(s) + Above(rsp, q + 1) * Pow2(32 - s)
  {
    assert Above(rsp, q) == rsp[3 - q] + 0x1_0000_0000 * Above(rsp, q + 1);
    hide Pow2, Value, Above;
    AboveIsQuotient(rsp, q);
    PowSum(32 * q, s);
    DivTwice(Value(rsp), Pow2(32 * q), Pow2(s));
    ShiftedIn(rsp[3 - q], Above(rsp, q + 1), s);
  }

  lemma CrossingDrops(w: word, v: word, u: nat, above: nat, s: nat, size: nat)
    requires s < 32 && size <= 32 && above == v + 0x1_0000_0000 * u
    ensures Crossing(w, v, s, size) == (w / Pow2(s) + above * Pow2(32 - s)) % Pow2(size)
  {
    hide Pow2, Or;
    CrossingIsSum(w, v, s);
    DropAbove(w / Pow2(s), v, u, Pow2(32 - s), size);
  }

  lemma CrossingIsField(rsp: seq<word>, q: nat, s: nat, size: nat)
    requires |rsp| == 4 && size <= 32 && q < 3 && s < 32
    ensures Crossing(rsp[3 - q], rsp[2 - q], s, size) == Value(rsp) / Pow2(32 * q + s) % Pow2(size)
  {
    assert Above(rsp, q + 1) == rsp[2 - q] + 0x1_0000_0000 * Above(rsp, q + 2);
    hide Pow2, Value, Above, Crossing;
    Quotient(rsp, q, s);
    CrossingDrops(rsp[3 - q], rsp[2 - q], Above(rsp, q + 2), Above(rsp, q + 1), s, size);
  }

  lemma InWordIsField(rsp: seq<word>, q: nat, s: nat, size: nat)
    requires |rsp| == 4 && q < 4 && s + size <= 32 && s < 32
    ensures Downward(rsp[3 - q], s) % Pow2(size) == Value(rsp) / Pow2(32 * q + s) % Pow2(size)
  {
    hide Pow2, Value, Above;
    Quotient(rsp, q, s);
    DropMultiple(Downward(rsp[3 - q], s), Above(rsp, q + 1), 32 - s, size);
  }

  /** `unstuff_bits` on the cached response gives bits `start` to `start + size - 1` of its value. */
  lemma UnstuffIsField(rsp: seq<word>, start: nat, size: nat)
    requires |rsp| == 4 && 1 <= size <= 32 && start + size <= 128
    ensures Unstuff(rsp, start, size) == Value(rsp) / Pow2(start) % Pow2(size)
  {
    hide Pow2, Value, Above, Crossing, Downward;
    var q, s := start / 32, start % 32;
    assert start == 32 * q + s;
    if size + s > 32 {
      CrossingIsField(rsp, q, s, size);
    } else {
      InWordIsField(rsp, q, s, size);
    }
  }
}
