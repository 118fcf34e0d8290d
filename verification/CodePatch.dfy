/**
 The AArch64 instructions `main.c` writes into the FS module, and what a processor makes of
 them: B, ADRP and ADD (immediate) of section C6.2 of the Arm Architecture Reference Manual.

 Addresses and the differences between them are 64-bit values; every field of an
 instruction has bits of its own, so the source's `|` is a sum.
 */
module CodePatch {
  import opened Arithmetic

  type Address = x: int | 0 <= x < 0x1_0000_0000_0000_0000
  type Register = x: int | 0 <= x < 32

  // ----- encoding

  function Branch(source: Address, destination: Address): (r: nat)
  {
    0x1400_0000 + (destination - source) % 0x1_0000_0000_0000_0000 / 4 % 0x400_0000
  }

  /** `offset` is signed; shifting it right keeps its sign. */
  function Adrp(register: Register, offset: int): (r: nat)
  {
    var page := offset / 0x1000;
    0x9000_0000 + page % 4 * 0x2000_0000 + page / 4 % 0x8_0000 * 0x20 + register
  }

  function Add(register: Register, target: Register, value: nat): (r: nat)
    requires value < 0x1000
  {
    0x9100_0000 + value * 0x400 + register * 0x20 + target
  }

  // ----- decoding and executing

  function Signed(value: nat, half: nat): int {
    if value < half then value else value - 2 * half
  }

  predicate IsBranch(instruction: nat) { instruction / 0x400_0000 == 0x14_00_00_00 / 0x400_0000 }

  function BranchTarget(instruction: nat, pc: Address): Address {
    (pc + Signed(instruction % 0x400_0000, 0x200_0000) * 4) % 0x1_0000_0000_0000_0000
  }

  predicate IsAdrp(instruction: nat) { instruction / 0x8000_0000 == 1 && instruction / 0x100_0000 % 0x20 == 0x10 }

  function AdrpImmediate(instruction: nat): int {
    Signed(instruction / 0x20 % 0x8_0000 * 4 + instruction / 0x2000_0000 % 4, 0x10_0000)
  }

  function AdrpValue(instruction: nat, pc: Address): Address {
    (pc / 0x1000 * 0x1000 + AdrpImmediate(instruction) * 0x1000) % 0x1_0000_0000_0000_0000
  }

  predicate IsAdd(instruction: nat) { instruction / 0x40_0000 == 0x9100_0000 / 0x40_0000 }

  function AddValue(instruction: nat, operand: Address): Address {
    (operand + instruction / 0x400 % 0x1000) % 0x1_0000_0000_0000_0000
  }

  // ----- the round trips

  /** A branch lands on its target exactly when the target is less than 128 MiB away, either way. */
  lemma BranchLands(source: Address, destination: Address)
    requires source % 4 == 0 && destination % 4 == 0
    ensures IsBranch(Branch(source, destination))
    ensures BranchTarget(Branch(source, destination), source) == destination <==>
            var ahead := (destination - source) % 0x1_0000_0000_0000_0000;
            ahead < 0x800_0000 || ahead >= 0xFFFF_FFFF_F800_0000
  {
    var ahead := (destination - source) % 0x1_0000_0000_0000_0000;
    var words := ahead / 4;
    WrapsOnce(source, destination);
    ModUnique(ahead, 4, words, 0);
    var q, r := words / 0x400_0000, words % 0x400_0000;
    assert words == q * 0x400_0000 + r;
    Landing(source, ahead, Signed(r, 0x200_0000), if r < 0x200_0000 then q else q + 1);
  }

  function Wrapped(a: Address, b: Address): Address {
    if a + b < 0x1_0000_0000_0000_0000 then a + b else a + b - 0x1_0000_0000_0000_0000
  }

  lemma WrapsOnce(source: Address, destination: Address)
    requires source % 4 == 0 && destination % 4 == 0
    ensures var ahead := (destination - source) % 0x1_0000_0000_0000_0000;
            ahead % 4 == 0 && destination == Wrapped(source, ahead)
  {
    var d := destination - source;
    var q := destination / 4 - source / 4;
    assert d == 4 * q;
    ModUnique(d + 0x1_0000_0000_0000_0000, 4, q + 0x4000_0000_0000_0000, 0);
    ModUnique(d, 4, q, 0);
    if d >= 0 {
      ModUnique(d, 0x1_0000_0000_0000_0000, 0, d);
    } else {
      ModUnique(d, 0x1_0000_0000_0000_0000, -1, d + 0x1_0000_0000_0000_0000);
    }
  }

  /** Adding `4 * imm` to `source` gives `source + ahead`, both modulo 2^64. */
  lemma Landing(source: Address, ahead: Address, imm: int, k: int)
    requires -0x200_0000 <= imm < 0x200_0000 && ahead % 4 == 0
    requires ahead / 4 - imm == k * 0x400_0000
    ensures (source + imm * 4) % 0x1_0000_0000_0000_0000 == Wrapped(source, ahead) <==>
            ahead < 0x800_0000 || ahead >= 0xFFFF_FFFF_F800_0000
  {
    var x := source + imm * 4;
    if x >= 0x1_0000_0000_0000_0000 {
      ModUnique(x, 0x1_0000_0000_0000_0000, 1, x - 0x1_0000_0000_0000_0000);
    } else if x >= 0 {
      ModUnique(x, 0x1_0000_0000_0000_0000, 0, x);
    } else {
      ModUnique(x, 0x1_0000_0000_0000_0000, -1, x + 0x1_0000_0000_0000_0000);
    }
  }

  lemma AdrpFields(register: Register, lo: nat, hi: nat)
    requires lo < 4 && hi < 0x8_0000
    ensures var i := 0x9000_0000 + lo * 0x2000_0000 + hi * 0x20 + register;
            IsAdrp(i) && i % 0x20 == register && i / 0x20 % 0x8_0000 == hi && i / 0x2000_0000 % 4 == lo
  {
    var i := 0x9000_0000 + lo * 0x2000_0000 + hi * 0x20 + register;
    ModUnique(i, 0x20, 0x480_0000 + lo * 0x100_0000 + hi, register);
    ModUnique(0x480_0000 + lo * 0x100_0000 + hi, 0x8_0000, 0x90 + lo * 0x20, hi);
    ModUnique(i, 0x2000_0000, 4 + lo, 0x1000_0000 + hi * 0x20 + register);
    ModUnique(i, 0x100_0000, 0x90 + lo * 0x20, hi * 0x20 + register);
    ModUnique(0x90 + lo * 0x20, 0x20, 4 + lo, 0x10);
  }

  /** Exactly the page offsets of less than 4 GiB, forward or backward, survive the split immediate. */
  lemma AdrpRoundTrip(register: Register, offset: int)
    requires offset % 0x1000 == 0
    ensures IsAdrp(Adrp(register, offset)) && Adrp(register, offset) % 0x20 == register
    ensures AdrpImmediate(Adrp(register, offset)) * 0x1000 == offset <==> -0x1_0000_0000 <= offset < 0x1_0000_0000
  {
    var page := offset / 0x1000;
    var lo, high := page % 4, page / 4;
    var hi := high % 0x8_0000;
    AdrpFields(register, lo, hi);
    assert page == 4 * high + lo;
    if 0 <= high < 0x8_0000 {
      ModUnique(high, 0x8_0000, 0, high);
    } else if -0x8_0000 <= high < 0 {
      ModUnique(high, 0x8_0000, -1, high + 0x8_0000);
    }
  }

  lemma AddRoundTrip(register: Register, target: Register, value: nat)
    requires value < 0x1000
    ensures var i := Add(register, target, value);
            IsAdd(i) && i % 0x20 == target && i / 0x20 % 0x20 == register && i / 0x400 % 0x1000 == value
  {
    var i := Add(register, target, value);
    ModUnique(i, 0x20, 0x488_0000 + value * 0x20 + register, target);
    ModUnique(0x488_0000 + value * 0x20 + register, 0x20, 0x24_4000 + value, register);
    ModUnique(i, 0x400, 0x24_4000 + value, register * 0x20 + target);
    ModUnique(0x24_4000 + value, 0x1000, 0x244, value);
    ModUnique(i, 0x40_0000, 0x244, value * 0x400 + register * 0x20 + target);
  }

  /** The page offset `write_adrp_add` computes from the low halves of the two addresses. */
  function PageOffset(pc: Address, destination: Address): int {
    destination % 0x1_0000_0000 / 0x1000 * 0x1000 - pc % 0x1_0000_0000 / 0x1000 * 0x1000
  }

  /**
   ADRP at `pc` followed by ADD puts the destination into the register, except for its upper
   half, which is that of `pc`.
   */
  lemma AdrpAddReaches(register: Register, pc: Address, destination: Address)
    ensures var adrp := Adrp(register, PageOffset(pc, destination));
            var add := Add(register, register, destination % 0x1000);
            IsAdrp(adrp) && IsAdd(add) && adrp % 0x20 == add / 0x20 % 0x20 == add % 0x20 == register &&
            AddValue(add, AdrpValue(adrp, pc)) == pc / 0x1_0000_0000 * 0x1_0000_0000 + destination % 0x1_0000_0000
  {
    hide Adrp, Add, IsAdrp, IsAdd, AdrpValue, AddValue, PageOffset;
    AdrpReaches(register, pc, destination);
    AddRoundTrip(register, register, destination % 0x1000);
    LowBits(destination);
    var low := destination % 0x1_0000_0000;
    AddReaches(register, pc / 0x1_0000_0000 * 0x1_0000_0000 + low / 0x1000 * 0x1000, destination % 0x1000);
  }

  lemma AdrpReaches(register: Register, pc: Address, destination: Address)
    ensures var adrp := Adrp(register, PageOffset(pc, destination));
            IsAdrp(adrp) && adrp % 0x20 == register &&
            AdrpValue(adrp, pc) == pc / 0x1_0000_0000 * 0x1_0000_0000 + destination % 0x1_0000_0000 / 0x1000 * 0x1000
  {
    hide Adrp, IsAdrp, AdrpImmediate, PageOffset;
    PageDifference(pc, destination);
    AdrpRoundTrip(register, PageOffset(pc, destination));
    var page := pc / 0x1_0000_0000 * 0x1_0000_0000 + destination % 0x1_0000_0000 / 0x1000 * 0x1000;
    ModUnique(page, 0x1_0000_0000_0000_0000, 0, page);
  }

  lemma AddReaches(register: Register, operand: Address, value: nat)
    requires value < 0x1000 && operand + value < 0x1_0000_0000_0000_0000
    ensures AddValue(Add(register, register, value), operand) == operand + value
  {
    hide Add;
    AddRoundTrip(register, register, value);
    ModUnique(operand + value, 0x1_0000_0000_0000_0000, 0, operand + value);
  }

  lemma LowBits(a: Address)
    ensures a % 0x1000 == a % 0x1_0000_0000 % 0x1000
  {
    var q, low := a / 0x1_0000_0000, a % 0x1_0000_0000;
    ModUnique(a, 0x1000, q * 0x10_0000 + low / 0x1000, low % 0x1000);
  }

  /** So it reaches the destination exactly when both lie in one 4 GiB half. */
  lemma ReachesExactlyInHalf(pc: Address, destination: Address)
    ensures pc / 0x1_0000_0000 * 0x1_0000_0000 + destination % 0x1_0000_0000 == destination <==>
            pc / 0x1_0000_0000 == destination / 0x1_0000_0000
  {
  }

  lemma PageDifference(pc: Address, destination: Address)
    ensures var offset := PageOffset(pc, destination);
            offset % 0x1000 == 0 && -0x1_0000_0000 <= offset < 0x1_0000_0000 &&
            pc / 0x1000 * 0x1000 + offset ==
            pc / 0x1_0000_0000 * 0x1_0000_0000 + destination % 0x1_0000_0000 / 0x1000 * 0x1000
  {
    PageInHalf(pc);
    var p, d := pc % 0x1_0000_0000 / 0x1000, destination % 0x1_0000_0000 / 0x1000;
    ModUnique((d - p) * 0x1000, 0x1000, d - p, 0);
  }

  lemma PageInHalf(a: Address)
    ensures a / 0x1000 * 0x1000 == a / 0x1_0000_0000 * 0x1_0000_0000 + a % 0x1_0000_0000 / 0x1000 * 0x1000
  {
    var low := a % 0x1_0000_0000;
    ModUnique(a, 0x1000, a / 0x1_0000_0000 * 0x10_0000 + low / 0x1000, low % 0x1000);
  }

  // ----- patching the mapped code

  /** `_write32` on the mapping of the code that starts at `base`, a word at a time. */
  method Write32(code: array<nat>, base: Address, source: Address, value: nat)
    requires base <= source && (source - base) % 4 == 0 && (source - base) / 4 < code.Length
    modifies code
    ensures code[..] == old(code[..])[(source - base) / 4 := value]
  {
    code[(source - base) / 4] := value;
  }

  method HookFunction(code: array<nat>, base: Address, source: Address, target: Address)
    requires base <= source && (source - base) % 4 == 0 && (source - base) / 4 < code.Length
    requires source % 4 == 0 && target % 4 == 0
    modifies code
    ensures forall i :: 0 <= i < code.Length && i != (source - base) / 4 ==> code[i] == old(code[i])
    ensures IsBranch(code[(source - base) / 4])
    ensures BranchTarget(code[(source - base) / 4], source) == target <==>
            var ahead := (target - source) % 0x1_0000_0000_0000_0000;
            ahead < 0x800_0000 || ahead >= 0xFFFF_FFFF_F800_0000
  {
    hide Branch, BranchTarget, IsBranch;
    BranchLands(source, target);
    Write32(code, base, source, Branch(source, target));
  }

  method WriteAdrpAdd(code: array<nat>, base: Address, register: Register, pc: Address, addOffset: Address,
                      destination: Address)
    requires base <= pc && (pc - base) % 4 == 0 && (pc - base) / 4 < code.Length
    requires var at := (pc + addOffset) % 0x1_0000_0000_0000_0000;
             base <= at && (at - base) % 4 == 0 && (at - base) / 4 < code.Length
    modifies code
    ensures var i, j := (pc - base) / 4, ((pc + addOffset) % 0x1_0000_0000_0000_0000 - base) / 4;
            IsAdd(code[j]) && code[j] / 0x20 % 0x20 == code[j] % 0x20 == register &&
            (i != j ==>
               IsAdrp(code[i]) && code[i] % 0x20 == register &&
               AddValue(code[j], AdrpValue(code[i], pc)) ==
               pc / 0x1_0000_0000 * 0x1_0000_0000 + destination % 0x1_0000_0000 &&
               (AddValue(code[j], AdrpValue(code[i], pc)) == destination <==>
                pc / 0x1_0000_0000 == destination / 0x1_0000_0000)) &&
            forall k :: 0 <= k < code.Length && k != i && k != j ==> code[k] == old(code[k])
  {
    hide Adrp, Add, IsAdrp, IsAdd, AddValue, AdrpValue, PageOffset;
    AdrpAddReaches(register, pc, destination);
    ReachesExactlyInHalf(pc, destination);
    Write32(code, base, pc, Adrp(register, PageOffset(pc, destination)));
    Write32(code, base, (pc + addOffset) % 0x1_0000_0000_0000_0000, Add(register, register, destination % 0x1000));
  }
}
