/**
 Entries of the memory controller's two-level device page table, and the walk the hardware
 makes through them.  A directory entry maps a 4 MiB (0x40_0000) section, either as one large page or
 through a table of 4 KiB (0x1000) pages;
 both levels have 0x400 entries of four bytes, and physical addresses have 34 bits.
 */
module SmmuEntry {

  function EncodeBit(bit: nat, enabled: bool): nat {
    if enabled then bit else 0
  }

  /** The five fields occupy different bits, so the source's `|` is a sum. */
  function EncodeValue(r: bool, w: bool, ns: bool, addr: nat, t: bool): (v: nat)
    requires addr < 0x4_0000_0000
  {
    EncodeBit(0x8000_0000, r) + EncodeBit(0x4000_0000, w) + EncodeBit(0x2000_0000, ns)
    + EncodeBit(0x1000_0000, t) + addr / 0x1000
  }

  predicate GetBit(v: nat, bit: nat)
    requires 0 < bit
  {
    v / bit % 2 == 1
  }

  predicate IsTable(v: nat) { GetBit(v, 0x1000_0000) }

  predicate IsValid(v: nat) { GetBit(v, 0x4000_0000) || GetBit(v, 0x8000_0000) }

  /** What a device may do through an entry. */
  datatype Rights = Rights(read: bool, write: bool, nonSecure: bool) {
    function And(other: Rights): Rights {
      Rights(read && other.read, write && other.write, nonSecure && other.nonSecure)
    }
  }

  function GetRights(v: nat): Rights {
    Rights(GetBit(v, 0x8000_0000), GetBit(v, 0x4000_0000), GetBit(v, 0x2000_0000))
  }

  function GetPhysicalAddress(v: nat): nat { v * 0x1000 % 0x4_0000_0000 }

  /** Decoding gives back every field that was encoded. */
  lemma EntryRoundTrip(r: bool, w: bool, ns: bool, addr: nat, t: bool)
    requires addr < 0x4_0000_0000 && addr % 0x1000 == 0
    ensures var v := EncodeValue(r, w, ns, addr, t);
            v < 0x1_0000_0000 && v % 0x1000_0000 == addr / 0x1000 &&
            (v / 0x8000_0000 % 2 == 1 <==> r) && (v / 0x4000_0000 % 2 == 1 <==> w) &&
            (v / 0x2000_0000 % 2 == 1 <==> ns) && (v / 0x1000_0000 % 2 == 1 <==> t) &&
            IsTable(v) == t && IsValid(v) == (r || w) && GetRights(v) == Rights(r, w, ns) &&
            GetPhysicalAddress(v) == addr
  {
    var flags := (if r then 8 else 0) + (if w then 4 else 0) + (if ns then 2 else 0) + (if t then 1 else 0);
    Fields(flags, addr / 0x1000);
  }

  lemma Fields(flags: nat, page: nat)
    requires flags < 16 && page < 0x40_0000
    ensures var v := 0x1000_0000 * flags + page;
            v / 0x1000_0000 == flags && v / 0x2000_0000 == flags / 2 && v / 0x4000_0000 == flags / 4 &&
            v / 0x8000_0000 == flags / 8 && v * 0x1000 % 0x4_0000_0000 == page * 0x1000
  {
    var v := 0x1000_0000 * flags + page;
    assert v * 0x1000 == 0x4_0000_0000 * (64 * flags) + page * 0x1000;
  }

  datatype Translation = Fault | To(address: nat, rights: Rights)

  /**
   The walk for `va`, given its directory entry and the entry the page table at `table`
   holds for it.  No other table exists, so an entry that names one faults.  A device may do
   what every entry on the path lets it do.
   */
  function Resolve(table: nat, directoryEntry: nat, pageEntry: nat, va: nat): Translation {
    if !IsValid(directoryEntry) then Fault
    else if !IsTable(directoryEntry) then
      To(GetPhysicalAddress(directoryEntry) + va % 0x40_0000, GetRights(directoryEntry))
    else if GetPhysicalAddress(directoryEntry) != table || !IsValid(pageEntry) then Fault
    else To(GetPhysicalAddress(pageEntry) + va % 0x1000, GetRights(directoryEntry).And(GetRights(pageEntry)))
  }
}
