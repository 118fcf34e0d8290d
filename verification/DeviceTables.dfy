/**
 The tables for a range of device addresses mapped through one directory and one shared page
 table.  Sections that can be large pages are large pages, the others go through the table.
 Walking them gives the requested flat mapping exactly when one table suffices.
 */
module DeviceTables {
  import opened Arithmetic
  import opened SmmuEntry
  import opened SmmuCoherence

  /** Map `size` bytes at `base`, an offset into one 4 GiB region, to `phys`. */
  datatype Request = Request(base: nat, phys: nat, size: nat) {
    predicate Valid() {
      && base % 0x1000 == 0 && phys % 0x1000 == 0 && size % 0x1000 == 0
      && base + size <= 0x1_0000_0000 && phys + size <= 0x4_0000_0000
    }

    /** Section `s` lies inside the range and its physical address is aligned like a large page. */
    predicate IsLarge(s: nat) {
      base <= s * 0x40_0000 && (s + 1) * 0x40_0000 <= base + size && (phys - base) % 0x40_0000 == 0
    }

    /** Some of section `s` lies in the part of the range below `cur`. */
    predicate Reached(s: nat, cur: nat) {
      base < cur && s * 0x40_0000 < cur && base < (s + 1) * 0x40_0000
    }

    predicate Contains(va: nat) { base <= va < base + size }

    /** At most one section needs the table. */
    predicate OneTableSuffices() {
      || size == 0
      || base / 0x40_0000 == (base + size - 1) / 0x40_0000
      || ((phys - base) % 0x40_0000 == 0 && (base % 0x40_0000 == 0 || (base + size) % 0x40_0000 == 0))
    }

    /** The flat mapping that was asked for: readable and writable, for non-secure accesses too. */
    function Flat(va: nat): Translation {
      if Contains(va) then To(phys + (va - base), Rights(true, true, true)) else Fault
    }
  }

  function LargeEntry(phys: nat): nat
    requires phys < 0x4_0000_0000
  {
    EncodeValue(true, true, true, phys, false)
  }

  function TableEntry(phys: nat): nat
    requires phys < 0x4_0000_0000
  {
    EncodeValue(true, true, true, phys, true)
  }

  function Translate(table: nat, l0: seq<nat>, l1: seq<nat>, va: nat): Translation
    requires |l0| == 0x400 && |l1| == 0x400 && va < 0x1_0000_0000
  {
    Resolve(table, l0[va / 0x40_0000], l1[va % 0x40_0000 / 0x1000], va)
  }

  // ----- what the tables hold once the range below `cur` is mapped

  ghost predicate DirectoryBuilt(l0: seq<nat>, rq: Request, table: nat, cur: nat)
    requires |l0| == 0x400 && rq.Valid() && table < 0x4_0000_0000
  {
    forall s :: 0 <= s < 0x400 ==>
      l0[s] ==
      if !rq.Reached(s, cur) then 0
      else if rq.IsLarge(s) then LargeEntry(rq.phys + (s * 0x40_0000 - rq.base))
      else TableEntry(table)
  }

  /** The table belongs to section `last`, the last one reached that needed it; -1 if none did. */
  ghost predicate TableBuilt(l1: seq<nat>, rq: Request, last: int, cur: nat)
    requires |l1| == 0x400 && rq.Valid() && -1 <= last && cur <= rq.base + rq.size
  {
    && (last >= 0 ==> last < 0x400 && rq.Reached(last, cur) && !rq.IsLarge(last))
    && (forall s :: last < s < 0x400 && rq.Reached(s, cur) ==> rq.IsLarge(s))
    && (last >= 0 ==>
          forall j :: 0 <= j < 0x400 ==>
            l1[j] ==
            var va := last * 0x40_0000 + j * 0x1000;
            if rq.base <= va < cur then TableEntry(rq.phys + (va - rq.base)) else 0)
  }

  ghost predicate Built(l0: seq<nat>, l1: seq<nat>, rq: Request, table: nat, last: int) {
    && |l0| == 0x400 && |l1| == 0x400 && rq.Valid() && table < 0x4_0000_0000 && table % 0x1000 == 0 && -1 <= last
    && DirectoryBuilt(l0, rq, table, rq.base + rq.size)
    && TableBuilt(l1, rq, last, rq.base + rq.size)
  }

  lemma ZeroEntry()
    ensures !IsValid(0)
  {
  }

  lemma Aligned(rq: Request, pages: nat)
    requires rq.Valid() && rq.base <= pages * 0x1000
    ensures (rq.phys + (pages * 0x1000 - rq.base)) % 0x1000 == 0
  {
    var a, b := rq.phys / 0x1000, rq.base / 0x1000;
    ModUnique(rq.phys + (pages * 0x1000 - rq.base), 0x1000, a + (pages - b), 0);
  }

  lemma WalkLarge(l0: seq<nat>, l1: seq<nat>, rq: Request, table: nat, last: int, va: nat)
    requires Built(l0, l1, rq, table, last) && va < 0x1_0000_0000
    requires rq.IsLarge(va / 0x40_0000)
    ensures Translate(table, l0, l1, va) == rq.Flat(va)
  {
    hide IsValid, IsTable, GetPhysicalAddress, GetRights, EncodeValue;
    var s := va / 0x40_0000;
    var phys := rq.phys + (s * 0x40_0000 - rq.base);
    assert va == s * 0x40_0000 + va % 0x40_0000;
    assert l0[s] == LargeEntry(phys);
    Aligned(rq, s * 0x400);
    EntryRoundTrip(true, true, true, phys, false);
  }

  lemma WalkUnreached(l0: seq<nat>, l1: seq<nat>, rq: Request, table: nat, last: int, va: nat)
    requires Built(l0, l1, rq, table, last) && va < 0x1_0000_0000
    requires !rq.Reached(va / 0x40_0000, rq.base + rq.size)
    ensures Translate(table, l0, l1, va) == rq.Flat(va)
  {
    ZeroEntry();
    hide IsValid, IsTable, GetPhysicalAddress, GetRights, EncodeValue;
    assert va == va / 0x40_0000 * 0x40_0000 + va % 0x40_0000;
  }

  lemma PageOf(va: nat)
    ensures va == va / 0x40_0000 * 0x40_0000 + va % 0x40_0000 / 0x1000 * 0x1000 + va % 0x1000
    ensures va % 0x40_0000 / 0x1000 < 0x400
  {
    var offset := va % 0x40_0000;
    ModUnique(va, 0x1000, 0x400 * (va / 0x40_0000) + offset / 0x1000, offset % 0x1000);
  }

  lemma WalkLastTable(l0: seq<nat>, l1: seq<nat>, rq: Request, table: nat, last: int, va: nat)
    requires Built(l0, l1, rq, table, last) && va < 0x1_0000_0000 && va / 0x40_0000 == last
    ensures Translate(table, l0, l1, va) == rq.Flat(va)
  {
    hide IsValid, IsTable, GetPhysicalAddress, GetRights, EncodeValue;
    PageOf(va);
    assert l0[last] == TableEntry(table);
    EntryRoundTrip(true, true, true, table, true);
    PageEntry(l1, rq, last, va);
  }

  /** The range contains an address exactly when it contains its page. */
  lemma ContainsPage(rq: Request, page: nat, va: nat)
    requires rq.Valid() && page * 0x1000 <= va < page * 0x1000 + 0x1000
    ensures rq.Contains(va) <==> rq.Contains(page * 0x1000)
  {
    var first, pages := rq.base / 0x1000, rq.size / 0x1000;
    assert rq.base == first * 0x1000 && rq.size == pages * 0x1000;
  }

  lemma PageEntry(l1: seq<nat>, rq: Request, last: int, va: nat)
    requires |l1| == 0x400 && rq.Valid() && 0 <= last && TableBuilt(l1, rq, last, rq.base + rq.size)
    requires va / 0x40_0000 == last
    ensures var j := va % 0x40_0000 / 0x1000;
            j < 0x400 && (IsValid(l1[j]) <==> rq.Contains(va)) &&
            (rq.Contains(va) ==>
               GetPhysicalAddress(l1[j]) + va % 0x1000 == rq.phys + (va - rq.base) &&
               GetRights(l1[j]) == Rights(true, true, true))
  {
    PageOf(va);
    var j := va % 0x40_0000 / 0x1000;
    ContainsPage(rq, last * 0x400 + j, va);
    TableHolds(l1, rq, last, j);
  }

  lemma TableHolds(l1: seq<nat>, rq: Request, last: int, j: nat)
    requires |l1| == 0x400 && rq.Valid() && 0 <= last && TableBuilt(l1, rq, last, rq.base + rq.size) && j < 0x400
    ensures var page := last * 0x40_0000 + j * 0x1000;
            (IsValid(l1[j]) <==> rq.Contains(page)) &&
            (rq.Contains(page) ==>
               GetPhysicalAddress(l1[j]) == rq.phys + (page - rq.base) && GetRights(l1[j]) == Rights(true, true, true))
  {
    ZeroEntry();
    hide IsValid, IsTable, GetPhysicalAddress, GetRights, EncodeValue;
    var page := last * 0x40_0000 + j * 0x1000;
    if rq.Contains(page) {
      Aligned(rq, last * 0x400 + j);
      EntryRoundTrip(true, true, true, rq.phys + (page - rq.base), true);
    }
  }

  /** Where one table suffices, only the last table section needs it. */
  lemma OneTableSection(rq: Request, last: int, s: nat)
    requires rq.Valid() && -1 <= last && rq.OneTableSuffices() && rq.size > 0
    requires last >= 0 ==> rq.Reached(last, rq.base + rq.size) && !rq.IsLarge(last)
    requires forall k :: last < k < 0x400 && rq.Reached(k, rq.base + rq.size) ==> rq.IsLarge(k)
    requires s < 0x400 && rq.Reached(s, rq.base + rq.size) && !rq.IsLarge(s)
    ensures s == last
  {
  }

  lemma BothEndsNeedTables(rq: Request)
    requires rq.Valid() && !rq.OneTableSuffices()
    ensures var first, final, end := rq.base / 0x40_0000, (rq.base + rq.size - 1) / 0x40_0000, rq.base + rq.size;
            first < final < 0x400 && rq.Reached(first, end) && !rq.IsLarge(first) &&
            rq.Reached(final, end) && !rq.IsLarge(final)
  {
    var first, final, end := rq.base / 0x40_0000, (rq.base + rq.size - 1) / 0x40_0000, rq.base + rq.size;
    assert first * 0x40_0000 <= rq.base < (first + 1) * 0x40_0000;
    assert final * 0x40_0000 <= end - 1 < (final + 1) * 0x40_0000;
    if (final + 1) * 0x40_0000 <= end { assert end == (final + 1) * 0x40_0000; }
    if rq.base <= first * 0x40_0000 { assert rq.base == first * 0x40_0000; }
  }

  /** Where it does not, the table of the first section has been given to the last one. */
  lemma FirstSectionLost(l0: seq<nat>, l1: seq<nat>, rq: Request, table: nat, last: int)
    requires Built(l0, l1, rq, table, last) && !rq.OneTableSuffices()
    ensures Translate(table, l0, l1, rq.base) != rq.Flat(rq.base)
  {
    ZeroEntry();
    hide IsValid, IsTable, GetPhysicalAddress, GetRights, EncodeValue;
    BothEndsNeedTables(rq);
    EntryRoundTrip(true, true, true, table, true);
    var j := rq.base % 0x40_0000 / 0x1000;
    assert l0[rq.base / 0x40_0000] == TableEntry(table);
    OtherPage(l1, rq, last, j);
  }

  /** No entry of the table leads to the first page of the range. */
  lemma OtherPage(l1: seq<nat>, rq: Request, last: int, j: nat)
    requires |l1| == 0x400 && rq.Valid() && -1 <= last && TableBuilt(l1, rq, last, rq.base + rq.size)
    requires !rq.OneTableSuffices() && j < 0x400
    ensures !IsValid(l1[j]) || GetPhysicalAddress(l1[j]) != rq.phys
  {
    ZeroEntry();
    hide IsValid, IsTable, GetPhysicalAddress, GetRights, EncodeValue;
    BothEndsNeedTables(rq);
    var final := (rq.base + rq.size - 1) / 0x40_0000;
    assert last >= final;
    var va := last * 0x40_0000 + j * 0x1000;
    assert va > rq.base;
    Aligned(rq, last * 0x400 + j);
    if rq.Contains(va) { EntryRoundTrip(true, true, true, rq.phys + (va - rq.base), true); }
  }

  /** The walk gives the flat mapping everywhere exactly when one table suffices. */
  lemma FlatExactlyWhenOneTable(l0: seq<nat>, l1: seq<nat>, rq: Request, table: nat, last: int)
    requires Built(l0, l1, rq, table, last)
    ensures (forall va :: 0 <= va < 0x1_0000_0000 ==> Translate(table, l0, l1, va) == rq.Flat(va))
            <==> rq.OneTableSuffices()
  {
    hide Translate;
    if rq.OneTableSuffices() {
      forall va | 0 <= va < 0x1_0000_0000 ensures Translate(table, l0, l1, va) == rq.Flat(va) {
        var s := va / 0x40_0000;
        if !rq.Reached(s, rq.base + rq.size) {
          WalkUnreached(l0, l1, rq, table, last, va);
        } else if rq.IsLarge(s) {
          WalkLarge(l0, l1, rq, table, last, va);
        } else {
          OneTableSection(rq, last, s);
          WalkLastTable(l0, l1, rq, table, last, va);
        }
      }
    } else {
      FirstSectionLost(l0, l1, rq, table, last);
    }
  }

  /** The same tables as words of memory: the hardware's walk is this one. */
  lemma WalkIsTranslate(l: Layout, m: map<nat, nat>, l0: seq<nat>, l1: seq<nat>, page: nat)
    requires l.Valid() && Complete(l, m) && |l0| == 0x400 && |l1| == 0x400 && page < 0x10_0000
    requires forall i :: 0 <= i < 0x400 ==> l.DirectoryWord(i) in m && m[l.DirectoryWord(i)] == l0[i]
    requires forall j :: 0 <= j < 0x400 ==> l.TableWord(j) in m && m[l.TableWord(j)] == l1[j]
    ensures Walk(l, m, page) == Translate(l.table, l0, l1, page * 0x1000)
  {
    var va := page * 0x1000;
    assert va / 0x40_0000 == page / 0x400 && va % 0x40_0000 / 0x1000 == page % 0x400;
  }
}
