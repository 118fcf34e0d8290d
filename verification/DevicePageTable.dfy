/**
 `MapImpl`: mapping a range of device addresses through one directory and one shared page
 table, section by section, with the cache maintenance it issues on the way.
 */
module DevicePageTable {
  import opened Arithmetic
  import opened SmmuEntry
  import opened SmmuCoherence
  import opened DeviceTables
  import opened Maintenance

  /** Some section of the range cannot be a large page. */
  predicate NeedsTable(rq: Request) {
    rq.size > 0 &&
    !(rq.base % 0x40_0000 == 0 && (rq.base + rq.size) % 0x40_0000 == 0 && (rq.phys - rq.base) % 0x40_0000 == 0)
  }

  /** At the top of the loop the walk stands at the start of the range or of a section. */
  ghost predicate AtSection(rq: Request, cur: nat) {
    rq.Valid() && rq.base <= cur <= rq.base + rq.size && cur % 0x1000 == 0 &&
    (cur == rq.base || cur % 0x40_0000 == 0 || cur == rq.base + rq.size)
  }

  lemma LargeTest(rq: Request, cur: nat)
    requires AtSection(rq, cur) && cur < rq.base + rq.size
    ensures var phys := rq.phys + (cur - rq.base);
            cur % 0x40_0000 / 0x1000 == 0 && phys % 0x40_0000 == 0 && rq.base + rq.size - cur >= 0x40_0000
            <==> rq.IsLarge(cur / 0x40_0000)
    ensures !rq.Reached(cur / 0x40_0000, cur)
    ensures !rq.IsLarge(cur / 0x40_0000) ==> NeedsTable(rq)
  {
    var i, end := cur / 0x40_0000, rq.base + rq.size;
    assert cur == i * 0x40_0000 + cur % 0x40_0000;
    OffsetInSection(cur);
    if cur % 0x40_0000 == 0 { ModShift(rq.phys - rq.base, 0x40_0000, i); }
    if end % 0x40_0000 == 0 { assert end == end / 0x40_0000 * 0x40_0000; }
  }

  lemma OffsetInSection(cur: nat)
    requires cur % 0x1000 == 0
    ensures cur % 0x40_0000 / 0x1000 == 0 <==> cur % 0x40_0000 == 0
  {
    var c := cur / 0x1000;
    ModUnique(cur, 0x40_0000, c / 0x400, c % 0x400 * 0x1000);
  }

  lemma LargeStep(l0: seq<nat>, l1: seq<nat>, rq: Request, table: nat, last: int, cur: nat)
    requires |l0| == 0x400 && |l1| == 0x400 && table < 0x4_0000_0000 && -1 <= last
    requires AtSection(rq, cur) && cur < rq.base + rq.size && rq.IsLarge(cur / 0x40_0000)
    requires DirectoryBuilt(l0, rq, table, cur) && TableBuilt(l1, rq, last, cur)
    ensures var i, cur' := cur / 0x40_0000, cur + 0x40_0000;
            AtSection(rq, cur') && i < 0x400 && i * 0x40_0000 == cur &&
            DirectoryBuilt(l0[i := LargeEntry(rq.phys + (cur - rq.base))], rq, table, cur') &&
            TableBuilt(l1, rq, last, cur')
  {
    hide EncodeValue;
    LargeTest(rq, cur);
    var i, cur' := cur / 0x40_0000, cur + 0x40_0000;
    forall s: nat ensures rq.Reached(s, cur') <==> rq.Reached(s, cur) || s == i {}
    assert last < i;
  }

  /** The pages of section `i` that the second half of an iteration maps. */
  lemma TableStep(l0: seq<nat>, l1: seq<nat>, l1': seq<nat>, rq: Request, table: nat, last: int, cur: nat, n: nat)
    requires |l0| == 0x400 && |l1| == 0x400 && |l1'| == 0x400 && table < 0x4_0000_0000 && -1 <= last
    requires AtSection(rq, cur) && cur < rq.base + rq.size && !rq.IsLarge(cur / 0x40_0000)
    requires DirectoryBuilt(l0, rq, table, cur) && TableBuilt(l1, rq, last, cur)
    requires var j, pages := cur % 0x40_0000 / 0x1000, (rq.base + rq.size - cur) / 0x1000;
             n == if 0x400 - j <= pages then 0x400 - j else pages
    requires forall k :: 0 <= k < 0x400 ==>
               var j := cur % 0x40_0000 / 0x1000;
               l1'[k] == if j <= k < j + n then TableEntry(rq.phys + (cur - rq.base) + (k - j) * 0x1000) else 0
    ensures var i, cur' := cur / 0x40_0000, cur + n * 0x1000;
            0 < n && cur < cur' && AtSection(rq, cur') && i < 0x400 &&
            DirectoryBuilt(l0[i := TableEntry(table)], rq, table, cur') && TableBuilt(l1', rq, i, cur')
  {
    hide EncodeValue;
    LargeTest(rq, cur);
    SectionEnd(rq, cur, n);
    var i, j, cur' := cur / 0x40_0000, cur % 0x40_0000 / 0x1000, cur + n * 0x1000;
    forall s: nat ensures rq.Reached(s, cur') <==> rq.Reached(s, cur) || s == i {}
    assert DirectoryBuilt(l0[i := TableEntry(table)], rq, table, cur');
    forall k | 0 <= k < 0x400
      ensures var va := i * 0x40_0000 + k * 0x1000; (rq.base <= va < cur' <==> j <= k < j + n)
    {
      FirstPage(rq, cur, k);
    }
  }

  lemma SectionEnd(rq: Request, cur: nat, n: nat)
    requires AtSection(rq, cur) && cur < rq.base + rq.size
    requires var j, pages := cur % 0x40_0000 / 0x1000, (rq.base + rq.size - cur) / 0x1000;
             n == if 0x400 - j <= pages then 0x400 - j else pages
    ensures var i, j, cur' := cur / 0x40_0000, cur % 0x40_0000 / 0x1000, cur + n * 0x1000;
            cur == i * 0x40_0000 + j * 0x1000 && i < 0x400 && 0 < n && j + n <= 0x400 &&
            cur < cur' <= (i + 1) * 0x40_0000 && AtSection(rq, cur')
  {
    var c, pages := cur / 0x1000, (rq.base + rq.size - cur) / 0x1000;
    PagesLeft(rq, cur);
    PageIndex(c);
    var i, j := c / 0x400, c % 0x400;
    assert cur == c * 0x1000 && rq.base + rq.size - cur == pages * 0x1000;
    assert n == if 0x400 - j <= pages then 0x400 - j else pages;
    if n == 0x400 - j { ModUnique(cur + n * 0x1000, 0x40_0000, i + 1, 0); }
    ModUnique(cur + n * 0x1000, 0x1000, c + n, 0);
  }

  lemma PagesLeft(rq: Request, cur: nat)
    requires AtSection(rq, cur)
    ensures rq.base + rq.size - cur == (rq.base + rq.size - cur) / 0x1000 * 0x1000
  {
    ModUnique(rq.base + rq.size - cur, 0x1000, rq.base / 0x1000 + rq.size / 0x1000 - cur / 0x1000, 0);
  }

  lemma PageIndex(c: nat)
    ensures var cur := c * 0x1000; cur / 0x40_0000 == c / 0x400 && cur % 0x40_0000 / 0x1000 == c % 0x400
  {
    ModUnique(c * 0x1000, 0x40_0000, c / 0x400, c % 0x400 * 0x1000);
  }

  /** Below `cur` the section holds nothing of the range. */
  lemma FirstPage(rq: Request, cur: nat, k: nat)
    requires AtSection(rq, cur) && cur < rq.base + rq.size
    ensures var i, j := cur / 0x40_0000, cur % 0x40_0000 / 0x1000;
            rq.base <= i * 0x40_0000 + k * 0x1000 <==> j <= k
  {
    assert cur % 0x40_0000 % 0x1000 == 0;
  }

  /** A second table section would break the sharing of the table. */
  lemma SecondTable(rq: Request, last: int, cur: nat)
    requires AtSection(rq, cur) && cur < rq.base + rq.size && !rq.IsLarge(cur / 0x40_0000)
    requires 0 <= last && rq.Reached(last, cur) && !rq.IsLarge(last)
    ensures !rq.OneTableSuffices()
  {
    LargeTest(rq, cur);
    var end := rq.base + rq.size;
    assert rq.Reached(cur / 0x40_0000, end) && cur / 0x40_0000 != last;
  }

  lemma EntryZero()
    ensures !IsValid(0) && !IsTable(0)
  {
  }

  lemma Indices(q: nat, cur: nat, a: nat)
    requires a == 0x1_0000_0000 * q + cur && cur < 0x1_0000_0000
    ensures a % 0x1_0000_0000 == cur && a % 0x40_0000 == cur % 0x40_0000
  {
    ModUnique(a, 0x1_0000_0000, q, cur);
    ModUnique(a, 0x40_0000, 0x400 * q + cur / 0x40_0000, cur % 0x40_0000);
  }

  lemma AlignedSection(rq: Request, cur: nat)
    requires AtSection(rq, cur) && cur < rq.base + rq.size
    ensures (rq.phys + (cur - rq.base)) % 0x1000 == 0 && rq.phys + (cur - rq.base) < 0x4_0000_0000
  {
    ModUnique(rq.phys + (cur - rq.base), 0x1000, rq.phys / 0x1000 + (cur / 0x1000 - rq.base / 0x1000), 0);
  }

  lemma FirstTable(l1: seq<nat>, rq: Request, last: int, cur: nat)
    requires |l1| == 0x400 && -1 <= last && AtSection(rq, cur) && TableBuilt(l1, rq, last, cur)
    requires cur < rq.base + rq.size && !rq.IsLarge(cur / 0x40_0000) && rq.OneTableSuffices()
    ensures last == -1
  {
    if last >= 0 { SecondTable(rq, last, cur); }
  }

  lemma AlignedPages(rq: Request, cur: nat, n: nat, j: nat)
    requires AtSection(rq, cur) && cur < rq.base + rq.size && j == cur % 0x40_0000 / 0x1000
    requires var pages := (rq.base + rq.size - cur) / 0x1000; n == if 0x400 - j <= pages then 0x400 - j else pages
    ensures cur / 0x40_0000 < 0x400 && 0 < n && j + n <= 0x400
    ensures rq.base <= cur && n * 0x1000 <= rq.base + rq.size - cur
    ensures rq.phys + (cur - rq.base) + n * 0x1000 <= 0x4_0000_0000
  {
    SectionEnd(rq, cur, n);
  }

  /** A range that needs a table has a section that is not a large page. */
  lemma TableWasMade(l1: seq<nat>, rq: Request, last: int)
    requires |l1| == 0x400 && rq.Valid() && -1 <= last && TableBuilt(l1, rq, last, rq.base + rq.size) && NeedsTable(rq)
    ensures last >= 0
  {
    var end := rq.base + rq.size;
    var first, final := rq.base / 0x40_0000, (end - 1) / 0x40_0000;
    assert rq.Reached(first, end) && rq.Reached(final, end);
  }

  // ----- the loop on values

  /** The tables hold the range below `cur`. */
  ghost predicate Mapped(tb: Tables, rq: Request, l: Layout, last: int, cur: nat) {
    && tb.Full() && l.Valid() && l.table < 0x4_0000_0000 && -1 <= last
    && AtSection(rq, cur) && DirectoryBuilt(tb.l0, rq, l.table, cur) && TableBuilt(tb.l1, rq, last, cur)
  }

  /** The pages an iteration maps through the table. */
  ghost function PageCount(rq: Request, cur: nat): nat
    requires AtSection(rq, cur)
  {
    var j, pages := cur % 0x40_0000 / 0x1000, (rq.base + rq.size - cur) / 0x1000;
    if 0x400 - j <= pages then 0x400 - j else pages
  }

  /** Where the loop stands after an iteration at `cur`. */
  ghost function Advance(rq: Request, cur: nat): (r: nat)
    requires AtSection(rq, cur) && cur < rq.base + rq.size
    ensures AtSection(rq, r) && cur < r
  {
    if rq.IsLarge(cur / 0x40_0000) then
      LargeAdvance(rq, cur);
      cur + 0x40_0000
    else
      SectionEnd(rq, cur, PageCount(rq, cur));
      cur + PageCount(rq, cur) * 0x1000
  }

  lemma LargeAdvance(rq: Request, cur: nat)
    requires AtSection(rq, cur) && cur < rq.base + rq.size && rq.IsLarge(cur / 0x40_0000)
    ensures AtSection(rq, cur + 0x40_0000) && cur / 0x40_0000 * 0x40_0000 == cur && cur / 0x40_0000 < 0x400
  {
    LargeTest(rq, cur);
    assert cur == cur / 0x40_0000 * 0x40_0000 + cur % 0x40_0000;
    ModUnique(cur + 0x40_0000, 0x1000, cur / 0x1000 + 0x400, 0);
    ModUnique(cur + 0x40_0000, 0x40_0000, cur / 0x40_0000 + 1, 0);
  }

  /** The events of an iteration at `cur`. */
  ghost function StepEvents(rq: Request, l: Layout, cur: nat): seq<Event>
    requires AtSection(rq, cur) && cur < rq.base + rq.size && l.table < 0x4_0000_0000
  {
    var i, phys := cur / 0x40_0000, rq.phys + (cur - rq.base);
    if rq.IsLarge(i) then EntryEvents(l, i, LargeEntry(phys))
    else
      var j, n := cur % 0x40_0000 / 0x1000, PageCount(rq, cur);
      AlignedPages(rq, cur, n, j);
      TableEvents(l, i, j, n, phys)
  }

  /** What it makes of the tables. */
  ghost function StepTables(rq: Request, l: Layout, tb: Tables, cur: nat): (r: Tables)
    requires AtSection(rq, cur) && cur < rq.base + rq.size && l.table < 0x4_0000_0000 && tb.Full()
    ensures r.Full()
  {
    var i, phys := cur / 0x40_0000, rq.phys + (cur - rq.base);
    if rq.IsLarge(i) then
      LargeAdvance(rq, cur);
      tb.(l0 := tb.l0[i := LargeEntry(phys)])
    else
      var j, n := cur % 0x40_0000 / 0x1000, PageCount(rq, cur);
      AlignedPages(rq, cur, n, j);
      Tables(tb.l0[i := TableEntry(l.table)], Paged(Zeros(), j, n, phys))
  }

  function LastTable(rq: Request, last: int, cur: nat): int {
    if rq.IsLarge(cur / 0x40_0000) then last else cur / 0x40_0000
  }

  /** All events from `cur` on. */
  ghost function Issued(rq: Request, l: Layout, cur: nat): seq<Event>
    requires AtSection(rq, cur) && l.table < 0x4_0000_0000
    decreases rq.base + rq.size - cur
  {
    if cur == rq.base + rq.size then [] else StepEvents(rq, l, cur) + Issued(rq, l, Advance(rq, cur))
  }

  /** An iteration extends the mapped range. */
  lemma StepMaps(tb: Tables, rq: Request, l: Layout, last: int, cur: nat)
    requires Mapped(tb, rq, l, last, cur) && cur < rq.base + rq.size
    ensures Mapped(StepTables(rq, l, tb, cur), rq, l, LastTable(rq, last, cur), Advance(rq, cur))
  {
    hide AtSection, DirectoryBuilt, TableBuilt, EncodeValue;
    if rq.IsLarge(cur / 0x40_0000) {
      LargeStep(tb.l0, tb.l1, rq, l.table, last, cur);
    } else {
      var j, n := cur % 0x40_0000 / 0x1000, PageCount(rq, cur);
      AlignedPages(rq, cur, n, j);
      TableStep(tb.l0, tb.l1, Paged(Zeros(), j, n, rq.phys + (cur - rq.base)), rq, l.table, last, cur, n);
    }
  }

  /** Its events store exactly that, and write nothing but table words. */
  lemma StepStores(tb: Tables, rq: Request, l: Layout, cur: nat)
    requires AtSection(rq, cur) && cur < rq.base + rq.size && l.Valid() && l.table < 0x4_0000_0000 && tb.Full()
    ensures Stored(l, tb, StepEvents(rq, l, cur)) == StepTables(rq, l, tb, cur)
    ensures WritesWords(l, StepEvents(rq, l, cur))
  {
    hide AtSection, EncodeValue, Stored, EntryEvents, TableEvents, WritesWords, Paged, Zeros;
    var i, phys := cur / 0x40_0000, rq.phys + (cur - rq.base);
    AlignedSection(rq, cur);
    if rq.IsLarge(i) {
      LargeAdvance(rq, cur);
      EntryStores(l, tb, i, LargeEntry(phys));
      EntryWords(l, i, LargeEntry(phys));
    } else {
      var j, n := cur % 0x40_0000 / 0x1000, PageCount(rq, cur);
      AlignedPages(rq, cur, n, j);
      TableStores(l, tb, i, j, n, phys);
      TableWordsOnly(l, i, j, n, phys);
    }
  }

  /** What may be out of date between iterations: nothing; section `last` names the table. */
  function Between(last: int): Track {
    FRESH.(linked := if last < 0 then {} else {last as nat})
  }

  /** It is disciplined unless it takes the table from another section. */
  lemma StepReaches(rq: Request, l: Layout, last: int, cur: nat)
    requires AtSection(rq, cur) && cur < rq.base + rq.size && l.Valid() && l.table < 0x4_0000_0000
    requires rq.IsLarge(cur / 0x40_0000) || last == -1
    ensures Reaches(l, Between(last), StepEvents(rq, l, cur), Between(LastTable(rq, last, cur)))
  {
    hide AtSection, EncodeValue, EntryEvents, TableEvents, Reaches, IsTable;
    var i, phys := cur / 0x40_0000, rq.phys + (cur - rq.base);
    AlignedSection(rq, cur);
    if rq.IsLarge(i) {
      LargeAdvance(rq, cur);
      NotTable(phys);
      EntryReaches(l, Between(last), i, LargeEntry(phys));
    } else {
      var j, n := cur % 0x40_0000 / 0x1000, PageCount(rq, cur);
      AlignedPages(rq, cur, n, j);
      TableReaches(l, i, j, n, phys);
    }
  }

  /** The whole loop: the issued stores build the tables, with discipline where one table suffices. */
  lemma {:induction false} IssuedBuilds(tb: Tables, rq: Request, l: Layout, last: int, cur: nat) returns (last': int)
    requires Mapped(tb, rq, l, last, cur)
    ensures Mapped(Stored(l, tb, Issued(rq, l, cur)), rq, l, last', rq.base + rq.size)
    ensures rq.OneTableSuffices() ==> Reaches(l, Between(last), Issued(rq, l, cur), Between(last'))
    decreases rq.base + rq.size - cur
  {
    if cur == rq.base + rq.size {
      ReachNothing(l, Between(last));
      last' := last;
    } else {
      if rq.OneTableSuffices() {
        if !rq.IsLarge(cur / 0x40_0000) { FirstTable(tb.l1, rq, last, cur); }
        StepReaches(rq, l, last, cur);
      }
      hide DirectoryBuilt, TableBuilt, AtSection, StepEvents, StepTables, Stored, Reaches, EncodeValue;
      var events, next := StepEvents(rq, l, cur), Advance(rq, cur);
      StepMaps(tb, rq, l, last, cur);
      StepStores(tb, rq, l, cur);
      last' := IssuedBuilds(StepTables(rq, l, tb, cur), rq, l, LastTable(rq, last, cur), next);
      StoredConcat(l, tb, events, Issued(rq, l, next));
      if rq.OneTableSuffices() {
        ReachOn(l, Between(last), events, Between(LastTable(rq, last, cur)), Issued(rq, l, next), Between(last'));
      }
    }
  }

  lemma NothingMapped(tb: Tables, rq: Request, l: Layout)
    requires tb.Full() && l.Valid() && l.table < 0x4_0000_0000 && rq.Valid()
    requires forall i :: 0 <= i < 0x400 ==> tb.l0[i] == 0
    ensures Mapped(tb, rq, l, -1, rq.base)
  {
  }

  lemma AtNewSection(tb: Tables, rq: Request, l: Layout, last: int, cur: nat)
    requires Mapped(tb, rq, l, last, cur) && cur < rq.base + rq.size
    ensures cur / 0x40_0000 < 0x400 && !IsTable(tb.l0[cur / 0x40_0000]) && !IsValid(tb.l0[cur / 0x40_0000])
    ensures var phys := rq.phys + (cur - rq.base);
            cur % 0x40_0000 / 0x1000 == 0 && phys % 0x40_0000 == 0 && rq.base + rq.size - cur >= 0x40_0000
            <==> rq.IsLarge(cur / 0x40_0000)
    ensures !rq.IsLarge(cur / 0x40_0000) ==> NeedsTable(rq)
  {
    hide EncodeValue;
    LargeTest(rq, cur);
    EntryZero();
  }

  lemma EverythingMapped(tb: Tables, rq: Request, l: Layout, last: int)
    requires Mapped(tb, rq, l, last, rq.base + rq.size)
    ensures Built(tb.l0, tb.l1, rq, l.table, last)
    ensures NeedsTable(rq) ==> last >= 0
  {
    if NeedsTable(rq) { TableWasMade(tb.l1, rq, last); }
  }

  // ----- the program

  ghost function Contents(l1: array?<nat>): seq<nat>
    reads l1
  {
    if l1 == null then seq(0x400, _ => 0) else l1[..]
  }

  /** Write, clean and flush one directory entry. */
  method SetDirectoryEntry(l0: array<nat>, i: nat, value: nat, ghost l: Layout, ghost program: seq<Event>)
    returns (ghost program': seq<Event>)
    requires l0.Length == 0x400 && i < 0x400
    modifies l0
    ensures l0[..] == old(l0[..])[i := value]
    ensures program' == program + EntryEvents(l, i, value)
  {
    l0[i] := value;
    ghost var w := l.DirectoryWord(i);
    program' := program + ([Write(w, value)] + [Clean(w, 4)]);
    program' := program' + ([PtcFlush(w)] + [TlbFlush(i)] + [Barrier]);
  }

  /** `memset` of the table followed by its clean. */
  method ClearTable(l1: array<nat>, ghost l: Layout, ghost program: seq<Event>) returns (ghost program': seq<Event>)
    requires l1.Length == 0x400
    modifies l1
    ensures l1[..] == Zeros()
    ensures program' == program + ClearEvents(l)
  {
    program' := program;
    var j := 0;
    while j < 0x400
      invariant 0 <= j <= 0x400
      invariant forall k :: 0 <= k < j ==> l1[k] == 0
      invariant program' == program + ZeroWrites(l, j)
    {
      l1[j] := 0;
      program' := program' + [Write(l.TableWord(j), 0)];
      j := j + 1;
    }
    program' := program' + [Clean(l.table, 0x1000)];
  }

  /** Flush the PTC lines of table entries `j` to `j + n - 1`, four entries a line. */
  method FlushLines(j: nat, n: nat, ghost l: Layout, ghost program: seq<Event>) returns (ghost program': seq<Event>)
    requires 0 < n && j + n <= 0x400
    ensures program' == program + LineFlushes(l, j - j % 4, Lines(j, n))
  {
    program' := program;
    ghost var from, m := j - j % 4, 0;
    var i := j - j % 4;
    while i <= j + n - 1 - (j + n - 1) % 4
      invariant i == from + 4 * m && i <= j + n + 3 && m <= Lines(j, n)
      invariant program' == program + LineFlushes(l, from, m)
    {
      program' := program' + [PtcFlush(l.TableWord(i))];
      i := i + 4;
      m := m + 1;
    }
  }

  /** Map `n` pages of section `i` from table entry `j` on. */
  method MapPages(l1: array<nat>, i: nat, j: nat, n: nat, phys: nat, ghost l: Layout, ghost program: seq<Event>)
    returns (ghost program': seq<Event>)
    requires l1.Length == 0x400 && 0 < n && j + n <= 0x400 && phys + n * 0x1000 <= 0x4_0000_0000
    requires forall k :: j <= k < j + n ==> !IsValid(l1[k])
    modifies l1
    ensures l1[..] == Paged(old(l1[..]), j, n, phys)
    ensures program' == program + PageEvents(l, i, j, n, phys)
  {
    hide IsValid, EncodeValue, LineFlushes, Lines;
    program' := program;
    var k := 0;
    while k < n
      invariant 0 <= k <= n
      invariant forall m :: 0 <= m < 0x400 ==> l1[m] == EntryAt(old(l1[..]), j, k, phys, m)
      invariant program' == program + PageWrites(l, j, k, phys)
    {
      assert !IsValid(l1[j + k]);
      l1[j + k] := TableEntry(phys + 0x1000 * k);
      program' := program' + [Write(l.TableWord(j + k), TableEntry(phys + 0x1000 * k))];
      k := k + 1;
    }
    hide PageWrites;
    program' := program' + [Clean(l.TableWord(j), 4 * n)];
    program' := FlushLines(j, n, l, program');
    program' := program' + ([TlbFlush(i)] + [Barrier]);
  }

  /** Making a table for section `i` and filling it. */
  method MapTable(l0: array<nat>, l1: array<nat>, l1Phys: nat, i: nat, j: nat, n: nat, phys: nat,
                  ghost l: Layout, ghost program: seq<Event>)
    returns (ghost program': seq<Event>)
    requires l0 != l1 && l0.Length == l1.Length == 0x400 && l.table == l1Phys < 0x4_0000_0000
    requires i < 0x400 && 0 < n && j + n <= 0x400 && phys + n * 0x1000 <= 0x4_0000_0000
    modifies l0, l1
    ensures l0[..] == old(l0[..])[i := TableEntry(l1Phys)] && l1[..] == Paged(Zeros(), j, n, phys)
    ensures program' == program + TableEvents(l, i, j, n, phys)
  {
    hide IsValid, EncodeValue, ClearEvents, EntryEvents, PageEvents;
    program' := ClearTable(l1, l, program);
    program' := SetDirectoryEntry(l0, i, TableEntry(l1Phys), l, program');
    EntryZero();
    program' := MapPages(l1, i, j, n, phys, l, program');
  }

  /**
   `MapImpl`.  It aborts exactly when a table it needs is missing; otherwise it issues exactly
   the events of the range, and the tables are what those store.
   */
  method MapImpl(phys: nat, size: nat, address: nat, l0: array?<nat>, l0Phys: nat, l1: array?<nat>, l1Phys: nat)
    returns (aborted: bool, ghost last: int, ghost program: seq<Event>)
    requires Request(address % 0x1_0000_0000, phys, size).Valid()
    requires l0 != null ==> l0.Length == 0x400 && forall i :: 0 <= i < 0x400 ==> l0[i] == 0
    requires l1 != null ==> l1.Length == 0x400 && l1 != l0
    requires l0Phys % 0x1000 == 0 && l1Phys % 0x1000 == 0 && l1Phys < 0x4_0000_0000
    requires l0Phys != 0 ==> l0Phys != l1Phys
    modifies l0, l1
    ensures var rq := Request(address % 0x1_0000_0000, phys, size);
            aborted <==> l0 == null || l0Phys == 0 || (NeedsTable(rq) && (l1 == null || l1Phys == 0))
    ensures !aborted ==>
              var rq, l := Request(address % 0x1_0000_0000, phys, size), Layout(l0Phys, l1Phys);
              AtSection(rq, rq.base) && program == Issued(rq, l, rq.base) &&
              Stored(l, Tables(old(l0[..]), old(Contents(l1))), program) == Tables(l0[..], Contents(l1)) &&
              Built(l0[..], Contents(l1), rq, l1Phys, last)
  {
    hide Mapped, IsTable, IsValid, EncodeValue, Stored, AtSection, Issued, StepEvents, StepTables;
    hide DirectoryBuilt, TableBuilt, Advance, EntryEvents, TableEvents, Paged, Zeros, NeedsTable;
    last, program := -1, [];
    if l0 == null || l0Phys == 0 { return true, last, program; }

    ghost var rq := Request(address % 0x1_0000_0000, phys, size);
    ghost var l := Layout(l0Phys, l1Phys);
    ghost var cur := rq.base;
    ghost var tb := Tables(l0[..], Contents(l1));
    LoopStarts(tb, rq, l);
    var p, a, remaining := phys, address, size;
    while remaining > 0
      invariant 0 <= remaining <= size && cur == rq.base + (size - remaining)
      invariant p == phys + (size - remaining) && a == address + (size - remaining)
      invariant AtSection(rq, cur) && program + Issued(rq, l, cur) == Issued(rq, l, rq.base)
      invariant Mapped(Tables(l0[..], Contents(l1)), rq, l, last, cur)
      invariant Stored(l, tb, program) == Tables(l0[..], Contents(l1))
      invariant last >= 0 ==> l1 != null && l1Phys != 0
      decreases remaining
    {
      var i := a % 0x1_0000_0000 / 0x40_0000;
      var j := a % 0x40_0000 / 0x1000;
      assert a == 0x1_0000_0000 * (address / 0x1_0000_0000) + cur;
      Indices(address / 0x1_0000_0000, cur, a);
      ghost var now := Tables(l0[..], Contents(l1));
      AtNewSection(now, rq, l, last, cur);
      LoopStep(tb, now, rq, l, last, cur, program);
      if !IsTable(l0[i]) {
        assert !IsValid(l0[i]);
        if j == 0 && p % 0x40_0000 == 0 && remaining >= 0x40_0000 {
          LargeShape(rq, l, now, cur);
          program := SetDirectoryEntry(l0, i, LargeEntry(p), l, program);
          p, a, remaining, cur := p + 0x40_0000, a + 0x40_0000, remaining - 0x40_0000, cur + 0x40_0000;
          continue;
        }
      }
      if l1 == null || l1Phys == 0 { return true, last, program; }
      var n := if 0x400 - j <= remaining / 0x1000 then 0x400 - j else remaining / 0x1000;
      TableShape(rq, l, now, cur, j, n);
      program := MapTable(l0, l1, l1Phys, i, j, n, p, l, program);
      last := i;
      p, a, remaining, cur := p + n * 0x1000, a + n * 0x1000, remaining - n * 0x1000, cur + n * 0x1000;
    }
    aborted := false;
    LoopEnds(rq, l);
    EverythingMapped(Tables(l0[..], Contents(l1)), rq, l, last);
  }

  lemma LoopStarts(tb: Tables, rq: Request, l: Layout)
    requires tb.Full() && l.Valid() && l.table < 0x4_0000_0000 && rq.Valid()
    requires forall i :: 0 <= i < 0x400 ==> tb.l0[i] == 0
    ensures AtSection(rq, rq.base) && [] + Issued(rq, l, rq.base) == Issued(rq, l, rq.base)
    ensures Mapped(tb, rq, l, -1, rq.base) && Stored(l, tb, []) == tb
  {
    NothingMapped(tb, rq, l);
  }

  lemma LoopEnds(rq: Request, l: Layout)
    requires AtSection(rq, rq.base + rq.size) && l.table < 0x4_0000_0000
    ensures Issued(rq, l, rq.base + rq.size) == []
  {
  }

  /** One iteration, seen from the loop. */
  lemma LoopStep(tb: Tables, now: Tables, rq: Request, l: Layout, last: int, cur: nat, program: seq<Event>)
    requires tb.Full() && Mapped(now, rq, l, last, cur) && cur < rq.base + rq.size && Stored(l, tb, program) == now
    ensures var next, events := Advance(rq, cur), StepEvents(rq, l, cur);
            Mapped(StepTables(rq, l, now, cur), rq, l, LastTable(rq, last, cur), next) &&
            Stored(l, tb, program + events) == StepTables(rq, l, now, cur) &&
            program + events + Issued(rq, l, next) == program + Issued(rq, l, cur)
  {
    hide DirectoryBuilt, TableBuilt, AtSection, Stored, StepEvents, StepTables, Issued;
    StepMaps(now, rq, l, last, cur);
    StepStores(now, rq, l, cur);
    StoredConcat(l, tb, program, StepEvents(rq, l, cur));
    IssuedNext(rq, l, cur);
    var events, rest := StepEvents(rq, l, cur), Issued(rq, l, Advance(rq, cur));
    assert program + events + rest == program + (events + rest);
  }

  lemma IssuedNext(rq: Request, l: Layout, cur: nat)
    requires AtSection(rq, cur) && cur < rq.base + rq.size && l.table < 0x4_0000_0000
    ensures Issued(rq, l, cur) == StepEvents(rq, l, cur) + Issued(rq, l, Advance(rq, cur))
  {
    hide AtSection, StepEvents, Advance;
  }

  lemma LargeShape(rq: Request, l: Layout, tb: Tables, cur: nat)
    requires AtSection(rq, cur) && cur < rq.base + rq.size && l.table < 0x4_0000_0000 && tb.Full()
    requires rq.IsLarge(cur / 0x40_0000)
    ensures var i, p := cur / 0x40_0000, rq.phys + (cur - rq.base);
            Advance(rq, cur) == cur + 0x40_0000 && p < 0x4_0000_0000 && i < 0x400 &&
            StepEvents(rq, l, cur) == EntryEvents(l, i, LargeEntry(p)) &&
            StepTables(rq, l, tb, cur) == tb.(l0 := tb.l0[i := LargeEntry(p)])
  {
    hide AtSection, EntryEvents, EncodeValue;
    AlignedSection(rq, cur);
    LargeAdvance(rq, cur);
  }

  lemma TableShape(rq: Request, l: Layout, tb: Tables, cur: nat, j: nat, n: nat)
    requires AtSection(rq, cur) && cur < rq.base + rq.size && l.table < 0x4_0000_0000 && tb.Full()
    requires !rq.IsLarge(cur / 0x40_0000) && j == cur % 0x40_0000 / 0x1000
    requires var pages := (rq.base + rq.size - cur) / 0x1000; n == if 0x400 - j <= pages then 0x400 - j else pages
    ensures var i, p := cur / 0x40_0000, rq.phys + (cur - rq.base);
            Advance(rq, cur) == cur + n * 0x1000 && i < 0x400 && 0 < n && j + n <= 0x400 &&
            n * 0x1000 <= rq.base + rq.size - cur && p + n * 0x1000 <= 0x4_0000_0000 &&
            StepEvents(rq, l, cur) == TableEvents(l, i, j, n, p) &&
            StepTables(rq, l, tb, cur) == Tables(tb.l0[i := TableEntry(l.table)], Paged(Zeros(), j, n, p))
  {
    hide AtSection, TableEvents, EncodeValue, Paged, Zeros;
    AlignedPages(rq, cur, n, j);
  }
}
