/**
 The stores and the cache maintenance of `MapImpl`, as lists of events: what each list leaves
 out of date, and what it stores.
 */
module Maintenance {
  import opened Arithmetic
  import opened SmmuEntry
  import opened SmmuCoherence
  import opened DeviceTables

  // ----- the events

  /** Write one directory entry and publish it. */
  function EntryEvents(l: Layout, i: nat, value: nat): seq<Event> {
    var w := l.DirectoryWord(i);
    [Write(w, value)] + [Clean(w, 4)] + [PtcFlush(w)] + [TlbFlush(i)] + [Barrier]
  }

  function ZeroWrites(l: Layout, n: nat): seq<Event> {
    if n == 0 then [] else ZeroWrites(l, n - 1) + [Write(l.TableWord(n - 1), 0)]
  }

  /** Zero the table and clean it. */
  function ClearEvents(l: Layout): seq<Event> {
    ZeroWrites(l, 0x400) + [Clean(l.table, 0x1000)]
  }

  function PageWrites(l: Layout, j: nat, n: nat, phys: nat): seq<Event>
    requires phys + n * 0x1000 <= 0x4_0000_0000
  {
    if n == 0 then []
    else PageWrites(l, j, n - 1, phys) + [Write(l.TableWord(j + n - 1), TableEntry(phys + (n - 1) * 0x1000))]
  }

  /** Flush `n` PTC lines, of four entries each, from entry `i` on. */
  function LineFlushes(l: Layout, i: nat, n: nat): seq<Event> {
    if n == 0 then [] else LineFlushes(l, i, n - 1) + [PtcFlush(l.TableWord(i + 4 * (n - 1)))]
  }

  /** The lines that entries `j` to `j + n - 1` lie in. */
  function Lines(j: nat, n: nat): nat
    requires 0 < n
  {
    (j + n - 1) / 4 - j / 4 + 1
  }

  /** Map `n` pages of section `i` from table entry `j` on, and publish them. */
  function PageEvents(l: Layout, i: nat, j: nat, n: nat, phys: nat): seq<Event>
    requires 0 < n && phys + n * 0x1000 <= 0x4_0000_0000
  {
    PageWrites(l, j, n, phys) + [Clean(l.TableWord(j), 4 * n)] + LineFlushes(l, j - j % 4, Lines(j, n)) +
    [TlbFlush(i)] + [Barrier]
  }

  /** Make a table for section `i` and fill it. */
  function TableEvents(l: Layout, i: nat, j: nat, n: nat, phys: nat): seq<Event>
    requires 0 < n && phys + n * 0x1000 <= 0x4_0000_0000 && l.table < 0x4_0000_0000
  {
    ClearEvents(l) + EntryEvents(l, i, TableEntry(l.table)) + PageEvents(l, i, j, n, phys)
  }

  // ----- what they leave out of date

  /** From `t` the events are disciplined and lead to `t'`. */
  ghost predicate Reaches(l: Layout, t: Track, events: seq<Event>, t': Track) {
    Synced(l, t, events) && Tracked(l, t, events) == t'
  }

  lemma ReachNothing(l: Layout, t: Track)
    ensures Reaches(l, t, [], t)
  {
  }

  lemma ReachOn(l: Layout, t: Track, a: seq<Event>, t': Track, b: seq<Event>, t'': Track)
    requires Reaches(l, t, a, t') && Reaches(l, t', b, t'')
    ensures Reaches(l, t, a + b, t'')
  {
    SyncedConcat(l, t, a, b);
  }

  lemma ReachNext(l: Layout, t: Track, a: seq<Event>, t': Track, e: Event)
    requires Reaches(l, t, a, t') && (e.Barrier? ==> t'.IsClean())
    ensures Reaches(l, t, a + [e], Next(l, t', e))
  {
    assert [e][1..] == [];
    ReachOn(l, t, a, t', [e], Next(l, t', e));
  }

  /** Flushing the section after its words have been cleaned and flushed. */
  lemma SectionPublished(l: Layout, t: Track, a: seq<Event>, now: Track, i: nat)
    requires l.Valid() && i < 0x400 && Reaches(l, t, a, now) && now.unclean == {} && now.stale == {} && now.tlb <= {i}
    ensures Reaches(l, t, a + [TlbFlush(i)] + [Barrier], now.(tlb := {}))
  {
    hide Reaches;
    ReachNext(l, t, a, now, TlbFlush(i));
    assert Next(l, now, TlbFlush(i)) == now.(tlb := {});
    ReachNext(l, t, a + [TlbFlush(i)], now.(tlb := {}), Barrier);
  }

  /** A directory entry written, cleaned and flushed leaves only its section's translations in doubt. */
  lemma EntryTracked(l: Layout, now: Track, i: nat, value: nat)
    requires l.Valid() && i < 0x400 && now.IsClean()
    ensures var w := l.DirectoryWord(i);
            Next(l, Next(l, Next(l, now, Write(w, value)), Clean(w, 4)), PtcFlush(w)) ==
            Track({}, {}, {i}, if IsTable(value) then now.linked + {i} else now.linked)
  {
    hide IsTable;
    WordsExist(l, i);
    var w := l.DirectoryWord(i);
    var written := Next(l, now, Write(w, value));
    assert written.unclean == {w} && written.stale == {w} && written.tlb == {i};
    assert Next(l, written, Clean(w, 4)).unclean == {};
  }

  lemma EntryReaches(l: Layout, now: Track, i: nat, value: nat)
    requires l.Valid() && i < 0x400 && now.IsClean()
    ensures Reaches(l, now, EntryEvents(l, i, value),
                    now.(linked := if IsTable(value) then now.linked + {i} else now.linked))
  {
    ReachNothing(l, now);
    hide IsTable, Reaches, Next;
    var w := l.DirectoryWord(i);
    EntryTracked(l, now, i, value);
    var t1 := Next(l, now, Write(w, value));
    var t2 := Next(l, t1, Clean(w, 4));
    ReachNext(l, now, [], now, Write(w, value));
    assert [] + [Write(w, value)] == [Write(w, value)];
    ReachNext(l, now, [Write(w, value)], t1, Clean(w, 4));
    ReachNext(l, now, [Write(w, value)] + [Clean(w, 4)], t2, PtcFlush(w));
    SectionPublished(l, now, [Write(w, value)] + [Clean(w, 4)] + [PtcFlush(w)], Next(l, t2, PtcFlush(w)), i);
  }

  ghost function TableWords(l: Layout, j: nat, n: nat): set<nat> {
    set k | j <= k < j + n :: l.TableWord(k)
  }

  lemma {:induction false} ZerosReach(l: Layout, now: Track, n: nat)
    requires l.Valid() && n <= 0x400 && now.IsClean() && now.linked == {}
    ensures Reaches(l, now, ZeroWrites(l, n), now.(unclean := TableWords(l, 0, n)))
    decreases n
  {
    if n == 0 {
      assert TableWords(l, 0, 0) == {};
      ReachNothing(l, now);
    } else {
      ZerosReach(l, now, n - 1);
      hide Reaches;
      var t, w := now.(unclean := TableWords(l, 0, n - 1)), l.TableWord(n - 1);
      ReachNext(l, now, ZeroWrites(l, n - 1), t, Write(w, 0));
      WordsExist(l, n - 1);
      DisjointTables(l, w);
      assert TableWords(l, 0, n - 1) + {w} == TableWords(l, 0, n);
    }
  }

  lemma ClearReaches(l: Layout, now: Track)
    requires l.Valid() && now.IsClean() && now.linked == {}
    ensures Reaches(l, now, ClearEvents(l), now)
  {
    hide Reaches, ZeroWrites;
    ZerosReach(l, now, 0x400);
    var t := now.(unclean := TableWords(l, 0, 0x400));
    ReachNext(l, now, ZeroWrites(l, 0x400), t, Clean(l.table, 0x1000));
    assert Next(l, t, Clean(l.table, 0x1000)) == now;
  }

  lemma {:induction false} PagesWritten(l: Layout, now: Track, i: nat, j: nat, n: nat, phys: nat)
    requires l.Valid() && j + n <= 0x400 && phys + n * 0x1000 <= 0x4_0000_0000 && now == FRESH.(linked := {i})
    ensures Reaches(l, now, PageWrites(l, j, n, phys),
                    Track(TableWords(l, j, n), TableWords(l, j, n), if n == 0 then {} else {i}, {i}))
    decreases n
  {
    if n == 0 {
      assert TableWords(l, j, 0) == {};
      ReachNothing(l, now);
    } else {
      PagesWritten(l, now, i, j, n - 1, phys);
      hide Reaches;
      var words, w := TableWords(l, j, n - 1), l.TableWord(j + n - 1);
      var t := Track(words, words, if n == 1 then {} else {i}, {i});
      ReachNext(l, now, PageWrites(l, j, n - 1, phys), t, Write(w, TableEntry(phys + (n - 1) * 0x1000)));
      WordsExist(l, j + n - 1);
      DisjointTables(l, w);
      assert words + {w} == TableWords(l, j, n);
    }
  }

  lemma LineOfWord(l: Layout, k: nat)
    requires l.Valid()
    ensures l.TableWord(k) / 16 == l.table / 16 + k / 4
  {
    var q := 0x100 * (l.table / 0x1000);
    assert l.table == q * 16;
    ModUnique(l.table, 16, q, 0);
    ModUnique(l.TableWord(k), 16, q + k / 4, 4 * (k % 4));
  }

  /** Entries `i` and above among `j` to `j + n - 1`. */
  ghost function WordsFrom(l: Layout, j: nat, n: nat, i: nat): set<nat> {
    set k | j <= k < j + n && i <= k :: l.TableWord(k)
  }

  lemma LineFlushed(l: Layout, j: nat, n: nat, i: nat)
    requires l.Valid() && i % 4 == 0
    ensures (set w | w in WordsFrom(l, j, n, i) && w / 16 != l.TableWord(i) / 16) == WordsFrom(l, j, n, i + 4)
  {
    LineOfWord(l, i);
    forall k | j <= k < j + n && i <= k ensures l.TableWord(k) / 16 != l.TableWord(i) / 16 <==> i + 4 <= k {
      LineOfWord(l, k);
    }
  }

  /** Flushing line after line leaves only the entries behind the last one flushed. */
  lemma {:induction false} LinesFlushed(l: Layout, now: Track, j: nat, n: nat, from: nat, m: nat)
    requires l.Valid() && from == j - j % 4 && now.unclean == {} && now.stale == TableWords(l, j, n)
    ensures Reaches(l, now, LineFlushes(l, from, m), now.(stale := WordsFrom(l, j, n, from + 4 * m)))
    decreases m
  {
    if m == 0 {
      assert TableWords(l, j, n) == WordsFrom(l, j, n, from);
      ReachNothing(l, now);
    } else {
      LinesFlushed(l, now, j, n, from, m - 1);
      hide Reaches;
      var i := from + 4 * (m - 1);
      var t := now.(stale := WordsFrom(l, j, n, i));
      ReachNext(l, now, LineFlushes(l, from, m - 1), t, PtcFlush(l.TableWord(i)));
      LineFlushed(l, j, n, i);
      assert Next(l, t, PtcFlush(l.TableWord(i))) == now.(stale := WordsFrom(l, j, n, i + 4));
    }
  }

  lemma AllLines(l: Layout, j: nat, n: nat)
    requires 0 < n
    ensures WordsFrom(l, j, n, j - j % 4 + 4 * Lines(j, n)) == {}
  {
    assert j - j % 4 + 4 * Lines(j, n) >= j + n;
  }

  lemma PagesReach(l: Layout, now: Track, i: nat, j: nat, n: nat, phys: nat)
    requires l.Valid() && i < 0x400 && 0 < n && j + n <= 0x400 && phys + n * 0x1000 <= 0x4_0000_0000
    requires now == FRESH.(linked := {i})
    ensures Reaches(l, now, PageEvents(l, i, j, n, phys), now)
  {
    hide Reaches, PageWrites, LineFlushes, Lines;
    var words, from, clean := TableWords(l, j, n), j - j % 4, Clean(l.TableWord(j), 4 * n);
    PagesWritten(l, now, i, j, n, phys);
    var writes, t := PageWrites(l, j, n, phys), Track(words, words, {i}, {i});
    ReachNext(l, now, writes, t, clean);
    assert Next(l, t, clean) == t.(unclean := {});
    LinesFlushed(l, t.(unclean := {}), j, n, from, Lines(j, n));
    AllLines(l, j, n);
    var flushes := LineFlushes(l, from, Lines(j, n));
    ReachOn(l, now, writes + [clean], t.(unclean := {}), flushes, Track({}, {}, {i}, {i}));
    SectionPublished(l, now, writes + [clean] + flushes, Track({}, {}, {i}, {i}), i);
  }

  /** The first table: cleared before it is linked, published before it is used. */
  lemma TableReaches(l: Layout, i: nat, j: nat, n: nat, phys: nat)
    requires l.Valid() && l.table < 0x4_0000_0000 && i < 0x400 && 0 < n && j + n <= 0x400
    requires phys + n * 0x1000 <= 0x4_0000_0000
    ensures Reaches(l, FRESH, TableEvents(l, i, j, n, phys), FRESH.(linked := {i}))
  {
    hide Reaches, ClearEvents, EntryEvents, PageEvents, IsTable, EncodeValue;
    NotTable(l.table);
    ClearReaches(l, FRESH);
    EntryReaches(l, FRESH, i, TableEntry(l.table));
    assert FRESH.linked + {i} == {i};
    ReachOn(l, FRESH, ClearEvents(l), FRESH, EntryEvents(l, i, TableEntry(l.table)), FRESH.(linked := {i}));
    PagesReach(l, FRESH.(linked := {i}), i, j, n, phys);
    ReachOn(l, FRESH, ClearEvents(l) + EntryEvents(l, i, TableEntry(l.table)), FRESH.(linked := {i}),
            PageEvents(l, i, j, n, phys), FRESH.(linked := {i}));
  }

  lemma NotTable(phys: nat)
    requires phys < 0x4_0000_0000 && phys % 0x1000 == 0
    ensures !IsTable(LargeEntry(phys)) && IsTable(TableEntry(phys)) && IsValid(TableEntry(phys))
  {
    EntryRoundTrip(true, true, true, phys, false);
    EntryRoundTrip(true, true, true, phys, true);
  }

  // ----- what they store

  lemma {:induction false} StoredConcat(l: Layout, tb: Tables, a: seq<Event>, b: seq<Event>)
    requires tb.Full()
    ensures Stored(l, tb, a + b) == Stored(l, Stored(l, tb, a), b)
    decreases |a|
  {
    hide Store;
    if a == [] {
      assert a + b == b;
    } else {
      assert (a + b)[1..] == a[1..] + b;
      StoredConcat(l, Store(l, tb, a[0]), a[1..], b);
    }
  }

  lemma StoredNothing(l: Layout, tb: Tables, a: seq<Event>, e: Event)
    requires tb.Full() && !e.Write?
    ensures Stored(l, tb, a + [e]) == Stored(l, tb, a)
  {
    StoredAppend(l, tb, a, e);
  }

  lemma EntryStores(l: Layout, tb: Tables, i: nat, value: nat)
    requires l.Valid() && tb.Full() && i < 0x400
    ensures Stored(l, tb, EntryEvents(l, i, value)) == tb.(l0 := tb.l0[i := value])
  {
    var w := l.DirectoryWord(i);
    assert Stored(l, tb, []) == tb;
    hide Stored;
    WordsExist(l, i);
    StoredAppend(l, tb, [], Write(w, value));
    assert [] + [Write(w, value)] == [Write(w, value)];
    StoredNothing(l, tb, [Write(w, value)], Clean(w, 4));
    StoredNothing(l, tb, [Write(w, value)] + [Clean(w, 4)], PtcFlush(w));
    StoredNothing(l, tb, [Write(w, value)] + [Clean(w, 4)] + [PtcFlush(w)], TlbFlush(i));
    StoredNothing(l, tb, [Write(w, value)] + [Clean(w, 4)] + [PtcFlush(w)] + [TlbFlush(i)], Barrier);
  }

  lemma WordStored(l: Layout, tb: Tables, a: seq<Event>, j: nat, value: nat)
    requires l.Valid() && tb.Full() && j < 0x400
    ensures var now := Stored(l, tb, a);
            Stored(l, tb, a + [Write(l.TableWord(j), value)]) == now.(l1 := now.l1[j := value])
  {
    hide Stored;
    WordsExist(l, j);
    DisjointTables(l, l.TableWord(j));
    StoredAppend(l, tb, a, Write(l.TableWord(j), value));
  }

  function Zeros(): (r: seq<nat>)
    ensures |r| == 0x400
  {
    seq(0x400, _ => 0)
  }

  lemma {:induction false} ZerosStored(l: Layout, tb: Tables, n: nat)
    requires l.Valid() && tb.Full() && n <= 0x400
    ensures var r := Stored(l, tb, ZeroWrites(l, n));
            r.l0 == tb.l0 && forall k :: 0 <= k < n ==> r.l1[k] == 0
    decreases n
  {
    if n == 0 {
    } else {
      ZerosStored(l, tb, n - 1);
      hide Stored;
      WordStored(l, tb, ZeroWrites(l, n - 1), n - 1, 0);
    }
  }

  lemma ClearStores(l: Layout, tb: Tables)
    requires l.Valid() && tb.Full()
    ensures Stored(l, tb, ClearEvents(l)) == tb.(l1 := Zeros())
  {
    hide Stored, ZeroWrites;
    ZerosStored(l, tb, 0x400);
    StoredNothing(l, tb, ZeroWrites(l, 0x400), Clean(l.table, 0x1000));
  }

  /** The table with `n` consecutive pages from entry `j` on. */
  function Paged(l1: seq<nat>, j: nat, n: nat, phys: nat): (r: seq<nat>)
    requires |l1| == 0x400 && phys + n * 0x1000 <= 0x4_0000_0000
    ensures |r| == 0x400
  {
    seq(0x400, k requires 0 <= k < 0x400 => EntryAt(l1, j, n, phys, k))
  }

  function EntryAt(l1: seq<nat>, j: nat, n: nat, phys: nat, k: nat): nat
    requires |l1| == 0x400 && phys + n * 0x1000 <= 0x4_0000_0000 && k < 0x400
  {
    if j <= k < j + n then TableEntry(phys + (k - j) * 0x1000) else l1[k]
  }

  lemma {:induction false} WritesStored(l: Layout, tb: Tables, j: nat, n: nat, phys: nat)
    requires l.Valid() && tb.Full() && j + n <= 0x400 && phys + n * 0x1000 <= 0x4_0000_0000
    ensures Stored(l, tb, PageWrites(l, j, n, phys)) == tb.(l1 := Paged(tb.l1, j, n, phys))
    decreases n
  {
    if n == 0 {
      assert Paged(tb.l1, j, 0, phys) == tb.l1;
    } else {
      WritesStored(l, tb, j, n - 1, phys);
      hide Stored, EncodeValue;
      WordStored(l, tb, PageWrites(l, j, n - 1, phys), j + n - 1, TableEntry(phys + (n - 1) * 0x1000));
      assert Paged(tb.l1, j, n - 1, phys)[j + n - 1 := TableEntry(phys + (n - 1) * 0x1000)] == Paged(tb.l1, j, n, phys);
    }
  }

  lemma {:induction false} FlushesStore(l: Layout, tb: Tables, i: nat, n: nat)
    requires tb.Full()
    ensures Stored(l, tb, LineFlushes(l, i, n)) == tb
    decreases n
  {
    if n == 0 {
    } else {
      FlushesStore(l, tb, i, n - 1);
      StoredNothing(l, tb, LineFlushes(l, i, n - 1), PtcFlush(l.TableWord(i + 4 * (n - 1))));
    }
  }

  lemma PagesStore(l: Layout, tb: Tables, i: nat, j: nat, n: nat, phys: nat)
    requires l.Valid() && tb.Full() && 0 < n && j + n <= 0x400 && phys + n * 0x1000 <= 0x4_0000_0000
    ensures Stored(l, tb, PageEvents(l, i, j, n, phys)) == tb.(l1 := Paged(tb.l1, j, n, phys))
  {
    hide Stored, PageWrites, LineFlushes, Lines, Paged;
    var writes, clean := PageWrites(l, j, n, phys), Clean(l.TableWord(j), 4 * n);
    var flushes := LineFlushes(l, j - j % 4, Lines(j, n));
    var tb' := tb.(l1 := Paged(tb.l1, j, n, phys));
    WritesStored(l, tb, j, n, phys);
    StoredNothing(l, tb, writes, clean);
    StoredConcat(l, tb, writes + [clean], flushes);
    FlushesStore(l, tb', j - j % 4, Lines(j, n));
    StoredNothing(l, tb, writes + [clean] + flushes, TlbFlush(i));
    StoredNothing(l, tb, writes + [clean] + flushes + [TlbFlush(i)], Barrier);
  }

  lemma TableStores(l: Layout, tb: Tables, i: nat, j: nat, n: nat, phys: nat)
    requires l.Valid() && tb.Full() && l.table < 0x4_0000_0000 && i < 0x400
    requires 0 < n && j + n <= 0x400 && phys + n * 0x1000 <= 0x4_0000_0000
    ensures Stored(l, tb, TableEvents(l, i, j, n, phys)) ==
            Tables(tb.l0[i := TableEntry(l.table)], Paged(Zeros(), j, n, phys))
  {
    hide Stored, ClearEvents, EntryEvents, PageEvents, EncodeValue, Paged, Zeros;
    var clear, entry := ClearEvents(l), EntryEvents(l, i, TableEntry(l.table));
    ClearStores(l, tb);
    StoredConcat(l, tb, clear, entry);
    EntryStores(l, tb.(l1 := Zeros()), i, TableEntry(l.table));
    StoredConcat(l, tb, clear + entry, PageEvents(l, i, j, n, phys));
    PagesStore(l, Tables(tb.l0[i := TableEntry(l.table)], Zeros()), i, j, n, phys);
  }

  // ----- they write table words only

  ghost predicate WritesWords(l: Layout, events: seq<Event>) {
    forall k :: 0 <= k < |events| && events[k].Write? ==> l.IsWord(events[k].addr)
  }

  lemma EntryWords(l: Layout, i: nat, value: nat)
    requires l.Valid() && i < 0x400
    ensures WritesWords(l, EntryEvents(l, i, value))
  {
    WordsExist(l, i);
  }

  lemma {:induction false} ZeroWords(l: Layout, n: nat)
    requires l.Valid() && n <= 0x400
    ensures WritesWords(l, ZeroWrites(l, n))
    decreases n
  {
    if n == 0 {
    } else {
      ZeroWords(l, n - 1);
      WordsExist(l, n - 1);
    }
  }

  lemma {:induction false} PageWords(l: Layout, j: nat, n: nat, phys: nat)
    requires l.Valid() && j + n <= 0x400 && phys + n * 0x1000 <= 0x4_0000_0000
    ensures WritesWords(l, PageWrites(l, j, n, phys))
    decreases n
  {
    if n == 0 {
    } else {
      PageWords(l, j, n - 1, phys);
      WordsExist(l, j + n - 1);
    }
  }

  lemma {:induction false} FlushWords(l: Layout, i: nat, n: nat)
    ensures WritesWords(l, LineFlushes(l, i, n))
    decreases n
  {
    if n == 0 {
    } else {
      FlushWords(l, i, n - 1);
    }
  }

  lemma TableWordsOnly(l: Layout, i: nat, j: nat, n: nat, phys: nat)
    requires l.Valid() && l.table < 0x4_0000_0000 && i < 0x400
    requires 0 < n && j + n <= 0x400 && phys + n * 0x1000 <= 0x4_0000_0000
    ensures WritesWords(l, TableEvents(l, i, j, n, phys))
  {
    hide ZeroWrites, PageWrites, LineFlushes, EntryEvents, EncodeValue, Lines;
    ZeroWords(l, 0x400);
    EntryWords(l, i, TableEntry(l.table));
    PageWords(l, j, n, phys);
    FlushWords(l, j - j % 4, Lines(j, n));
  }
}
