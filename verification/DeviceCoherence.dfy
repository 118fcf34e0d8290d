/**
 When the maintenance of `MapImpl` keeps the caches coherent at its barriers: in every
 interleaving if one table suffices, and otherwise not, because the shared table is cleared
 for a second section while the page-table cache may still hold the entries of the first.
 */
module DeviceCoherence {
  import opened Arithmetic
  import opened SmmuEntry
  import opened SmmuCoherence
  import opened DeviceTables
  import opened Maintenance
  import opened DevicePageTable
  import opened DeviceTranslation

  ghost predicate BarriersCoherent(l: Layout, states: seq<State>, actions: seq<Action>)
    requires |states| == |actions| + 1
  {
    forall i :: 0 <= i < |actions| && actions[i] == Cpu(Barrier) ==> Coherent(l, states[i])
  }

  /** Every run of the program from `s`, however far it has got, is coherent at its barriers. */
  ghost predicate CoherentFrom(l: Layout, s: State, program: seq<Event>) {
    forall states: seq<State>, actions: seq<Action> ::
      Run(l, states, actions) && states[0] == s && Program(actions) <= program ==> BarriersCoherent(l, states, actions)
  }

  // ----- one table

  lemma {:induction false} SyncedPrefix(l: Layout, t: Track, a: seq<Event>, program: seq<Event>)
    requires Synced(l, t, program) && a <= program
    ensures Synced(l, t, a)
    decreases |a|
  {
    hide Next;
    if a == [] {
    } else {
      assert a[0] == program[0] && a[1..] <= program[1..];
      SyncedPrefix(l, Next(l, t, a[0]), a[1..], program[1..]);
    }
  }

  lemma OneTableCoherent(l: Layout, s: State, tb: Tables, rq: Request)
    requires Cleared(l, s, tb) && rq.Valid() && l.table < 0x4_0000_0000 && AtSection(rq, rq.base)
    requires rq.OneTableSuffices()
    ensures CoherentFrom(l, s, Issued(rq, l, rq.base))
  {
    ClearedIsInitial(l, s, tb);
    NothingMapped(tb, rq, l);
    var program := Issued(rq, l, rq.base);
    var last := IssuedBuilds(tb, rq, l, -1, rq.base);
    assert Synced(l, FRESH, program);
    hide Synced, Issued, Initial, Coherent, Run, Mapped, Cleared, Reaches;
    forall states: seq<State>, actions: seq<Action> |
      Run(l, states, actions) && states[0] == s && Program(actions) <= program
      ensures |states| == |actions| + 1 && BarriersCoherent(l, states, actions)
    {
      RunShape(l, states, actions);
      SyncedPrefix(l, FRESH, Program(actions), program);
      forall i | 0 <= i < |actions| && actions[i] == Cpu(Barrier) ensures Coherent(l, states[i]) {
        CoherentAtBarriers(l, states, actions, i);
      }
    }
  }

  // ----- building a run

  lemma {:induction false} ProgramSnoc(actions: seq<Action>, a: Action)
    ensures Program(actions + [a]) == Program(actions) + if a.Cpu? then [a.event] else []
    decreases |actions|
  {
    if actions == [] {
      assert [a][1..] == [];
    } else {
      assert (actions + [a])[1..] == actions[1..] + [a];
      ProgramSnoc(actions[1..], a);
    }
  }

  /** One more action, of the CPU or of the hardware. */
  lemma ExtendRun(l: Layout, states: seq<State>, actions: seq<Action>, a: Action) returns (s: State)
    requires Run(l, states, actions) && Inv(l, states[0], FRESH) && Enabled(l, states[|actions|], a)
    ensures Inv(l, states[|actions|], Tracked(l, FRESH, Program(actions)))
    ensures l.Valid() && Complete(l, states[|actions|].cpu) && Complete(l, states[|actions|].dram)
    ensures s == Apply(l, states[|actions|], a) && Run(l, states + [s], actions + [a])
    ensures Program(actions + [a]) == Program(actions) + if a.Cpu? then [a.event] else []
  {
    hide Walk, CachedWords, CachedPages, Consistent, Enabled, Tracked, Program;
    RunEnds(l, states, actions, FRESH);
    s := Apply(l, states[|actions|], a);
    ProgramSnoc(actions, a);
    hide Apply, Complete;
    var states', actions' := states + [s], actions + [a];
    forall i | 0 <= i < |actions'|
      ensures Complete(l, states'[i].cpu) && Complete(l, states'[i].dram) && Enabled(l, states'[i], actions'[i]) &&
              states'[i + 1] == Apply(l, states'[i], actions'[i])
    {
      if i < |actions| { assert states'[i] == states[i] && states'[i + 1] == states[i + 1]; }
    }
  }

  ghost predicate Spares(events: seq<Event>, w: nat) {
    forall k :: 0 <= k < |events| && events[k].PtcFlush? ==> events[k].addr / 16 != w / 16
  }

  lemma EventEnabled(l: Layout, s: State, e: Event)
    requires e.Write? ==> l.IsWord(e.addr)
    ensures Enabled(l, s, Cpu(e))
  {
  }

  lemma EventSpares(l: Layout, s: State, e: Event, w: nat)
    requires l.Valid() && Complete(l, s.cpu) && Complete(l, s.dram) && Enabled(l, s, Cpu(e)) && w in s.ptc
    requires e.PtcFlush? ==> e.addr / 16 != w / 16
    ensures var s' := Apply(l, s, Cpu(e)); w in s'.ptc && s'.ptc[w] == s.ptc[w]
  {
  }

  /** The CPU goes on alone; a cached word whose line is not flushed stays. */
  lemma {:induction false} RunOn(l: Layout, states: seq<State>, actions: seq<Action>, events: seq<Event>, w: nat)
    returns (states': seq<State>, actions': seq<Action>)
    requires Run(l, states, actions) && Inv(l, states[0], FRESH) && WritesWords(l, events)
    ensures Run(l, states', actions') && states'[0] == states[0] && Program(actions') == Program(actions) + events
    ensures var s, s' := states[|actions|], states'[|actions'|];
            Spares(events, w) && w in s.ptc ==> w in s'.ptc && s'.ptc[w] == s.ptc[w]
    decreases |events|
  {
    hide Inv, Enabled, Program, Tracked, Apply, Run, Complete;
    RunShape(l, states, actions);
    if events == [] {
      states', actions' := states, actions;
      assert Program(actions) + events == Program(actions);
    } else {
      var e, now := events[0], states[|actions|];
      EventEnabled(l, now, e);
      var s := ExtendRun(l, states, actions, Cpu(e));
      if w in now.ptc && Spares(events, w) { EventSpares(l, now, e, w); }
      states', actions' := RunOn(l, states + [s], actions + [Cpu(e)], events[1..], w);
      assert Program(actions) + [e] + events[1..] == Program(actions) + events;
      assert Spares(events, w) ==> Spares(events[1..], w);
    }
  }

  // ----- two tables

  /** All of making a table and publishing it, up to the barrier. */
  function Relink(l: Layout, i: nat): seq<Event>
    requires l.table < 0x4_0000_0000
  {
    var w := l.DirectoryWord(i);
    ClearEvents(l) + ([Write(w, TableEntry(l.table))] + [Clean(w, 4)] + [PtcFlush(w)] + [TlbFlush(i)])
  }

  lemma {:induction false} ZerosUnclean(l: Layout, t: Track, n: nat)
    requires l.Valid() && n <= 0x400 && t.unclean == {}
    ensures forall w :: w in Tracked(l, t, ZeroWrites(l, n)).unclean ==> l.InTable(w)
    decreases n
  {
    if n == 0 {
    } else {
      ZerosUnclean(l, t, n - 1);
      WordsExist(l, n - 1);
      TrackedNext(l, t, ZeroWrites(l, n - 1), Write(l.TableWord(n - 1), 0));
      hide Tracked;
    }
  }

  lemma {:induction false} TrackedNext(l: Layout, t: Track, a: seq<Event>, e: Event)
    ensures Tracked(l, t, a + [e]) == Next(l, Tracked(l, t, a), e)
    decreases |a|
  {
    hide Next;
    if a == [] {
      assert [e][1..] == [];
    } else {
      assert (a + [e])[1..] == a[1..] + [e];
      TrackedNext(l, Next(l, t, a[0]), a[1..], e);
    }
  }

  lemma {:induction false} TrackedConcat(l: Layout, t: Track, a: seq<Event>, b: seq<Event>)
    ensures Tracked(l, t, a + b) == Tracked(l, Tracked(l, t, a), b)
    decreases |a|
  {
    hide Next;
    if a == [] {
      assert a + b == b;
    } else {
      assert (a + b)[1..] == a[1..] + b;
      TrackedConcat(l, Next(l, t, a[0]), a[1..], b);
    }
  }

  /** By then all of it is in memory. */
  lemma RelinkCleans(l: Layout, t: Track, i: nat)
    requires l.Valid() && l.table < 0x4_0000_0000 && i < 0x400 && t.unclean == {}
    ensures Tracked(l, t, Relink(l, i)).unclean == {}
  {
    hide Tracked, ZeroWrites, IsTable, EncodeValue;
    var zeros, w, v := ZeroWrites(l, 0x400), l.DirectoryWord(i), TableEntry(l.table);
    ZerosUnclean(l, t, 0x400);
    TrackedNext(l, t, zeros, Clean(l.table, 0x1000));
    var clear := zeros + [Clean(l.table, 0x1000)];
    assert Tracked(l, t, clear).unclean == {};
    WordsExist(l, i);
    TrackedNext(l, t, clear, Write(w, v));
    TrackedNext(l, t, clear + [Write(w, v)], Clean(w, 4));
    TrackedNext(l, t, clear + [Write(w, v)] + [Clean(w, 4)], PtcFlush(w));
    TrackedNext(l, t, clear + [Write(w, v)] + [Clean(w, 4)] + [PtcFlush(w)], TlbFlush(i));
    assert Relink(l, i) == clear + [Write(w, v)] + [Clean(w, 4)] + [PtcFlush(w)] + [TlbFlush(i)];
  }

  /** It stores a zero table, in table words, and flushes no line of the table. */
  lemma RelinkStores(l: Layout, tb: Tables, i: nat, w: nat)
    requires l.Valid() && l.table < 0x4_0000_0000 && i < 0x400 && tb.Full() && l.InTable(w)
    ensures Stored(l, tb, Relink(l, i)).l1 == Zeros() && WritesWords(l, Relink(l, i)) && Spares(Relink(l, i), w)
  {
    hide Stored, EncodeValue, Zeros;
    var d, v, clear := l.DirectoryWord(i), TableEntry(l.table), ClearEvents(l);
    ClearStores(l, tb);
    WordsExist(l, i);
    StoredAppend(l, tb, clear, Write(d, v));
    StoredNothing(l, tb, clear + [Write(d, v)], Clean(d, 4));
    StoredNothing(l, tb, clear + [Write(d, v)] + [Clean(d, 4)], PtcFlush(d));
    StoredNothing(l, tb, clear + [Write(d, v)] + [Clean(d, 4)] + [PtcFlush(d)], TlbFlush(i));
    assert Relink(l, i) == clear + [Write(d, v)] + [Clean(d, 4)] + [PtcFlush(d)] + [TlbFlush(i)];
    ZeroWords(l, 0x400);
    ZeroSpares(l, 0x400, w);
    LinesApart(l, d, w);
    hide ZeroWrites;
  }

  lemma {:induction false} ZeroSpares(l: Layout, n: nat, w: nat)
    ensures Spares(ZeroWrites(l, n), w)
    decreases n
  {
    if n == 0 {
    } else {
      ZeroSpares(l, n - 1, w);
    }
  }

  lemma LinesApart(l: Layout, d: nat, w: nat)
    requires l.Valid() && l.InDirectory(d) && l.InTable(w)
    ensures d / 16 != w / 16
  {
    PageOfLine(l.directory, d);
    PageOfLine(l.table, w);
  }

  lemma PageOfLine(base: nat, w: nat)
    requires base % 0x1000 == 0 && base <= w < base + 0x1000
    ensures w / 16 / 0x100 * 0x1000 == base
  {
    ModUnique(w, 0x1000, base / 0x1000, w - base);
    DivTwice(w, 16, 0x100);
  }

  /** The last entry of a section that has been mapped to its end. */
  lemma LastEntry(tb: Tables, rq: Request, l: Layout, last: int, cur: nat)
    requires Mapped(tb, rq, l, last, cur) && last >= 0 && cur < rq.base + rq.size
    ensures last < 0x400 && IsTable(tb.l0[last]) && tb.l1[0x3FF] != 0
  {
    LargeTest(rq, cur);
    NotTable(l.table);
    EntryZero();
    hide IsTable, IsValid, EncodeValue;
    assert tb.l0[last] == TableEntry(l.table);
    var va := last * 0x40_0000 + 0x3FF * 0x1000;
    LastPage(rq, last, cur);
    Aligned(rq, last * 0x400 + 0x3FF);
    NotTable(rq.phys + (va - rq.base));
  }

  lemma LastPage(rq: Request, last: int, cur: nat)
    requires AtSection(rq, cur) && cur < rq.base + rq.size && 0 <= last && rq.Reached(last, cur)
    ensures rq.base <= last * 0x40_0000 + 0x3FF * 0x1000 < cur
  {
    PageBelow(rq.base / 0x1000, last, cur / 0x40_0000);
  }

  lemma PageBelow(page: nat, last: nat, section: nat)
    requires page * 0x1000 < (last + 1) * 0x40_0000 && last * 0x40_0000 < section * 0x40_0000
    ensures page * 0x1000 <= last * 0x40_0000 + 0x3FF * 0x1000 < section * 0x40_0000
  {
    assert last < section;
    assert page < (last + 1) * 0x400;
    assert page <= last * 0x400 + 0x3FF;
  }

  /** Memory is what the CPU sees, and that is what the program stored. */
  lemma MemoryHolds(l: Layout, states: seq<State>, actions: seq<Action>, tb: Tables, k: nat)
    requires Run(l, states, actions) && Cleared(l, states[0], tb) && k < 0x400
    requires Tracked(l, FRESH, Program(actions)).unclean == {}
    ensures var s, now := states[|actions|], Stored(l, tb, Program(actions));
            Inv(l, s, Tracked(l, FRESH, Program(actions))) && now.Full() &&
            l.TableWord(k) in s.dram && s.dram[l.TableWord(k)] == now.l1[k] &&
            l.DirectoryWord(k) in s.cpu && s.cpu[l.DirectoryWord(k)] == now.l0[k]
  {
    ClearedIsInitial(l, states[0], tb);
    hide Tracked, Stored, Run, Program, CachedWords, CachedPages, Consistent;
    RunShape(l, states, actions);
    RunEnds(l, states, actions, FRESH);
    RunHolds(l, states, actions, tb);
    WordsExist(l, k);
  }

  /**
   A device fetches the last entry of the first section; then the table is cleared for the second
   one. At the barrier that links it there, cache and memory disagree.
   */
  lemma Clobbers(l: Layout, s: State, tb: Tables, rq: Request, last: int, cur: nat, program: seq<Event>)
    returns (states: seq<State>, actions: seq<Action>)
    requires Cleared(l, s, tb) && Mapped(Stored(l, tb, program), rq, l, last, cur)
    requires last >= 0 && cur < rq.base + rq.size && !rq.IsLarge(cur / 0x40_0000)
    requires Reaches(l, FRESH, program, Between(last)) && WritesWords(l, program)
    ensures Run(l, states, actions) && states[0] == s && |actions| > 0
    ensures Program(actions) == program + (Relink(l, cur / 0x40_0000) + [Barrier])
    ensures actions[|actions| - 1] == Cpu(Barrier) && !Coherent(l, states[|actions| - 1])
  {
    ClearedIsInitial(l, s, tb);
    var now, w, i := Stored(l, tb, program), l.TableWord(0x3FF), cur / 0x40_0000;
    LastEntry(now, rq, l, last, cur);
    LargeTest(rq, cur);
    WordsExist(l, 0x3FF);
    assert i < 0x400;
    hide Mapped, Stored, IsTable, Relink, Tracked, Synced, Walk, Inv, Coherent, Cleared, EncodeValue;
    assert Run(l, [s], []);
    hide Run, Program;
    states, actions := RunOn(l, [s], [], program, w);
    states, actions := FetchEntry(l, states, actions, tb, program, last, w);
    states, actions := RelinkDisagrees(l, states, actions, tb, program, i, w);
    RunShape(l, states, actions);
    var t := ExtendRun(l, states, actions, Cpu(Barrier));
    states, actions := states + [t], actions + [Cpu(Barrier)];
    assert program + Relink(l, i) + [Barrier] == program + (Relink(l, i) + [Barrier]);
  }

  /** The cached entry stays, and its word in memory is cleared. */
  lemma RelinkDisagrees(l: Layout, states: seq<State>, actions: seq<Action>, tb: Tables, program: seq<Event>, i: nat,
                        w: nat) returns (states': seq<State>, actions': seq<Action>)
    requires Run(l, states, actions) && Cleared(l, states[0], tb) && Program(actions) == program
    requires Tracked(l, FRESH, program).unclean == {} && Stored(l, tb, program).Full()
    requires l.table < 0x4_0000_0000 && i < 0x400 && w == l.TableWord(0x3FF)
    requires w in states[|actions|].ptc && states[|actions|].ptc[w] != 0
    ensures Run(l, states', actions') && states'[0] == states[0] && Program(actions') == program + Relink(l, i)
    ensures !Coherent(l, states'[|actions'|])
  {
    hide Stored, Relink, Tracked, Inv, Coherent, Program;
    RunShape(l, states, actions);
    hide Run;
    ClearedIsInitial(l, states[0], tb);
    hide Cleared;
    WordsExist(l, 0x3FF);
    RelinkStores(l, Stored(l, tb, program), i, w);
    states', actions' := RunOn(l, states, actions, Relink(l, i), w);
    RelinkCleans(l, Tracked(l, FRESH, program), i);
    TrackedConcat(l, FRESH, program, Relink(l, i));
    StoredConcat(l, tb, program, Relink(l, i));
    MemoryHolds(l, states', actions', tb, 0x3FF);
    RunShape(l, states', actions');
    Disagree(l, states'[|actions'|], w);
  }

  lemma Disagree(l: Layout, s: State, w: nat)
    requires w in s.ptc && w in s.dram && s.ptc[w] != s.dram[w]
    ensures !Coherent(l, s)
  {
  }

  lemma FetchEntry(l: Layout, states: seq<State>, actions: seq<Action>, tb: Tables, program: seq<Event>, last: int,
                   w: nat) returns (states': seq<State>, actions': seq<Action>)
    requires Run(l, states, actions) && Cleared(l, states[0], tb) && Program(actions) == program
    requires w == l.TableWord(0x3FF)
    requires Tracked(l, FRESH, program).unclean == {} && 0 <= last < 0x400 && IsTable(Stored(l, tb, program).l0[last])
    ensures Run(l, states', actions') && states'[0] == states[0] && Program(actions') == program
    ensures var s' := states'[|actions'|]; w in s'.ptc && s'.ptc[w] == Stored(l, tb, program).l1[0x3FF]
  {
    ClearedIsInitial(l, states[0], tb);
    MemoryHolds(l, states, actions, tb, last);
    MemoryHolds(l, states, actions, tb, 0x3FF);
    WordsExist(l, 0x3FF);
    assert NamesTable(l, states[|actions|], last);
    hide Walk, Program, Tracked, Stored, IsTable, Cleared;
    var t := ExtendRun(l, states, actions, Fetch(w));
    RunShape(l, states, actions);
    states', actions' := states + [t], actions + [Fetch(w)];
  }

  // ----- finding the second table

  lemma FirstIsTable(rq: Request)
    requires rq.Valid() && !rq.OneTableSuffices()
    ensures 0 < rq.size && !rq.IsLarge(rq.base / 0x40_0000)
  {
    BothEndsNeedTables(rq);
  }

  /** The loop does not end before it. */
  lemma MoreTables(tb: Tables, rq: Request, l: Layout, last: int, cur: nat)
    requires Mapped(tb, rq, l, last, cur) && !rq.OneTableSuffices()
    requires last == -1 ==> cur == rq.base
    requires last >= 0 ==> last == rq.base / 0x40_0000
    ensures cur < rq.base + rq.size
  {
    hide EncodeValue;
    BothEndsNeedTables(rq);
  }

  /** What holds before the second table is made: the caches are in order, and one section has the table. */
  ghost predicate Underway(l: Layout, s: State, tb: Tables, rq: Request, last: int, cur: nat, program: seq<Event>) {
    && Cleared(l, s, tb) && Mapped(Stored(l, tb, program), rq, l, last, cur) && !rq.OneTableSuffices()
    && (last == -1 ==> cur == rq.base) && (last >= 0 ==> last == rq.base / 0x40_0000)
    && Reaches(l, FRESH, program, Between(last)) && WritesWords(l, program)
  }

  lemma KeepLooking(l: Layout, s: State, tb: Tables, rq: Request, last: int, cur: nat, program: seq<Event>)
    requires Underway(l, s, tb, rq, last, cur, program) && cur < rq.base + rq.size
    requires last == -1 || rq.IsLarge(cur / 0x40_0000)
    ensures var next, program' := Advance(rq, cur), program + StepEvents(rq, l, cur);
            Underway(l, s, tb, rq, LastTable(rq, last, cur), next, program') &&
            program' + Issued(rq, l, next) == program + Issued(rq, l, cur)
  {
    ClearedIsInitial(l, s, tb);
    FirstIsTable(rq);
    var now, events := Stored(l, tb, program), StepEvents(rq, l, cur);
    LoopStep(tb, now, rq, l, last, cur, program);
    StepStores(now, rq, l, cur);
    StepReaches(rq, l, last, cur);
    hide Mapped, Stored, Reaches, Issued, StepEvents, StepTables, WritesWords, Cleared, Advance;
    ReachOn(l, FRESH, program, Between(last), events, Between(LastTable(rq, last, cur)));
    WordsConcat(l, program, events);
  }

  lemma {:induction false} FindClobber(l: Layout, s: State, tb: Tables, rq: Request, last: int, cur: nat,
                                       program: seq<Event>)
    returns (states: seq<State>, actions: seq<Action>)
    requires AtSection(rq, cur) && l.table < 0x4_0000_0000 && Underway(l, s, tb, rq, last, cur, program)
    ensures Run(l, states, actions) && states[0] == s && Program(actions) <= program + Issued(rq, l, cur)
    ensures |states| == |actions| + 1 && !BarriersCoherent(l, states, actions)
    decreases rq.base + rq.size - cur
  {
    hide Issued, StepEvents, Run, BarriersCoherent, AtSection, Program;
    assert cur < rq.base + rq.size by { MoreTables(Stored(l, tb, program), rq, l, last, cur); }
    if last >= 0 && !rq.IsLarge(cur / 0x40_0000) {
      states, actions := ClobbersHere(l, s, tb, rq, last, cur, program);
    } else {
      hide Underway;
      KeepLooking(l, s, tb, rq, last, cur, program);
      states, actions := FindClobber(l, s, tb, rq, LastTable(rq, last, cur), Advance(rq, cur),
                                     program + StepEvents(rq, l, cur));
    }
  }

  lemma WordsConcat(l: Layout, a: seq<Event>, b: seq<Event>)
    requires WritesWords(l, a) && WritesWords(l, b)
    ensures WritesWords(l, a + b)
  {
  }

  lemma ClobbersHere(l: Layout, s: State, tb: Tables, rq: Request, last: int, cur: nat, program: seq<Event>)
    returns (states: seq<State>, actions: seq<Action>)
    requires Underway(l, s, tb, rq, last, cur, program) && AtSection(rq, cur) && l.table < 0x4_0000_0000
    requires last >= 0 && cur < rq.base + rq.size && !rq.IsLarge(cur / 0x40_0000)
    ensures Run(l, states, actions) && |states| == |actions| + 1 && states[0] == s
    ensures !BarriersCoherent(l, states, actions)
    ensures Program(actions) <= program + Issued(rq, l, cur)
  {
    RelinkIsPrefix(rq, l, cur);
    IssuedNext(rq, l, cur);
    hide Run, Coherent, StepEvents, Relink, Cleared, Reaches, Stored, Mapped, Issued, WritesWords, Program, Advance;
    states, actions := Clobbers(l, s, tb, rq, last, cur, program);
    RunShape(l, states, actions);
    assert actions[|actions| - 1] == Cpu(Barrier);
    PrefixOfIssued(program, Relink(l, cur / 0x40_0000) + [Barrier], StepEvents(rq, l, cur),
                   Issued(rq, l, Advance(rq, cur)));
  }

  lemma PrefixOfIssued(program: seq<Event>, a: seq<Event>, events: seq<Event>, rest: seq<Event>)
    requires a <= events
    ensures program + a <= program + (events + rest)
  {
  }

  lemma RelinkIsPrefix(rq: Request, l: Layout, cur: nat)
    requires AtSection(rq, cur) && cur < rq.base + rq.size && l.table < 0x4_0000_0000 && !rq.IsLarge(cur / 0x40_0000)
    ensures Relink(l, cur / 0x40_0000) + [Barrier] <= StepEvents(rq, l, cur)
  {
    hide ClearEvents, PageEvents, AtSection, EncodeValue;
    var i, j, n := cur / 0x40_0000, cur % 0x40_0000 / 0x1000, PageCount(rq, cur);
    AlignedPages(rq, cur, n, j);
    var w, v := l.DirectoryWord(i), TableEntry(l.table);
    assert Relink(l, i) + [Barrier] == ClearEvents(l) + EntryEvents(l, i, v);
  }

  /**
   Coherence at every barrier, in every run from empty caches over a cleared directory, holds
   exactly when one table suffices.
   */
  lemma CoherentExactlyWhenOneTable(l: Layout, s: State, tb: Tables, rq: Request)
    requires Cleared(l, s, tb) && rq.Valid() && l.table < 0x4_0000_0000 && AtSection(rq, rq.base)
    ensures CoherentFrom(l, s, Issued(rq, l, rq.base)) <==> rq.OneTableSuffices()
  {
    if rq.OneTableSuffices() {
      OneTableCoherent(l, s, tb, rq);
    } else {
      ClearedIsInitial(l, s, tb);
      NothingMapped(tb, rq, l);
      ReachNothing(l, FRESH);
      assert Between(-1) == FRESH && Stored(l, tb, []) == tb;
      assert Underway(l, s, tb, rq, -1, rq.base, []);
      hide Issued, Run, BarriersCoherent, Cleared, Mapped, Reaches, Underway;
      var states, actions := FindClobber(l, s, tb, rq, -1, rq.base, []);
      assert [] + Issued(rq, l, rq.base) == Issued(rq, l, rq.base);
    }
  }

  /** Two pages on either side of a section boundary are enough to fail. */
  lemma TwoPagesIncoherent(l: Layout, s: State, tb: Tables)
    requires Cleared(l, s, tb) && l.table < 0x4_0000_0000
    ensures var rq := Request(0x3F_F000, 0, 0x2000);
            AtSection(rq, rq.base) && !CoherentFrom(l, s, Issued(rq, l, rq.base))
  {
    var rq := Request(0x3F_F000, 0, 0x2000);
    assert AtSection(rq, rq.base) && !rq.OneTableSuffices();
    hide Issued, CoherentFrom, Cleared, AtSection, Request.OneTableSuffices;
    CoherentExactlyWhenOneTable(l, s, tb, rq);
  }

  // ----- the whole initialisation

  /** Once the program is through, the device sees the flat mapping. */
  ghost predicate Delivers(l: Layout, tb: Tables, rq: Request, program: seq<Event>) {
    forall states: seq<State>, actions: seq<Action>, page: nat ::
      Run(l, states, actions) && Cleared(l, states[0], tb) && Program(actions) == program && page < 0x10_0000 ==>
        SeesFlat(l, states[|actions|], rq, page)
  }

  /**
   Clearing the directory and mapping a range through it, from empty caches.  In every
   interleaving with the hardware: all barriers are coherent exactly when one table suffices, and
   then the device sees the mapping that was asked for.
   */
  method InitializeDevicePageTable(phys: nat, size: nat, address: nat, l0: array<nat>, l0Phys: nat,
                                   l1: array?<nat>, l1Phys: nat)
    returns (aborted: bool, ghost program: seq<Event>)
    requires Request(address % 0x1_0000_0000, phys, size).Valid()
    requires l0.Length == 0x400 && (l1 != null ==> l1.Length == 0x400 && l1 != l0)
    requires l0Phys % 0x1000 == 0 && l1Phys % 0x1000 == 0 && l1Phys < 0x4_0000_0000 && l0Phys != l1Phys
    modifies l0, l1
    ensures var rq := Request(address % 0x1_0000_0000, phys, size);
            aborted <==> l0Phys == 0 || (NeedsTable(rq) && (l1 == null || l1Phys == 0))
    ensures !aborted ==>
              var rq, l := Request(address % 0x1_0000_0000, phys, size), Layout(l0Phys, l1Phys);
              var tb := Tables(Zeros(), old(Contents(l1)));
              (forall s: State :: Cleared(l, s, tb) ==> (CoherentFrom(l, s, program) <==> rq.OneTableSuffices())) &&
              (rq.OneTableSuffices() ==> Delivers(l, tb, rq, program))
  {
    hide Cleared, CoherentFrom, Run, Program, SeesFlat, Issued, Built, Stored, Request.OneTableSuffices, NeedsTable;
    var i := 0;
    while i < 0x400
      invariant 0 <= i <= 0x400 && forall k :: 0 <= k < i ==> l0[k] == 0
      invariant Contents(l1) == old(Contents(l1))
    {
      l0[i] := 0;
      i := i + 1;
    }
    assert l0[..] == Zeros();
    ghost var rq, l := Request(address % 0x1_0000_0000, phys, size), Layout(l0Phys, l1Phys);
    ghost var tb := Tables(l0[..], Contents(l1));
    ghost var last;
    aborted, last, program := MapImpl(phys, size, address, l0, l0Phys, l1, l1Phys);
    if !aborted {
      forall s: State | Cleared(l, s, tb) ensures CoherentFrom(l, s, program) <==> rq.OneTableSuffices() {
        CoherentExactlyWhenOneTable(l, s, tb, rq);
      }
      if rq.OneTableSuffices() { IssuedDelivers(l, tb, rq); }
    }
  }

  lemma IssuedDelivers(l: Layout, tb: Tables, rq: Request)
    requires l.Valid() && rq.Valid() && l.table < 0x4_0000_0000 && AtSection(rq, rq.base) && rq.OneTableSuffices()
    ensures Delivers(l, tb, rq, Issued(rq, l, rq.base))
  {
    hide Cleared, Program, SeesFlat, Issued, Request.OneTableSuffices, Coherent, Apply, Enabled, Complete;
    forall states: seq<State>, actions: seq<Action>, page: nat |
      Run(l, states, actions) && Cleared(l, states[0], tb) && Program(actions) == Issued(rq, l, rq.base) &&
      page < 0x10_0000
      ensures |states| == |actions| + 1 && SeesFlat(l, states[|actions|], rq, page)
    {
      RunShape(l, states, actions);
      DeviceSeesFlat(l, states, actions, rq, tb, page);
    }
  }
}
