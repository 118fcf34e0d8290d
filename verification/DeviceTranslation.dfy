/**
 What a device sees once `MapImpl` has returned, whatever the caches and the walker did while
 it ran: the flat mapping that was asked for.
 */
module DeviceTranslation {
  import opened Arithmetic
  import opened SmmuEntry
  import opened SmmuCoherence
  import opened DeviceTables
  import opened DevicePageTable

  /** Memory `m` holds the tables. */
  ghost predicate Holds(l: Layout, m: map<nat, nat>, tb: Tables) {
    && tb.Full()
    && (forall i :: 0 <= i < 0x400 ==> l.DirectoryWord(i) in m && m[l.DirectoryWord(i)] == tb.l0[i])
    && (forall j :: 0 <= j < 0x400 ==> l.TableWord(j) in m && m[l.TableWord(j)] == tb.l1[j])
  }

  lemma WordIndex(l: Layout, a: nat)
    requires l.Valid() && l.IsWord(a)
    ensures l.InDirectory(a) ==> a == l.DirectoryWord((a - l.directory) / 4)
    ensures l.InTable(a) ==> a == l.TableWord((a - l.table) / 4)
  {
    if l.InDirectory(a) { Multiple(l.directory, a); }
    if l.InTable(a) { Multiple(l.table, a); }
  }

  lemma Multiple(base: nat, a: nat)
    requires base % 0x1000 == 0 && a % 4 == 0 && base <= a
    ensures a == base + 4 * ((a - base) / 4)
  {
    ModUnique(a - base, 4, a / 4 - 0x400 * (base / 0x1000), 0);
  }

  lemma HoldsWrite(l: Layout, m: map<nat, nat>, tb: Tables, a: nat, v: nat)
    requires l.Valid() && Holds(l, m, tb) && l.IsWord(a)
    ensures Holds(l, m[a := v], Store(l, tb, Write(a, v)))
  {
    WordIndex(l, a);
    forall i | 0 <= i < 0x400 ensures l.InDirectory(l.DirectoryWord(i)) && l.InTable(l.TableWord(i)) {
      WordsExist(l, i);
    }
    if l.InTable(a) { DisjointTables(l, a); }
    forall j | 0 <= j < 0x400 ensures !l.InDirectory(l.TableWord(j)) { DisjointTables(l, l.TableWord(j)); }
  }

  lemma HoldsStep(l: Layout, s: State, tb: Tables, a: Action)
    requires l.Valid() && Complete(l, s.cpu) && Complete(l, s.dram) && Enabled(l, s, a) && Holds(l, s.cpu, tb)
    ensures Holds(l, Apply(l, s, a).cpu, if a.Cpu? then Store(l, tb, a.event) else tb)
  {
    hide Holds, Walk, Complete;
    if a.Cpu? && a.event.Write? { HoldsWrite(l, s.cpu, tb, a.event.addr, a.event.value); }
  }

  /** The CPU's memory at the end of a run holds what its program stored. */
  lemma {:induction false} RunHolds(l: Layout, states: seq<State>, actions: seq<Action>, tb: Tables)
    requires Run(l, states, actions) && Holds(l, states[0].cpu, tb)
    ensures Holds(l, states[|actions|].cpu, Stored(l, tb, Program(actions)))
    decreases |actions|
  {
    hide Holds, Walk, Complete, Enabled, Apply, Store;
    if actions == [] {
    } else {
      assert tb.Full() by { HoldsFull(l, states[0].cpu, tb); }
      RunTail(l, states, actions);
      HoldsStep(l, states[0], tb, actions[0]);
      if actions[0].Cpu? { assert Program(actions)[1..] == Program(actions[1..]); }
      RunHolds(l, states[1..], actions[1..], if actions[0].Cpu? then Store(l, tb, actions[0].event) else tb);
    }
  }

  lemma HoldsFull(l: Layout, m: map<nat, nat>, tb: Tables)
    requires Holds(l, m, tb)
    ensures tb.Full()
  {
  }

  /** Empty caches over a memory that holds a cleared directory and any table. */
  ghost predicate Cleared(l: Layout, s: State, tb: Tables) {
    && l.Valid() && Complete(l, s.dram) && s.cpu == s.dram && s.ptc == map[] && s.tlb == map[]
    && Holds(l, s.cpu, tb) && forall i :: 0 <= i < 0x400 ==> tb.l0[i] == 0
  }

  lemma ClearedIsInitial(l: Layout, s: State, tb: Tables)
    requires Cleared(l, s, tb)
    ensures Initial(l, s) && Inv(l, s, FRESH) && tb.Full()
  {
    EntryZero();
    hide IsTable, Walk;
    assert forall k :: 0 <= k < 0x400 ==> !NamesTable(l, s, k);
  }

  /** A coherent state translates as its memory does, cached or not. */
  lemma CoherentWalk(l: Layout, s: State, page: nat)
    requires Coherent(l, s) && page < 0x10_0000
    ensures Walk(l, View(s), page) == Walk(l, s.dram, page)
    ensures page in s.tlb ==> s.tlb[page] == Walk(l, s.dram, page)
  {
    assert View(s) == s.dram;
  }

  /** The device's page is translated as asked, from the TLB or by a walk. */
  ghost predicate SeesFlat(l: Layout, s: State, rq: Request, page: nat) {
    && l.Valid() && Complete(l, s.dram) && page < 0x10_0000
    && Walk(l, View(s), page) == rq.Flat(page * 0x1000)
    && (page in s.tlb ==> s.tlb[page] == rq.Flat(page * 0x1000))
  }

  /**
   In every interleaving of the issued program with the hardware, once the program is through,
   every translation in the TLB and every walk still to be made is the one that was asked for.
   */
  lemma DeviceSeesFlat(l: Layout, states: seq<State>, actions: seq<Action>, rq: Request, tb: Tables, page: nat)
    requires Run(l, states, actions) && Cleared(l, states[0], tb) && page < 0x10_0000
    requires rq.Valid() && l.table < 0x4_0000_0000 && AtSection(rq, rq.base)
    requires Program(actions) == Issued(rq, l, rq.base) && rq.OneTableSuffices()
    ensures Coherent(l, states[|actions|]) && SeesFlat(l, states[|actions|], rq, page)
  {
    var program, tb' := Program(actions), Stored(l, tb, Program(actions));
    ClearedIsInitial(l, states[0], tb);
    NothingMapped(tb, rq, l);
    hide Walk, Translate, Built, Mapped, Inv, Run, Holds, Initial, Issued, Stored, Coherent, SeesFlat;
    RunShape(l, states, actions);
    var s := states[|actions|];
    var last := IssuedBuilds(tb, rq, l, -1, rq.base);
    EverythingMapped(tb', rq, l, last);
    RunEnds(l, states, actions, FRESH);
    CleanIsCoherent(l, s, Between(last));
    RunHolds(l, states, actions, tb);
    CoherentSeesFlat(l, s, rq, tb', last, page);
  }

  lemma CoherentSeesFlat(l: Layout, s: State, rq: Request, tb: Tables, last: int, page: nat)
    requires Coherent(l, s) && Holds(l, s.cpu, tb) && page < 0x10_0000
    requires Built(tb.l0, tb.l1, rq, l.table, last) && rq.OneTableSuffices()
    ensures SeesFlat(l, s, rq, page)
  {
    hide Walk, Translate, Built;
    CoherentWalk(l, s, page);
    WalkIsTranslate(l, s.dram, tb.l0, tb.l1, page);
    FlatExactlyWhenOneTable(tb.l0, tb.l1, rq, l.table, last);
    assert 0 <= page * 0x1000 < 0x1_0000_0000;
  }

  lemma RunShape(l: Layout, states: seq<State>, actions: seq<Action>)
    requires Run(l, states, actions)
    ensures |states| == |actions| + 1 && l.Valid()
  {
  }
}
