/**
 The page-table cache (PTC), the TLB and the CPU data cache around a device page table.

 The CPU program is a list of events; between any two of them the hardware may write back
 dirty CPU lines, fetch any reachable table word into the PTC, fill the TLB through the
 PTC, and drop cached words.  `Synced` is a discipline on the program alone; every
 interleaving of a disciplined program is coherent at each of its barriers.
 */
module SmmuCoherence {
  import opened Arithmetic
  import opened SmmuEntry

  /** What the CPU does; addresses are physical. */
  datatype Event =
    | Write(addr: nat, value: nat)
    | Clean(addr: nat, size: nat)
    | PtcFlush(addr: nat)
    | TlbFlush(section: nat)
    | Barrier

  /** The physical addresses of the directory and of the page table. */
  datatype Layout = Layout(directory: nat, table: nat) {
    ghost predicate Valid() {
      && directory % 0x1000 == 0 && table % 0x1000 == 0 && directory != table
    }

    function DirectoryWord(i: nat): nat { directory + 4 * i }
    function TableWord(j: nat): nat { table + 4 * j }

    predicate InDirectory(w: nat) { directory <= w < directory + 0x1000 && w % 4 == 0 }
    predicate InTable(w: nat) { table <= w < table + 0x1000 && w % 4 == 0 }
    predicate IsWord(w: nat) { InDirectory(w) || InTable(w) }
  }

  // ----- the discipline

  /**
   What may be out of date: words only in the CPU cache, words whose PTC copy may be old,
   sections whose TLB entries may be old; and the sections that ever named the table.
   */
  datatype Track = Track(unclean: set<nat>, stale: set<nat>, tlb: set<nat>, linked: set<nat>) {
    predicate IsClean() { unclean == {} && stale == {} && tlb == {} }
  }

  function Next(l: Layout, t: Track, e: Event): Track {
    match e
    case Write(a, v) =>
      if l.InDirectory(a) then
        var i := (a - l.directory) / 4;
        if IsTable(v) then
          Track(t.unclean + {a}, t.stale + {a} + (set w | w in t.unclean && l.InTable(w)), t.tlb + {i}, t.linked + {i})
        else
          Track(t.unclean + {a}, t.stale + {a}, t.tlb + {i}, t.linked)
      else if l.InTable(a) then
        if t.linked == {} then t.(unclean := t.unclean + {a})
        else t.(unclean := t.unclean + {a}, stale := t.stale + {a}, tlb := t.tlb + t.linked)
      else t
    case Clean(a, n) => t.(unclean := set w | w in t.unclean && !(a <= w < a + n))
    case PtcFlush(a) => t.(stale := set w | w in t.stale && (w / 16 != a / 16 || w in t.unclean))
    case TlbFlush(s) => if PathClean(l, t, s) then t.(tlb := t.tlb - {s}) else t
    case Barrier => t
  }

  /** No word a walk of section `s` reads may be out of date. */
  predicate PathClean(l: Layout, t: Track, s: nat) {
    && l.DirectoryWord(s) !in t.stale + t.unclean
    && (s in t.linked ==> forall w :: w in t.stale + t.unclean ==> !l.InTable(w))
  }

  function Tracked(l: Layout, t: Track, program: seq<Event>): Track
    decreases |program|
  {
    if program == [] then t else Tracked(l, Next(l, t, program[0]), program[1..])
  }

  /** At every barrier of the program nothing may be out of date. */
  predicate Synced(l: Layout, t: Track, program: seq<Event>)
    decreases |program|
  {
    program == [] ||
    ((program[0].Barrier? ==> t.IsClean()) && Synced(l, Next(l, t, program[0]), program[1..]))
  }

  lemma {:induction false} SyncedConcat(l: Layout, t: Track, a: seq<Event>, b: seq<Event>)
    requires Synced(l, t, a) && Synced(l, Tracked(l, t, a), b)
    ensures Synced(l, t, a + b) && Tracked(l, t, a + b) == Tracked(l, Tracked(l, t, a), b)
    decreases |a|
  {
    if a == [] {
      assert a + b == b;
    } else {
      assert (a + b)[1..] == a[1..] + b;
      SyncedConcat(l, Next(l, t, a[0]), a[1..], b);
    }
  }

  // ----- what a program stores

  /** The words of the directory and of the page table. */
  datatype Tables = Tables(l0: seq<nat>, l1: seq<nat>) {
    predicate Full() { |l0| == 0x400 && |l1| == 0x400 }
  }

  function Store(l: Layout, tb: Tables, e: Event): (r: Tables)
    requires tb.Full()
    ensures r.Full()
  {
    if !e.Write? then tb
    else if l.InDirectory(e.addr) then tb.(l0 := tb.l0[(e.addr - l.directory) / 4 := e.value])
    else if l.InTable(e.addr) then tb.(l1 := tb.l1[(e.addr - l.table) / 4 := e.value])
    else tb
  }

  function Stored(l: Layout, tb: Tables, program: seq<Event>): (r: Tables)
    requires tb.Full()
    ensures r.Full()
    decreases |program|
  {
    if program == [] then tb else Stored(l, Store(l, tb, program[0]), program[1..])
  }

  lemma {:induction false} StoredAppend(l: Layout, tb: Tables, program: seq<Event>, e: Event)
    requires tb.Full()
    ensures Stored(l, tb, program + [e]) == Store(l, Stored(l, tb, program), e)
    decreases |program|
  {
    hide Store;
    if program == [] {
      assert [e][1..] == [];
    } else {
      assert (program + [e])[1..] == program[1..] + [e];
      StoredAppend(l, Store(l, tb, program[0]), program[1..], e);
    }
  }

  // ----- the hardware

  /** CPU view, DRAM, PTC (by word) and TLB (by device page). */
  datatype State = State(cpu: map<nat, nat>, dram: map<nat, nat>, ptc: map<nat, nat>, tlb: map<nat, Translation>)

  datatype Action =
    | Cpu(event: Event)
    | WriteBack(word: nat)
    | Fetch(word: nat)
    | DropWord(word: nat)
    | Fill(page: nat)
    | DropPage(page: nat)

  function View(s: State): (m: map<nat, nat>)
    ensures m.Keys == s.dram.Keys
  {
    map w | w in s.dram :: if w in s.ptc then s.ptc[w] else s.dram[w]
  }

  ghost predicate Complete(l: Layout, m: map<nat, nat>) {
    forall w :: w in m <==> l.IsWord(w)
  }

  lemma WordsExist(l: Layout, i: nat)
    requires l.Valid() && i < 0x400
    ensures l.InDirectory(l.DirectoryWord(i)) && l.InTable(l.TableWord(i))
  {
    ModUnique(l.DirectoryWord(i), 4, 0x400 * (l.directory / 0x1000) + i, 0);
    ModUnique(l.TableWord(i), 4, 0x400 * (l.table / 0x1000) + i, 0);
  }

  lemma DisjointTables(l: Layout, w: nat)
    requires l.Valid() && l.InTable(w)
    ensures !l.InDirectory(w)
  {
    assert l.directory == 0x1000 * (l.directory / 0x1000);
    assert l.table == 0x1000 * (l.table / 0x1000);
  }

  function Walk(l: Layout, m: map<nat, nat>, page: nat): Translation
    requires l.Valid() && Complete(l, m) && page < 0x10_0000
  {
    WordsExist(l, page / 0x400);
    WordsExist(l, page % 0x400);
    Resolve(l.table, m[l.DirectoryWord(page / 0x400)], m[l.TableWord(page % 0x400)], page * 0x1000)
  }

  /** Some copy of directory entry `i` names a table. */
  ghost predicate NamesTable(l: Layout, s: State, i: nat) {
    var w := l.DirectoryWord(i);
    || (w in s.cpu && IsTable(s.cpu[w]))
    || (w in s.dram && IsTable(s.dram[w]))
    || (w in s.ptc && IsTable(s.ptc[w]))
  }

  /** Directory words can always be fetched, table words once some directory entry leads to them. */
  ghost predicate Enabled(l: Layout, s: State, a: Action) {
    match a
    case Cpu(Write(w, _)) => l.IsWord(w)
    case Cpu(_) => true
    case WriteBack(w) => l.IsWord(w)
    case Fetch(w) => l.InDirectory(w) || (l.InTable(w) && exists i :: 0 <= i < 0x400 && NamesTable(l, s, i))
    case DropWord(_) => true
    case Fill(page) => page < 0x10_0000
    case DropPage(_) => true
  }

  ghost function Apply(l: Layout, s: State, a: Action): State
    requires l.Valid() && Complete(l, s.cpu) && Complete(l, s.dram) && Enabled(l, s, a)
  {
    match a
    case Cpu(Write(w, v)) => s.(cpu := s.cpu[w := v])
    case Cpu(Clean(b, n)) => s.(dram := map w | w in s.dram :: if b <= w < b + n then s.cpu[w] else s.dram[w])
    case Cpu(PtcFlush(b)) => s.(ptc := map w | w in s.ptc && w / 16 != b / 16 :: s.ptc[w])
    case Cpu(TlbFlush(i)) => s.(tlb := map p | p in s.tlb && p / 0x400 != i :: s.tlb[p])
    case Cpu(Barrier) => s
    case WriteBack(w) => s.(dram := s.dram[w := s.cpu[w]])
    case Fetch(w) => s.(ptc := s.ptc[w := s.dram[w]])
    case DropWord(w) => s.(ptc := s.ptc - {w})
    case Fill(page) => s.(tlb := s.tlb[page := Walk(l, View(s), page)])
    case DropPage(page) => s.(tlb := s.tlb - {page})
  }

  /** Every cached word and translation agrees with memory, and memory with the CPU. */
  ghost predicate Coherent(l: Layout, s: State) {
    && l.Valid() && Complete(l, s.dram)
    && s.cpu == s.dram
    && (forall w :: w in s.ptc ==> w in s.dram && s.ptc[w] == s.dram[w])
    && (forall p :: p in s.tlb ==> p < 0x10_0000 && s.tlb[p] == Walk(l, s.dram, p))
  }

  // ----- the invariant that links the two

  ghost predicate Memories(l: Layout, s: State, t: Track) {
    && l.Valid() && Complete(l, s.cpu) && Complete(l, s.dram)
    && (forall w :: l.IsWord(w) && w !in t.unclean ==> s.dram[w] == s.cpu[w])
  }

  ghost predicate CachedWords(l: Layout, s: State, t: Track)
    requires Complete(l, s.dram)
  {
    && (forall w :: w in s.ptc ==> l.IsWord(w) && (w !in t.stale ==> s.ptc[w] == s.dram[w]))
    && (t.linked == {} ==> forall w :: w in s.ptc ==> !l.InTable(w))
    && (forall i :: 0 <= i < 0x400 && NamesTable(l, s, i) ==> i in t.linked)
  }

  ghost predicate CachedPages(l: Layout, s: State, t: Track)
    requires l.Valid() && Complete(l, s.dram)
  {
    forall p :: p in s.tlb ==>
      p < 0x10_0000 && (p / 0x400 !in t.tlb ==> s.tlb[p] == Walk(l, s.dram, p))
  }

  ghost predicate Consistent(l: Layout, t: Track) {
    && (forall w :: w in t.unclean ==> l.IsWord(w) && (w in t.stale || (l.InTable(w) && t.linked == {})))
    && (forall i :: 0 <= i < 0x400 && i !in t.tlb ==> PathClean(l, t, i))
  }

  ghost predicate Inv(l: Layout, s: State, t: Track) {
    Memories(l, s, t) && CachedWords(l, s, t) && CachedPages(l, s, t) && Consistent(l, t)
  }

  lemma CleanIsCoherent(l: Layout, s: State, t: Track)
    requires Inv(l, s, t) && t.IsClean()
    ensures Coherent(l, s)
  {
    assert s.cpu == s.dram;
  }

  // ----- every action keeps it

  /** A walk reads the same from two memories that agree on its path. */
  lemma SamePath(l: Layout, m: map<nat, nat>, m': map<nat, nat>, page: nat)
    requires l.Valid() && Complete(l, m) && Complete(l, m') && page < 0x10_0000
    requires var w := l.DirectoryWord(page / 0x400); w in m && w in m' && m[w] == m'[w]
    requires IsTable(m[l.DirectoryWord(page / 0x400)]) ==>
               forall w :: l.InTable(w) ==> m[w] == m'[w]
    ensures Walk(l, m, page) == Walk(l, m', page)
  {
    WordsExist(l, page % 0x400);
  }

  lemma KeepWrite(l: Layout, s: State, t: Track, a: nat, v: nat)
    requires Inv(l, s, t) && l.IsWord(a)
    ensures Inv(l, Apply(l, s, Cpu(Write(a, v))), Next(l, t, Write(a, v)))
  {
    hide Walk, IsTable, PathClean;
    var s', t' := Apply(l, s, Cpu(Write(a, v))), Next(l, t, Write(a, v));
    WriteConsistent(l, t, a, v);
    WriteKeepsWords(l, s, t, a, v);
    hide CachedWords, Consistent, NamesTable;
    assert Memories(l, s', t');
    assert CachedPages(l, s', t');
  }

  lemma WriteKeepsWords(l: Layout, s: State, t: Track, a: nat, v: nat)
    requires l.Valid() && Complete(l, s.dram) && CachedWords(l, s, t) && l.IsWord(a)
    ensures CachedWords(l, s.(cpu := s.cpu[a := v]), Next(l, t, Write(a, v)))
  {
    hide IsTable, Complete;
    if l.InDirectory(a) { NamedAfterWrite(l, s, a, v); } else { TableWriteNames(l, s, a, v); }
    hide NamesTable;
    var t' := Next(l, t, Write(a, v));
    assert t.linked <= t'.linked && t.stale <= t'.stale;
  }

  lemma TableWriteNames(l: Layout, s: State, a: nat, v: nat)
    requires l.Valid() && l.IsWord(a) && !l.InDirectory(a)
    ensures forall i :: 0 <= i < 0x400 && NamesTable(l, s.(cpu := s.cpu[a := v]), i) ==> NamesTable(l, s, i)
  {
    hide IsTable;
    forall i | 0 <= i < 0x400 ensures l.InDirectory(l.DirectoryWord(i)) { WordsExist(l, i); }
  }

  lemma NamedAfterWrite(l: Layout, s: State, a: nat, v: nat)
    requires l.Valid() && l.InDirectory(a)
    ensures forall i :: 0 <= i < 0x400 && NamesTable(l, s.(cpu := s.cpu[a := v]), i) ==>
              NamesTable(l, s, i) || (IsTable(v) && i == (a - l.directory) / 4)
  {
  }

  lemma WriteConsistent(l: Layout, t: Track, a: nat, v: nat)
    requires l.Valid() && l.IsWord(a) && Consistent(l, t)
    ensures Consistent(l, Next(l, t, Write(a, v)))
  {
    hide IsTable;
    var t' := Next(l, t, Write(a, v));
    forall i | 0 <= i < 0x400 && i !in t'.tlb ensures PathClean(l, t', i) {
      assert PathClean(l, t, i);
      WriteElsewhere(l, t, a, v, i);
    }
  }

  /** A write leaves the path of a section it does not make doubtful as it was. */
  lemma WriteElsewhere(l: Layout, t: Track, a: nat, v: nat, i: nat)
    requires l.Valid() && l.IsWord(a) && i < 0x400 && PathClean(l, t, i)
    requires i !in Next(l, t, Write(a, v)).tlb && (forall w :: w in t.unclean ==> w in t.stale || t.linked == {})
    ensures PathClean(l, Next(l, t, Write(a, v)), i)
  {
    hide IsTable;
    WordsExist(l, i);
    if l.InTable(l.DirectoryWord(i)) { DisjointTables(l, l.DirectoryWord(i)); }
    if l.InTable(a) {
      DisjointTables(l, a);
    } else {
      EntryIndex(l.directory, a, i);
    }
  }

  lemma EntryIndex(base: nat, a: nat, i: nat)
    requires base % 0x1000 == 0 && base <= a && a % 4 == 0
    ensures a == base + 4 * i <==> i == (a - base) / 4
  {
    ModUnique(a - base, 4, a / 4 - 0x400 * (base / 0x1000), 0);
  }

  /** Memory may take over the CPU's copy of any words: it only changes where they were unclean. */
  lemma KeepMemory(l: Layout, s: State, t: Track, s': State, t': Track)
    requires Inv(l, s, t) && s' == s.(dram := s'.dram) && Complete(l, s'.dram)
    requires t' == t.(unclean := t'.unclean) && t'.unclean <= t.unclean
    requires forall w :: l.IsWord(w) ==> s'.dram[w] == s.dram[w] || s'.dram[w] == s.cpu[w]
    requires forall w :: l.IsWord(w) && w !in t'.unclean ==> s'.dram[w] == s.cpu[w]
    ensures Inv(l, s', t')
  {
    hide Walk;
    assert forall w :: l.IsWord(w) && w !in t.unclean ==> s'.dram[w] == s.dram[w];
    assert Memories(l, s', t');
    forall w | w in s'.ptc && w !in t'.stale ensures s'.ptc[w] == s'.dram[w] {
      assert w !in t.unclean;
    }
    assert CachedWords(l, s', t');
    forall p | p in s'.tlb && p / 0x400 !in t'.tlb ensures s'.tlb[p] == Walk(l, s'.dram, p) {
      assert PathClean(l, t, p / 0x400);
      WordsExist(l, p / 0x400);
      assert NamesTable(l, s, p / 0x400) ==> p / 0x400 in t.linked;
      SamePath(l, s.dram, s'.dram, p);
    }
    assert Consistent(l, t');
  }

  lemma KeepPtcFlush(l: Layout, s: State, t: Track, a: nat)
    requires Inv(l, s, t)
    ensures Inv(l, Apply(l, s, Cpu(PtcFlush(a))), Next(l, t, PtcFlush(a)))
  {
    hide Walk;
    var s', t' := Apply(l, s, Cpu(PtcFlush(a))), Next(l, t, PtcFlush(a));
    assert CachedWords(l, s', t');
    assert CachedPages(l, s', t');
    assert Consistent(l, t');
  }

  lemma KeepTlbFlush(l: Layout, s: State, t: Track, i: nat)
    requires Inv(l, s, t)
    ensures Inv(l, Apply(l, s, Cpu(TlbFlush(i))), Next(l, t, TlbFlush(i)))
  {
    hide Walk;
    var s', t' := Apply(l, s, Cpu(TlbFlush(i))), Next(l, t, TlbFlush(i));
    assert CachedWords(l, s', t');
    assert CachedPages(l, s', t');
    assert Consistent(l, t');
  }

  lemma KeepFetch(l: Layout, s: State, t: Track, w: nat)
    requires Inv(l, s, t) && Enabled(l, s, Fetch(w))
    ensures Inv(l, Apply(l, s, Fetch(w)), t)
  {
    hide Walk;
    var s' := Apply(l, s, Fetch(w));
    forall i | 0 <= i < 0x400 && NamesTable(l, s', i) ensures NamesTable(l, s, i) {}
    assert CachedWords(l, s', t);
    assert CachedPages(l, s', t);
  }

  lemma KeepFill(l: Layout, s: State, t: Track, page: nat)
    requires Inv(l, s, t) && page < 0x10_0000
    ensures Inv(l, Apply(l, s, Fill(page)), t)
  {
    hide Walk;
    var s' := Apply(l, s, Fill(page));
    if page / 0x400 !in t.tlb {
      assert PathClean(l, t, page / 0x400);
      WordsExist(l, page / 0x400);
      assert NamesTable(l, s, page / 0x400) ==> page / 0x400 in t.linked;
      SamePath(l, View(s), s.dram, page);
    }
    assert CachedWords(l, s', t);
    assert CachedPages(l, s', t);
  }

  lemma KeepDrop(l: Layout, s: State, t: Track, s': State)
    requires Inv(l, s, t) && s'.cpu == s.cpu && s'.dram == s.dram
    requires forall w :: w in s'.ptc ==> w in s.ptc && s'.ptc[w] == s.ptc[w]
    requires forall p :: p in s'.tlb ==> p in s.tlb && s'.tlb[p] == s.tlb[p]
    ensures Inv(l, s', t)
  {
    hide Walk;
    forall i | 0 <= i < 0x400 && NamesTable(l, s', i) ensures NamesTable(l, s, i) {}
    assert CachedWords(l, s', t);
    assert CachedPages(l, s', t);
  }

  function After(l: Layout, t: Track, a: Action): Track {
    if a.Cpu? then Next(l, t, a.event) else t
  }

  /** Every action of the CPU or the hardware keeps the invariant. */
  lemma Keep(l: Layout, s: State, t: Track, a: Action)
    requires Inv(l, s, t) && Enabled(l, s, a)
    ensures Inv(l, Apply(l, s, a), After(l, t, a))
  {
    hide Walk, CachedWords, CachedPages, Consistent;
    match a
    case Cpu(Write(w, v)) => KeepWrite(l, s, t, w, v);
    case Cpu(Clean(b, n)) => KeepClean(l, s, t, b, n);
    case Cpu(PtcFlush(b)) => KeepPtcFlush(l, s, t, b);
    case Cpu(TlbFlush(i)) => KeepTlbFlush(l, s, t, i);
    case Cpu(Barrier) =>
    case WriteBack(w) => KeepWriteBack(l, s, t, w);
    case Fetch(w) => KeepFetch(l, s, t, w);
    case DropWord(w) => KeepDrop(l, s, t, Apply(l, s, a));
    case Fill(page) => KeepFill(l, s, t, page);
    case DropPage(page) => KeepDrop(l, s, t, Apply(l, s, a));
  }

  lemma KeepClean(l: Layout, s: State, t: Track, b: nat, n: nat)
    requires Inv(l, s, t)
    ensures Inv(l, Apply(l, s, Cpu(Clean(b, n))), Next(l, t, Clean(b, n)))
  {
    KeepMemory(l, s, t, Apply(l, s, Cpu(Clean(b, n))), Next(l, t, Clean(b, n)));
  }

  lemma KeepWriteBack(l: Layout, s: State, t: Track, w: nat)
    requires Inv(l, s, t) && l.IsWord(w)
    ensures Inv(l, Apply(l, s, WriteBack(w)), t)
  {
    KeepMemory(l, s, t, Apply(l, s, WriteBack(w)), t);
  }

  // ----- whole runs

  /** The CPU's part of a run. */
  function Program(actions: seq<Action>): seq<Event> {
    if actions == [] then []
    else if actions[0].Cpu? then [actions[0].event] + Program(actions[1..])
    else Program(actions[1..])
  }

  ghost predicate Run(l: Layout, states: seq<State>, actions: seq<Action>) {
    && l.Valid() && |states| == |actions| + 1
    && forall i :: 0 <= i < |actions| ==>
         Complete(l, states[i].cpu) && Complete(l, states[i].dram) && Enabled(l, states[i], actions[i]) &&
         states[i + 1] == Apply(l, states[i], actions[i])
  }

  lemma RunTail(l: Layout, states: seq<State>, actions: seq<Action>)
    requires Run(l, states, actions) && actions != []
    ensures Run(l, states[1..], actions[1..])
  {
    hide Complete, Enabled, Apply;
    forall i | 0 <= i < |actions[1..]| ensures states[1..][i] == states[i + 1] && actions[1..][i] == actions[i + 1] {}
  }

  lemma {:induction false} RunInv(l: Layout, states: seq<State>, actions: seq<Action>, t: Track, i: nat)
    requires Run(l, states, actions) && Inv(l, states[0], t) && Synced(l, t, Program(actions)) && i < |actions|
    ensures actions[i] == Cpu(Barrier) ==> Coherent(l, states[i])
    decreases |actions|
  {
    hide Walk, Memories, CachedWords, CachedPages, Consistent, Inv, Coherent, Apply, Enabled, Next, Complete;
    if i == 0 {
      if actions[0] == Cpu(Barrier) {
        assert Program(actions)[0] == Barrier;
        CleanIsCoherent(l, states[0], t);
      }
    } else {
      RunTail(l, states, actions);
      Keep(l, states[0], t, actions[0]);
      if actions[0].Cpu? { assert Program(actions)[1..] == Program(actions[1..]); }
      RunInv(l, states[1..], actions[1..], After(l, t, actions[0]), i - 1);
    }
  }

  lemma {:induction false} RunEnds(l: Layout, states: seq<State>, actions: seq<Action>, t: Track)
    requires Run(l, states, actions) && Inv(l, states[0], t)
    ensures Inv(l, states[|actions|], Tracked(l, t, Program(actions)))
    decreases |actions|
  {
    hide Walk, Memories, CachedWords, CachedPages, Consistent, Inv, Coherent, Apply, Enabled, Next, Complete;
    if actions == [] {
    } else {
      RunTail(l, states, actions);
      Keep(l, states[0], t, actions[0]);
      if actions[0].Cpu? { assert Program(actions)[1..] == Program(actions[1..]); }
      RunEnds(l, states[1..], actions[1..], After(l, t, actions[0]));
    }
  }

  const FRESH := Track({}, {}, {}, {})

  /** Empty caches over a memory in which no directory entry names a table. */
  ghost predicate Initial(l: Layout, s: State) {
    && Complete(l, s.dram) && s.cpu == s.dram && s.ptc == map[] && s.tlb == map[]
    && forall k :: 0 <= k < 0x400 ==> !NamesTable(l, s, k)
  }

  /**
   Coherence: run a disciplined program in any interleaving with the hardware.  At every
   barrier no cached word and no cached translation disagrees with memory.
   */
  lemma CoherentAtBarriers(l: Layout, states: seq<State>, actions: seq<Action>, i: nat)
    requires Run(l, states, actions) && i < |actions| && actions[i] == Cpu(Barrier)
    requires Initial(l, states[0])
    requires Synced(l, FRESH, Program(actions))
    ensures Coherent(l, states[i])
  {
    assert Inv(l, states[0], FRESH);
    RunInv(l, states, actions, FRESH, i);
  }
}
