/**
 The secure monitor's one-page windows for IRAM and user memory: map takes a spin lock that
 only the matching unmap gives back.

 The two windows share nothing, so each is a machine of its own, stepped by any number of
 cores: every shared access is a step, and between steps any core may cache the window's
 translation in its TLB.
 */
module MapWindow {
  import opened Options

  datatype Kind = Iram | User(memorySize: nat)

  /** The checks of map; addresses are 64-bit and the DRAM test subtracts without a sign. */
  predicate Admitted(kind: Kind, address: nat) {
    match kind
    case Iram =>
      0x4000_0000 <= address <= 0x4003_FFFF && !(0x4003_4000 <= address <= 0x4003_7FFF) && address % 0x1000 == 0
    case User(memorySize) =>
      (if address >= 0x8000_0000 then address - 0x8000_0000 else address + 0xFFFF_FFFF_8000_0000) < memorySize &&
      address % 0x1000 == 0
  }

  /** The pages of IRAM but the four that hold the debug code, or those of the memory there is. */
  predicate IsPage(kind: Kind, p: nat) {
    if kind.Iram? then p < 0x40 && p !in {0x34, 0x35, 0x36, 0x37} else 0x1000 * p < kind.memorySize
  }

  function PageAddress(kind: Kind, p: nat): nat { (if kind.Iram? then 0x4000_0000 else 0x8000_0000) + 0x1000 * p }

  ghost predicate IsPageOf(kind: Kind, address: nat) {
    exists p :: IsPage(kind, p) && address == PageAddress(kind, p)
  }

  lemma AdmitsExactlyPages(kind: Kind, address: nat)
    requires kind.User? ==> kind.memorySize <= 0xFFFF_FFFF_8000_0000
    ensures Admitted(kind, address) <==> IsPageOf(kind, address)
  {
    if Admitted(kind, address) {
      var p: nat := (address - PageAddress(kind, 0)) / 0x1000;
      assert IsPage(kind, p) && address == PageAddress(kind, p);
    }
    if IsPageOf(kind, address) {
      var p :| IsPage(kind, p) && address == PageAddress(kind, p);
    }
  }

  /** Where a core stands in map (up to `Holding`) or unmap (from `Testing` on). */
  datatype Pc =
    | Idle
    | Acquiring(address: nat)
    | Checking(address: nat)
    | Rejecting
    | Recording(address: nat)
    | Mapping(address: nat)
    | Syncing(address: nat)
    | Holding(address: nat)
    | Testing
    | Flushing
    | Unmapping
    | Purging
    | Clearing
    | Releasing

  /** The lock, the recorded physical address, the page-table entry, and per core its TLB and position. */
  datatype State = State(locked: bool, phys: nat, entry: Option<nat>, tlbs: seq<Option<nat>>, pcs: seq<Pc>)

  datatype Action = Map(core: nat, address: nat) | Unmap(core: nat) | Proceed(core: nat) | Cache(core: nat)

  predicate Enabled(s: State, a: Action) {
    && a.core < |s.pcs| == |s.tlbs|
    && match a
       case Map(c, address) => s.pcs[c].Idle? && address < 0x1_0000_0000_0000_0000
       case Unmap(c) => s.pcs[c].Idle? || s.pcs[c].Holding?
       case Proceed(c) => !s.pcs[c].Idle? && !s.pcs[c].Holding? && (s.pcs[c].Acquiring? ==> !s.locked)
       case Cache(_) => s.entry.Some?
  }

  /** A core unmaps only what it has mapped. */
  predicate Disciplined(s: State, a: Action) {
    a.Unmap? && a.core < |s.pcs| ==> s.pcs[a.core].Holding?
  }

  function Step(kind: Kind, s: State, a: Action): State
    requires Enabled(s, a)
  {
    match a
    case Map(c, address) => s.(pcs := s.pcs[c := Acquiring(address)])
    case Unmap(c) => s.(pcs := s.pcs[c := Testing])
    case Cache(c) => s.(tlbs := s.tlbs[c := s.entry])
    case Proceed(c) =>
      match s.pcs[c]
      case Acquiring(x) => s.(locked := true, pcs := s.pcs[c := Checking(x)])
      case Checking(x) => s.(pcs := s.pcs[c := if Admitted(kind, x) then Recording(x) else Rejecting])
      case Rejecting => s.(locked := false, pcs := s.pcs[c := Idle])
      case Recording(x) => s.(phys := x, pcs := s.pcs[c := Mapping(x)])
      case Mapping(x) => s.(entry := Some(x), pcs := s.pcs[c := Syncing(x)])
      case Syncing(x) => s.(tlbs := seq(|s.tlbs|, _ => None), pcs := s.pcs[c := Holding(x)])
      case Testing => s.(pcs := s.pcs[c := if s.phys == 0 then Idle else Flushing])
      case Flushing => s.(pcs := s.pcs[c := Unmapping])
      case Unmapping => s.(entry := None, pcs := s.pcs[c := Purging])
      case Purging => s.(tlbs := seq(|s.tlbs|, _ => None), pcs := s.pcs[c := Clearing])
      case Clearing => s.(phys := 0, pcs := s.pcs[c := Releasing])
      case Releasing => s.(locked := false, pcs := s.pcs[c := Idle])
  }

  predicate Initial(s: State) {
    && !s.locked && s.phys == 0 && s.entry == None && |s.tlbs| == |s.pcs|
    && (forall c :: 0 <= c < |s.pcs| ==> s.pcs[c].Idle? && s.tlbs[c] == None)
  }

  ghost predicate Run(kind: Kind, states: seq<State>, actions: seq<Action>) {
    && |states| == |actions| + 1 && Initial(states[0])
    && forall i :: 0 <= i < |actions| ==>
         Enabled(states[i], actions[i]) && states[i + 1] == Step(kind, states[i], actions[i])
  }

  ghost predicate DisciplinedRun(kind: Kind, states: seq<State>, actions: seq<Action>) {
    Run(kind, states, actions) && forall i :: 0 <= i < |actions| ==> Disciplined(states[i], actions[i])
  }

  // ----- the invariant

  predicate Inside(pc: Pc) { !pc.Idle? && !pc.Acquiring? }

  predicate Empty(s: State) {
    s.phys == 0 && s.entry == None && forall c :: 0 <= c < |s.tlbs| ==> s.tlbs[c] == None
  }

  /** The window leads to `x`, and so does every cached translation of it. */
  predicate Leads(s: State, x: nat, entry: Option<nat>) {
    s.phys == x && s.entry == entry && forall c :: 0 <= c < |s.tlbs| ==> s.tlbs[c] in {None, Some(x)}
  }

  /** What the window holds while the lock is with a core at `pc` that has mapped or will map `x`. */
  predicate WindowFor(kind: Kind, s: State, pc: Pc, x: nat) {
    match pc
    case Checking(_) => Empty(s)
    case Rejecting => Empty(s)
    case Recording(y) => Empty(s) && y == x && Admitted(kind, x)
    case Mapping(y) => s.phys == x == y && Admitted(kind, x) && Empty(s.(phys := 0))
    case Syncing(y) => y == x && Admitted(kind, x) && Leads(s, x, Some(x))
    case Holding(y) => y == x && Admitted(kind, x) && Leads(s, x, Some(x))
    case Testing => Admitted(kind, x) && Leads(s, x, Some(x))
    case Flushing => Admitted(kind, x) && Leads(s, x, Some(x))
    case Unmapping => Admitted(kind, x) && Leads(s, x, Some(x))
    case Purging => Admitted(kind, x) && Leads(s, x, None)
    case Clearing => s.phys == x && Admitted(kind, x) && Empty(s.(phys := 0))
    case Releasing => Empty(s)
    case _ => false
  }

  /** The lock is with core `h`, or free when `h` is negative. */
  ghost predicate Inv(kind: Kind, s: State, h: int, x: nat) {
    && h < |s.pcs| == |s.tlbs| && (s.locked <==> h >= 0)
    && (forall c :: 0 <= c < |s.pcs| ==> (Inside(s.pcs[c]) <==> c == h))
    && (if h < 0 then Empty(s) else WindowFor(kind, s, s.pcs[h], x))
  }

  lemma AdmittedIsNonZero(kind: Kind, x: nat)
    requires Admitted(kind, x) && (kind.User? ==> kind.memorySize <= 0xFFFF_FFFF_8000_0000)
    ensures x != 0 && x % 0x1000 == 0
  {
  }

  function Holder(s: State, a: Action, h: int): int
    requires Enabled(s, a)
  {
    if !a.Proceed? then h
    else match s.pcs[a.core]
      case Acquiring(_) => a.core
      case Rejecting => -1
      case Releasing => -1
      case _ => h
  }

  function Page(s: State, a: Action, x: nat): nat
    requires Enabled(s, a)
  {
    if a.Proceed? && s.pcs[a.core].Checking? then s.pcs[a.core].address else x
  }

  lemma StepInv(kind: Kind, s: State, a: Action, h: int, x: nat)
    requires kind.User? ==> kind.memorySize <= 0xFFFF_FFFF_8000_0000
    requires Inv(kind, s, h, x) && Enabled(s, a) && Disciplined(s, a)
    ensures Inv(kind, Step(kind, s, a), Holder(s, a, h), Page(s, a, x))
  {
    hide Admitted;
    if h >= 0 && Admitted(kind, x) { AdmittedIsNonZero(kind, x); }
    if a.Proceed? && a.core == h { HolderInv(kind, s, h, x); }
  }

  /** The step of the core that has the lock. */
  lemma HolderInv(kind: Kind, s: State, h: nat, x: nat)
    requires kind.User? ==> kind.memorySize <= 0xFFFF_FFFF_8000_0000
    requires Inv(kind, s, h, x) && Enabled(s, Proceed(h))
    ensures var a := Proceed(h); Inv(kind, Step(kind, s, a), Holder(s, a, h), Page(s, a, x))
  {
    hide Admitted;
    if Admitted(kind, x) { AdmittedIsNonZero(kind, x); }
  }

  /** It holds in every state of every disciplined run. */
  lemma {:induction false} RunInv(kind: Kind, states: seq<State>, actions: seq<Action>, i: nat) returns (h: int, x: nat)
    requires kind.User? ==> kind.memorySize <= 0xFFFF_FFFF_8000_0000
    requires DisciplinedRun(kind, states, actions) && i < |states|
    ensures Inv(kind, states[i], h, x)
    decreases i
  {
    if i == 0 {
      h, x := -1, 0;
    } else {
      var g, y := RunInv(kind, states, actions, i - 1);
      var s, a := states[i - 1], actions[i - 1];
      StepInv(kind, s, a, g, y);
      h, x := Holder(s, a, g), Page(s, a, y);
    }
  }

  // ----- what every disciplined run keeps

  /** Where an access of core `c` through the window goes: its TLB, or else the entry. */
  function Access(s: State, c: nat): Option<nat>
    requires c < |s.tlbs|
  {
    if s.tlbs[c].Some? then s.tlbs[c] else s.entry
  }

  /**
   The window is core `c`'s: the lock is held, no other core is inside, the address is recorded,
   and every access through the window reaches that page, which is one of the region.
   */
  ghost predicate Protected(kind: Kind, s: State, c: nat, x: nat) {
    && s.locked && s.phys == x != 0 && s.entry == Some(x) && IsPageOf(kind, x)
    && (forall d :: 0 <= d < |s.pcs| && Inside(s.pcs[d]) ==> d == c)
    && |s.tlbs| == |s.pcs| && forall d :: 0 <= d < |s.pcs| ==> Access(s, d) == Some(x)
  }

  /** From map to unmap the window is the holder's. */
  lemma HoldingProtects(kind: Kind, states: seq<State>, actions: seq<Action>, i: nat, c: nat)
    requires kind.User? ==> kind.memorySize <= 0xFFFF_FFFF_8000_0000
    requires DisciplinedRun(kind, states, actions) && i < |states|
    requires c < |states[i].pcs| && states[i].pcs[c].Holding?
    ensures Protected(kind, states[i], c, states[i].pcs[c].address)
  {
    var h, x := RunInv(kind, states, actions, i);
    AdmittedIsNonZero(kind, x);
    AdmitsExactlyPages(kind, x);
    hide IsPageOf, Admitted;
  }

  /** It stays the holder's, with the same page, until the holder itself acts. */
  lemma HoldingLasts(kind: Kind, states: seq<State>, actions: seq<Action>, i: nat, j: nat, c: nat)
    requires kind.User? ==> kind.memorySize <= 0xFFFF_FFFF_8000_0000
    requires DisciplinedRun(kind, states, actions) && i <= j < |states|
    requires c < |states[i].pcs| && states[i].pcs[c].Holding?
    requires forall k :: i <= k < j && !actions[k].Cache? ==> actions[k].core != c
    ensures Protected(kind, states[j], c, states[i].pcs[c].address)
  {
    PositionLasts(kind, states, actions, i, j, c);
    HoldingProtects(kind, states, actions, j, c);
  }

  lemma {:induction false} PositionLasts(kind: Kind, states: seq<State>, actions: seq<Action>, i: nat, j: nat, c: nat)
    requires DisciplinedRun(kind, states, actions) && i <= j < |states|
    requires c < |states[i].pcs| && states[i].pcs[c].Holding?
    requires forall k :: i <= k < j && !actions[k].Cache? ==> actions[k].core != c
    ensures c < |states[j].pcs| && states[j].pcs[c] == states[i].pcs[c]
    decreases j - i
  {
    if i == j {
    } else {
      PositionLasts(kind, states, actions, i, j - 1, c);
    }
  }

  predicate Records(pc: Pc) {
    pc.Mapping? || Maps(pc) || pc.Purging? || pc.Clearing?
  }

  predicate Maps(pc: Pc) {
    pc.Syncing? || pc.Holding? || pc.Testing? || pc.Flushing? || pc.Unmapping?
  }

  /** The address is recorded, and the entry set, exactly while some core is at those points. */
  lemma RecordedExactlyWhileMapped(kind: Kind, states: seq<State>, actions: seq<Action>, i: nat)
    requires kind.User? ==> kind.memorySize <= 0xFFFF_FFFF_8000_0000
    requires DisciplinedRun(kind, states, actions) && i < |states|
    ensures var s := states[i];
            (s.phys != 0 <==> exists c :: 0 <= c < |s.pcs| && Records(s.pcs[c])) &&
            (s.entry.Some? <==> exists c :: 0 <= c < |s.pcs| && Maps(s.pcs[c])) &&
            (s.locked <==> exists c :: 0 <= c < |s.pcs| && Inside(s.pcs[c]))
  {
    var h, x := RunInv(kind, states, actions, i);
    var s := states[i];
    if h >= 0 {
      if Admitted(kind, x) { AdmittedIsNonZero(kind, x); }
      assert Inside(s.pcs[h]);
      if Records(s.pcs[h]) {}
      if Maps(s.pcs[h]) {}
    }
  }

  /** A map that is refused finds the window empty, leaves it so and gives the lock back. */
  lemma RejectedMapChangesNothing(kind: Kind, states: seq<State>, actions: seq<Action>, i: nat, c: nat)
    requires kind.User? ==> kind.memorySize <= 0xFFFF_FFFF_8000_0000
    requires DisciplinedRun(kind, states, actions) && i < |actions| && actions[i] == Proceed(c)
    requires c < |states[i].pcs|
    requires states[i].pcs[c].Rejecting? || (states[i].pcs[c].Checking? && !IsPageOf(kind, states[i].pcs[c].address))
    ensures Empty(states[i]) && Empty(states[i + 1])
    ensures states[i].pcs[c].Rejecting? ==> states[i + 1].pcs[c].Idle? && !states[i + 1].locked
    ensures !states[i].pcs[c].Rejecting? ==> states[i + 1].pcs[c].Rejecting?
  {
    if states[i].pcs[c].Checking? { AdmitsExactlyPages(kind, states[i].pcs[c].address); }
    hide IsPageOf, Admitted;
    var h, x := RunInv(kind, states, actions, i);
  }

  // ----- which pages are mapped

  /** In every run the check lets exactly the pages of the region pass. */
  lemma ChecksExactlyPages(kind: Kind, states: seq<State>, actions: seq<Action>, i: nat, c: nat)
    requires kind.User? ==> kind.memorySize <= 0xFFFF_FFFF_8000_0000
    requires Run(kind, states, actions) && i < |actions| && actions[i] == Proceed(c)
    requires c < |states[i].pcs| && states[i].pcs[c].Checking?
    ensures var address := states[i].pcs[c].address;
            states[i + 1] ==
            states[i].(pcs := states[i].pcs[c := if IsPageOf(kind, address) then Recording(address) else Rejecting])
  {
    AdmitsExactlyPages(kind, states[i].pcs[c].address);
    hide Admitted, IsPageOf;
    assert states[i + 1] == Step(kind, states[i], actions[i]);
  }

  // ----- whole calls

  function Times(kind: Kind, s: State, c: nat, n: nat): State
    decreases n
  {
    if n == 0 || !Enabled(s, Proceed(c)) then s else Times(kind, Step(kind, s, Proceed(c)), c, n - 1)
  }

  /** A whole map by core `c`, with no step of another core in between. */
  function MapNow(kind: Kind, s: State, c: nat, address: nat): State
    requires Enabled(s, Map(c, address))
  {
    Times(kind, Step(kind, s, Map(c, address)), c, 5)
  }

  /** An empty window whose lock is free maps every page of its region, and nothing else. */
  lemma MapSucceeds(kind: Kind, s: State, c: nat, address: nat)
    requires kind.User? ==> kind.memorySize <= 0xFFFF_FFFF_8000_0000
    requires Enabled(s, Map(c, address)) && !s.locked && Empty(s)
    ensures MapNow(kind, s, c, address) ==
            if IsPageOf(kind, address)
            then State(true, address, Some(address), s.tlbs, s.pcs[c := Holding(address)])
            else s
  {
    AdmitsExactlyPages(kind, address);
    hide Admitted, IsPageOf;
    var t0 := Step(kind, s, Map(c, address));
    var t1 := Step(kind, t0, Proceed(c));
    var t2 := Step(kind, t1, Proceed(c));
    var t3 := Step(kind, t2, Proceed(c));
    assert Times(kind, t0, c, 5) == Times(kind, t1, c, 4) == Times(kind, t2, c, 3) == Times(kind, t3, c, 2);
    if IsPageOf(kind, address) {
      var t4 := Step(kind, t3, Proceed(c));
      var t5 := Step(kind, t4, Proceed(c));
      assert Times(kind, t3, c, 2) == Times(kind, t4, c, 1) == Times(kind, t5, c, 0) == t5;
      assert t5.tlbs == s.tlbs && t5.pcs == s.pcs[c := Holding(address)];
    } else {
      assert t3.pcs == s.pcs;
      assert Times(kind, t3, c, 2) == t3 == s;
    }
  }

  /** Unmapping then puts the window back as it was. */
  lemma UnmapUndoesMap(kind: Kind, s: State, c: nat, address: nat)
    requires kind.User? ==> kind.memorySize <= 0xFFFF_FFFF_8000_0000
    requires Enabled(s, Map(c, address)) && !s.locked && Empty(s) && IsPageOf(kind, address)
    ensures var t := MapNow(kind, s, c, address); Enabled(t, Unmap(c)) && UnmapNow(kind, t, c) == s
  {
    MapSucceeds(kind, s, c, address);
    AdmitsExactlyPages(kind, address);
    AdmittedIsNonZero(kind, address);
    hide IsPageOf, MapNow;
    var t := MapNow(kind, s, c, address);
    UnmapSteps(kind, t, c);
    assert UnmapNow(kind, t, c).tlbs == s.tlbs && UnmapNow(kind, t, c).pcs == s.pcs;
  }

  lemma UnmapSteps(kind: Kind, s: State, c: nat)
    requires Enabled(s, Unmap(c)) && s.phys != 0
    ensures UnmapNow(kind, s, c) == State(false, 0, None, seq(|s.tlbs|, _ => None), s.pcs[c := Idle])
  {
    var t1 := Step(kind, s, Unmap(c));
    var t2 := Step(kind, t1, Proceed(c));
    var t3 := Step(kind, t2, Proceed(c));
    var t4 := Step(kind, t3, Proceed(c));
    assert Times(kind, t1, c, 6) == Times(kind, t2, c, 5) == Times(kind, t3, c, 4) == Times(kind, t4, c, 3);
    assert t4.pcs == s.pcs[c := Purging];
    PurgeSteps(kind, t4, c);
    assert t4.pcs[c := Idle] == s.pcs[c := Idle];
  }

  lemma PurgeSteps(kind: Kind, s: State, c: nat)
    requires c < |s.pcs| == |s.tlbs| && s.pcs[c].Purging?
    ensures Times(kind, s, c, 3) ==
            s.(locked := false, phys := 0, tlbs := seq(|s.tlbs|, _ => None), pcs := s.pcs[c := Idle])
  {
    var t1 := Step(kind, s, Proceed(c));
    var t2 := Step(kind, t1, Proceed(c));
    var t3 := Step(kind, t2, Proceed(c));
    assert Times(kind, s, c, 3) == Times(kind, t1, c, 2) == Times(kind, t2, c, 1) == Times(kind, t3, c, 0) == t3;
    assert t3.pcs == s.pcs[c := Idle];
  }

  /** A whole unmap by core `c`, with no step of another core in between. */
  function UnmapNow(kind: Kind, s: State, c: nat): State
    requires Enabled(s, Unmap(c))
  {
    Times(kind, Step(kind, s, Unmap(c)), c, 6)
  }

  // ----- why the discipline is needed

  /**
   An unmap by a core that holds nothing is harmless exactly when nothing is mapped.
   Otherwise it takes the window and the lock away from the core that holds them.
   */
  lemma StrayUnmap(kind: Kind, s: State, h: int, x: nat, c: nat)
    requires kind.User? ==> kind.memorySize <= 0xFFFF_FFFF_8000_0000
    requires Inv(kind, s, h, x) && c < |s.pcs| && s.pcs[c].Idle?
    ensures UnmapNow(kind, s, c) == s <==> s.phys == 0
    ensures h >= 0 && s.pcs[h].Holding? ==>
              var t := UnmapNow(kind, s, c);
              !t.locked && t.entry == None && t.phys == 0 && |t.pcs| == |s.pcs| && t.pcs[h] == s.pcs[h]
  {
    var t1 := Step(kind, s, Unmap(c));
    var t2 := Step(kind, t1, Proceed(c));
    if s.phys == 0 {
      assert t2.pcs == s.pcs;
      assert t2 == s;
      assert Times(kind, t1, c, 6) == Times(kind, t2, c, 5) == t2;
    } else {
      UnmapSteps(kind, s, c);
      if h >= 0 && s.pcs[h].Holding? { AdmittedIsNonZero(kind, x); }
    }
  }
}
