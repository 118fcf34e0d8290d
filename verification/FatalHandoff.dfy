/**
 The fatal-error hand-off between cores: one core takes the interrupt, marks itself in a
 shared mask and sends the interrupt on to the lowest core not marked yet; every core but
 the last one powers off, and the last one waits for the mask to fill.

 Every shared access of the handler is a step of its own, and steps of different cores
 interleave freely.
 */
module FatalHandoff {
  import opened Arithmetic
  import opened BitMask

  /** Where a core stands in the handler. */
  datatype Pc =
    | Idle
    | Entered
    | Loaded(value: nat)
    | Stored
    | Choosing
    | Sending
    | Sent
    | Off
    | Waiting
    | Left

  /**
   The shared mask, the interrupt's pending bit and target, and the cores.  `stores` and
   `sends` only record history: which cores wrote the mask, in order, and how often the
   interrupt was sent on.
   */
  datatype State = State(mask: nat, pending: bool, target: nat, pcs: seq<Pc>, stores: seq<nat>, sends: nat)

  /** The cores, at most as many as the mask has bits. */
  predicate Cores(n: nat) { 1 <= n <= 8 }

  predicate Initial(n: nat, s: State) {
    && s.mask == 0 && s.pending && s.target < n && s.stores == [] && s.sends == 0
    && |s.pcs| == n && forall c :: 0 <= c < n ==> s.pcs[c] == Idle
  }

  predicate Enabled(n: nat, s: State, c: nat)
    requires |s.pcs| == n
  {
    c < n && !s.pcs[c].Off? && !s.pcs[c].Left? && (s.pcs[c].Idle? ==> s.pending && s.target == c)
  }

  function Step(n: nat, s: State, c: nat): (r: State)
    requires |s.pcs| == n && Enabled(n, s, c)
    ensures |r.pcs| == n
  {
    match s.pcs[c]
    case Idle => s.(pending := false, pcs := s.pcs[c := Entered])
    case Entered => s.(pcs := s.pcs[c := Loaded(s.mask)])
    case Loaded(value) => s.(mask := SetBit(value, c), pcs := s.pcs[c := Stored], stores := s.stores + [c])
    case Stored => s.(pcs := s.pcs[c := if s.mask != AllOnes(n) then Choosing else Sent])
    case Choosing => s.(target := LowestClear(s.mask), pcs := s.pcs[c := Sending])
    case Sending => s.(pending := true, sends := s.sends + 1, pcs := s.pcs[c := Sent])
    case Sent => s.(pcs := s.pcs[c := if c != n - 1 then Off else Waiting])
    case Waiting => if s.mask == AllOnes(n) then s.(pcs := s.pcs[c := Left]) else s
  }

  ghost predicate Run(n: nat, states: seq<State>, steps: seq<nat>) {
    && Cores(n) && |states| == |steps| + 1 && Initial(n, states[0])
    && forall i :: 0 <= i < |steps| ==>
         |states[i].pcs| == n && Enabled(n, states[i], steps[i]) && states[i + 1] == Step(n, states[i], steps[i])
  }

  // ----- the invariant

  /** The core may still write the mask or choose the next one. */
  predicate Holds(pc: Pc) { pc.Entered? || pc.Loaded? || pc.Stored? || pc.Choosing? || pc.Sending? }

  predicate Marked(pc: Pc) { !pc.Idle? && !pc.Entered? && !pc.Loaded? }

  predicate CoreOk(n: nat, s: State, c: nat)
    requires |s.pcs| == n && c < n
  {
    var pc := s.pcs[c];
    && (Bit(s.mask, c) <==> Marked(pc)) && (c in s.stores <==> Marked(pc))
    && (pc.Loaded? ==> pc.value == s.mask)
    && (pc.Choosing? || pc.Sending? ==> s.mask != AllOnes(n))
    && (pc.Sending? ==> s.target < n && s.pcs[s.target].Idle?)
    && (pc.Off? ==> c != n - 1) && (pc.Waiting? || pc.Left? ==> c == n - 1)
    && (pc.Left? ==> s.mask == AllOnes(n))
  }

  /** The token is with core `h`, or on its way, or everybody is marked. */
  ghost predicate TokenAt(n: nat, s: State, h: int)
    requires |s.pcs| == n
  {
    && (forall c :: 0 <= c < n ==> (Holds(s.pcs[c]) <==> c == h))
    && (s.pending ==> h < 0 && s.target < n && s.pcs[s.target].Idle?)
    && (h < 0 && !s.pending ==> s.mask == AllOnes(n))
    && (h >= 0 ==> h < n)
  }

  /** Whether the token is with a core that has not marked itself yet. */
  predicate Owed(n: nat, s: State, h: int)
    requires |s.pcs| == n && h < n
  {
    s.pending || (h >= 0 && !Marked(s.pcs[h]))
  }

  ghost predicate Inv(n: nat, s: State, h: int) {
    && Cores(n) && |s.pcs| == n && s.mask < Pow2(n) && h < n
    && (forall c :: 0 <= c < n ==> CoreOk(n, s, c))
    && TokenAt(n, s, h)
    && (forall i :: 0 <= i < |s.stores| ==> s.stores[i] < n)
    && (forall i, j :: 0 <= i < j < |s.stores| ==> s.stores[i] != s.stores[j])
    && s.sends + 1 == |s.stores| + if Owed(n, s, h) then 1 else 0
  }

  /** Who holds the token after a step of core `c`. */
  function Holder(n: nat, s: State, c: nat, h: int): int
    requires |s.pcs| == n && Enabled(n, s, c)
  {
    match s.pcs[c]
    case Idle => c
    case Stored => if s.mask != AllOnes(n) then c else -1
    case Sending => -1
    case _ => h
  }

  lemma InitialInv(n: nat, s: State)
    requires Cores(n) && Initial(n, s)
    ensures Inv(n, s, -1)
  {
    forall c | 0 <= c < n ensures CoreOk(n, s, c) { ZeroHasNoBits(c); }
  }

  lemma {:induction false} ZeroHasNoBits(i: nat)
    ensures !Bit(0, i)
  {
    if i == 0 {
    } else {
      ZeroHasNoBits(i - 1);
    }
  }

  lemma StoreInv(n: nat, s: State, c: nat, h: int)
    requires Inv(n, s, h) && Enabled(n, s, c) && s.pcs[c].Loaded?
    ensures Inv(n, Step(n, s, c), h)
  {
    hide SetBit, Bit, LowestClear, Pow2;
    var s' := Step(n, s, c);
    assert CoreOk(n, s, c);
    SetBitBound(s.mask, c, n);
    FullMask(s.mask, n);
    forall d | 0 <= d < n ensures CoreOk(n, s', d) {
      assert CoreOk(n, s, d);
      BitOfSetBit(s.mask, c, d);
    }
  }

  lemma OtherInv(n: nat, s: State, c: nat, h: int)
    requires Inv(n, s, h) && Enabled(n, s, c) && !s.pcs[c].Loaded?
    ensures Inv(n, Step(n, s, c), Holder(n, s, c, h))
  {
    hide SetBit, Bit, LowestClear, Pow2;
    var s' := Step(n, s, c);
    assert CoreOk(n, s, c);
    if s.pcs[c].Choosing? {
      LowestClearIsClear(s.mask, n);
      assert CoreOk(n, s, LowestClear(s.mask));
    }
    forall d | 0 <= d < n ensures CoreOk(n, s', d) { assert CoreOk(n, s, d); }
  }

  /** Every step keeps the invariant. */
  lemma StepInv(n: nat, s: State, c: nat, h: int)
    requires Inv(n, s, h) && Enabled(n, s, c)
    ensures Inv(n, Step(n, s, c), Holder(n, s, c, h))
  {
    if s.pcs[c].Loaded? { StoreInv(n, s, c, h); } else { OtherInv(n, s, c, h); }
  }

  /** It holds in every state of every run. */
  lemma {:induction false} RunInv(n: nat, states: seq<State>, steps: seq<nat>, i: nat) returns (h: int)
    requires Run(n, states, steps) && i < |states|
    ensures Inv(n, states[i], h)
    decreases i
  {
    if i == 0 {
      InitialInv(n, states[0]);
      h := -1;
    } else {
      var g := RunInv(n, states, steps, i - 1);
      StepInv(n, states[i - 1], steps[i - 1], g);
      h := Holder(n, states[i - 1], steps[i - 1], g);
    }
  }

  // ----- what every run keeps

  /** Only the core that holds the token writes the mask, and it adds exactly its own bit. */
  lemma MaskWrites(n: nat, states: seq<State>, steps: seq<nat>, i: nat)
    requires Run(n, states, steps) && i < |steps| && states[i + 1].mask != states[i].mask
    ensures forall d :: 0 <= d < n && Holds(states[i].pcs[d]) ==> d == steps[i]
    ensures Holds(states[i].pcs[steps[i]]) && !states[i].pending && steps[i] !in states[i].stores
    ensures forall d :: 0 <= d < n ==> (Bit(states[i + 1].mask, d) <==> d == steps[i] || Bit(states[i].mask, d))
  {
    var h := RunInv(n, states, steps, i);
    var s, c := states[i], steps[i];
    assert CoreOk(n, s, c);
    forall d | 0 <= d < n ensures Bit(states[i + 1].mask, d) <==> d == c || Bit(s.mask, d) {
      BitOfSetBit(s.mask, c, d);
    }
  }

  ghost function Below(n: nat): (r: set<nat>)
    ensures |r| == n && forall c: nat :: c in r <==> c < n
  {
    if n == 0 then {} else Below(n - 1) + {n - 1}
  }

  ghost function Elements(xs: seq<nat>): set<nat> { set x | x in xs }

  lemma {:induction false} ElementCount(xs: seq<nat>)
    requires forall i, j :: 0 <= i < j < |xs| ==> xs[i] != xs[j]
    ensures |Elements(xs)| == |xs|
    decreases |xs|
  {
    if xs == [] {
    } else {
      var init, last := xs[..|xs| - 1], xs[|xs| - 1];
      ElementCount(init);
      assert xs == init + [last] && last !in init;
      assert Elements(xs) == Elements(init) + {last};
    }
  }

  lemma DistinctCount(xs: seq<nat>, n: nat)
    requires forall i :: 0 <= i < |xs| ==> xs[i] < n
    requires forall i, j :: 0 <= i < j < |xs| ==> xs[i] != xs[j]
    requires forall c :: 0 <= c < n ==> c in xs
    ensures |xs| == n
  {
    ElementCount(xs);
    assert Elements(xs) == Below(n);
  }

  /**
   The last core leaves its wait only once every core has marked itself, exactly once, after
   exactly one hand-off less than there are cores.
   */
  lemma LeavesAfterAll(n: nat, states: seq<State>, steps: seq<nat>, i: nat)
    requires Run(n, states, steps) && i < |states| && |states[i].pcs| == n && states[i].pcs[n - 1].Left?
    ensures forall c :: 0 <= c < n ==> Marked(states[i].pcs[c]) && c in states[i].stores
    ensures |states[i].stores| == n && states[i].sends == n - 1 && !states[i].pending
  {
    var h := RunInv(n, states, steps, i);
    var s := states[i];
    FullMask(s.mask, n);
    assert CoreOk(n, s, n - 1);
    forall c | 0 <= c < n ensures Marked(s.pcs[c]) && c in s.stores { assert CoreOk(n, s, c); }
    DistinctCount(s.stores, n);
  }

  // ----- the order of the cores

  /** Mark number `k`: first the core the interrupt comes to, then the others from the lowest up. */
  function InOrder(first: nat, k: nat): nat {
    if k == 0 then first else if k <= first then k - 1 else k
  }

  ghost predicate Marks(stores: seq<nat>, first: nat) {
    forall k :: 0 <= k < |stores| ==> stores[k] == InOrder(first, k)
  }

  /** The marks are in order, and the token is with the next core or on its way there. */
  ghost predicate Lined(s: State, first: nat) {
    && Marks(s.stores, first)
    && (s.pending ==> s.target == InOrder(first, |s.stores|))
    && (forall c :: 0 <= c < |s.pcs| ==> NextInLine(s, first, c))
  }

  predicate NextInLine(s: State, first: nat, c: nat)
    requires c < |s.pcs|
  {
    && (s.pcs[c].Entered? || s.pcs[c].Loaded? ==> c == InOrder(first, |s.stores|))
    && (s.pcs[c].Sending? ==> s.target == InOrder(first, |s.stores|))
  }

  lemma BelowNext(stores: seq<nat>, first: nat, x: nat)
    requires stores != [] && Marks(stores, first) && x < InOrder(first, |stores|)
    ensures x in stores
  {
    var k := if x == first then 0 else if x < first then x + 1 else x;
    assert stores[k] == x;
  }

  lemma NextIsNew(stores: seq<nat>, first: nat)
    requires Marks(stores, first)
    ensures InOrder(first, |stores|) !in stores
  {
  }

  /** The lowest core without a mark is the next in order. */
  lemma LowestIsNext(stores: seq<nat>, first: nat, x: nat)
    requires stores != [] && Marks(stores, first) && x !in stores && forall j :: 0 <= j < x ==> j in stores
    ensures x == InOrder(first, |stores|)
  {
    hide Marks, InOrder;
    if x < InOrder(first, |stores|) { BelowNext(stores, first, x); }
    NextIsNew(stores, first);
  }

  lemma ChoiceIsNext(n: nat, s: State, c: nat, h: int, first: nat)
    requires Inv(n, s, h) && c < n && s.pcs[c].Choosing? && Lined(s, first)
    ensures LowestClear(s.mask) == InOrder(first, |s.stores|)
  {
    hide Bit, LowestClear, Pow2, InOrder;
    assert CoreOk(n, s, c);
    LowestClearIsClear(s.mask, n);
    var x := LowestClear(s.mask);
    assert CoreOk(n, s, x);
    forall j | 0 <= j < x ensures j in s.stores {
      LowestClearIsLowest(s.mask, j);
      assert CoreOk(n, s, j);
    }
    LowestIsNext(s.stores, first, x);
  }

  lemma StepLined(n: nat, s: State, c: nat, h: int, first: nat)
    requires Inv(n, s, h) && Enabled(n, s, c) && Lined(s, first)
    ensures Lined(Step(n, s, c), first)
  {
    var s' := Step(n, s, c);
    assert NextInLine(s, first, c);
    if s.pcs[c].Choosing? { ChoiceIsNext(n, s, c, h, first); }
    hide SetBit, LowestClear, InOrder;
    forall d | 0 <= d < n ensures NextInLine(s', first, d) { assert NextInLine(s, first, d); }
  }

  /** In every run the cores mark themselves in one order, which the first of them decides. */
  lemma {:induction false} MarksInOrder(n: nat, states: seq<State>, steps: seq<nat>, i: nat)
    requires Run(n, states, steps) && i < |states|
    ensures Lined(states[i], states[0].target)
    decreases i
  {
    hide Lined, Step, Enabled;
    if i == 0 {
      FirstInLine(n, states[0]);
    } else {
      MarksInOrder(n, states, steps, i - 1);
      var h := RunInv(n, states, steps, i - 1);
      StepLined(n, states[i - 1], steps[i - 1], h, states[0].target);
    }
  }

  lemma FirstInLine(n: nat, s: State)
    requires Initial(n, s)
    ensures Lined(s, s.target)
  {
  }

  // ----- every run comes to an end

  /** Steps a core has left, not counting its spinning. */
  function StepsLeft(pc: Pc): nat {
    match pc
    case Idle => 8
    case Entered => 7
    case Loaded(_) => 6
    case Stored => 5
    case Choosing => 4
    case Sending => 3
    case Sent => 2
    case Waiting => 1
    case Off => 0
    case Left => 0
  }

  function Measure(pcs: seq<Pc>): nat {
    if pcs == [] then 0 else StepsLeft(pcs[0]) + Measure(pcs[1..])
  }

  lemma {:induction false} MeasureUpdate(pcs: seq<Pc>, c: nat, pc: Pc)
    requires c < |pcs|
    ensures Measure(pcs[c := pc]) == Measure(pcs) - StepsLeft(pcs[c]) + StepsLeft(pc)
    decreases |pcs|
  {
    if c == 0 {
      assert pcs[c := pc][1..] == pcs[1..];
    } else {
      MeasureUpdate(pcs[1..], c - 1, pc);
      assert pcs[c := pc][1..] == pcs[1..][c - 1 := pc];
    }
  }

  /** A step either spins in the wait or brings the end nearer. */
  lemma StepProgress(n: nat, s: State, c: nat)
    requires |s.pcs| == n && Enabled(n, s, c)
    ensures Step(n, s, c) == s || Measure(Step(n, s, c).pcs) < Measure(s.pcs)
    ensures Step(n, s, c) == s ==> s.pcs[c].Waiting? && s.mask != AllOnes(n)
  {
    MeasureUpdate(s.pcs, c, Step(n, s, c).pcs[c]);
    assert Step(n, s, c).pcs == s.pcs[c := Step(n, s, c).pcs[c]];
  }

  /** All but the last core are off and the last one has left. */
  predicate Finished(n: nat, s: State)
    requires |s.pcs| == n
  {
    forall c :: 0 <= c < n ==> s.pcs[c] == if c == n - 1 then Left else Off
  }

  /** No run gets stuck: until the end some core can take a step that is not a spin. */
  lemma NeverStuck(n: nat, states: seq<State>, steps: seq<nat>, i: nat)
    requires Run(n, states, steps) && i < |states| && |states[i].pcs| == n && !Finished(n, states[i])
    ensures exists c :: Enabled(n, states[i], c) && Step(n, states[i], c) != states[i]
  {
    var s := states[i];
    var h := RunInv(n, states, steps, i);
    FullMask(s.mask, n);
    if h >= 0 {
      StepProgress(n, s, h);
    } else if s.pending {
      StepProgress(n, s, s.target);
    } else {
      var c :| 0 <= c < n && s.pcs[c] != if c == n - 1 then Left else Off;
      assert CoreOk(n, s, c);
      StepProgress(n, s, c);
    }
  }

  // ----- what the wait does not guarantee

  /** When the last core has left, the others have powered off. */
  ghost predicate QuietExit(n: nat, s: State)
    requires |s.pcs| == n && 1 <= n
  {
    s.pcs[n - 1].Left? ==> forall c :: 0 <= c < n - 1 ==> s.pcs[c].Off?
  }

  ghost predicate NoneOff(s: State) {
    forall c :: 0 <= c < |s.pcs| ==> !s.pcs[c].Off?
  }

  /** A step that is not a spin and powers no core off, as long as the last core has not left. */
  lemma StepKeepingPower(n: nat, states: seq<State>, steps: seq<nat>) returns (c: nat)
    requires Run(n, states, steps)
    requires var s := states[|steps|]; |s.pcs| == n && NoneOff(s) && !s.pcs[n - 1].Left?
    ensures var s := states[|steps|];
            Enabled(n, s, c) && NoneOff(Step(n, s, c)) && Measure(Step(n, s, c).pcs) < Measure(s.pcs)
  {
    var s := states[|steps|];
    var h := RunInv(n, states, steps, |steps|);
    FullMask(s.mask, n);
    assert CoreOk(n, s, n - 1);
    c := if h >= 0 then h else if s.pending then s.target else n - 1;
    StepProgress(n, s, c);
  }

  /** Such steps lead to the end. */
  lemma {:induction false} KeepPower(n: nat, states: seq<State>, steps: seq<nat>)
    returns (states': seq<State>, steps': seq<nat>)
    requires Run(n, states, steps) && |states[|steps|].pcs| == n && NoneOff(states[|steps|])
    ensures Run(n, states', steps')
    ensures var s := states'[|steps'|]; |s.pcs| == n && NoneOff(s) && s.pcs[n - 1].Left?
    decreases Measure(states[|steps|].pcs)
  {
    states', steps' := states, steps;
    if !states[|steps|].pcs[n - 1].Left? {
      var c := StepKeepingPower(n, states, steps);
      var s := Step(n, states[|steps|], c);
      assert Run(n, states + [s], steps + [c]);
      states', steps' := KeepPower(n, states + [s], steps + [c]);
    }
  }

  ghost predicate AlwaysQuiet(n: nat) {
    forall states: seq<State>, steps: seq<nat> ::
      Run(n, states, steps) && |states[|steps|].pcs| == n ==> QuietExit(n, states[|steps|])
  }

  /**
   The wait is for the marks, not for the power-offs: with more than one core there is a run
   in which the last core leaves while others are still on.
   */
  lemma QuietExactlyWhenAlone(n: nat)
    requires Cores(n)
    ensures AlwaysQuiet(n) <==> n == 1
  {
    if n > 1 {
      var s := State(0, true, 0, seq(n, _ => Idle), [], 0);
      assert Run(n, [s], []);
      var states, steps := KeepPower(n, [s], []);
      assert !QuietExit(n, states[|steps|]) by { assert !states[|steps|].pcs[0].Off?; }
    }
  }
}
