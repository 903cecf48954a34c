/** The multi-core boot protocol, as a state machine whose steps are single accesses to shared
    memory, taken by any core in any order.  It is what keeps two cores out of the unlocked frame
    allocator while the machine boots. */
module Smp {

  /** Where an application processor is.  `Idle` means its goto address has not been written. */
  datatype ApPc =
    | Idle
    | AtGate                    // spinning on the Bootstrap lock
    | GateTaken                 // compare-and-swap succeeded
    | GateLeaving(seen: int)    // the release has read the lock word
    | AtNeck                    // spinning on lock 1
    | NeckTaken                 // about to clear smp_status
    | SettingUp                 // page directory, context frame, tables
    | Allocating                // inside get_frame
    | SetUp                     // smp_status is 1 again
    | Counting(seen: int)       // has read booted_cpus_count
    | Counted                   // has written it
    | NeckLeaving(seen: int)    // the release of lock 1 has read the lock word
    | Running

  /** Where the bootstrap processor is. */
  datatype BspPc =
    | Booting                   // before launch_APs
    | BootAllocating            // inside get_frame, before launch_APs
    | WantsGate                 // spinning on the Bootstrap lock
    | Launching(next: nat)      // the loop over the processors
    | StackAllocating(next: nat)  // inside get_frame, for a processor's stack
    | Starting(next: nat)       // about to write a goto address
    | GateClosing               // the loop is over, the lock still held
    | GateOpening(seen: int)    // the release has read the lock word
    | Waiting                   // comparing the count with cpu_count
    | Booted

  /** `aps[me]` is the bootstrap processor's own entry and stays `Idle`. */
  datatype State = State(gate: int, neck: int, count: int, status: bool, me: nat, bsp: BspPc, aps: seq<ApPc>)

  const COUNT_LIMIT: int := 0x100

  predicate Init(s: State) {
    && s.gate == 0 && s.neck == 0 && s.count == 1 && !s.status && s.bsp == Booting
    && s.me < |s.aps| < COUNT_LIMIT
    && (forall i | 0 <= i < |s.aps| :: s.aps[i] == Idle)
  }

  // ---------------------------------------------------------------- steps

  predicate BspStep(s: State, n: State) {
    match s.bsp
    case Booting =>
      n == s.(bsp := BootAllocating) || n == s.(bsp := WantsGate, status := true)
    case BootAllocating => n == s.(bsp := Booting)
    case WantsGate => s.gate == 0 && n == s.(gate := 1, bsp := Launching(0))
    case Launching(i) =>
      if i >= |s.aps| then n == s.(bsp := GateClosing)
      else if i == s.me then n == s.(bsp := Launching(i + 1))
      else n == s.(bsp := StackAllocating(i))
    case StackAllocating(i) => n == s.(bsp := Starting(i))
    case Starting(i) =>
      i < |s.aps| && n == s.(bsp := Launching(i + 1), aps := s.aps[i := AtGate])
    case GateClosing => n == s.(bsp := GateOpening(s.gate))
    case GateOpening(v) => n == s.(gate := v - 1, bsp := Waiting)
    case Waiting => s.count == |s.aps| && n == s.(bsp := Booted)
    case Booted => false
  }

  /** A step of processor i from one position to the next, with what it does to shared memory. */
  predicate ApStep(s: State, n: State, i: nat)
    requires i < |s.aps|
  {
    match s.aps[i]
    case Idle => false
    case AtGate => s.gate == 0 && n == s.(gate := 1, aps := s.aps[i := GateTaken])
    case GateTaken => n == s.(aps := s.aps[i := GateLeaving(s.gate)])
    case GateLeaving(v) => n == s.(gate := v - 1, aps := s.aps[i := AtNeck])
    case AtNeck => s.neck == 0 && n == s.(neck := 1, aps := s.aps[i := NeckTaken])
    case NeckTaken => n == s.(status := false, aps := s.aps[i := SettingUp])
    case SettingUp =>
      n == s.(aps := s.aps[i := Allocating]) || n == s.(status := true, aps := s.aps[i := SetUp])
    case Allocating => n == s.(aps := s.aps[i := SettingUp])
    case SetUp => n == s.(aps := s.aps[i := Counting(s.count)])
    case Counting(c) => n == s.(count := (c + 1) % COUNT_LIMIT, aps := s.aps[i := Counted])
    case Counted => n == s.(aps := s.aps[i := NeckLeaving(s.neck)])
    case NeckLeaving(v) => n == s.(neck := v - 1, aps := s.aps[i := Running])
    case Running => false
  }

  predicate Next(s: State, n: State) {
    BspStep(s, n) || exists i: nat :: i < |s.aps| && ApStep(s, n, i)
  }

  // ---------------------------------------------------------------- the invariant

  predicate HoldsGate(p: ApPc) {
    p.GateTaken? || p.GateLeaving?
  }

  predicate BspHoldsGate(p: BspPc) {
    p.Launching? || p.StackAllocating? || p.Starting? || p.GateClosing? || p.GateOpening?
  }

  predicate HoldsNeck(p: ApPc) {
    p.NeckTaken? || p.SettingUp? || p.Allocating? || p.SetUp? || p.Counting? || p.Counted? || p.NeckLeaving?
  }

  /** The processor has passed the increment of the counter. */
  predicate Initialised(p: ApPc) {
    p.Counted? || p.NeckLeaving? || p.Running?
  }

  /** The bootstrap processor has released the gate. */
  predicate GateOpen(s: State) {
    s.bsp.Waiting? || s.bsp.Booted?
  }

  function CountInitialised(aps: seq<ApPc>): nat {
    if aps == [] then 0
    else CountInitialised(aps[1..]) + (if Initialised(aps[0]) then 1 else 0)
  }

  /** A processor is started once, in the order of the loop, and nothing passes the gate early. */
  predicate EarlyOk(s: State) {
    && (!GateOpen(s) ==> forall i | 0 <= i < |s.aps| :: s.aps[i].Idle? || s.aps[i].AtGate?)
    && (s.bsp.Booting? || s.bsp.BootAllocating? || s.bsp.WantsGate? ==> forall i | 0 <= i < |s.aps| :: s.aps[i].Idle?)
    && (s.bsp.Launching? || s.bsp.StackAllocating? || s.bsp.Starting? ==>
        forall i | s.bsp.next <= i < |s.aps| :: s.aps[i].Idle?)
    && (s.bsp.StackAllocating? || s.bsp.Starting? ==> s.bsp.next < |s.aps| && s.bsp.next != s.me)
  }

  /** The loop leaves no processor out. */
  predicate StartedOk(s: State) {
    forall i | 0 <= i < |s.aps| && i != s.me && Started(s.bsp, i) :: !s.aps[i].Idle?
  }

  predicate Started(p: BspPc, i: nat) {
    match p
    case Booting | BootAllocating | WantsGate => false
    case Launching(next) => i < next
    case StackAllocating(next) => i < next
    case Starting(next) => i < next
    case GateClosing | GateOpening(_) | Waiting | Booted => true
  }

  predicate GateOk(s: State) {
    && 0 <= s.gate <= 1
    && (BspHoldsGate(s.bsp) ==> s.gate == 1)
    && (forall i | 0 <= i < |s.aps| && HoldsGate(s.aps[i]) :: s.gate == 1 && !BspHoldsGate(s.bsp))
    && (forall i, j | 0 <= i < j < |s.aps| && HoldsGate(s.aps[i]) :: !HoldsGate(s.aps[j]))
    && (s.bsp.GateOpening? ==> s.bsp.seen == 1)
    && (forall i | 0 <= i < |s.aps| && s.aps[i].GateLeaving? :: s.aps[i].seen == 1)
    && (s.gate == 1 ==> BspHoldsGate(s.bsp) || exists i :: 0 <= i < |s.aps| && HoldsGate(s.aps[i]))
  }

  predicate NeckOk(s: State) {
    && 0 <= s.neck <= 1
    && (forall i | 0 <= i < |s.aps| && HoldsNeck(s.aps[i]) :: s.neck == 1)
    && (forall i, j | 0 <= i < j < |s.aps| && HoldsNeck(s.aps[i]) :: !HoldsNeck(s.aps[j]))
    && (forall i | 0 <= i < |s.aps| && s.aps[i].NeckLeaving? :: s.aps[i].seen == 1)
    && (s.neck == 1 ==> exists i :: 0 <= i < |s.aps| && HoldsNeck(s.aps[i]))
  }

  predicate CountOk(s: State) {
    && s.count == 1 + CountInitialised(s.aps)
    && (forall i | 0 <= i < |s.aps| && s.aps[i].Counting? :: s.aps[i].seen == s.count)
    && (s.bsp.Booted? ==> s.count == |s.aps|)
  }

  predicate StatusOk(s: State) {
    !s.bsp.Booting? && !s.bsp.BootAllocating? ==>
      (!s.status <==> exists i :: 0 <= i < |s.aps| && (s.aps[i].SettingUp? || s.aps[i].Allocating?))
  }

  predicate Inv(s: State) {
    && s.me < |s.aps| < COUNT_LIMIT && s.aps[s.me] == Idle
    && EarlyOk(s) && StartedOk(s) && GateOk(s) && NeckOk(s) && CountOk(s) && StatusOk(s)
  }

  lemma {:induction false} CountUpdate(aps: seq<ApPc>, i: nat, p: ApPc)
    requires i < |aps|
    ensures CountInitialised(aps[i := p]) == CountInitialised(aps)
         + (if Initialised(p) then 1 else 0) - (if Initialised(aps[i]) then 1 else 0)
  {
    if i == 0 {
      assert aps[i := p][1..] == aps[1..];
    } else {
      assert aps[i := p][1..] == aps[1..][i - 1 := p];
      CountUpdate(aps[1..], i - 1, p);
    }
  }

  lemma {:induction false} CountIdle(aps: seq<ApPc>)
    requires forall i | 0 <= i < |aps| :: !Initialised(aps[i])
    ensures CountInitialised(aps) == 0
  {
    if aps != [] {
      CountIdle(aps[1..]);
    }
  }

  /** All but one are initialised only if every other one is. */
  lemma {:induction false} CountAll(aps: seq<ApPc>, me: nat)
    requires me < |aps| && !Initialised(aps[me])
    ensures CountInitialised(aps) <= |aps| - 1
    ensures CountInitialised(aps) == |aps| - 1 ==> forall i | 0 <= i < |aps| && i != me :: Initialised(aps[i])
  {
    if me == 0 {
      CountFull(aps[1..]);
      forall i | 0 < i < |aps| && CountInitialised(aps) == |aps| - 1 ensures Initialised(aps[i]) {
        assert aps[i] == aps[1..][i - 1];
      }
    } else {
      CountAll(aps[1..], me - 1);
      forall i | 0 <= i < |aps| && i != me && CountInitialised(aps) == |aps| - 1 ensures Initialised(aps[i]) {
        assert i > 0 ==> aps[i] == aps[1..][i - 1];
      }
    }
  }

  lemma {:induction false} CountFull(aps: seq<ApPc>)
    ensures CountInitialised(aps) <= |aps|
    ensures CountInitialised(aps) == |aps| ==> forall i | 0 <= i < |aps| :: Initialised(aps[i])
  {
    if aps != [] {
      CountFull(aps[1..]);
      forall i | 0 <= i < |aps| && CountInitialised(aps) == |aps| ensures Initialised(aps[i]) {
        assert i > 0 ==> aps[i] == aps[1..][i - 1];
      }
    }
  }

  lemma InitInv(s: State)
    requires Init(s)
    ensures Inv(s)
  {
    CountIdle(s.aps);
  }

  // A step of the bootstrap processor, part by part of the invariant.

  /** The bootstrap processor's steps touch at most one other processor, which they set running
      towards the gate. */
  lemma BspMovesOne(s: State, n: State)
    requires Inv(s) && BspStep(s, n)
    ensures |n.aps| == |s.aps| && n.me == s.me && n.neck == s.neck && n.count == s.count
    ensures n.aps[n.me] == Idle
    ensures forall j | 0 <= j < |s.aps| ::
      n.aps[j] == s.aps[j] || (s.bsp.Starting? && s.aps[j].Idle? && n.aps[j].AtGate?)
    ensures CountInitialised(n.aps) == CountInitialised(s.aps)
    ensures EarlyOk(n)
  {
    hide StartedOk, NeckOk, GateOk, CountOk, StatusOk;
    if s.bsp.Starting? {
      CountUpdate(s.aps, s.bsp.next, AtGate);
    }
  }

  lemma BspKeepsGate(s: State, n: State)
    requires Inv(s) && BspStep(s, n)
    ensures GateOk(n)
  {
    hide StartedOk, NeckOk, CountOk, StatusOk;
    BspMovesOne(s, n);
    if s.bsp.WantsGate? || s.bsp.Waiting? {
      assert n.aps == s.aps;
    }
  }

  lemma BspKeepsNeck(s: State, n: State)
    requires Inv(s) && BspStep(s, n)
    ensures NeckOk(n)
  {
    hide StartedOk, GateOk, CountOk, StatusOk;
    BspMovesOne(s, n);
    if s.neck == 1 {
      var i :| 0 <= i < |s.aps| && HoldsNeck(s.aps[i]);
      assert HoldsNeck(n.aps[i]);
    }
  }

  lemma BspKeepsStatus(s: State, n: State)
    requires Inv(s) && BspStep(s, n)
    ensures StatusOk(n)
  {
    hide StartedOk, GateOk, CountOk, NeckOk;
    BspMovesOne(s, n);
    if s.bsp.Starting? {
      assert forall j | 0 <= j < |s.aps| :: !s.aps[j].SettingUp? && !s.aps[j].Allocating?;
    } else {
      assert n.aps == s.aps;
    }
  }

  lemma BspKeepsStarted(s: State, n: State)
    requires Inv(s) && BspStep(s, n)
    ensures StartedOk(n)
  {
    hide EarlyOk, GateOk, NeckOk, CountOk, StatusOk;
  }

  lemma BspKeepsInv(s: State, n: State)
    requires Inv(s) && BspStep(s, n)
    ensures Inv(n)
  {
    hide StartedOk, GateOk, NeckOk, StatusOk, CountInitialised;
    BspMovesOne(s, n);
    BspKeepsGate(s, n);
    BspKeepsNeck(s, n);
    BspKeepsStatus(s, n);
    BspKeepsStarted(s, n);
  }

  // A step of another processor, part by part of the invariant.

  /** What a step of processor i leaves alone, and that the gate is open if it is past it. */
  lemma ApMovesOne(s: State, n: State, i: nat)
    requires Inv(s) && i < |s.aps| && ApStep(s, n, i)
    ensures n.aps == s.aps[i := n.aps[i]] && n.me == s.me && i != s.me && n.bsp == s.bsp
    ensures GateOpen(s)
  {
    hide StartedOk, NeckOk, CountOk, StatusOk;
  }

  lemma ApKeepsGate(s: State, n: State, i: nat)
    requires Inv(s) && i < |s.aps| && ApStep(s, n, i)
    ensures GateOk(n)
  {
    hide StartedOk, NeckOk, CountOk, StatusOk;
    ApMovesOne(s, n, i);
    hide EarlyOk, GateOpen;
    assert forall j | 0 <= j < |s.aps| && j != i :: n.aps[j] == s.aps[j];
    if n.gate == 1 {
      if s.aps[i].AtGate? || s.aps[i].GateTaken? {
        assert HoldsGate(n.aps[i]);
      } else {
        var j :| 0 <= j < |s.aps| && HoldsGate(s.aps[j]);
        assert n.aps[j] == s.aps[j];
      }
    }
  }

  lemma ApKeepsNeck(s: State, n: State, i: nat)
    requires Inv(s) && i < |s.aps| && ApStep(s, n, i)
    ensures NeckOk(n)
  {
    hide StartedOk, GateOk, CountOk, StatusOk;
    ApMovesOne(s, n, i);
    if n.neck == 1 && !HoldsNeck(n.aps[i]) {
      var j :| 0 <= j < |s.aps| && HoldsNeck(s.aps[j]);
      assert n.aps[j] == s.aps[j];
    }
  }

  lemma ApKeepsCount(s: State, n: State, i: nat)
    requires Inv(s) && i < |s.aps| && ApStep(s, n, i)
    ensures CountOk(n)
  {
    hide StartedOk, GateOk, StatusOk, CountInitialised;
    ApMovesOne(s, n, i);
    hide EarlyOk;
    CountUpdate(s.aps, i, n.aps[i]);
    CountAll(s.aps, s.me);
    CountAll(n.aps, n.me);
    assert forall j | 0 <= j < |s.aps| && j != i :: n.aps[j] == s.aps[j];
  }

  lemma ApKeepsStatus(s: State, n: State, i: nat)
    requires Inv(s) && i < |s.aps| && ApStep(s, n, i)
    ensures StatusOk(n)
  {
    hide StartedOk, GateOk, CountOk;
    ApMovesOne(s, n, i);
    assert forall j | 0 <= j < |s.aps| && j != i :: n.aps[j] == s.aps[j];
    if s.aps[i].NeckTaken? || (s.aps[i].SettingUp? && n.aps[i].Allocating?) || s.aps[i].Allocating? {
      assert n.aps[i].SettingUp? || n.aps[i].Allocating?;
    } else if s.aps[i].SettingUp? {
      assert forall j | 0 <= j < |s.aps| && j != i :: !HoldsNeck(s.aps[j]);
    }
  }

  lemma ApKeepsStarted(s: State, n: State, i: nat)
    requires Inv(s) && i < |s.aps| && ApStep(s, n, i)
    ensures StartedOk(n)
  {
    hide GateOk, NeckOk, CountOk, StatusOk, Started;
    ApMovesOne(s, n, i);
    hide EarlyOk, GateOpen;
  }

  lemma ApKeepsInv(s: State, n: State, i: nat)
    requires Inv(s) && i < |s.aps| && ApStep(s, n, i)
    ensures Inv(n)
  {
    ApMovesOne(s, n, i);
    ApKeepsGate(s, n, i);
    ApKeepsNeck(s, n, i);
    ApKeepsCount(s, n, i);
    ApKeepsStatus(s, n, i);
    ApKeepsStarted(s, n, i);
    hide StartedOk, GateOk, NeckOk, StatusOk, CountOk, ApStep;
  }

  lemma NextKeepsInv(s: State, n: State)
    requires Inv(s) && Next(s, n)
    ensures Inv(n)
  {
    if BspStep(s, n) {
      BspKeepsInv(s, n);
    } else {
      var i: nat :| i < |s.aps| && ApStep(s, n, i);
      ApKeepsInv(s, n, i);
    }
  }

  // ---------------------------------------------------------------- safety of every run

  predicate Run(states: seq<State>) {
    && states != [] && Init(states[0])
    && (forall k | 0 <= k < |states| - 1 :: Next(states[k], states[k + 1]))
  }

  lemma {:induction false} RunInv(states: seq<State>, k: nat)
    requires Run(states) && k < |states|
    ensures Inv(states[k])
  {
    if k == 0 {
      InitInv(states[0]);
    } else {
      RunInv(states, k - 1);
      assert Next(states[k - 1], states[k]);
      NextKeepsInv(states[k - 1], states[k]);
    }
  }

  predicate InGetFrame(p: ApPc) {
    p.Allocating?
  }

  predicate BspInGetFrame(p: BspPc) {
    p.BootAllocating? || p.StackAllocating?
  }

  predicate PastGate(p: ApPc) {
    !p.Idle? && !p.AtGate?
  }

  /** In every run of any number of processors under any interleaving: no processor passes the
      gate before the bootstrap processor opens it; at most one is inside bottleneck 1; the
      counter is one more than the processors past the increment; no two processors are in the
      frame allocator together; once the gate is open every other one has been started; and when
      the bootstrap processor stops waiting, every other one is initialised and the status flag is
      set. */
  lemma BootIsSafe(states: seq<State>, k: nat)
    requires Run(states) && k < |states|
    ensures var s := states[k];
      && (!GateOpen(s) ==> forall i | 0 <= i < |s.aps| :: !PastGate(s.aps[i]))
      && (forall i, j | 0 <= i < j < |s.aps| && HoldsNeck(s.aps[i]) :: !HoldsNeck(s.aps[j]))
      && s.count == 1 + CountInitialised(s.aps)
    ensures var s := states[k];
      && (forall i | 0 <= i < |s.aps| && InGetFrame(s.aps[i]) :: !BspInGetFrame(s.bsp))
      && (forall i, j | 0 <= i < j < |s.aps| && InGetFrame(s.aps[i]) :: !InGetFrame(s.aps[j]))
    ensures var s := states[k];
      GateOpen(s) ==> forall i | 0 <= i < |s.aps| && i != s.me :: !s.aps[i].Idle?
    ensures var s := states[k];
      s.bsp.Booted? ==> s.status && forall i | 0 <= i < |s.aps| && i != s.me :: Initialised(s.aps[i])
  {
    RunInv(states, k);
    CountAll(states[k].aps, states[k].me);
  }
}
