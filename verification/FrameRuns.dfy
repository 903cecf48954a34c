/** Whole runs of the allocator, through both of its representations. */
module FrameRuns {
  import opened Memory
  import opened Regions
  import opened FrameState

  /** What can happen between two observations: a frame is handed out, a frame is released, the
      bitmap takes over, or some holder writes to memory it may write to. */
  datatype Event = Get(frame: nat) | Free(frame: nat) | Switch | Use

  /** Holders write to the frames they got, never to the bitmap; memory outside the usable
      regions is nobody's business here. */
  ghost predicate Written(a: Alloc, b: Alloc) {
    && AllocOk(a) && b == a.(ram := b.ram) && |a.ram| == |b.ram|
    && (forall g: nat | BitmapFrame(a, g) && g < |a.ram| :: b.ram[g] == a.ram[g])
  }

  ghost predicate Step(a: Alloc, e: Event, b: Alloc) {
    match e
    case Get(f) => GotFrame(a, b, f)
    case Free(f) => Released(a, b, f)
    case Switch => Switched(a, b)
    case Use => Written(a, b)
  }

  ghost predicate Run(states: seq<Alloc>, events: seq<Event>) {
    && |states| == |events| + 1 && AllocOk(states[0])
    && (forall i | 0 <= i < |events| :: Step(states[i], events[i], states[i + 1]))
  }

  lemma WritesKeepTaken(a: Alloc, b: Alloc)
    requires Written(a, b)
    ensures AllocOk(b) && TakenSet(b) == TakenSet(a)
  {
    if a.bitmapSet {
      SameBitmap(a, b);
    }
    forall f: nat ensures Taken(b, f) == Taken(a, f) {
    }
    hide Taken;
    assert AllocOk(b);
  }

  lemma RunOk(states: seq<Alloc>, events: seq<Event>, i: nat)
    requires Run(states, events) && i <= |events|
    ensures AllocOk(states[i])
  {
    if i > 0 {
      assert Step(states[i - 1], events[i - 1], states[i]);
      if events[i - 1].Use? {
        WritesKeepTaken(states[i - 1], states[i]);
      }
    }
  }

  lemma StepKeepsTaken(a: Alloc, e: Event, b: Alloc, f: nat)
    requires Step(a, e, b) && AllocOk(a) && f in TakenSet(a) && e != Free(f)
    ensures AllocOk(b) && f in TakenSet(b)
  {
    hide AllocOk, TakenSet;
    if e.Use? {
      WritesKeepTaken(a, b);
    }
  }

  lemma KeptAt(states: seq<Alloc>, events: seq<Event>, i: nat, f: nat)
    requires Run(states, events) && i < |events| && AllocOk(states[i])
    requires f in TakenSet(states[i]) && events[i] != Free(f)
    ensures AllocOk(states[i + 1]) && f in TakenSet(states[i + 1])
  {
    hide AllocOk, TakenSet;
    assert Step(states[i], events[i], states[i + 1]);
    StepKeepsTaken(states[i], events[i], states[i + 1], f);
  }

  /** A taken frame stays taken until it is freed. */
  lemma {:induction false} StaysTaken(states: seq<Alloc>, events: seq<Event>, i: nat, j: nat, f: nat)
    requires Run(states, events) && i <= j <= |events|
    requires AllocOk(states[i]) && f in TakenSet(states[i])
    requires forall k | i <= k < j :: events[k] != Free(f)
    ensures AllocOk(states[j]) && f in TakenSet(states[j])
    decreases j
  {
    if i < j {
      StaysTaken(states, events, i, j - 1, f);
      KeptAt(states, events, j - 1, f);
    }
  }

  /** No frame is handed out twice without having been freed in between, whether the two
      requests fall in the bump phase, in the bitmap phase, or one in each. */
  lemma NoDoubleHandOut(states: seq<Alloc>, events: seq<Event>, i: nat, j: nat, f: nat)
    requires Run(states, events) && i < j < |events|
    requires events[i] == events[j] == Get(f)
    ensures exists k :: i < k < j && events[k] == Free(f)
  {
    assert Step(states[i], events[i], states[i + 1]);
    assert Step(states[j], events[j], states[j + 1]);
    if forall k | i < k < j :: events[k] != Free(f) {
      StaysTaken(states, events, i + 1, j, f);
      assert false;
    }
  }

  /** At hand-out every frame is managed, all zero, and not part of the bitmap. */
  lemma HandOutIsClean(states: seq<Alloc>, events: seq<Event>, i: nat, f: nat)
    requires Run(states, events) && i < |events| && events[i] == Get(f)
    ensures Managed(states[i].regions, f) && f < |states[i + 1].ram|
    ensures Zeroed(states[i + 1].ram[f]) && !BitmapFrame(states[i], f)
  {
    assert Step(states[i], events[i], states[i + 1]);
    ManagedBelow(states[i].regions, |states[i].ram|, f);
  }
}
