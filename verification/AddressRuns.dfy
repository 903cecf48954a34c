/** Whole runs of the page-table manager over any number of directories. */
module AddressRuns {
  import opened Paging
  import opened AddressSpace
  import opened NewEntry
  import opened Mapping
  import opened Unmapping
  import opened Directory

  /** A completed call, with the directory it worked in.  `Data` is any use of frames that are no
      tables: handing one out for another purpose, or writing to a mapped page. */
  datatype Call =
    | Map(root: nat, lo: nat, hi: nat)
    | MapPhysical(root: nat, lo: nat, hi: nat, frame: nat)
    | Unmap(root: nat, lo: nat, hi: nat)
    | Create(root: nat)
    | Data

  ghost predicate Step(s: Vm, c: Call, n: Vm)
    requires s.env.bootRoot < |s.ram|
  {
    match c
    case Map(root, lo, hi) => IsRoot(s, root) && MappedUpTo(s, n, root, lo, hi)
    case MapPhysical(root, lo, hi, frame) => IsRoot(s, root) && WindowUpTo(s, n, root, lo, hi, frame)
    case Unmap(root, lo, hi) => IsRoot(s, root) && UnmappedUpTo(s, n, root, lo, hi)
    case Create(root) => Created(s, n, root)
    case Data => SameTables(s, n)
  }

  ghost predicate Run(states: seq<Vm>, calls: seq<Call>) {
    && |states| == |calls| + 1 && VmOk(states[0])
    && (forall i | 0 <= i < |calls| :: BootRootInRam(states[i]) && Step(states[i], calls[i], states[i + 1]))
  }

  predicate BootRootInRam(s: Vm) {
    s.env.bootRoot < |s.ram|
  }

  predicate WorksIn(c: Call, root: nat) {
    !c.Data? && c.root == root
  }

  /** Every step keeps the invariant. */
  lemma StepOk(s: Vm, c: Call, n: Vm)
    requires VmOk(s) && Step(s, c, n)
    ensures VmOk(n)
  {
    match c
    case Map(root, lo, hi) =>
    case MapPhysical(root, lo, hi, frame) =>
    case Unmap(root, lo, hi) =>
    case Create(root) => CreatedOk(s, n, root);
    case Data => SameTablesOk(s, n);
  }

  /** The invariant of the address spaces holds in every state of every run. */
  lemma {:induction false} RunOk(states: seq<Vm>, calls: seq<Call>, i: nat)
    requires Run(states, calls) && i < |states|
    ensures VmOk(states[i])
  {
    hide VmOk, Step;
    if i > 0 {
      RunOk(states, calls, i - 1);
      StepOk(states[i - 1], calls[i - 1], states[i]);
    }
  }

  lemma WindowIsolated(s: Vm, n: Vm, root: nat, lo: nat, hi: nat, frame: nat, other: nat, v: Page)
    requires VmOk(s) && WindowUpTo(s, n, root, lo, hi, frame)
    requires IsRoot(s, other) && other != root && IsPage(v)
    ensures IsRoot(n, other) && Translate(n.ram, other, v) == Translate(s.ram, other, v)
  {
    forall g: nat | IsTable(s, g) && s.tree[g].root == other ensures g < |n.ram| && n.ram[g] == s.ram[g] {
      assert NodeOk(s, g);
    }
    UntouchedDirectory(s, n.ram, other, v);
  }

  /** No call changes which slots a directory shares with the bootloader's, or drops a directory. */
  lemma StepKeepsRoots(s: Vm, c: Call, n: Vm, r: nat)
    requires VmOk(s) && Step(s, c, n) && IsRoot(s, r)
    ensures IsRoot(n, r) && s.env.bootRoot < |s.ram| && n.env.bootRoot < |n.ram|
    ensures forall k: nat :: Private(n, k) == Private(s, k)
  {
    hide EntriesOk, AllAnchored;
    match c
    case Map(root, lo, hi) => MappedSameSlots(s, n, root, lo, hi);
    case MapPhysical(root, lo, hi, frame) => assert !OwnTable(s, root, s.env.bootRoot);
    case Unmap(root, lo, hi) => UnmappedSameSlots(s, n, root, lo, hi);
    case Create(root) =>
    case Data =>
  }

  /** A call unmaps no page but those of its own range in its own directory. */
  lemma StepKeepsMapped(s: Vm, c: Call, n: Vm, r: nat, v: Page)
    requires VmOk(s) && Step(s, c, n) && IsRoot(s, r) && IsPage(v) && v.l4 != RECURSIVE_SLOT
    requires Translate(s.ram, r, v).Mapped? && !(c.Unmap? && c.root == r && c.lo <= PageNumber(v) < c.hi)
    ensures Translate(n.ram, r, v).Mapped?
  {
    if WorksIn(c, r) {
      RootIsTaken(s, r);
      match c
      case Map(root, lo, hi) => assert PageMapped(s, n, root, lo, hi, v);
      case MapPhysical(root, lo, hi, frame) => assert PageWindowed(s, n, root, lo, hi, frame, v);
      case Unmap(root, lo, hi) => assert PageUnmapped(s, n, root, lo, hi, v);
    } else {
      StepIsolated(s, c, n, r, v);
    }
  }

  lemma RootIsTaken(s: Vm, r: nat)
    requires VmOk(s) && IsRoot(s, r)
    ensures r in s.taken
  {
    assert NodeOk(s, r);
  }

  lemma StepIsolated(s: Vm, c: Call, n: Vm, r: nat, v: Page)
    requires VmOk(s) && Step(s, c, n) && IsRoot(s, r) && !WorksIn(c, r) && IsPage(v)
    ensures IsRoot(n, r) && Translate(n.ram, r, v) == Translate(s.ram, r, v)
  {
    hide VmOk;
    match c
    case Map(root, lo, hi) => MappingIsolated(s, n, root, lo, hi, r, v);
    case MapPhysical(root, lo, hi, frame) => WindowIsolated(s, n, root, lo, hi, frame, r, v);
    case Unmap(root, lo, hi) => UnmappingIsolated(s, n, root, lo, hi, r, v);
    case Create(root) => CreationIsolated(s, n, root, r, v);
    case Data => DataIsolated(s, n, r, v);
  }

  lemma DataIsolated(s: Vm, n: Vm, r: nat, v: Page)
    requires VmOk(s) && SameTables(s, n) && IsRoot(s, r) && IsPage(v)
    ensures IsRoot(n, r) && Translate(n.ram, r, v) == Translate(s.ram, r, v)
  {
    forall g: nat | IsTable(s, g) && s.tree[g].root == r ensures g < |n.ram| && n.ram[g] == s.ram[g] {
      assert NodeOk(s, g);
    }
    UntouchedDirectory(s, n.ram, r, v);
  }

  lemma StepAt(states: seq<Vm>, calls: seq<Call>, k: nat)
    requires Run(states, calls) && k < |calls|
    ensures k + 1 < |states| && VmOk(states[k]) && Step(states[k], calls[k], states[k + 1])
  {
    hide VmOk, Step;
    RunOk(states, calls, k);
  }

  /** Address-space isolation: whatever calls run in other directories, and whatever directories
      come into being, every translation of directory r stays what it was, those through its
      recursive window included. */
  lemma Isolation(states: seq<Vm>, calls: seq<Call>, i: nat, j: nat, r: nat, v: Page)
    requires Run(states, calls) && i <= j <= |calls|
    requires IsRoot(states[i], r) && IsPage(v)
    requires forall k | i <= k < j :: !WorksIn(calls[k], r)
    ensures IsRoot(states[j], r) && Translate(states[j].ram, r, v) == Translate(states[i].ram, r, v)
  {
    hide VmOk, Step, WorksIn, Translate;
    var k := i;
    while k < j
      invariant i <= k <= j && IsRoot(states[k], r)
      invariant Translate(states[k].ram, r, v) == Translate(states[i].ram, r, v)
    {
      StepAt(states, calls, k);
      StepIsolated(states[k], calls[k], states[k + 1], r, v);
      k := k + 1;
    }
  }

  /** At every point of every run: the root refers to itself through slot 50, no walk of one
      directory reads a table that belongs to another, and no page outside slot 50 and the slots
      shared with the bootloader's directory shows a table of whatever directory, or a data frame
      of another page. */
  lemma DirectoriesStaySeparate(states: seq<Vm>, calls: seq<Call>, i: nat, r: nat, v: Page, level: nat)
    requires Run(states, calls) && i < |states| && IsRoot(states[i], r) && IsPage(v) && 1 <= level <= 4
    ensures SelfReferencing(states[i].ram, r)
    ensures var t := TableAt(states[i].ram, r, v, level);
      t >= 0 && IsTable(states[i], t) ==> states[i].tree[t].root == r
    ensures BootRootInRam(states[i])
    ensures Private(states[i], v.l4) && Translate(states[i].ram, r, v).Mapped? ==>
      var f := Translate(states[i].ram, r, v).frame;
      f in states[i].tree ==> states[i].tree[f] == Node(r, 0, v)
  {
    RunOk(states, calls, i);
    var s := states[i];
    assert NodeOk(s, r) && EntryOk(s, r, RECURSIVE_SLOT);
    NoForeignTable(s, r, v, level);
    TreeIsManaged(s);
    if Private(s, v.l4) && Translate(s.ram, r, v).Mapped? {
      LeafIsOwned(s, r, v);
    }
  }
}
