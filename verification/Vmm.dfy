/** The page-table manager: it reads and writes entries through the recursive window of the
    directory in use, and takes frames from the allocator. */
module Vmm {
  import opened Bits
  import opened Memory
  import opened Regions
  import opened FrameState
  import opened FrameRuns
  import opened Pmm
  import opened Paging
  import opened AddressSpace
  import opened NewEntry
  import opened LeafEntry
  import opened Mapping
  import opened Unmapping
  import opened Directory
  import Search

  ghost function ManagedSet(a: Alloc): set<nat> {
    set f: nat | f < |a.ram| && Managed(a.regions, f)
  }

  ghost function BitmapSet(a: Alloc): set<nat> {
    set f: nat | f < |a.ram| && BitmapFrame(a, f)
  }

  /** The address spaces over an allocator state. */
  ghost function Over(a: Alloc, tree: map<nat, Node>, bootRoot: nat, boot: map<nat, nat>): Vm
    requires AllocOk(a)
  {
    Vm(a.ram, TakenSet(a), tree, Env(ManagedSet(a), BitmapSet(a), bootRoot, boot))
  }

  /** A hand-out, seen from the address spaces. */
  lemma AllocationSeen(a: Alloc, b: Alloc, s: Vm, f: nat)
    requires GotFrame(a, b, f) && a.bitmapSet
    requires s == Over(a, s.tree, s.env.bootRoot, s.env.boot) && VmOk(s)
    ensures var n := Over(b, s.tree, s.env.bootRoot, s.env.boot);
      n.env == s.env && n.taken == s.taken + {f} && f in s.env.managed && f !in s.env.bitmap && |b.ram| == |a.ram|
    ensures f < |a.ram| && f !in s.taken && Zeroed(b.ram[f])
    ensures forall g: nat | g < |s.ram| && g != f && g !in s.env.bitmap :: b.ram[g] == s.ram[g]
  {
    hide VmOk;
    ManagedBelow(a.regions, |a.ram|, f);
    assert f !in s.taken && f !in s.env.bitmap;
    hide AllocOk, Taken, Managed, BitmapFrame;
    forall g: nat | g < |s.ram| && g != f && g !in s.env.bitmap ensures b.ram[g] == s.ram[g] {
      NotInBitmap(a, g);
    }
  }

  lemma TreeOutside(s: Vm, f: nat)
    requires VmOk(s) && f !in s.taken
    ensures f !in s.tree && s.env.bitmap <= s.taken <= s.env.managed
    ensures s.env.bootRoot < |s.ram| && s.env.bootRoot !in s.env.managed
    ensures forall t | t in s.tree :: t < |s.ram| && t !in s.env.bitmap && t != f
    ensures forall t | t in s.env.boot :: t < |s.ram| && t !in s.env.managed
  {
    forall t | t in s.tree ensures t < |s.ram| && t in s.taken && t !in s.env.bitmap {
      assert NodeOk(s, t);
    }
  }

  /** An allocation spares every table. */
  lemma AllocationSpares(a: Alloc, b: Alloc, s: Vm, f: nat)
    requires GotFrame(a, b, f) && a.bitmapSet
    requires s == Over(a, s.tree, s.env.bootRoot, s.env.boot) && VmOk(s)
    ensures var n := Over(b, s.tree, s.env.bootRoot, s.env.boot);
      && SameTables(s, n) && VmOk(n) && n.taken == s.taken + {f} && f in s.env.managed
      && f !in s.tree && f < |a.ram| && f !in s.env.bitmap && n.env == s.env
      && (forall k: nat :: Private(n, k) == Private(s, k))
    ensures |b.ram| == |a.ram| && Zeroed(b.ram[f]) && f !in s.taken
    ensures forall g: nat | g < |s.ram| && g != f && g !in s.env.bitmap :: b.ram[g] == s.ram[g]
    ensures forall r: nat, v | IsRoot(s, r) && IsPage(v) :: Translate(b.ram, r, v) == Translate(a.ram, r, v)
    ensures forall r: nat, v, level | IsRoot(s, r) && IsPage(v) && Private(s, v.l4) && 1 <= level <= 4 ::
              TableAt(b.ram, r, v, level) == TableAt(a.ram, r, v, level)
  {
    hide VmOk, AllocOk, TakenSet, ManagedSet, BitmapSet, Translate, TableAt, Zeroed;
    var n := Over(b, s.tree, s.env.bootRoot, s.env.boot);
    hide GotFrame;
    AllocationSeen(a, b, s, f);
    TreeOutside(s, f);
    assert SameTables(s, n);
    SameTablesOk(s, n);
    forall r: nat, v | IsRoot(s, r) && IsPage(v) ensures Translate(b.ram, r, v) == Translate(a.ram, r, v) {
      UntouchedDirectory(s, b.ram, r, v);
    }
    forall r: nat, v, level | IsRoot(s, r) && IsPage(v) && Private(s, v.l4) && 1 <= level <= 4
      ensures TableAt(b.ram, r, v, level) == TableAt(a.ram, r, v, level)
    {
      SameTableAt(s, n, r, v, level);
    }
  }

  lemma NotInBitmap(a: Alloc, t: nat)
    requires t < |a.ram|
    ensures t in BitmapSet(a) <==> BitmapFrame(a, t)
    ensures AllocOk(a) && t !in ManagedSet(a) ==> !BitmapFrame(a, t)
  {
    if AllocOk(a) && BitmapFrame(a, t) {
      assert Taken(a, t);
    }
  }

  lemma TableWriteKeepsBitmap(b: Alloc, c: Alloc, t: nat)
    requires AllocOk(b) && t < |b.ram| && !BitmapFrame(b, t) && c == b.(ram := c.ram) && |c.ram| == |b.ram|
    requires forall g: nat | g < |b.ram| && g != t :: c.ram[g] == b.ram[g]
    ensures Written(b, c) && AllocOk(c) && TakenSet(c) == TakenSet(b)
    ensures ManagedSet(c) == ManagedSet(b) && BitmapSet(c) == BitmapSet(b)
  {
    WritesKeepTaken(b, c);
    hide AllocOk, Taken, Managed;
  }

  /** Entry k of table t is in use: as it was, or linked to a fresh frame with these low bits. */
  ghost predicate Filled(s: Vm, n: Vm, t: int, k: nat, low: nat) {
    && VmOk(s) && 0 <= t < |s.ram| == |n.ram| && IsTable(s, t) && k < ENTRIES
    && Ensured(s, n, t, k) && (s.ram[t][k] == 0 ==> n.ram[t][k] % PAGE_SIZE == low)
  }

  /** An allocation followed by linking the frame, seen from the address spaces. */
  lemma AllocatedAndLinked(b: Alloc, c: Alloc, s: Vm, m: Vm, t: nat, k: nat, f: nat, e: Word)
    requires VmOk(s) && SameTables(s, m) && AllocOk(b) && AllocOk(c)
    requires m == Over(b, s.tree, s.env.bootRoot, s.env.boot)
    requires m.taken == s.taken + {f} && f !in s.taken && f in s.env.managed && f < |s.ram| && Zeroed(b.ram[f])
    requires forall g: nat | g < |s.ram| && g != f && g !in s.env.bitmap :: m.ram[g] == s.ram[g]
    requires TakenSet(c) == TakenSet(b) && ManagedSet(c) == ManagedSet(b) && BitmapSet(c) == BitmapSet(b)
    requires IsTable(s, t) && k < ENTRIES && t < |s.ram| && s.ram[t][k] == 0 && s.tree[t].level <= 4
    requires s.tree[t].level == 4 ==> Private(s, k)
    requires c.ram == StoreWord(b.ram, t, k, e) && t != f
    requires Present(e) && !Large(e) && Clean(e) && FrameOf(e) == f
    ensures Linked(s, Over(c, s.tree[f := Child(s, t, k)], s.env.bootRoot, s.env.boot), t, k, f)
  {
    hide AllocOk, TakenSet, ManagedSet, BitmapSet, VmOk, Private, Present, Large, Clean, FrameOf;
  }

  /** A release followed by zeroing the entry, seen from the address spaces. */
  lemma ReleasedAndCleared(b: Alloc, c: Alloc, s: Vm, m: Vm, t: nat, k: nat, f: nat)
    requires AllocOk(b) && AllocOk(c) && m == Over(b, s.tree, s.env.bootRoot, s.env.boot)
    requires m.env == s.env && m.taken == s.taken - {f} && |m.ram| == |s.ram|
    requires forall g: nat | g < |s.ram| && g !in s.env.bitmap :: m.ram[g] == s.ram[g]
    requires TakenSet(c) == TakenSet(b) && ManagedSet(c) == ManagedSet(b) && BitmapSet(c) == BitmapSet(b)
    requires IsTable(s, t) && s.tree[t].level == 1 && k < ENTRIES && t < |s.ram| && t !in s.env.bitmap
    requires (HasNode(s, f, Child(s, t, k)) || f !in s.env.managed) && c.ram == StoreWord(b.ram, t, k, 0)
    ensures Cleared(s, Over(c, s.tree - {f}, s.env.bootRoot, s.env.boot), t, k, f)
  {
    hide AllocOk, TakenSet, ManagedSet, BitmapSet;
  }

  lemma ManagedInSet(a: Alloc, f: nat)
    requires AllocOk(a)
    ensures Managed(a.regions, f) <==> f in ManagedSet(a)
  {
    if Managed(a.regions, f) {
      ManagedBelow(a.regions, |a.ram|, f);
    }
  }

  /** So does a call of `free_frame` for a frame the allocator does not manage. */
  lemma FreeSpares(a: Alloc, b: Alloc, s: Vm, f: nat)
    requires AllocOk(a) && s == Over(a, s.tree, s.env.bootRoot, s.env.boot) && VmOk(s)
    requires if Managed(a.regions, f) then Released(a, b, f) else b == a
    ensures AllocOk(b)
    ensures var m := Over(b, s.tree, s.env.bootRoot, s.env.boot);
      && m.env == s.env && m.taken == s.taken - {f} && |m.ram| == |s.ram|
      && (forall g: nat | g < |s.ram| && g !in s.env.bitmap :: m.ram[g] == s.ram[g])
    ensures forall r: nat, v | IsRoot(s, r) && IsPage(v) :: Translate(b.ram, r, v) == Translate(a.ram, r, v)
  {
    if Managed(a.regions, f) {
      ReleaseSpares(a, b, s, f);
    } else {
      ManagedInSet(a, f);
      assert f !in s.taken;
    }
  }

  /** A release spares every table. */
  lemma ReleaseSpares(a: Alloc, b: Alloc, s: Vm, f: nat)
    requires Released(a, b, f)
    requires s == Over(a, s.tree, s.env.bootRoot, s.env.boot) && VmOk(s)
    ensures var m := Over(b, s.tree, s.env.bootRoot, s.env.boot);
      && m.env == s.env && m.taken == s.taken - {f} && |m.ram| == |s.ram|
      && (forall g: nat | g < |s.ram| && g !in s.env.bitmap :: m.ram[g] == s.ram[g])
    ensures forall r: nat, v | IsRoot(s, r) && IsPage(v) :: Translate(b.ram, r, v) == Translate(a.ram, r, v)
  {
    var m := Over(b, s.tree, s.env.bootRoot, s.env.boot);
    hide AllocOk, Taken, Managed, BitmapFrame;
    assert m.env.managed == s.env.managed && m.env.bitmap == s.env.bitmap;
    forall g: nat | g < |s.ram| && g !in s.env.bitmap ensures m.ram[g] == s.ram[g] {
      NotInBitmap(a, g);
    }
    hide VmOk;
    forall g: nat | IsTable(s, g) ensures g < |b.ram| && b.ram[g] == s.ram[g] {
      TableInRam(s, g);
    }
    UntouchedTables(s, b.ram);
  }

  lemma UntouchedTables(s: Vm, ram: Ram)
    requires VmOk(s) && |ram| == |s.ram|
    requires forall g: nat | IsTable(s, g) :: g < |ram| && ram[g] == s.ram[g]
    requires forall g: nat | g < |s.ram| && g !in s.env.bitmap && !IsTable(s, g) :: ram[g] == s.ram[g]
    ensures forall r: nat, v | IsRoot(s, r) && IsPage(v) :: Translate(ram, r, v) == Translate(s.ram, r, v)
  {
    forall r: nat, v | IsRoot(s, r) && IsPage(v) ensures Translate(ram, r, v) == Translate(s.ram, r, v) {
      UntouchedDirectory(s, ram, r, v);
    }
  }

  /** Under the directory in use, the address va designates word k of frame t. */
  predicate Designates(ram: Ram, cr3: nat, va: Word, t: nat, k: nat) {
    && va % 8 == 0 && IsPage(PageOf(va)) && OffsetOf(va) == 8 * k && k < FRAME_WORDS
    && Translate(ram, cr3, PageOf(va)) == Mapped(t, 1) && t < |ram|
  }

  /** The crafted address of an entry designates that entry. */
  lemma EntryReachable(s: Vm, cr3: nat, v: Page, level: nat)
    requires VmOk(s) && IsRoot(s, cr3) && IsPage(v) && 1 <= level <= 4
    requires TableAt(s.ram, cr3, v, level) >= 0 && Private(s, v.l4)
    ensures EntryAddress(v, level) < WORD_LIMIT
    ensures HasNode(s, TableAt(s.ram, cr3, v, level), Node(cr3, level, Prefix(v, level)))
    ensures Designates(s.ram, cr3, EntryAddress(v, level), TableAt(s.ram, cr3, v, level), Index(v, level))
  {
    hide EntryAddress, PageOf, OffsetOf, Walk, Translate, TableAt;
    TableAtIsNode(s, cr3, v, level);
    assert NodeOk(s, TableAt(s.ram, cr3, v, level));
    assert NodeOk(s, cr3) && EntryOk(s, cr3, RECURSIVE_SLOT);
    WindowShowsEntry(s.ram, cr3, v, level);
  }

  class PageTables {
    const pmm: FrameAllocator
    /** Frame number of the root table in use. */
    var cr3: nat
    /** Frame number of the bootloader's root table. */
    var limineRoot: nat
    /** The lock word of `kmmap`. */
    var kmmapLock: bool
    ghost var tree: map<nat, Node>
    ghost var boot: map<nat, nat>

    constructor (pmm: FrameAllocator)
      ensures this.pmm == pmm && fresh(this)
    {
      this.pmm := pmm;
      cr3, limineRoot, kmmapLock := 0, 0, false;
      tree, boot := map[], map[];
    }

    ghost function State(): Vm
      reads this, pmm, pmm.memory
      requires AllocOk(pmm.State())
    {
      Over(pmm.State(), tree, limineRoot, boot)
    }

    ghost predicate Valid()
      reads this, pmm, pmm.memory
    {
      pmm.Valid() && pmm.isBitmapSet && VmOk(State()) && IsRoot(State(), cr3)
    }

    /** A word read through the address space in use. */
    method Load(va: Word, ghost t: nat, ghost k: nat) returns (w: Word)
      requires Designates(pmm.memory.frames, cr3, va, t, k)
      ensures w == pmm.memory.frames[t][k]
    {
      var tr := Translate(pmm.memory.frames, cr3, PageOf(va));
      w := pmm.memory.frames[tr.frame][OffsetOf(va) / 8];
    }

    /** A word written through the address space in use. */
    method Store(va: Word, w: Word, ghost t: nat, ghost k: nat)
      requires Designates(pmm.memory.frames, cr3, va, t, k)
      modifies pmm.memory
      ensures pmm.memory.frames == StoreWord(old(pmm.memory.frames), t, k, w)
    {
      var tr := Translate(pmm.memory.frames, cr3, PageOf(va));
      pmm.memory.frames := StoreWord(pmm.memory.frames, tr.frame, OffsetOf(va) / 8, w);
    }

    /** `if (*entry == 0) *entry = get_frame() | flags | 1;` for the entry of page v at a level. */
    method EnsureEntry(entry: Word, flags: Word, ghost v: Page, ghost level: nat) returns (halted: bool)
      requires Valid() && FlagsOk(flags) && IsPage(v) && 1 <= level <= 4 && Private(State(), v.l4)
      requires TableAt(pmm.memory.frames, cr3, v, level) >= 0 && entry == EntryAddress(v, level)
      modifies pmm, pmm.memory, this`tree
      ensures Valid()
      ensures halted ==> State() == old(State()) && pmm.Exhausted()
      ensures !halted ==>
        Filled(old(State()), State(), TableAt(old(pmm.memory.frames), cr3, v, level), Index(v, level), LowBits(flags))
    {
      hide EntryAddress, Designates, Linked, TableAt, VmOk, AllocOk, Private;
      ghost var t: nat, k := TableAt(pmm.memory.frames, cr3, v, level), Index(v, level);
      EntryReachable(State(), cr3, v, level);
      TableInRam(State(), t);
      var e := Load(entry, t, k);
      if e == 0 {
        halted := FillEntry(entry, flags, v, level);
      } else {
        halted := false;
      }
    }

    method FillEntry(entry: Word, flags: Word, ghost v: Page, ghost level: nat) returns (halted: bool)
      requires Valid() && FlagsOk(flags) && IsPage(v) && 1 <= level <= 4 && Private(State(), v.l4)
      requires TableAt(pmm.memory.frames, cr3, v, level) >= 0 && entry == EntryAddress(v, level)
      requires var t := TableAt(pmm.memory.frames, cr3, v, level);
        IsTable(State(), t) && t < |pmm.memory.frames| && pmm.memory.frames[t][Index(v, level)] == 0
      modifies pmm, pmm.memory, this`tree
      ensures Valid()
      ensures halted ==> State() == old(State()) && pmm.Exhausted()
      ensures !halted ==>
        Filled(old(State()), State(), TableAt(old(pmm.memory.frames), cr3, v, level), Index(v, level), LowBits(flags))
    {
      hide EntryAddress, Designates, Linked, TableAt, VmOk, AllocOk, Private, MakeEntry, GotFrame, Written, FlagsOk,
           Present, Large, Clean, FrameOf, SameTables, TakesLeast, AllUsedBelow, Child, ManagedSet, BitmapSet, TakenSet;
      ghost var s, a := State(), pmm.State();
      ghost var t: nat, k := TableAt(pmm.memory.frames, cr3, v, level), Index(v, level);
      EntryReachable(s, cr3, v, level);
      var frame := pmm.GetFrame();
      if frame.None? {
        return true;
      }
      halted := false;
      ghost var f: nat, b := frame.value / PAGE_SIZE, pmm.State();
      AllocationSpares(a, b, s, f);
      ghost var m := State();
      EntryReachable(m, cr3, v, level);
      MakeEntryFields(f, flags);
      MakeEntryLow(f, flags);
      var w := MakeEntry(frame.value, flags);
      Store(entry, w, t, k);
      ghost var c := pmm.State();
      TableInRam(m, t);
      NotInBitmap(b, t);
      TableWriteKeepsBitmap(b, c, t);
      tree := tree[f := Child(s, t, k)];
      AllocatedAndLinked(b, c, s, m, t, k, f, w);
      LinkedOk(s, State(), t, k, f);
    }

    // -------------------------------------------------------------- kmmap

    /** State of a mapping call: it is at page number p. */
    ghost predicate Mapping(j: Job, p: nat)
      reads this, pmm, pmm.memory
    {
      Valid() && JobOk(j) && cr3 == j.root && At(j, State(), p) && Frugal(j, State())
    }

    /** An upper-level entry for page v, during a call. */
    method EnsureTable(ghost j: Job, ghost p: nat, entry: Word, flags: Word, ghost v: Page, ghost level: nat)
      returns (halted: bool)
      requires Mapping(j, p) && FlagsOk(flags) && IsPage(v) && 2 <= level <= 4 && Private(j.start, v.l4)
      requires j.low == LowBits(flags) && j.first <= PageNumber(v) <= j.last
      requires TableAt(pmm.memory.frames, cr3, v, level) >= 0 && entry == EntryAddress(v, level)
      modifies pmm, pmm.memory, this`tree
      ensures Mapping(j, p)
      ensures halted ==> pmm.Exhausted()
      ensures !halted ==> TableAt(pmm.memory.frames, cr3, v, level - 1) >= 0
    {
      hide EntryAddress, TableAt, VmOk, AllocOk, Private, FlagsOk, At, JobOk, Ensured, FrameAllocator.Exhausted, Frugal,
           LowBits;
      ghost var m: Vm, t: nat := State(), TableAt(pmm.memory.frames, cr3, v, level);
      StillPrivate(j, m, p);
      halted := EnsureEntry(entry, flags, v, level);
      if !halted {
        EnsuredTable(j, m, State(), v, level, p, t);
        EnsuredFrugal(j, m, State(), v, level, t);
      }
    }

    /** The lowest-level entry of page v, during a call. */
    method EnsurePage(ghost j: Job, entry: Word, flags: Word, ghost v: Page) returns (halted: bool)
      requires j.target.None? && IsPage(v) && Mapping(j, PageNumber(v)) && FlagsOk(flags) && Private(j.start, v.l4)
      requires j.low == LowBits(flags) && j.first <= PageNumber(v) <= j.last
      requires TableAt(pmm.memory.frames, cr3, v, 1) >= 0 && entry == EntryAddress(v, 1)
      modifies pmm, pmm.memory, this`tree
      ensures halted ==> Mapping(j, PageNumber(v)) && pmm.Exhausted()
      ensures !halted ==> Mapping(j, PageNumber(v) + 1) && TableAt(pmm.memory.frames, cr3, v, 1) >= 0
    {
      hide EntryAddress, TableAt, VmOk, AllocOk, Private, FlagsOk, At, JobOk, Ensured, FrameAllocator.Exhausted, Frugal,
           LowBits;
      ghost var m: Vm, t: nat := State(), TableAt(pmm.memory.frames, cr3, v, 1);
      StillPrivate(j, m, PageNumber(v));
      halted := EnsureEntry(entry, flags, v, 1);
      if !halted {
        EnsuredPage(j, m, State(), v, t);
        EnsuredFrugal(j, m, State(), v, 1, t);
      }
    }

    /** `*entry = physical_addr | flags | 1;` for page v, during a physical-mapping call. */
    method PointPage(ghost j: Job, entry: Word, address: Word, flags: Word, ghost v: Page)
      requires j.target.Some? && IsPage(v) && Mapping(j, PageNumber(v)) && FlagsOk(flags) && Private(j.start, v.l4)
      requires j.first <= PageNumber(v) <= j.last && Target(j, PageNumber(v), Some(address))
      requires j.low == LowBits(flags)
      requires TableAt(pmm.memory.frames, cr3, v, 1) >= 0 && entry == EntryAddress(v, 1)
      modifies pmm.memory
      ensures Mapping(j, PageNumber(v) + 1) && TableAt(pmm.memory.frames, cr3, v, 1) >= 0
    {
      hide EntryAddress, Designates, TableAt, VmOk, AllocOk, Private, MakeEntry, Written, FlagsOk, Present, Large,
           Clean, FrameOf, ManagedSet, BitmapSet, TakenSet, At, JobOk, Frugal;
      ghost var m, b, frame: nat := State(), pmm.State(), j.target.value + (PageNumber(v) - j.first);
      ghost var t: nat := TableAt(pmm.memory.frames, cr3, v, 1);
      StillPrivate(j, m, PageNumber(v));
      EntryReachable(m, cr3, v, 1);
      TableInRam(m, t);
      TargetFrame(j, PageNumber(v));
      MakeEntryFields(frame, flags);
      MakeEntryLow(frame, flags);
      var w := MakeEntry(address, flags);
      Store(entry, w, t, v.l1);
      NotInBitmap(b, t);
      TableWriteKeepsBitmap(b, pmm.State(), t);
      PointedPage(j, m, State(), v, t, w);
      PointedFrugal(j, m, State(), t, v.l1, w);
    }

    /** The innermost loop of both mapping functions: the pages of one lowest-level table. */
    method MapL1(ghost j: Job, l4: nat, l3: nat, l2: nat, l1: nat, l0: Word, size: Word, flags: Word,
                 target: Option<Word>)
      returns (status: Status, rest: Word, next: Option<Word>)
      requires l4 < ENTRIES && l3 < ENTRIES && l2 < ENTRIES && l1 < ENTRIES && FlagsOk(flags)
      requires j.low == LowBits(flags)
      requires Mapping(j, PageNumber(Page(l4, l3, l2, l1))) && Cursor(j, PageNumber(Page(l4, l3, l2, l1)), l0, size)
      requires Target(j, PageNumber(Page(l4, l3, l2, l1)), target)
      requires TableAt(pmm.memory.frames, cr3, Page(l4, l3, l2, 0), 1) >= 0
      modifies pmm, pmm.memory, this`tree
      ensures status.Halted? ==> pmm.Exhausted()
      ensures Outcome(j, status, rest, next, PageNumber(Page(l4, l3, l2, ENTRIES)))
      ensures status.More? ==> TableAt(pmm.memory.frames, cr3, Page(l4, l3, l2, 0), 1) >= 0
    {
      hide TableAt, VmOk, AllocOk, FlagsOk, At, JobOk, CraftAddr, Valid, Private,
           FrameAllocator.Exhausted, Frugal, LowBits;
      var offsetL1, offsetL0 := l1, l0;
      rest, next := size, target;
      while offsetL1 < ENTRIES
        invariant offsetL1 <= ENTRIES && Mapping(j, PageNumber(Page(l4, l3, l2, offsetL1)))
        invariant Cursor(j, PageNumber(Page(l4, l3, l2, offsetL1)), offsetL0, rest)
        invariant Target(j, PageNumber(Page(l4, l3, l2, offsetL1)), next)
        invariant TableAt(pmm.memory.frames, cr3, Page(l4, l3, l2, 0), 1) >= 0
      {
        ghost var v := Page(l4, l3, l2, offsetL1);
        JobPage(j, v);
        TableAtPrefix(pmm.memory.frames, cr3, v, Page(l4, l3, l2, 0), 1);
        EntryAddressFits(v, 1);
        var entry := CraftAddr(RECURSIVE_SLOT, l4, l3, l2, offsetL1 * 8);
        var halted := false;
        if next.None? {
          halted := EnsurePage(j, entry, flags, v);
        } else {
          PointPage(j, entry, next.value, flags, v);
        }
        if halted {
          return Halted, rest, next;
        }
        var spaceLeft := PAGE_SIZE - offsetL0;
        JobRange(j);
        CursorStep(j, PageNumber(v), offsetL0, rest);
        if spaceLeft >= rest {
          return Finished, rest, next;
        }
        TableAtPrefix(pmm.memory.frames, cr3, v, Page(l4, l3, l2, 0), 1);
        if next.Some? {
          TargetStep(j, PageNumber(v), next, offsetL0, rest);
          next := Some(next.value + spaceLeft);
        }
        rest := rest - spaceLeft;
        offsetL0 := 0;
        offsetL1 := offsetL1 + 1;
      }
      status := More;
    }

    /** The loop over the tables below one level-2 table. */
    method MapL2(ghost j: Job, l4: nat, l3: nat, l2: nat, l1: nat, l0: Word, size: Word, flags: Word,
                 target: Option<Word>)
      returns (status: Status, rest: Word, next: Option<Word>)
      requires l4 < ENTRIES && l3 < ENTRIES && l2 < ENTRIES && l1 < ENTRIES && FlagsOk(flags)
      requires j.low == LowBits(flags)
      requires Mapping(j, PageNumber(Page(l4, l3, l2, l1))) && Cursor(j, PageNumber(Page(l4, l3, l2, l1)), l0, size)
      requires Target(j, PageNumber(Page(l4, l3, l2, l1)), target)
      requires TableAt(pmm.memory.frames, cr3, Page(l4, l3, 0, 0), 2) >= 0
      modifies pmm, pmm.memory, this`tree
      ensures status.Halted? ==> pmm.Exhausted()
      ensures Outcome(j, status, rest, next, PageNumber(Page(l4, l3, ENTRIES, 0)))
      ensures status.More? ==> TableAt(pmm.memory.frames, cr3, Page(l4, l3, 0, 0), 2) >= 0
    {
      hide TableAt, VmOk, AllocOk, FlagsOk, At, JobOk, CraftAddr, Valid, Private,
           FrameAllocator.Exhausted, Frugal, LowBits;
      var offsetL2: nat, offsetL1: nat, offsetL0 := l2, l1, l0;
      rest, next := size, target;
      while offsetL2 < ENTRIES
        invariant offsetL2 <= ENTRIES && offsetL1 < ENTRIES && (offsetL2 > l2 ==> offsetL1 == 0)
        invariant Mapping(j, PageNumber(Page(l4, l3, offsetL2, offsetL1)))
        invariant Cursor(j, PageNumber(Page(l4, l3, offsetL2, offsetL1)), offsetL0, rest)
        invariant Target(j, PageNumber(Page(l4, l3, offsetL2, offsetL1)), next)
        invariant offsetL2 > l2 ==> PageNumber(Page(l4, l3, offsetL2, offsetL1)) > j.first
        invariant TableAt(pmm.memory.frames, cr3, Page(l4, l3, 0, 0), 2) >= 0
      {
        ghost var v := Page(l4, l3, offsetL2, offsetL1);
        JobPage(j, v);
        TableAtPrefix(pmm.memory.frames, cr3, v, Page(l4, l3, 0, 0), 2);
        EntryAddressFits(v, 2);
        var entry := CraftAddr(RECURSIVE_SLOT, RECURSIVE_SLOT, l4, l3, offsetL2 * 8);
        var halted := EnsureTable(j, PageNumber(v), entry, flags, v, 2);
        if halted {
          return Halted, rest, next;
        }
        TableAtPrefix(pmm.memory.frames, cr3, v, Page(l4, l3, offsetL2, 0), 1);
        status, rest, next := MapL1(j, l4, l3, offsetL2, offsetL1, offsetL0, rest, flags, next);
        if !status.More? {
          return;
        }
        TableAtUp(pmm.memory.frames, cr3, Page(l4, l3, offsetL2, 0), 1, 2);
        TableAtPrefix(pmm.memory.frames, cr3, Page(l4, l3, offsetL2, 0), Page(l4, l3, 0, 0), 2);
        offsetL0, offsetL1 := 0, 0;
        offsetL2 := offsetL2 + 1;
      }
      status := More;
    }

    /** The loop over the tables below one level-3 table. */
    method MapL3(ghost j: Job, l4: nat, l3: nat, l2: nat, l1: nat, l0: Word, size: Word, flags: Word,
                 target: Option<Word>)
      returns (status: Status, rest: Word, next: Option<Word>)
      requires l4 < ENTRIES && l3 < ENTRIES && l2 < ENTRIES && l1 < ENTRIES && FlagsOk(flags)
      requires j.low == LowBits(flags)
      requires Mapping(j, PageNumber(Page(l4, l3, l2, l1))) && Cursor(j, PageNumber(Page(l4, l3, l2, l1)), l0, size)
      requires Target(j, PageNumber(Page(l4, l3, l2, l1)), target)
      requires TableAt(pmm.memory.frames, cr3, Page(l4, 0, 0, 0), 3) >= 0
      modifies pmm, pmm.memory, this`tree
      ensures status.Halted? ==> pmm.Exhausted()
      ensures Outcome(j, status, rest, next, PageNumber(Page(l4, ENTRIES, 0, 0)))
    {
      hide TableAt, VmOk, AllocOk, FlagsOk, At, JobOk, CraftAddr, Valid, Private,
           FrameAllocator.Exhausted, Frugal, LowBits;
      var offsetL3: nat, offsetL2: nat, offsetL1: nat, offsetL0 := l3, l2, l1, l0;
      rest, next := size, target;
      while offsetL3 < ENTRIES
        invariant offsetL3 <= ENTRIES && offsetL2 < ENTRIES && offsetL1 < ENTRIES
        invariant offsetL3 > l3 ==> offsetL2 == offsetL1 == 0
        invariant Mapping(j, PageNumber(Page(l4, offsetL3, offsetL2, offsetL1)))
        invariant Cursor(j, PageNumber(Page(l4, offsetL3, offsetL2, offsetL1)), offsetL0, rest)
        invariant Target(j, PageNumber(Page(l4, offsetL3, offsetL2, offsetL1)), next)
        invariant offsetL3 > l3 ==> PageNumber(Page(l4, offsetL3, offsetL2, offsetL1)) > j.first
        invariant TableAt(pmm.memory.frames, cr3, Page(l4, 0, 0, 0), 3) >= 0
      {
        ghost var v := Page(l4, offsetL3, offsetL2, offsetL1);
        JobPage(j, v);
        TableAtPrefix(pmm.memory.frames, cr3, v, Page(l4, 0, 0, 0), 3);
        EntryAddressFits(v, 3);
        var entry := CraftAddr(RECURSIVE_SLOT, RECURSIVE_SLOT, RECURSIVE_SLOT, l4, offsetL3 * 8);
        var halted := EnsureTable(j, PageNumber(v), entry, flags, v, 3);
        if halted {
          return Halted, rest, next;
        }
        TableAtPrefix(pmm.memory.frames, cr3, v, Page(l4, offsetL3, 0, 0), 2);
        status, rest, next := MapL2(j, l4, offsetL3, offsetL2, offsetL1, offsetL0, rest, flags, next);
        if !status.More? {
          return;
        }
        TableAtUp(pmm.memory.frames, cr3, Page(l4, offsetL3, 0, 0), 2, 3);
        TableAtPrefix(pmm.memory.frames, cr3, Page(l4, offsetL3, 0, 0), Page(l4, 0, 0, 0), 3);
        offsetL0, offsetL1, offsetL2 := 0, 0, 0;
        offsetL3 := offsetL3 + 1;
      }
      status := More;
    }

    /** The outermost loop. */
    method MapL4(ghost j: Job, l4: nat, l3: nat, l2: nat, l1: nat, l0: Word, size: Word, flags: Word,
                 target: Option<Word>)
      returns (halted: bool)
      requires l4 < ENTRIES && l3 < ENTRIES && l2 < ENTRIES && l1 < ENTRIES && FlagsOk(flags)
      requires j.low == LowBits(flags)
      requires Mapping(j, PageNumber(Page(l4, l3, l2, l1))) && Cursor(j, PageNumber(Page(l4, l3, l2, l1)), l0, size)
      requires Target(j, PageNumber(Page(l4, l3, l2, l1)), target)
      modifies pmm, pmm.memory, this`tree
      ensures halted ==> pmm.Exhausted()
      ensures if halted then exists q: nat :: j.first <= q <= j.last && Mapping(j, q) else Mapping(j, j.last + 1)
    {
      hide TableAt, VmOk, AllocOk, FlagsOk, At, JobOk, CraftAddr, Valid, Private,
           FrameAllocator.Exhausted, Frugal, LowBits;
      var offsetL4: nat, offsetL3: nat, offsetL2: nat, offsetL1: nat, offsetL0 := l4, l3, l2, l1, l0;
      var rest, next := size, target;
      while offsetL4 < ENTRIES
        invariant offsetL4 <= ENTRIES && offsetL3 < ENTRIES && offsetL2 < ENTRIES && offsetL1 < ENTRIES
        invariant Mapping(j, PageNumber(Page(offsetL4, offsetL3, offsetL2, offsetL1)))
        invariant Cursor(j, PageNumber(Page(offsetL4, offsetL3, offsetL2, offsetL1)), offsetL0, rest)
        invariant Target(j, PageNumber(Page(offsetL4, offsetL3, offsetL2, offsetL1)), next)
      {
        ghost var v := Page(offsetL4, offsetL3, offsetL2, offsetL1);
        JobPage(j, v);
        EntryAddressFits(v, 4);
        var entry := CraftAddr(RECURSIVE_SLOT, RECURSIVE_SLOT, RECURSIVE_SLOT, RECURSIVE_SLOT, offsetL4 * 8);
        RootTable(pmm.memory.frames, cr3, v);
        halted := EnsureTable(j, PageNumber(v), entry, flags, v, 4);
        if halted {
          return;
        }
        TableAtPrefix(pmm.memory.frames, cr3, v, Page(offsetL4, 0, 0, 0), 3);
        var status;
        status, rest, next := MapL3(j, offsetL4, offsetL3, offsetL2, offsetL1, offsetL0, rest, flags, next);
        if !status.More? {
          return status.Halted?;
        }
        offsetL0, offsetL1, offsetL2, offsetL3 := 0, 0, 0, 0;
        offsetL4 := offsetL4 + 1;
      }
      JobRange(j);
      assert false;
    }

    /** `kmmap`: maps every page that meets [addr, addr + max(size, 1)).  A core that runs out of
        frames halts in the middle, with the lock held. */
    method Kmmap(addr: Word, size: Word, flags: Word) returns (halted: bool)
      requires Valid() && FlagsOk(flags) && !kmmapLock
      requires RangeOk(State(), FirstPage(addr), LastPage(FirstPage(addr), OffsetOf(addr), size))
      modifies pmm, pmm.memory, this`tree, this`kmmapLock
      ensures Valid() && kmmapLock == halted
      ensures halted ==> pmm.Exhausted()
      ensures !halted ==> MappedUpTo(old(State()), State(), cr3, FirstPage(addr),
                                     LastPage(FirstPage(addr), OffsetOf(addr), size) + 1)
      ensures EntriesHold(old(State()), State(), cr3, LowBits(flags))
      ensures TablesFor(old(State()), State(), FirstPage(addr), LastPage(FirstPage(addr), OffsetOf(addr), size))
      ensures halted ==> exists q: nat :: FirstPage(addr) <= q <= LastPage(FirstPage(addr), OffsetOf(addr), size)
                                       && MappedUpTo(old(State()), State(), cr3, FirstPage(addr), q)
    {
      hide PageOf, OffsetOf, FirstPage, VmOk, AllocOk, FlagsOk, RangeOk, JobOk, At, Cursor;
      AddressInRange(addr);
      var page, offset := PageOf(addr), OffsetOf(addr);
      ghost var j := NewJob(State(), cr3, addr, size, None, LowBits(flags));
      JobStarts(State(), cr3, addr, size, None, LowBits(flags));
      kmmapLock := true;
      halted := MapL4(j, page.l4, page.l3, page.l2, page.l1, offset, size, flags, None);
      if !halted {
        kmmapLock := false;
      }
      MappedByJob(j, State());
      FrugalByJob(j, State());
    }

    /** `kmmap_physical`: page k of the range shows the k-th frame from physicalAddr on. */
    method KmmapPhysical(addr: Word, physicalAddr: Word, size: Word, flags: Word) returns (halted: bool)
      requires Valid() && FlagsOk(flags) && OffsetOf(addr) == 0 && physicalAddr % PAGE_SIZE == 0
      requires RangeOk(State(), FirstPage(addr), LastPage(FirstPage(addr), 0, size))
      requires TargetOk(State(), physicalAddr / PAGE_SIZE, FirstPage(addr), LastPage(FirstPage(addr), 0, size))
      modifies pmm, pmm.memory, this`tree
      ensures Valid()
      ensures halted ==> pmm.Exhausted()
      ensures !halted ==> WindowUpTo(old(State()), State(), cr3, FirstPage(addr),
                                     LastPage(FirstPage(addr), 0, size) + 1, physicalAddr / PAGE_SIZE)
      ensures EntriesHold(old(State()), State(), cr3, LowBits(flags))
      ensures TablesFor(old(State()), State(), FirstPage(addr), LastPage(FirstPage(addr), 0, size))
      ensures halted ==>
        exists q: nat :: FirstPage(addr) <= q <= LastPage(FirstPage(addr), 0, size)
                      && WindowUpTo(old(State()), State(), cr3, FirstPage(addr), q, physicalAddr / PAGE_SIZE)
    {
      hide PageOf, OffsetOf, FirstPage, LastPage, VmOk, AllocOk, FlagsOk, RangeOk, TargetOk, JobOk, At, Cursor, Target;
      AddressInRange(addr);
      var page := PageOf(addr);
      ghost var target := Some(physicalAddr / PAGE_SIZE);
      ghost var j := NewJob(State(), cr3, addr, size, target, LowBits(flags));
      JobStarts(State(), cr3, addr, size, target, LowBits(flags));
      halted := MapL4(j, page.l4, page.l3, page.l2, page.l1, 0, size, flags, Some(physicalAddr));
      MappedByJob(j, State());
      FrugalByJob(j, State());
    }

    // -------------------------------------------------------------- directories

    /** Before any directory is in use: the allocator runs on its bitmap and the invariant holds. */
    ghost predicate Ready()
      reads this, pmm, pmm.memory
    {
      pmm.Valid() && pmm.isBitmapSet && VmOk(State())
    }

    /** `create_page_directory`: a directory on a fresh frame, through the direct window. */
    method CreatePageDirectory() returns (r: Option<Word>)
      requires Ready()
      modifies pmm, pmm.memory, this`tree
      ensures Ready()
      ensures r.None? ==> State() == old(State()) && pmm.Exhausted()
      ensures r.Some? ==> r.value % PAGE_SIZE == 0 && Created(old(State()), State(), r.value / PAGE_SIZE)
    {
      hide VmOk, AllocOk, GotFrame, Written, SameTables, ManagedSet, BitmapSet, TakenSet, Created, SelfReferencing;
      ghost var s, a := State(), pmm.State();
      BootRootInRam(s);
      var frame := pmm.GetFrame();
      if frame.None? {
        return None;
      }
      ghost var f: nat, b := frame.value / PAGE_SIZE, pmm.State();
      AllocationSpares(a, b, s, f);
      FrameBelowWindow(b, State(), f);
      FillDirectory(frame.value);
      ghost var c := pmm.State();
      TableWriteKeepsBitmap(b, c, f);
      tree := tree[f := Node(f, 4, Page(0, 0, 0, 0))];
      CreatedFromFill(b, c, s, f);
      CreatedOk(s, State(), f);
      r := Some(frame.value);
    }

    /** The copy loop and the two entries set after it. */
    method FillDirectory(newPdp: Word)
      requires newPdp % PAGE_SIZE == 0 && newPdp + PAGE_SIZE < WINDOW_SIZE && newPdp / PAGE_SIZE < |pmm.memory.frames|
      requires limineRoot < |pmm.memory.frames| <= WINDOW_SIZE / PAGE_SIZE && limineRoot != newPdp / PAGE_SIZE
      modifies pmm.memory
      ensures |pmm.memory.frames| == |old(pmm.memory.frames)|
      ensures forall g: nat | g < |pmm.memory.frames| && g != newPdp / PAGE_SIZE ::
                pmm.memory.frames[g] == old(pmm.memory.frames[g])
      ensures SelfReferencing(pmm.memory.frames, newPdp / PAGE_SIZE) && pmm.memory.frames[newPdp / PAGE_SIZE][0] == 0
      ensures pmm.memory.frames[newPdp / PAGE_SIZE][RECURSIVE_SLOT] % PAGE_SIZE == 7
      ensures forall k | 0 < k < ENTRIES && k != RECURSIVE_SLOT ::
                pmm.memory.frames[newPdp / PAGE_SIZE][k] == pmm.memory.frames[limineRoot][k]
    {
      hide SelfEntry, Present, Large, FrameOf;
      var newPd, limine := PhysicalToWindow(newPdp), PhysicalToWindow(limineRoot * PAGE_SIZE);
      CopyDirectory(newPd, limine);
      SelfEntryFields(newPdp / PAGE_SIZE);
      WordAddress(newPd, RECURSIVE_SLOT);
      pmm.memory.Write(newPd + 8 * RECURSIVE_SLOT, SelfEntry(newPdp));
      WordAddress(newPd, 0);
      pmm.memory.Write(newPd, 0);
    }

    /** `new_pd[i] = limine_page_directory_addr[i]`. */
    method CopyWord(to: Word, from: Word, i: nat)
      requires to >= WINDOW && to % PAGE_SIZE == 0 && (to - WINDOW) / PAGE_SIZE < |pmm.memory.frames|
      requires from >= WINDOW && from % PAGE_SIZE == 0 && (from - WINDOW) / PAGE_SIZE < |pmm.memory.frames|
      requires |pmm.memory.frames| <= WINDOW_SIZE / PAGE_SIZE && i < ENTRIES
      modifies pmm.memory
      ensures pmm.memory.frames == StoreWord(old(pmm.memory.frames), (to - WINDOW) / PAGE_SIZE, i,
                                             old(pmm.memory.frames)[(from - WINDOW) / PAGE_SIZE][i])
    {
      WordAddress(from, i);
      WordAddress(to, i);
      var e := pmm.memory.Read(from + 8 * i);
      pmm.memory.Write(to + 8 * i, e);
    }

    method CopyDirectory(to: Word, from: Word)
      requires to >= WINDOW && to % PAGE_SIZE == 0 && (to - WINDOW) / PAGE_SIZE < |pmm.memory.frames|
      requires from >= WINDOW && from % PAGE_SIZE == 0 && (from - WINDOW) / PAGE_SIZE < |pmm.memory.frames|
      requires |pmm.memory.frames| <= WINDOW_SIZE / PAGE_SIZE && to != from
      modifies pmm.memory
      ensures |pmm.memory.frames| == |old(pmm.memory.frames)|
      ensures forall g: nat | g < |pmm.memory.frames| && g != (to - WINDOW) / PAGE_SIZE ::
                pmm.memory.frames[g] == old(pmm.memory.frames[g])
      ensures pmm.memory.frames[(to - WINDOW) / PAGE_SIZE] == old(pmm.memory.frames)[(from - WINDOW) / PAGE_SIZE]
    {
      ghost var t, f: nat, before := (to - WINDOW) / PAGE_SIZE, (from - WINDOW) / PAGE_SIZE, pmm.memory.frames;
      var i := 0;
      while i < ENTRIES
        invariant i <= ENTRIES && |pmm.memory.frames| == |before|
        invariant forall g: nat | g < |before| && g != t :: pmm.memory.frames[g] == before[g]
        invariant forall k | 0 <= k < i :: pmm.memory.frames[t][k] == before[f][k]
      {
        CopyWord(to, from, i);
        i := i + 1;
      }
    }

    /** `init_vmm`: the bootloader's root is remembered, and a copy of it made on a frame that is
        then forgotten. */
    method InitVmm() returns (halted: bool)
      requires pmm.Valid() && pmm.isBitmapSet && tree == map[] && VmOk(Over(pmm.State(), map[], cr3, boot))
      modifies pmm, pmm.memory, this`limineRoot
      ensures limineRoot == cr3 < |pmm.memory.frames| == |old(pmm.memory.frames)|
      ensures pmm.memory.frames[cr3] == old(pmm.memory.frames)[cr3]
      ensures Ready() && tree == map[]
      ensures halted ==> pmm.Exhausted()
      ensures !halted ==> exists f: nat :: SpareCopy(old(pmm.State()), pmm.State(), f, cr3)
    {
      hide VmOk, AllocOk, GotFrame, Written, ManagedSet, BitmapSet, TakenSet;
      limineRoot := cr3;
      ghost var s, a := State(), pmm.State();
      BootRootInRam(s);
      var frame := pmm.GetFrame();
      if frame.None? {
        return true;
      }
      ghost var f: nat, b := frame.value / PAGE_SIZE, pmm.State();
      AllocationSpares(a, b, s, f);
      ghost var m := State();
      FrameBelowWindow(b, m, f);
      halted := false;
      CopySpare(frame.value, m);
      assert SpareCopy(a, pmm.State(), f, cr3);
    }

    method CopySpare(newPdp: Word, ghost m: Vm)
      requires Ready() && m == State() && newPdp % PAGE_SIZE == 0 && newPdp + PAGE_SIZE < WINDOW_SIZE
      requires newPdp / PAGE_SIZE < |pmm.memory.frames| && newPdp / PAGE_SIZE in m.env.managed
      requires newPdp / PAGE_SIZE !in m.tree && newPdp / PAGE_SIZE !in m.env.bitmap && newPdp / PAGE_SIZE != limineRoot
      modifies pmm.memory
      ensures Ready() && SameTables(m, State()) && State().taken == m.taken
      ensures pmm.memory.frames[newPdp / PAGE_SIZE] == old(pmm.memory.frames)[limineRoot]
    {
      hide VmOk, AllocOk, Written, SameTables, ManagedSet, BitmapSet, TakenSet, BitmapFrame;
      ghost var b, f: nat := pmm.State(), newPdp / PAGE_SIZE;
      BootRootInRam(m);
      NotInBitmap(b, f);
      CopyDirectory(PhysicalToWindow(newPdp), PhysicalToWindow(limineRoot * PAGE_SIZE));
      TableWriteKeepsBitmap(b, pmm.State(), f);
      SpareFrameWritten(m, State(), f);
    }

    // -------------------------------------------------------------- search_available

    /** One entry on the way to page v. */
    method LoadEntry(entry: Word, ghost v: Page, ghost level: nat) returns (e: Word)
      requires Valid() && IsPage(v) && 1 <= level <= 4 && Private(State(), v.l4)
      requires TableAt(pmm.memory.frames, cr3, v, level) >= 0 && entry == EntryAddress(v, level)
      ensures TableAt(pmm.memory.frames, cr3, v, level) < |pmm.memory.frames|
      ensures e == EntryOf(pmm.memory.frames, cr3, v, level)
      ensures level > 1 && e != 0 ==> TableAt(pmm.memory.frames, cr3, v, level - 1) >= 0
      ensures Search.EntryEmpty(State(), cr3, v, level) <==> e == 0
    {
      hide EntryAddress, Designates, VmOk, AllocOk, Private, PageOf, OffsetOf, Walk, Translate;
      ghost var t: nat, k := TableAt(pmm.memory.frames, cr3, v, level), Index(v, level);
      EntryReachable(State(), cr3, v, level);
      TableInRam(State(), t);
      e := Load(entry, t, k);
      EntryPresent(State(), t, k, cr3, v, level);
    }

    /** `search_available`: for n pages from an aligned base. */
    method SearchAvailable(baseAddr: Word, size: Word) returns (address: Word)
      requires Valid() && baseAddr < ADDRESS_LIMIT && OffsetOf(baseAddr) == 0 && IsPage(PageOf(baseAddr))
      requires Private(State(), PageOf(baseAddr).l4) && 1 <= PagesFor(size) < ENTRIES
      requires Search.Searchable(State(), cr3, PageOf(baseAddr), PagesFor(size))
      ensures address % PAGE_SIZE == 0
      ensures Search.Found(State(), cr3, PageOf(baseAddr), PagesFor(size), address / PAGE_SIZE)
    {
      hide PageOf, OffsetOf, VmOk, AllocOk, PageNumber, PagesFor, Private, Search.Found, Search.Searchable, Valid,
           State;
      var base := PageOf(baseAddr);
      BaseAddress(baseAddr);
      RoundedUp(size);
      var pageNum := size / PAGE_SIZE;
      if size % PAGE_SIZE != 0 {
        pageNum := pageNum + 1;
      }
      address := SearchFrom(baseAddr, base, pageNum);
    }

    /** The three upper entries, then the lowest-level table. */
    method SearchFrom(baseAddr: Word, base: Page, pageNum: nat) returns (address: Word)
      requires Valid() && IsPage(base) && Private(State(), base.l4) && 1 <= pageNum < ENTRIES
      requires baseAddr == PageNumber(base) * PAGE_SIZE && Search.Searchable(State(), cr3, base, pageNum)
      ensures address % PAGE_SIZE == 0 && Search.Found(State(), cr3, base, pageNum, address / PAGE_SIZE)
    {
      hide VmOk, AllocOk, CraftAddr, TableAt, Private, PageNumber, Search.Found, Search.Searchable, Search.EntryEmpty;
      ghost var s := State();
      BootRootInRam(s);
      RootTable(pmm.memory.frames, cr3, base);
      EntryAddressFits(base, 4);
      var entry := CraftAddr(RECURSIVE_SLOT, RECURSIVE_SLOT, RECURSIVE_SLOT, RECURSIVE_SLOT, base.l4 * 8);
      var e := LoadEntry(entry, base, 4);
      if e == 0 {
        Search.FoundAtBase(s, cr3, base, pageNum, 4);
        return baseAddr;
      }
      EntryAddressFits(base, 3);
      e := LoadEntry(CraftAddr(RECURSIVE_SLOT, RECURSIVE_SLOT, RECURSIVE_SLOT, base.l4, base.l3 * 8), base, 3);
      if e == 0 {
        Search.FoundAtBase(s, cr3, base, pageNum, 3);
        return baseAddr;
      }
      EntryAddressFits(base, 2);
      e := LoadEntry(CraftAddr(RECURSIVE_SLOT, RECURSIVE_SLOT, base.l4, base.l3, base.l2 * 8), base, 2);
      if e == 0 {
        Search.FoundAtBase(s, cr3, base, pageNum, 2);
        return baseAddr;
      }
      address := SearchTable(baseAddr, base, pageNum);
    }

    /** The innermost loop: its 9-bit cursor would wrap past the last entry, which a search that
        hits never reaches. */
    method SearchTable(baseAddr: Word, base: Page, pageNum: nat) returns (address: Word)
      requires Valid() && IsPage(base) && Private(State(), base.l4) && 1 <= pageNum < ENTRIES
      requires baseAddr == PageNumber(base) * PAGE_SIZE && TableAt(pmm.memory.frames, cr3, base, 1) >= 0
      requires Search.Searchable(State(), cr3, base, pageNum) && !Search.UpperEmpty(State(), cr3, base)
      ensures address % PAGE_SIZE == 0 && Search.Found(State(), cr3, base, pageNum, address / PAGE_SIZE)
    {
      hide VmOk, AllocOk, CraftAddr, TableAt, Private, PageNumber, Scanned, Search.UpperEmpty,
           Search.Found, Search.Searchable;
      ghost var ram, t: nat := pmm.memory.frames, TableAt(pmm.memory.frames, cr3, base, 1);
      ScanStarts(State(), cr3, base, pageNum);
      var plm1, tempPageNum: nat := base.l1, pageNum;
      while true
        invariant base.l1 <= plm1 < ENTRIES && tempPageNum <= pageNum
        invariant Scanned(ram, t, base.l1, pageNum, plm1, tempPageNum)
        decreases ENTRIES - plm1
      {
        ghost var v := base.(l1 := plm1);
        TableAtPrefix(ram, cr3, base, v, 1);
        EntryAddressFits(v, 1);
        var e := LoadEntry(CraftAddr(RECURSIVE_SLOT, base.l4, base.l3, base.l2, plm1 * 8), v, 1);
        ScanStep(ram, t, base.l1, pageNum, plm1, tempPageNum);
        if e == 0 {
          if tempPageNum == 0 {
            BootRootInRam(State());
            Search.FoundInTable(State(), cr3, base, pageNum, plm1 - pageNum);
            FoundAddress(base, baseAddr, plm1, pageNum);
            return baseAddr + (plm1 - base.l1) * PAGE_SIZE - (pageNum - 1) * PAGE_SIZE;
          }
          tempPageNum := tempPageNum - 1;
        } else {
          tempPageNum := pageNum;
        }
        plm1 := plm1 + 1;
      }
    }

    // -------------------------------------------------------------- kmunmap

    /** `free_frame(*entry); *entry = 0;` for an owned page. */
    method ClearEntry(entry: Word, ghost v: Page, ghost t: nat, ghost f: nat)
      requires Valid() && IsPage(v) && PageClearable(State(), cr3, v) && entry == EntryAddress(v, 1)
      requires t == TableAt(pmm.memory.frames, cr3, v, 1) && t < |pmm.memory.frames|
      requires f == pmm.memory.frames[t][v.l1] / PAGE_SIZE
      modifies pmm.memory, this`tree
      ensures Valid() && Cleared(old(State()), State(), t, v.l1, f)
    {
      hide EntryAddress, Designates, TableAt, VmOk, AllocOk, Private, Translate, Cleared, LeafChanged,
           Released, Written, ManagedSet, BitmapSet, TakenSet, Managed, BitmapFrame, Taken;
      ghost var s, a := State(), pmm.State();
      ClearableEntry(s, cr3, v);
      EntryReachable(s, cr3, v, 1);
      DownPrefix(v, 1);
      if Managed(a.regions, f) {
        ManagedInSet(a, f);
        FrameReleasable(a, s, f);
      }
      var e := Load(entry, t, v.l1);
      pmm.FreeFrame(e);
      ghost var b := pmm.State();
      FreeSpares(a, b, s, f);
      ghost var m := State();
      SameDesignation(s, b.ram, cr3, entry, t, v.l1);
      Store(entry, 0, t, v.l1);
      ghost var c := pmm.State();
      TableInRam(s, t);
      NotInBitmap(b, t);
      TableWriteKeepsBitmap(b, c, t);
      tree := tree - {f};
      ReleasedAndCleared(b, c, s, m, t, v.l1, f);
      ClearedIsLeafChange(s, State(), t, v.l1, f);
      LeafChangedOk(s, State(), t, v.l1);
    }

    /** `kmunmap` of a range whose whole pages lie in one lowest-level table: exactly the pages
        wholly inside the range are unmapped and their frames released. */
    method Kmunmap(addr: Word, size: Word, lower: bool)
      requires lower ==> size <= addr
      requires Valid() && UnmapOk(State(), cr3, if lower then addr - size else addr, size)
      modifies pmm.memory, this`tree
      ensures Valid() && UnmappedWhole(old(State()), State(), cr3, if lower then addr - size else addr, size)
    {
      hide UnmapOk, UnmappedWhole;
      UnmapFrom(if lower then addr - size else addr, size);
    }

    method UnmapFrom(start: Word, size: Word)
      requires Valid() && UnmapOk(State(), cr3, start, size)
      modifies pmm.memory, this`tree
      ensures Valid() && UnmappedWhole(old(State()), State(), cr3, start, size)
    {
      hide PageOf, OffsetOf, VmOk, AllocOk, UnmapOk, UnmappedWhole;
      var offsetL0 := OffsetOf(start);
      UnmapRest(State(), cr3, start, size);
      AddressInRange(start);
      var rest: Word := if offsetL0 != 0 then size - (PAGE_SIZE - offsetL0) else size;
      if !(rest <= PAGE_SIZE - 1 || rest <= offsetL0) {
        UnmapSome(start, size, rest);
      }
    }

    method UnmapSome(start: Word, size: Word, rest: Word)
      requires Valid() && UnmapOk(State(), cr3, start, size)
      requires rest == RestToUnmap(start, size) && PAGE_SIZE <= rest
      modifies pmm.memory, this`tree
      ensures Valid() && UnmappedWhole(old(State()), State(), cr3, start, size)
    {
      ghost var s, lo := State(), WholeFirst(FirstPage(start), OffsetOf(start));
      hide PageOf, OffsetOf, VmOk, AllocOk, UnmappedUpTo, RangeClearable, UnmapOk, UnmappedWhole, WholeFirst,
           FirstPage, RestToUnmap, WholeCount;
      var page, offsetL0 := PageOf(start), OffsetOf(start);
      AddressInRange(start);
      UnmapSomeOk(s, cr3, start, size);
      UnmappedNothing(s, cr3, lo);
      ghost var hi := lo + WholeCount(OffsetOf(start), size);
      UnmapL1(page.l4, page.l3, page.l2, page.l1, offsetL0, rest, s, lo, hi);
      UnmappedAll(s, State(), cr3, start, size, lo, hi);
    }

    /** The innermost loop of `kmunmap`. */
    method UnmapL1(l4: nat, l3: nat, l2: nat, l1: nat, l0: nat, size: Word,
                   ghost s: Vm, ghost lo: nat, ghost hi: nat)
      requires Valid() && VmOk(s) && IsRoot(s, cr3) && IsPage(Page(l4, l3, l2, l1)) && PAGE_SIZE <= size
      requires lo == WholeFirst(PageNumber(Page(l4, l3, l2, l1)), l0) && UnmappedUpTo(s, State(), cr3, lo, lo)
      requires l1 + (if l0 == 0 then 0 else 1) + size / PAGE_SIZE <= ENTRIES
      requires hi == lo + size / PAGE_SIZE && RangeClearable(s, cr3, lo, hi)
      modifies pmm.memory, this`tree
      ensures Valid() && UnmappedUpTo(s, State(), cr3, lo, hi)
    {
      hide VmOk, AllocOk, UnmappedUpTo, PageClearable, CraftAddr, IsRoot;
      var rest, offsetL1, offsetL0 := size, l1, l0;
      ghost var done: nat := 0;
      while true
        invariant Valid() && UnmappedUpTo(s, State(), cr3, lo, lo + done)
        invariant PAGE_SIZE <= rest == size - PAGE_SIZE * done
        invariant lo + done == WholeFirst(PageNumber(Page(l4, l3, l2, offsetL1)), offsetL0)
        invariant offsetL1 + (if offsetL0 == 0 then 0 else 1) + rest / PAGE_SIZE <= ENTRIES
        decreases ENTRIES - offsetL1
      {
        ghost var v := Page(l4, l3, l2, offsetL1);
        if offsetL0 == 0 {
          EntryAddressFits(v, 1);
          ClearPage(CraftAddr(RECURSIVE_SLOT, l4, l3, l2, offsetL1 * 8), v, s, lo);
          rest := rest - PAGE_SIZE;
          done := done + 1;
        }
        if rest < PAGE_SIZE {
          return;
        }
        offsetL0 := 0;
        offsetL1 := offsetL1 + 1;
      }
    }

    /** The page `kmunmap` is at is cleared. */
    method ClearPage(entry: Word, ghost v: Page, ghost s: Vm, ghost lo: nat)
      requires Valid() && IsPage(v) && VmOk(s) && IsRoot(s, cr3) && entry == EntryAddress(v, 1)
      requires lo <= PageNumber(v) && UnmappedUpTo(s, State(), cr3, lo, PageNumber(v)) && PageClearable(s, cr3, v)
      modifies pmm.memory, this`tree
      ensures Valid() && UnmappedUpTo(s, State(), cr3, lo, PageNumber(v) + 1)
    {
      hide EntryAddress, VmOk, AllocOk, UnmappedUpTo, PageClearable, Cleared, Translate, TableAt;
      ghost var m: Vm := State();
      StillClearable(s, m, cr3, lo, PageNumber(v), v);
      ClearableEntry(m, cr3, v);
      ghost var t: nat := TableAt(m.ram, cr3, v, 1);
      ghost var f := m.ram[t][v.l1] / PAGE_SIZE;
      ClearEntry(entry, v, t, f);
      UnmappedAfterPage(s, m, State(), cr3, lo, v, t, f);
    }

    /** How a loop over one table ended: the call is over, the core is halted, or the loop ran to
        the end of the table and the call goes on with page p. */
    ghost predicate Outcome(j: Job, status: Status, rest: int, next: Option<Word>, p: nat)
      reads this, pmm, pmm.memory
    {
      match status
      case Finished => Mapping(j, j.last + 1)
      case Halted => exists q: nat :: j.first <= q <= j.last && Mapping(j, q)
      case More => Mapping(j, p) && Cursor(j, p, 0, rest) && Target(j, p, next) && p > j.first
    }
  }

  /** Frame f has been taken and holds what the root held. */
  ghost predicate SpareCopy(a: Alloc, c: Alloc, f: nat, root: nat) {
    && AllocOk(a) && AllocOk(c) && f !in TakenSet(a) && TakenSet(c) == TakenSet(a) + {f}
    && f < |c.ram| && root < |a.ram| && c.ram[f] == a.ram[root]
  }

  /** The number of the page an address lies in. */
  function FirstPage(addr: Word): nat {
    PageNumber(PageOf(addr))
  }

  function NewJob(s: Vm, root: nat, addr: Word, size: Word, target: Option<nat>, low: nat): Job {
    Job(s, root, FirstPage(addr), LastPage(FirstPage(addr), OffsetOf(addr), size), OffsetOf(addr), size, target, low)
  }

  lemma JobStarts(s: Vm, root: nat, addr: Word, size: Word, target: Option<nat>, low: nat)
    requires VmOk(s) && IsRoot(s, root)
    requires RangeOk(s, FirstPage(addr), LastPage(FirstPage(addr), OffsetOf(addr), size))
    requires target.Some? ==>
               && OffsetOf(addr) == 0
               && TargetOk(s, target.value, FirstPage(addr), LastPage(FirstPage(addr), OffsetOf(addr), size))
    ensures var j := NewJob(s, root, addr, size, target, low);
      Frugal(j, s) &&
      JobOk(j) && Cursor(j, PageNumber(PageOf(addr)), OffsetOf(addr), size) && At(j, s, PageNumber(PageOf(addr)))
      && (target.Some? && target.value * PAGE_SIZE < WORD_LIMIT ==>
          Target(j, PageNumber(PageOf(addr)), Some(target.value * PAGE_SIZE)))
  {
    hide PageOf, OffsetOf, VmOk, RangeOk, MappedUpTo, WindowUpTo, TargetOk, Frugal;
    AddressInRange(addr);
    FrugalStart(NewJob(s, root, addr, size, target, low));
    MappedNothing(s, root, FirstPage(addr));
    if target.Some? {
      WindowNothing(s, root, FirstPage(addr), target.value);
    }
  }

  lemma FrugalByJob(j: Job, n: Vm)
    ensures Frugal(j, n) ==> EntriesHold(j.start, n, j.root, j.low) && TablesFor(j.start, n, j.first, j.last)
  {}

  lemma MappedByJob(j: Job, n: Vm)
    ensures forall p: nat :: At(j, n, p) <==>
      if j.target.None? then MappedUpTo(j.start, n, j.root, j.first, p)
      else WindowUpTo(j.start, n, j.root, j.first, p, j.target.value)
  {
  }

  lemma RootTable(ram: Ram, root: nat, v: Page)
    requires IsPage(v)
    ensures TableAt(ram, root, v, 4) == root
  {
  }

  datatype Status = Finished | Halted | More

  lemma JobPage(j: Job, v: Page)
    requires JobOk(j) && IsPage(v) && j.first <= PageNumber(v) <= j.last
    ensures Private(j.start, v.l4)
  {
    SlotOfPage(v);
  }

  lemma JobRange(j: Job)
    requires JobOk(j)
    ensures j.offset < PAGE_SIZE && j.last == LastPage(j.first, j.offset, j.size) && j.last < ALL_PAGES
  {
  }

  lemma EntryAddressFits(v: Page, level: nat)
    requires IsPage(v) && 1 <= level <= 4
    ensures EntryAddress(v, level) < WORD_LIMIT
  {
    hide CraftAddr, PageOf, OffsetOf, PageNumber;
    CraftAddrFields(WindowPage(v, level), 8 * Index(v, level));
  }

  /** What `kmunmap` needs of its caller. */
  ghost predicate UnmapOk(s: Vm, root: nat, start: Word, size: Word)
    requires VmOk(s)
  {
    var offset, lo := OffsetOf(start), WholeFirst(FirstPage(start), OffsetOf(start));
    && (offset != 0 ==> size >= PAGE_SIZE - offset)
    && PageOf(start).l1 + (if offset == 0 then 0 else 1) + WholeCount(offset, size) <= ENTRIES
    && RangeClearable(s, root, lo, lo + WholeCount(offset, size))
  }

  /** The pages wholly inside the range are unmapped. */
  ghost predicate UnmappedWhole(s: Vm, n: Vm, root: nat, start: Word, size: Word) {
    var lo := WholeFirst(FirstPage(start), OffsetOf(start));
    UnmappedUpTo(s, n, root, lo, lo + WholeCount(OffsetOf(start), size))
  }

  /** What is left of the size past an unaligned first page. */
  function RestToUnmap(start: Word, size: Word): int {
    if OffsetOf(start) != 0 then size - (PAGE_SIZE - OffsetOf(start)) else size
  }

  lemma UnmapRest(s: Vm, root: nat, start: Word, size: Word)
    requires VmOk(s) && UnmapOk(s, root, start, size)
    ensures RestToUnmap(start, size) >= 0
    ensures RestToUnmap(start, size) <= PAGE_SIZE - 1 || RestToUnmap(start, size) <= OffsetOf(start) ==>
            UnmappedWhole(s, s, root, start, size)
  {
    hide PageOf, VmOk, RangeClearable;
    AddressInRange(start);
    UnmappedNothing(s, root, WholeFirst(FirstPage(start), OffsetOf(start)));
    hide OffsetOf;
  }

  lemma UnmapSomeOk(s: Vm, root: nat, start: Word, size: Word)
    requires VmOk(s) && UnmapOk(s, root, start, size) && RestToUnmap(start, size) >= PAGE_SIZE
    ensures var offset := OffsetOf(start);
      var lo, n := WholeFirst(FirstPage(start), offset), RestToUnmap(start, size) / PAGE_SIZE;
      && PageOf(start).l1 + (if offset == 0 then 0 else 1) + n <= ENTRIES
      && lo == WholeFirst(PageNumber(PageOf(start)), offset) && n == WholeCount(offset, size)
      && RangeClearable(s, root, lo, lo + WholeCount(offset, size))
  {
    hide PageOf, VmOk, RangeClearable, OffsetOf;
  }

  lemma UnmappedAll(s: Vm, n: Vm, root: nat, start: Word, size: Word, lo: nat, hi: nat)
    requires lo == WholeFirst(FirstPage(start), OffsetOf(start)) && hi == lo + WholeCount(OffsetOf(start), size)
    requires UnmappedUpTo(s, n, root, lo, hi)
    ensures UnmappedWhole(s, n, root, start, size)
  {
  }

  lemma BootRootInRam(s: Vm)
    requires VmOk(s)
    ensures s.env.bootRoot < |s.ram| <= WINDOW_SIZE / PAGE_SIZE
    ensures s.env.bootRoot !in s.env.managed && s.env.bootRoot !in s.env.bitmap
  {
  }

  lemma FrameBelowWindow(b: Alloc, m: Vm, f: nat)
    requires AllocOk(b) && m == Over(b, m.tree, m.env.bootRoot, m.env.boot) && VmOk(m)
    requires f in m.env.managed && f !in m.env.bitmap
    ensures f < |b.ram| && f * PAGE_SIZE + PAGE_SIZE < WINDOW_SIZE && !BitmapFrame(b, f) && f != m.env.bootRoot
  {
    ManagedBelow(b.regions, |b.ram|, f);
    NotInBitmap(b, f);
  }

  /** The frame of a new directory, before and after it is filled. */
  lemma CreatedFromFill(b: Alloc, c: Alloc, s: Vm, r: nat)
    requires AllocOk(b) && AllocOk(c) && TakenSet(c) == TakenSet(b)
    requires ManagedSet(c) == ManagedSet(b) && BitmapSet(c) == BitmapSet(b) && |c.ram| == |b.ram|
    requires s.env.bootRoot < |s.ram| && r < |s.ram|
    requires var m := Over(b, s.tree, s.env.bootRoot, s.env.boot);
      m.env == s.env && |m.ram| == |s.ram| && m.taken == s.taken + {r}
    requires forall g: nat | g < |s.ram| && g != r && g !in s.env.bitmap :: b.ram[g] == s.ram[g]
    requires forall g: nat | g < |c.ram| && g != r :: c.ram[g] == b.ram[g]
    requires r in s.env.managed && r !in s.taken && r !in s.env.bitmap
    requires s.env.bootRoot != r && s.env.bootRoot !in s.env.bitmap
    requires SelfReferencing(c.ram, r) && c.ram[r][RECURSIVE_SLOT] % PAGE_SIZE == 7 && c.ram[r][0] == 0
    requires forall k | 0 < k < ENTRIES && k != RECURSIVE_SLOT :: c.ram[r][k] == c.ram[s.env.bootRoot][k]
    ensures Created(s, Over(c, s.tree[r := Node(r, 4, Page(0, 0, 0, 0))], s.env.bootRoot, s.env.boot), r)
  {
    hide AllocOk, TakenSet, ManagedSet, BitmapSet, SelfReferencing;
  }

  /** Writing to a frame that is no table. */
  lemma SpareFrameWritten(m: Vm, n: Vm, f: nat)
    requires VmOk(m) && n == m.(ram := n.ram) && |n.ram| == |m.ram|
    requires f in m.env.managed && f !in m.tree
    requires forall g: nat | g < |m.ram| && g != f :: n.ram[g] == m.ram[g]
    ensures SameTables(m, n) && VmOk(n)
  {
    SameTablesOk(m, n);
  }

  const ADDRESS_LIMIT: int := 0x1_0000_0000_0000

  /** `size` in pages, rounded up. */
  function PagesFor(size: Word): nat {
    (size + PAGE_SIZE - 1) / PAGE_SIZE
  }

  lemma RoundedUp(size: Word)
    ensures PagesFor(size) == if size % PAGE_SIZE != 0 then size / PAGE_SIZE + 1 else size / PAGE_SIZE
  {
  }

  /** In the 48-bit space the page number and offset of an address are quotient and remainder. */
  lemma AddressPage(addr: Word)
    requires addr < ADDRESS_LIMIT
    ensures IsPage(PageOf(addr)) && PageNumber(PageOf(addr)) == addr / PAGE_SIZE && OffsetOf(addr) == addr % PAGE_SIZE
  {
    hide PageOf, OffsetOf;
    AddressFields(addr);
    var n := addr / PAGE_SIZE;
    assert n / 0x200 / 0x200 / 0x200 == addr / 0x80_0000_0000 < 0x200;
    assert addr / 0x4000_0000 == n / 0x200 / 0x200 && addr / 0x20_0000 == n / 0x200;
  }

  lemma BaseAddress(addr: Word)
    requires addr < ADDRESS_LIMIT && OffsetOf(addr) == 0
    ensures addr == PageNumber(PageOf(addr)) * PAGE_SIZE
  {
    hide PageOf, OffsetOf, PageNumber;
    AddressPage(addr);
  }

  lemma EntryPresent(s: Vm, t: nat, k: nat, root: nat, v: Page, level: nat)
    requires VmOk(s) && IsRoot(s, root) && IsPage(v) && 1 <= level <= 4 && Private(s, v.l4)
    requires t == TableAt(s.ram, root, v, level) && t < |s.ram| && k == Index(v, level)
    ensures level > 1 && s.ram[t][k] != 0 ==> TableAt(s.ram, root, v, level - 1) >= 0
  {
    TableAtIsNode(s, root, v, level);
    assert NodeOk(s, t) && EntryOk(s, t, k);
  }

  /** Entries `from` to i - 1 have been scanned without a hit; n - left empty ones, at most all of
      them, lie right before i. */
  ghost predicate Scanned(ram: Ram, t: nat, from: nat, n: nat, i: nat, left: nat)
    requires t < |ram|
  {
    && from <= i < ENTRIES && left <= n && n - left <= i - from
    && Search.Empty(ram, t, i - (n - left), i)
    && (i - (n - left) > from ==> ram[t][i - (n - left) - 1] != 0)
    && (forall b | from <= b && b + n < i :: !Search.RunAt(ram, t, b, n))
    && (exists a: nat :: from <= a && Search.RunAt(ram, t, a, n))
  }

  /** The address returned for the run that ends at entry i. */
  lemma FoundAddress(base: Page, baseAddr: Word, i: nat, n: nat)
    requires IsPage(base) && baseAddr == PageNumber(base) * PAGE_SIZE
    requires base.l1 + n <= i < ENTRIES && 1 <= n
    ensures var r := baseAddr + (i - base.l1) * PAGE_SIZE - (n - 1) * PAGE_SIZE;
      && 0 <= r < WORD_LIMIT && r % PAGE_SIZE == 0
      && r / PAGE_SIZE == PageNumber(base.(l1 := 0)) + (i - n) + 1
  {
    var p := PageNumber(base.(l1 := 0));
    assert PageNumber(base) == p + base.l1 && p < ALL_PAGES;
    var q := p + (i - n) + 1;
    assert baseAddr + (i - base.l1) * PAGE_SIZE - (n - 1) * PAGE_SIZE == q * PAGE_SIZE;
  }

  lemma ScanStarts(s: Vm, root: nat, base: Page, n: nat)
    requires IsPage(base) && Search.Searchable(s, root, base, n) && !Search.UpperEmpty(s, root, base)
    ensures 0 <= TableAt(s.ram, root, base, 1) < |s.ram|
    ensures Scanned(s.ram, TableAt(s.ram, root, base, 1), base.l1, n, base.l1, n)
  {}

  lemma RunIsEmpty(ram: Ram, t: nat, b: nat, n: nat, j: int)
    requires t < |ram|
    ensures Search.RunAt(ram, t, b, n) && b <= j <= b + n ==> ram[t][j] == 0
    ensures Search.RunAt(ram, t, b, n) ==> ram[t][b + n] == 0
  {}

  /** The entry after n empty ones ends the first run; without a hit no run ends at entry i, so one
      still lies ahead. */
  lemma ScanStep(ram: Ram, t: nat, from: nat, n: nat, i: nat, left: nat)
    requires t < |ram| && Scanned(ram, t, from, n, i, left)
    ensures ram[t][i] == 0 && left == 0 ==> from + n <= i && Search.FirstRun(ram, t, from, n, i - n)
    ensures ram[t][i] == 0 && left > 0 ==> Scanned(ram, t, from, n, i + 1, left - 1)
    ensures ram[t][i] != 0 ==> Scanned(ram, t, from, n, i + 1, n)
  {
    if !(ram[t][i] == 0 && left == 0) {
      forall b | from <= b && b + n < i + 1 ensures !Search.RunAt(ram, t, b, n) {
        RunIsEmpty(ram, t, b, n, i - (n - left) - 1);
      }
      var a: nat :| from <= a && Search.RunAt(ram, t, a, n);
    }
  }

  lemma FrameReleasable(a: Alloc, s: Vm, f: nat)
    requires AllocOk(a) && a.bitmapSet && s == Over(a, s.tree, s.env.bootRoot, s.env.boot) && VmOk(s)
    requires f in s.tree
    ensures Managed(a.regions, f) && Taken(a, f) && !BitmapFrame(a, f)
  {
    assert NodeOk(s, f);
    assert f in TakenSet(a);
    NotInBitmap(a, f);
  }

  lemma SameDesignation(s: Vm, ram: Ram, cr3: nat, va: Word, t: nat, k: nat)
    requires |ram| == |s.ram| && IsRoot(s, cr3) && Designates(s.ram, cr3, va, t, k)
    requires forall r: nat, v | IsRoot(s, r) && IsPage(v) :: Translate(ram, r, v) == Translate(s.ram, r, v)
    ensures Designates(ram, cr3, va, t, k)
  {
    hide Translate, PageOf, OffsetOf;
  }

  lemma TableInRam(s: Vm, t: nat)
    requires VmOk(s) && IsTable(s, t)
    ensures t < |s.ram| && t in s.taken && t !in s.env.bitmap && 1 <= s.tree[t].level <= 4
  {
    assert NodeOk(s, t);
  }
}
