/** The memory part of the boot sequence: from the bootloader's memory map to the first directory
    in use. */
module Boot {
  import opened Bits
  import opened Memory
  import opened Regions
  import opened FrameState
  import opened Pmm
  import opened Paging
  import opened AddressSpace
  import opened Mapping
  import opened Directory
  import opened Vmm

  const CONTEXT_ADDRESS: Word := 0x7FFF_FFFF_F000

  /** The address spaces before any exists. */
  ghost function AtBoot(a: Alloc, bootRoot: nat, boot: map<nat, nat>): Vm {
    Vm(a.ram, {}, map[], Env(ManagedSet(a), {}, bootRoot, boot))
  }

  /** What the kernel needs of the memory map: usable regions it can manage, the first of them
      large enough for the bitmap. */
  ghost predicate MapOk(entries: seq<MapEntry>, size: nat) {
    var rs := UsableRegions(entries);
    && size <= WINDOW_SIZE / PAGE_SIZE && RegionsOk(rs, size)
    && rs != [] && Total(rs) / PAGE_SIZE + 1 <= Count(rs[0]) - 1
  }

  /** Allocations before the bitmap exists leave the bootloader's tables alone. */
  lemma BootTablesKept(a: Alloc, b: Alloc, bootRoot: nat, boot: map<nat, nat>)
    requires AllocOk(b) && EnvOk(AtBoot(a, bootRoot, boot)) && a.regions == b.regions && |a.ram| == |b.ram|
    requires forall f: nat | f < |a.ram| && !Managed(a.regions, f) :: b.ram[f] == a.ram[f]
    ensures VmOk(Over(b, map[], bootRoot, boot))
  {
    var s, n := AtBoot(a, bootRoot, boot), Over(b, map[], bootRoot, boot);
    assert ManagedSet(a) == ManagedSet(b);
    assert n.env.bitmap <= n.taken <= n.env.managed by {
      forall f | f in n.env.bitmap ensures f in n.taken {
        assert Taken(b, f);
      }
    }
    forall f | f in boot ensures BootEntriesOk(n, f) {
      assert BootEntriesOk(s, f);
    }
  }

  class Kernel {
    const pmm: FrameAllocator
    const tables: PageTables

    constructor (pmm: FrameAllocator, tables: PageTables)
      ensures this.pmm == pmm && this.tables == tables
    {
      this.pmm, this.tables := pmm, tables;
    }

    /** The allocator from the memory map to the bitmap: one frame, then nframes / 4096 more, hold
        the bitmap. */
    method BootAllocator(entries: seq<MapEntry>)
      requires pmm.available == [] && !pmm.isBitmapSet
      requires pmm.withoutBitmap == pmm.withoutBitmapInRegion == pmm.prevI == 0
      requires MapOk(entries, |pmm.memory.frames|)
      modifies pmm, pmm.memory
      ensures pmm.Valid() && pmm.isBitmapSet && pmm.available == UsableRegions(entries)
      ensures |pmm.memory.frames| == |old(pmm.memory.frames)|
      ensures forall f: nat | f < |pmm.memory.frames| && !Managed(pmm.available, f) ::
                pmm.memory.frames[f] == old(pmm.memory.frames[f])
      // exactly the frames of the bitmap are taken, so one is left if there are as many as bits in a word
      ensures forall f: nat :: Taken(pmm.State(), f) <==> BitmapFrame(pmm.State(), f)
      ensures pmm.Exhausted() <==> pmm.nframes < 64
    {
      hide Taken, BitmapFrame, AllocOk, Managed, Switched, Total, UsableRegions, RegionsOk, AllUsedBelow;
      pmm.SetMemoryMap(entries);
      var size := pmm.GetSizeInBits();
      var first := ReserveBitmap(size);
      ghost var reserved := pmm.State();
      BitmapReserved(reserved);
      pmm.InitPmm(PhysicalToWindow(first));
      BitmapIsTaken(reserved, pmm.State());
      SwitchSpares(reserved, pmm.State());
      FreeAfterBoot(pmm.State());
    }

    /** The reservation loop: the frames come one after the other from the first region. */
    method ReserveBitmap(size: nat) returns (first: Word)
      requires pmm.Valid() && !pmm.isBitmapSet && pmm.available != [] && size == pmm.nframes
      requires pmm.withoutBitmap == pmm.withoutBitmapInRegion == pmm.prevI == 0
      requires size / PAGE_SIZE + 1 <= Count(pmm.available[0]) - 1
      modifies pmm`withoutBitmap, pmm`withoutBitmapInRegion, pmm`prevI, pmm.memory
      ensures pmm.Valid() && |pmm.memory.frames| == |old(pmm.memory.frames)|
      ensures first == First(pmm.available[0]) * PAGE_SIZE && first + PAGE_SIZE < WINDOW_SIZE
      ensures pmm.prevI == 0 && pmm.withoutBitmap == pmm.withoutBitmapInRegion == size / PAGE_SIZE + 1
      ensures forall f: nat | f < |pmm.memory.frames| && !Managed(pmm.available, f) ::
                pmm.memory.frames[f] == old(pmm.memory.frames[f])
    {
      hide GotFrame, TakesLeast, AllUsedBelow, Managed;
      ghost var rs, ram := pmm.available, pmm.memory.frames;
      ghost var s0 := pmm.State();
      var frame := pmm.GetFrame();
      GotSpares(s0, pmm.State(), frame.value / PAGE_SIZE);
      TotalInFirst(pmm.State());
      first := frame.value;
      var i := 0;
      while i < size / PAGE_SIZE
        invariant i <= size / PAGE_SIZE && pmm.Valid() && |pmm.memory.frames| == |ram|
        invariant pmm.prevI == 0 && pmm.withoutBitmapInRegion == i + 1
        invariant forall f: nat | f < |ram| && !Managed(rs, f) :: pmm.memory.frames[f] == ram[f]
      {
        ghost var s := pmm.State();
        var next := pmm.GetFrame();
        GotSpares(s, pmm.State(), next.value / PAGE_SIZE);
        i := i + 1;
      }
      TotalInFirst(pmm.State());
      FirstBelowWindow(rs, |ram|);
    }

    /** The memory steps of `bootstrap_arch`.  The directory in use at entry is the bootloader's. */
    method BootMemory(entries: seq<MapEntry>) returns (halted: bool)
      requires tables.pmm == pmm && tables.tree == map[] && !tables.kmmapLock
      requires pmm.available == [] && !pmm.isBitmapSet
      requires pmm.withoutBitmap == pmm.withoutBitmapInRegion == pmm.prevI == 0
      requires MapOk(entries, |pmm.memory.frames|)
      requires EnvOk(AtBoot(pmm.State().(regions := UsableRegions(entries)), tables.cr3, tables.boot))
      requires pmm.memory.frames[tables.cr3][PageOf(CONTEXT_ADDRESS).l4] == 0
      modifies pmm, pmm.memory, tables
      ensures halted ==> pmm.Exhausted()
      ensures !halted ==> tables.Valid() && !tables.kmmapLock
      ensures !halted ==> SelfReferencing(pmm.memory.frames, tables.cr3)
      ensures !halted ==> ContextPresent(pmm.memory.frames, tables.cr3)
    {
      hide PageOf, AllocOk, Managed, EnvOk, VmOk, Taken, BitmapFrame, MapOk;
      ghost var a0 := pmm.State().(regions := UsableRegions(entries));
      AddressInRange(CONTEXT_ADDRESS);
      BootAllocator(entries);
      BootTablesKept(a0, pmm.State(), tables.cr3, tables.boot);
      BootRootKept(a0, pmm.State(), tables.cr3, tables.boot);
      halted := tables.InitVmm();
      if halted {
        return;
      }
      ContextSlotPrivate(tables.State());
      halted := FirstDirectory();
    }

    method FirstDirectory() returns (halted: bool)
      requires tables.pmm == pmm && tables.Ready() && !tables.kmmapLock
      requires Private(tables.State(), PageOf(CONTEXT_ADDRESS).l4)
      modifies pmm, pmm.memory, tables
      ensures halted ==> pmm.Exhausted()
      ensures !halted ==> tables.Valid() && !tables.kmmapLock
      ensures !halted ==> SelfReferencing(pmm.memory.frames, tables.cr3)
      ensures !halted ==> ContextPresent(pmm.memory.frames, tables.cr3)
    {
      hide VmOk, AllocOk, PageOf, OffsetOf, MappedUpTo, Private, RangeOk, FirstPage, LastPage, Created, FlagsOk,
           ContextPresent, EntriesHold, TablesFor, Translate;
      ghost var s := tables.State();
      var pmap := tables.CreatePageDirectory();
      if pmap.None? {
        return true;
      }
      tables.cr3 := pmap.value / PAGE_SIZE;
      ghost var n := tables.State();
      CreatedRoot(s, n, tables.cr3);
      ContextRange(n);
      ContextFaults(s, n, tables.cr3);
      halted := tables.Kmmap(CONTEXT_ADDRESS, 512, 2);
      if !halted {
        ContextMapped(n, tables.State(), tables.cr3);
      }
    }
  }

  /** The page of the context frame is mapped, present and writable (bits 0 and 1). */
  ghost predicate ContextPresent(ram: Ram, root: nat) {
    && IsPage(PageOf(CONTEXT_ADDRESS)) && Translate(ram, root, PageOf(CONTEXT_ADDRESS)).Mapped?
    && EntryOf(ram, root, PageOf(CONTEXT_ADDRESS), 1) % 4096 == 3
  }

  lemma BootRootKept(a: Alloc, b: Alloc, bootRoot: nat, boot: map<nat, nat>)
    requires EnvOk(AtBoot(a, bootRoot, boot)) && a.regions == b.regions && |a.ram| == |b.ram|
    requires forall f: nat | f < |a.ram| && !Managed(a.regions, f) :: b.ram[f] == a.ram[f]
    ensures bootRoot < |b.ram| && b.ram[bootRoot] == a.ram[bootRoot]
  {
    assert bootRoot !in ManagedSet(a);
  }

  /** 0x7FFFFFFFF000 lies under slot 255. */
  lemma ContextSlotPrivate(s: Vm)
    requires s.env.bootRoot < |s.ram| && PageOf(CONTEXT_ADDRESS).l4 < ENTRIES
    requires s.ram[s.env.bootRoot][PageOf(CONTEXT_ADDRESS).l4] == 0
    ensures Private(s, PageOf(CONTEXT_ADDRESS).l4)
  {
    hide PageOf, OffsetOf;
    AddressFields(CONTEXT_ADDRESS);
  }

  lemma GotSpares(a: Alloc, b: Alloc, f: nat)
    requires GotFrame(a, b, f) && !a.bitmapSet
    ensures |a.ram| == |b.ram|
    ensures forall g: nat | g < |a.ram| && !Managed(a.regions, g) :: b.ram[g] == a.ram[g]
  {
  }

  lemma TotalInFirst(a: Alloc)
    requires AllocOk(a) && !a.bitmapSet && a.prev == 0
    ensures a.total == a.count
  {
  }

  lemma FirstBelowWindow(rs: seq<Region>, size: nat)
    requires RegionsOk(rs, size) && rs != []
    ensures First(rs[0]) * PAGE_SIZE + PAGE_SIZE < WINDOW_SIZE || Count(rs[0]) == 0
    ensures Count(rs[0]) > 1 ==> First(rs[0]) * PAGE_SIZE + PAGE_SIZE < WINDOW_SIZE
  {
    assert RegionOk(rs[0], size);
  }

  /** The reserved frames cover the bitmap. */
  lemma BitmapReserved(a: Alloc)
    requires AllocOk(a) && !a.bitmapSet && a.regions != [] && a.prev == 0
    requires a.count == a.nframes / PAGE_SIZE + 1 <= Count(a.regions[0]) - 1
    ensures forall f: nat | 0 <= f - First(a.regions[0]) <= a.nframes / PAGE_SIZE :: Taken(a, f)
  {
    forall f: nat | 0 <= f - First(a.regions[0]) <= a.nframes / PAGE_SIZE ensures Taken(a, f) {
      assert AmongFirst(a.regions[0], BumpCount(a.regions, 0, a.count, 0), f);
      assert InRegion(a.regions[0], f);
    }
  }

  /** The switch writes to the bitmap only, and that lies in the regions. */
  lemma SwitchSpares(a: Alloc, b: Alloc)
    requires Switched(a, b)
    ensures |b.ram| == |a.ram|
    ensures forall f: nat | f < |a.ram| && !Managed(a.regions, f) :: b.ram[f] == a.ram[f]
  {
    forall f: nat | f < |a.ram| && !Managed(a.regions, f) ensures b.ram[f] == a.ram[f] {
      assert BitmapFrame(b, f) ==> Taken(b, f);
    }
  }

  /** With only the bitmap's frames taken, an index of a complete word is free unless there is no
      complete word: that of the frame after the bitmap. */
  lemma FreeAfterBoot(a: Alloc)
    requires AllocOk(a) && a.bitmapSet && forall f: nat :: Taken(a, f) <==> BitmapFrame(a, f)
    requires a.regions != [] && a.bitmap == First(a.regions[0]) && a.nframes / PAGE_SIZE + 1 < Count(a.regions[0])
    ensures AllUsedBelow(a, 64 * (a.nframes / 64)) <==> a.nframes < 64
  {
    var i := a.nframes / PAGE_SIZE + 1;
    assert FrameAt(a.regions, i) == First(a.regions[0]) + i;
    assert i < Total(a.regions);
    IndexOfFrameAt(a.regions, |a.ram|, i);
    assert !BitmapFrame(a, FrameAt(a.regions, i));
    assert !Used(a, i) && (a.nframes >= 64 ==> i < 64 * (a.nframes / 64));
  }

  /** After the switch exactly the reserved frames are taken. */
  lemma BitmapIsTaken(a: Alloc, b: Alloc)
    requires Switched(a, b) && a.regions != [] && a.prev == 0 && a.count == a.nframes / PAGE_SIZE + 1
    requires b.bitmap == First(a.regions[0])
    ensures forall f: nat :: Taken(b, f) <==> BitmapFrame(b, f)
  {
    forall f: nat ensures Taken(b, f) <==> BitmapFrame(b, f) {
      if BumpTaken(a.regions, 0, a.count, f) {
        var j :| 0 <= j < |a.regions| && AmongFirst(a.regions[j], BumpCount(a.regions, 0, a.count, j), f);
        assert j == 0;
      }
      if BitmapFrame(b, f) {
        assert AmongFirst(a.regions[0], BumpCount(a.regions, 0, a.count, 0), f);
      }
      assert f in TakenSet(a) <==> f in TakenSet(b);
      if Managed(a.regions, f) {
        ManagedBelow(a.regions, |a.ram|, f);
      }
    }
  }

  lemma CreatedRoot(s: Vm, n: Vm, r: nat)
    requires VmOk(s) && Created(s, n, r)
    ensures IsRoot(n, r) && forall k: nat :: Private(n, k) == Private(s, k)
  {
    CreatedFrames(s, n, r);
  }

  lemma ContextFaults(s: Vm, n: Vm, r: nat)
    requires VmOk(s) && Created(s, n, r) && Private(s, PageOf(CONTEXT_ADDRESS).l4)
    ensures IsPage(PageOf(CONTEXT_ADDRESS)) && Translate(n.ram, r, PageOf(CONTEXT_ADDRESS)) == Fault
  {
    hide PageOf, Created, Translate, VmOk;
    AddressInRange(CONTEXT_ADDRESS);
    CreatedTranslates(s, n, r, PageOf(CONTEXT_ADDRESS));
  }

  lemma ContextRange(s: Vm)
    requires VmOk(s) && Private(s, PageOf(CONTEXT_ADDRESS).l4)
    ensures LastPage(FirstPage(CONTEXT_ADDRESS), OffsetOf(CONTEXT_ADDRESS), 512) == FirstPage(CONTEXT_ADDRESS)
    ensures RangeOk(s, FirstPage(CONTEXT_ADDRESS), FirstPage(CONTEXT_ADDRESS)) && IsPage(PageOf(CONTEXT_ADDRESS))
    ensures FlagsOk(2)
  {
    hide PageOf, OffsetOf, Private;
    AddressFields(CONTEXT_ADDRESS);
    SlotOfPage(PageOf(CONTEXT_ADDRESS));
  }

  lemma ContextMapped(s: Vm, n: Vm, root: nat)
    requires VmOk(s) && Private(s, PageOf(CONTEXT_ADDRESS).l4) && IsRoot(s, root)
    requires MappedUpTo(s, n, root, FirstPage(CONTEXT_ADDRESS), FirstPage(CONTEXT_ADDRESS) + 1) && IsRoot(n, root)
    requires IsPage(PageOf(CONTEXT_ADDRESS)) && Translate(s.ram, root, PageOf(CONTEXT_ADDRESS)) == Fault
    requires EntriesHold(s, n, root, LowBits(2))
    ensures ContextPresent(n.ram, root) && SelfReferencing(n.ram, root)
  {
    hide PageOf;
    MappedSameSlots(s, n, root, FirstPage(CONTEXT_ADDRESS), FirstPage(CONTEXT_ADDRESS) + 1);
    assert PageMapped(s, n, root, FirstPage(CONTEXT_ADDRESS), FirstPage(CONTEXT_ADDRESS) + 1, PageOf(CONTEXT_ADDRESS));
    NewLeafHolds(s, n, root, 3, PageOf(CONTEXT_ADDRESS));
    assert NodeOk(n, root) && EntryOk(n, root, RECURSIVE_SLOT);
  }

  /** The premises of the boot sequence can be met, with frames to spare once the bitmap is there:
      128 usable frames, and an empty root table in the frame after them. */
  lemma SmallMachine() returns (entries: seq<MapEntry>, a: Alloc, root: nat)
    ensures MapOk(entries, |a.ram|) && a.regions == UsableRegions(entries) && root < |a.ram|
    ensures Total(a.regions) >= 64
    ensures EnvOk(AtBoot(a, root, map[]))
    ensures forall k | 0 <= k < ENTRIES :: a.ram[root][k] == 0
  {
    var zero: Frame := seq(FRAME_WORDS, _ => 0);
    entries, root := [MapEntry(0, 128 * PAGE_SIZE, USABLE)], 128;
    var region := Region(0, 128 * PAGE_SIZE);
    a := Alloc(seq(129, _ => zero), [region], 128, false, 0, 0, 0, 0);
    OneRegion(entries, region);
    forall f | f in ManagedSet(a) ensures f < 128 {
      assert Managed(a.regions, f);
    }
  }

  lemma OneRegion(entries: seq<MapEntry>, region: Region)
    requires entries == [MapEntry(region.base, region.length, USABLE)]
    ensures UsableRegions(entries) == [region] && Total([region]) == Count(region)
  {
    UsableIsTypeOne(entries[0]);
    assert entries[..0] == [];
  }
}
