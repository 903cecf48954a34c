/** The range allocator: finds unmapped pages in the directory in use and maps them. */
module VmmWrapper {
  import opened Bits
  import opened Memory
  import opened Paging
  import opened AddressSpace
  import opened Mapping
  import opened Unmapping
  import opened Vmm
  import Search

  const MAP_EXECUTE: int := 16

  /** One `if (flags & generic) to_return |= (1ull << n);`. */
  function Convert(flags: Word, generic: Word, n: nat, r: nat): nat {
    if And(flags, generic) != 0 then Or(r, Pow2(n)) else r
  }

  /** `convert_to_arch_flags`. */
  function ConvertToArchFlags(flags: Word): nat {
    var present := Convert(flags, 1, 0, 0);
    var writable := Convert(flags, 2, 1, present);
    var user := Convert(flags, 4, 2, writable);
    var copyOnWrite := Convert(flags, 8, 9, user);
    var executable := Convert(flags, MAP_EXECUTE, 63, copyOnWrite);
    Convert(flags, 32, 10, executable)
  }

  /** Setting a bit above all bits of r adds it. */
  lemma ConvertAdds(flags: Word, generic: Word, n: nat, r: nat)
    requires r < Pow2(n)
    ensures Convert(flags, generic, n, r) == if And(flags, generic) != 0 then r + Pow2(n) else r
  {
    hide Or, And;
    OrCommutes(r, Pow2(n));
    OrIsSum(1, r, n);
  }

  /** Setting bit 10 of a word whose only bit above it is bit 63. */
  lemma ConvertBelow(flags: Word, generic: Word, r: nat)
    requires r < Pow2(10)
    ensures Convert(flags, generic, 10, r + Pow2(63)) == Convert(flags, generic, 10, r) + Pow2(63)
  {
    hide And, Or;
    PowersUsed();
    if And(flags, generic) != 0 {
      OrCommutes(r, Pow2(10));
      OrIsSum(1, r, 10);
      var high := Pow2(53);
      ScaleShift(1, 53, 10);
      OrScaled(high, 1, r, 10);
      assert high % 2 == 0;
      OrOne(high);
      ScaleAdds(high, 1, 10);
    }
  }

  lemma PowersUsed()
    ensures Pow2(0) == 1 && Pow2(1) == 2 && Pow2(2) == 4 && Pow2(10) == 0x400
    ensures Pow2(63) == 0x8000_0000_0000_0000
  {
    Pow2Values();
    assert Pow2(64) == 2 * Pow2(63);
  }

  /** Without the execute flag, whose no-execute bit lies above the address, the converted flags
      can be or-ed into an entry; with it they cannot. */
  lemma ConvertedFlags(flags: Word)
    ensures ConvertToArchFlags(flags) < WORD_LIMIT
    ensures And(flags, MAP_EXECUTE) == 0 <==> FlagsOk(ConvertToArchFlags(flags))
  {
    hide Or, And, Pow2, Convert;
    Pow2Values();
    PowersUsed();
    ConvertAdds(flags, 1, 0, 0);
    var present := Convert(flags, 1, 0, 0);
    ConvertAdds(flags, 2, 1, present);
    var writable := Convert(flags, 2, 1, present);
    ConvertAdds(flags, 4, 2, writable);
    var user := Convert(flags, 4, 2, writable);
    ConvertAdds(flags, 8, 9, user);
    var copyOnWrite := Convert(flags, 8, 9, user);
    ConvertAdds(flags, MAP_EXECUTE, 63, copyOnWrite);
    ConvertAdds(flags, 32, 10, copyOnWrite);
    ConvertBelow(flags, 32, copyOnWrite);
    ConvertedLarge(user, copyOnWrite, Convert(flags, 32, 10, copyOnWrite));
  }

  /** A converted flag word has the bits of the given flags, and no other: present 0, write 1,
      user 2, copy on write 9, swapped 10, no-execute 63. */
  lemma ConvertedBits(flags: Word, k: nat)
    ensures Bit(ConvertToArchFlags(flags), k) <==>
      || (k == 0 && Bit(flags, 0)) || (k == 1 && Bit(flags, 1)) || (k == 2 && Bit(flags, 2))
      || (k == 9 && Bit(flags, 3)) || (k == 63 && Bit(flags, 4)) || (k == 10 && Bit(flags, 5))
  {
    hide Convert, Bit;
    SmallPowers();
    BitOfZero(k);
    var present := Convert(flags, 1, 0, 0);
    var writable := Convert(flags, 2, 1, present);
    var user := Convert(flags, 4, 2, writable);
    var copyOnWrite := Convert(flags, 8, 9, user);
    var executable := Convert(flags, 16, 63, copyOnWrite);
    ConvertBit(flags, 0, 0, 0, k);
    ConvertBit(flags, 1, 1, present, k);
    ConvertBit(flags, 2, 2, writable, k);
    ConvertBit(flags, 3, 9, user, k);
    ConvertBit(flags, 4, 63, copyOnWrite, k);
    ConvertBit(flags, 5, 10, executable, k);
  }

  lemma SmallPowers()
    ensures Pow2(0) == 1 && Pow2(1) == 2 && Pow2(2) == 4 && Pow2(3) == 8 && Pow2(4) == 16 && Pow2(5) == 32
  {}

  lemma ConvertBit(flags: Word, i: nat, n: nat, r: nat, k: nat)
    requires Pow2(i) < WORD_LIMIT
    ensures Bit(Convert(flags, Pow2(i), n, r), k) <==> Bit(r, k) || (k == n && Bit(flags, i))
  {
    hide Bit, Pow2, Or, And;
    TestBit(flags, i);
    OrBit(r, Pow2(n), k);
    Pow2Bit(n, k);
  }

  lemma ConvertedLarge(user: nat, copyOnWrite: nat, swapped: nat)
    requires user < 8 && (copyOnWrite == user || copyOnWrite == user + 0x200)
    requires swapped == copyOnWrite || swapped == copyOnWrite + 0x400
    ensures FlagsOk(swapped)
  {
  }

  /** From s to n, count pages from an address, all unmapped before, were found and mapped. */
  ghost predicate Allocated(s: Vm, n: Vm, root: nat, count: nat, address: Word)
    requires s.env.bootRoot < |s.ram|
  {
    var p := address / PAGE_SIZE;
    && address % PAGE_SIZE == 0 && 1 <= p && 1 <= count && p + count <= ENTRIES
    && Search.Found(s, root, Page(0, 0, 0, 1), count, p)
    && Search.AllFree(s, root, Search.Range(p, p + count))
    && MappedUpTo(s, n, root, p, p + count) && TablesFor(s, n, p, p + count - 1)
  }

  class SpaceAllocator {
    const tables: PageTables
    var allocLock: bool

    constructor (tables: PageTables)
      ensures this.tables == tables && !allocLock
    {
      this.tables := tables;
      allocLock := false;
    }

    /** `space_alloc`.  `None` stands for a core that halted for lack of frames, with both locks
        held. */
    method SpaceAlloc(size: Word, flags: Word) returns (r: Option<Word>)
      requires tables.Valid() && !tables.kmmapLock && !allocLock
      requires 1 <= PagesFor(size) < ENTRIES && And(flags, MAP_EXECUTE) == 0
      requires Search.Searchable(tables.State(), tables.cr3, Page(0, 0, 0, 1), PagesFor(size))
      modifies this, tables.pmm, tables.pmm.memory, tables`tree, tables`kmmapLock
      ensures tables.Valid() && allocLock == tables.kmmapLock == r.None?
      ensures r.None? ==> tables.pmm.Exhausted()
      ensures r.Some? ==> Allocated(old(tables.State()), tables.State(), tables.cr3, PagesFor(size), r.value)
      ensures EntriesHold(old(tables.State()), tables.State(), tables.cr3, LowBits(ConvertToArchFlags(flags)))
    {
      ConvertedFlags(flags);
      hide EntriesHold, TablesFor, LowBits, VmOk, MappedUpTo, Search.Found, Search.Searchable,
           ConvertToArchFlags, FlagsOk, PageOf, OffsetOf, RangeOk,
           Search.AllFree, Convert, And, CraftAddr, FrameState.AllocOk, PagesFor, LastPage, FirstPage;
      ghost var s := tables.State();
      allocLock := true;
      CraftAddrFields(Page(0, 0, 0, 1), 0);
      SlotZeroPrivate(s);
      var address := tables.SearchAvailable(CraftAddr(0, 0, 0, 1, 0), size);
      ghost var p := address / PAGE_SIZE;
      FoundInSlotZero(s, tables.cr3, PagesFor(size), p);
      ConvertedFlags(flags);
      AlignedRange(address, size);
      var halted := tables.Kmmap(address, size, ConvertToArchFlags(flags));
      if halted {
        return None;
      }
      allocLock := false;
      r := Some(address);
    }

    /** `space_free`. */
    method SpaceFree(addr: Word, size: Word)
      requires tables.Valid() && UnmapOk(tables.State(), tables.cr3, addr, size)
      modifies tables.pmm.memory, tables`tree
      ensures tables.Valid() && UnmappedWhole(old(tables.State()), tables.State(), tables.cr3, addr, size)
    {
      tables.Kmunmap(addr, size, false);
    }
  }

  lemma SlotZeroPrivate(s: Vm)
    requires VmOk(s)
    ensures s.env.bootRoot < |s.ram| && Private(s, 0)
  {
  }

  /** What the search finds from the second page of memory on is a mappable, unmapped range. */
  lemma FoundInSlotZero(s: Vm, root: nat, n: nat, p: nat)
    requires VmOk(s) && IsRoot(s, root) && 1 <= n < ENTRIES
    requires Search.Found(s, root, Page(0, 0, 0, 1), n, p)
    ensures 1 <= p && p + n <= ENTRIES
    ensures RangeOk(s, p, p + n - 1) && Search.AllFree(s, root, Search.Range(p, p + n))
  {
    SlotZeroPrivate(s);
    FoundAbove(s, root, n, p);
    Search.FoundFree(s, root, Page(0, 0, 0, 1), n, p);
  }

  lemma FoundAbove(s: Vm, root: nat, n: nat, p: nat)
    requires s.env.bootRoot < |s.ram| && 1 <= n < ENTRIES
    requires Search.Found(s, root, Page(0, 0, 0, 1), n, p)
    ensures 1 <= p && p + n <= ENTRIES
  {
    hide TableAt, Search.UpperEmpty;
  }

  /** An aligned range of `size` bytes starts at its page and meets ceil(size / 4096) pages. */
  lemma AlignedRange(address: Word, size: Word)
    requires address % PAGE_SIZE == 0 && address / PAGE_SIZE < ENTRIES && 1 <= PagesFor(size)
    ensures FirstPage(address) == address / PAGE_SIZE && OffsetOf(address) == 0
    ensures LastPage(FirstPage(address), OffsetOf(address), size) == address / PAGE_SIZE + PagesFor(size) - 1
  {
    hide PageOf, OffsetOf, CraftAddr;
    CraftAddrFields(Page(0, 0, 0, address / PAGE_SIZE), 0);
  }

  /** `space_free` with the size that was allocated releases the whole range exactly when the size
      is a multiple of the page size; the last page of any other range stays mapped. */
  lemma FreeReleasesAll(size: Word)
    requires size > 0
    ensures WholeCount(0, size) == PagesFor(size) <==> size % PAGE_SIZE == 0
    ensures size % PAGE_SIZE != 0 ==> WholeCount(0, size) == PagesFor(size) - 1
  {
  }

  /** What `space_alloc` gave out, of a multiple of the page size, `space_free` may be given, and
      the two together restore every translation outside the window; only frames of tables remain
      allocated. */
  lemma AllocThenFree(s: Vm, m: Vm, root: nat, p: nat, size: Word)
    requires VmOk(s) && IsRoot(s, root) && size % PAGE_SIZE == 0 && 1 <= PagesFor(size) < ENTRIES
    requires Search.Found(s, root, Page(0, 0, 0, 1), PagesFor(size), p)
    requires MappedUpTo(s, m, root, p, p + PagesFor(size))
    ensures p * PAGE_SIZE < WORD_LIMIT && UnmapOk(m, root, p * PAGE_SIZE, size)
    ensures forall n | UnmappedWhole(m, n, root, p * PAGE_SIZE, size) ::
              && (forall v | IsPage(v) && v.l4 != RECURSIVE_SLOT ::
                    Translate(n.ram, root, v) == Translate(s.ram, root, v))
              && s.taken <= n.taken && (forall f | f in n.taken && f !in s.taken :: OwnTable(n, root, f))
  {
    hide VmOk, PageOf, OffsetOf, MappedUpTo, Translate;
    var count := PagesFor(size);
    FoundInSlotZero(s, root, count, p);
    FreeReleasesAll(size);
    MappedIsClearable(s, m, root, p, p + count);
    AlignedRange(p * PAGE_SIZE, size);
    StartOfRange(p);
    assert VmOk(m) by {
      MappedIsOk(s, m, root, p, p + count);
    }
    forall n | UnmappedWhole(m, n, root, p * PAGE_SIZE, size)
      ensures (forall v | IsPage(v) && v.l4 != RECURSIVE_SLOT :: Translate(n.ram, root, v) == Translate(s.ram, root, v))
              && s.taken <= n.taken && (forall f | f in n.taken && f !in s.taken :: OwnTable(n, root, f))
    {
      assert UnmappedUpTo(m, n, root, p, p + count);
      MapUnmapRoundTrip(s, m, n, root, p, p + count);
    }
  }

  lemma MappedIsOk(s: Vm, m: Vm, root: nat, lo: nat, hi: nat)
    requires MappedUpTo(s, m, root, lo, hi)
    ensures VmOk(m)
  {
    hide VmOk;
  }

  lemma StartOfRange(p: nat)
    requires p < ENTRIES
    ensures PageOf(p * PAGE_SIZE).l1 == p && OffsetOf(p * PAGE_SIZE) == 0
  {
    hide PageOf, OffsetOf, CraftAddr;
    CraftAddrFields(Page(0, 0, 0, p), 0);
  }
}
