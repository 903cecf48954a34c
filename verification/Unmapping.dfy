/** What unmapping whole pages does to an address space, and the round trip with mapping. */
module Unmapping {
  import opened Bits
  import opened Memory
  import opened Paging
  import opened AddressSpace
  import opened NewEntry
  import opened LeafEntry
  import opened Mapping

  /** f is the data frame of a page of the range, mapped in s. */
  ghost predicate MappedFrame(s: Vm, root: nat, lo: nat, hi: nat, f: nat) {
    f in s.tree && s.tree[f].root == root && s.tree[f].level == 0 &&
    var v := s.tree[f].at;
    IsPage(v) && lo <= PageNumber(v) < hi && Translate(s.ram, root, v) == Mapped(f, 1)
  }

  /** The contract of an unmapping call that has dealt with the pages [lo, hi): they fault, their
      frames are given back, and nothing else changed. */
  ghost predicate UnmappedUpTo(s: Vm, n: Vm, root: nat, lo: nat, hi: nat) {
    && VmOk(n) && n.env == s.env && |n.ram| == |s.ram|
    && (forall f | f in n.tree :: f in s.tree && n.tree[f] == s.tree[f])
    && (forall f | f in s.tree :: f !in n.tree <==> MappedFrame(s, root, lo, hi, f))
    && n.taken == s.taken - (s.tree.Keys - n.tree.Keys)
    && (forall v | IsPage(v) && v.l4 != RECURSIVE_SLOT :: PageUnmapped(s, n, root, lo, hi, v))
    && (forall g: nat | g < |s.ram| && g !in s.env.bitmap && !OwnTable(s, root, g) :: n.ram[g] == s.ram[g])
  }

  ghost predicate PageUnmapped(s: Vm, n: Vm, root: nat, lo: nat, hi: nat, v: Page)
    requires IsPage(v)
  {
    Translate(n.ram, root, v) == if lo <= PageNumber(v) < hi then Fault else Translate(s.ram, root, v)
  }

  lemma UnmappedNothing(s: Vm, root: nat, lo: nat)
    requires VmOk(s)
    ensures UnmappedUpTo(s, s, root, lo, lo)
  {
    hide VmOk;
    assert s.tree.Keys - s.tree.Keys == {};
  }

  /** One page: its entry is zeroed and its data frame, if the allocator manages it, given back. */
  ghost predicate Cleared(m: Vm, n: Vm, t: nat, k: nat, f: nat) {
    && IsTable(m, t) && t < |m.ram| && k < ENTRIES && |n.ram| == |m.ram| && m.tree[t].level == 1
    && n.env == m.env && (HasNode(m, f, Child(m, t, k)) || f !in m.env.managed)
    && n.tree == m.tree - {f} && n.taken == m.taken - {f}
    && n.ram[t][k] == 0
    && (forall j | 0 <= j < ENTRIES && j != k :: n.ram[t][j] == m.ram[t][j])
    && (forall g: nat | g < |m.ram| && g != t && g !in m.env.bitmap :: n.ram[g] == m.ram[g])
  }

  lemma ClearedIsLeafChange(m: Vm, n: Vm, t: nat, k: nat, f: nat)
    requires VmOk(m) && Cleared(m, n, t, k, f)
    ensures LeafChanged(m, n, t, k)
  {
    assert NodeOk(m, t);
    forall g | g in m.tree ensures g in m.taken && g !in m.env.bitmap {
      assert NodeOk(m, g);
    }
  }

  /** What page v shows as its entry goes: frame f, or nothing, with f no frame of the allocator. */
  predicate Showed(s: Vm, root: nat, v: Page, f: nat)
    requires IsPage(v)
  {
    Translate(s.ram, root, v) == Mapped(f, 1) || (Translate(s.ram, root, v) == Fault && f !in s.env.managed)
  }

  lemma TreeIsManaged(s: Vm)
    requires VmOk(s)
    ensures s.tree.Keys <= s.taken <= s.env.managed
  {
    forall g | g in s.tree ensures g in s.taken {
      assert NodeOk(s, g);
    }
  }

  lemma UnmappedAfterPage(s: Vm, m: Vm, n: Vm, root: nat, lo: nat, v: Page, t: nat, f: nat)
    requires VmOk(s) && IsPage(v) && v.l4 != RECURSIVE_SLOT && lo <= PageNumber(v)
    requires UnmappedUpTo(s, m, root, lo, PageNumber(v))
    requires Maps(m, t, v.l1, root, v) && Cleared(m, n, t, v.l1, f) && Showed(m, root, v, f)
    ensures UnmappedUpTo(s, n, root, lo, PageNumber(v) + 1)
  {
    hide EnvOk, EntriesOk, AllAnchored;
    ClearedIsLeafChange(m, n, t, v.l1, f);
    LeafChangedOk(m, n, t, v.l1);
    assert NodeOk(m, t);
    assert IsRoot(m, root);
    hide VmOk, LeafChanged, Cleared;
    AllAfterClear(s, m, n, root, lo, v, t, f);
    assert PageUnmapped(s, m, root, lo, PageNumber(v), v);
    TreeIsManaged(s);
    UnmappedBookkeeping(s, m, n, root, lo, v, t, f);
    hide MappedFrame, OwnTable, PageUnmapped;
  }

  lemma AllAfterClear(s: Vm, m: Vm, n: Vm, root: nat, lo: nat, v: Page, t: nat, f: nat)
    requires IsPage(v) && v.l4 != RECURSIVE_SLOT && lo <= PageNumber(v) && IsRoot(m, root)
    requires UnmappedUpTo(s, m, root, lo, PageNumber(v))
    requires Maps(m, t, v.l1, root, v) && LeafChanged(m, n, t, v.l1) && Cleared(m, n, t, v.l1, f)
    ensures forall w | IsPage(w) && w.l4 != RECURSIVE_SLOT :: PageUnmapped(s, n, root, lo, PageNumber(v) + 1, w)
  {
    forall w | IsPage(w) && w.l4 != RECURSIVE_SLOT ensures PageUnmapped(s, n, root, lo, PageNumber(v) + 1, w) {
      PageAfterClear(s, m, n, root, lo, v, t, f, w);
    }
  }

  lemma PageAfterClear(s: Vm, m: Vm, n: Vm, root: nat, lo: nat, v: Page, t: nat, f: nat, w: Page)
    requires IsPage(v) && v.l4 != RECURSIVE_SLOT && lo <= PageNumber(v) && IsRoot(m, root)
    requires UnmappedUpTo(s, m, root, lo, PageNumber(v))
    requires Maps(m, t, v.l1, root, v) && LeafChanged(m, n, t, v.l1) && Cleared(m, n, t, v.l1, f)
    requires IsPage(w) && w.l4 != RECURSIVE_SLOT
    ensures PageUnmapped(s, n, root, lo, PageNumber(v) + 1, w)
  {
    assert PageUnmapped(s, m, root, lo, PageNumber(v), w);
    LeafTranslate(m, n, t, v.l1, root, w);
    hide VmOk, LeafChanged;
    assert Maps(m, t, v.l1, root, w) ==> v == w;
    if PageNumber(w) == PageNumber(v) {
      PageNumberInjective(v, w);
    }
  }

  lemma UnmappedBookkeeping(s: Vm, m: Vm, n: Vm, root: nat, lo: nat, v: Page, t: nat, f: nat)
    requires IsPage(v) && lo <= PageNumber(v)
    requires UnmappedUpTo(s, m, root, lo, PageNumber(v))
    requires Maps(m, t, v.l1, root, v) && Cleared(m, n, t, v.l1, f) && Showed(s, root, v, f)
    requires s.tree.Keys <= s.taken <= s.env.managed
    ensures n.env == s.env && |n.ram| == |s.ram|
    ensures forall g | g in n.tree :: g in s.tree && n.tree[g] == s.tree[g]
    ensures forall g | g in s.tree :: g !in n.tree <==> MappedFrame(s, root, lo, PageNumber(v) + 1, g)
    ensures n.taken == s.taken - (s.tree.Keys - n.tree.Keys)
    ensures forall g: nat | g < |s.ram| && g !in s.env.bitmap && !OwnTable(s, root, g) :: n.ram[g] == s.ram[g]
  {
    hide VmOk, Translate;
    DownPrefix(v, 1);
    assert f in m.tree ==> m.tree[f] == Node(root, 0, v);
    forall g | g in s.tree ensures g !in n.tree <==> MappedFrame(s, root, lo, PageNumber(v) + 1, g) {
      if MappedFrame(s, root, lo, PageNumber(v) + 1, g) && PageNumber(s.tree[g].at) == PageNumber(v) {
        PageNumberInjective(v, s.tree[g].at);
      }
    }
  }

  /** Mapping a range of unmapped pages and unmapping it again restores every translation outside
      the window and every frame the caller had; only new table frames remain allocated. */
  lemma MapUnmapRoundTrip(s: Vm, m: Vm, n: Vm, root: nat, lo: nat, hi: nat)
    requires VmOk(s) && MappedUpTo(s, m, root, lo, hi) && UnmappedUpTo(m, n, root, lo, hi)
    requires forall v | IsPage(v) && lo <= PageNumber(v) < hi :: Translate(s.ram, root, v) == Fault
    ensures forall v | IsPage(v) && v.l4 != RECURSIVE_SLOT :: Translate(n.ram, root, v) == Translate(s.ram, root, v)
    ensures s.taken <= n.taken
    ensures forall f | f in n.taken && f !in s.taken :: OwnTable(n, root, f)
    ensures forall f: nat | f < |s.ram| && f in s.taken && f !in s.env.bitmap && !OwnTable(s, root, f) ::
              n.ram[f] == s.ram[f]
  {
    forall v | IsPage(v) && v.l4 != RECURSIVE_SLOT ensures Translate(n.ram, root, v) == Translate(s.ram, root, v) {
      assert PageMapped(s, m, root, lo, hi, v);
      assert PageUnmapped(m, n, root, lo, hi, v);
    }
    forall f | f in s.taken ensures f in n.taken {
      if f in m.tree && MappedFrame(m, root, lo, hi, f) {
        OldFramesKept(s, m, root, lo, hi, f);
      }
    }
    forall f | f in n.taken && f !in s.taken ensures OwnTable(n, root, f) {
      assert m.tree[f].level == 0 ==> NewDataFrame(s, m, root, lo, hi, f) && MappedFrame(m, root, lo, hi, f);
    }
    forall f: nat | f < |s.ram| && f in s.taken && f !in s.env.bitmap && !OwnTable(s, root, f)
      ensures n.ram[f] == s.ram[f]
    {
      assert !OwnTable(m, root, f);
    }
  }

  lemma OldFramesKept(s: Vm, m: Vm, root: nat, lo: nat, hi: nat, f: nat)
    requires VmOk(s) && MappedUpTo(s, m, root, lo, hi) && MappedFrame(m, root, lo, hi, f)
    requires forall v | IsPage(v) && lo <= PageNumber(v) < hi :: Translate(s.ram, root, v) == Fault
    ensures f !in s.taken
  {
    var v := m.tree[f].at;
    assert NodeOk(m, f);
    assert PageMapped(s, m, root, lo, hi, v);
  }

  /** An unmapping call in one directory leaves every translation of every other one alone. */
  lemma UnmappingIsolated(s: Vm, n: Vm, root: nat, lo: nat, hi: nat, other: nat, v: Page)
    requires VmOk(s) && UnmappedUpTo(s, n, root, lo, hi)
    requires IsRoot(s, other) && other != root && IsPage(v)
    ensures IsRoot(n, other) && Translate(n.ram, other, v) == Translate(s.ram, other, v)
  {
    forall g: nat | IsTable(s, g) && s.tree[g].root == other ensures g < |n.ram| && n.ram[g] == s.ram[g] {
      assert NodeOk(s, g);
    }
    UntouchedDirectory(s, n.ram, other, v);
  }

  // ---------------------------------------------------------------- which pages a call frees

  /** The first page wholly inside bytes that start at an offset of page `first`. */
  function WholeFirst(first: nat, offset: nat): nat {
    if offset == 0 then first else first + 1
  }

  /** How many pages lie wholly inside `size` bytes from an offset of a page. */
  function WholeCount(offset: nat, size: nat): nat {
    var skipped := if offset == 0 then 0 else PAGE_SIZE - offset;
    if size < skipped then 0 else (size - skipped) / PAGE_SIZE
  }

  /** Page p is one of them exactly when all its bytes are in the range. */
  lemma WholePages(first: nat, offset: nat, size: nat, p: nat)
    requires offset < PAGE_SIZE
    ensures WholeFirst(first, offset) <= p < WholeFirst(first, offset) + WholeCount(offset, size) <==>
              && first * PAGE_SIZE + offset <= p * PAGE_SIZE
              && p * PAGE_SIZE + PAGE_SIZE <= first * PAGE_SIZE + offset + size
  {
  }

  /** How many pages `kmunmap` sets out to free: the subtraction for an unaligned start wraps. */
  function PagesFreed(offset: nat, size: Word): nat
    requires offset < PAGE_SIZE
  {
    var rest := if offset == 0 then size as int else (size - (PAGE_SIZE - offset)) % WORD_LIMIT;
    if rest <= PAGE_SIZE - 1 || rest <= offset then 0 else rest / PAGE_SIZE
  }

  /** That is the number of whole pages exactly when the range reaches the end of an unaligned
      first page. */
  lemma UnmapCountExact(offset: nat, size: Word)
    requires offset < PAGE_SIZE
    ensures PagesFreed(offset, size) == WholeCount(offset, size) <==> offset == 0 || size >= PAGE_SIZE - offset
  {
  }

  /** A page whose entry `kmunmap` may be asked to clear: it has a lowest-level table, and is mapped
      or, since an empty entry frees frame 0, the allocator does not manage that frame. */
  predicate PageClearable(s: Vm, root: nat, v: Page)
    requires IsPage(v) && s.env.bootRoot < |s.ram|
  {
    Private(s, v.l4) && (Translate(s.ram, root, v).Mapped? || (TableAt(s.ram, root, v, 1) >= 0 && 0 !in s.env.managed))
  }

  ghost predicate RangeClearable(s: Vm, root: nat, lo: nat, hi: nat)
    requires s.env.bootRoot < |s.ram|
  {
    forall v | IsPage(v) && lo <= PageNumber(v) < hi :: PageClearable(s, root, v)
  }

  /** A range that has just been mapped may be freed again. */
  lemma MappedIsClearable(s: Vm, m: Vm, root: nat, lo: nat, hi: nat)
    requires VmOk(s) && IsRoot(s, root) && MappedUpTo(s, m, root, lo, hi)
    requires forall p: nat | lo <= p < hi :: Private(s, p / SLOT_PAGES)
    ensures m.env.bootRoot < |m.ram| && RangeClearable(m, root, lo, hi)
  {
    MappedSameSlots(s, m, root, lo, hi);
    forall v | IsPage(v) && lo <= PageNumber(v) < hi ensures PageClearable(m, root, v) {
      SlotOfPage(v);
      assert Private(s, v.l4);
      assert PageMapped(s, m, root, lo, hi, v);
    }
  }

  lemma UnmappedSameSlots(s: Vm, n: Vm, root: nat, lo: nat, hi: nat)
    requires VmOk(s) && IsRoot(s, root) && UnmappedUpTo(s, n, root, lo, hi)
    ensures IsRoot(n, root) && forall k: nat :: Private(n, k) == Private(s, k)
  {
    assert !OwnTable(s, root, s.env.bootRoot);
    assert n.ram[s.env.bootRoot] == s.ram[s.env.bootRoot];
  }

  lemma StillClearable(s: Vm, m: Vm, root: nat, lo: nat, p: nat, v: Page)
    requires VmOk(s) && UnmappedUpTo(s, m, root, lo, p) && IsRoot(s, root)
    requires IsPage(v) && p <= PageNumber(v) && PageClearable(s, root, v)
    ensures IsRoot(m, root) && PageClearable(m, root, v) && v.l4 != RECURSIVE_SLOT
    ensures Translate(m.ram, root, v) == Translate(s.ram, root, v)
  {
    UnmappedSameSlots(s, m, root, lo, p);
    assert PageUnmapped(s, m, root, lo, p, v);
    if TableAt(s.ram, root, v, 1) >= 0 {
      TableAtIsNode(s, root, v, 1);
      TableAtNode(m, TableAt(s.ram, root, v, 1), v);
    }
  }

  /** The entry of a page that may be cleared, and the frame `free_frame` is given for it. */
  lemma ClearableEntry(s: Vm, root: nat, v: Page)
    requires VmOk(s) && IsRoot(s, root) && IsPage(v) && PageClearable(s, root, v)
    ensures TableAt(s.ram, root, v, 1) >= 0
    ensures var t: nat := TableAt(s.ram, root, v, 1);
      && Maps(s, t, v.l1, root, v) && t < |s.ram|
      && var f := s.ram[t][v.l1] / PAGE_SIZE;
         Showed(s, root, v, f) && (HasNode(s, f, Node(root, 0, v)) || f !in s.env.managed)
  {
    hide TableAt;
    if TableAt(s.ram, root, v, 1) < 0 {
      NoLargeBelow(s, root, root, 4, v);
      assert false;
    }
    TableAtIsNode(s, root, v, 1);
    WalkFromTable(s.ram, root, v, 1);
    LowestEntry(s, root, v, TableAt(s.ram, root, v, 1));
    if Translate(s.ram, root, v).Mapped? {
      LeafIsOwned(s, root, v);
    }
  }

  lemma LowestEntry(s: Vm, root: nat, v: Page, t: nat)
    requires VmOk(s) && IsPage(v) && HasNode(s, t, Node(root, 1, Prefix(v, 1)))
    ensures t < |s.ram|
    ensures var e := s.ram[t][v.l1];
      Walk(s.ram, t, 1, v) == if e == 0 then Fault else Mapped(e / PAGE_SIZE, 1)
  {
    assert NodeOk(s, t) && EntryOk(s, t, v.l1);
  }
}
