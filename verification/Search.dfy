/** Searching a run of unmapped pages, and why successive allocations never overlap. */
module Search {
  import opened Bits
  import opened Memory
  import opened Paging
  import opened AddressSpace
  import opened Mapping
  import opened Unmapping
  import AddressRuns

  /** Entries a to b - 1 of table t are empty. */
  predicate Empty(ram: Ram, t: nat, a: nat, b: nat)
    requires t < |ram| && b <= ENTRIES
  {
    forall k | a <= k < b :: ram[t][k] == 0
  }

  /** A run of n + 1 empty entries starts at a. */
  predicate RunAt(ram: Ram, t: nat, a: nat, n: nat)
    requires t < |ram|
  {
    a + n < ENTRIES && Empty(ram, t, a, a + n + 1)
  }

  /** The first run of n + 1 empty entries at or after `from` starts at a. */
  predicate FirstRun(ram: Ram, t: nat, from: nat, n: nat, a: nat)
    requires t < |ram|
  {
    from <= a && RunAt(ram, t, a, n) && forall b | from <= b < a :: !RunAt(ram, t, b, n)
  }

  /** How a search for n pages from page `base` comes out, when it hits before its cursor wraps:
      `base` itself when an upper entry is empty, otherwise one past the start of the first run of
      n + 1 empty entries. */
  ghost predicate Found(s: Vm, root: nat, base: Page, n: nat, p: nat)
    requires IsPage(base) && s.env.bootRoot < |s.ram|
  {
    var t := TableAt(s.ram, root, base, 1);
    if UpperEmpty(s, root, base) then p == PageNumber(base)
    else
      && 0 <= t < |s.ram|
      && exists a: nat :: FirstRun(s.ram, t, base.l1, n, a) && p == PageNumber(base.(l1 := 0)) + a + 1
  }

  /** One of the three upper entries for the page is empty. */
  predicate UpperEmpty(s: Vm, root: nat, base: Page)
    requires IsPage(base)
  {
    EntryEmpty(s, root, base, 4) || EntryEmpty(s, root, base, 3) || EntryEmpty(s, root, base, 2)
  }

  predicate EntryEmpty(s: Vm, root: nat, base: Page, level: nat)
    requires IsPage(base) && 1 <= level <= 4
  {
    var t := TableAt(s.ram, root, base, level);
    0 <= t < |s.ram| && s.ram[t][Index(base, level)] == 0
  }

  /** The search ends: an upper entry is empty, or there is a run to find before the wrap. */
  ghost predicate Searchable(s: Vm, root: nat, base: Page, n: nat)
    requires IsPage(base)
  {
    UpperEmpty(s, root, base) ||
    (var t := TableAt(s.ram, root, base, 1);
     0 <= t < |s.ram| && exists a: nat :: base.l1 <= a && RunAt(s.ram, t, a, n))
  }

  lemma FoundAtBase(s: Vm, root: nat, base: Page, n: nat, level: nat)
    requires IsPage(base) && s.env.bootRoot < |s.ram| && 2 <= level <= 4 && EntryEmpty(s, root, base, level)
    ensures Found(s, root, base, n, PageNumber(base))
  {
  }

  lemma FoundInTable(s: Vm, root: nat, base: Page, n: nat, a: nat)
    requires IsPage(base) && s.env.bootRoot < |s.ram| && !UpperEmpty(s, root, base)
    requires 0 <= TableAt(s.ram, root, base, 1) < |s.ram|
    requires FirstRun(s.ram, TableAt(s.ram, root, base, 1), base.l1, n, a)
    ensures Found(s, root, base, n, PageNumber(base.(l1 := 0)) + a + 1)
  {
  }

  /** The level of the empty entry the search stopped at; 2 also when it stopped in a lowest-level
      table, which is what an entry of level 2 covers. */
  function StopLevel(s: Vm, root: nat, base: Page): (level: nat)
    requires IsPage(base)
    ensures 2 <= level <= 4
    ensures UpperEmpty(s, root, base) ==> EntryEmpty(s, root, base, level)
  {
    if EntryEmpty(s, root, base, 4) then 4 else if EntryEmpty(s, root, base, 3) then 3 else 2
  }

  function SpanPages(level: nat): nat
    requires 2 <= level <= 4
  {
    if level == 2 then 0x200 else if level == 3 then 0x4_0000 else SLOT_PAGES
  }

  /** The first page past those the entry for `base` at a level covers. */
  function SpanEnd(base: Page, level: nat): nat
    requires 2 <= level <= 4
  {
    PageNumber(Prefix(base, level - 1)) + SpanPages(level)
  }

  lemma SamePrefix(base: Page, v: Page, level: nat)
    requires IsPage(base) && IsPage(v) && 2 <= level <= 4
    requires PageNumber(Prefix(base, level - 1)) <= PageNumber(v) < SpanEnd(base, level)
    ensures Prefix(v, level - 1) == Prefix(base, level - 1) && v.l4 == base.l4
  {
    SamePlace(base.l4, v.l4, (v.l3 * ENTRIES + v.l2) * ENTRIES + v.l1, SLOT_PAGES);
    if level < 4 {
      SamePlace(base.l4 * ENTRIES + base.l3, v.l4 * ENTRIES + v.l3, v.l2 * ENTRIES + v.l1, 0x4_0000);
      SameParts(base.l4, base.l3, v.l4, v.l3);
    }
    if level < 3 {
      var a, b := base.l4 * ENTRIES + base.l3, v.l4 * ENTRIES + v.l3;
      SamePlace(a * ENTRIES + base.l2, b * ENTRIES + v.l2, v.l1, 0x200);
      SameParts(a, base.l2, b, v.l2);
    }
  }

  lemma SamePlace(a: nat, b: nat, rest: nat, size: nat)
    requires rest < size && (size == 0x200 || size == 0x4_0000 || size == SLOT_PAGES)
    ensures a * size <= b * size + rest < a * size + size ==> a == b
  {}

  /** The pages found are consecutive and at or above the base, and those that the entry at which
      the search stopped covers are unmapped, in a slot of the directory's own. */
  lemma FoundUnmapped(s: Vm, root: nat, base: Page, n: nat, p: nat, v: Page)
    requires VmOk(s) && IsRoot(s, root) && IsPage(base) && Private(s, base.l4) && Found(s, root, base, n, p)
    requires IsPage(v) && p <= PageNumber(v) < p + n && PageNumber(v) < SpanEnd(base, StopLevel(s, root, base))
    ensures PageNumber(base) <= p
    ensures Translate(s.ram, root, v) == Fault && Private(s, v.l4)
  {
    var level := StopLevel(s, root, base);
    hide VmOk, Private;
    if UpperEmpty(s, root, base) {
      SamePrefix(base, v, level);
      UnderEmptyEntry(s, root, base, v, level);
    } else {
      var t: nat := TableAt(s.ram, root, base, 1);
      var a: nat :| FirstRun(s.ram, t, base.l1, n, a) && p == PageNumber(base.(l1 := 0)) + a + 1;
      InTable(s, root, base, v, t, a, n);
    }
  }

  lemma UnderEmptyEntry(s: Vm, root: nat, base: Page, v: Page, level: nat)
    requires IsPage(base) && IsPage(v) && 2 <= level <= 4 && EntryEmpty(s, root, base, level)
    requires Prefix(v, level - 1) == Prefix(base, level - 1)
    ensures Translate(s.ram, root, v) == Fault
  {
    assert Prefix(v, level) == Prefix(base, level) && Index(v, level) == Index(base, level);
    TableAtPrefix(s.ram, root, base, v, level);
    WalkFromTable(s.ram, root, v, level);
  }

  lemma InTable(s: Vm, root: nat, base: Page, v: Page, t: nat, a: nat, n: nat)
    requires IsPage(base) && IsPage(v) && t == TableAt(s.ram, root, base, 1) && t < |s.ram|
    requires FirstRun(s.ram, t, base.l1, n, a)
    requires PageNumber(base.(l1 := 0)) + a + 1 <= PageNumber(v) < PageNumber(base.(l1 := 0)) + a + 1 + n
    ensures PageNumber(base) <= PageNumber(base.(l1 := 0)) + a + 1
    ensures Translate(s.ram, root, v) == Fault && v.l4 == base.l4
  {
    assert PageNumber(base) == PageNumber(base.(l1 := 0)) + base.l1 && Prefix(base, 1) == base.(l1 := 0);
    SamePrefix(base, v, 2);
    assert PageNumber(v) == PageNumber(base.(l1 := 0)) + v.l1;
    TableAtPrefix(s.ram, root, base, v, 1);
    WalkFromTable(s.ram, root, v, 1);
    assert s.ram[t][v.l1] == 0;
  }

  /** A search that stopped in a table found its pages there. */
  lemma FoundInside(s: Vm, root: nat, base: Page, n: nat, p: nat)
    requires IsPage(base) && s.env.bootRoot < |s.ram| && Found(s, root, base, n, p) && !UpperEmpty(s, root, base)
    ensures p + n <= SpanEnd(base, StopLevel(s, root, base))
  {
    assert Prefix(base, 1) == base.(l1 := 0);
  }

  /** A search that stopped in a table took the first place there is: the pages found follow an
      unmapped page at or above the base, and from every page before that one there are n more, or
      fewer, up to one whose entry is in use. */
  lemma FoundFirst(s: Vm, root: nat, base: Page, n: nat, p: nat)
    requires VmOk(s) && IsRoot(s, root) && IsPage(base) && Private(s, base.l4) && Found(s, root, base, n, p)
    requires !UpperEmpty(s, root, base)
    ensures PageNumber(base) < p
    ensures forall v | IsPage(v) && PageNumber(v) == p - 1 :: Translate(s.ram, root, v) == Fault
    ensures forall q: nat | PageNumber(base) <= q < p - 1 :: UsedWithin(s, root, q, n)
  {
    var t: nat := TableAt(s.ram, root, base, 1);
    var start := PageNumber(base.(l1 := 0));
    var a: nat :| FirstRun(s.ram, t, base.l1, n, a) && p == start + a + 1;
    assert PageNumber(base) == start + base.l1;
    forall v | IsPage(v) && PageNumber(v) == p - 1 ensures Translate(s.ram, root, v) == Fault {
      InRun(s, root, base, v, t, a, n);
    }
    forall q: nat | PageNumber(base) <= q < p - 1 ensures UsedWithin(s, root, q, n) {
      EarlierUsed(s, root, base, t, a, n, q);
    }
  }

  /** One of the entries of page q and the n after it is in use. */
  predicate UsedWithin(s: Vm, root: nat, q: nat, n: nat) {
    exists r: nat :: q <= r <= q + n && r < ALL_PAGES && EntryOf(s.ram, root, PageAt(r), 1) != 0
  }

  lemma EarlierUsed(s: Vm, root: nat, base: Page, t: nat, a: nat, n: nat, q: nat)
    requires IsPage(base) && t == TableAt(s.ram, root, base, 1) && t < |s.ram| && FirstRun(s.ram, t, base.l1, n, a)
    requires PageNumber(base) <= q < PageNumber(base.(l1 := 0)) + a
    ensures UsedWithin(s, root, q, n)
  {
    var start := PageNumber(base.(l1 := 0));
    assert PageNumber(base) == start + base.l1;
    hide TableAt, EntryOf;
    assert !RunAt(s.ram, t, q - start, n) && RunAt(s.ram, t, a, n);
    var k :| q - start <= k < q - start + n + 1 && s.ram[t][k] != 0;
    EntryInTable(s, root, base, t, k);
  }

  lemma InRun(s: Vm, root: nat, base: Page, v: Page, t: nat, a: nat, n: nat)
    requires IsPage(base) && IsPage(v) && t == TableAt(s.ram, root, base, 1) && t < |s.ram|
    requires FirstRun(s.ram, t, base.l1, n, a) && PageNumber(v) == PageNumber(base.(l1 := 0)) + a
    ensures Translate(s.ram, root, v) == Fault
  {
    assert Prefix(base, 1) == base.(l1 := 0);
    SamePrefix(base, v, 2);
    assert v.l1 == a;
    TableAtPrefix(s.ram, root, base, v, 1);
    WalkFromTable(s.ram, root, v, 1);
  }

  lemma EntryInTable(s: Vm, root: nat, base: Page, t: nat, k: nat)
    requires IsPage(base) && t == TableAt(s.ram, root, base, 1) && t < |s.ram| && k < ENTRIES
    ensures var r := PageNumber(base.(l1 := 0)) + k;
      r < ALL_PAGES && EntryOf(s.ram, root, PageAt(r), 1) == s.ram[t][k]
  {
    var r, v := PageNumber(base.(l1 := 0)) + k, base.(l1 := k);
    assert PageNumber(v) == r;
    PageNumberInjective(PageAt(r), v);
    TableAtPrefix(s.ram, root, base, v, 1);
  }

  /** The range found is unmapped if and only if its part past the end of what the entry at which
      the search stopped covers is; the search itself does not look there. */
  lemma FoundFree(s: Vm, root: nat, base: Page, n: nat, p: nat)
    requires VmOk(s) && IsRoot(s, root) && IsPage(base) && Private(s, base.l4) && Found(s, root, base, n, p)
    ensures var end := SpanEnd(base, StopLevel(s, root, base));
      && (AllFree(s, root, Range(p, p + n)) <==> AllFree(s, root, Range(end, p + n)))
      && (p + n <= end ==> AllFree(s, root, Range(p, p + n)))
  {
    var end := SpanEnd(base, StopLevel(s, root, base));
    forall v | IsPage(v) && p <= PageNumber(v) < p + n && PageNumber(v) < end
      ensures v.l4 != RECURSIVE_SLOT && Translate(s.ram, root, v) == Fault
    {
      FoundUnmapped(s, root, base, n, p, v);
    }
    FoundBelowEnd(s, root, base, n, p);
    hide VmOk, Translate, Found, StopLevel, SpanEnd;
    if AllFree(s, root, Range(end, p + n)) {
      forall v | IsPage(v) && p <= PageNumber(v) < p + n
        ensures v.l4 != RECURSIVE_SLOT && Translate(s.ram, root, v) == Fault
      {
        assert PageNumber(v) >= end ==> Translate(s.ram, root, v) == Fault;
      }
    }
  }

  lemma FoundBelowEnd(s: Vm, root: nat, base: Page, n: nat, p: nat)
    requires IsPage(base) && s.env.bootRoot < |s.ram| && Found(s, root, base, n, p)
    ensures p <= SpanEnd(base, StopLevel(s, root, base))
  {
    if !UpperEmpty(s, root, base) {
      FoundInside(s, root, base, n, p);
    }
  }

  // A search for two pages from the last page of an empty level-2 entry, whose neighbour is in use.

  function WithEntry(f: Frame, k: nat, e: Word): Frame
    requires k < ENTRIES
  {
    f[k := e]
  }

  /** The entry that points at a small frame number. */
  function LinkTo(f: nat): Word
    requires f < 8
  {
    f * PAGE_SIZE + 1
  }

  /** Frames 0 to 4 are the tables of a directory and the frame of its page 512; frame 5 is the
      bootloader's root. */
  function Neighbours(zero: Frame): Vm {
    var ram := [WithEntry(WithEntry(zero, 0, LinkTo(1)), RECURSIVE_SLOT, LinkTo(0)), WithEntry(zero, 0, LinkTo(2)),
                WithEntry(zero, 1, LinkTo(3)), WithEntry(zero, 0, LinkTo(4)), zero, zero];
    var here, there := Page(0, 0, 0, 0), Page(0, 0, 1, 0);
    var tree := map[0 := Node(0, 4, here), 1 := Node(0, 3, here), 2 := Node(0, 2, here),
                    3 := Node(0, 1, there), 4 := Node(0, 0, there)];
    Vm(ram, {0, 1, 2, 3, 4}, tree, Env({0, 1, 2, 3, 4}, {}, 5, map[]))
  }

  lemma NeighboursNodes(zero: Frame)
    requires Zeroed(zero)
    ensures EnvOk(Neighbours(zero)) && NodesOk(Neighbours(zero))
  {}

  lemma NeighboursEntry(zero: Frame, t: nat, k: nat)
    requires Zeroed(zero) && IsTable(Neighbours(zero), t) && k < ENTRIES
    ensures t < 6 && Neighbours(zero).tree[t].level <= 4 && EntryOk(Neighbours(zero), t, k)
  {}

  lemma NeighboursTables(zero: Frame, v: Page)
    requires Zeroed(zero) && IsPage(v) && v.l4 == v.l3 == 0
    ensures TableAt(Neighbours(zero).ram, 0, v, 3) == 1 && TableAt(Neighbours(zero).ram, 0, v, 2) == 2
    ensures v.l2 == 1 ==> TableAt(Neighbours(zero).ram, 0, v, 1) == 3
  {}

  lemma NeighboursOk(zero: Frame)
    requires Zeroed(zero)
    ensures VmOk(Neighbours(zero))
  {
    var s := Neighbours(zero);
    NeighboursNodes(zero);
    hide EnvOk, NodesOk, EntryOk;
    forall t, k | IsTable(s, t) && 0 <= k < ENTRIES ensures EntryOk(s, t, k) {
      NeighboursEntry(zero, t, k);
    }
    NeighboursTables(zero, Page(0, 0, 0, 0));
    NeighboursTables(zero, Page(0, 0, 1, 0));
    hide TableAt;
    assert TableAt(s.ram, 0, Page(0, 0, 0, 0), 4) == 0;
    forall t | t in s.tree ensures Anchored(s, t) {}
  }

  /** The range found can run into a mapped page. */
  lemma FoundOverMapped() returns (s: Vm, root: nat)
    ensures var base := Page(0, 0, 0, 511);
      && VmOk(s) && IsRoot(s, root) && Private(s, base.l4) && Found(s, root, base, 2, PageNumber(base))
      && Translate(s.ram, root, PageAt(PageNumber(base) + 1)).Mapped?
  {
    var zero: Frame := seq(FRAME_WORDS, _ => 0);
    s, root := Neighbours(zero), 0;
    NeighboursOk(zero);
    NeighbourMapped(zero);
    hide VmOk, TableAt, Translate;
    NeighboursTables(zero, Page(0, 0, 0, 511));
    FoundAtBase(s, root, Page(0, 0, 0, 511), 2, 2);
  }

  lemma NeighbourMapped(zero: Frame)
    requires Zeroed(zero)
    ensures Translate(Neighbours(zero).ram, 0, PageAt(512)).Mapped?
  {
    var ram, v := Neighbours(zero).ram, PageAt(512);
    assert v == Page(0, 0, 1, 0);
    NeighboursTables(zero, v);
    WalkFromTable(ram, 0, v, 1);
    hide TableAt, Translate;
    assert Walk(ram, 3, 1, v).Mapped?;
  }

  // ---------------------------------------------------------------- live ranges

  datatype Range = Range(lo: nat, hi: nat)

  predicate Apart(a: Range, b: Range) {
    a.hi <= b.lo || b.hi <= a.lo
  }

  /** The pages of a range are mapped, under slots of the directory's own. */
  ghost predicate AllMapped(s: Vm, root: nat, r: Range)
    requires s.env.bootRoot < |s.ram|
  {
    forall v | IsPage(v) && r.lo <= PageNumber(v) < r.hi :: Private(s, v.l4) && Translate(s.ram, root, v).Mapped?
  }

  ghost predicate AllFree(s: Vm, root: nat, r: Range) {
    forall v | IsPage(v) && r.lo <= PageNumber(v) < r.hi :: v.l4 != RECURSIVE_SLOT && Translate(s.ram, root, v) == Fault
  }

  ghost predicate Live(s: Vm, root: nat, live: set<Range>)
    requires s.env.bootRoot < |s.ram|
  {
    && (forall r | r in live :: r.lo < r.hi <= ALL_PAGES && AllMapped(s, root, r))
    && (forall a, b | a in live && b in live && a != b :: Apart(a, b))
  }

  /** The page with a given number. */
  function PageAt(p: nat): (v: Page)
    requires p < ALL_PAGES
    ensures IsPage(v) && PageNumber(v) == p
  {
    var l43, l432 := p / 0x200 / 0x200, p / 0x200;
    Page(l43 / 0x200, l43 % 0x200, l432 % 0x200, p % 0x200)
  }

  /** A range of unmapped pages overlaps no live one. */
  lemma FreeIsApart(s: Vm, root: nat, a: Range, r: Range)
    requires s.env.bootRoot < |s.ram| && AllMapped(s, root, a) && AllFree(s, root, r)
    requires a.lo < a.hi <= ALL_PAGES && r.lo < r.hi <= ALL_PAGES
    ensures Apart(a, r)
  {
    var p := if a.lo <= r.lo then r.lo else a.lo;
    if p < ALL_PAGES {
      var v := PageAt(p);
      assert r.lo <= p < r.hi ==> Translate(s.ram, root, v) == Fault;
      assert a.lo <= p < a.hi ==> Translate(s.ram, root, v).Mapped?;
    }
  }

  lemma AllocKeepsMapped(s: Vm, n: Vm, root: nat, r: Range, a: Range)
    requires VmOk(s) && IsRoot(s, root) && r.lo < r.hi && RangeOk(s, r.lo, r.hi - 1)
    requires MappedUpTo(s, n, root, r.lo, r.hi) && (a == r || AllMapped(s, root, a))
    ensures n.env.bootRoot < |n.ram| && AllMapped(n, root, a)
  {
    MappedSameSlots(s, n, root, r.lo, r.hi);
    hide VmOk, IsRoot;
    forall v | IsPage(v) && a.lo <= PageNumber(v) < a.hi ensures Private(n, v.l4) && Translate(n.ram, root, v).Mapped? {
      SlotOfPage(v);
      assert Private(s, v.l4) && PageMapped(s, n, root, r.lo, r.hi, v);
    }
  }

  /** Mapping it keeps the live ranges, with it among them, mapped and apart. */
  lemma AllocKeepsApart(s: Vm, n: Vm, root: nat, live: set<Range>, r: Range)
    requires VmOk(s) && IsRoot(s, root) && Live(s, root, live) && AllFree(s, root, r) && r.lo < r.hi
    requires RangeOk(s, r.lo, r.hi - 1) && MappedUpTo(s, n, root, r.lo, r.hi)
    ensures n.env.bootRoot < |n.ram| && Live(n, root, live + {r})
  {
    assert s.env.bootRoot < |s.ram| && r.hi <= ALL_PAGES;
    hide VmOk, AllMapped, AllFree, MappedUpTo, RangeOk, IsRoot;
    forall a | a in live ensures Apart(a, r) {
      FreeIsApart(s, root, a, r);
    }
    AllocKeepsMapped(s, n, root, r, r);
    forall a | a in live + {r} ensures AllMapped(n, root, a) {
      AllocKeepsMapped(s, n, root, r, a);
    }
    LiveMore(s, n, root, live, r);
  }

  lemma LiveMore(s: Vm, n: Vm, root: nat, live: set<Range>, r: Range)
    requires s.env.bootRoot < |s.ram| && n.env.bootRoot < |n.ram| && Live(s, root, live) && r.lo < r.hi <= ALL_PAGES
    requires forall a | a in live + {r} :: AllMapped(n, root, a)
    requires forall a | a in live :: Apart(a, r)
    ensures Live(n, root, live + {r})
  {
    hide AllMapped;
  }

  /** Unmapping pages of one live range leaves the others live. */
  lemma FreeKeepsLive(s: Vm, n: Vm, root: nat, live: set<Range>, r: Range, hi: nat)
    requires VmOk(s) && IsRoot(s, root) && Live(s, root, live) && r in live && hi <= r.hi
    requires UnmappedUpTo(s, n, root, r.lo, hi)
    ensures n.env.bootRoot < |n.ram| && Live(n, root, live - {r})
  {
    UnmappedSameSlots(s, n, root, r.lo, hi);
    hide VmOk;
    forall a, v | a in live - {r} && IsPage(v) && a.lo <= PageNumber(v) < a.hi
      ensures Private(n, v.l4) && Translate(n.ram, root, v).Mapped?
    {
      assert AllMapped(s, root, a) && Apart(a, r);
      assert PageUnmapped(s, n, root, r.lo, hi, v);
    }
  }

  /** A call that is not about the live ranges: it unmaps none of their pages. */
  ghost predicate Spares(c: AddressRuns.Call, root: nat, live: set<Range>) {
    c.Unmap? && c.root == root ==> forall r | r in live :: Apart(r, Range(c.lo, c.hi))
  }

  lemma OtherKeepsLive(s: Vm, c: AddressRuns.Call, n: Vm, root: nat, live: set<Range>)
    requires VmOk(s) && IsRoot(s, root) && Live(s, root, live)
    requires AddressRuns.Step(s, c, n) && Spares(c, root, live)
    ensures n.env.bootRoot < |n.ram| && Live(n, root, live)
  {
    AddressRuns.StepKeepsRoots(s, c, n, root);
    hide VmOk, AddressRuns.Step;
    forall a, v | a in live && IsPage(v) && a.lo <= PageNumber(v) < a.hi
      ensures Private(n, v.l4) && Translate(n.ram, root, v).Mapped?
    {
      assert AllMapped(s, root, a) && Private(s, v.l4);
      AddressRuns.StepKeepsMapped(s, c, n, root, v);
    }
  }

  // ---------------------------------------------------------------- runs of the range allocator

  datatype Event = Alloc(range: Range) | Free(range: Range, upTo: nat) | Other(call: AddressRuns.Call)

  /** `space_alloc` maps a range it found unmapped; `space_free` unmaps pages of a live one; any
      other call may come between, in this directory or another, that unmaps no live page. */
  ghost predicate Step(s: Vm, root: nat, live: set<Range>, e: Event, n: Vm)
    requires s.env.bootRoot < |s.ram|
  {
    match e
    case Alloc(r) =>
      r.lo < r.hi && RangeOk(s, r.lo, r.hi - 1) && AllFree(s, root, r) && MappedUpTo(s, n, root, r.lo, r.hi)
    case Free(r, upTo) => r in live && upTo <= r.hi && UnmappedUpTo(s, n, root, r.lo, upTo)
    case Other(c) => AddressRuns.Step(s, c, n) && Spares(c, root, live)
  }

  function LiveAfter(events: seq<Event>): set<Range> {
    if events == [] then {}
    else
      var live := LiveAfter(events[..|events| - 1]);
      match events[|events| - 1]
      case Alloc(r) => live + {r}
      case Free(r, upTo) => live - {r}
      case Other(_) => live
  }

  /** The live ranges are those allocated and not freed since. */
  lemma {:induction false} LiveMeans(events: seq<Event>, r: Range)
    ensures r in LiveAfter(events) <==>
      exists i :: 0 <= i < |events| && events[i] == Alloc(r) && !FreedAfter(events, i, r)
  {
    if events != [] {
      var n := |events| - 1;
      var shorter := events[..n];
      LiveMeans(shorter, r);
      assert forall i | 0 <= i < n :: FreedAfter(events, i, r) <==> FreedAfter(shorter, i, r) || Frees(events[n], r);
      assert !FreedAfter(events, n, r);
      if i :| 0 <= i < n && shorter[i] == Alloc(r) && !FreedAfter(shorter, i, r) {
        assert events[i] == Alloc(r);
      }
      if i :| 0 <= i < n && events[i] == Alloc(r) && !FreedAfter(events, i, r) {
        assert shorter[i] == Alloc(r);
      }
    }
  }

  predicate Frees(e: Event, r: Range) {
    e.Free? && e.range == r
  }

  predicate FreedAfter(events: seq<Event>, i: nat, r: Range) {
    exists j :: i < j < |events| && Frees(events[j], r)
  }

  ghost predicate Run(states: seq<Vm>, root: nat, events: seq<Event>) {
    && |states| == |events| + 1 && VmOk(states[0]) && IsRoot(states[0], root)
    && (forall i | 0 <= i < |events| :: AddressRuns.BootRootInRam(states[i])
          && Step(states[i], root, LiveAfter(events[..i]), events[i], states[i + 1]))
  }

  /** The event as a call on page tables. */
  function CallOf(e: Event, root: nat): AddressRuns.Call {
    match e
    case Alloc(r) => AddressRuns.Map(root, r.lo, r.hi)
    case Free(r, upTo) => AddressRuns.Unmap(root, r.lo, upTo)
    case Other(c) => c
  }

  lemma StepKeepsLive(s: Vm, root: nat, live: set<Range>, e: Event, n: Vm)
    requires VmOk(s) && IsRoot(s, root) && Live(s, root, live) && Step(s, root, live, e, n)
    ensures VmOk(n) && IsRoot(n, root)
    ensures Live(n, root, match e case Alloc(r) => live + {r} case Free(r, _) => live - {r} case Other(_) => live)
  {
    AddressRuns.StepOk(s, CallOf(e, root), n);
    AddressRuns.StepKeepsRoots(s, CallOf(e, root), n, root);
    hide VmOk, Live, RangeOk, AllFree, MappedUpTo, UnmappedUpTo;
    match e
    case Alloc(r) => AllocKeepsApart(s, n, root, live, r);
    case Free(r, upTo) => FreeKeepsLive(s, n, root, live, r, upTo);
    case Other(c) => OtherKeepsLive(s, c, n, root, live);
  }

  /** After any run of allocations, releases and other calls, the ranges still live are mapped, no
      two of them overlap, and each meets what `kmunmap` needs. */
  lemma {:induction false} LiveRangesNeverOverlap(states: seq<Vm>, root: nat, events: seq<Event>, i: nat)
    requires Run(states, root, events) && i <= |events|
    ensures VmOk(states[i]) && IsRoot(states[i], root) && Live(states[i], root, LiveAfter(events[..i]))
    ensures forall r | r in LiveAfter(events[..i]) :: RangeClearable(states[i], root, r.lo, r.hi)
  {
    if i > 0 {
      LiveRangesNeverOverlap(states, root, events, i - 1);
      assert events[..i][..i - 1] == events[..i - 1];
      hide VmOk, Live, RangeClearable;
      assert Step(states[i - 1], root, LiveAfter(events[..i - 1]), events[i - 1], states[i]);
      hide Step;
      StepKeepsLive(states[i - 1], root, LiveAfter(events[..i - 1]), events[i - 1], states[i]);
    }
    forall r | r in LiveAfter(events[..i]) ensures RangeClearable(states[i], root, r.lo, r.hi) {
      LiveIsClearable(states[i], root, LiveAfter(events[..i]), r);
    }
  }

  lemma LiveIsClearable(s: Vm, root: nat, live: set<Range>, r: Range)
    requires s.env.bootRoot < |s.ram| && Live(s, root, live) && r in live
    ensures RangeClearable(s, root, r.lo, r.hi)
  {
    assert AllMapped(s, root, r);
  }
}
