/** What mapping a range of pages does to an address space, entry by entry. */
module Mapping {
  import opened Bits
  import opened Memory
  import opened Paging
  import opened AddressSpace
  import opened NewEntry
  import opened LeafEntry

  function NewFrames(s: Vm, n: Vm): set<nat> {
    n.tree.Keys - s.tree.Keys
  }

  /** The tables a mapping call in directory `root` may write. */
  predicate OwnTable(s: Vm, root: nat, f: nat) {
    IsTable(s, f) && s.tree[f].root == root
  }

  /** Only directory `root` grew, by frames that were free. */
  ghost predicate Grown(s: Vm, n: Vm, root: nat) {
    && n.env == s.env && |n.ram| == |s.ram|
    && (forall f | f in s.tree :: f in n.tree && n.tree[f] == s.tree[f])
    && (forall f | f in NewFrames(s, n) :: f !in s.taken && n.tree[f].root == root)
    && n.taken == s.taken + NewFrames(s, n)
  }

  /** Nothing is written but the bitmap, the new frames and empty entries of `root`'s tables. */
  ghost predicate KeepsMemory(s: Vm, n: Vm, root: nat)
    requires |n.ram| == |s.ram|
  {
    && (forall f: nat | f < |s.ram| && f !in s.env.bitmap && f !in NewFrames(s, n) && !OwnTable(s, root, f) ::
          n.ram[f] == s.ram[f])
    && (forall t: nat, k | OwnTable(s, root, t) && t < |s.ram| && 0 <= k < ENTRIES && s.ram[t][k] != 0 ::
          n.ram[t][k] == s.ram[t][k])
  }

  /** Page v of the range [lo, hi) of page numbers is mapped: to the frame it had, or to a new,
      all-zero frame of its own.  Outside the range its translation is what it was. */
  ghost predicate PageMapped(s: Vm, n: Vm, root: nat, lo: nat, hi: nat, v: Page)
    requires IsPage(v) && |n.ram| == |s.ram|
  {
    var was, now := Translate(s.ram, root, v), Translate(n.ram, root, v);
    if was.Mapped? || !(lo <= PageNumber(v) < hi) then now == was
    else
      && now.Mapped? && now.level == 1 && now.frame < |n.ram|
      && now.frame in NewFrames(s, n) && n.tree[now.frame] == Node(root, 0, v) && Zeroed(n.ram[now.frame])
  }

  ghost predicate RangeMapped(s: Vm, n: Vm, root: nat, lo: nat, hi: nat)
    requires |n.ram| == |s.ram|
  {
    forall v | IsPage(v) && v.l4 != RECURSIVE_SLOT :: PageMapped(s, n, root, lo, hi, v)
  }

  /** The contract of a mapping call that has dealt with the pages [lo, hi). */
  ghost predicate MappedUpTo(s: Vm, n: Vm, root: nat, lo: nat, hi: nat) {
    && VmOk(n) && Grown(s, n, root) && KeepsMemory(s, n, root) && RangeMapped(s, n, root, lo, hi)
    && (forall f | f in NewFrames(s, n) && n.tree[f].level == 0 :: NewDataFrame(s, n, root, lo, hi, f))
  }

  /** New data frames are those of newly mapped pages of the range, no others. */
  ghost predicate NewDataFrame(s: Vm, n: Vm, root: nat, lo: nat, hi: nat, f: nat)
    requires f in n.tree
  {
    var v := n.tree[f].at;
    && IsPage(v) && v.l4 != RECURSIVE_SLOT && lo <= PageNumber(v) < hi
    && Translate(s.ram, root, v) == Fault && Translate(n.ram, root, v) == Mapped(f, 1)
  }

  lemma MappedNothing(s: Vm, root: nat, lo: nat)
    requires VmOk(s)
    ensures MappedUpTo(s, s, root, lo, lo)
  {
    hide VmOk;
  }

  lemma LinkedGrown(s: Vm, m: Vm, n: Vm, root: nat, t: nat, k: nat, f: nat)
    requires VmOk(m) && Grown(s, m, root) && KeepsMemory(s, m, root)
    requires Linked(m, n, t, k, f) && OwnTable(m, root, t)
    requires s.tree.Keys <= s.taken
    ensures Grown(s, n, root) && KeepsMemory(s, n, root)
    ensures NewFrames(s, n) == NewFrames(s, m) + {f}
  {
    hide VmOk;
    LinkedFrames(m, n, t, k, f);
    forall x: nat, i | OwnTable(s, root, x) && x < |s.ram| && 0 <= i < ENTRIES && s.ram[x][i] != 0
      ensures n.ram[x][i] == s.ram[x][i]
    {
      LinkedKeeps(m, n, t, k, f, x, i);
    }
    assert NewFrames(s, n) == NewFrames(s, m) + {f};
  }

  /** Linking a table frame maps nothing yet. */
  lemma PageAfterTable(s: Vm, m: Vm, n: Vm, root: nat, lo: nat, hi: nat, t: nat, k: nat, f: nat, v: Page)
    requires MappedUpTo(s, m, root, lo, hi) && Linked(m, n, t, k, f) && m.tree[t].level > 1
    requires OwnTable(m, root, t) && IsRoot(m, root) && IsPage(v) && v.l4 != RECURSIVE_SLOT
    requires NewFrames(s, n) == NewFrames(s, m) + {f}
    ensures |n.ram| == |s.ram| && PageMapped(s, n, root, lo, hi, v)
  {
    assert PageMapped(s, m, root, lo, hi, v);
    hide VmOk, RangeMapped, KeepsMemory;
    LinkedTranslate(m, n, t, k, f, root, v);
    KeptNewFrame(m, n, t, k, f, Translate(m.ram, root, v));
  }

  lemma MappedAfterTable(s: Vm, m: Vm, n: Vm, root: nat, lo: nat, hi: nat, t: nat, k: nat, f: nat)
    requires s.tree.Keys <= s.taken && MappedUpTo(s, m, root, lo, hi)
    requires Linked(m, n, t, k, f) && OwnTable(m, root, t) && m.tree[t].level > 1
    ensures MappedUpTo(s, n, root, lo, hi)
  {
    assert NodeOk(m, t);
    hide VmOk;
    LinkedOk(m, n, t, k, f);
    LinkedGrown(s, m, n, root, t, k, f);
    LinkedFrames(m, n, t, k, f);
    forall v | IsPage(v) && v.l4 != RECURSIVE_SLOT ensures PageMapped(s, n, root, lo, hi, v) {
      PageAfterTable(s, m, n, root, lo, hi, t, k, f, v);
    }
    KeptDataFrames(s, m, n, root, lo, hi, t, k, f);
  }

  lemma KeptDataFrames(s: Vm, m: Vm, n: Vm, root: nat, lo: nat, hi: nat, t: nat, k: nat, f: nat)
    requires MappedUpTo(s, m, root, lo, hi) && Linked(m, n, t, k, f) && IsRoot(m, root)
    requires NewFrames(s, n) == NewFrames(s, m) + {f}
    ensures forall g | g in NewFrames(s, m) && n.tree[g].level == 0 :: NewDataFrame(s, n, root, lo, hi, g)
  {
    forall g | g in NewFrames(s, m) && n.tree[g].level == 0 ensures NewDataFrame(s, n, root, lo, hi, g) {
      LinkedFrames(m, n, t, k, f);
      hide VmOk, RangeMapped, KeepsMemory;
      assert NewDataFrame(s, m, root, lo, hi, g);
      LinkedTranslate(m, n, t, k, f, root, m.tree[g].at);
    }
  }

  lemma KeptNewFrame(m: Vm, n: Vm, t: nat, k: nat, f: nat, tr: Translation)
    requires VmOk(m) && Linked(m, n, t, k, f)
    ensures tr.Mapped? && tr.frame in m.tree && m.tree[tr.frame].level == 0 ==>
            tr.frame < |m.ram| == |n.ram| && n.ram[tr.frame] == m.ram[tr.frame]
  {
    LinkedFrames(m, n, t, k, f);
    if tr.Mapped? && tr.frame in m.tree {
      assert NodeOk(m, tr.frame);
    }
  }

  /** Linking a data frame maps the next page. */
  lemma MappedAfterPage(s: Vm, m: Vm, n: Vm, root: nat, lo: nat, v: Page, t: nat, k: nat, f: nat)
    requires s.tree.Keys <= s.taken && IsPage(v) && v.l4 != RECURSIVE_SLOT && lo <= PageNumber(v)
    requires MappedUpTo(s, m, root, lo, PageNumber(v))
    requires Linked(m, n, t, k, f) && Maps(m, t, k, root, v)
    ensures MappedUpTo(s, n, root, lo, PageNumber(v) + 1)
  {
    assert NodeOk(m, t);
    hide VmOk;
    LinkedOk(m, n, t, k, f);
    LinkedGrown(s, m, n, root, t, k, f);
    forall w | IsPage(w) && w.l4 != RECURSIVE_SLOT ensures PageMapped(s, n, root, lo, PageNumber(v) + 1, w) {
      PageAfterPage(s, m, n, root, lo, v, t, k, f, w);
    }
    KeptDataFrames(s, m, n, root, lo, PageNumber(v), t, k, f);
    LinkedTranslate(m, n, t, k, f, root, v);
    assert PageMapped(s, m, root, lo, PageNumber(v), v);
    assert NewDataFrame(s, n, root, lo, PageNumber(v) + 1, f);
  }

  lemma PageAfterPage(s: Vm, m: Vm, n: Vm, root: nat, lo: nat, v: Page, t: nat, k: nat, f: nat, w: Page)
    requires IsPage(v) && v.l4 != RECURSIVE_SLOT && lo <= PageNumber(v)
    requires MappedUpTo(s, m, root, lo, PageNumber(v))
    requires Linked(m, n, t, k, f) && Maps(m, t, k, root, v) && IsRoot(m, root)
    requires NewFrames(s, n) == NewFrames(s, m) + {f}
    requires IsPage(w) && w.l4 != RECURSIVE_SLOT
    ensures |n.ram| == |s.ram| && PageMapped(s, n, root, lo, PageNumber(v) + 1, w)
  {
    assert PageMapped(s, m, root, lo, PageNumber(v), w);
    LinkedTranslate(m, n, t, k, f, root, w);
    KeptNewFrame(m, n, t, k, f, Translate(m.ram, root, w));
    assert Maps(m, t, k, root, w) ==> Prefix(v, 1) == Prefix(w, 1) && v == w;
    if PageNumber(w) == PageNumber(v) {
      PageNumberInjective(v, w);
    }
    hide VmOk, Translate, RangeMapped, KeepsMemory;
  }

  /** A page whose entry is in use already is dealt with. */
  lemma MappedAfterSkip(s: Vm, m: Vm, root: nat, lo: nat, v: Page)
    requires IsPage(v) && v.l4 != RECURSIVE_SLOT && lo <= PageNumber(v)
    requires MappedUpTo(s, m, root, lo, PageNumber(v)) && Translate(m.ram, root, v).Mapped?
    ensures MappedUpTo(s, m, root, lo, PageNumber(v) + 1)
  {
    forall w | IsPage(w) && w.l4 != RECURSIVE_SLOT ensures PageMapped(s, m, root, lo, PageNumber(v) + 1, w) {
      assert PageMapped(s, m, root, lo, PageNumber(v), w);
      if PageNumber(w) == PageNumber(v) {
        PageNumberInjective(v, w);
      }
    }
  }

  // ---------------------------------------------------------------- consequences

  /** A page of a private slot is mapped to a data frame of its own or to unmanaged memory. */
  lemma LeafIsOwned(s: Vm, root: nat, v: Page)
    requires VmOk(s) && IsRoot(s, root) && IsPage(v) && Private(s, v.l4)
    requires Translate(s.ram, root, v).Mapped?
    ensures Translate(s.ram, root, v).level == 1
    ensures var f := Translate(s.ram, root, v).frame;
      HasNode(s, f, Node(root, 0, v)) || f !in s.env.managed
  {
    if TableAt(s.ram, root, v, 1) < 0 {
      NoLargeBelow(s, root, root, 4, v);
    } else {
      TableAtIsNode(s, root, v, 1);
      WalkFromTable(s.ram, root, v, 1);
      var t: nat := TableAt(s.ram, root, v, 1);
      assert NodeOk(s, t) && EntryOk(s, t, v.l1);
      DownPrefix(v, 1);
    }
  }

  lemma {:induction false} NoLargeBelow(s: Vm, root: nat, x: nat, level: nat, v: Page)
    requires VmOk(s) && IsPage(v) && Private(s, v.l4) && 1 <= level <= 4
    requires HasNode(s, x, Node(root, level, Prefix(v, level)))
    requires TableAt(s.ram, root, v, 1) < 0
    ensures Walk(s.ram, x, level, v) == Fault
    decreases level
  {
    assert NodeOk(s, x) && EntryOk(s, x, Index(v, level));
    TableAtNode(s, x, v);
    var e := s.ram[x][Index(v, level)];
    if level > 1 && e != 0 {
      DownPrefix(v, level);
      NoLargeBelow(s, root, FrameOf(e), level - 1, v);
    }
  }

  /** Mapping leaves slots as private or shared as they were. */
  lemma MappedSameSlots(s: Vm, n: Vm, root: nat, lo: nat, hi: nat)
    requires VmOk(s) && IsRoot(s, root) && MappedUpTo(s, n, root, lo, hi)
    ensures IsRoot(n, root) && forall k: nat :: Private(n, k) == Private(s, k)
  {
    assert s.env.bootRoot !in NewFrames(s, n);
    assert !OwnTable(s, root, s.env.bootRoot);
    assert n.ram[s.env.bootRoot] == s.ram[s.env.bootRoot];
  }

  /** A mapping call in one directory leaves every translation of every other one alone. */
  lemma MappingIsolated(s: Vm, n: Vm, root: nat, lo: nat, hi: nat, other: nat, v: Page)
    requires VmOk(s) && MappedUpTo(s, n, root, lo, hi)
    requires IsRoot(s, other) && other != root && IsPage(v)
    ensures IsRoot(n, other) && Translate(n.ram, other, v) == Translate(s.ram, other, v)
  {
    forall g: nat | IsTable(s, g) && s.tree[g].root == other ensures g < |n.ram| && n.ram[g] == s.ram[g] {
      assert NodeOk(s, g);
    }
    UntouchedDirectory(s, n.ram, other, v);
  }

  /** New pages get frames of their own: no other page, of this directory or another, shows one,
      except through slot 50 or a slot shared with the bootloader's directory. */
  lemma NewPagesDistinct(s: Vm, n: Vm, root: nat, lo: nat, hi: nat, v: Page, other: nat, w: Page)
    requires VmOk(s) && IsRoot(s, root) && IsRoot(s, other) && MappedUpTo(s, n, root, lo, hi)
    requires IsPage(v) && IsPage(w) && (v != w || root != other)
    requires v.l4 != RECURSIVE_SLOT && Private(s, w.l4)
    requires Translate(s.ram, root, v) == Fault && Translate(n.ram, root, v).Mapped?
    requires Translate(n.ram, other, w).Mapped?
    ensures Translate(n.ram, root, v).frame != Translate(n.ram, other, w).frame
  {
    assert PageMapped(s, n, root, lo, hi, v);
    NewFrameManaged(s, n, root, lo, hi, Translate(n.ram, root, v).frame);
    hide VmOk;
    if other != root {
      MappingIsolated(s, n, root, lo, hi, other, w);
    } else {
      assert PageMapped(s, n, root, lo, hi, w);
    }
    if Translate(s.ram, other, w).Mapped? {
      LeafIsOwned(s, other, w);
    }
  }

  lemma NewFrameManaged(s: Vm, n: Vm, root: nat, lo: nat, hi: nat, f: nat)
    requires MappedUpTo(s, n, root, lo, hi) && f in NewFrames(s, n)
    ensures f !in s.tree && f in s.env.managed
  {
    assert NodeOk(n, f);
  }

  // ---------------------------------------------------------------- windows on given memory

  /** As `KeepsMemory`, except that lowest-level entries may be replaced. */
  ghost predicate KeepsUpper(s: Vm, n: Vm, root: nat)
    requires |n.ram| == |s.ram|
  {
    && (forall f: nat | f < |s.ram| && f !in s.env.bitmap && f !in NewFrames(s, n) && !OwnTable(s, root, f) ::
          n.ram[f] == s.ram[f])
    && (forall t: nat, k | OwnTable(s, root, t) && s.tree[t].level > 1 && t < |s.ram| && 0 <= k < ENTRIES
                           && s.ram[t][k] != 0 :: n.ram[t][k] == s.ram[t][k])
  }

  /** Page lo + i of the range translates to frame `frame` + i, other pages as they did. */
  ghost predicate PageWindowed(s: Vm, n: Vm, root: nat, lo: nat, hi: nat, frame: nat, v: Page)
    requires IsPage(v) && |n.ram| == |s.ram|
  {
    Translate(n.ram, root, v) ==
      if lo <= PageNumber(v) < hi then Mapped(frame + (PageNumber(v) - lo), 1) else Translate(s.ram, root, v)
  }

  /** The contract of a physical-mapping call that has dealt with the pages [lo, hi). */
  ghost predicate WindowUpTo(s: Vm, n: Vm, root: nat, lo: nat, hi: nat, frame: nat) {
    && VmOk(n) && Grown(s, n, root) && KeepsUpper(s, n, root)
    && (forall v | IsPage(v) && v.l4 != RECURSIVE_SLOT :: PageWindowed(s, n, root, lo, hi, frame, v))
  }

  lemma WindowNothing(s: Vm, root: nat, lo: nat, frame: nat)
    requires VmOk(s)
    ensures WindowUpTo(s, s, root, lo, lo, frame)
  {
    hide VmOk;
  }

  lemma LinkedGrownUpper(s: Vm, m: Vm, n: Vm, root: nat, t: nat, k: nat, f: nat)
    requires VmOk(m) && Grown(s, m, root) && KeepsUpper(s, m, root)
    requires Linked(m, n, t, k, f) && OwnTable(m, root, t)
    requires s.tree.Keys <= s.taken
    ensures Grown(s, n, root) && KeepsUpper(s, n, root)
  {
    hide VmOk;
    LinkedFrames(m, n, t, k, f);
    forall x: nat, i | OwnTable(s, root, x) && s.tree[x].level > 1 && x < |s.ram| && 0 <= i < ENTRIES
                    && s.ram[x][i] != 0
      ensures n.ram[x][i] == s.ram[x][i]
    {
      LinkedKeeps(m, n, t, k, f, x, i);
    }
    assert NewFrames(s, n) == NewFrames(s, m) + {f};
  }

  lemma WindowAfterTable(s: Vm, m: Vm, n: Vm, root: nat, lo: nat, hi: nat, frame: nat, t: nat, k: nat, f: nat)
    requires s.tree.Keys <= s.taken && WindowUpTo(s, m, root, lo, hi, frame)
    requires Linked(m, n, t, k, f) && OwnTable(m, root, t) && m.tree[t].level > 1
    ensures WindowUpTo(s, n, root, lo, hi, frame)
  {
    LinkedOk(m, n, t, k, f);
    LinkedGrownUpper(s, m, n, root, t, k, f);
    assert NodeOk(m, t);
    forall v | IsPage(v) && v.l4 != RECURSIVE_SLOT ensures PageWindowed(s, n, root, lo, hi, frame, v) {
      hide VmOk, Linked;
      LinkedTranslate(m, n, t, k, f, root, v);
      assert PageWindowed(s, m, root, lo, hi, frame, v);
    }
  }

  /** Only entry k of table t changed, to a leaf for an unmanaged frame. */
  ghost predicate Pointed(m: Vm, n: Vm, t: nat, k: nat, e: Word) {
    && IsTable(m, t) && t < |m.ram| && k < ENTRIES
    && n == m.(ram := StoreWord(m.ram, t, k, e))
    && Present(e) && Clean(e) && FrameOf(e) !in m.env.managed
  }

  lemma PointedIsLeafChange(m: Vm, n: Vm, t: nat, k: nat, e: Word)
    requires VmOk(m) && Pointed(m, n, t, k, e) && m.tree[t].level == 1
    ensures LeafChanged(m, n, t, k)
  {
    assert NodeOk(m, t);
    forall g | g in m.tree ensures g in m.taken {
      assert NodeOk(m, g);
    }
  }

  lemma PageAfterLeaf(s: Vm, m: Vm, n: Vm, root: nat, lo: nat, v: Page, frame: nat, t: nat, e: Word, w: Page)
    requires IsPage(v) && v.l4 != RECURSIVE_SLOT && lo <= PageNumber(v)
    requires WindowUpTo(s, m, root, lo, PageNumber(v), frame) && IsRoot(m, root)
    requires Maps(m, t, v.l1, root, v) && LeafChanged(m, n, t, v.l1) && n.ram[t][v.l1] == e
    requires Present(e) && FrameOf(e) == frame + (PageNumber(v) - lo)
    requires IsPage(w) && w.l4 != RECURSIVE_SLOT
    ensures |n.ram| == |s.ram| && PageWindowed(s, n, root, lo, PageNumber(v) + 1, frame, w)
  {
    assert PageWindowed(s, m, root, lo, PageNumber(v), frame, w);
    LeafTranslate(m, n, t, v.l1, root, w);
    hide VmOk, LeafChanged, KeepsUpper;
    assert Maps(m, t, v.l1, root, w) ==> v == w;
    if PageNumber(w) == PageNumber(v) {
      PageNumberInjective(v, w);
    }
  }

  lemma WindowAfterLeaf(s: Vm, m: Vm, n: Vm, root: nat, lo: nat, v: Page, frame: nat, t: nat, e: Word)
    requires s.tree.Keys <= s.taken && IsPage(v) && v.l4 != RECURSIVE_SLOT && lo <= PageNumber(v)
    requires WindowUpTo(s, m, root, lo, PageNumber(v), frame)
    requires Maps(m, t, v.l1, root, v) && Pointed(m, n, t, v.l1, e)
    requires FrameOf(e) == frame + (PageNumber(v) - lo)
    ensures WindowUpTo(s, n, root, lo, PageNumber(v) + 1, frame)
  {
    hide EnvOk, EntriesOk, AllAnchored;
    PointedIsLeafChange(m, n, t, v.l1, e);
    LeafChangedOk(m, n, t, v.l1);
    assert NodeOk(m, t);
    forall w | IsPage(w) && w.l4 != RECURSIVE_SLOT
      ensures PageWindowed(s, n, root, lo, PageNumber(v) + 1, frame, w)
    {
      PageAfterLeaf(s, m, n, root, lo, v, frame, t, e, w);
    }
    hide VmOk, PageWindowed;
    assert Grown(s, n, root) && KeepsUpper(s, n, root);
  }

  // ---------------------------------------------------------------- one call

  const SLOT_PAGES: int := 0x800_0000
  const ALL_PAGES: int := 0x10_0000_0000

  /** A mapping call: the address space it starts from, the pages [first, last] that meet the
      bytes from `offset` of page `first`, `size` of them or one, and for `kmmap_physical` the
      frame that page `first` is to show. */
  datatype Job = Job(start: Vm, root: nat, first: nat, last: nat, offset: nat, size: nat, target: Option<nat>, low: nat)

  /** The last page touched by max(size, 1) bytes from an offset of page `first`. */
  function LastPage(first: nat, offset: nat, size: nat): nat {
    first + (offset + (if size == 0 then 1 else size) - 1) / PAGE_SIZE
  }

  /** The pages lie in the 48-bit space, under slots of the directory's own. */
  ghost predicate RangeOk(s: Vm, first: nat, last: nat)
    requires s.env.bootRoot < |s.ram|
  {
    last < ALL_PAGES && forall p: nat | first <= p <= last :: Private(s, p / SLOT_PAGES)
  }

  ghost predicate JobOk(j: Job) {
    && VmOk(j.start) && IsRoot(j.start, j.root) && j.offset < PAGE_SIZE
    && j.last == LastPage(j.first, j.offset, j.size) && RangeOk(j.start, j.first, j.last)
    && (j.target.Some? ==> j.offset == 0 && TargetOk(j.start, j.target.value, j.first, j.last))
  }

  /** The frames a physical mapping shows exist in entries and are not the allocator's. */
  ghost predicate TargetOk(s: Vm, frame: nat, first: nat, last: nat) {
    frame + (last - first) < FRAME_LIMIT && forall f: nat | frame <= f <= frame + (last - first) :: f !in s.env.managed
  }

  /** The bytes still to map, and the offset in the page to map them from, at page p. */
  predicate Cursor(j: Job, p: nat, l0: int, size: int) {
    && j.first <= p <= j.last
    && if p == j.first then l0 == j.offset && size == j.size
       else l0 == 0 && size == j.size + j.offset - PAGE_SIZE * (p - j.first) && size > 0
  }

  /** The physical address page p is to show, for `kmmap_physical`. */
  predicate Target(j: Job, p: nat, target: Option<Word>) {
    match j.target
    case None => target.None?
    case Some(frame) => p >= j.first && target == Some((frame + (p - j.first)) * PAGE_SIZE)
  }

  lemma TargetStep(j: Job, p: nat, target: Option<Word>, l0: int, size: int)
    requires JobOk(j) && j.first <= p < j.last && Target(j, p, target) && target.Some? && Cursor(j, p, l0, size)
    ensures l0 == 0
    ensures target.value + PAGE_SIZE < WORD_LIMIT && Target(j, p + 1, Some(target.value + PAGE_SIZE))
  {
    hide VmOk, RangeOk;
  }

  lemma TargetFrame(j: Job, p: nat)
    requires JobOk(j) && j.target.Some? && j.first <= p <= j.last
    ensures j.target.value + (p - j.first) < FRAME_LIMIT
    ensures j.target.value + (p - j.first) !in j.start.env.managed
  {
  }

  lemma CursorStep(j: Job, p: nat, l0: int, size: int)
    requires j.offset < PAGE_SIZE && j.last == LastPage(j.first, j.offset, j.size) && Cursor(j, p, l0, size)
    ensures PAGE_SIZE - l0 >= size <==> p == j.last
    ensures p < j.last ==> Cursor(j, p + 1, 0, size - (PAGE_SIZE - l0))
  {
  }

  lemma SlotOfPage(v: Page)
    requires IsPage(v)
    ensures PageNumber(v) / SLOT_PAGES == v.l4
  {
    assert PageNumber(v) == SLOT_PAGES * v.l4 + ((v.l3 * ENTRIES + v.l2) * ENTRIES + v.l1);
  }

  ghost predicate At(j: Job, n: Vm, p: nat) {
    match j.target
    case None => MappedUpTo(j.start, n, j.root, j.first, p)
    case Some(frame) => WindowUpTo(j.start, n, j.root, j.first, p, frame)
  }

  lemma StillPrivate(j: Job, n: Vm, p: nat)
    requires JobOk(j) && At(j, n, p)
    ensures IsRoot(n, j.root) && n.env == j.start.env && j.start.tree.Keys <= j.start.taken
    ensures forall k: nat :: Private(n, k) == Private(j.start, k)
  {
    var s := j.start;
    forall t | t in s.tree ensures t in s.taken {
      assert NodeOk(s, t);
    }
    assert s.env.bootRoot !in NewFrames(s, n);
    assert n.ram[s.env.bootRoot] == s.ram[s.env.bootRoot];
  }

  /** Tables found stay found. */
  lemma EnsuredKeeps(m: Vm, n: Vm, t: nat, k: nat, r: nat, v: Page, level: nat)
    requires VmOk(m) && IsTable(m, t) && k < ENTRIES && t < |m.ram| && Ensured(m, n, t, k)
    requires IsRoot(m, r) && IsPage(v) && Private(m, v.l4) && 1 <= level <= 4
    requires TableAt(m.ram, r, v, level) >= 0
    ensures TableAt(n.ram, r, v, level) == TableAt(m.ram, r, v, level)
  {
    hide VmOk, Linked;
    if m.ram[t][k] == 0 {
      var f: nat :| Linked(m, n, t, k, f);
      LinkedTableAt(m, n, t, k, f, r, v, level);
    }
  }

  /** Once the entry at a level is there, the walk reaches the next table. */
  lemma EnsuredLeads(m: Vm, n: Vm, root: nat, v: Page, level: nat, t: nat)
    requires VmOk(m) && IsRoot(m, root) && IsPage(v) && Private(m, v.l4) && 2 <= level <= 4
    requires t == TableAt(m.ram, root, v, level) && IsTable(m, t) && t < |m.ram|
    requires Ensured(m, n, t, Index(v, level))
    ensures TableAt(n.ram, root, v, level - 1) >= 0
  {
    var k := Index(v, level);
    TableAtIsNode(m, root, v, level);
    assert EntryOk(m, t, k);
    hide VmOk;
    EnsuredKeeps(m, n, t, k, root, v, level);
  }

  /** Ensuring an upper entry leaves the contract with the job as it was. */
  lemma EnsuredTable(j: Job, m: Vm, n: Vm, v: Page, level: nat, p: nat, t: nat)
    requires JobOk(j) && At(j, m, p) && IsPage(v) && Private(m, v.l4) && 2 <= level <= 4
    requires t == TableAt(m.ram, j.root, v, level) && IsTable(m, t) && t < |m.ram|
    requires Ensured(m, n, t, Index(v, level))
    ensures At(j, n, p) && TableAt(n.ram, j.root, v, level - 1) >= 0
  {
    var k := Index(v, level);
    StillPrivate(j, m, p);
    TableAtIsNode(m, j.root, v, level);
    hide VmOk, Linked, TableAt;
    EnsuredLeads(m, n, j.root, v, level, t);
    if m.ram[t][k] == 0 {
      var f: nat :| Linked(m, n, t, k, f);
      if j.target.None? {
        MappedAfterTable(j.start, m, n, j.root, j.first, p, t, k, f);
      } else {
        WindowAfterTable(j.start, m, n, j.root, j.first, p, j.target.value, t, k, f);
      }
    }
  }

  /** Once the lowest entry is there, its page is dealt with. */
  lemma EnsuredPage(j: Job, m: Vm, n: Vm, v: Page, t: nat)
    requires j.target.None? && JobOk(j) && IsPage(v) && At(j, m, PageNumber(v))
    requires Private(m, v.l4) && j.first <= PageNumber(v)
    requires t == TableAt(m.ram, j.root, v, 1) && IsTable(m, t) && t < |m.ram|
    requires Ensured(m, n, t, v.l1)
    ensures At(j, n, PageNumber(v) + 1) && TableAt(n.ram, j.root, v, 1) >= 0
  {
    StillPrivate(j, m, PageNumber(v));
    TableAtIsNode(m, j.root, v, 1);
    EnsuredKeeps(m, n, t, v.l1, j.root, v, 1);
    if m.ram[t][v.l1] == 0 {
      var f: nat :| Linked(m, n, t, v.l1, f);
      MappedAfterPage(j.start, m, n, j.root, j.first, v, t, v.l1, f);
    } else {
      assert EntryOk(m, t, v.l1);
      WalkFromTable(m.ram, j.root, v, 1);
      MappedAfterSkip(j.start, m, j.root, j.first, v);
    }
  }

  /** Once the lowest entry shows the frame, its page is dealt with. */
  lemma PointedPage(j: Job, m: Vm, n: Vm, v: Page, t: nat, e: Word)
    requires j.target.Some? && JobOk(j) && IsPage(v) && At(j, m, PageNumber(v)) && Private(m, v.l4)
    requires j.first <= PageNumber(v) <= j.last
    requires t == TableAt(m.ram, j.root, v, 1) && IsTable(m, t) && Pointed(m, n, t, v.l1, e)
    requires FrameOf(e) == j.target.value + (PageNumber(v) - j.first)
    ensures VmOk(n) && At(j, n, PageNumber(v) + 1) && TableAt(n.ram, j.root, v, 1) == t
  {
    StillPrivate(j, m, PageNumber(v));
    TableAtIsNode(m, j.root, v, 1);
    PointedIsLeafChange(m, n, t, v.l1, e);
    LeafTableAt(m, n, t, v.l1, j.root, v, 1);
    WindowAfterLeaf(j.start, m, n, j.root, j.first, v, j.target.value, t, e);
  }

  lemma {:induction false} TableAtUp(ram: Ram, r: nat, v: Page, level: nat, up: nat)
    requires IsPage(v) && 1 <= level <= up <= 4 && TableAt(ram, r, v, level) >= 0
    ensures TableAt(ram, r, v, up) >= 0
    decreases up - level
  {
    if level < up {
      TableAtUp(ram, r, v, level + 1, up);
    }
  }

  // ---------------------------------------------------------------- what the entries say besides the frame

  /** The bits below the address in an entry made with these flags. */
  function LowBits(flags: nat): nat {
    flags % PAGE_SIZE + (1 - flags % 2)
  }

  predicate SameEntry(s: Vm, n: Vm, root: nat, t: nat, k: nat)
    requires t < |n.ram| && k < ENTRIES
  {
    OwnTable(s, root, t) && t < |s.ram| && s.ram[t][k] == n.ram[t][k]
  }

  /** Every entry in the directory's tables that was not there in s has these low bits. */
  ghost predicate EntriesHold(s: Vm, n: Vm, root: nat, low: nat) {
    forall t: nat, k: nat | OwnTable(n, root, t) && t < |n.ram| && k < ENTRIES && n.ram[t][k] != 0
      && !SameEntry(s, n, root, t, k) :: n.ram[t][k] % PAGE_SIZE == low
  }

  /** Table node lies on the way to a page of the range. */
  ghost predicate OnWay(node: Node, first: nat, last: nat) {
    exists v :: IsPage(v) && first <= PageNumber(v) <= last && node.at == Prefix(v, node.level)
  }

  /** No table was added but on the way to pages of the range. */
  ghost predicate TablesFor(s: Vm, n: Vm, first: nat, last: nat) {
    forall f | f in NewFrames(s, n) && n.tree[f].level >= 1 :: OnWay(n.tree[f], first, last)
  }

  ghost predicate Frugal(j: Job, n: Vm) {
    EntriesHold(j.start, n, j.root, j.low) && TablesFor(j.start, n, j.first, j.last)
  }

  lemma FrugalStart(j: Job)
    ensures Frugal(j, j.start)
  {}

  lemma EntriesAfterLink(s: Vm, m: Vm, n: Vm, root: nat, t: nat, k: nat, f: nat, low: nat)
    requires VmOk(m) && EntriesHold(s, m, root, low) && Linked(m, n, t, k, f) && OwnTable(m, root, t)
    requires n.ram[t][k] % PAGE_SIZE == low
    ensures EntriesHold(s, n, root, low)
  {
    LinkedFrames(m, n, t, k, f);
    hide VmOk;
    forall x: nat, i: nat | OwnTable(n, root, x) && x < |n.ram| && i < ENTRIES && n.ram[x][i] != 0
      && !SameEntry(s, n, root, x, i) ensures n.ram[x][i] % PAGE_SIZE == low
    {
      if x != f && !(x == t && i == k) {
        assert OwnTable(m, root, x) && m.ram[x][i] == n.ram[x][i] && !SameEntry(s, m, root, x, i);
      }
    }
  }

  lemma EntriesAfterPoint(s: Vm, m: Vm, n: Vm, root: nat, t: nat, k: nat, e: Word, low: nat)
    requires EntriesHold(s, m, root, low) && Pointed(m, n, t, k, e) && e % PAGE_SIZE == low
    ensures EntriesHold(s, n, root, low)
  {
    forall x: nat, i: nat | OwnTable(n, root, x) && x < |n.ram| && i < ENTRIES && n.ram[x][i] != 0
      && !SameEntry(s, n, root, x, i) ensures n.ram[x][i] % PAGE_SIZE == low
    {
      if !(x == t && i == k) {
        assert OwnTable(m, root, x) && m.ram[x][i] == n.ram[x][i] && !SameEntry(s, m, root, x, i);
      }
    }
  }

  lemma TablesAfterLink(j: Job, m: Vm, n: Vm, v: Page, level: nat, t: nat, f: nat)
    requires TablesFor(j.start, m, j.first, j.last) && IsPage(v) && 1 <= level <= 4
    requires VmOk(m) && Linked(m, n, t, Index(v, level), f) && HasNode(m, t, Node(j.root, level, Prefix(v, level)))
    requires j.first <= PageNumber(v) <= j.last
    ensures TablesFor(j.start, n, j.first, j.last)
  {
    hide VmOk, Zeroed;
    DownPrefix(v, level);
    assert n.tree[f] == Node(j.root, level - 1, Prefix(v, level - 1));
    assert OnWay(n.tree[f], j.first, j.last);
  }

  /** Ensuring an entry keeps both, if it was made with the call's flags. */
  lemma EnsuredFrugal(j: Job, m: Vm, n: Vm, v: Page, level: nat, t: nat)
    requires Frugal(j, m) && VmOk(m) && IsRoot(m, j.root) && IsPage(v) && Private(m, v.l4) && 1 <= level <= 4
    requires t == TableAt(m.ram, j.root, v, level) && IsTable(m, t) && t < |m.ram| && |n.ram| == |m.ram|
    requires Ensured(m, n, t, Index(v, level)) && j.first <= PageNumber(v) <= j.last
    requires m.ram[t][Index(v, level)] == 0 ==> n.ram[t][Index(v, level)] % PAGE_SIZE == j.low
    ensures Frugal(j, n)
  {
    TableAtIsNode(m, j.root, v, level);
    hide VmOk, EntriesHold, TablesFor, Linked, Private;
    if m.ram[t][Index(v, level)] == 0 {
      var f: nat :| Linked(m, n, t, Index(v, level), f);
      EntriesAfterLink(j.start, m, n, j.root, t, Index(v, level), f, j.low);
      TablesAfterLink(j, m, n, v, level, t, f);
    }
  }

  lemma PointedFrugal(j: Job, m: Vm, n: Vm, t: nat, k: nat, e: Word)
    requires Frugal(j, m) && Pointed(m, n, t, k, e) && e % PAGE_SIZE == j.low
    ensures Frugal(j, n)
  {
    EntriesAfterPoint(j.start, m, n, j.root, t, k, e, j.low);
  }

  /** One call after another. */
  lemma EntriesCompose(s: Vm, m: Vm, n: Vm, root: nat, low: nat)
    requires EntriesHold(s, m, root, low) && EntriesHold(m, n, root, low)
    ensures EntriesHold(s, n, root, low)
  {
    forall t: nat, k: nat | OwnTable(n, root, t) && t < |n.ram| && k < ENTRIES && n.ram[t][k] != 0
      && !SameEntry(s, n, root, t, k) ensures n.ram[t][k] % PAGE_SIZE == low
    {
      if SameEntry(m, n, root, t, k) {
        assert !SameEntry(s, m, root, t, k);
      }
    }
  }

  /** Writes to data frames change no entry. */
  lemma EntriesSpared(s: Vm, m: Vm, n: Vm, root: nat, low: nat)
    requires m.env.bootRoot < |m.ram| && EntriesHold(s, m, root, low) && SameTables(m, n)
    ensures EntriesHold(s, n, root, low)
  {
    forall t: nat, k: nat | OwnTable(n, root, t) && t < |n.ram| && k < ENTRIES && n.ram[t][k] != 0
      && !SameEntry(s, n, root, t, k) ensures n.ram[t][k] % PAGE_SIZE == low
    {
      assert OwnTable(m, root, t) && m.ram[t] == n.ram[t] && !SameEntry(s, m, root, t, k);
    }
  }

  /** The entry of a page that was not mapped before and now is has those bits. */
  lemma NewLeafHolds(s: Vm, n: Vm, root: nat, low: nat, v: Page)
    requires VmOk(s) && VmOk(n) && EntriesHold(s, n, root, low) && IsRoot(s, root) && IsRoot(n, root) && IsPage(v)
    requires Private(n, v.l4) && Private(s, v.l4)
    requires forall t | t in s.tree :: t in n.tree && n.tree[t] == s.tree[t]
    requires Translate(s.ram, root, v) == Fault && Translate(n.ram, root, v).Mapped?
    ensures EntryOf(n.ram, root, v, 1) % PAGE_SIZE == low
  {
    if TableAt(n.ram, root, v, 1) < 0 {
      NoLargeBelow(n, root, root, 4, v);
    } else {
      var t: nat := TableAt(n.ram, root, v, 1);
      TableAtIsNode(n, root, v, 1);
      WalkFromTable(n.ram, root, v, 1);
      assert NodeOk(n, t);
      if SameEntry(s, n, root, t, v.l1) {
        TableAtNode(s, t, v);
        WalkFromTable(s.ram, root, v, 1);
      }
    }
  }

  /** No role of a frame was lost, and every new entry has these low bits. */
  ghost predicate Marked(s: Vm, n: Vm, root: nat, low: nat) {
    EntriesHold(s, n, root, low) && forall t | t in s.tree :: t in n.tree && n.tree[t] == s.tree[t]
  }

  lemma MarkedStart(s: Vm, root: nat, low: nat)
    ensures Marked(s, s, root, low)
  {}

  lemma MarkedMapping(s: Vm, m: Vm, n: Vm, root: nat, lo: nat, hi: nat, low: nat)
    requires Marked(s, m, root, low) && EntriesHold(m, n, root, low) && MappedUpTo(m, n, root, lo, hi)
    ensures Marked(s, n, root, low)
  {
    hide EntriesHold, VmOk;
    EntriesCompose(s, m, n, root, low);
  }

  lemma MarkedSpared(s: Vm, m: Vm, n: Vm, root: nat, low: nat)
    requires m.env.bootRoot < |m.ram| && Marked(s, m, root, low) && SameTables(m, n)
    ensures Marked(s, n, root, low)
  {
    hide EntriesHold;
    EntriesSpared(s, m, n, root, low);
  }

  /** Page p of the range meets the bytes, of which there is at least one. */
  lemma MappedPages(first: nat, offset: nat, size: nat, p: nat)
    requires offset < PAGE_SIZE
    ensures first <= p <= LastPage(first, offset, size) <==>
              && p * PAGE_SIZE < first * PAGE_SIZE + offset + (if size == 0 then 1 else size)
              && first * PAGE_SIZE + offset < p * PAGE_SIZE + PAGE_SIZE
  {}
}
