/** The memory image a program is loaded into: which pages it covers, what its bytes are, and how
    mapping a range and copying a byte change it. */
module ElfImage {
  import opened Memory
  import opened Bytes
  import opened Paging
  import opened AddressSpace
  import opened NewEntry
  import opened Mapping
  import opened Search

  const USER_LIMIT: int := 0x8000_0000_0000

  /** Page v is mapped to a data frame of its own. */
  predicate Owned(s: Vm, root: nat, v: Page)
    requires IsPage(v)
  {
    var tr := Translate(s.ram, root, v);
    tr.Mapped? && tr.level == 1 && tr.frame < |s.ram| && HasNode(s, tr.frame, Node(root, 0, v))
  }

  /** The byte the program sees at address a. */
  function ProgramByte(s: Vm, root: nat, a: nat): Byte
    requires a < USER_LIMIT && Owned(s, root, PageAt(a / PAGE_SIZE))
  {
    FrameByte(s.ram, Translate(s.ram, root, PageAt(a / PAGE_SIZE)).frame, a % PAGE_SIZE)
  }

  /** In n, grown from s, the pages (by number) are mapped and hold the given bytes; every other
      page translates as in s. */
  ghost predicate Image(s: Vm, n: Vm, root: nat, pages: set<nat>, content: nat -> int) {
    && VmOk(n) && n.env == s.env && |n.ram| == |s.ram| && IsRoot(n, root)
    && (forall k: nat :: Private(n, k) == Private(s, k))
    && PagesOwned(n, root, pages) && BytesShown(n, root, pages, content) && OthersSame(s, n, root, pages)
  }

  ghost predicate PagesOwned(n: Vm, root: nat, pages: set<nat>) {
    forall p | p in pages :: p < USER_LIMIT / PAGE_SIZE && PageAt(p).l4 != RECURSIVE_SLOT && Owned(n, root, PageAt(p))
  }

  ghost predicate BytesShown(n: Vm, root: nat, pages: set<nat>, content: nat -> int)
    requires PagesOwned(n, root, pages)
  {
    forall a: nat | a < USER_LIMIT && a / PAGE_SIZE in pages :: ProgramByte(n, root, a) == content(a)
  }

  ghost predicate OthersSame(s: Vm, n: Vm, root: nat, pages: set<nat>) {
    forall v | IsPage(v) && v.l4 != RECURSIVE_SLOT && PageNumber(v) !in pages ::
      Translate(n.ram, root, v) == Translate(s.ram, root, v)
  }

  lemma ImageStart(s: Vm, root: nat, content: nat -> int)
    requires VmOk(s) && IsRoot(s, root)
    ensures Image(s, s, root, {}, content)
  {
    hide VmOk;
  }

  /** The page numbers from first to last. */
  function PageSet(first: nat, last: nat): set<nat> {
    set p: nat | p <= last && Within(p, first, last)
  }

  predicate Within(p: nat, first: nat, last: nat) {
    first <= p <= last
  }

  /** Mapping a range adds its pages; those that were not covered before come up zero, those that
      were keep their bytes. */
  lemma ImageAfterMap(s: Vm, n: Vm, m: Vm, root: nat, pages: set<nat>, content: nat -> int, first: nat, last: nat)
    requires VmOk(s) && Image(s, n, root, pages, content) && RangeOk(n, first, last)
    requires MappedUpTo(n, m, root, first, last + 1) && last < USER_LIMIT / PAGE_SIZE
    requires forall p | first <= p <= last && p !in pages :: Translate(s.ram, root, PageAt(p)) == Fault
    requires forall a: nat | first <= a / PAGE_SIZE <= last && a / PAGE_SIZE !in pages :: content(a) == 0
    ensures Image(s, m, root, pages + PageSet(first, last), content)
  {
    hide VmOk, PagesOwned, BytesShown, OthersSame, PageSet;
    MappedSameSlots(n, m, root, first, last + 1);
    PagesAfterMapping(s, n, m, root, pages, content, first, last);
    BytesAfterMapping(s, n, m, root, pages, content, first, last);
    OthersAfterMapping(s, n, m, root, pages, content, first, last);
  }

  lemma PagesAfterMapping(s: Vm, n: Vm, m: Vm, root: nat, pages: set<nat>, content: nat -> int, first: nat, last: nat)
    requires Image(s, n, root, pages, content) && RangeOk(n, first, last)
    requires MappedUpTo(n, m, root, first, last + 1) && last < USER_LIMIT / PAGE_SIZE
    requires forall p | first <= p <= last && p !in pages :: Translate(s.ram, root, PageAt(p)) == Fault
    ensures PagesOwned(m, root, pages + PageSet(first, last))
  {
    hide VmOk, Image, MappedUpTo, PageSet, RangeOk;
    forall p | p in pages + PageSet(first, last)
      ensures p < USER_LIMIT / PAGE_SIZE && PageAt(p).l4 != RECURSIVE_SLOT && Owned(m, root, PageAt(p))
    {
      PageAfterMapping(s, n, m, root, pages, content, first, last, p);
    }
  }

  lemma BytesAfterMapping(s: Vm, n: Vm, m: Vm, root: nat, pages: set<nat>, content: nat -> int, first: nat, last: nat)
    requires Image(s, n, root, pages, content) && RangeOk(n, first, last)
    requires MappedUpTo(n, m, root, first, last + 1) && last < USER_LIMIT / PAGE_SIZE
    requires forall p | first <= p <= last && p !in pages :: Translate(s.ram, root, PageAt(p)) == Fault
    requires forall a: nat | first <= a / PAGE_SIZE <= last && a / PAGE_SIZE !in pages :: content(a) == 0
    requires PagesOwned(m, root, pages + PageSet(first, last))
    ensures BytesShown(m, root, pages + PageSet(first, last), content)
  {
    hide VmOk, Image, MappedUpTo, PageSet, PagesOwned, RangeOk;
    forall a: nat | a < USER_LIMIT && a / PAGE_SIZE in pages + PageSet(first, last)
      ensures Owned(m, root, PageAt(a / PAGE_SIZE)) && ProgramByte(m, root, a) == content(a)
    {
      ByteAfterMapping(s, n, m, root, pages, content, first, last, a);
    }
  }

  lemma OthersAfterMapping(s: Vm, n: Vm, m: Vm, root: nat, pages: set<nat>, content: nat -> int, first: nat, last: nat)
    requires Image(s, n, root, pages, content) && MappedUpTo(n, m, root, first, last + 1)
    ensures OthersSame(s, m, root, pages + PageSet(first, last))
  {
    hide VmOk, PagesOwned, BytesShown;
    forall v | IsPage(v) && v.l4 != RECURSIVE_SLOT && PageNumber(v) !in pages + PageSet(first, last)
      ensures Translate(m.ram, root, v) == Translate(s.ram, root, v)
    {
      assert PageMapped(n, m, root, first, last + 1, v);
    }
  }

  lemma PageSlot(s: Vm, first: nat, last: nat, p: nat)
    requires s.env.bootRoot < |s.ram| && RangeOk(s, first, last) && first <= p <= last
    ensures p < ALL_PAGES && Private(s, PageAt(p).l4)
  {
    SlotOfPage(PageAt(p));
  }

  lemma PageAfterMapping(s: Vm, n: Vm, m: Vm, root: nat, pages: set<nat>, content: nat -> int,
                         first: nat, last: nat, p: nat)
    requires Image(s, n, root, pages, content) && RangeOk(n, first, last)
    requires MappedUpTo(n, m, root, first, last + 1) && last < USER_LIMIT / PAGE_SIZE
    requires forall p | first <= p <= last && p !in pages :: Translate(s.ram, root, PageAt(p)) == Fault
    requires p in pages + PageSet(first, last)
    ensures p < USER_LIMIT / PAGE_SIZE && PageAt(p).l4 != RECURSIVE_SLOT && Owned(m, root, PageAt(p))
    ensures p in pages ==> Translate(m.ram, root, PageAt(p)) == Translate(n.ram, root, PageAt(p))
    ensures p !in pages ==> Zeroed(m.ram[Translate(m.ram, root, PageAt(p)).frame])
  {
    var v := PageAt(p);
    if p !in pages {
      PageSlot(n, first, last, p);
    }
    assert PageMapped(n, m, root, first, last + 1, v);
    if p !in pages {
      assert Translate(n.ram, root, v) == Fault;
      assert NodeOk(m, Translate(m.ram, root, v).frame);
    }
  }

  lemma DataFrameKept(n: Vm, m: Vm, root: nat, lo: nat, hi: nat, f: nat)
    requires VmOk(n) && MappedUpTo(n, m, root, lo, hi) && f in n.tree && n.tree[f].level == 0
    ensures f < |n.ram| == |m.ram| && m.ram[f] == n.ram[f]
  {
    assert NodeOk(n, f);
    assert f in n.tree && !OwnTable(n, root, f);
  }

  lemma ByteAfterMapping(s: Vm, n: Vm, m: Vm, root: nat, pages: set<nat>, content: nat -> int,
                         first: nat, last: nat, a: nat)
    requires Image(s, n, root, pages, content) && RangeOk(n, first, last)
    requires MappedUpTo(n, m, root, first, last + 1) && last < USER_LIMIT / PAGE_SIZE
    requires forall p | first <= p <= last && p !in pages :: Translate(s.ram, root, PageAt(p)) == Fault
    requires forall a: nat | first <= a / PAGE_SIZE <= last && a / PAGE_SIZE !in pages :: content(a) == 0
    requires a < USER_LIMIT && a / PAGE_SIZE in pages + PageSet(first, last)
    ensures Owned(m, root, PageAt(a / PAGE_SIZE)) && ProgramByte(m, root, a) == content(a)
  {
    hide VmOk, MappedUpTo, RangeOk, OthersSame;
    var p := a / PAGE_SIZE;
    PageAfterMapping(s, n, m, root, pages, content, first, last, p);
    var f := Translate(m.ram, root, PageAt(p)).frame;
    if p in pages {
      assert Owned(n, root, PageAt(p));
      DataFrameKept(n, m, root, first, last + 1, f);
      assert ProgramByte(n, root, a) == content(a);
    } else {
      ZeroByte(a % PAGE_SIZE % 8);
    }
  }

  /** Storing byte b at address a of a covered page. */
  lemma ImageAfterByte(s: Vm, n: Vm, m: Vm, root: nat, pages: set<nat>, content: nat -> int, next: nat -> int,
                       a: nat, b: Byte)
    requires Image(s, n, root, pages, content) && a < USER_LIMIT && a / PAGE_SIZE in pages
    requires m == n.(ram := StoreByte(n.ram, Translate(n.ram, root, PageAt(a / PAGE_SIZE)).frame, a % PAGE_SIZE, b))
    requires forall x: nat :: next(x) == if x == a then b else content(x)
    ensures SameTables(n, m) && Image(s, m, root, pages, next)
  {
    var f := Translate(n.ram, root, PageAt(a / PAGE_SIZE)).frame;
    ByteStoreSpares(n, m, f, a % PAGE_SIZE, b);
    forall v | IsPage(v) ensures Translate(m.ram, root, v) == Translate(n.ram, root, v) {
      UntouchedDirectory(n, m.ram, root, v);
    }
    forall x: nat | x < USER_LIMIT && x / PAGE_SIZE in pages ensures ProgramByte(m, root, x) == next(x) {
      ByteAfterByte(n, m, root, a, b, x);
      assert ProgramByte(n, root, x) == content(x);
    }
  }

  lemma ByteStoreSpares(n: Vm, m: Vm, f: nat, o: nat, b: Byte)
    requires VmOk(n) && f in n.tree && n.tree[f].level == 0 && f < |n.ram| && o < PAGE_SIZE
    requires m == n.(ram := StoreByte(n.ram, f, o, b))
    ensures SameTables(n, m) && VmOk(m)
    ensures forall g: nat | g < |n.ram| && g != f :: m.ram[g] == n.ram[g]
    ensures forall k: nat :: Private(m, k) == Private(n, k)
  {
    assert NodeOk(n, f);
    SameTablesOk(n, m);
  }

  lemma ByteAfterByte(n: Vm, m: Vm, root: nat, a: nat, b: Byte, x: nat)
    requires a < USER_LIMIT && x < USER_LIMIT
    requires Owned(n, root, PageAt(a / PAGE_SIZE)) && Owned(n, root, PageAt(x / PAGE_SIZE))
    requires m == n.(ram := StoreByte(n.ram, Translate(n.ram, root, PageAt(a / PAGE_SIZE)).frame, a % PAGE_SIZE, b))
    requires forall v | IsPage(v) :: Translate(m.ram, root, v) == Translate(n.ram, root, v)
    ensures Owned(m, root, PageAt(x / PAGE_SIZE))
    ensures ProgramByte(m, root, x) == if x == a then b else ProgramByte(n, root, x)
  {
    hide Translate, FrameByte, StoreByte, PageAt;
    var v, w := PageAt(a / PAGE_SIZE), PageAt(x / PAGE_SIZE);
    var f, g := Translate(n.ram, root, v).frame, Translate(n.ram, root, w).frame;
    StoreByteLength(n.ram, f, a % PAGE_SIZE, b);
    StoreByteGets(n.ram, f, a % PAGE_SIZE, b, g, x % PAGE_SIZE);
    assert f == g ==> v == w;
    assert v == w ==> PageNumber(v) == PageNumber(w);
  }

  lemma StoreByteLength(ram: Ram, f: nat, o: nat, b: Byte)
    requires f < |ram| && o < PAGE_SIZE
    ensures |StoreByte(ram, f, o, b)| == |ram|
  {
  }
}
