/** The ELF loader: checks the header, then maps and copies every loadable segment. */
module Launch {
  import opened Bits
  import opened Memory
  import opened Bytes
  import opened FrameState
  import opened Paging
  import opened AddressSpace
  import opened Mapping
  import opened Search
  import opened Vmm
  import opened ElfImage

  const HEADER_SIZE: int := 64
  const PROGRAM_HEADER_SIZE: int := 56
  const ELF_MAGIC: seq<Byte> := [0x7f, 0x45, 0x4c, 0x46]
  const ELF_CLASS_64: int := 2
  const ELF_TYPE_EXECUTABLE: int := 2
  const ELF_PROGRAM_HEADER_LOAD: int := 1

  /** The fields of a program header the loader reads. */
  datatype Segment = Segment(kind: nat, offset: nat, address: nat, fileSize: nat, memorySize: nat)

  function ProgramsOffset(file: seq<Byte>): nat
    requires |file| >= HEADER_SIZE
  {
    LittleEndian(file, 32, 8)
  }

  function ProgramsSize(file: seq<Byte>): nat
    requires |file| >= HEADER_SIZE
  {
    LittleEndian(file, 54, 2)
  }

  function ProgramsCount(file: seq<Byte>): nat
    requires |file| >= HEADER_SIZE
  {
    LittleEndian(file, 56, 2)
  }

  /** Where program header i starts. */
  function HeaderAt(file: seq<Byte>, i: nat): nat
    requires |file| >= HEADER_SIZE
  {
    ProgramsOffset(file) + Times(i, ProgramsSize(file))
  }

  function Times(i: nat, n: nat): nat {
    i * n
  }

  function SegmentAt(file: seq<Byte>, i: nat): Segment
    requires |file| >= HEADER_SIZE && HeaderAt(file, i) + PROGRAM_HEADER_SIZE <= |file|
  {
    var h := HeaderAt(file, i);
    Segment(LittleEndian(file, h, 4), LittleEndian(file, h + 8, 8), LittleEndian(file, h + 16, 8),
            LittleEndian(file, h + 32, 8), LittleEndian(file, h + 40, 8))
  }

  predicate Loads(g: Segment) {
    g.kind == ELF_PROGRAM_HEADER_LOAD
  }

  function FirstOf(g: Segment): nat {
    g.address / PAGE_SIZE
  }

  function LastOf(g: Segment): nat {
    LastPage(FirstOf(g), g.address % PAGE_SIZE, g.memorySize)
  }

  /** The header is a 64-bit executable's. */
  predicate HeaderOk(file: seq<Byte>)
    requires |file| >= HEADER_SIZE
  {
    file[..4] == ELF_MAGIC && file[4] == ELF_CLASS_64 && LittleEndian(file, 16, 2) == ELF_TYPE_EXECUTABLE
  }

  /** A loadable segment lies in the file and, in memory, in free pages of the program's own. */
  ghost predicate SegmentFits(s: Vm, root: nat, size: nat, g: Segment)
    requires s.env.bootRoot < |s.ram|
  {
    Loads(g) ==>
      && g.fileSize <= g.memorySize && g.offset + g.fileSize <= size
      && g.address + (if g.memorySize == 0 then 1 else g.memorySize) <= USER_LIMIT
      && RangeOk(s, FirstOf(g), LastOf(g))
      && (forall p | FirstOf(g) <= p <= LastOf(g) && p < ALL_PAGES :: Translate(s.ram, root, PageAt(p)) == Fault)
  }

  /** What the loader relies on, since it checks none of it. */
  ghost predicate Loadable(s: Vm, root: nat, file: seq<Byte>)
    requires s.env.bootRoot < |s.ram|
  {
    && |file| >= HEADER_SIZE
    && (forall i: nat | i < ProgramsCount(file) :: HeaderAt(file, i) + PROGRAM_HEADER_SIZE <= |file|)
    && (forall i: nat | i < ProgramsCount(file) :: SegmentFits(s, root, |file|, SegmentAt(file, i)))
  }

  // ---------------------------------------------------------------- the image of the first segments

  /** The pages of the first n segments. */
  function Pages(file: seq<Byte>, n: nat): set<nat>
    requires |file| >= HEADER_SIZE
    requires forall i: nat | i < n :: HeaderAt(file, i) + PROGRAM_HEADER_SIZE <= |file|
  {
    if n == 0 then {}
    else
      var g := SegmentAt(file, n - 1);
      Pages(file, n - 1) + (if Loads(g) then PageSet(FirstOf(g), LastOf(g)) else {})
  }

  function FileByte(file: seq<Byte>, o: nat): Byte {
    if o < |file| then file[o] else 0
  }

  predicate InFilePart(g: Segment, a: nat) {
    Loads(g) && g.address <= a < g.address + g.fileSize
  }

  /** The byte at address a after the first n segments: that of the last segment whose file part
      covers it, or zero. */
  function ContentAt(file: seq<Byte>, n: nat, a: nat): int
    requires |file| >= HEADER_SIZE
    requires forall i: nat | i < n :: HeaderAt(file, i) + PROGRAM_HEADER_SIZE <= |file|
  {
    if n == 0 then 0
    else
      var g := SegmentAt(file, n - 1);
      if InFilePart(g, a) then FileByte(file, g.offset + (a - g.address))
      else ContentAt(file, n - 1, a)
  }

  function Contents(file: seq<Byte>, n: nat): nat -> int
    requires |file| >= HEADER_SIZE
    requires forall i: nat | i < n :: HeaderAt(file, i) + PROGRAM_HEADER_SIZE <= |file|
  {
    (a: nat) => ContentAt(file, n, a)
  }

  /** Pages no segment touches hold no file bytes. */
  lemma {:induction false} UncoveredIsZero(s: Vm, root: nat, file: seq<Byte>, n: nat, a: nat)
    requires s.env.bootRoot < |s.ram| && Loadable(s, root, file) && n <= ProgramsCount(file)
    requires a / PAGE_SIZE !in Pages(file, n)
    ensures ContentAt(file, n, a) == 0
  {
    if n > 0 {
      hide SegmentAt, HeaderAt, RangeOk, Translate, LastOf, FirstOf;
      UncoveredIsZero(s, root, file, n - 1, a);
      var g := SegmentAt(file, n - 1);
      assert SegmentFits(s, root, |file|, g);
      if InFilePart(g, a) {
        FilePartCovered(g, a);
        assert false;
      }
    }
  }

  lemma FilePartCovered(g: Segment, a: nat)
    requires InFilePart(g, a) && g.fileSize <= g.memorySize
    ensures FirstOf(g) <= a / PAGE_SIZE <= LastOf(g)
  {
  }

  /** The image theorem of chapter 5 of the System V gABI, "Program Header", for segments whose
      memory ranges are disjoint: the file part of each is the file's bytes, the rest is zero. */
  lemma {:induction false} SegmentBytes(s: Vm, root: nat, file: seq<Byte>, n: nat, i: nat, k: nat)
    requires s.env.bootRoot < |s.ram| && Loadable(s, root, file) && i < n <= ProgramsCount(file)
    requires var g := SegmentAt(file, i); Loads(g) && k < g.memorySize
    requires forall j: nat | j < ProgramsCount(file) && j != i && Loads(SegmentAt(file, j)) ::
               BytesApart(SegmentAt(file, i), SegmentAt(file, j))
    ensures var g := SegmentAt(file, i);
      ContentAt(file, n, g.address + k) == if k < g.fileSize then FileByte(file, g.offset + k) else 0
  {
    hide SegmentAt, HeaderAt, RangeOk, Translate, LastOf;
    var g, a := SegmentAt(file, i), SegmentAt(file, i).address + k;
    assert SegmentFits(s, root, |file|, g);
    assert SegmentFits(s, root, |file|, SegmentAt(file, n - 1));
    if n - 1 > i {
      SegmentBytes(s, root, file, n - 1, i, k);
    } else if !InFilePart(g, a) {
      NoEarlierBytes(s, root, file, i, i, k);
    }
  }

  lemma {:induction false} NoEarlierBytes(s: Vm, root: nat, file: seq<Byte>, n: nat, i: nat, k: nat)
    requires s.env.bootRoot < |s.ram| && Loadable(s, root, file) && n <= i < ProgramsCount(file)
    requires Loads(SegmentAt(file, i)) && k < SegmentAt(file, i).memorySize
    requires forall j: nat | j < ProgramsCount(file) && j != i && Loads(SegmentAt(file, j)) ::
               BytesApart(SegmentAt(file, i), SegmentAt(file, j))
    ensures ContentAt(file, n, SegmentAt(file, i).address + k) == 0
  {
    if n > 0 {
      hide SegmentAt, HeaderAt, RangeOk, Translate, LastOf, FirstOf;
      NoEarlierBytes(s, root, file, n - 1, i, k);
      assert SegmentFits(s, root, |file|, SegmentAt(file, n - 1));
    }
  }

  predicate BytesApart(g: Segment, h: Segment) {
    g.address + g.memorySize <= h.address || h.address + h.memorySize <= g.address
  }

  // ---------------------------------------------------------------- the loader

  /** The image holds the first n segments of the file. */
  ghost predicate Loaded(s: Vm, n: Vm, root: nat, file: seq<Byte>, count: nat)
    requires |file| >= HEADER_SIZE
    requires forall i: nat | i < count :: HeaderAt(file, i) + PROGRAM_HEADER_SIZE <= |file|
  {
    Image(s, n, root, Pages(file, count), Contents(file, count)) && Marked(s, n, root, 7)
  }

  /** `check_elf`.  It zeroes byte 5, the data encoding, before it looks at anything. */
  method CheckElf(file: array<Byte>) returns (ok: bool)
    requires file.Length >= HEADER_SIZE
    modifies file
    ensures file[..] == old(file[..])[5 := 0]
    ensures ok <==> HeaderOk(file[..])
  {
    file[5] := 0;
    var i := 0;
    while i < 4
      invariant i <= 4 && file[..] == old(file[..])[5 := 0]
      invariant file[..i] == ELF_MAGIC[..i]
    {
      if file[i] != ELF_MAGIC[i] {
        assert file[..][..4][i] != ELF_MAGIC[i];
        return false;
      }
      i := i + 1;
    }
    assert file[..][..4] == file[..4];
    ok := file[4] == ELF_CLASS_64 && LittleEndian(file[..], 16, 2) == ELF_TYPE_EXECUTABLE;
  }

  /** One byte stored through the address space in use. */
  method PutByte(tables: PageTables, va: Word, b: Byte, ghost f: nat)
    requires tables.Valid() && va < USER_LIMIT && Owned(tables.State(), tables.cr3, PageAt(va / PAGE_SIZE))
    requires Mapped(f, 1) == Translate(tables.pmm.memory.frames, tables.cr3, PageAt(va / PAGE_SIZE))
    modifies tables.pmm.memory
    ensures tables.Valid()
    ensures tables.State() == old(tables.State()).(ram := StoreByte(old(tables.State().ram), f, va % PAGE_SIZE, b))
  {
    hide VmOk, AllocOk, Translate, PageOf, OffsetOf, StoreByte, Taken, BitmapFrame, SameTables;
    ghost var a, s := tables.pmm.State(), tables.State();
    AddressPage(va);
    PageNumberInjective(PageOf(va), PageAt(va / PAGE_SIZE));
    var tr := Translate(tables.pmm.memory.frames, tables.cr3, PageOf(va));
    FrameReleasable(a, s, f);
    StoreByteLength(s.ram, f, va % PAGE_SIZE, b);
    StoreByteOthers(s.ram, f, va % PAGE_SIZE, b);
    tables.pmm.memory.frames := StoreByte(tables.pmm.memory.frames, tr.frame, OffsetOf(va), b);
    TableWriteKeepsBitmap(a, tables.pmm.State(), f);
    ByteStoreSpares(s, tables.State(), f, va % PAGE_SIZE, b);
  }

  lemma StoreByteOthers(ram: Ram, f: nat, o: nat, b: Byte)
    requires f < |ram| && o < PAGE_SIZE
    ensures forall g: nat | g < |ram| && g != f :: g < |StoreByte(ram, f, o, b)| && StoreByte(ram, f, o, b)[g] == ram[g]
  {
  }

  /** The bytes of a copy in progress: the first k of n bytes of the source, over what was there. */
  function Copied(source: seq<Byte>, src: nat, dest: nat, k: nat, content: nat -> int): nat -> int {
    (x: nat) => CopiedAt(source, src, dest, k, content, x)
  }

  function CopiedAt(source: seq<Byte>, src: nat, dest: nat, k: nat, content: nat -> int, x: nat): int {
    if dest <= x < dest + k then FileByte(source, src + (x - dest)) else content(x)
  }

  /** `memcpy` from the file into mapped pages of the program. */
  method Memcpy(tables: PageTables, dest: Word, file: array<Byte>, src: nat, n: nat,
                ghost s: Vm, ghost pages: set<nat>, ghost content: nat -> int)
    requires tables.Valid() && src + n <= file.Length && dest + n <= USER_LIMIT
    requires Image(s, tables.State(), tables.cr3, pages, content) && Marked(s, tables.State(), tables.cr3, 7)
    requires forall x: nat | dest <= x < dest + n :: x / PAGE_SIZE in pages
    modifies tables.pmm.memory
    ensures tables.Valid() && Image(s, tables.State(), tables.cr3, pages, Copied(file[..], src, dest, n, content))
    ensures Marked(s, tables.State(), tables.cr3, 7)
  {
    hide Image, VmOk, AllocOk, Translate, StoreByte, Marked, SameTables;
    ImageSame(s, tables.State(), tables.cr3, pages, content, Copied(file[..], src, dest, 0, content));
    var i := 0;
    while i < n
      invariant i <= n && tables.Valid()
      invariant Image(s, tables.State(), tables.cr3, pages, Copied(file[..], src, dest, i, content))
      invariant Marked(s, tables.State(), tables.cr3, 7)
    {
      ghost var m := tables.State();
      ghost var now, next := Copied(file[..], src, dest, i, content), Copied(file[..], src, dest, i + 1, content);
      var va: Word := dest + i;
      assert va / PAGE_SIZE in pages;
      ImagePage(s, m, tables.cr3, pages, now, va / PAGE_SIZE);
      ghost var f := Translate(m.ram, tables.cr3, PageAt(va / PAGE_SIZE)).frame;
      PutByte(tables, va, file[src + i], f);
      CopiedNext(file[..], src, dest, i, content);
      ImageAfterByte(s, m, tables.State(), tables.cr3, pages, now, next, va, file[src + i]);
      BootRootInRam(m);
      MarkedSpared(s, m, tables.State(), tables.cr3, 7);
      i := i + 1;
    }
  }

  lemma CopiedNext(source: seq<Byte>, src: nat, dest: nat, k: nat, content: nat -> int)
    requires src + k < |source|
    ensures forall x: nat :: Copied(source, src, dest, k + 1, content)(x)
                          == if x == dest + k then source[src + k] else Copied(source, src, dest, k, content)(x)
  {
    var now, next := Copied(source, src, dest, k, content), Copied(source, src, dest, k + 1, content);
    forall x: nat ensures next(x) == if x == dest + k then source[src + k] else now(x) {
      assert now(x) == CopiedAt(source, src, dest, k, content, x);
      assert next(x) == CopiedAt(source, src, dest, k + 1, content, x);
    }
  }

  lemma ImageSame(s: Vm, n: Vm, root: nat, pages: set<nat>, content: nat -> int, other: nat -> int)
    requires Image(s, n, root, pages, content) && forall x: nat :: content(x) == other(x)
    ensures Image(s, n, root, pages, other)
  {
    hide VmOk, Translate;
  }

  lemma ImagePage(s: Vm, n: Vm, root: nat, pages: set<nat>, content: nat -> int, p: nat)
    requires Image(s, n, root, pages, content) && p in pages
    ensures p < USER_LIMIT / PAGE_SIZE && Owned(n, root, PageAt(p))
  {
  }

  /** `map_section`. */
  method MapSection(tables: PageTables, file: array<Byte>, i: nat, ghost bytes: seq<Byte>, ghost s: Vm)
      returns (halted: bool)
    requires tables.Valid() && !tables.kmmapLock && s.env.bootRoot < |s.ram| && VmOk(s) && file[..] == bytes
    requires Loadable(s, tables.cr3, bytes) && i < ProgramsCount(bytes)
    requires Loaded(s, tables.State(), tables.cr3, bytes, i)
    modifies tables.pmm, tables.pmm.memory, tables`tree, tables`kmmapLock
    ensures halted ==> tables.pmm.Exhausted()
    ensures !halted ==> tables.Valid() && !tables.kmmapLock && Loaded(s, tables.State(), tables.cr3, bytes, i + 1)
  {
    hide Image, VmOk, AllocOk, Translate, MappedUpTo, RangeOk, PageOf, OffsetOf, LittleEndian, Marked;
    var g := SegmentAt(file[..], i);
    assert SegmentFits(s, tables.cr3, |bytes|, g);
    ghost var before, after := Contents(bytes, i), Contents(bytes, i + 1);
    if !Loads(g) {
      ImageSame(s, tables.State(), tables.cr3, Pages(bytes, i), before, after);
      assert Pages(bytes, i + 1) == Pages(bytes, i);
      return false;
    }
    halted := MapLoad(tables, file, g, i, bytes, s);
  }

  method MapLoad(tables: PageTables, file: array<Byte>, g: Segment, ghost i: nat, ghost bytes: seq<Byte>, ghost s: Vm)
      returns (halted: bool)
    requires tables.Valid() && !tables.kmmapLock && s.env.bootRoot < |s.ram| && VmOk(s) && file[..] == bytes
    requires Loadable(s, tables.cr3, bytes) && i < ProgramsCount(bytes)
    requires g == SegmentAt(bytes, i) && Loads(g)
    requires Loaded(s, tables.State(), tables.cr3, bytes, i)
    modifies tables.pmm, tables.pmm.memory, tables`tree, tables`kmmapLock
    ensures halted ==> tables.pmm.Exhausted()
    ensures !halted ==> tables.Valid() && !tables.kmmapLock && Loaded(s, tables.State(), tables.cr3, bytes, i + 1)
  {
    hide Image, VmOk, AllocOk, Translate, MappedUpTo, RangeOk, PageOf, OffsetOf, LittleEndian, SegmentAt,
         FirstPage, LastPage, Marked, EntriesHold, TablesFor;
    ghost var n := tables.State();
    ghost var before, after := Contents(bytes, i), Contents(bytes, i + 1);
    SegmentRange(s, n, tables.cr3, bytes, g, i, before);
    halted := tables.Kmmap(g.address, g.memorySize, 7);
    if halted {
      return;
    }
    SegmentMapped(s, n, tables.State(), tables.cr3, bytes, g, i, before);
    MarkedMapping(s, n, tables.State(), tables.cr3, FirstOf(g), LastOf(g) + 1, 7);
    Memcpy(tables, g.address, file, g.offset, g.fileSize, s, Pages(bytes, i + 1), before);
    ImageSame(s, tables.State(), tables.cr3, Pages(bytes, i + 1),
              Copied(bytes, g.offset, g.address, g.fileSize, before), after);
  }

  /** The pages of a segment in the form `kmmap` takes them. */
  lemma SegmentRange(s: Vm, n: Vm, root: nat, file: seq<Byte>, g: Segment, i: nat, content: nat -> int)
    requires s.env.bootRoot < |s.ram| && Loadable(s, root, file) && i < ProgramsCount(file)
    requires g == SegmentAt(file, i) && Loads(g) && Image(s, n, root, Pages(file, i), content)
    ensures g.address < WORD_LIMIT && g.memorySize < WORD_LIMIT
    ensures FirstPage(g.address) == FirstOf(g) && OffsetOf(g.address) == g.address % PAGE_SIZE
    ensures LastPage(FirstPage(g.address), OffsetOf(g.address), g.memorySize) == LastOf(g) < USER_LIMIT / PAGE_SIZE
    ensures RangeOk(n, FirstOf(g), LastOf(g)) && FlagsOk(7) && g.offset + g.fileSize <= |file|
    ensures g.address + g.fileSize <= USER_LIMIT
    ensures forall x: nat | g.address <= x < g.address + g.fileSize :: x / PAGE_SIZE in Pages(file, i + 1)
  {
    hide SegmentAt, Translate, VmOk, PageOf, OffsetOf, Pages, Image;
    assert SegmentFits(s, root, |file|, g);
    AddressPage(g.address);
    SegmentCovered(s, root, file, g, i);
    SameSlots(s, n, root, Pages(file, i), content);
  }

  lemma SameSlots(s: Vm, n: Vm, root: nat, pages: set<nat>, content: nat -> int)
    requires s.env.bootRoot < |s.ram| && Image(s, n, root, pages, content)
    ensures n.env.bootRoot < |n.ram| && forall k: nat :: Private(n, k) == Private(s, k)
  {}

  lemma SegmentCovered(s: Vm, root: nat, file: seq<Byte>, g: Segment, i: nat)
    requires s.env.bootRoot < |s.ram| && Loadable(s, root, file) && i < ProgramsCount(file)
    requires g == SegmentAt(file, i) && Loads(g)
    ensures forall x: nat | g.address <= x < g.address + g.fileSize :: x / PAGE_SIZE in Pages(file, i + 1)
  {
    assert SegmentFits(s, root, |file|, g);
    hide SegmentAt, Translate, SegmentFits;
    forall x: nat | g.address <= x < g.address + g.fileSize ensures x / PAGE_SIZE in Pages(file, i + 1) {
      FilePartCovered(g, x);
      assert x / PAGE_SIZE in PageSet(FirstOf(g), LastOf(g));
    }
  }

  lemma SegmentMapped(s: Vm, n: Vm, m: Vm, root: nat, file: seq<Byte>, g: Segment, i: nat, content: nat -> int)
    requires s.env.bootRoot < |s.ram| && VmOk(s) && Loadable(s, root, file) && i < ProgramsCount(file)
    requires g == SegmentAt(file, i) && Loads(g) && Image(s, n, root, Pages(file, i), content)
    requires LastOf(g) < USER_LIMIT / PAGE_SIZE && RangeOk(n, FirstOf(g), LastOf(g))
    requires MappedUpTo(n, m, root, FirstOf(g), LastOf(g) + 1)
    requires forall a: nat :: content(a) == ContentAt(file, i, a)
    ensures Image(s, m, root, Pages(file, i + 1), content)
  {
    hide SegmentAt, Translate, VmOk, MappedUpTo, RangeOk, LastOf, FirstOf, Image;
    assert SegmentFits(s, root, |file|, g);
    forall a: nat | FirstOf(g) <= a / PAGE_SIZE <= LastOf(g) && a / PAGE_SIZE !in Pages(file, i)
      ensures content(a) == 0
    {
      UncoveredIsZero(s, root, file, i, a);
    }
    ImageAfterMap(s, n, m, root, Pages(file, i), content, FirstOf(g), LastOf(g));
  }

  /** `map_elf_64`: a file that is no 64-bit executable changes nothing but its byte 5; otherwise
      the program's pages hold its segments. */
  method MapElf64(tables: PageTables, file: array<Byte>) returns (halted: bool)
    requires tables.Valid() && !tables.kmmapLock
    requires file.Length >= HEADER_SIZE
    requires HeaderOk(file[..][5 := 0]) ==> Loadable(tables.State(), tables.cr3, file[..][5 := 0])
    modifies file, tables.pmm, tables.pmm.memory, tables`tree, tables`kmmapLock
    ensures file[..] == old(file[..])[5 := 0]
    ensures halted ==> tables.pmm.Exhausted()
    ensures !HeaderOk(file[..]) ==> !halted && tables.Valid() && tables.State() == old(tables.State())
    ensures HeaderOk(file[..]) && !halted ==>
      && tables.Valid() && !tables.kmmapLock
      && Loaded(old(tables.State()), tables.State(), tables.cr3, file[..], ProgramsCount(file[..]))
  {
    hide VmOk, AllocOk, Image, LittleEndian, HeaderOk, SegmentFits, HeaderAt, SegmentAt;
    ghost var s := tables.State();
    var ok := CheckElf(file);
    halted := false;
    if !ok {
      return;
    }
    ghost var bytes := file[..];
    BootRootInRam(s);
    ImageStart(s, tables.cr3, Contents(bytes, 0));
    MarkedStart(s, tables.cr3, 7);
    hide Marked;
    var i := 0;
    while i < ProgramsCount(file[..])
      invariant i <= ProgramsCount(bytes) && file[..] == bytes
      invariant tables.Valid() && !tables.kmmapLock && Loaded(s, tables.State(), tables.cr3, bytes, i)
    {
      halted := MapSection(tables, file, i, bytes, s);
      if halted {
        return;
      }
      i := i + 1;
    }
  }

  /** The program sees byte b at address a. */
  predicate Shows(n: Vm, root: nat, a: nat, b: Byte) {
    a < USER_LIMIT && Owned(n, root, PageAt(a / PAGE_SIZE)) && ProgramByte(n, root, a) == b
  }

  /** The ELF image theorem: after `map_elf_64` each byte of each loadable segment, of segments
      disjoint in memory, reads as the file's byte or as zero. */
  lemma LoadedSegments(s: Vm, n: Vm, root: nat, file: seq<Byte>, i: nat, k: nat)
    requires s.env.bootRoot < |s.ram| && Loadable(s, root, file) && Loaded(s, n, root, file, ProgramsCount(file))
    requires i < ProgramsCount(file) && Loads(SegmentAt(file, i)) && k < SegmentAt(file, i).memorySize
    requires forall j: nat | j < ProgramsCount(file) && j != i && Loads(SegmentAt(file, j)) ::
               BytesApart(SegmentAt(file, i), SegmentAt(file, j))
    ensures var g := SegmentAt(file, i);
      && g.offset + g.fileSize <= |file|
      && Shows(n, root, g.address + k, if k < g.fileSize then FileByte(file, g.offset + k) else 0)
  {
    hide SegmentAt, Translate, VmOk, RangeOk;
    var g, count := SegmentAt(file, i), ProgramsCount(file);
    var a := g.address + k;
    assert SegmentFits(s, root, |file|, g);
    SegmentBytes(s, root, file, count, i, k);
    MemoryPartCovered(s, root, file, count, i, k);
    assert ProgramByte(n, root, a) == Contents(file, count)(a);
  }

  lemma {:induction false} MemoryPartCovered(s: Vm, root: nat, file: seq<Byte>, n: nat, i: nat, k: nat)
    requires s.env.bootRoot < |s.ram| && Loadable(s, root, file) && i < n <= ProgramsCount(file)
    requires Loads(SegmentAt(file, i)) && k < SegmentAt(file, i).memorySize
    ensures (SegmentAt(file, i).address + k) / PAGE_SIZE in Pages(file, n)
  {
    hide SegmentAt, Translate, RangeOk, SegmentFits;
    if n - 1 > i {
      MemoryPartCovered(s, root, file, n - 1, i, k);
    } else {
      var g := SegmentAt(file, i);
      assert (g.address + k) / PAGE_SIZE in PageSet(FirstOf(g), LastOf(g));
    }
  }
}
