/** Executable files as they are laid out, and the loader from the bytes of the file to the bytes the
    program sees. */
module ElfFile {
  import opened Bits
  import opened Memory
  import opened Bytes
  import opened FrameState
  import opened Paging
  import opened AddressSpace
  import opened Mapping
  import opened Search
  import opened Vmm
  import opened ElfImage
  import opened Launch

  /** A program header of chapter 5 of the System V gABI. */
  datatype ProgramHeader = ProgramHeader(kind: nat, flags: nat, offset: nat, address: nat, physical: nat,
                                         fileSize: nat, memorySize: nat, alignment: nat)

  function HeaderBytes(h: ProgramHeader): (r: seq<Byte>)
    ensures |r| == 56
  {
    Little(h.kind, 4) + Little(h.flags, 4) + Little(h.offset, 8) + Little(h.address, 8)
    + Little(h.physical, 8) + Little(h.fileSize, 8) + Little(h.memorySize, 8) + Little(h.alignment, 8)
  }

  predicate FieldsFit(h: ProgramHeader) {
    && h.kind < Pow256(4) && h.flags < Pow256(4) && h.offset < Pow256(8) && h.address < Pow256(8)
    && h.physical < Pow256(8) && h.fileSize < Pow256(8) && h.memorySize < Pow256(8) && h.alignment < Pow256(8)
  }

  /** A 64-bit executable whose program headers, `entry` bytes apart, start at `table`. */
  predicate LaidOut(file: seq<Byte>, table: nat, entry: nat, hs: seq<ProgramHeader>) {
    && |file| >= 64 && file[0] == 0x7F && file[1] == 0x45 && file[2] == 0x4C && file[3] == 0x46
    && file[4] == 2 && file[16..18] == [2, 0]
    && table < Pow256(8) && file[32..40] == Little(table, 8)
    && entry < Pow256(2) && file[54..56] == Little(entry, 2)
    && |hs| < Pow256(2) && file[56..58] == Little(|hs|, 2)
    && (forall i | 0 <= i < |hs| :: FieldsFit(hs[i]) && HeaderLies(file, table + i * entry, hs[i]))
  }

  predicate HeaderLies(file: seq<Byte>, at: nat, h: ProgramHeader) {
    at + 56 <= |file| && file[at..at + 56] == HeaderBytes(h)
  }

  /** The last byte of the memory of a segment, which takes up at least one. */
  function LastByte(h: ProgramHeader): nat {
    h.address + (if h.memorySize == 0 then 1 else h.memorySize) - 1
  }

  /** A segment to load lies in the file and in unmapped pages of the program's own. */
  ghost predicate Fits(s: Vm, root: nat, size: nat, h: ProgramHeader)
    requires s.env.bootRoot < |s.ram|
  {
    && h.fileSize <= h.memorySize && h.offset + h.fileSize <= size && LastByte(h) < 0x8000_0000_0000
    && (forall v | IsPage(v) && h.address / 4096 <= PageNumber(v) <= LastByte(h) / 4096 ::
          Private(s, v.l4) && Translate(s.ram, root, v) == Fault)
  }

  ghost predicate AllFit(s: Vm, root: nat, size: nat, hs: seq<ProgramHeader>)
    requires s.env.bootRoot < |s.ram|
  {
    && (forall i | 0 <= i < |hs| && hs[i].kind == 1 :: Fits(s, root, size, hs[i]))
    && (forall i, j | 0 <= i < j < |hs| && hs[i].kind == hs[j].kind == 1 ::
          hs[i].address + hs[i].memorySize <= hs[j].address || hs[j].address + hs[j].memorySize <= hs[i].address)
  }

  // ---------------------------------------------------------------- reading a laid-out file

  lemma HeaderFields(h: ProgramHeader)
    ensures HeaderBytes(h)[0..4] == Little(h.kind, 4) && HeaderBytes(h)[8..16] == Little(h.offset, 8)
    ensures HeaderBytes(h)[16..24] == Little(h.address, 8) && HeaderBytes(h)[32..40] == Little(h.fileSize, 8)
    ensures HeaderBytes(h)[40..48] == Little(h.memorySize, 8)
  {
    hide Little;
  }

  lemma FieldRead(file: seq<Byte>, at: nat, h: ProgramHeader, o: nat, n: nat, v: nat)
    requires HeaderLies(file, at, h) && o + n <= 56 && HeaderBytes(h)[o..o + n] == Little(v, n) && v < Pow256(n)
    ensures LittleEndian(file, at + o, n) == v
  {
    hide HeaderBytes, Little, Pow256, LittleEndian;
    Slice(file, at, at + 56, o, o + n);
    LittleEndianIs(file, at + o, n, v);
  }

  /** A file is accepted exactly with these seven bytes. */
  lemma HeaderOkBytes(file: seq<Byte>)
    requires |file| >= HEADER_SIZE
    ensures HeaderOk(file) <==>
      && file[0] == 0x7F && file[1] == 0x45 && file[2] == 0x4C && file[3] == 0x46
      && file[4] == 2 && file[16] == 2 && file[17] == 0
  {
    assert file[..4] == [file[0], file[1], file[2], file[3]];
    assert LittleEndian(file, 18, 0) == 0;
    assert LittleEndian(file, 16, 2) == file[16] as int + 0x100 * file[17] as int;
  }

  lemma HeaderRead(file: seq<Byte>, table: nat, entry: nat, hs: seq<ProgramHeader>)
    requires LaidOut(file, table, entry, hs)
    ensures HeaderOk(file) && ProgramsOffset(file) == table && ProgramsSize(file) == entry
    ensures ProgramsCount(file) == |hs|
  {
    assert Little(2, 2) == [2, 0];
    hide Little, LittleEndian;
    LittleEndianIs(file, 16, 2, 2);
    LittleEndianIs(file, 32, 8, table);
    LittleEndianIs(file, 54, 2, entry);
    LittleEndianIs(file, 56, 2, |hs|);
    assert file[..4] == [file[0], file[1], file[2], file[3]];
  }

  lemma FieldsRead(file: seq<Byte>, at: nat, h: ProgramHeader)
    requires FieldsFit(h) && HeaderLies(file, at, h)
    ensures LittleEndian(file, at, 4) == h.kind && LittleEndian(file, at + 8, 8) == h.offset
    ensures LittleEndian(file, at + 16, 8) == h.address && LittleEndian(file, at + 32, 8) == h.fileSize
    ensures LittleEndian(file, at + 40, 8) == h.memorySize
  {
    assert at + 56 <= |file|;
    hide HeaderLies, LittleEndian, HeaderBytes, Little, Pow256;
    HeaderFields(h);
    FieldRead(file, at, h, 0, 4, h.kind);
    FieldRead(file, at, h, 8, 8, h.offset);
    FieldRead(file, at, h, 16, 8, h.address);
    FieldRead(file, at, h, 32, 8, h.fileSize);
    FieldRead(file, at, h, 40, 8, h.memorySize);
  }

  lemma HeaderPlace(file: seq<Byte>, table: nat, entry: nat, hs: seq<ProgramHeader>, i: nat)
    requires LaidOut(file, table, entry, hs) && i < |hs|
    ensures |file| >= HEADER_SIZE && HeaderAt(file, i) + PROGRAM_HEADER_SIZE <= |file|
    ensures FieldsFit(hs[i]) && HeaderLies(file, HeaderAt(file, i), hs[i])
  {
    LiesThere(file, table, entry, hs, i);
    hide LaidOut, LittleEndian, FieldsFit, HeaderLies, ProgramsOffset, ProgramsSize, ProgramsCount, HeaderOk;
    HeaderRead(file, table, entry, hs);
    assert HeaderAt(file, i) == table + i * entry;
  }

  lemma LiesThere(file: seq<Byte>, table: nat, entry: nat, hs: seq<ProgramHeader>, i: nat)
    requires LaidOut(file, table, entry, hs) && i < |hs|
    ensures |file| >= HEADER_SIZE && FieldsFit(hs[i])
    ensures table + i * entry + 56 <= |file| && HeaderLies(file, table + i * entry, hs[i])
  {
    hide FieldsFit, HeaderBytes, Little;
  }

  function SegmentOf(h: ProgramHeader): Segment {
    Segment(h.kind, h.offset, h.address, h.fileSize, h.memorySize)
  }

  /** The loader sees the header that was laid out. */
  lemma SegmentRead(file: seq<Byte>, table: nat, entry: nat, hs: seq<ProgramHeader>, i: nat)
    requires LaidOut(file, table, entry, hs) && i < |hs|
    ensures |file| >= HEADER_SIZE && HeaderAt(file, i) + PROGRAM_HEADER_SIZE <= |file|
    ensures SegmentAt(file, i) == SegmentOf(hs[i])
  {
    hide LaidOut, HeaderLies, LittleEndian, FieldsFit, HeaderAt;
    HeaderPlace(file, table, entry, hs, i);
    FieldsRead(file, HeaderAt(file, i), hs[i]);
  }

  lemma FitsSegment(s: Vm, root: nat, size: nat, h: ProgramHeader)
    requires s.env.bootRoot < |s.ram| && Fits(s, root, size, h)
    ensures SegmentFits(s, root, size, SegmentOf(h))
  {
    var g := SegmentOf(h);
    hide Translate, Private;
    assert FirstOf(g) == h.address / 4096 && LastOf(g) == LastByte(h) / 4096;
    forall p: nat | FirstOf(g) <= p <= LastOf(g)
      ensures p < ALL_PAGES && Private(s, p / SLOT_PAGES) && Translate(s.ram, root, PageAt(p)) == Fault
    {
      SlotOfPage(PageAt(p));
    }
  }

  lemma LaidOutLoadable(s: Vm, root: nat, file: seq<Byte>, table: nat, entry: nat, hs: seq<ProgramHeader>)
    requires s.env.bootRoot < |s.ram| && LaidOut(file, table, entry, hs) && AllFit(s, root, |file|, hs)
    ensures Loadable(s, root, file)
  {
    HeaderRead(file, table, entry, hs);
    hide LaidOut, SegmentFits, SegmentAt, HeaderAt, Fits;
    forall i: nat | i < ProgramsCount(file)
      ensures HeaderAt(file, i) + PROGRAM_HEADER_SIZE <= |file| && SegmentFits(s, root, |file|, SegmentAt(file, i))
    {
      SegmentRead(file, table, entry, hs, i);
      if hs[i].kind == 1 {
        FitsSegment(s, root, |file|, hs[i]);
      } else {
        OthersFit(s, root, |file|, SegmentAt(file, i));
      }
    }
  }

  lemma OthersFit(s: Vm, root: nat, size: nat, g: Segment)
    requires s.env.bootRoot < |s.ram| && g.kind != 1
    ensures SegmentFits(s, root, size, g)
  {}

  lemma SegmentsApart(s: Vm, root: nat, file: seq<Byte>, table: nat, entry: nat, hs: seq<ProgramHeader>, i: nat, j: nat)
    requires s.env.bootRoot < |s.ram| && LaidOut(file, table, entry, hs) && AllFit(s, root, |file|, hs)
    requires i < |hs| && j < |hs| && i != j && hs[i].kind == hs[j].kind == 1
    ensures |file| >= HEADER_SIZE && HeaderAt(file, i) + PROGRAM_HEADER_SIZE <= |file|
    ensures HeaderAt(file, j) + PROGRAM_HEADER_SIZE <= |file|
    ensures BytesApart(SegmentAt(file, i), SegmentAt(file, j))
  {
    hide LaidOut, SegmentAt, HeaderAt, Fits;
    SegmentRead(file, table, entry, hs, i);
    SegmentRead(file, table, entry, hs, j);
  }

  lemma OthersApart(s: Vm, root: nat, file: seq<Byte>, table: nat, entry: nat, hs: seq<ProgramHeader>, i: nat)
    requires s.env.bootRoot < |s.ram| && LaidOut(file, table, entry, hs) && AllFit(s, root, |file|, hs)
    requires Loadable(s, root, file) && i < |hs| && hs[i].kind == 1
    ensures |file| >= HEADER_SIZE && i < ProgramsCount(file) && SegmentAt(file, i) == SegmentOf(hs[i])
    ensures forall j: nat | j < ProgramsCount(file) && j != i && Loads(SegmentAt(file, j)) ::
              BytesApart(SegmentAt(file, i), SegmentAt(file, j))
  {
    hide LaidOut, SegmentAt, HeaderAt, AllFit, BytesApart, SegmentFits;
    HeaderRead(file, table, entry, hs);
    SegmentRead(file, table, entry, hs, i);
    forall j: nat | j < ProgramsCount(file) && j != i && Loads(SegmentAt(file, j))
      ensures BytesApart(SegmentAt(file, i), SegmentAt(file, j))
    {
      SegmentRead(file, table, entry, hs, j);
      SegmentsApart(s, root, file, table, entry, hs, i, j);
    }
  }

  /** The program sees byte k of a segment: byte `offset + k` of the file, or zero past the file's
      part, on a present page it may write (bits 0, 1 and 2 of the entry). */
  predicate SegmentShown(n: Vm, root: nat, file: seq<Byte>, h: ProgramHeader, k: nat) {
    && ByteShown(n, root, file, h, k)
    && PageInUse(h, k) && EntryOf(n.ram, root, PageAt((h.address + k) / PAGE_SIZE), 1) % 4096 == 7
  }

  predicate ByteShown(n: Vm, root: nat, file: seq<Byte>, h: ProgramHeader, k: nat) {
    if k < h.fileSize then
      h.offset + k < |file| && Shows(n, root, h.address + k, file[h.offset + k])
    else
      Shows(n, root, h.address + k, 0)
  }

  lemma PageHolds(s: Vm, n: Vm, root: nat, file: seq<Byte>, count: nat, h: ProgramHeader, k: nat)
    requires VmOk(s) && IsRoot(s, root) && Fits(s, root, |file|, h) && k < h.memorySize
    requires |file| >= HEADER_SIZE
    requires forall i: nat | i < count :: HeaderAt(file, i) + PROGRAM_HEADER_SIZE <= |file|
    requires Loaded(s, n, root, file, count) && (h.address + k) / PAGE_SIZE in Pages(file, count)
    ensures PageInUse(h, k)
    ensures EntryOf(n.ram, root, PageAt((h.address + k) / PAGE_SIZE), 1) % 4096 == 7
  {
    hide VmOk, HeaderAt, Pages, Contents, BytesShown, OthersSame, Translate, TableAt, EntryOf, EntriesHold;
    NewLeafHolds(s, n, root, 7, PageAt((h.address + k) / PAGE_SIZE));
  }

  predicate PageInUse(h: ProgramHeader, k: nat) {
    (h.address + k) / PAGE_SIZE < ALL_PAGES
  }

  lemma LoadedBytes(s: Vm, n: Vm, root: nat, file: seq<Byte>, table: nat, entry: nat, hs: seq<ProgramHeader>,
                    i: nat, k: nat)
    requires s.env.bootRoot < |s.ram| && LaidOut(file, table, entry, hs) && AllFit(s, root, |file|, hs)
    requires Loadable(s, root, file) && Loaded(s, n, root, file, ProgramsCount(file))
    requires i < |hs| && hs[i].kind == 1 && k < hs[i].memorySize
    ensures ByteShown(n, root, file, hs[i], k)
  {
    hide LaidOut, SegmentAt, HeaderAt, Fits, AllFit, Shows, Loaded, Loadable, BytesApart, ProgramsCount;
    OthersApart(s, root, file, table, entry, hs, i);
    LoadedSegments(s, n, root, file, i, k);
  }

  /** The image theorem from the bytes of the file to the bytes of memory. */
  lemma LoadedLayout(s: Vm, n: Vm, root: nat, file: seq<Byte>, table: nat, entry: nat, hs: seq<ProgramHeader>,
                     i: nat, k: nat)
    requires VmOk(s) && IsRoot(s, root) && s.env.bootRoot < |s.ram|
    requires LaidOut(file, table, entry, hs) && AllFit(s, root, |file|, hs)
    requires Loadable(s, root, file) && Loaded(s, n, root, file, ProgramsCount(file))
    requires i < |hs| && hs[i].kind == 1 && k < hs[i].memorySize
    ensures SegmentShown(n, root, file, hs[i], k)
  {
    hide VmOk, LaidOut, SegmentAt, HeaderAt, Fits, AllFit, ByteShown, Loaded, Loadable, ProgramsCount, EntryOf;
    LoadedBytes(s, n, root, file, table, entry, hs, i, k);
    OthersApart(s, root, file, table, entry, hs, i);
    FitsOne(s, root, |file|, hs, i);
    CoveredPage(s, n, root, file, ProgramsCount(file), hs[i], i, k);
  }

  lemma FitsOne(s: Vm, root: nat, size: nat, hs: seq<ProgramHeader>, i: nat)
    requires s.env.bootRoot < |s.ram| && AllFit(s, root, size, hs) && i < |hs| && hs[i].kind == 1
    ensures Fits(s, root, size, hs[i])
  {}

  lemma CoveredPage(s: Vm, n: Vm, root: nat, file: seq<Byte>, count: nat, h: ProgramHeader, i: nat, k: nat)
    requires VmOk(s) && IsRoot(s, root) && s.env.bootRoot < |s.ram| && Fits(s, root, |file|, h) && k < h.memorySize
    requires Loadable(s, root, file) && count == ProgramsCount(file) && Loaded(s, n, root, file, count)
    requires i < count && SegmentAt(file, i) == SegmentOf(h) && h.kind == 1
    ensures PageInUse(h, k)
    ensures EntryOf(n.ram, root, PageAt((h.address + k) / PAGE_SIZE), 1) % 4096 == 7
  {
    hide VmOk, SegmentAt, Fits, Loaded, SegmentFits, EntryOf, Pages;
    MemoryPartCovered(s, root, file, count, i, k);
    PageHolds(s, n, root, file, count, h, k);
  }

  /** `map_elf_64` on a laid-out file, of whose identification byte 5 may be anything. */
  method LoadFile(tables: PageTables, file: array<Byte>, ghost bytes: seq<Byte>, ghost table: nat, ghost entry: nat,
                  ghost hs: seq<ProgramHeader>) returns (halted: bool)
    requires tables.Valid() && !tables.kmmapLock && file.Length >= 64 && bytes == file[..][5 := 0]
    requires LaidOut(bytes, table, entry, hs) && AllFit(tables.State(), tables.cr3, |bytes|, hs)
    modifies file, tables.pmm, tables.pmm.memory, tables`tree, tables`kmmapLock
    ensures halted ==> tables.pmm.Exhausted()
    ensures !halted ==> tables.Valid() && !tables.kmmapLock
    ensures !halted ==> forall i, k: nat | 0 <= i < |hs| && hs[i].kind == 1 && k < hs[i].memorySize ::
              SegmentShown(tables.State(), tables.cr3, bytes, hs[i], k)
  {
    hide LaidOut, AllFit, Loadable, Loaded, SegmentShown, VmOk, AllocOk, HeaderOk;
    ghost var s := tables.State();
    BootRootInRam(s);
    LaidOutLoadable(s, tables.cr3, bytes, table, entry, hs);
    HeaderRead(bytes, table, entry, hs);
    halted := MapElf64(tables, file);
    if !halted {
      forall i, k: nat | 0 <= i < |hs| && hs[i].kind == 1 && k < hs[i].memorySize
        ensures SegmentShown(tables.State(), tables.cr3, bytes, hs[i], k)
      {
        LoadedLayout(s, tables.State(), tables.cr3, bytes, table, entry, hs, i, k);
      }
    }
  }
}
