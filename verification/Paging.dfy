/** The paging hardware: entries, linear addresses, the four-level walk of section 4.5 of the
    Intel SDM, volume 3A, and the window a self-referencing slot opens on the tables themselves. */
module Paging {
  import opened Bits
  import opened Memory

  const ENTRIES: int := 512
  const RECURSIVE_SLOT: int := 50

  // ---------------------------------------------------------------- entries

  const FRAME_LIMIT: int := 0x100_0000_0000

  predicate Present(e: Word) {
    e % 2 == 1
  }

  /** The PS bit. */
  predicate Large(e: Word) {
    (e / 0x80) % 2 == 1
  }

  /** Bits 12 to 51: the frame an entry points at. */
  function FrameOf(e: Word): nat {
    (e / PAGE_SIZE) % FRAME_LIMIT
  }

  /** No bit above the address field is set, as `free_frame` assumes of what it is given. */
  predicate Clean(e: Word) {
    e / PAGE_SIZE < FRAME_LIMIT
  }

  /** Flag words the mapping functions may be given: below the address bits, and no large pages. */
  predicate FlagsOk(flags: Word) {
    flags < PAGE_SIZE && !Large(flags)
  }

  /** `address | flags | 1`. */
  function MakeEntry(address: Word, flags: Word): nat {
    Or(Or(address, flags), 1)
  }

  lemma MakeEntryValue(frame: nat, flags: Word)
    requires frame < FRAME_LIMIT && FlagsOk(flags)
    ensures MakeEntry(frame * PAGE_SIZE, flags) == frame * PAGE_SIZE + flags + (1 - flags % 2)
  {
    OrFlags(frame, flags);
    hide Or, Large;
    OrOne(frame * PAGE_SIZE + flags);
  }

  /** Flags are or-ed into the empty low bits of an address. */
  lemma OrFlags(frame: nat, flags: nat)
    requires flags < PAGE_SIZE
    ensures Or(frame * PAGE_SIZE, flags) == frame * PAGE_SIZE + flags
  {
    hide Or, Scale, Pow2;
    Pow2Values();
    ScaleValues(frame);
    OrIsSum(frame, flags, 12);
  }

  /** The fields of an entry, the sum of a frame's address and low bits. */
  lemma EntryFields(frame: nat, low: nat)
    requires frame < FRAME_LIMIT && low < PAGE_SIZE
    ensures var e := frame * PAGE_SIZE + low;
      && e < WORD_LIMIT && e / PAGE_SIZE == frame && e % 2 == low % 2 && (e / 0x80) % 2 == (low / 0x80) % 2
  {
    assert (frame * PAGE_SIZE + low) / 0x80 == 0x20 * frame + low / 0x80;
    OddOnly(0x10 * frame, low / 0x80);
    OddOnly(0x800 * frame, low);
  }

  lemma EntryMeans(e: Word, frame: nat)
    requires e / PAGE_SIZE == frame < FRAME_LIMIT && e % 2 == 1 && (e / 0x80) % 2 == 0
    ensures 0 < e && Present(e) && !Large(e) && Clean(e) && FrameOf(e) == frame
  {}

  lemma OddOnly(half: nat, low: nat)
    ensures (2 * half + low) % 2 == low % 2
  {}

  lemma WithPresent(flags: Word)
    requires FlagsOk(flags)
    ensures var low := flags + (1 - flags % 2);
      0 < low < PAGE_SIZE && low % 2 == 1 && (low / 0x80) % 2 == 0
  {}

  lemma OrOne(x: nat)
    ensures Or(x, 1) == x + (1 - x % 2)
  {
    OrZero(x / 2);
  }

  /** The flags are in the entry, with the present bit. */
  lemma MakeEntryLow(frame: nat, flags: Word)
    requires frame < FRAME_LIMIT && FlagsOk(flags)
    ensures MakeEntry(frame * PAGE_SIZE, flags) % PAGE_SIZE == flags % PAGE_SIZE + (1 - flags % 2)
  {
    hide MakeEntry, Large;
    MakeEntryValue(frame, flags);
    LowPart(frame, flags + (1 - flags % 2));
  }

  lemma LowPart(frame: nat, low: nat)
    requires low < PAGE_SIZE
    ensures (frame * PAGE_SIZE + low) % PAGE_SIZE == low
  {}

  /** What the hardware reads back from an entry the kernel composed. */
  lemma MakeEntryFields(frame: nat, flags: Word)
    requires frame < FRAME_LIMIT && FlagsOk(flags)
    ensures var e := MakeEntry(frame * PAGE_SIZE, flags);
      0 < e < WORD_LIMIT && Present(e) && !Large(e) && Clean(e) && FrameOf(e) == frame
  {
    hide MakeEntry;
    MakeEntryValue(frame, flags);
    WithPresent(flags);
    EntryFields(frame, flags + (1 - flags % 2));
    EntryMeans(MakeEntry(frame * PAGE_SIZE, flags), frame);
  }

  // ---------------------------------------------------------------- linear addresses

  /** A page of the 48-bit linear address space, by its four table indices. */
  datatype Page = Page(l4: nat, l3: nat, l2: nat, l1: nat)

  predicate IsPage(v: Page) {
    v.l4 < ENTRIES && v.l3 < ENTRIES && v.l2 < ENTRIES && v.l1 < ENTRIES
  }

  function PageNumber(v: Page): nat {
    ((v.l4 * ENTRIES + v.l3) * ENTRIES + v.l2) * ENTRIES + v.l1
  }

  lemma PageNumberInjective(v: Page, w: Page)
    requires IsPage(v) && IsPage(w) && PageNumber(v) == PageNumber(w)
    ensures v == w
  {
    var a, b := v.l4 * ENTRIES + v.l3, w.l4 * ENTRIES + w.l3;
    SameParts(a * ENTRIES + v.l2, v.l1, b * ENTRIES + w.l2, w.l1);
    SameParts(a, v.l2, b, w.l2);
    SameParts(v.l4, v.l3, w.l4, w.l3);
  }

  lemma SameParts(a: nat, i: nat, b: nat, j: nat)
    requires i < ENTRIES && j < ENTRIES && a * ENTRIES + i == b * ENTRIES + j
    ensures a == b && i == j
  {}

  /** `craft_addr`. */
  function CraftAddr(l4: nat, l3: nat, l2: nat, l1: nat, l0: nat): nat {
    Or(Or(Or(Or(l0, Shl(l1, 12)), Shl(l2, 21)), Shl(l3, 30)), Shl(l4, 39))
  }

  /** The page the hardware finds in an address, with the kernel's own `SHIFTR`. */
  function PageOf(va: Word): Page {
    Page(Field(va, 9, 39), Field(va, 9, 30), Field(va, 9, 21), Field(va, 9, 12))
  }

  function OffsetOf(va: Word): nat {
    Field(va, 12, 0)
  }

  /** The shifts of the page tables are divisions. */
  lemma ShiftValues(x: nat)
    ensures Shr(x, 12) == x / 0x1000 && Shr(x, 21) == x / 0x20_0000
    ensures Shr(x, 30) == x / 0x4000_0000 && Shr(x, 39) == x / 0x80_0000_0000
    ensures Low(x, 9) == x % 0x200 && Low(x, 12) == x % 0x1000
  {
    hide Shr, Low, Scale, Pow2;
    Pow2Values();
    assert Shr(x, 12) == x / 0x1000 && Low(x, 12) == x % 0x1000 by {
      SplitAt(x, 12);
      ScaleValues(Shr(x, 12));
    }
    assert Shr(x, 21) == x / 0x20_0000 by {
      SplitAt(x, 21);
      ScaleValues(Shr(x, 21));
    }
    assert Shr(x, 30) == x / 0x4000_0000 by {
      SplitAt(x, 30);
      ScaleValues(Shr(x, 30));
    }
    assert Shr(x, 39) == x / 0x80_0000_0000 by {
      SplitAt(x, 39);
      ScaleValues(Shr(x, 39));
    }
    SplitAt(x, 9);
    ScaleValues(Shr(x, 9));
  }

  /** Each field of an address is a quotient modulo 512, and the offset a remainder. */
  lemma AddressFields(va: Word)
    ensures PageOf(va) == Page((va / 0x80_0000_0000) % 0x200, (va / 0x4000_0000) % 0x200,
                               (va / 0x20_0000) % 0x200, (va / 0x1000) % 0x200)
    ensures OffsetOf(va) == va % PAGE_SIZE
    ensures IsPage(PageOf(va)) && OffsetOf(va) < PAGE_SIZE
  {
    assert Shr(va, 0) == va;
    hide Shr, Low, Field;
    ShiftValues(va);
    FieldIsLow(va, 9, 39);
    FieldIsLow(va, 9, 30);
    FieldIsLow(va, 9, 21);
    FieldIsLow(va, 9, 12);
    FieldIsLow(va, 12, 0);
    ShiftValues(Shr(va, 39));
    ShiftValues(Shr(va, 30));
    ShiftValues(Shr(va, 21));
    ShiftValues(Shr(va, 12));
  }

  lemma AddressInRange(va: Word)
    ensures IsPage(PageOf(va)) && OffsetOf(va) < PAGE_SIZE
  {
    hide PageOf, OffsetOf;
    AddressFields(va);
  }

  /** `craft_addr` of in-range parts is their positional sum, and the fields give the parts back. */
  lemma CraftAddrFields(v: Page, l0: nat)
    requires IsPage(v) && l0 < PAGE_SIZE
    ensures CraftAddr(v.l4, v.l3, v.l2, v.l1, l0) == PageNumber(v) * PAGE_SIZE + l0 < 0x1_0000_0000_0000
    ensures PageOf(PageNumber(v) * PAGE_SIZE + l0) == v && OffsetOf(PageNumber(v) * PAGE_SIZE + l0) == l0
  {
    hide CraftAddr, PageOf, OffsetOf;
    CraftAddrSum(v, l0);
    PositionalParts(v, l0);
    AddressFields(PageNumber(v) * PAGE_SIZE + l0);
  }

  lemma PositionalParts(v: Page, l0: nat)
    requires IsPage(v) && l0 < PAGE_SIZE
    ensures var x := PageNumber(v) * PAGE_SIZE + l0;
      && (x / 0x80_0000_0000) % 0x200 == v.l4 && (x / 0x4000_0000) % 0x200 == v.l3
      && (x / 0x20_0000) % 0x200 == v.l2 && (x / 0x1000) % 0x200 == v.l1 && x % PAGE_SIZE == l0
  {
    var x := PageNumber(v) * PAGE_SIZE + l0;
    var l43 := v.l4 * ENTRIES + v.l3;
    var l432 := l43 * ENTRIES + v.l2;
    var n := l432 * ENTRIES + v.l1;
    assert x == n * 0x1000 + l0;
    assert x == l432 * 0x20_0000 + (v.l1 * 0x1000 + l0);
    assert x == l43 * 0x4000_0000 + (v.l2 * 0x20_0000 + v.l1 * 0x1000 + l0);
    assert x == v.l4 * 0x80_0000_0000 + (v.l3 * 0x4000_0000 + v.l2 * 0x20_0000 + v.l1 * 0x1000 + l0);
  }

  lemma CraftAddrSum(v: Page, l0: nat)
    requires IsPage(v) && l0 < PAGE_SIZE
    ensures CraftAddr(v.l4, v.l3, v.l2, v.l1, l0) == PageNumber(v) * PAGE_SIZE + l0
  {
    hide Or, Scale, Pow2;
    Pow2Values();
    ScaleValues(v.l1);
    ScaleValues(v.l2);
    ScaleValues(v.l3);
    ScaleValues(v.l4);
    assert Shl(v.l1, 12) == v.l1 * 0x1000 && Shl(v.l2, 21) == v.l2 * 0x20_0000;
    assert Shl(v.l3, 30) == v.l3 * 0x4000_0000 && Shl(v.l4, 39) == v.l4 * 0x80_0000_0000;
    var a := l0 + v.l1 * 0x1000;
    var b := a + v.l2 * 0x20_0000;
    var c := b + v.l3 * 0x4000_0000;
    hide Shl;
    OrAbove(l0, v.l1, 12);
    OrAbove(a, v.l2, 21);
    OrAbove(b, v.l3, 30);
    OrAbove(c, v.l4, 39);
  }

  lemma OrAbove(low: nat, high: nat, n: nat)
    requires low < Pow2(n)
    ensures Or(low, Scale(high, n)) == low + Scale(high, n)
  {
    hide Or, Scale, Pow2;
    OrCommutes(low, Scale(high, n));
    OrIsSum(high, low, n);
  }

  // ---------------------------------------------------------------- the walk

  /** The index a walk uses in a table of the given level. */
  function Index(v: Page, level: nat): nat
    requires 1 <= level <= 4
  {
    if level == 4 then v.l4 else if level == 3 then v.l3 else if level == 2 then v.l2 else v.l1
  }

  /** A translation: a fault, or the frame number in a leaf entry found at some level. */
  datatype Translation = Fault | Mapped(frame: nat, level: nat)

  /** The hardware walk for page v from table t of the given level. */
  function Walk(ram: Ram, t: nat, level: nat, v: Page): Translation
    requires 1 <= level <= 4 && IsPage(v)
    decreases level
  {
    if t >= |ram| then Fault
    else
      var e := ram[t][Index(v, level)];
      if !Present(e) then Fault
      else if level == 1 then Mapped(FrameOf(e), 1)
      else if Large(e) then (if level == 4 then Fault else Mapped(FrameOf(e), level))
      else Walk(ram, FrameOf(e), level - 1, v)
  }

  function Translate(ram: Ram, root: nat, v: Page): Translation
    requires IsPage(v)
  {
    Walk(ram, root, 4, v)
  }

  /** The table of the given level that a walk for v reads, or -1 when it does not get there. */
  function TableAt(ram: Ram, root: nat, v: Page, level: nat): int
    requires 1 <= level <= 4 && IsPage(v)
    decreases 4 - level
  {
    if level == 4 then root
    else
      var t := TableAt(ram, root, v, level + 1);
      if t < 0 || t >= |ram| then -1
      else
        var e := ram[t][Index(v, level + 1)];
        if Present(e) && !Large(e) then FrameOf(e) else -1
  }

  /** The entry of that table that the walk reads. */
  function EntryOf(ram: Ram, root: nat, v: Page, level: nat): Word
    requires 1 <= level <= 4 && IsPage(v)
  {
    var t := TableAt(ram, root, v, level);
    if 0 <= t < |ram| then ram[t][Index(v, level)] else 0
  }

  /** A walk that gets to a table continues from it. */
  lemma {:induction false} WalkFromTable(ram: Ram, root: nat, v: Page, level: nat)
    requires 1 <= level <= 4 && IsPage(v) && TableAt(ram, root, v, level) >= 0
    ensures Translate(ram, root, v) == Walk(ram, TableAt(ram, root, v, level), level, v)
    decreases 4 - level
  {
    if level < 4 {
      WalkFromTable(ram, root, v, level + 1);
    }
  }

  /** A walk that does not get to the lowest table does not end in a 4 KiB page. */
  lemma {:induction false} WalkNeedsTable(ram: Ram, root: nat, v: Page, level: nat)
    requires 1 <= level <= 4 && IsPage(v) && TableAt(ram, root, v, level) < 0
    ensures Translate(ram, root, v).Mapped? ==> Translate(ram, root, v).level > level
    decreases 4 - level
  {
    if level < 4 {
      if TableAt(ram, root, v, level + 1) < 0 {
        WalkNeedsTable(ram, root, v, level + 1);
      } else {
        WalkFromTable(ram, root, v, level + 1);
      }
    }
  }

  // ---------------------------------------------------------------- the recursive window

  /** Slot 50 of the table points at the table. */
  predicate SelfReferencing(ram: Ram, root: nat) {
    root < |ram| &&
    var e := ram[root][RECURSIVE_SLOT];
    Present(e) && !Large(e) && FrameOf(e) == root
  }

  /** The page of the window on which the table of a level shows up: one more leading 50 for
      each level above the lowest. */
  function WindowPage(v: Page, level: nat): Page
    requires 1 <= level <= 4
  {
    if level == 4 then Page(RECURSIVE_SLOT, RECURSIVE_SLOT, RECURSIVE_SLOT, RECURSIVE_SLOT)
    else if level == 3 then Page(RECURSIVE_SLOT, RECURSIVE_SLOT, RECURSIVE_SLOT, v.l4)
    else if level == 2 then Page(RECURSIVE_SLOT, RECURSIVE_SLOT, v.l4, v.l3)
    else Page(RECURSIVE_SLOT, v.l4, v.l3, v.l2)
  }

  /** `craft_addr(50, ..., index * 8)`: the address the mapping functions use for an entry. */
  function EntryAddress(v: Page, level: nat): nat
    requires 1 <= level <= 4
  {
    var w := WindowPage(v, level);
    CraftAddr(w.l4, w.l3, w.l2, w.l1, Index(v, level) * 8)
  }

  /** The recursive-window theorem: under a self-referencing root, the hardware walk of the
      crafted address ends on the very table that the walk for v reads at that level, and the
      offset selects the very entry. */
  lemma WindowShowsEntry(ram: Ram, root: nat, v: Page, level: nat)
    requires 1 <= level <= 4 && IsPage(v) && SelfReferencing(ram, root)
    requires TableAt(ram, root, v, level) >= 0
    ensures EntryAddress(v, level) < WORD_LIMIT && EntryAddress(v, level) % 8 == 0
    ensures IsPage(WindowPage(v, level))
    ensures PageOf(EntryAddress(v, level)) == WindowPage(v, level)
    ensures OffsetOf(EntryAddress(v, level)) == 8 * Index(v, level)
    ensures Translate(ram, root, WindowPage(v, level)) == Mapped(TableAt(ram, root, v, level), 1)
  {
    hide CraftAddr, PageOf, OffsetOf, PageNumber, Walk, TableAt;
    assert (PageNumber(WindowPage(v, level)) * PAGE_SIZE + 8 * Index(v, level)) % 8 == 0;
    CraftAddrFields(WindowPage(v, level), 8 * Index(v, level));
    WindowWalk(ram, root, v, level);
  }

  lemma WindowWalk(ram: Ram, root: nat, v: Page, level: nat)
    requires 1 <= level <= 4 && IsPage(v) && SelfReferencing(ram, root)
    requires TableAt(ram, root, v, level) >= 0
    ensures Translate(ram, root, WindowPage(v, level)) == Mapped(TableAt(ram, root, v, level), 1)
  {
    var w := WindowPage(v, level);
    var t := TableAt(ram, root, v, level);
    assert Translate(ram, root, w) == Walk(ram, root, 3, w);
    if level == 4 {
      assert Walk(ram, root, 3, w) == Walk(ram, root, 2, w) == Walk(ram, root, 1, w);
    } else if level == 3 {
      assert Walk(ram, root, 3, w) == Walk(ram, root, 2, w) == Walk(ram, root, 1, w);
    } else if level == 2 {
      var t3 := TableAt(ram, root, v, 3);
      assert Walk(ram, root, 3, w) == Walk(ram, root, 2, w) == Walk(ram, t3, 1, w);
    } else {
      var t3, t2 := TableAt(ram, root, v, 3), TableAt(ram, root, v, 2);
      assert Walk(ram, root, 3, w) == Walk(ram, t3, 2, w) == Walk(ram, t2, 1, w);
    }
  }
}
