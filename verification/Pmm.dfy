/** The physical frame allocator: a bump allocator until `init_pmm`, then a bitmap kept inside
    frames it handed out itself. */
module Pmm {
  import opened Bits
  import opened Memory
  import opened Regions
  import opened FrameState
  import opened Positions

  const USABLE: int := 1
  const CLEAN_BITS_MASK: int := WORD_LIMIT - PAGE_SIZE

  /** An entry of the bootloader's memory map. */
  datatype MapEntry = MapEntry(base: Word, length: Word, kind: Word)

  /** A row of `loc_datas`. */
  datatype Location = Location(base: Word, length: Word, firstIndex: nat)

  /** `x.type & 1 && !(x.type ^ 1)`. */
  predicate IsUsable(e: MapEntry) {
    And(e.kind, 1) != 0 && Xor(e.kind, 1) == 0
  }

  lemma UsableIsTypeOne(e: MapEntry)
    ensures IsUsable(e) <==> e.kind == USABLE
  {
    XorSelf(1);
    if Xor(e.kind, 1) == 0 {
      Pow2Values();
      forall j: nat | j < 64 ensures Bit(e.kind, j) == Bit(1, j) {
        XorBit(e.kind, 1, j);
        BitOfZero(j);
      }
      BitsDetermine(e.kind, 1, 64);
    }
  }

  /** The usable entries of the memory map, in order. */
  function UsableRegions(es: seq<MapEntry>): seq<Region> {
    if es == [] then []
    else
      var last := es[|es| - 1];
      UsableRegions(es[..|es| - 1]) + (if IsUsable(last) then [Region(last.base, last.length)] else [])
  }

  /** The recorded regions are the entries of kind 1, each once and in the order of the map. */
  lemma {:induction false} UsableCollected(es: seq<MapEntry>) returns (at: seq<nat>)
    ensures Ascending(at, |es|) && |at| == |UsableRegions(es)|
    ensures forall i | 0 <= i < |at| :: UsableRegions(es)[i] == Region(es[at[i]].base, es[at[i]].length)
    ensures forall k: nat | k < |es| :: k in at <==> es[k].kind == 1
  {
    at := [];
    if es != [] {
      var n := |es| - 1;
      var shorter, last := es[..n], es[n];
      var before := UsableCollected(shorter);
      UsableIsTypeOne(last);
      hide IsUsable, Ascending, Extended;
      at := Extended(before, n, last.kind == 1);
      ExtendedHas(before, n, last.kind == 1);
      UsableMore(es);
      hide UsableRegions;
      forall i | 0 <= i < |at| ensures at[i] <= n && UsableRegions(es)[i] == Region(es[at[i]].base, es[at[i]].length) {
        Below(at, n + 1, i);
        if i < |before| {
          Below(before, n, i);
          assert shorter[before[i]] == es[at[i]];
        }
      }
      forall k: nat | k < |es| ensures k in at <==> es[k].kind == 1 {
        assert k < n ==> shorter[k] == es[k];
      }
    }
  }

  lemma UsableMore(es: seq<MapEntry>)
    requires es != []
    ensures var last := es[|es| - 1];
      UsableRegions(es) ==
        UsableRegions(es[..|es| - 1]) + if last.kind == 1 then [Region(last.base, last.length)] else []
  {
    UsableIsTypeOne(es[|es| - 1]);
    hide IsUsable;
  }

  lemma {:induction false} ManagedInEntry(es: seq<MapEntry>, size: nat, f: nat)
    requires RegionsOk(UsableRegions(es), size) && Managed(UsableRegions(es), f)
    ensures exists k :: 0 <= k < |es| && es[k].kind == 1 && InEntry(es[k], f)
  {
    var rs := UsableRegions(es);
    var at := UsableCollected(es);
    var i :| 0 <= i < |rs| && InRegion(rs[i], f);
    InRegionBytes(rs, size, i, f);
    assert at[i] in at && InEntry(es[at[i]], f);
  }

  lemma {:induction false} EntryIsManaged(es: seq<MapEntry>, size: nat, f: nat, k: nat)
    requires RegionsOk(UsableRegions(es), size) && k < |es| && es[k].kind == 1 && InEntry(es[k], f)
    ensures Managed(UsableRegions(es), f)
  {
    var rs := UsableRegions(es);
    var at := UsableCollected(es);
    assert k in at;
    var i :| 0 <= i < |at| && at[i] == k;
    InRegionBytes(rs, size, i, f);
  }

  lemma InRegionBytes(rs: seq<Region>, size: nat, i: nat, f: nat)
    requires RegionsOk(rs, size) && i < |rs|
    ensures InRegion(rs[i], f) <==> rs[i].base <= f * 4096 && f * 4096 + 4096 <= rs[i].base + rs[i].length
  {
    assert RegionOk(rs[i], size);
  }

  /** A frame may be handed out if and only if its 4096 bytes lie in an entry of kind 1. */
  lemma {:induction false} ManagedIsUsable(es: seq<MapEntry>, size: nat, f: nat)
    requires RegionsOk(UsableRegions(es), size)
    ensures Managed(UsableRegions(es), f) <==>
            exists k :: 0 <= k < |es| && es[k].kind == 1 && InEntry(es[k], f)
  {
    if Managed(UsableRegions(es), f) {
      ManagedInEntry(es, size, f);
    } else {
      forall k | 0 <= k < |es| && es[k].kind == 1 ensures !InEntry(es[k], f) {
        if InEntry(es[k], f) {
          EntryIsManaged(es, size, f, k);
        }
      }
    }
  }

  predicate InEntry(e: MapEntry, f: nat) {
    e.base <= f * 4096 && f * 4096 + 4096 <= e.base + e.length
  }

  /** `align`, for the one page size the kernel uses. */
  function Align(addr: Word): Word {
    var temp := And(addr, ((WORD_LIMIT - 1) * PAGE_SIZE) % WORD_LIMIT);
    if temp == addr then temp else (temp + PAGE_SIZE) % WORD_LIMIT
  }

  lemma MaskPage(x: Word)
    ensures And(x, CLEAN_BITS_MASK) == x - x % PAGE_SIZE
  {
    hide And, Shr, Low, Scale;
    var ones, page := Pow2(52) - 1, Shr(x, 12);
    Pow2Values();
    ScaleValues(ones);
    AndShifted(x, ones, 12);
    AndOnes(page, 52);
    SplitAt(x, 12);
    ScaleValues(page);
    LowAll(page, 52);
  }

  /** `align` rounds up to the next page boundary, wrapping past the end of the address space. */
  lemma AlignRoundsUp(addr: Word)
    ensures var r := Align(addr);
      && r % PAGE_SIZE == 0
      && (addr <= CLEAN_BITS_MASK ==> addr <= r < addr + PAGE_SIZE)
      && (addr > CLEAN_BITS_MASK ==> r == 0)
  {
    hide And;
    MaskPage(addr);
    assert ((WORD_LIMIT - 1) * PAGE_SIZE) % WORD_LIMIT == CLEAN_BITS_MASK;
  }

  /** The bases of usable regions are aligned already. */
  lemma AlignedBase(rs: seq<Region>, size: nat, i: nat)
    requires RegionsOk(rs, size) && i < |rs|
    ensures RegionOk(rs[i], size) && Align(rs[i].base) == rs[i].base
  {
    hide Align;
    AlignRoundsUp(rs[i].base);
  }

  /** Where word i of an array at a page-aligned window address lies. */
  lemma WordAddress(base: Word, i: nat)
    requires base >= WINDOW && base % PAGE_SIZE == 0
    ensures (base + 8 * i - WINDOW) / PAGE_SIZE == (base - WINDOW) / PAGE_SIZE + i / FRAME_WORDS
    ensures (base + 8 * i - WINDOW) % PAGE_SIZE / 8 == i % FRAME_WORDS
    ensures (base + 8 * i) % 8 == 0
  {
    var b := (base - WINDOW) / PAGE_SIZE;
    WindowPages(base);
    WordOffset(b, i);
    EightDivides(base / PAGE_SIZE, i);
  }

  lemma WindowPages(base: Word)
    requires base >= WINDOW && base % PAGE_SIZE == 0
    ensures base - WINDOW == PAGE_SIZE * ((base - WINDOW) / PAGE_SIZE) && base == PAGE_SIZE * (base / PAGE_SIZE)
  {}

  lemma WordOffset(page: nat, i: nat)
    ensures (PAGE_SIZE * page + 8 * i) / PAGE_SIZE == page + i / FRAME_WORDS
    ensures (PAGE_SIZE * page + 8 * i) % PAGE_SIZE / 8 == i % FRAME_WORDS
  {
    var q, r := i / FRAME_WORDS, i % FRAME_WORDS;
    assert PAGE_SIZE * page + 8 * i == PAGE_SIZE * (page + q) + 8 * r;
    PageAndWord(page + q, r);
  }

  lemma EightDivides(page: nat, i: nat)
    ensures (PAGE_SIZE * page + 8 * i) % 8 == 0
  {
    assert PAGE_SIZE * page + 8 * i == 8 * (0x200 * page + i);
  }

  lemma PageAndWord(page: nat, word: nat)
    requires word < FRAME_WORDS
    ensures (PAGE_SIZE * page + 8 * word) / PAGE_SIZE == page
    ensures (PAGE_SIZE * page + 8 * word) % PAGE_SIZE / 8 == word
  {}

  /** The rows `init_pmm` writes for the first k regions. */
  function Locations(rs: seq<Region>, k: nat): (ls: seq<Location>)
    requires k <= |rs|
    ensures |ls| == k
    ensures forall i | 0 <= i < k :: ls[i] == Location(rs[i].base, rs[i].length, Total(rs[..i]))
  {
    if k == 0 then []
    else Locations(rs, k - 1) + [Location(rs[k - 1].base, rs[k - 1].length, Total(rs[..k - 1]))]
  }

  class FrameAllocator {
    const memory: PhysicalMemory
    var memmap: seq<MapEntry>
    var isBitmapSet: bool
    var nframes: nat
    var withoutBitmap: nat
    var withoutBitmapInRegion: nat
    var available: seq<Region>
    var locDatas: seq<Location>
    var bitmapAddr: Word
    var prevI: nat

    constructor (memory: PhysicalMemory)
      ensures this.memory == memory && fresh(this)
      ensures memmap == [] && !isBitmapSet && nframes == 0 && available == [] && locDatas == []
      ensures withoutBitmap == withoutBitmapInRegion == prevI == 0
    {
      this.memory := memory;
      memmap, isBitmapSet, nframes := [], false, 0;
      withoutBitmap, withoutBitmapInRegion, prevI := 0, 0, 0;
      available, locDatas, bitmapAddr := [], [], 0;
    }

    function BitmapBase(): nat
      reads this
    {
      if bitmapAddr < WINDOW then 0 else (bitmapAddr - WINDOW) / PAGE_SIZE
    }

    ghost function State(): Alloc
      reads this, memory
    {
      Alloc(memory.frames, available, nframes, isBitmapSet, BitmapBase(), prevI, withoutBitmapInRegion, withoutBitmap)
    }

    ghost predicate BitmapLaid()
      reads this, memory
    {
      && isBitmapSet && bitmapAddr >= WINDOW && bitmapAddr % PAGE_SIZE == 0
      && BitmapInRam(State()) && |memory.frames| <= WINDOW_SIZE / PAGE_SIZE
    }

    /** No index of the complete words of the bitmap is free. */
    ghost predicate Exhausted()
      reads this, memory
    {
      isBitmapSet && BitmapInRam(State()) && AllUsedBelow(State(), 64 * (nframes / 64))
    }

    ghost predicate Valid()
      reads this, memory
    {
      && AllocOk(State())
      && (isBitmapSet ==> BitmapLaid() && locDatas == Locations(available, |available|))
    }

    method SetMemoryMap(entries: seq<MapEntry>)
      modifies this`memmap
      ensures memmap == entries
    {
      memmap := entries;
    }

    /** Records the usable regions and counts their frames. */
    method GetSizeInBits() returns (totalFrames: nat)
      requires available == [] && !isBitmapSet
      requires withoutBitmap == withoutBitmapInRegion == prevI == 0
      requires RegionsOk(UsableRegions(memmap), |memory.frames|) && |memory.frames| <= WINDOW_SIZE / PAGE_SIZE
      modifies this`nframes, this`available
      ensures Valid() && !isBitmapSet && available == UsableRegions(memmap)
      ensures totalFrames == nframes == Total(available)
      ensures forall f: nat :: !Taken(State(), f)
    {
      totalFrames := 0;
      var i := 0;
      while i < |memmap|
        invariant i <= |memmap|
        invariant available == UsableRegions(memmap[..i])
        invariant totalFrames == Total(available)
      {
        var x := memmap[i];
        assert memmap[..i + 1][..i] == memmap[..i];
        if IsUsable(x) {
          TotalSplit(available + [Region(x.base, x.length)], |available|);
          assert (available + [Region(x.base, x.length)])[..|available|] == available;
          assert (available + [Region(x.base, x.length)])[|available|..] == [Region(x.base, x.length)];
          totalFrames := totalFrames + x.length / PAGE_SIZE;
          available := available + [Region(x.base, x.length)];
        }
        i := i + 1;
      }
      assert memmap[..i] == memmap;
      nframes := totalFrames;
      assert forall j | 0 <= j < |available| :: RegionOk(available[j], |memory.frames|);
    }

    /** `bitmap_addr[i]`. */
    method ReadBitmap(i: nat) returns (w: Word)
      requires BitmapLaid() && i <= nframes / 64
      ensures w == BitmapWord(State(), i)
    {
      WordAddress(bitmapAddr, i);
      w := memory.Read(bitmapAddr + 8 * i);
    }

    /** `flip_frame`: toggles one bit of the bitmap. */
    method FlipFrame(frame: nat)
      requires BitmapLaid() && frame < 64 * (nframes / 64 + 1)
      modifies memory
      ensures memory.frames == FlipRam(old(State()), frame) && |memory.frames| == |old(memory.frames)|
      ensures State() == old(State()).(ram := memory.frames)
    {
      hide Xor, Pow2;
      WordAddress(bitmapAddr, frame / 64);
      var va: Word := bitmapAddr + 8 * (frame / 64);
      var w := memory.Read(va);
      OneShifted(frame % 64);
      Pow2Values();
      XorBelow(w, Pow2(frame % 64), 64);
      memory.Write(va, Xor(w, Shl(1, frame % 64)));
    }

    /** The zero-fill loop of `get_frame`, through the direct window. */
    method ClearFrame(address: Word)
      requires address % PAGE_SIZE == 0 && address + PAGE_SIZE < WINDOW_SIZE
      requires address / PAGE_SIZE < |memory.frames|
      modifies memory
      ensures |memory.frames| == |old(memory.frames)|
      ensures Zeroed(memory.frames[address / PAGE_SIZE])
      ensures forall g: nat | g < |memory.frames| && g != address / PAGE_SIZE ::
                memory.frames[g] == old(memory.frames[g])
    {
      var i := PhysicalToWindow(address);
      var end := PhysicalToWindow(address + PAGE_SIZE);
      ghost var k: nat := 0;
      while i < end
        invariant k <= FRAME_WORDS && i == WINDOW + address + 8 * k && end == WINDOW + address + PAGE_SIZE
        invariant |memory.frames| == |old(memory.frames)|
        invariant forall j | 0 <= j < k :: memory.frames[address / PAGE_SIZE][j] == 0
        invariant forall g: nat | g < |memory.frames| && g != address / PAGE_SIZE ::
                    memory.frames[g] == old(memory.frames[g])
      {
        WordAddress(WINDOW + address, k);
        memory.Write(i, 0);
        i := i + 8;
        k := k + 1;
      }
    }

    /** `get_frame`.  `None` stands for the panic that halts the core. */
    method GetFrame() returns (r: Option<Word>)
      requires Valid()
      modifies this`withoutBitmap, this`withoutBitmapInRegion, this`prevI, memory
      ensures r.Some? ==> Valid() && r.value % PAGE_SIZE == 0 && GotFrame(old(State()), State(), r.value / PAGE_SIZE)
      // the bump phase takes the next frame of the first region with one left before its last, and
      // fails only if there is none; within the first region it takes the frames in order
      ensures !isBitmapSet && r.Some? ==> withoutBitmap == old(withoutBitmap) + 1
      ensures !isBitmapSet && r.Some? ==>
        BumpTakes(available, old(prevI), old(withoutBitmapInRegion), r.value / PAGE_SIZE, prevI, withoutBitmapInRegion)
      ensures !isBitmapSet && r.None? ==> NoneLeft(available, old(prevI), old(withoutBitmapInRegion), |available|)
      ensures !isBitmapSet && available != [] && old(prevI) == 0
              && old(withoutBitmapInRegion) < Count(available[0]) - 1 ==>
              r.Some? && r.value / PAGE_SIZE == First(available[0]) + old(withoutBitmapInRegion)
              && prevI == 0 && withoutBitmapInRegion == old(withoutBitmapInRegion) + 1
      // the bitmap phase takes the least free index of the complete words, and fails only if there is none
      ensures isBitmapSet ==> unchanged(`withoutBitmap) && unchanged(`withoutBitmapInRegion) && unchanged(`prevI)
      ensures isBitmapSet && r.Some? ==> TakesLeast(old(State()), r.value / PAGE_SIZE)
      ensures isBitmapSet && r.None? ==> memory.frames == old(memory.frames) && Exhausted()
    {
      if !isBitmapSet {
        r := GetFrameWithoutBitmap();
      } else {
        r := GetFrameFromBitmap();
      }
    }

    method GetFrameWithoutBitmap() returns (r: Option<Word>)
      requires Valid() && !isBitmapSet
      modifies this`withoutBitmap, this`withoutBitmapInRegion, this`prevI, memory
      ensures r.Some? ==> Valid() && r.value % PAGE_SIZE == 0 && GotFrame(old(State()), State(), r.value / PAGE_SIZE)
      ensures r.Some? ==> withoutBitmap == old(withoutBitmap) + 1
      ensures r.Some? ==>
        BumpTakes(available, old(prevI), old(withoutBitmapInRegion), r.value / PAGE_SIZE, prevI, withoutBitmapInRegion)
      ensures r.None? ==> NoneLeft(available, old(prevI), old(withoutBitmapInRegion), |available|)
      ensures available != [] && old(prevI) == 0 && old(withoutBitmapInRegion) < Count(available[0]) - 1 ==>
              r.Some? && r.value / PAGE_SIZE == First(available[0]) + old(withoutBitmapInRegion)
              && prevI == 0 && withoutBitmapInRegion == old(withoutBitmapInRegion) + 1
    {
      hide BumpTaken, BumpBefore, Managed;
      ghost var before := State();
      var i, currentFrame := NextBumpFrame();
      if i == |available| {
        return None;
      }
      ghost var c := withoutBitmapInRegion;
      withoutBitmapInRegion := withoutBitmapInRegion + 1;
      withoutBitmap := withoutBitmap + 1;
      ClearFrame(currentFrame);
      prevI := i;
      BumpGot(before, State(), i, c);
      r := Some(currentFrame);
    }

    /** The bump loop: the first region, from `prev_i` on, with a frame left before its last. */
    method NextBumpFrame() returns (i: nat, currentFrame: Word)
      requires Valid() && !isBitmapSet
      modifies this`withoutBitmapInRegion
      ensures prevI <= i <= |available|
      ensures i < |available| ==>
        var c := withoutBitmapInRegion;
        && c < Count(available[i]) - 1 && currentFrame == (First(available[i]) + c) * PAGE_SIZE
        && withoutBitmap == BumpBefore(available, i) + c
        && forall g: nat ::
             BumpTaken(available, prevI, old(withoutBitmapInRegion), g) <==> BumpTaken(available, i, c, g)
      ensures prevI < |available| && old(withoutBitmapInRegion) < Count(available[prevI]) - 1 ==>
              i == prevI && withoutBitmapInRegion == old(withoutBitmapInRegion)
      ensures NoneLeft(available, prevI, old(withoutBitmapInRegion), i)
      ensures i < |available| ==> withoutBitmapInRegion == if i == prevI then old(withoutBitmapInRegion) else 0
    {
      hide BumpTaken, BumpBefore, Managed, Align;
      ghost var size := |memory.frames|;
      currentFrame := 0;
      i := prevI;
      while i < |available|
        invariant prevI <= i <= |available|
        invariant i == prevI ==> withoutBitmapInRegion == old(withoutBitmapInRegion)
        invariant NoneLeft(available, prevI, old(withoutBitmapInRegion), i)
        invariant i > prevI ==> !(old(withoutBitmapInRegion) < Count(available[prevI]) - 1)
        invariant withoutBitmap == BumpBefore(available, i) + (if i > prevI then 0 else withoutBitmapInRegion)
        invariant forall g: nat :: BumpTaken(available, prevI, old(withoutBitmapInRegion), g)
                               <==> BumpTaken(available, i, if i > prevI then 0 else withoutBitmapInRegion, g)
      {
        if i > prevI {
          withoutBitmapInRegion := 0;
        }
        var region := available[i];
        AlignedBase(available, size, i);
        currentFrame := Align(region.base) + withoutBitmapInRegion * PAGE_SIZE;
        if currentFrame < Align(region.base) + region.length - PAGE_SIZE {
          return;
        }
        BumpNextRegion(available, size, i, withoutBitmapInRegion);
        i := i + 1;
      }
    }

    method GetFrameFromBitmap() returns (r: Option<Word>)
      requires Valid() && isBitmapSet
      modifies memory
      ensures r.Some? ==> Valid() && r.value % PAGE_SIZE == 0 && GotFrame(old(State()), State(), r.value / PAGE_SIZE)
                          && TakesLeast(old(State()), r.value / PAGE_SIZE)
      ensures r.None? ==> memory.frames == old(memory.frames) && Exhausted()
    {
      hide FrameAt, GotFrame, TakesLeast, AllUsedBelow, Used, BitmapWord, AllocOk;
      var index := FindFreeIndex();
      if index.None? {
        return None;
      }
      var currentFrame := TakeIndex(index.value);
      r := Some(currentFrame);
    }

    /** Decodes a free index, sets its bit and zero-fills its frame. */
    method TakeIndex(index: nat) returns (currentFrame: Word)
      requires Valid() && isBitmapSet && index < nframes && !Used(State(), index)
      modifies memory
      ensures Valid() && currentFrame == FrameAt(available, index) * PAGE_SIZE
      ensures GotFrame(old(State()), State(), FrameAt(available, index))
    {
      hide FlipRam, FrameAt, BitmapWord, Used, Taken, BitFlipped, Managed;
      ghost var before := State();
      currentFrame := DecodeIndex(index);
      FlipRamFlips(before, index);
      FlipFrame(index);
      ghost var flipped := State();
      ClearFrame(currentFrame);
      FlipThenClear(before, flipped, State(), index);
    }

    /** The two scan loops: the least clear bit of the complete words. */
    method FindFreeIndex() returns (r: Option<nat>)
      requires Valid() && isBitmapSet
      ensures r.Some? ==> r.value < nframes && !Used(State(), r.value)
      ensures r.Some? ==> TakesLeast(State(), FrameAt(available, r.value))
      ensures r.None? ==> AllUsedBelow(State(), 64 * (nframes / 64))
    {
      assert AllUsedBelow(State(), 0);
      hide Taken, Used, FrameAt, TakesLeast, AllUsedBelow;
      var i := 0;
      var w := ReadBitmap(0);
      while i < nframes / 64 && w == WORD_LIMIT - 1
        invariant i <= nframes / 64 && w == BitmapWord(State(), i)
        invariant AllUsedBelow(State(), 64 * i)
      {
        FullWordUsed(State(), i);
        i := i + 1;
        w := ReadBitmap(i);
      }
      if i == nframes / 64 {
        return None;
      }
      var j := FirstClearBit(w);
      LeastIndex(State(), i, j);
      r := Some(i * 64 + j);
    }

    /** The loop that turns an index into an address by subtracting region sizes. */
    method DecodeIndex(index: nat) returns (currentFrame: Word)
      requires RegionsOk(available, |memory.frames|) && index < Total(available)
      ensures currentFrame == FrameAt(available, index) * PAGE_SIZE
      ensures FrameAt(available, index) < |memory.frames| && currentFrame + PAGE_SIZE < WINDOW_SIZE
    {
      IndexOfFrameAt(available, |memory.frames|, index);
      ManagedBelow(available, |memory.frames|, FrameAt(available, index));
      TotalBound(available, |memory.frames|);
      var z := 0;
      var rest: nat := index;
      assert available[0..] == available;
      while true
        invariant z < |available| && rest < Total(available[z..])
        invariant rest <= index && FrameAt(available[z..], rest) == FrameAt(available, index)
        decreases |available| - z
      {
        var region := available[z];
        AlignedBase(available, |memory.frames|, z);
        currentFrame := Align(region.base) + rest * PAGE_SIZE;
        if currentFrame <= Align(region.base) + region.length - PAGE_SIZE {
          return;
        }
        assert available[z..][1..] == available[z + 1..];
        rest := rest - region.length / PAGE_SIZE;
        z := z + 1;
      }
    }

    /** Clears one word of the bitmap. */
    method ClearBitmapWord(i: nat)
      requires BitmapLaid() && i <= nframes / 64
      modifies memory
      ensures |memory.frames| == |old(memory.frames)|
      ensures forall w: nat | w <= nframes / 64 ::
                BitmapWord(State(), w) == if w == i then 0 else old(BitmapWord(State(), w))
      ensures forall g: nat | g < |memory.frames| && !BitmapFrame(State(), g) ::
                memory.frames[g] == old(memory.frames[g])
    {
      WordAddress(bitmapAddr, i);
      memory.Write(bitmapAddr + 8 * i, 0);
    }

    /** `init_pmm`: from here on the allocator reads its state from the bitmap at `virtualAddr`. */
    method InitPmm(virtualAddr: Word)
      requires Valid() && !isBitmapSet && available != [] && withoutBitmap <= Count(available[0]) - 1
      requires virtualAddr >= WINDOW && virtualAddr % PAGE_SIZE == 0
      requires forall f: nat | 0 <= f - (virtualAddr - WINDOW) / PAGE_SIZE <= nframes / PAGE_SIZE :: Taken(State(), f)
      modifies this`isBitmapSet, this`bitmapAddr, this`locDatas, memory
      ensures Valid() && isBitmapSet && bitmapAddr == virtualAddr
      ensures Switched(old(State()), State())
    {
      hide Taken, Used, BitmapWord, Managed, Align;
      ghost var before := State();
      ReservedInRam(before, (virtualAddr - WINDOW) / PAGE_SIZE);
      isBitmapSet := true;
      bitmapAddr := virtualAddr;
      ClearBitmap();
      MarkBelow(withoutBitmap);
      FillLocations();
      MarkedThenSwitched(before, State());
    }

    /** The table `free_frame` looks addresses up in. */
    method FillLocations()
      requires RegionsOk(available, |memory.frames|)
      modifies this`locDatas
      ensures locDatas == Locations(available, |available|) && State() == old(State())
    {
      assert Total(available[..0]) == 0;
      hide And, Total, RegionsOk;
      locDatas := [];
      var i := 0;
      var currentNframes := 0;
      while i < |available|
        invariant i <= |available| && locDatas == Locations(available, i) && currentNframes == Total(available[..i])
      {
        AlignedBase(available, |memory.frames|, i);
        var base := Align(available[i].base);
        var length := available[i].length - (base - available[i].base);
        locDatas := locDatas + [Location(base, length, currentNframes)];
        TotalStep(available, i);
        currentNframes := currentNframes + length / PAGE_SIZE;
        i := i + 1;
      }
    }

    method ClearBitmap()
      requires BitmapLaid()
      modifies memory
      ensures |memory.frames| == |old(memory.frames)|
      ensures forall j: nat | j < 64 * (nframes / 64 + 1) :: !Used(State(), j)
      ensures forall g: nat | g < |memory.frames| && !BitmapFrame(State(), g) ::
                memory.frames[g] == old(memory.frames[g])
    {
      var i := 0;
      while i < nframes / 64 + 1
        invariant i <= nframes / 64 + 1 && |memory.frames| == |old(memory.frames)|
        invariant forall w: nat | w < i :: BitmapWord(State(), w) == 0
        invariant forall g: nat | g < |memory.frames| && !BitmapFrame(State(), g) ::
                    memory.frames[g] == old(memory.frames[g])
      {
        ClearBitmapWord(i);
        i := i + 1;
      }
      forall j: nat | j < 64 * (nframes / 64 + 1) ensures !Used(State(), j) {
        BitOfZero(j % 64);
        assert BitmapWord(State(), j / 64) == 0;
      }
    }

    /** Flips the bits of the frames handed out so far: indices 0 to n - 1. */
    method MarkBelow(n: nat)
      requires BitmapLaid() && n <= 64 * (nframes / 64 + 1)
      requires forall j: nat | j < 64 * (nframes / 64 + 1) :: !Used(State(), j)
      modifies memory
      ensures |memory.frames| == |old(memory.frames)|
      ensures forall j: nat | j < 64 * (nframes / 64 + 1) :: Used(State(), j) <==> j < n
      ensures forall g: nat | g < |memory.frames| && !BitmapFrame(State(), g) ::
                memory.frames[g] == old(memory.frames[g])
    {
      hide FlipRam, BitmapWord, Used;
      var i := 0;
      while i < n
        invariant i <= n && |memory.frames| == |old(memory.frames)|
        invariant forall j: nat | j < 64 * (nframes / 64 + 1) :: Used(State(), j) <==> j < i
        invariant forall g: nat | g < |memory.frames| && !BitmapFrame(State(), g) ::
                    memory.frames[g] == old(memory.frames[g])
      {
        FlipRamFlips(State(), i);
        FlipFrame(i);
        i := i + 1;
      }
    }

    /** One turn of the lookup loop: flips the bit of an address inside row i. */
    method FreeInRegion(i: nat, addr: Word, ghost f: nat)
      requires BitmapLaid() && RegionsOk(available, |memory.frames|) && nframes == Total(available)
      requires locDatas == Locations(available, |available|) && i < |available| && addr == f * PAGE_SIZE
      modifies memory
      ensures |memory.frames| == |old(memory.frames)|
      ensures FlippedIf(old(State()), memory.frames, IndexOf(available, f), InRegion(available[i], f))
    {
      hide FlipRam;
      LookupTest(available, |memory.frames|, i, f);
      if !(addr >= locDatas[i].base + locDatas[i].length || addr < locDatas[i].base) {
        var frameNumber := locDatas[i].firstIndex + (addr - locDatas[i].base) / PAGE_SIZE;
        LookedUp(available, |memory.frames|, i, f);
        FlipFrame(frameNumber);
      }
    }

    /** `free_frame`: toggles the bit of the frame an address lies in; addresses outside the
        regions are ignored.  A taken frame is released, a free one becomes taken, and the
        allocator breaks exactly when the frame is one of the bitmap's own. */
    method FreeFrame(address: Word)
      requires Valid() && isBitmapSet
      modifies memory
      ensures |memory.frames| == |old(memory.frames)|
      ensures Valid() <==> !BitmapFrame(old(State()), address / PAGE_SIZE)
      ensures !Managed(available, address / PAGE_SIZE) ==> memory.frames == old(memory.frames)
      ensures Taken(old(State()), address / PAGE_SIZE) && !BitmapFrame(old(State()), address / PAGE_SIZE) ==>
        Released(old(State()), State(), address / PAGE_SIZE)
      ensures Managed(available, address / PAGE_SIZE) && !Taken(old(State()), address / PAGE_SIZE) ==>
        Valid() && TakenSet(State()) == TakenSet(old(State())) + {address / PAGE_SIZE}
    {
      hide FlipRam, Managed, IndexOf, FrameAt, BitmapWord, Used, Taken, Total, And, Released, TakenSet, BitmapFrame;
      ghost var before, f: nat := State(), address / PAGE_SIZE;
      MaskPage(address);
      FlipMatching(And(address, CLEAN_BITS_MASK), f);
      if Managed(available, f) {
        FreedByFlip(before, State(), f);
      } else {
        UnmanagedIsFree(before, f);
        assert State() == before;
      }
    }

    /** The lookup loop of `free_frame`, over all rows of the table. */
    method FlipMatching(addr: Word, ghost f: nat)
      requires BitmapLaid() && RegionsOk(available, |memory.frames|) && nframes == Total(available)
      requires locDatas == Locations(available, |available|) && addr == f * PAGE_SIZE
      modifies memory
      ensures |memory.frames| == |old(memory.frames)|
      ensures Managed(available, f) ==>
              IndexOf(available, f) < nframes && memory.frames == FlipRam(old(State()), IndexOf(available, f))
      ensures !Managed(available, f) ==> memory.frames == old(memory.frames)
    {
      hide FlipRam, IndexOf, BitmapWord, Total, RegionsOk, InRegion, Locations;
      ghost var before, done := State(), false;
      ghost var index := IndexOf(available, f);
      assert !Managed(available[..0], f);
      hide Managed;
      var i := 0;
      while i < |locDatas|
        invariant i <= |locDatas| && |memory.frames| == |before.ram|
        invariant done <==> Managed(available[..i], f)
        invariant FlippedIf(before, memory.frames, index, done)
      {
        ManagedSnoc(available, i, f);
        if InRegion(available[i], f) {
          LookedUp(available, |memory.frames|, i, f);
          done := true;
        }
        FreeInRegion(i, addr, f);
        i := i + 1;
      }
      assert available[..i] == available;
    }

    /** `while(w & (1ull << j)) j++`. */
    method FirstClearBit(w: Word) returns (j: nat)
      requires w != WORD_LIMIT - 1
      ensures j < 64 && !Bit(w, j) && forall k: nat | k < j :: Bit(w, k)
    {
      AllOnes(w);
      j := 0;
      while And(w, Shl(1, j)) != 0
        invariant j < 64 && forall k: nat | k < j :: Bit(w, k)
        decreases 64 - j
      {
        OneShifted(j);
        TestBit(w, j);
        if j == 63 {
          assert FullWord(w);
        }
        j := j + 1;
      }
      OneShifted(j);
      TestBit(w, j);
    }
  }

  /** The memory is as before, or with the bit of an index toggled. */
  predicate FlippedIf(a: Alloc, ram: Ram, index: nat, flipped: bool)
    requires BitmapInRam(a)
  {
    if flipped then index < a.nframes && ram == FlipRam(a, index) else ram == a.ram
  }

  /** Regions prev to i - 1 have no frame left before their last, when `count` frames of region prev
      have been handed out. */
  predicate NoneLeft(rs: seq<Region>, prev: nat, count: nat, i: nat)
    requires i <= |rs|
  {
    forall k | prev <= k < i :: Count(rs[k]) - 1 <= if k == prev then count else 0
  }

  /** From the bump counters prev and count, frame f of region i is next, and the count is c after. */
  predicate BumpTakes(rs: seq<Region>, prev: nat, count: nat, f: nat, i: nat, c: nat) {
    && prev <= i < |rs| && NoneLeft(rs, prev, count, i)
    && c == (if i == prev then count else 0) + 1 && c <= Count(rs[i]) - 1 && f == First(rs[i]) + c - 1
  }

  /** f is the frame with the least clear index. */
  ghost predicate TakesLeast(a: Alloc, f: nat)
    requires AllocOk(a) && a.bitmapSet
  {
    var i := IndexOf(a.regions, f);
    && Managed(a.regions, f)
    && i < 64 * (a.nframes / 64)
    && !Used(a, i)
    && AllUsedBelow(a, i)
  }

  ghost predicate AllUsedBelow(a: Alloc, n: nat)
    requires BitmapInRam(a) && n <= 64 * (a.nframes / 64 + 1)
  {
    forall i: nat | i < n :: Used(a, i)
  }

  lemma FullWordUsed(a: Alloc, i: nat)
    requires BitmapInRam(a) && i < a.nframes / 64 && AllUsedBelow(a, 64 * i)
    requires BitmapWord(a, i) == WORD_LIMIT - 1
    ensures AllUsedBelow(a, 64 * (i + 1))
  {
    hide BitmapWord;
    AllOnes(BitmapWord(a, i));
    forall j: nat | j < 64 * (i + 1) ensures Used(a, j) {
      if j >= 64 * i {
        assert Bit(BitmapWord(a, i), j - 64 * i);
      }
    }
  }

  lemma LeastIndex(a: Alloc, i: nat, j: nat)
    requires AllocOk(a) && a.bitmapSet && i < a.nframes / 64 && j < 64 && AllUsedBelow(a, 64 * i)
    requires !Bit(BitmapWord(a, i), j) && forall k: nat | k < j :: Bit(BitmapWord(a, i), k)
    ensures i * 64 + j < a.nframes && !Used(a, i * 64 + j)
    ensures TakesLeast(a, FrameAt(a.regions, i * 64 + j))
  {
    hide BitmapWord;
    var index := i * 64 + j;
    IndexOfFrameAt(a.regions, |a.ram|, index);
    forall k: nat | k < index ensures Used(a, k) {
      if k >= 64 * i {
        assert Bit(BitmapWord(a, i), k - 64 * i);
      }
    }
  }

  lemma BumpNextRegion(rs: seq<Region>, size: nat, i: nat, c: nat)
    requires RegionsOk(rs, size) && i < |rs| && c == Count(rs[i]) - 1
    ensures BumpBefore(rs, i + 1) == BumpBefore(rs, i) + c
    ensures forall g: nat :: BumpTaken(rs, i, c, g) <==> BumpTaken(rs, i + 1, 0, g)
  {
    forall g: nat ensures BumpTaken(rs, i, c, g) <==> BumpTaken(rs, i + 1, 0, g) {
      BumpAdvance(rs, size, i, c, g);
    }
  }

  lemma BumpGot(a: Alloc, b: Alloc, i: nat, c: nat)
    requires AllocOk(a) && !a.bitmapSet && SameLayout(a, b)
    requires a.prev <= i < |a.regions| && c < Count(a.regions[i]) - 1
    requires b.prev == i && b.count == c + 1 && b.total == a.total + 1
    requires a.total == BumpBefore(a.regions, i) + c
    requires forall g: nat :: BumpTaken(a.regions, a.prev, a.count, g) <==> BumpTaken(a.regions, i, c, g)
    requires First(a.regions[i]) + c < |b.ram| && Zeroed(b.ram[First(a.regions[i]) + c])
    requires forall g: nat | g < |a.ram| && g != First(a.regions[i]) + c :: b.ram[g] == a.ram[g]
    ensures GotFrame(a, b, First(a.regions[i]) + c)
  {
    var f := First(a.regions[i]) + c;
    BumpTakesNext(a.regions, |a.ram|, i, c, f);
    assert AllocOk(b);
    forall g: nat ensures Taken(b, g) <==> (g == f || Taken(a, g)) {
      hide BumpTaken;
      BumpTakesNext(a.regions, |a.ram|, i, c, g);
    }
    TakenThenGot(a, b, f);
  }

  lemma ReservedInRam(a: Alloc, first: nat)
    requires AllocOk(a) && !a.bitmapSet
    requires forall f: nat | 0 <= f - first <= a.nframes / PAGE_SIZE :: Taken(a, f)
    ensures first + a.nframes / PAGE_SIZE < |a.ram|
  {
    assert Taken(a, first + a.nframes / PAGE_SIZE);
    ManagedBelow(a.regions, |a.ram|, first + a.nframes / PAGE_SIZE);
  }

  lemma TotalStep(rs: seq<Region>, i: nat)
    requires i < |rs|
    ensures Total(rs[..i + 1]) == Total(rs[..i]) + Count(rs[i])
  {
    TotalSplit(rs[..i + 1], i);
    assert rs[..i + 1][..i] == rs[..i];
    assert rs[..i + 1][i..] == [rs[i]];
    assert [rs[i]][1..] == [];
  }

  lemma ManagedSnoc(rs: seq<Region>, i: nat, f: nat)
    requires i < |rs|
    ensures Managed(rs[..i + 1], f) <==> Managed(rs[..i], f) || InRegion(rs[i], f)
  {
    var longer := rs[..i + 1];
    if j :| 0 <= j < |longer| && InRegion(longer[j], f) {
      assert j < i ==> rs[..i][j] == rs[j];
    }
    if j :| 0 <= j < i && InRegion(rs[..i][j], f) {
      assert rs[..i + 1][j] == rs[j];
    }
    if InRegion(rs[i], f) {
      assert rs[..i + 1][i] == rs[i];
    }
  }

  lemma NotInEarlier(rs: seq<Region>, size: nat, i: nat, f: nat)
    requires RegionsOk(rs, size) && i < |rs| && InRegion(rs[i], f)
    ensures !Managed(rs[..i], f) && Managed(rs, f)
  {
    if j :| 0 <= j < i && InRegion(rs[..i][j], f) {
      DisjointFrames(rs, size, j, i, f);
    }
  }

  lemma LookedUp(rs: seq<Region>, size: nat, i: nat, f: nat)
    requires RegionsOk(rs, size) && i < |rs| && InRegion(rs[i], f)
    ensures !Managed(rs[..i], f) && Managed(rs, f) && IndexOf(rs, f) < Total(rs)
    ensures IndexOf(rs, f) == Total(rs[..i]) + f - First(rs[i])
  {
    IndexInRegion(rs, size, i, f);
    NotInEarlier(rs, size, i, f);
    FrameAtIndexOf(rs, f);
  }

  /** The address comparison of the lookup, in frames. */
  lemma LookupTest(rs: seq<Region>, size: nat, i: nat, f: nat)
    requires RegionsOk(rs, size) && i < |rs|
    ensures InRegion(rs[i], f) <==> rs[i].base <= f * PAGE_SIZE < rs[i].base + rs[i].length
    ensures f >= First(rs[i]) ==> (f * PAGE_SIZE - rs[i].base) / PAGE_SIZE == f - First(rs[i])
  {
    assert RegionOk(rs[i], size);
  }

  lemma FreedByFlip(a: Alloc, b: Alloc, f: nat)
    requires AllocOk(a) && a.bitmapSet && Managed(a.regions, f)
    requires IndexOf(a.regions, f) < a.nframes && b == a.(ram := FlipRam(a, IndexOf(a.regions, f)))
    ensures AllocOk(b) <==> !BitmapFrame(a, f)
    ensures Taken(a, f) && !BitmapFrame(a, f) ==> Released(a, b, f)
    ensures !Taken(a, f) ==> AllocOk(b) && TakenSet(b) == TakenSet(a) + {f}
  {
    hide FlipRam;
    var i := IndexOf(a.regions, f);
    FrameAtIndexOf(a.regions, f);
    FlipRamFlips(a, i);
    assert Taken(a, f) == Used(a, i);
    assert BitmapFrame(a, f) ==> Taken(a, f);
    hide Flipped, Taken, Used, AllocOk, BitmapFrame, TakenSet, Released;
    if BitmapFrame(a, f) {
      FlipBreaks(a, b, i);
    } else if Used(a, i) {
      FlipReleases(a, b, i);
      ReleasedOk(a, b, f);
    } else {
      FlipMarks(a, b, i);
    }
  }

  lemma ReleasedOk(a: Alloc, b: Alloc, f: nat)
    requires Released(a, b, f)
    ensures AllocOk(b)
  {
    hide AllocOk;
  }

  /** A frame outside the regions is not the bitmap's and not taken. */
  lemma UnmanagedIsFree(a: Alloc, f: nat)
    requires AllocOk(a) && a.bitmapSet && !Managed(a.regions, f)
    ensures !BitmapFrame(a, f) && !Taken(a, f)
  {
    assert BitmapFrame(a, f) ==> Taken(a, f);
  }
}
