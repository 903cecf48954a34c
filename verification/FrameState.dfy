/** The allocator's state as a value, what it means for a frame to be taken in each of its two
    representations, and what one allocation or one release does to it. */
module FrameState {
  import opened Bits
  import opened Memory
  import opened Regions

  /** The statics of the allocator.  `bitmap` is the frame number of `bitmap_addr`; `prev` and
      `count` are the bump cursor (`prev_i` and the count within that region); `total` counts all
      frames handed out before the bitmap exists. */
  datatype Alloc = Alloc(ram: Ram, regions: seq<Region>, nframes: nat,
                         bitmapSet: bool, bitmap: nat, prev: nat, count: nat, total: nat)

  /** How many frames of region j the bump allocator has handed out: all but the last of each
      earlier region, and the first `count` of region `prev`. */
  function BumpCount(rs: seq<Region>, prev: nat, count: nat, j: nat): int
    requires j < |rs|
  {
    if j < prev then Count(rs[j]) - 1 else if j == prev then count else 0
  }

  predicate AmongFirst(r: Region, n: int, f: nat) {
    First(r) <= f < First(r) + n
  }

  ghost predicate BumpTaken(rs: seq<Region>, prev: nat, count: nat, f: nat) {
    exists j | 0 <= j < |rs| :: AmongFirst(rs[j], BumpCount(rs, prev, count, j), f)
  }

  /** The frames handed out before region k was reached. */
  function BumpBefore(rs: seq<Region>, k: nat): int
    requires k <= |rs|
  {
    if k == 0 then 0 else BumpBefore(rs, k - 1) + Count(rs[k - 1]) - 1
  }

  /** The frames reserved for the bitmap at boot. */
  predicate BitmapFrame(a: Alloc, f: nat) {
    a.bitmapSet && a.bitmap <= f <= a.bitmap + a.nframes / PAGE_SIZE
  }

  predicate BitmapInRam(a: Alloc) {
    a.bitmap + a.nframes / PAGE_SIZE < |a.ram|
  }

  /** Word w of the bitmap, where it lies in memory. */
  function BitmapWord(a: Alloc, w: nat): Word
    requires BitmapInRam(a) && w <= a.nframes / 64
  {
    a.ram[a.bitmap + w / FRAME_WORDS][w % FRAME_WORDS]
  }

  /** `read_frame`. */
  ghost predicate Used(a: Alloc, i: nat)
    requires BitmapInRam(a) && i < 64 * (a.nframes / 64 + 1)
  {
    Bit(BitmapWord(a, i / 64), i % 64)
  }

  ghost predicate Taken(a: Alloc, f: nat)
    requires a.bitmapSet ==> BitmapInRam(a)
  {
    && Managed(a.regions, f)
    && if a.bitmapSet then
         IndexOf(a.regions, f) < a.nframes && Used(a, IndexOf(a.regions, f))
       else
         BumpTaken(a.regions, a.prev, a.count, f)
  }

  ghost predicate AllocOk(a: Alloc) {
    && RegionsOk(a.regions, |a.ram|)
    && |a.ram| <= WINDOW_SIZE / PAGE_SIZE
    && a.nframes == Total(a.regions)
    && if a.bitmapSet then
         && BitmapInRam(a)
         && (forall f: nat | BitmapFrame(a, f) :: Taken(a, f))
       else
         && a.prev <= |a.regions|
         && a.total == BumpBefore(a.regions, a.prev) + a.count
         && (a.prev == 0 || a.count > 0)
         && (if a.prev < |a.regions| then a.count < Count(a.regions[a.prev]) else a.count == 0)
  }

  ghost function TakenSet(a: Alloc): set<nat>
    requires AllocOk(a)
  {
    set f: nat | f < |a.ram| && Taken(a, f)
  }

  /** Everything an allocation or release leaves alone. */
  predicate SameLayout(a: Alloc, b: Alloc) {
    && |a.ram| == |b.ram| && a.regions == b.regions && a.nframes == b.nframes
    && a.bitmapSet == b.bitmapSet && a.bitmap == b.bitmap
  }

  /** All bits of the bitmap, those past the last frame included, agree except possibly bit i. */
  ghost predicate SameBitsBut(a: Alloc, b: Alloc, i: nat)
    requires BitmapInRam(a) && SameLayout(a, b)
  {
    forall j: nat | j < 64 * (a.nframes / 64 + 1) && j != i :: Used(b, j) == Used(a, j)
  }

  /** From a to b, frame f was handed out: it was managed and free, it is now taken and all
      zero, and nothing else changed outside the bitmap. */
  ghost predicate GotFrame(a: Alloc, b: Alloc, f: nat) {
    && AllocOk(a) && AllocOk(b) && SameLayout(a, b)
    && Managed(a.regions, f) && !Taken(a, f)
    && TakenSet(b) == TakenSet(a) + {f}
    && (a.bitmapSet ==> SameBitsBut(a, b, IndexOf(a.regions, f)))
    && Zeroed(b.ram[f])
    && (forall g: nat | g < |a.ram| && g != f && !BitmapFrame(a, g) :: b.ram[g] == a.ram[g])
  }

  /** From a to b, frame f was released. */
  ghost predicate Released(a: Alloc, b: Alloc, f: nat) {
    && AllocOk(a) && AllocOk(b) && SameLayout(a, b)
    && a.bitmapSet && f in TakenSet(a) && !BitmapFrame(a, f)
    && TakenSet(b) == TakenSet(a) - {f}
    && SameBitsBut(a, b, IndexOf(a.regions, f))
    && (forall g: nat | g < |a.ram| && !BitmapFrame(a, g) :: b.ram[g] == a.ram[g])
  }

  /** The bitmap of b is the bitmap of a with bit i toggled. */
  ghost predicate BitFlipped(a: Alloc, b: Alloc, i: nat)
    requires BitmapInRam(a)
  {
    && SameLayout(a, b)
    && (forall j: nat | j < 64 * (a.nframes / 64 + 1) :: Used(b, j) <==> (if j == i then !Used(a, j) else Used(a, j)))
  }

  /** ... and no frame outside the bitmap differs. */
  ghost predicate Flipped(a: Alloc, b: Alloc, i: nat)
    requires BitmapInRam(a)
  {
    && BitFlipped(a, b, i)
    && (forall f: nat | f < |a.ram| && !BitmapFrame(a, f) :: b.ram[f] == a.ram[f])
  }

  /** What `flip_frame` writes. */
  function FlipRam(a: Alloc, i: nat): Ram
    requires BitmapInRam(a) && i < 64 * (a.nframes / 64 + 1)
  {
    var w := i / 64;
    var word := Xor(BitmapWord(a, w), Shl(1, i % 64));
    StoreWord(a.ram, a.bitmap + w / FRAME_WORDS, w % FRAME_WORDS, word % WORD_LIMIT)
  }

  lemma OneShifted(n: nat)
    requires n < 64
    ensures Shl(1, n) == Pow2(n) < WORD_LIMIT
  {
    Pow2Values();
    Pow2Monotone(n, 63);
  }

  lemma FlipRamWord(a: Alloc, i: nat, w: nat)
    requires BitmapInRam(a) && i < 64 * (a.nframes / 64 + 1) && w <= a.nframes / 64
    ensures BitmapWord(a.(ram := FlipRam(a, i)), w)
         == if w == i / 64 then Xor(BitmapWord(a, w), Pow2(i % 64)) else BitmapWord(a, w)
  {
    hide Xor, Pow2;
    OneShifted(i % 64);
    Pow2Values();
    XorBelow(BitmapWord(a, i / 64), Pow2(i % 64), 64);
  }

  lemma FlipRamFlips(a: Alloc, i: nat)
    requires BitmapInRam(a) && a.bitmapSet && i < 64 * (a.nframes / 64 + 1)
    ensures Flipped(a, a.(ram := FlipRam(a, i)), i)
  {
    hide Xor, Pow2, Bit, BitmapWord;
    var b := a.(ram := FlipRam(a, i));
    forall j: nat | j < 64 * (a.nframes / 64 + 1)
      ensures Used(b, j) <==> (if j == i then !Used(a, j) else Used(a, j))
    {
      FlipRamWord(a, i, j / 64);
      FlipBit(BitmapWord(a, i / 64), i % 64, j % 64);
    }
  }

  /** Toggling bit i changes exactly whether the i-th frame is taken. */
  lemma FlipTakes(a: Alloc, b: Alloc, i: nat, g: nat)
    requires AllocOk(a) && a.bitmapSet && i < a.nframes && BitFlipped(a, b, i)
    ensures Managed(a.regions, FrameAt(a.regions, i))
    ensures Taken(b, g) <==> (if g == FrameAt(a.regions, i) then !Taken(a, g) else Taken(a, g))
  {
    IndexOfFrameAt(a.regions, |a.ram|, i);
    if Managed(a.regions, g) {
      FrameAtIndexOf(a.regions, g);
    }
  }

  lemma SameBitmap(b: Alloc, c: Alloc)
    requires BitmapInRam(b) && b.bitmapSet && SameLayout(b, c)
    requires forall g: nat | BitmapFrame(b, g) :: c.ram[g] == b.ram[g]
    ensures forall j: nat | j < 64 * (b.nframes / 64 + 1) :: Used(c, j) == Used(b, j)
  {
    forall j: nat | j < 64 * (b.nframes / 64 + 1) ensures Used(c, j) == Used(b, j) {
      var g := b.bitmap + j / 64 / FRAME_WORDS;
      assert BitmapFrame(b, g);
    }
  }

  /** Clearing a free frame after setting its bit allocates it: the bitmap itself lies in taken
      frames, so the zero-fill cannot reach it. */
  lemma FlipThenClear(a: Alloc, b: Alloc, c: Alloc, i: nat)
    requires AllocOk(a) && a.bitmapSet && i < a.nframes && !Used(a, i) && Flipped(a, b, i)
    requires SameLayout(b, c) && FrameAt(a.regions, i) < |c.ram|
    requires Zeroed(c.ram[FrameAt(a.regions, i)])
    requires forall g: nat | g < |b.ram| && g != FrameAt(a.regions, i) :: c.ram[g] == b.ram[g]
    ensures GotFrame(a, c, FrameAt(a.regions, i))
  {
    var f := FrameAt(a.regions, i);
    UnusedNotTaken(a, i);
    assert BitFlipped(a, c, i) by {
      hide Bit, BitmapWord;
      SameBitmap(b, c);
    }
    assert SameBitsBut(a, c, IndexOf(a.regions, f)) by {
      IndexOfFrameAt(a.regions, |a.ram|, i);
    }
    hide BitFlipped, SameBitsBut, Taken, BitmapFrame, Used;
    forall g: nat ensures Taken(c, g) <==> (g == f || Taken(a, g)) {
      FlipTakes(a, c, i, g);
    }
    TakenThenGot(a, c, f);
  }

  lemma UnusedNotTaken(a: Alloc, i: nat)
    requires AllocOk(a) && a.bitmapSet && i < a.nframes && !Used(a, i)
    ensures !Taken(a, FrameAt(a.regions, i)) && !BitmapFrame(a, FrameAt(a.regions, i))
  {
    hide Bit, BitmapWord;
    IndexOfFrameAt(a.regions, |a.ram|, i);
  }

  /** The invariant speaks of the bitmap's frames only through what is taken. */
  lemma MoreTakenOk(a: Alloc, c: Alloc)
    requires AllocOk(a) && a.bitmapSet && SameLayout(a, c)
    requires forall g: nat | Taken(a, g) :: Taken(c, g)
    ensures AllocOk(c)
  {
    hide Taken;
  }

  lemma TakenSetGrows(a: Alloc, c: Alloc, f: nat)
    requires AllocOk(a) && AllocOk(c) && |a.ram| == |c.ram| && f < |a.ram|
    requires forall g: nat :: Taken(c, g) <==> (g == f || Taken(a, g))
    ensures TakenSet(c) == TakenSet(a) + {f}
  {
    hide Taken, AllocOk;
  }

  lemma TakenInRam(a: Alloc, f: nat)
    requires AllocOk(a) && Taken(a, f)
    ensures Managed(a.regions, f) && f < |a.ram|
  {
    ManagedBelow(a.regions, |a.ram|, f);
  }

  lemma TakenThenGot(a: Alloc, c: Alloc, f: nat)
    requires AllocOk(a) && SameLayout(a, c) && (a.bitmapSet || AllocOk(c))
    requires !Taken(a, f)
    requires forall g: nat :: Taken(c, g) <==> (g == f || Taken(a, g))
    requires a.bitmapSet ==> SameBitsBut(a, c, IndexOf(a.regions, f))
    requires f < |c.ram| && Zeroed(c.ram[f])
    requires forall g: nat | g < |a.ram| && g != f && !BitmapFrame(a, g) :: c.ram[g] == a.ram[g]
    ensures GotFrame(a, c, f)
  {
    hide Taken, Managed, BitmapFrame, SameBitsBut, TakenSet;
    if a.bitmapSet {
      MoreTakenOk(a, c);
    }
    TakenInRam(c, f);
    hide AllocOk;
    TakenSetGrows(a, c, f);
  }

  /** Toggling a clear bit takes its frame, as a second free of the same frame does. */
  lemma FlipMarks(a: Alloc, b: Alloc, i: nat)
    requires AllocOk(a) && a.bitmapSet && i < a.nframes && !Used(a, i) && Flipped(a, b, i)
    ensures AllocOk(b) && TakenSet(b) == TakenSet(a) + {FrameAt(a.regions, i)}
  {
    var f := FrameAt(a.regions, i);
    UnusedNotTaken(a, i);
    IndexOfFrameAt(a.regions, |a.ram|, i);
    ManagedBelow(a.regions, |a.ram|, f);
    hide BitFlipped, Taken, Used, Managed;
    forall g: nat ensures Taken(b, g) <==> (g == f || Taken(a, g)) {
      FlipTakes(a, b, i, g);
    }
    MoreTakenOk(a, b);
    TakenSetGrows(a, b, f);
  }

  /** Toggling the bit of a frame of the bitmap itself leaves that frame up for grabs. */
  lemma FlipBreaks(a: Alloc, b: Alloc, i: nat)
    requires AllocOk(a) && a.bitmapSet && i < a.nframes && Flipped(a, b, i)
    requires BitmapFrame(a, FrameAt(a.regions, i))
    ensures !AllocOk(b)
  {
    FlipTakes(a, b, i, FrameAt(a.regions, i));
    assert BitmapFrame(b, FrameAt(a.regions, i));
  }

  lemma FlipReleases(a: Alloc, b: Alloc, i: nat)
    requires AllocOk(a) && a.bitmapSet && i < a.nframes && Used(a, i) && Flipped(a, b, i)
    requires !BitmapFrame(a, FrameAt(a.regions, i))
    ensures Released(a, b, FrameAt(a.regions, i))
  {
    var f := FrameAt(a.regions, i);
    IndexOfFrameAt(a.regions, |a.ram|, i);
    ManagedBelow(a.regions, |a.ram|, f);
    forall g: nat ensures Taken(b, g) <==> (g != f && Taken(a, g)) {
      FlipTakes(a, b, i, g);
    }
  }

  // ---------------------------------------------------------------- the bump allocator

  /** Moving from an exhausted region to the next one changes nothing that is taken. */
  lemma BumpAdvance(rs: seq<Region>, size: nat, i: nat, c: nat, g: nat)
    requires RegionsOk(rs, size) && i < |rs| && c == Count(rs[i]) - 1
    ensures BumpTaken(rs, i, c, g) <==> BumpTaken(rs, i + 1, 0, g)
  {
    if j :| 0 <= j < |rs| && AmongFirst(rs[j], BumpCount(rs, i, c, j), g) {
      assert AmongFirst(rs[j], BumpCount(rs, i + 1, 0, j), g);
    }
    if j :| 0 <= j < |rs| && AmongFirst(rs[j], BumpCount(rs, i + 1, 0, j), g) {
      assert AmongFirst(rs[j], BumpCount(rs, i, c, j), g);
    }
  }

  /** Counting one more frame of region i takes exactly the next frame of it, which was free. */
  lemma BumpTakesNext(rs: seq<Region>, size: nat, i: nat, c: nat, g: nat)
    requires RegionsOk(rs, size) && i < |rs| && c < Count(rs[i]) - 1
    ensures BumpTaken(rs, i, c + 1, g) <==> BumpTaken(rs, i, c, g) || g == First(rs[i]) + c
    ensures !BumpTaken(rs, i, c, First(rs[i]) + c)
    ensures InRegion(rs[i], First(rs[i]) + c)
  {
    var f := First(rs[i]) + c;
    assert AmongFirst(rs[i], BumpCount(rs, i, c + 1, i), f);
    if j :| 0 <= j < |rs| && AmongFirst(rs[j], BumpCount(rs, i, c + 1, j), g) {
      assert AmongFirst(rs[j], BumpCount(rs, i, c, j), g) || g == f;
    }
    if j :| 0 <= j < |rs| && AmongFirst(rs[j], BumpCount(rs, i, c, j), g) {
      assert AmongFirst(rs[j], BumpCount(rs, i, c + 1, j), g);
    }
    if j :| 0 <= j < |rs| && AmongFirst(rs[j], BumpCount(rs, i, c, j), f) {
      DisjointFrames(rs, size, i, j, f);
    }
  }

  lemma {:induction false} BumpBeforeGrows(rs: seq<Region>, size: nat, k: nat, m: nat)
    requires RegionsOk(rs, size) && k <= m <= |rs|
    ensures BumpBefore(rs, k) <= BumpBefore(rs, m)
  {
    if k < m {
      assert RegionOk(rs[m - 1], size);
      BumpBeforeGrows(rs, size, k, m - 1);
    }
  }

  /** `init_pmm` marks the indices below `total`.  That is the set of frames the bump allocator
      handed out exactly when it never left the first region. */
  lemma MarksMatchBump(a: Alloc)
    requires AllocOk(a) && !a.bitmapSet && a.regions != []
    ensures (forall f: nat | Managed(a.regions, f) ::
               IndexOf(a.regions, f) < a.total <==> BumpTaken(a.regions, a.prev, a.count, f))
       <==> a.total <= Count(a.regions[0]) - 1
  {
    var rs, size := a.regions, |a.ram|;
    var r, last := rs[0], First(rs[0]) + Count(rs[0]) - 1;
    assert RegionOk(r, size);
    if a.total <= Count(r) - 1 {
      if a.prev > 0 {
        BumpBeforeGrows(rs, size, 1, a.prev);
        assert false;
      }
      forall f: nat | Managed(rs, f)
        ensures IndexOf(rs, f) < a.total <==> BumpTaken(rs, a.prev, a.count, f)
      {
        if f < First(r) + a.total && InRegion(r, f) {
          assert AmongFirst(rs[0], BumpCount(rs, a.prev, a.count, 0), f);
        }
      }
    } else {
      assert InRegion(rs[0], last) && Managed(rs, last);
      assert IndexOf(rs, last) < a.total;
      if j :| 0 <= j < |rs| && AmongFirst(rs[j], BumpCount(rs, a.prev, a.count, j), last) {
        DisjointFrames(rs, size, 0, j, last);
        assert false;
      }
    }
  }

  // ---------------------------------------------------------------- from bump to bitmap

  /** The switch: the representation changes, the taken frames do not, and only the frames that
      now hold the bitmap are written. */
  ghost predicate Switched(a: Alloc, b: Alloc) {
    && AllocOk(a) && AllocOk(b) && !a.bitmapSet && b.bitmapSet
    && a.regions == b.regions && a.nframes == b.nframes && |a.ram| == |b.ram|
    && TakenSet(a) == TakenSet(b)
    && (forall g: nat | g < |a.ram| && !BitmapFrame(b, g) :: b.ram[g] == a.ram[g])
  }

  lemma MarkedThenSwitched(a: Alloc, b: Alloc)
    requires AllocOk(a) && !a.bitmapSet && a.regions != [] && a.total <= Count(a.regions[0]) - 1
    requires b.bitmapSet && a.regions == b.regions && a.nframes == b.nframes && |a.ram| == |b.ram|
    requires BitmapInRam(b)
    requires forall f: nat | BitmapFrame(b, f) :: Taken(a, f)
    requires forall j: nat | j < 64 * (b.nframes / 64 + 1) :: Used(b, j) <==> j < a.total
    requires forall g: nat | g < |a.ram| && !BitmapFrame(b, g) :: b.ram[g] == a.ram[g]
    ensures Switched(a, b)
  {
    MarksMatchBump(a);
    forall f: nat ensures Taken(b, f) <==> Taken(a, f) {
      if Managed(a.regions, f) {
        FrameAtIndexOf(a.regions, f);
      }
    }
    hide Taken;
    assert AllocOk(b);
  }

  /** Getting a frame and freeing it restores every word of the bitmap. */
  lemma GetThenFreeRestores(a: Alloc, b: Alloc, c: Alloc, f: nat)
    requires a.bitmapSet && GotFrame(a, b, f) && Released(b, c, f)
    ensures TakenSet(c) == TakenSet(a)
    ensures forall w: nat | w <= a.nframes / 64 :: BitmapWord(c, w) == BitmapWord(a, w)
  {
    assert f !in TakenSet(a) && BitmapInRam(a) && BitmapInRam(c);
    hide AllocOk, TakenSet, BitmapWord, Taken;
    assert TakenSet(c) == TakenSet(a);
    SameUsed(a, b, c, f);
    forall w: nat | w <= a.nframes / 64 ensures BitmapWord(c, w) == BitmapWord(a, w) {
      SameWord(a, c, w);
    }
  }

  lemma SameUsed(a: Alloc, b: Alloc, c: Alloc, f: nat)
    requires a.bitmapSet && GotFrame(a, b, f) && Released(b, c, f)
    ensures forall j: nat | j < 64 * (a.nframes / 64 + 1) :: Used(c, j) == Used(a, j)
  {
    hide Used, BitmapWord;
    FrameAtIndexOf(a.regions, f);
    assert Taken(a, f) == Used(a, IndexOf(a.regions, f)) && Taken(c, f) == Used(c, IndexOf(a.regions, f));
    hide Taken;
    ManagedBelow(a.regions, |a.ram|, f);
    assert Taken(c, f) <==> f in TakenSet(c);
  }

  /** A word of the bitmap is what its bits are. */
  lemma SameWord(a: Alloc, c: Alloc, w: nat)
    requires BitmapInRam(a) && BitmapInRam(c) && a.nframes == c.nframes && w <= a.nframes / 64
    requires forall j: nat | j < 64 * (a.nframes / 64 + 1) :: Used(c, j) == Used(a, j)
    ensures BitmapWord(c, w) == BitmapWord(a, w)
  {
    hide BitmapWord;
    forall j: nat | j < 64 ensures Bit(BitmapWord(a, w), j) == Bit(BitmapWord(c, w), j) {
      assert Used(a, 64 * w + j) == Used(c, 64 * w + j) && (64 * w + j) / 64 == w && (64 * w + j) % 64 == j;
    }
    Pow2Values();
    BitsDetermine(BitmapWord(a, w), BitmapWord(c, w), 64);
  }
}
