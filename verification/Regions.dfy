/** The usable physical regions and the numbering of their frames: frame indices run through the
    regions in order.  `FrameAt` is what the subtracting loop of `get_frame` computes, `IndexOf`
    what the table lookup of `free_frame` computes. */
module Regions {
  import opened Bits
  import opened Memory

  datatype Region = Region(base: Word, length: Word)

  function First(r: Region): nat {
    r.base / PAGE_SIZE
  }

  function Count(r: Region): nat {
    r.length / PAGE_SIZE
  }

  predicate InRegion(r: Region, f: nat) {
    First(r) <= f < First(r) + Count(r)
  }

  ghost predicate Managed(rs: seq<Region>, f: nat) {
    exists i | 0 <= i < |rs| :: InRegion(rs[i], f)
  }

  /** Page-aligned, non-empty, inside memory, and strictly below the end of the direct window. */
  predicate RegionOk(r: Region, size: nat) {
    && r.base % PAGE_SIZE == 0 && r.length % PAGE_SIZE == 0 && r.length > 0
    && r.base + r.length < WINDOW_SIZE
    && r.base + r.length <= size * PAGE_SIZE
  }

  predicate Disjoint(r: Region, q: Region) {
    r.base + r.length <= q.base || q.base + q.length <= r.base
  }

  ghost predicate RegionsOk(rs: seq<Region>, size: nat) {
    && |rs| <= 19
    && (forall i | 0 <= i < |rs| :: RegionOk(rs[i], size))
    && (forall i, j | 0 <= i < j < |rs| :: Disjoint(rs[i], rs[j]))
  }

  /** The number of frames in the regions. */
  function Total(rs: seq<Region>): nat {
    if rs == [] then 0 else Count(rs[0]) + Total(rs[1..])
  }

  /** The frame with index i. */
  function FrameAt(rs: seq<Region>, i: nat): nat
    requires i < Total(rs)
  {
    if i < Count(rs[0]) then First(rs[0]) + i else FrameAt(rs[1..], i - Count(rs[0]))
  }

  /** The index of a managed frame (and the number of frames, for any other). */
  function IndexOf(rs: seq<Region>, f: nat): nat {
    if rs == [] then 0
    else if InRegion(rs[0], f) then f - First(rs[0])
    else Count(rs[0]) + IndexOf(rs[1..], f)
  }

  lemma ManagedCons(rs: seq<Region>, f: nat)
    requires rs != []
    ensures Managed(rs, f) <==> InRegion(rs[0], f) || Managed(rs[1..], f)
  {
    if i :| 0 <= i < |rs| && InRegion(rs[i], f) {
      if i > 0 {
        assert rs[1..][i - 1] == rs[i];
      }
    }
    if i :| 0 <= i < |rs[1..]| && InRegion(rs[1..][i], f) {
      assert rs[i + 1] == rs[1..][i];
    }
  }

  lemma DisjointFrames(rs: seq<Region>, size: nat, i: nat, j: nat, f: nat)
    requires RegionsOk(rs, size) && i < |rs| && j < |rs|
    requires InRegion(rs[i], f) && InRegion(rs[j], f)
    ensures i == j
  {
  }

  /** Decoding an index and encoding the frame again gives the index back. */
  lemma {:induction false} IndexOfFrameAt(rs: seq<Region>, size: nat, i: nat)
    requires RegionsOk(rs, size) && i < Total(rs)
    ensures Managed(rs, FrameAt(rs, i))
    ensures IndexOf(rs, FrameAt(rs, i)) == i
  {
    var f := FrameAt(rs, i);
    ManagedCons(rs, f);
    if i >= Count(rs[0]) {
      assert RegionsOk(rs[1..], size);
      IndexOfFrameAt(rs[1..], size, i - Count(rs[0]));
      if InRegion(rs[0], f) {
        var j :| 0 <= j < |rs[1..]| && InRegion(rs[1..][j], f);
        DisjointFrames(rs, size, 0, j + 1, f);
      }
    }
  }

  /** Encoding a managed frame and decoding the index again gives the frame back. */
  lemma {:induction false} FrameAtIndexOf(rs: seq<Region>, f: nat)
    requires Managed(rs, f)
    ensures IndexOf(rs, f) < Total(rs)
    ensures FrameAt(rs, IndexOf(rs, f)) == f
  {
    ManagedCons(rs, f);
    if !InRegion(rs[0], f) {
      FrameAtIndexOf(rs[1..], f);
    }
  }

  lemma {:induction false} ManagedBelow(rs: seq<Region>, size: nat, f: nat)
    requires RegionsOk(rs, size) && Managed(rs, f)
    ensures f < size && f < WINDOW_SIZE / PAGE_SIZE - 1
  {
    var i :| 0 <= i < |rs| && InRegion(rs[i], f);
    assert RegionOk(rs[i], size);
  }

  lemma {:induction false} TotalSplit(rs: seq<Region>, i: nat)
    requires i <= |rs|
    ensures Total(rs) == Total(rs[..i]) + Total(rs[i..])
  {
    if i == 0 {
      assert rs[..0] == [] && rs[0..] == rs;
    } else {
      assert rs[..i][1..] == rs[1..][..i - 1];
      assert rs[i..] == rs[1..][i - 1..];
      TotalSplit(rs[1..], i - 1);
    }
  }

  /** The index of a frame of region i counts the frames of the regions before it. */
  lemma {:induction false} IndexInRegion(rs: seq<Region>, size: nat, i: nat, f: nat)
    requires RegionsOk(rs, size) && i < |rs| && InRegion(rs[i], f)
    ensures IndexOf(rs, f) == Total(rs[..i]) + f - First(rs[i])
  {
    if i == 0 {
      assert rs[..0] == [];
    } else {
      if InRegion(rs[0], f) {
        DisjointFrames(rs, size, 0, i, f);
      }
      assert RegionsOk(rs[1..], size);
      assert rs[..i][1..] == rs[1..][..i - 1];
      IndexInRegion(rs[1..], size, i - 1, f);
    }
  }

  lemma {:induction false} TotalBound(rs: seq<Region>, size: nat)
    requires RegionsOk(rs, size)
    ensures Total(rs) <= |rs| * (WINDOW_SIZE / PAGE_SIZE)
  {
    if rs != [] {
      assert RegionOk(rs[0], size);
      assert RegionsOk(rs[1..], size);
      TotalBound(rs[1..], size);
    }
  }
}
