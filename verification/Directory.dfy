/** A new page directory: a copy of the bootloader's root table, except that slot 0 is empty and
    slot 50 points back at the copy. */
module Directory {
  import opened Bits
  import opened Memory
  import opened Paging
  import opened AddressSpace
  import opened NewEntry

  /** `new_pdp | 3 | 4`. */
  function SelfEntry(address: Word): nat {
    Or(Or(address, 3), 4)
  }

  lemma SelfEntryFields(frame: nat)
    requires frame < FRAME_LIMIT
    ensures var e := SelfEntry(frame * PAGE_SIZE);
      0 < e < WORD_LIMIT && Present(e) && !Large(e) && FrameOf(e) == frame && e % PAGE_SIZE == 7
  {
    SelfEntrySum(frame);
    EntryFields(frame, 7);
    LowPart(frame, 7);
    hide SelfEntry, Present, Large, FrameOf;
    EntryMeans(SelfEntry(frame * PAGE_SIZE), frame);
  }

  lemma SelfEntrySum(frame: nat)
    requires frame < FRAME_LIMIT
    ensures SelfEntry(frame * PAGE_SIZE) == frame * PAGE_SIZE + 7
  {
    hide Or;
    OrFlags(frame, 3);
    OrFour(frame * 0x200);
  }

  lemma OrFour(x: nat)
    ensures Or(8 * x + 3, 4) == 8 * x + 7
  {
    hide Or;
    OrOne(2 * x);
    OrDouble(2 * x, 1);
    OrDouble(4 * x + 1, 2);
  }

  lemma OrDouble(a: nat, b: nat)
    ensures Or(2 * a + 1, 2 * b) == 2 * Or(a, b) + 1
  {
    assert (2 * a + 1) / 2 == a && (2 * b) / 2 == b;
  }

  /** From s to n the directory r came into being, on a frame that was free. */
  ghost predicate Created(s: Vm, n: Vm, r: nat)
    requires s.env.bootRoot < |s.ram|
  {
    && n.env == s.env && |n.ram| == |s.ram| && r < |s.ram|
    && r in s.env.managed && r !in s.taken && r !in s.env.bitmap
    && n.taken == s.taken + {r}
    && n.tree == s.tree[r := Node(r, 4, Page(0, 0, 0, 0))]
    && SelfReferencing(n.ram, r) && n.ram[r][RECURSIVE_SLOT] % PAGE_SIZE == 7 && n.ram[r][0] == 0
    && (forall k | 0 < k < ENTRIES && k != RECURSIVE_SLOT :: n.ram[r][k] == s.ram[s.env.bootRoot][k])
    && (forall g: nat | g < |s.ram| && g != r && g !in s.env.bitmap :: n.ram[g] == s.ram[g])
  }

  lemma CreatedFrames(s: Vm, n: Vm, r: nat)
    requires VmOk(s) && Created(s, n, r)
    ensures r !in s.tree && r != s.env.bootRoot
    ensures forall g | g in s.tree :: n.ram[g] == s.ram[g]
    ensures forall g | g in s.env.boot :: n.ram[g] == s.ram[g]
    ensures n.ram[s.env.bootRoot] == s.ram[s.env.bootRoot]
    ensures forall i: nat :: Shared(n, i) == Shared(s, i)
  {
    assert forall g | g in s.tree :: NodeOk(s, g);
  }

  lemma CreatedNodes(s: Vm, n: Vm, r: nat)
    requires VmOk(s) && Created(s, n, r)
    ensures EnvOk(n) && NodesOk(n)
  {
    CreatedFrames(s, n, r);
    assert EnvOk(n) by {
      forall f | f in n.env.boot ensures BootEntriesOk(n, f) {
        assert BootEntriesOk(s, f);
      }
    }
    forall g | g in n.tree ensures NodeOk(n, g) {
      if g != r {
        assert NodeOk(s, g);
      }
    }
  }

  lemma {:induction false} CreatedTableAt(s: Vm, n: Vm, r: nat, q: nat, v: Page, level: nat)
    requires VmOk(s) && Created(s, n, r) && IsRoot(s, q) && IsPage(v) && Private(s, v.l4) && 1 <= level <= 4
    ensures TableAt(n.ram, q, v, level) == TableAt(s.ram, q, v, level)
    decreases 4 - level
  {
    if level < 4 {
      CreatedTableAt(s, n, r, q, v, level + 1);
      if TableAt(s.ram, q, v, level + 1) >= 0 {
        TableAtIsNode(s, q, v, level + 1);
        CreatedFrames(s, n, r);
      }
    }
  }

  lemma CreatedOk(s: Vm, n: Vm, r: nat)
    requires VmOk(s) && Created(s, n, r)
    ensures VmOk(n)
  {
    CreatedFrames(s, n, r);
    CreatedNodes(s, n, r);
    forall g, k | IsTable(n, g) && 0 <= k < ENTRIES ensures EntryOk(n, g, k) {
      if g != r {
        assert NodeOk(s, g) && EntryOk(s, g, k);
      }
    }
    forall g | g in n.tree ensures Anchored(n, g) {
      if g != r && s.tree[g].level >= 1 {
        assert NodeOk(s, g) && Anchored(s, g);
        if s.tree[g].level < 4 {
          CreatedTableAt(s, n, r, s.tree[g].root, s.tree[g].at, s.tree[g].level);
        }
      }
    }
  }

  /** A new directory translates exactly what it shares with the bootloader's. */
  lemma CreatedTranslates(s: Vm, n: Vm, r: nat, v: Page)
    requires VmOk(s) && Created(s, n, r) && IsPage(v) && v.l4 != RECURSIVE_SLOT
    ensures Translate(n.ram, r, v) == if Shared(s, v.l4) then Translate(s.ram, s.env.bootRoot, v) else Fault
  {
    CreatedFrames(s, n, r);
    if Shared(s, v.l4) {
      var e := s.ram[s.env.bootRoot][v.l4];
      assert BootLink(s, e, 3);
      if Present(e) && !Large(e) {
        BootWalkSame(s, n, FrameOf(e), 3, v);
      }
    }
  }

  /** Creating a directory leaves every translation of the others alone. */
  lemma CreationIsolated(s: Vm, n: Vm, r: nat, other: nat, v: Page)
    requires VmOk(s) && Created(s, n, r) && IsRoot(s, other) && IsPage(v)
    ensures other != r && IsRoot(n, other) && Translate(n.ram, other, v) == Translate(s.ram, other, v)
  {
    CreatedFrames(s, n, r);
    forall g: nat | IsTable(s, g) && s.tree[g].root == other ensures g < |n.ram| && n.ram[g] == s.ram[g] {
      assert NodeOk(s, g);
    }
    UntouchedDirectory(s, n.ram, other, v);
  }
}
