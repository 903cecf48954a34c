/** The other step on page tables: one lowest-level entry is overwritten, by a leaf for memory the
    allocator does not manage, or by zero with its data frame given back. */
module LeafEntry {
  import opened Bits
  import opened Paging
  import opened AddressSpace
  import opened NewEntry

  /** From s to n only entry k of the lowest-level table t changed, and of the data frames only the
      one of its page may have been given back. */
  ghost predicate LeafChanged(s: Vm, n: Vm, t: nat, k: nat)
    requires VmOk(s)
  {
    && IsTable(s, t) && s.tree[t].level == 1 && t < |s.ram| && k < ENTRIES
    && n.env == s.env && |n.ram| == |s.ram|
    && s.env.bitmap <= n.taken <= s.taken
    && n.tree.Keys <= n.taken
    && (forall g | g in n.tree :: g in s.tree && n.tree[g] == s.tree[g])
    && (forall g | g in s.tree && g !in n.tree :: s.tree[g] == Child(s, t, k))
    && (forall g: nat | IsTable(s, g) && g < |s.ram| && g != t :: n.ram[g] == s.ram[g])
    && (forall j | 0 <= j < ENTRIES && j != k :: n.ram[t][j] == s.ram[t][j])
    && (forall g | g in s.env.boot && g < |s.ram| :: n.ram[g] == s.ram[g])
    && s.env.bootRoot < |s.ram| && n.ram[s.env.bootRoot] == s.ram[s.env.bootRoot]
    && LeafFits(s, n, n.ram[t][k], t, k)
  }

  predicate LeafFits(s: Vm, n: Vm, e: Word, t: nat, k: nat)
    requires IsTable(s, t) && s.tree[t].level == 1
  {
    e == 0 || (Present(e) && Clean(e) && (HasNode(n, FrameOf(e), Child(s, t, k)) || FrameOf(e) !in s.env.managed))
  }

  lemma LeafNodes(s: Vm, n: Vm, t: nat, k: nat)
    requires VmOk(s) && LeafChanged(s, n, t, k)
    ensures EnvOk(n) && NodesOk(n)
    ensures forall i: nat :: Shared(n, i) == Shared(s, i)
    ensures forall g: nat :: IsTable(n, g) <==> IsTable(s, g)
  {
    assert EnvOk(n) by {
      forall f | f in n.env.boot ensures BootEntriesOk(n, f) {
        assert BootEntriesOk(s, f);
      }
    }
    forall g | g in n.tree ensures NodeOk(n, g) {
      assert NodeOk(s, g);
    }
  }

  /** No two entries lead to places of the same name. */
  lemma OneParent(s: Vm, t: nat, k: nat, g: nat, j: nat)
    requires VmOk(s) && IsTable(s, t) && IsTable(s, g) && k < ENTRIES && j < ENTRIES
    requires Child(s, t, k) == Child(s, g, j)
    ensures g == t && j == k
  {
    assert NodeOk(s, t) && NodeOk(s, g);
    assert s.tree[g] == s.tree[t];
    TableUnique(s, g, t);
  }

  lemma LeafEntries(s: Vm, n: Vm, t: nat, k: nat, g: nat, j: nat)
    requires VmOk(s) && LeafChanged(s, n, t, k) && EnvOk(n) && NodesOk(n)
    requires forall i: nat :: Shared(n, i) == Shared(s, i)
    requires IsTable(s, g) && IsTable(n, g) && j < ENTRIES
    ensures s.tree[g].level <= 4 && g < |s.ram| && EntryOk(n, g, j)
  {
    assert NodeOk(s, g) && EntryOk(s, g, j);
    var e := s.ram[g][j];
    if g == t && j == k {
    } else if s.tree[g].level == 1 && e != 0 && FrameOf(e) in s.tree && FrameOf(e) !in n.tree {
      assert s.tree[FrameOf(e)] == Child(s, t, k);
      if s.tree[FrameOf(e)] == Child(s, g, j) {
        OneParent(s, t, k, g, j);
      }
    }
  }

  lemma {:induction false} LeafTableAt(s: Vm, n: Vm, t: nat, k: nat, r: nat, v: Page, level: nat)
    requires VmOk(s) && LeafChanged(s, n, t, k)
    requires IsRoot(s, r) && IsPage(v) && Private(s, v.l4) && 1 <= level <= 4
    ensures TableAt(n.ram, r, v, level) == TableAt(s.ram, r, v, level)
    decreases 4 - level
  {
    if level < 4 {
      LeafTableAt(s, n, t, k, r, v, level + 1);
      if TableAt(s.ram, r, v, level + 1) >= 0 {
        TableAtIsNode(s, r, v, level + 1);
      }
    }
  }

  lemma LeafChangedOk(s: Vm, n: Vm, t: nat, k: nat)
    requires VmOk(s) && LeafChanged(s, n, t, k)
    ensures VmOk(n)
  {
    LeafNodes(s, n, t, k);
    forall g, j | IsTable(n, g) && 0 <= j < ENTRIES ensures EntryOk(n, g, j) {
      LeafEntries(s, n, t, k, g, j);
    }
    forall g | g in n.tree ensures Anchored(n, g) {
      assert NodeOk(s, g) && Anchored(s, g);
      if 1 <= s.tree[g].level < 4 {
        LeafTableAt(s, n, t, k, s.tree[g].root, s.tree[g].at, s.tree[g].level);
      }
    }
  }

  lemma {:induction false} LeafWalkBelow(s: Vm, n: Vm, t: nat, k: nat, r: nat, x: nat, level: nat, v: Page)
    requires VmOk(s) && LeafChanged(s, n, t, k) && !Maps(s, t, k, r, v)
    requires IsPage(v) && 1 <= level <= 4 && HasNode(s, x, Node(r, level, Prefix(v, level))) && Private(s, v.l4)
    ensures Walk(n.ram, x, level, v) == Walk(s.ram, x, level, v)
    decreases level
  {
    var i := Index(v, level);
    assert NodeOk(s, x) && EntryOk(s, x, i);
    var e := s.ram[x][i];
    if level > 1 && e != 0 {
      DownPrefix(v, level);
      LeafWalkBelow(s, n, t, k, r, FrameOf(e), level - 1, v);
    }
  }

  /** What an entry of the lowest level translates to. */
  function LeafOf(e: Word): Translation {
    if Present(e) then Mapped(FrameOf(e), 1) else Fault
  }

  /** Outside the window only the page of the entry changes its translation. */
  lemma LeafTranslate(s: Vm, n: Vm, t: nat, k: nat, r: nat, v: Page)
    requires VmOk(s) && LeafChanged(s, n, t, k)
    requires IsRoot(s, r) && IsPage(v) && v.l4 != RECURSIVE_SLOT
    ensures if Maps(s, t, k, r, v)
            then Translate(s.ram, r, v) == LeafOf(s.ram[t][k]) && Translate(n.ram, r, v) == LeafOf(n.ram[t][k])
            else Translate(n.ram, r, v) == Translate(s.ram, r, v)
  {
    assert NodeOk(s, r) && EntryOk(s, r, v.l4);
    if Maps(s, t, k, r, v) {
      assert NodeOk(s, t);
      TableAtNode(s, t, v);
      LeafTableAt(s, n, t, k, r, v, 1);
      WalkFromTable(s.ram, r, v, 1);
      WalkFromTable(n.ram, r, v, 1);
    } else if Shared(s, v.l4) {
      var e := s.ram[r][v.l4];
      assert BootLink(s, s.ram[s.env.bootRoot][v.l4], 3);
      if Present(e) && !Large(e) {
        BootWalkSame(s, n, FrameOf(e), 3, v);
      }
    } else {
      LeafWalkBelow(s, n, t, k, r, r, 4, v);
    }
  }
}
