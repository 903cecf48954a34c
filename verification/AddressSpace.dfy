/** Page directories as trees of frames: who owns each table and each mapped frame, and what one
    new entry does to the translations of every directory. */
module AddressSpace {
  import opened Bits
  import opened Memory
  import opened Paging

  /** The role of a frame: the table of some level (4 is a root, 0 a mapped data frame) of the
      directory `root`, reached by the indices of `at` above that level. */
  datatype Node = Node(root: nat, level: nat, at: Page)

  /** What does not change while page tables do: the frames the allocator manages, the bitmap,
      the bootloader's root table, and the bootloader's other tables with their levels. */
  datatype Env = Env(managed: set<nat>, bitmap: set<nat>, bootRoot: nat, boot: map<nat, nat>)

  datatype Vm = Vm(ram: Ram, taken: set<nat>, tree: map<nat, Node>, env: Env)

  /** The indices of v above a level. */
  function Prefix(v: Page, level: nat): Page {
    Page(if level < 4 then v.l4 else 0, if level < 3 then v.l3 else 0,
         if level < 2 then v.l2 else 0, if level < 1 then v.l1 else 0)
  }

  /** v with index k at a level. */
  function Down(v: Page, level: nat, k: nat): Page
    requires 1 <= level <= 4
  {
    if level == 4 then v.(l4 := k) else if level == 3 then v.(l3 := k)
    else if level == 2 then v.(l2 := k) else v.(l1 := k)
  }

  /** L4 slots every directory shares with the bootloader's table. */
  predicate Shared(s: Vm, k: nat)
    requires s.env.bootRoot < |s.ram|
  {
    k < ENTRIES && k != 0 && k != RECURSIVE_SLOT && s.ram[s.env.bootRoot][k] != 0
  }

  /** L4 slots in which a directory has tables of its own: slot 0, and those empty at boot. */
  predicate Private(s: Vm, k: nat)
    requires s.env.bootRoot < |s.ram|
  {
    k < ENTRIES && k != RECURSIVE_SLOT && !Shared(s, k)
  }

  // ---------------------------------------------------------------- the invariant

  /** An entry leads to a bootloader table of a level, to a leaf, or out of memory. */
  ghost predicate BootLink(s: Vm, e: Word, level: nat) {
    Present(e) && !Large(e) ==>
      FrameOf(e) >= |s.ram| || (FrameOf(e) in s.env.boot && s.env.boot[FrameOf(e)] == level)
  }

  ghost predicate BootEntriesOk(s: Vm, f: nat)
    requires f < |s.ram| && f in s.env.boot
  {
    s.env.boot[f] > 1 ==> forall k | 0 <= k < ENTRIES :: BootLink(s, s.ram[f][k], s.env.boot[f] - 1)
  }

  /** The bootloader's tables are closed under their links and lie outside the usable regions. */
  ghost predicate EnvOk(s: Vm) {
    && |s.ram| <= WINDOW_SIZE / PAGE_SIZE
    && (forall f | f in s.env.managed :: f < |s.ram|)
    && s.env.bitmap <= s.taken <= s.env.managed
    && s.env.bootRoot < |s.ram| && s.env.bootRoot !in s.env.managed
    && (forall f | f in s.env.boot :: f < |s.ram| && f !in s.env.managed && 1 <= s.env.boot[f] <= 3)
    && (forall f | f in s.env.boot :: BootEntriesOk(s, f))
    && (forall k | 0 <= k < ENTRIES && Shared(s, k) :: BootLink(s, s.ram[s.env.bootRoot][k], 3))
  }

  /** Table t. */
  predicate IsTable(s: Vm, t: nat) {
    t in s.tree && s.tree[t].level >= 1
  }

  predicate IsRoot(s: Vm, r: nat) {
    r in s.tree && s.tree[r] == Node(r, 4, Page(0, 0, 0, 0))
  }

  ghost predicate NodeOk(s: Vm, t: nat)
    requires t in s.tree && s.env.bootRoot < |s.ram|
  {
    var n := s.tree[t];
    && t < |s.ram| && t in s.taken && t !in s.env.bitmap
    && n.level <= 4 && IsPage(n.at) && n.at == Prefix(n.at, n.level)
    && IsRoot(s, n.root)
    && (n.level == 4 ==> t == n.root)
    && (n.level < 4 ==> Private(s, n.at.l4))
  }

  /** Entry k of table t. */
  ghost predicate EntryOk(s: Vm, t: nat, k: nat)
    requires IsTable(s, t) && s.tree[t].level <= 4 && t < |s.ram| && k < ENTRIES && s.env.bootRoot < |s.ram|
  {
    var n := s.tree[t];
    var e := s.ram[t][k];
    if n.level == 4 && k == RECURSIVE_SLOT then
      Present(e) && !Large(e) && FrameOf(e) == t
    else if n.level == 4 && Shared(s, k) then
      e == s.ram[s.env.bootRoot][k]
    else if e == 0 then
      true
    else if n.level == 1 then
      && Present(e) && Clean(e)
      && (HasNode(s, FrameOf(e), Node(n.root, 0, Down(n.at, 1, k))) || FrameOf(e) !in s.env.managed)
    else
      Present(e) && !Large(e) && HasNode(s, FrameOf(e), Node(n.root, n.level - 1, Down(n.at, n.level, k)))
  }

  predicate HasNode(s: Vm, f: nat, n: Node) {
    f in s.tree && s.tree[f] == n
  }

  /** Every table is where the walk for its position finds it. */
  ghost predicate Anchored(s: Vm, t: nat)
    requires t in s.tree && s.tree[t].level <= 4 && IsPage(s.tree[t].at)
  {
    s.tree[t].level >= 1 ==> TableAt(s.ram, s.tree[t].root, s.tree[t].at, s.tree[t].level) == t
  }

  ghost predicate NodesOk(s: Vm)
    requires s.env.bootRoot < |s.ram|
  {
    forall t | t in s.tree :: NodeOk(s, t)
  }

  ghost predicate EntriesOk(s: Vm)
    requires s.env.bootRoot < |s.ram| && NodesOk(s)
  {
    forall t, k | IsTable(s, t) && 0 <= k < ENTRIES :: EntryOk(s, t, k)
  }

  ghost predicate AllAnchored(s: Vm)
    requires s.env.bootRoot < |s.ram| && NodesOk(s)
  {
    forall t | t in s.tree :: Anchored(s, t)
  }

  ghost predicate VmOk(s: Vm) {
    EnvOk(s) && NodesOk(s) && EntriesOk(s) && AllAnchored(s)
  }

  // ---------------------------------------------------------------- walking one's own tables

  lemma DownPrefix(v: Page, level: nat)
    requires 1 <= level <= 4
    ensures Down(Prefix(v, level), level, Index(v, level)) == Prefix(v, level - 1)
    ensures Prefix(v, 0) == v
  {
  }

  /** Below a private slot a walk only meets the directory's own tables, each at its place. */
  lemma {:induction false} TableAtIsNode(s: Vm, r: nat, v: Page, level: nat)
    requires VmOk(s) && IsRoot(s, r) && IsPage(v) && Private(s, v.l4)
    requires 1 <= level <= 4 && TableAt(s.ram, r, v, level) >= 0
    ensures HasNode(s, TableAt(s.ram, r, v, level), Node(r, level, Prefix(v, level)))
    decreases 4 - level
  {
    if level < 4 {
      hide AllAnchored, EnvOk;
      TableAtIsNode(s, r, v, level + 1);
      var t := TableAt(s.ram, r, v, level + 1);
      DownPrefix(v, level + 1);
      assert NodeOk(s, t);
      assert EntryOk(s, t, Index(v, level + 1));
    }
  }

  /** The table a walk reads depends on the indices above it only. */
  lemma {:induction false} TableAtPrefix(ram: Ram, r: nat, v: Page, w: Page, level: nat)
    requires IsPage(v) && IsPage(w) && 1 <= level <= 4 && Prefix(v, level) == Prefix(w, level)
    ensures TableAt(ram, r, v, level) == TableAt(ram, r, w, level)
    decreases 4 - level
  {
    if level < 4 {
      TableAtPrefix(ram, r, v, w, level + 1);
    }
  }

  /** A table is found by every page that lies below it. */
  lemma TableAtNode(s: Vm, t: nat, v: Page)
    requires VmOk(s) && IsTable(s, t) && IsPage(v) && s.tree[t].at == Prefix(v, s.tree[t].level)
    ensures 1 <= s.tree[t].level <= 4 && TableAt(s.ram, s.tree[t].root, v, s.tree[t].level) == t
  {
    assert NodeOk(s, t) && Anchored(s, t);
    TableAtPrefix(s.ram, s.tree[t].root, v, s.tree[t].at, s.tree[t].level);
  }

  /** No two tables have the same role. */
  lemma TableUnique(s: Vm, t: nat, u: nat)
    requires VmOk(s) && IsTable(s, t) && IsTable(s, u) && s.tree[t] == s.tree[u]
    ensures t == u
  {
    assert NodeOk(s, t) && Anchored(s, t) && Anchored(s, u);
  }

  // ---------------------------------------------------------------- changes that spare the tables

  /** More frames may be taken and data frames may differ, but no table does. */
  ghost predicate SameTables(s: Vm, n: Vm)
    requires s.env.bootRoot < |s.ram|
  {
    && n.env == s.env && n.tree == s.tree && |n.ram| == |s.ram|
    && s.taken <= n.taken <= s.env.managed
    && (forall t: nat | IsTable(s, t) && t < |s.ram| :: n.ram[t] == s.ram[t])
    && (forall f | f in s.env.boot && f < |s.ram| :: n.ram[f] == s.ram[f])
    && n.ram[s.env.bootRoot] == s.ram[s.env.bootRoot]
  }

  lemma {:induction false} SameTableAt(s: Vm, n: Vm, r: nat, v: Page, level: nat)
    requires VmOk(s) && SameTables(s, n) && IsRoot(s, r) && IsPage(v) && Private(s, v.l4)
    requires 1 <= level <= 4
    ensures TableAt(n.ram, r, v, level) == TableAt(s.ram, r, v, level)
    decreases 4 - level
  {
    if level < 4 {
      SameTableAt(s, n, r, v, level + 1);
      if TableAt(s.ram, r, v, level + 1) >= 0 {
        TableAtIsNode(s, r, v, level + 1);
      }
    }
  }

  lemma SameTablesOk(s: Vm, n: Vm)
    requires VmOk(s) && SameTables(s, n)
    ensures VmOk(n)
  {
    assert EnvOk(n) by {
      forall f | f in n.env.boot ensures BootEntriesOk(n, f) {
        assert BootEntriesOk(s, f);
      }
    }
    forall t | t in n.tree ensures NodeOk(n, t) {
      assert NodeOk(s, t);
    }
    forall t, k | IsTable(n, t) && 0 <= k < ENTRIES ensures EntryOk(n, t, k) {
      assert NodeOk(s, t) && EntryOk(s, t, k);
    }
    forall t | t in n.tree ensures Anchored(n, t) {
      assert NodeOk(s, t) && Anchored(s, t);
      if 1 <= s.tree[t].level < 4 {
        SameTableAt(s, n, s.tree[t].root, s.tree[t].at, s.tree[t].level);
      }
    }
  }
}
