/** The one step that grows page tables: a freshly allocated, zero-filled frame is linked into an
    empty entry.  It keeps every invariant, and changes no translation except that of the one
    page it maps. */
module NewEntry {
  import opened Memory
  import opened Paging
  import opened AddressSpace

  /** From s to n, frame f was allocated and entry k of table t, empty before, now links it. */
  ghost predicate Linked(s: Vm, n: Vm, t: nat, k: nat, f: nat)
    requires VmOk(s)
  {
    && IsTable(s, t) && k < ENTRIES && t < |s.ram| && s.ram[t][k] == 0
    && (s.tree[t].level == 4 ==> Private(s, k))
    && f in s.env.managed && f !in s.taken && f < |n.ram|
    && n.env == s.env && |n.ram| == |s.ram|
    && n.taken == s.taken + {f}
    && n.tree == s.tree[f := Child(s, t, k)]
    && Zeroed(n.ram[f])
    && Present(n.ram[t][k]) && !Large(n.ram[t][k]) && Clean(n.ram[t][k]) && FrameOf(n.ram[t][k]) == f
    && (forall j | 0 <= j < ENTRIES && j != k :: n.ram[t][j] == s.ram[t][j])
    && (forall g: nat | g < |s.ram| && g != f && g != t && g !in s.env.bitmap :: n.ram[g] == s.ram[g])
  }

  /** The role of a frame linked from entry k of table t. */
  function Child(s: Vm, t: nat, k: nat): Node
    requires IsTable(s, t) && s.tree[t].level <= 4
  {
    Node(s.tree[t].root, s.tree[t].level - 1, Down(s.tree[t].at, s.tree[t].level, k))
  }

  /** After `if(*entry == 0) *entry = get_frame() | flags | 1`. */
  ghost predicate Ensured(s: Vm, n: Vm, t: nat, k: nat)
    requires VmOk(s) && IsTable(s, t) && k < ENTRIES && t < |s.ram|
  {
    if s.ram[t][k] != 0 then n == s else exists f: nat :: Linked(s, n, t, k, f)
  }

  lemma LinkedFrames(s: Vm, n: Vm, t: nat, k: nat, f: nat)
    requires VmOk(s) && Linked(s, n, t, k, f)
    ensures f !in s.tree && f != t && f !in s.env.bitmap && t !in s.env.bitmap
    ensures forall g | g in s.tree && g != t :: n.ram[g] == s.ram[g]
    ensures forall g | g in s.env.boot :: n.ram[g] == s.ram[g]
    ensures n.ram[s.env.bootRoot] == s.ram[s.env.bootRoot]
  {
    assert forall g | g in s.tree :: NodeOk(s, g);
  }

  lemma LinkedEnv(s: Vm, n: Vm, t: nat, k: nat, f: nat)
    requires VmOk(s) && Linked(s, n, t, k, f)
    ensures EnvOk(n)
    ensures forall i: nat :: Shared(n, i) == Shared(s, i)
  {
    LinkedFrames(s, n, t, k, f);
    hide NodesOk, EntriesOk, AllAnchored;
    forall g | g in n.env.boot ensures BootEntriesOk(n, g) {
      assert BootEntriesOk(s, g);
    }
  }

  lemma LinkedNodes(s: Vm, n: Vm, t: nat, k: nat, f: nat)
    requires VmOk(s) && Linked(s, n, t, k, f)
    ensures EnvOk(n) && NodesOk(n)
  {
    LinkedFrames(s, n, t, k, f);
    LinkedEnv(s, n, t, k, f);
    forall g | g in n.tree ensures NodeOk(n, g) {
      assert NodeOk(s, t);
      if g != f {
        assert NodeOk(s, g);
      }
    }
  }

  lemma LinkedEntry(s: Vm, n: Vm, t: nat, k: nat, f: nat, g: nat, j: nat)
    requires VmOk(s) && Linked(s, n, t, k, f) && EnvOk(n) && NodesOk(n)
    requires forall i: nat :: Shared(n, i) == Shared(s, i)
    requires IsTable(n, g) && j < ENTRIES
    ensures n.tree[g].level <= 4 && g < |n.ram| && EntryOk(n, g, j)
  {
    LinkedFrames(s, n, t, k, f);
    assert NodeOk(n, g);
    assert g != f ==> EntryOk(s, g, j);
    hide EnvOk, NodesOk, EntriesOk, AllAnchored, NodeOk, Shared, IsRoot, Prefix;
  }

  lemma LinkedEntries(s: Vm, n: Vm, t: nat, k: nat, f: nat)
    requires VmOk(s) && Linked(s, n, t, k, f) && EnvOk(n) && NodesOk(n)
    ensures EntriesOk(n)
  {
    LinkedEnv(s, n, t, k, f);
    forall g, j | IsTable(n, g) && 0 <= j < ENTRIES ensures EntryOk(n, g, j) {
      LinkedEntry(s, n, t, k, f, g, j);
    }
  }

  /** Entries in use are not touched. */
  lemma LinkedKeeps(s: Vm, n: Vm, t: nat, k: nat, f: nat, x: nat, i: nat)
    requires VmOk(s) && Linked(s, n, t, k, f) && IsTable(s, x) && i < ENTRIES
    ensures x < |s.ram| == |n.ram|
    ensures s.ram[x][i] != 0 ==> n.ram[x][i] == s.ram[x][i]
  {
    assert NodeOk(s, x);
    LinkedFrames(s, n, t, k, f);
  }

  /** Tables that walks found before are still found. */
  lemma {:induction false} LinkedTableAt(s: Vm, n: Vm, t: nat, k: nat, f: nat, r: nat, v: Page, level: nat)
    requires VmOk(s) && Linked(s, n, t, k, f)
    requires IsRoot(s, r) && IsPage(v) && Private(s, v.l4) && 1 <= level <= 4
    requires TableAt(s.ram, r, v, level) >= 0
    ensures TableAt(n.ram, r, v, level) == TableAt(s.ram, r, v, level)
    decreases 4 - level
  {
    hide VmOk, Shared, Zeroed, Linked;
    if level < 4 {
      LinkedTableAt(s, n, t, k, f, r, v, level + 1);
      TableAtIsNode(s, r, v, level + 1);
      LinkedKeeps(s, n, t, k, f, TableAt(s.ram, r, v, level + 1), Index(v, level + 1));
    }
  }

  lemma LinkedAnchored(s: Vm, n: Vm, t: nat, k: nat, f: nat)
    requires VmOk(s) && Linked(s, n, t, k, f) && EnvOk(n) && NodesOk(n)
    ensures AllAnchored(n)
  {
    LinkedFrames(s, n, t, k, f);
    forall g | g in n.tree ensures Anchored(n, g) {
      assert NodeOk(n, g);
      if g == f {
        if n.tree[f].level >= 1 {
          LinkedFoundAt(s, n, t, k, f);
        }
      } else if n.tree[g].level == 4 {
      } else if n.tree[g].level >= 1 {
        assert NodeOk(s, g) && Anchored(s, g);
        LinkedTableAt(s, n, t, k, f, s.tree[g].root, s.tree[g].at, s.tree[g].level);
      }
    }
  }

  lemma LinkedFoundAt(s: Vm, n: Vm, t: nat, k: nat, f: nat)
    requires VmOk(s) && Linked(s, n, t, k, f) && s.tree[t].level <= 4 && s.tree[t].level >= 2
    requires IsPage(Child(s, t, k).at) && Private(s, Child(s, t, k).at.l4)
    ensures TableAt(n.ram, s.tree[t].root, Child(s, t, k).at, s.tree[t].level - 1) == f
  {
    var level, v, r := s.tree[t].level, Child(s, t, k).at, s.tree[t].root;
    assert NodeOk(s, t);
    assert Prefix(v, level) == s.tree[t].at;
    TableAtNode(s, t, v);
    LinkedTableAt(s, n, t, k, f, r, v, level);
  }

  lemma LinkedOk(s: Vm, n: Vm, t: nat, k: nat, f: nat)
    requires VmOk(s) && Linked(s, n, t, k, f)
    ensures VmOk(n)
  {
    LinkedEnv(s, n, t, k, f);
    LinkedNodes(s, n, t, k, f);
    LinkedEntries(s, n, t, k, f);
    LinkedAnchored(s, n, t, k, f);
  }

  // ---------------------------------------------------------------- what it does to translations

  /** Walks below the bootloader's tables read nothing that changed. */
  lemma {:induction false} BootWalkSame(s: Vm, n: Vm, x: nat, level: nat, v: Page)
    requires EnvOk(s) && |n.ram| == |s.ram| && IsPage(v)
    requires forall g | g in s.env.boot :: n.ram[g] == s.ram[g]
    requires x < |s.ram| ==> x in s.env.boot && s.env.boot[x] >= level
    requires 1 <= level <= 3
    ensures Walk(n.ram, x, level, v) == Walk(s.ram, x, level, v)
    decreases level
  {
    if x < |s.ram| && level > 1 {
      var e := s.ram[x][Index(v, level)];
      assert BootEntriesOk(s, x);
      assert BootLink(s, e, s.env.boot[x] - 1);
      if Present(e) && !Large(e) {
        BootWalkSame(s, n, FrameOf(e), level - 1, v);
      }
    }
  }

  /** The page a lowest-level entry maps, if it is one. */
  predicate Maps(s: Vm, t: nat, k: nat, r: nat, v: Page) {
    IsTable(s, t) && s.tree[t] == Node(r, 1, Prefix(v, 1)) && k == v.l1
  }

  lemma {:induction false} LinkedWalkBelow(s: Vm, n: Vm, t: nat, k: nat, f: nat, r: nat, x: nat, level: nat, v: Page)
    requires VmOk(s) && Linked(s, n, t, k, f)
    requires IsPage(v) && 1 <= level <= 4 && HasNode(s, x, Node(r, level, Prefix(v, level))) && Private(s, v.l4)
    requires !Maps(s, t, k, r, v)
    ensures Walk(n.ram, x, level, v) == Walk(s.ram, x, level, v)
    decreases level
  {
    var i := Index(v, level);
    assert NodeOk(s, x) && EntryOk(s, x, i);
    LinkedFrames(s, n, t, k, f);
    if x == t && i == k {
      assert Walk(n.ram, f, level - 1, v) == Fault;
    } else {
      var e := s.ram[x][i];
      if level > 1 && e != 0 {
        DownPrefix(v, level);
        LinkedWalkBelow(s, n, t, k, f, r, FrameOf(e), level - 1, v);
      }
    }
  }

  /** Outside the window, linking an entry changes the translation of no page except the one a
      lowest-level entry maps, which faulted before. */
  lemma LinkedTranslate(s: Vm, n: Vm, t: nat, k: nat, f: nat, r: nat, v: Page)
    requires VmOk(s) && Linked(s, n, t, k, f)
    requires IsRoot(s, r) && IsPage(v) && v.l4 != RECURSIVE_SLOT
    ensures if Maps(s, t, k, r, v)
            then Translate(s.ram, r, v) == Fault && Translate(n.ram, r, v) == Mapped(f, 1)
            else Translate(n.ram, r, v) == Translate(s.ram, r, v)
  {
    assert NodeOk(s, r) && EntryOk(s, r, v.l4);
    LinkedFrames(s, n, t, k, f);
    if Maps(s, t, k, r, v) {
      assert NodeOk(s, t);
      TableAtNode(s, t, v);
      LinkedTableAt(s, n, t, k, f, r, v, 1);
      WalkFromTable(s.ram, r, v, 1);
      WalkFromTable(n.ram, r, v, 1);
    } else if Shared(s, v.l4) {
      var e := s.ram[r][v.l4];
      assert BootLink(s, s.ram[s.env.bootRoot][v.l4], 3);
      if Present(e) && !Large(e) {
        BootWalkSame(s, n, FrameOf(e), 3, v);
      }
    } else {
      LinkedWalkBelow(s, n, t, k, f, r, r, 4, v);
    }
  }

  // ---------------------------------------------------------------- other directories

  /** Whatever is read on a walk through directory r: one of its tables, or a bootloader table. */
  predicate OnWalk(s: Vm, r: nat, x: nat, level: nat) {
    || (IsTable(s, x) && s.tree[x].root == r && s.tree[x].level >= level)
    || (x in s.env.boot && s.env.boot[x] >= level)
    || x >= |s.ram|
  }

  /** Where a walk goes from there it stays there, window or not. */
  lemma WalkStays(s: Vm, r: nat, x: nat, level: nat, v: Page)
    requires VmOk(s) && IsPage(v) && 2 <= level <= 4 && OnWalk(s, r, x, level) && x < |s.ram|
    requires var e := s.ram[x][Index(v, level)]; Present(e) && !Large(e)
    ensures OnWalk(s, r, FrameOf(s.ram[x][Index(v, level)]), level - 1)
  {
    var i := Index(v, level);
    var e := s.ram[x][i];
    if IsTable(s, x) && s.tree[x].root == r && s.tree[x].level >= level {
      assert NodeOk(s, x) && EntryOk(s, x, i);
      if s.tree[x].level == 4 && Shared(s, i) {
        assert BootLink(s, s.ram[s.env.bootRoot][i], 3);
      }
    } else {
      assert BootEntriesOk(s, x);
      assert BootLink(s, e, s.env.boot[x] - 1);
    }
  }

  lemma {:induction false} UntouchedWalk(s: Vm, ram: Ram, r: nat, x: nat, level: nat, v: Page)
    requires VmOk(s) && IsPage(v) && |ram| == |s.ram| && 1 <= level <= 4 && OnWalk(s, r, x, level)
    requires forall g: nat | IsTable(s, g) && s.tree[g].root == r :: g < |ram| && ram[g] == s.ram[g]
    requires forall g | g in s.env.boot :: ram[g] == s.ram[g]
    ensures Walk(ram, x, level, v) == Walk(s.ram, x, level, v)
    decreases level
  {
    if x < |s.ram| {
      var e := s.ram[x][Index(v, level)];
      if level > 1 && Present(e) && !Large(e) {
        WalkStays(s, r, x, level, v);
        UntouchedWalk(s, ram, r, FrameOf(e), level - 1, v);
      }
    }
  }

  /** A change to memory that spares the tables of directory r and the bootloader's leaves every
      translation of r as it was, those through its recursive window included. */
  lemma UntouchedDirectory(s: Vm, ram: Ram, r: nat, v: Page)
    requires VmOk(s) && IsRoot(s, r) && IsPage(v) && |ram| == |s.ram|
    requires forall g: nat | IsTable(s, g) && s.tree[g].root == r :: g < |ram| && ram[g] == s.ram[g]
    requires forall g | g in s.env.boot :: ram[g] == s.ram[g]
    ensures Translate(ram, r, v) == Translate(s.ram, r, v)
  {
    UntouchedWalk(s, ram, r, r, 4, v);
  }

  /** No walk of directory r, through whatever slots, reads a table of another directory. */
  lemma {:induction false} NoForeignTable(s: Vm, r: nat, v: Page, level: nat)
    requires VmOk(s) && IsRoot(s, r) && IsPage(v) && 1 <= level <= 4
    ensures var t := TableAt(s.ram, r, v, level); t >= 0 && IsTable(s, t) ==> s.tree[t].root == r
    ensures TableAt(s.ram, r, v, level) >= 0 ==> OnWalk(s, r, TableAt(s.ram, r, v, level), level)
    decreases 4 - level
  {
    if level < 4 && TableAt(s.ram, r, v, level) >= 0 {
      NoForeignTable(s, r, v, level + 1);
      WalkStays(s, r, TableAt(s.ram, r, v, level + 1), level + 1, v);
      var t: nat := TableAt(s.ram, r, v, level);
      if IsTable(s, t) {
        assert NodeOk(s, t);
      }
    }
  }
}
