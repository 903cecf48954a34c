/** Interrupt locking and the print lock.  First the per-core nesting counter by itself; then every
    core running, logging and being interrupted at once, as steps of single accesses. */
module Locks {
  import opened Memory

  // ---------------------------------------------------------------- the nesting counter

  const LEVEL_MAX: nat := 255

  /** One core's nesting level and its interrupt flag. */
  datatype Ints = Ints(level: nat, on: bool)

  datatype Op = Lock | Unlock

  /** What a call does; none when its assertion fails, which logs a panic and halts the core. */
  function Apply(op: Op, s: Ints): Option<Ints> {
    match op
    case Lock =>
      if s.level == LEVEL_MAX then None
      else Some(Ints(s.level + 1, if s.level == 0 then false else s.on))
    case Unlock =>
      if s.level == 0 then None
      else Some(Ints(s.level - 1, if s.level == 1 then true else s.on))
  }

  function ApplyAll(ops: seq<Op>, s: Ints): Option<Ints> {
    if ops == [] then Some(s)
    else match ApplyAll(ops[..|ops| - 1], s)
      case None => None
      case Some(t) => Apply(ops[|ops| - 1], t)
  }

  /** Locks less unlocks. */
  function Depth(ops: seq<Op>): int {
    if ops == [] then 0
    else Depth(ops[..|ops| - 1]) + (if ops[|ops| - 1] == Lock then 1 else -1)
  }

  /** Every unlock undoes an earlier lock of the same sequence. */
  predicate Nested(ops: seq<Op>) {
    forall k | 0 <= k <= |ops| :: Depth(ops[..k]) >= 0
  }

  /** No prefix is deep enough to run into the limit. */
  predicate Shallow(ops: seq<Op>, level: nat) {
    forall k | 0 <= k <= |ops| :: level + Depth(ops[..k]) <= LEVEL_MAX
  }

  /** The state after any nested sequence: the level has moved by the depth; started inside a
      lock the flag is untouched, started outside it tells whether the level is back at zero. */
  lemma {:induction false} AfterNested(ops: seq<Op>, s: Ints)
    requires Nested(ops) && Shallow(ops, s.level)
    ensures Depth(ops) >= 0
    ensures ApplyAll(ops, s) == Some(Ints(s.level + Depth(ops),
      if ops == [] || s.level > 0 then s.on else Depth(ops) == 0))
  {
    assert ops[..|ops|] == ops;
    assert Depth(ops[..|ops|]) >= 0 && s.level + Depth(ops[..|ops|]) <= LEVEL_MAX;
    if ops != [] {
      var shorter := ops[..|ops| - 1];
      forall k | 0 <= k <= |shorter|
        ensures Depth(shorter[..k]) >= 0 && s.level + Depth(shorter[..k]) <= LEVEL_MAX
      {
        assert shorter[..k] == ops[..k];
      }
      AfterNested(shorter, s);
    }
  }

  /** Balanced nesting gives back the level always, and the interrupt state exactly when it was
      entered inside a lock or with interrupts enabled. */
  lemma BalancedRestores(ops: seq<Op>, s: Ints)
    requires ops != [] && Nested(ops) && Depth(ops) == 0 && Shallow(ops, s.level)
    ensures ApplyAll(ops, s).Some? && ApplyAll(ops, s).value.level == s.level
    ensures ApplyAll(ops, s) == Some(s) <==> s.level > 0 || s.on
  {
    AfterNested(ops, s);
  }

  class InterruptLock {
    const level: array<nat>
    const on: array<bool>

    ghost predicate Valid()
      reads this, level, on
    {
      level.Length == on.Length && forall k :: 0 <= k < level.Length ==> level[k] <= LEVEL_MAX
    }

    ghost function At(core: nat): Ints
      requires Valid() && core < level.Length
      reads this, level, on
    {
      Ints(level[core], on[core])
    }

    constructor (cores: nat)
      ensures Valid() && fresh(level) && fresh(on) && level.Length == cores
      ensures forall k: nat :: k < cores ==> At(k) == Ints(0, false)
    {
      level := new nat[cores](_ => 0);
      on := new bool[cores](_ => false);
    }

    method LockInts(core: nat) returns (halted: bool)
      requires Valid() && core < level.Length
      modifies level, on
      ensures Valid() && halted == Apply(Lock, old(At(core))).None?
      ensures halted ==> At(core) == old(At(core))
      ensures !halted ==> Apply(Lock, old(At(core))) == Some(At(core))
      ensures forall k: nat :: k < level.Length && k != core ==> At(k) == old(At(k))
    {
      if level[core] == LEVEL_MAX {
        return true;  // the panic's own LOG locks again and fails the same assertion
      }
      level[core] := level[core] + 1;
      if level[core] == 1 {
        on[core] := false;
      }
      return false;
    }

    method UnlockInts(core: nat) returns (halted: bool)
      requires Valid() && core < level.Length
      modifies level, on
      ensures Valid() && halted == Apply(Unlock, old(At(core))).None?
      ensures halted ==> At(core) == old(At(core)).(on := false)
      ensures !halted ==> Apply(Unlock, old(At(core))) == Some(At(core))
      ensures forall k: nat :: k < level.Length && k != core ==> At(k) == old(At(k))
    {
      if level[core] == 0 {
        on[core] := false;
        return true;
      }
      level[core] := level[core] - 1;
      if level[core] == 0 {
        on[core] := true;
      }
      return false;
    }
  }

  // ---------------------------------------------------------------- all cores at once

  /** Where an activity, the code of a core or one of its handlers, is.  `log` tells that the
      lock is being taken by a LOG macro. */
  datatype Pc =
    | Plain
    | LockCalled(log: bool)
    | LockRead(log: bool, seen: int)    // has read the level
    | LockWritten(log: bool)            // has written the level, is about to compare it with 1
    | Disabling(log: bool)              // about to clear the interrupt flag
    | WantsPrint                        // spinning on the print lock
    | Printing
    | PrintLeaving(seen: int)           // the release has read the lock word
    | UnlockCalled
    | UnlockRead(seen: int)             // has read the level
    | UnlockWritten(seen: int)          // has written this value

  /** An activity and the number of its own `lock_ints` calls that are not undone yet. */
  datatype Activity = Activity(pc: Pc, held: nat)

  /** A core: its nesting level, its interrupt flag, and its activities, each interrupting the one
      before it; the last one runs. */
  datatype Core = Core(level: int, on: bool, stack: seq<Activity>)

  datatype State = State(word: int, cores: seq<Core>)

  predicate Init(s: State) {
    s.word == 0 && forall i | 0 <= i < |s.cores| :: s.cores[i] == Core(0, false, [Activity(Plain, 0)])
  }

  function Replace(stack: seq<Activity>, a: Activity): seq<Activity>
    requires stack != []
  {
    stack[|stack| - 1 := a]
  }

  /** One step of a core, with the print lock before and after it. */
  predicate CoreStep(c: Core, d: Core, word: int, after: int) {
    c.stack != [] && (Work(c, d, word, after) || (after == word && (Interrupt(c, d) || Return(c, d) || SetFlag(c, d))))
  }

  /** An interrupt gate: taken only when the flag is set, and clears it. */
  predicate Interrupt(c: Core, d: Core) {
    c.on && d == Core(c.level, false, c.stack + [Activity(Plain, 0)])
  }

  /** The return from a handler that has undone its locks restores the flag it was entered with. */
  predicate Return(c: Core, d: Core) {
    |c.stack| >= 2 && c.stack[|c.stack| - 1] == Activity(Plain, 0)
    && d == Core(c.level, true, c.stack[..|c.stack| - 1])
  }

  /** The core's own code, outside every lock, sets or clears the flag itself. */
  predicate SetFlag(c: Core, d: Core) {
    |c.stack| == 1 && c.stack[0] == Activity(Plain, 0) && (d == c.(on := true) || d == c.(on := false))
  }

  predicate Work(c: Core, d: Core, word: int, after: int)
    requires c.stack != []
  {
    var a := c.stack[|c.stack| - 1];
    match a.pc
    case Plain =>
      && after == word
      && (Moves(c, d, a.(pc := LockCalled(false))) || Moves(c, d, a.(pc := LockCalled(true)))
          || (a.held > 0 && Moves(c, d, a.(pc := UnlockCalled))))
    case LockCalled(log) =>
      after == word && c.level != LEVEL_MAX && Moves(c, d, a.(pc := LockRead(log, c.level)))
    case LockRead(log, v) =>
      after == word && d == c.(level := v + 1, stack := Replace(c.stack, a.(pc := LockWritten(log))))
    case LockWritten(log) =>
      after == word && Moves(c, d, if c.level == 1 then a.(pc := Disabling(log)) else Locked(a, log))
    case Disabling(log) =>
      after == word && d == c.(on := false, stack := Replace(c.stack, Locked(a, log)))
    case WantsPrint => word == 0 && after == 1 && Moves(c, d, a.(pc := Printing))
    case Printing => after == word && Moves(c, d, a.(pc := PrintLeaving(word)))
    case PrintLeaving(v) => after == v - 1 && Moves(c, d, a.(pc := UnlockCalled))
    case UnlockCalled => after == word && Moves(c, d, a.(pc := UnlockRead(c.level)))
    case UnlockRead(v) =>
      && after == word && a.held > 0
      && d == c.(level := v - 1, stack := Replace(c.stack, Activity(UnlockWritten(v - 1), a.held - 1)))
    case UnlockWritten(v) =>
      && after == word
      && d == c.(on := c.on || v == 0, stack := Replace(c.stack, a.(pc := Plain)))
  }

  predicate Moves(c: Core, d: Core, a: Activity)
    requires c.stack != []
  {
    d == c.(stack := Replace(c.stack, a))
  }

  /** The end of `lock_ints`: a LOG macro goes on to the print lock. */
  function Locked(a: Activity, log: bool): Activity {
    Activity(if log then WantsPrint else Plain, a.held + 1)
  }

  predicate Step(s: State, n: State, i: nat) {
    && i < |s.cores| == |n.cores|
    && CoreStep(s.cores[i], n.cores[i], s.word, n.word)
    && n.cores == s.cores[i := n.cores[i]]
  }

  ghost predicate Next(s: State, n: State) {
    exists i: nat :: Step(s, n, i)
  }

  // ---------------------------------------------------------------- what each core keeps

  /** What an activity has added to its core's level. */
  function Weight(a: Activity): nat {
    a.held + (if a.pc.LockWritten? || a.pc.Disabling? then 1 else 0)
  }

  function Sum(stack: seq<Activity>): nat {
    if stack == [] then 0 else Sum(stack[..|stack| - 1]) + Weight(stack[|stack| - 1])
  }

  /** An interrupt may arrive: nothing below the running activity weighs, and it holds no lock. */
  predicate Open(stack: seq<Activity>)
    requires stack != []
  {
    Sum(stack[..|stack| - 1]) == 0 && stack[|stack| - 1].held == 0
  }

  /** What the last activity of a stack has read is what the stack weighs, and it holds a lock
      where it must. */
  predicate Sound(stack: seq<Activity>)
    requires stack != []
  {
    var a := stack[|stack| - 1];
    && (a.pc.LockRead? || a.pc.UnlockRead? || a.pc.UnlockWritten? ==> a.pc.seen == Sum(stack))
    && (a.pc.LockRead? ==> a.pc.seen < LEVEL_MAX)
    && (a.pc.Disabling? ==> Sum(stack) == 1)
    && (a.pc.PrintLeaving? ==> a.pc.seen == 1)
    && (a.pc.WantsPrint? || a.pc.Printing? || a.pc.PrintLeaving? || a.pc.UnlockCalled? || a.pc.UnlockRead? ==>
        a.held > 0)
  }

  predicate Below(stack: seq<Activity>)
    requires stack != []
  {
    forall k | 0 < k < |stack| :: Open(stack[..k]) && Sound(stack[..k])
  }

  predicate CoreOk(c: Core) {
    && c.stack != [] && c.level == Sum(c.stack) <= LEVEL_MAX
    && Below(c.stack) && Sound(c.stack)
    && (c.on ==> Open(c.stack))
  }

  lemma ReplaceSum(stack: seq<Activity>, a: Activity)
    requires stack != []
    ensures Replace(stack, a)[..|stack| - 1] == stack[..|stack| - 1]
    ensures Sum(Replace(stack, a)) == Sum(stack[..|stack| - 1]) + Weight(a)
    ensures Sum(stack) == Sum(stack[..|stack| - 1]) + Weight(stack[|stack| - 1])
  {}

  lemma ReplaceOk(stack: seq<Activity>, a: Activity)
    requires stack != [] && Below(stack)
    ensures Below(Replace(stack, a))
    ensures Replace(stack, a)[..|stack| - 1] == stack[..|stack| - 1]
    ensures Sum(Replace(stack, a)) == Sum(stack[..|stack| - 1]) + Weight(a)
    ensures Sum(stack) == Sum(stack[..|stack| - 1]) + Weight(stack[|stack| - 1])
  {
    ReplaceSum(stack, a);
    hide Open, Sound, Sum;
    forall k | 0 < k < |stack| ensures Replace(stack, a)[..k] == stack[..k] {}
  }

  lemma LockKeeps(c: Core, d: Core, word: int, after: int)
    requires CoreOk(c) && Work(c, d, word, after)
    requires var pc := c.stack[|c.stack| - 1].pc; pc.LockCalled? || pc.LockRead? || pc.LockWritten? || pc.Disabling?
    ensures CoreOk(d)
  {
    ReplaceOk(c.stack, d.stack[|d.stack| - 1]);
    hide Below, Sum;
  }

  lemma UnlockKeeps(c: Core, d: Core, word: int, after: int)
    requires CoreOk(c) && Work(c, d, word, after)
    requires var pc := c.stack[|c.stack| - 1].pc; pc.UnlockCalled? || pc.UnlockRead? || pc.UnlockWritten?
    ensures CoreOk(d)
  {
    ReplaceOk(c.stack, d.stack[|d.stack| - 1]);
    hide Below, Sum;
  }

  lemma PrintKeeps(c: Core, d: Core, word: int, after: int)
    requires CoreOk(c) && Work(c, d, word, after)
    requires c.stack[|c.stack| - 1].pc.Printing? ==> word == 1
    requires var pc := c.stack[|c.stack| - 1].pc; pc.Plain? || pc.WantsPrint? || pc.Printing? || pc.PrintLeaving?
    ensures CoreOk(d)
  {
    ReplaceOk(c.stack, d.stack[|d.stack| - 1]);
    hide Below, Sum;
  }

  lemma WorkKeeps(c: Core, d: Core, word: int, after: int)
    requires CoreOk(c) && Work(c, d, word, after)
    requires c.stack[|c.stack| - 1].pc.Printing? ==> word == 1
    ensures CoreOk(d)
  {
    var pc := c.stack[|c.stack| - 1].pc;
    hide CoreOk, Work;
    if pc.LockCalled? || pc.LockRead? || pc.LockWritten? || pc.Disabling? {
      LockKeeps(c, d, word, after);
    } else if pc.UnlockCalled? || pc.UnlockRead? || pc.UnlockWritten? {
      UnlockKeeps(c, d, word, after);
    } else {
      PrintKeeps(c, d, word, after);
    }
  }

  lemma InterruptKeeps(c: Core, d: Core)
    requires CoreOk(c) && (Interrupt(c, d) || Return(c, d) || SetFlag(c, d))
    ensures CoreOk(d)
  {
    if Interrupt(c, d) {
      assert d.stack[..|c.stack|] == c.stack;
      forall k | 0 < k < |d.stack| ensures Open(d.stack[..k]) && Sound(d.stack[..k]) {
        assert k < |c.stack| ==> d.stack[..k] == c.stack[..k];
      }
    } else if Return(c, d) {
      forall k | 0 < k < |d.stack| ensures Open(d.stack[..k]) && Sound(d.stack[..k]) {
        assert d.stack[..k] == c.stack[..k];
      }
      assert Open(c.stack[..|c.stack| - 1]) && Sound(c.stack[..|c.stack| - 1]);
    }
  }

  // ---------------------------------------------------------------- the print lock

  predicate Holds(a: Activity) {
    a.pc.Printing? || a.pc.PrintLeaving?
  }

  /** The core's running activity holds the print lock. */
  predicate Prints(c: Core) {
    c.stack != [] && Holds(c.stack[|c.stack| - 1])
  }

  predicate PrintOk(s: State) {
    && 0 <= s.word <= 1
    && (forall i | 0 <= i < |s.cores| && Prints(s.cores[i]) :: s.word == 1)
    && (forall i, j | 0 <= i < j < |s.cores| && Prints(s.cores[i]) :: !Prints(s.cores[j]))
    && (s.word == 1 ==> exists i :: 0 <= i < |s.cores| && Prints(s.cores[i]))
  }

  predicate Inv(s: State) {
    PrintOk(s) && forall i | 0 <= i < |s.cores| :: CoreOk(s.cores[i])
  }

  /** A core that prints is not interrupted and stays where it is. */
  lemma StepPrints(s: State, n: State, i: nat)
    requires i < |s.cores| && CoreOk(s.cores[i]) && Step(s, n, i)
    requires Prints(s.cores[i]) ==> s.word == 1
    ensures CoreOk(n.cores[i])
    ensures !Prints(s.cores[i]) && Prints(n.cores[i]) ==> s.word == 0 && n.word == 1
    ensures Prints(s.cores[i]) && !Prints(n.cores[i]) ==> s.word == 1 && n.word == 0
    ensures Prints(s.cores[i]) == Prints(n.cores[i]) ==> s.word == n.word
  {
    var c, d := s.cores[i], n.cores[i];
    if Work(c, d, s.word, n.word) {
      WorkKeeps(c, d, s.word, n.word);
      hide Below;
    } else {
      InterruptKeeps(c, d);
      if Return(c, d) {
        assert Open(c.stack[..|c.stack| - 1]) && Sound(c.stack[..|c.stack| - 1]);
      }
      hide Below, Work;
    }
  }

  lemma StepKeeps(s: State, n: State, i: nat)
    requires Inv(s) && Step(s, n, i)
    ensures Inv(n)
  {
    StepPrints(s, n, i);
    hide CoreOk, CoreStep, Prints;
    assert forall j | 0 <= j < |s.cores| && j != i :: n.cores[j] == s.cores[j];
    if n.word == 1 && !Prints(n.cores[i]) {
      var j :| 0 <= j < |s.cores| && Prints(s.cores[j]);
      assert n.cores[j] == s.cores[j];
    }
  }

  ghost predicate Run(states: seq<State>) {
    && states != [] && Init(states[0])
    && (forall k | 0 <= k < |states| - 1 :: Next(states[k], states[k + 1]))
  }

  lemma {:induction false} RunInv(states: seq<State>, k: nat)
    requires Run(states) && k < |states|
    ensures Inv(states[k])
  {
    hide CoreStep;
    if k == 0 {
      forall i | 0 <= i < |states[0].cores| ensures CoreOk(states[0].cores[i]) && !Prints(states[0].cores[i]) {
        assert states[0].cores[i].stack == [Activity(Plain, 0)];
      }
    } else {
      RunInv(states, k - 1);
      assert Next(states[k - 1], states[k]);
      var i: nat :| Step(states[k - 1], states[k], i);
      StepKeeps(states[k - 1], states[k], i);
    }
  }

  /** An activity of a core that is not running, because a handler interrupted it. */
  predicate Interrupted(c: Core, k: nat) {
    k + 1 < |c.stack|
  }

  /** The assertion at the start of `unlock_ints` holds when the core gets there. */
  predicate UnlockHasLevel(c: Core) {
    c.stack != [] && c.stack[|c.stack| - 1].pc.UnlockCalled? ==> c.level > 0
  }

  /** In every run of any number of cores, logging and interrupted at any point: the print lock's
      word is 1 exactly when some core holds it, and then only one does; the holder is running,
      inside a lock level and with interrupts off; no activity that a handler has interrupted
      holds it, so a handler waiting for it waits for another core.  The level is what the core's
      activities have locked, so no unlock fails its assertion. */
  lemma PrintLockSafe(states: seq<State>, step: nat)
    requires Run(states) && step < |states|
    ensures var s := states[step];
      && (s.word == 1 <==> exists i :: 0 <= i < |s.cores| && Prints(s.cores[i]))
      && (s.word == 0 || s.word == 1)
      && (forall i, j | 0 <= i < j < |s.cores| && Prints(s.cores[i]) :: !Prints(s.cores[j]))
    ensures forall i | 0 <= i < |states[step].cores| && Prints(states[step].cores[i]) ::
      states[step].cores[i].level >= 1 && !states[step].cores[i].on
    ensures forall i, k: nat | 0 <= i < |states[step].cores| && Interrupted(states[step].cores[i], k) ::
      !Holds(states[step].cores[i].stack[k])
    ensures forall i | 0 <= i < |states[step].cores| ::
      states[step].cores[i].level == Sum(states[step].cores[i].stack) && UnlockHasLevel(states[step].cores[i])
  {
    RunInv(states, step);
    var s := states[step];
    forall i, k: nat | 0 <= i < |s.cores| && Interrupted(s.cores[i], k) ensures !Holds(s.cores[i].stack[k]) {
      assert Open(s.cores[i].stack[..k + 1]) && Sound(s.cores[i].stack[..k + 1]);
    }
  }

  // ---------------------------------------------------------------- the flag along a run

  /** Level and flag as activity d of a core has left them: the running one's are the core's own;
      an interrupted one gets back its level, and the flag set, without which it would not have
      been interrupted. */
  function Left(c: Core, d: nat): Ints
    requires d < |c.stack|
  {
    if |c.stack| == d + 1 then Ints(if c.level < 0 then 0 else c.level, c.on)
    else Ints(Sum(c.stack[..d + 1]), true)
  }

  /** ... without what a call that is under way has done so far. */
  function Settled(c: Core, d: nat): Ints
    requires d < |c.stack|
  {
    Undone(c.stack[d].pc, Left(c, d))
  }

  function Undone(pc: Pc, left: Ints): Ints {
    if pc.LockWritten? || pc.Disabling? then Ints(if left.level > 0 then left.level - 1 else 0, left.on)
    else if pc.UnlockWritten? then Ints(left.level + 1, left.on)
    else left
  }

  /** The calls that end when an activity goes from one place to another. */
  function Ended(p: Pc, q: Pc): (r: seq<Op>)
    ensures |r| <= 1
  {
    if (p.LockWritten? && !q.LockWritten? && !q.Disabling?) || (p.Disabling? && !q.Disabling?) then [Lock]
    else if p.UnlockWritten? && !q.UnlockWritten? then [Unlock]
    else []
  }

  /** Activity d of core i exists at every step from a to b. */
  predicate Lives(states: seq<State>, i: nat, d: nat, a: nat, b: nat) {
    && a <= b < |states|
    && forall m | a <= m <= b :: i < |states[m].cores| && d < |states[m].cores[i].stack|
  }

  /** The calls of `lock_ints` and `unlock_ints` it has finished since step a. */
  function Calls(states: seq<State>, i: nat, d: nat, a: nat, b: nat): seq<Op>
    requires Lives(states, i, d, a, b)
    decreases b
  {
    if b == a then []
    else
      Calls(states, i, d, a, b - 1)
      + Ended(states[b - 1].cores[i].stack[d].pc, states[b].cores[i].stack[d].pc)
  }

  /** The core's step is its work, an interrupt or a return, or another core's. */
  predicate Calm(s: State, n: State, i: nat) {
    && i < |s.cores| && i < |n.cores|
    && var c, d := s.cores[i], n.cores[i];
       c == d || (c.stack != [] && Work(c, d, s.word, n.word)) || Interrupt(c, d) || Return(c, d)
  }

  lemma OneCall(op: Op, s: Ints)
    ensures ApplyAll([op], s) == Apply(op, s)
  {
    assert [op][..0] == [];
  }

  /** What the running activity does moves the settled state by the calls that end. */
  lemma WorkSettles(c: Core, n: Core, word: int, after: int)
    requires CoreOk(c) && Work(c, n, word, after)
    ensures n.stack != [] && |n.stack| == |c.stack|
    ensures var d := |c.stack| - 1;
      ApplyAll(Ended(c.stack[d].pc, n.stack[d].pc), Settled(c, d)) == Some(Settled(n, d))
  {
    var d := |c.stack| - 1;
    hide ApplyAll, Sum, Below;
    ReplaceSum(c.stack, n.stack[d]);
    OneCall(Lock, Settled(c, d));
    OneCall(Unlock, Settled(c, d));
    NoCalls(Settled(c, d));
  }

  lemma NoCalls(s: Ints)
    ensures ApplyAll([], s) == Some(s)
  {}

  /** An interrupted activity is not touched; it is left, and resumed, as it was. */
  lemma RestSettles(c: Core, n: Core, word: int, after: int, d: nat)
    requires CoreOk(c) && CoreOk(n) && d < |c.stack| && d < |n.stack|
    requires c == n || Interrupt(c, n) || Return(c, n) || (d + 1 < |c.stack| && Work(c, n, word, after))
    ensures n.stack[d] == c.stack[d] && Left(n, d) == Left(c, d)
  {
    hide ApplyAll, Below;
    if Interrupt(c, n) {
      assert n.stack[..|c.stack|] == c.stack && n.stack[..d + 1] == c.stack[..d + 1];
      assert c.stack[..|c.stack|] == c.stack;
    } else if Return(c, n) {
      assert n.stack == c.stack[..|c.stack| - 1] && n.stack[..d + 1] == c.stack[..d + 1];
      assert n.stack[..|n.stack|] == n.stack;
    } else {
      assert n.stack[..d + 1] == c.stack[..d + 1];
    }
  }

  /** One step moves the settled state by the calls that end. */
  lemma StepSettles(c: Core, n: Core, word: int, after: int, d: nat)
    requires CoreOk(c) && CoreOk(n) && d < |c.stack| && d < |n.stack|
    requires c == n || Work(c, n, word, after) || Interrupt(c, n) || Return(c, n)
    ensures ApplyAll(Ended(c.stack[d].pc, n.stack[d].pc), Settled(c, d)) == Some(Settled(n, d))
  {
    hide CoreOk, Work, ApplyAll, Left, Undone, Interrupt, Return;
    if c.stack != [] && Work(c, n, word, after) && d == |c.stack| - 1 {
      WorkSettles(c, n, word, after);
    } else {
      RestSettles(c, n, word, after, d);
      NoCalls(Settled(c, d));
    }
  }

  lemma {:induction false} ApplyMore(ops: seq<Op>, more: seq<Op>, s: Ints)
    requires |more| <= 1
    ensures ApplyAll(ops + more, s) ==
            match ApplyAll(ops, s) case None => if more == [] then None else None case Some(t) => ApplyAll(more, t)
  {
    if more == [] {
      assert ops + more == ops;
    } else {
      assert (ops + more)[..|ops|] == ops && more[..0] == [];
    }
  }

  /** Every step of core i from a to b is its work, an interrupt, a return, or another core's. */
  predicate AllCalm(states: seq<State>, i: nat, a: nat, b: nat)
    requires b < |states|
  {
    forall m | a <= m < b :: Calm(states[m], states[m + 1], i)
  }

  lemma CallsMore(states: seq<State>, i: nat, d: nat, a: nat, b: nat)
    requires Lives(states, i, d, a, b) && a < b && AllCalm(states, i, a, b)
    ensures Lives(states, i, d, a, b - 1) && AllCalm(states, i, a, b - 1) && Calm(states[b - 1], states[b], i)
    ensures i < |states[b].cores| && i < |states[b - 1].cores| && i < |states[a].cores|
    ensures d < |states[b].cores[i].stack| && d < |states[b - 1].cores[i].stack| && d < |states[a].cores[i].stack|
    ensures Calls(states, i, d, a, b) == Calls(states, i, d, a, b - 1)
         + Ended(states[b - 1].cores[i].stack[d].pc, states[b].cores[i].stack[d].pc)
  {
    hide Calm, Ended;
  }

  /** Along any run without `sti` or `cli` of the core's own code, whatever handlers come and go and
      whatever other cores do: an activity's calls move level and flag as `Apply` says. */
  lemma {:induction false} CallsMove(states: seq<State>, i: nat, d: nat, a: nat, b: nat)
    requires Run(states) && Lives(states, i, d, a, b) && AllCalm(states, i, a, b)
    ensures ApplyAll(Calls(states, i, d, a, b), Settled(states[a].cores[i], d)) == Some(Settled(states[b].cores[i], d))
    decreases b
  {
    hide Run, Settled, ApplyAll, Calm, AllCalm, Ended;
    if b == a {
      NoCalls(Settled(states[a].cores[i], d));
    } else {
      CallsMore(states, i, d, a, b);
      hide Lives, Calls;
      CallsMove(states, i, d, a, b - 1);
      CalmSettles(states, i, d, b - 1);
      var c, n := states[b - 1].cores[i], states[b].cores[i];
      ApplyMore(Calls(states, i, d, a, b - 1), Ended(c.stack[d].pc, n.stack[d].pc), Settled(states[a].cores[i], d));
    }
  }

  lemma CalmSettles(states: seq<State>, i: nat, d: nat, m: nat)
    requires Run(states) && m + 1 < |states| && Calm(states[m], states[m + 1], i)
    requires d < |states[m].cores[i].stack| && d < |states[m + 1].cores[i].stack|
    ensures var c, n := states[m].cores[i], states[m + 1].cores[i];
      ApplyAll(Ended(c.stack[d].pc, n.stack[d].pc), Settled(c, d)) == Some(Settled(n, d))
  {
    hide CoreOk, ApplyAll, Settled, PrintOk;
    RunInv(states, m);
    RunInv(states, m + 1);
    StepSettles(states[m].cores[i], states[m + 1].cores[i], states[m].word, states[m + 1].word, d);
  }

  /** The activity runs outside every call. */
  predicate AtPlain(s: State, i: nat, d: nat) {
    i < |s.cores| && |s.cores[i].stack| == d + 1 && s.cores[i].stack[d].pc == Plain
  }

  function IntsOf(c: Core): Ints {
    Ints(if c.level < 0 then 0 else c.level, c.on)
  }

  /** From outside every call to outside every call, level and flag go where the calls take them. */
  lemma PlainToPlain(states: seq<State>, i: nat, d: nat, a: nat, b: nat)
    requires Run(states) && Lives(states, i, d, a, b) && AtPlain(states[a], i, d) && AtPlain(states[b], i, d)
    requires AllCalm(states, i, a, b)
    ensures ApplyAll(Calls(states, i, d, a, b), IntsOf(states[a].cores[i])) == Some(IntsOf(states[b].cores[i]))
  {
    hide Run, Calm, ApplyAll;
    CallsMove(states, i, d, a, b);
  }

  lemma {:induction false} OnAtZero(ops: seq<Op>, s: Ints)
    requires s == Ints(0, true) && ApplyAll(ops, s).Some?
    ensures ApplyAll(ops, s).value.on == (ApplyAll(ops, s).value.level == 0)
  {
    if ops != [] {
      OnAtZero(ops[..|ops| - 1], s);
    }
  }

  /** A core whose own code holds no lock and has interrupts on has them on whenever it is there
      again, whatever it has locked, logged and undone meanwhile. */
  lemma InterruptsComeBack(states: seq<State>, i: nat, a: nat, b: nat)
    requires Run(states) && Lives(states, i, 0, a, b)
    requires AllCalm(states, i, a, b)
    requires states[a].cores[i].stack == states[b].cores[i].stack == [Activity(Plain, 0)] && states[a].cores[i].on
    ensures states[b].cores[i].on
  {
    RunInv(states, a);
    RunInv(states, b);
    hide Run, Calm, PrintOk;
    assert CoreOk(states[a].cores[i]) && CoreOk(states[b].cores[i]);
    PlainToPlain(states, i, 0, a, b);
    OnAtZero(Calls(states, i, 0, a, b), IntsOf(states[a].cores[i]));
  }

  // ---------------------------------------------------------------- one LOG

  /** Inside a LOG macro, and the calls it has finished there. */
  predicate InLog(pc: Pc, calls: seq<Op>) {
    match pc
    case LockCalled(log) => log && calls == []
    case LockRead(log, _) => log && calls == []
    case LockWritten(log) => log && calls == []
    case Disabling(log) => log && calls == []
    case Plain => false
    case _ => calls == [Lock]
  }

  lemma LogStep(c: Core, n: Core, word: int, after: int, d: nat, calls: seq<Op>)
    requires c.stack != [] && d < |c.stack| && d < |n.stack| && InLog(c.stack[d].pc, calls)
    requires c == n || Work(c, n, word, after) || Interrupt(c, n) || Return(c, n)
    ensures var more := calls + Ended(c.stack[d].pc, n.stack[d].pc);
      if n.stack[d].pc == Plain then more == [Lock, Unlock] else InLog(n.stack[d].pc, more)
  {
  }

  /** From a to b the activity has gone into a LOG macro and not come out of it before b. */
  predicate Logs(states: seq<State>, i: nat, d: nat, a: nat, b: nat)
    requires Lives(states, i, d, a, b)
  {
    && a < b && states[a].cores[i].stack[d].pc == Plain
    && states[a + 1].cores[i].stack[d].pc == LockCalled(true)
    && (forall m | a < m < b :: states[m].cores[i].stack[d].pc != Plain)
  }

  predicate LogDone(pc: Pc, calls: seq<Op>) {
    if pc == Plain then calls == [Lock, Unlock] else InLog(pc, calls)
  }

  lemma {:induction false} LogCalls(states: seq<State>, i: nat, d: nat, a: nat, b: nat)
    requires Lives(states, i, d, a, b) && AllCalm(states, i, a, b) && Logs(states, i, d, a, b)
    ensures LogDone(states[b].cores[i].stack[d].pc, Calls(states, i, d, a, b))
    decreases b
  {
    hide AllCalm, LogDone, Calm, Calls, Ended, Lives, Logs;
    LogOrder(states, i, d, a, b);
    CallsMore(states, i, d, a, b);
    if b == a + 1 {
      LogStarts(states, i, d, a);
    } else {
      StillLogs(states, i, d, a, b);
      LogCalls(states, i, d, a, b - 1);
      LogStepAt(states[b - 1], states[b], i, d, Calls(states, i, d, a, b - 1));
    }
  }

  lemma LogOrder(states: seq<State>, i: nat, d: nat, a: nat, b: nat)
    requires Lives(states, i, d, a, b) && Logs(states, i, d, a, b)
    ensures a < b < |states|
  {}

  lemma LogStarts(states: seq<State>, i: nat, d: nat, a: nat)
    requires Lives(states, i, d, a, a + 1) && Logs(states, i, d, a, a + 1)
    ensures LogDone(states[a + 1].cores[i].stack[d].pc, Calls(states, i, d, a, a + 1))
  {
    assert Calls(states, i, d, a, a) == [];
  }

  lemma StillLogs(states: seq<State>, i: nat, d: nat, a: nat, b: nat)
    requires Lives(states, i, d, a, b) && Logs(states, i, d, a, b) && a + 1 < b
    ensures Lives(states, i, d, a, b - 1) && Logs(states, i, d, a, b - 1)
    ensures i < |states[b - 1].cores| && d < |states[b - 1].cores[i].stack|
    ensures states[b - 1].cores[i].stack[d].pc != Plain
  {}

  lemma LogStepAt(s: State, n: State, i: nat, d: nat, calls: seq<Op>)
    requires Calm(s, n, i) && d < |s.cores[i].stack| && d < |n.cores[i].stack|
    requires LogDone(s.cores[i].stack[d].pc, calls) && s.cores[i].stack[d].pc != Plain
    ensures LogDone(n.cores[i].stack[d].pc, calls + Ended(s.cores[i].stack[d].pc, n.cores[i].stack[d].pc))
  {
    hide InLog, Ended, Work;
    LogStep(s.cores[i], n.cores[i], s.word, n.word, d, calls);
  }

  /** One LOG locks once and unlocks once, so it gives back the level, and the flag if and only if
      it was entered inside a lock or with interrupts on. */
  lemma LogRestores(states: seq<State>, i: nat, d: nat, a: nat, b: nat)
    requires Run(states) && Lives(states, i, d, a, b) && AllCalm(states, i, a, b)
    requires Logs(states, i, d, a, b) && AtPlain(states[a], i, d) && AtPlain(states[b], i, d)
    ensures states[b].cores[i].level == states[a].cores[i].level
    ensures states[b].cores[i].on == states[a].cores[i].on <==> states[a].cores[i].level > 0 || states[a].cores[i].on
  {
    LogCalls(states, i, d, a, b);
    PlainToPlain(states, i, d, a, b);
    RunInv(states, a);
    RunInv(states, b);
    hide Run, AllCalm, Logs, PrintOk, Calls;
    assert CoreOk(states[a].cores[i]) && CoreOk(states[b].cores[i]);
    LockUnlock(IntsOf(states[a].cores[i]));
  }

  lemma LockUnlock(s: Ints)
    requires ApplyAll([Lock, Unlock], s).Some?
    ensures ApplyAll([Lock, Unlock], s).value == Ints(s.level, if s.level == 0 then true else s.on)
  {
    assert [Lock, Unlock][..1] == [Lock] && [Lock][..0] == [];
    assert ApplyAll([Lock], s) == Apply(Lock, s);
  }
}
