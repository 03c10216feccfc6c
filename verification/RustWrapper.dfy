/** The Rust wrapper of rust/lib.rs under any interleaving of threads: the global spin lock, the owning handles with
    their installed flag, and the native calls made under the lock. A native call is not atomic: it works on the state
    it has found when it began. */
module RustWrapper {
  import opened Common
  import opened HookState
  import opened HookRuns
  import opened NativeLibrary

  /** Where a thread is: before the compare-exchange, in the inner loop that only loads, holding the lock before the
      native call, inside it with the shared state it has found, behind it with its result, or with the flag brought
      up to date and the lock to be released. */
  datatype Phase =
    | Idle | Spinning(op: Op) | Waiting(op: Op) | Locked(op: Op) | Inside(op: Op, seen: Shared)
      | Called(op: Op, rv: int) | Settled

  /** The Rust side of a handle: the thread that owns it, since handles cannot be sent to another one, whether the
      object still exists, and its installed flag. */
  datatype Wrapper = Wrapper(owner: nat, owned: bool, flag: bool)

  /** `log` lists the operations in the order in which the lock was taken for them. */
  datatype System = System(lock: bool, threads: seq<Phase>, lib: Library, wrappers: seq<Wrapper>, log: seq<Op>)

  datatype Action = Begin(op: Op) | TryLock(spurious: bool) | Load | Enter | Leave | Settle | Unlock

  /** The process before the first handle is created. */
  function Start(mem: HookState.Memory): Library { Library(Shared(mem, {}), []) }

  function Initial(n: nat, mem: HookState.Memory): System { System(false, seq(n, _ => Idle), Start(mem), [], []) }

  predicate Owns(s: System, t: nat, h: nat) { h < |s.wrappers| && s.wrappers[h].owner == t && s.wrappers[h].owned }

  /** What the types of the wrapper guarantee about a call, and the rest of the library about its answers. */
  ghost predicate MayBegin(s: System, t: nat, op: Op) {
    match op
    case New(layout, _, _) => layout.capacity >= 1
    case Call(h, e) => Owns(s, t, h) && h < |s.lib.natives| && !e.DestroyEvent? && FairEvent(s.lib.natives[h], e)
    case Drop(h) => Owns(s, t, h) && h < |s.lib.natives|
  }

  function To(s: System, t: nat, p: Phase): System
    requires t < |s.threads|
  {
    s.(threads := s.threads[t := p])
  }

  function SetWrapper(s: System, h: nat, w: Wrapper): System
    requires h < |s.wrappers|
  {
    s.(wrappers := s.wrappers[h := w])
  }

  /** A drop takes the object away at once; while the flag is set it does nothing more. */
  function BeginStep(s: System, t: nat, op: Op): System
    requires t < |s.threads| && (op.Drop? ==> op.h < |s.wrappers|)
  {
    if op.Drop? then
      var gone := SetWrapper(s, op.h, s.wrappers[op.h].(owned := false));
      if s.wrappers[op.h].flag then gone else To(gone, t, Spinning(op))
    else To(s, t, Spinning(op))
  }

  /** The end of a native call: what it has made of the state it found becomes the state of all. */
  function LeaveStep(s: System, t: nat, op: Op, seen: Shared): System
    requires t < |s.threads|
  {
    var (lib, rv) := Do(Library(seen, s.lib.natives), op);
    var wrappers := if op.New? && rv == SUCCESS then s.wrappers + [Wrapper(t, true, false)] else s.wrappers;
    To(s.(lib := lib, wrappers := wrappers), t, Called(op, rv))
  }

  predicate ChangesFlag(op: Op, rv: int) {
    op.Call? && rv == SUCCESS && (op.event.InstallEvent? || op.event.UninstallEvent?)
  }

  /** The flag changes only when the native call has succeeded. */
  function SettleStep(s: System, t: nat, op: Op, rv: int): System
    requires t < |s.threads| && (op.Call? ==> op.h < |s.wrappers|)
  {
    if ChangesFlag(op, rv) then To(SetWrapper(s, op.h, s.wrappers[op.h].(flag := op.event.InstallEvent?)), t, Settled)
    else To(s, t, Settled)
  }

  /** One step of one thread. The compare-exchange is a weak one: it may fail although the lock is free. */
  ghost predicate Next(s: System, t: nat, a: Action, s': System) {
    && t < |s.threads|
    && match a
       case Begin(op) =>
         && s.threads[t].Idle? && MayBegin(s, t, op)
         && s' == BeginStep(s, t, op)
       case TryLock(spurious) =>
         && s.threads[t].Spinning?
         && s' == (if s.lock || spurious then To(s, t, Waiting(s.threads[t].op))
                   else To(s.(lock := true, log := s.log + [s.threads[t].op]), t, Locked(s.threads[t].op)))
       case Load =>
         && s.threads[t].Waiting?
         && s' == (if s.lock then s else To(s, t, Spinning(s.threads[t].op)))
       case Enter =>
         && s.threads[t].Locked?
         && s' == To(s, t, Inside(s.threads[t].op, s.lib.shared))
       case Leave =>
         && s.threads[t].Inside?
         && s' == LeaveStep(s, t, s.threads[t].op, s.threads[t].seen)
       case Settle =>
         && s.threads[t].Called? && (s.threads[t].op.Call? ==> s.threads[t].op.h < |s.wrappers|)
         && s' == SettleStep(s, t, s.threads[t].op, s.threads[t].rv)
       case Unlock =>
         && s.threads[t].Settled?
         && s' == To(s.(lock := false), t, Idle)
  }

  ghost predicate ValidRun(n: nat, mem: HookState.Memory, systems: seq<System>, steps: seq<(nat, Action)>) {
    && |systems| == |steps| + 1 && systems[0] == Initial(n, mem)
    && forall i :: 0 <= i < |steps| ==> Next(systems[i], steps[i].0, steps[i].1, systems[i + 1])
  }

  // ---- the lock ----

  predicate Holds(p: Phase) { p.Locked? || p.Inside? || p.Called? || p.Settled? }

  /** The native call of this thread is still to be made, or being made. */
  predicate Calling(p: Phase) { p.Locked? || p.Inside? }

  /** At most one thread holds the lock, and the lock is taken exactly while one does. */
  ghost predicate OneHolder(s: System) {
    && (forall t, u :: 0 <= t < u < |s.threads| ==> !(Holds(s.threads[t]) && Holds(s.threads[u])))
    && (s.lock <==> exists t :: 0 <= t < |s.threads| && Holds(s.threads[t]))
  }

  lemma LockKept(s: System, t: nat, a: Action, s': System)
    requires OneHolder(s) && Next(s, t, a, s')
    ensures OneHolder(s')
  {
    hide MayBegin, Do;
    var p := s'.threads[t];
    assert |s'.threads| == |s.threads| && forall u :: 0 <= u < |s.threads| && u != t ==> s'.threads[u] == s.threads[u];
    if s.lock {
      var u :| 0 <= u < |s.threads| && Holds(s.threads[u]);
      if u != t { assert Holds(s'.threads[u]); }
    }
    if Holds(p) { assert Holds(s'.threads[t]); }
  }

  // ---- calls are serial ----

  /** The operations whose native call is over. */
  ghost predicate Serial(s: System, mem: HookState.Memory) {
    if exists t :: 0 <= t < |s.threads| && Calling(s.threads[t]) then
      && s.log != []
      && s.lib == DoAll(Start(mem), s.log[..|s.log| - 1])
      && forall t :: 0 <= t < |s.threads| && Calling(s.threads[t]) ==>
      && s.threads[t].op == s.log[|s.log| - 1]
        && (s.threads[t].Inside? ==> s.threads[t].seen == s.lib.shared)
    else s.lib == DoAll(Start(mem), s.log)
  }

  lemma SerialKept(s: System, t: nat, a: Action, s': System, mem: HookState.Memory)
    requires OneHolder(s) && Serial(s, mem) && Next(s, t, a, s')
    ensures Serial(s', mem)
  {
    hide MayBegin, Do, DoAll, Serial, OneHolder;
    OthersStay(s, t, a, s');
    NobodyElse(s, t);
    if Holds(s.threads[t]) {
      HolderKeepsSerial(s, t, a, s', mem);
    } else if Calling(s'.threads[t]) {
      TakerKeepsSerial(s, t, a, s', mem);
    } else {
      OutsiderKeepsSerial(s, t, a, s', mem);
    }
  }

  ghost predicate SameOthers(s: System, t: nat, s': System) {
    |s'.threads| == |s.threads| && forall u :: 0 <= u < |s.threads| && u != t ==> s'.threads[u] == s.threads[u]
  }

  lemma OthersStay(s: System, t: nat, a: Action, s': System)
    requires Next(s, t, a, s')
    ensures SameOthers(s, t, s')
  {
    hide MayBegin, Do;
  }

  lemma NobodyElse(s: System, t: nat)
    requires OneHolder(s) && t < |s.threads|
    ensures Holds(s.threads[t]) ==> forall u :: 0 <= u < |s.threads| && u != t ==> !Holds(s.threads[u])
    ensures !s.lock ==> forall u :: 0 <= u < |s.threads| ==> !Holds(s.threads[u])
  {}

  lemma HolderKeepsSerial(s: System, t: nat, a: Action, s': System, mem: HookState.Memory)
    requires Serial(s, mem) && Next(s, t, a, s') && SameOthers(s, t, s') && Holds(s.threads[t])
    requires forall u :: 0 <= u < |s.threads| && u != t ==> !Holds(s.threads[u])
    ensures Serial(s', mem)
  {
    hide MayBegin, Do, DoAll;
    if a.Leave? {
      assert Calling(s.threads[t]);
      var n := |s.log| - 1;
      assert DoAll(Start(mem), s.log) == Do(DoAll(Start(mem), s.log[..n]), s.log[n]).0 by {
        DoAllLast(Start(mem), s.log);
      }
      assert Library(s.lib.shared, s.lib.natives) == s.lib;
    } else if a.Enter? {
      assert Calling(s.threads[t]) && Calling(s'.threads[t]);
    }
  }

  lemma DoAllLast(lib: Library, ops: seq<Op>)
    requires ops != []
    ensures DoAll(lib, ops) == Do(DoAll(lib, ops[..|ops| - 1]), ops[|ops| - 1]).0
  {}

  lemma TakerKeepsSerial(s: System, t: nat, a: Action, s': System, mem: HookState.Memory)
    requires Serial(s, mem) && Next(s, t, a, s') && SameOthers(s, t, s') && !Holds(s.threads[t])
      && Calling(s'.threads[t])
    requires !s.lock ==> forall u :: 0 <= u < |s.threads| ==> !Holds(s.threads[u])
    ensures Serial(s', mem)
  {
    hide MayBegin, Do, DoAll;
    assert s'.log[..|s.log|] == s.log;
  }

  lemma OutsiderKeepsSerial(s: System, t: nat, a: Action, s': System, mem: HookState.Memory)
    requires Serial(s, mem) && Next(s, t, a, s') && SameOthers(s, t, s') && !Holds(s.threads[t])
      && !Calling(s'.threads[t])
    ensures Serial(s', mem)
  {
    hide MayBegin, Do, DoAll;
    assert s'.lib == s.lib && s'.log == s.log;
    if exists u :: 0 <= u < |s.threads| && Calling(s.threads[u]) {
      var u :| 0 <= u < |s.threads| && Calling(s.threads[u]);
      assert Calling(s'.threads[u]);
    }
  }

  // ---- wrappers and their native handles ----

  /** Between a successful native call and the update of the flag, the flag is out of date. */
  predicate Updating(p: Phase, h: nat) { p.Called? && ChangesFlag(p.op, p.rv) && p.op.h == h }

  predicate HandleInOrder(s: System, h: nat)
    requires h < |s.wrappers| && h < |s.lib.natives|
  {
    var w, d := s.wrappers[h], s.lib.natives[h].local;
    && w.owner < |s.threads|
    && (w.owned ==> d.live)
    && (d.installed ==> d.live)
    && (if Updating(s.threads[w.owner], h) then d.installed == s.threads[w.owner].op.event.InstallEvent?
        else w.flag == d.installed)
  }

  /** A handle that is being dropped has no Rust object any more and is not installed. */
  predicate BeingDropped(s: System, t: nat, h: nat) {
    && h < |s.wrappers| && h < |s.lib.natives| && s.wrappers[h].owner == t && !s.wrappers[h].owned
    && s.lib.natives[h].local.live && !s.lib.natives[h].local.installed && !s.wrappers[h].flag
  }

  ghost predicate ThreadInOrder(s: System, t: nat)
    requires t < |s.threads|
  {
    var p := s.threads[t];
    if p.Idle? || p.Settled? then true
    else if p.Called? then p.op.Call? ==> Owns(s, t, p.op.h)
    else if p.op.Drop? then BeingDropped(s, t, p.op.h)
    else MayBegin(s, t, p.op)
  }

  ghost predicate InOrder(s: System) {
    && OneHolder(s) && |s.wrappers| == |s.lib.natives|
    && (forall h :: 0 <= h < |s.wrappers| ==> HandleInOrder(s, h))
    && (forall t :: 0 <= t < |s.threads| ==> ThreadInOrder(s, t))
  }

  /** A step leaves the handles of other threads, the ownership and the other threads alone. */
  ghost predicate OnlyOwn(s: System, t: nat, s': System) {
    && |s'.threads| == |s.threads| && t < |s.threads|
    && (forall u :: 0 <= u < |s.threads| && u != t ==> s'.threads[u] == s.threads[u])
    && |s.wrappers| == |s.lib.natives| <= |s'.wrappers| == |s'.lib.natives|
    && (forall h :: 0 <= h < |s.wrappers| ==> s'.wrappers[h].owner == s.wrappers[h].owner)
    && (forall h :: 0 <= h < |s.wrappers| && s.wrappers[h].owner != t ==>
      s'.wrappers[h] == s.wrappers[h] && s'.lib.natives[h] == s.lib.natives[h])
    && (forall h :: |s.wrappers| <= h < |s'.wrappers| ==> s'.wrappers[h].owner == t)
  }

  /** What a native call does to the list of handles. */
  lemma DoesItsHandle(lib: Library, op: Op)
    ensures var (v, rv) := Do(lib, op);
      && |v.natives| == |lib.natives| + (if op.New? && rv == SUCCESS then 1 else 0)
      && (forall h :: 0 <= h < |lib.natives| && (op.New? || h != op.h) ==> v.natives[h] == lib.natives[h])
      && (op.New? && rv == SUCCESS ==> v.natives[|lib.natives|].local == NewLocal(op.layout))
  {
    hide Advance, Apply, ValidPages;
  }

  lemma StepIsOwn(s: System, t: nat, a: Action, s': System)
    requires t < |s.threads| && |s.wrappers| == |s.lib.natives| && ThreadInOrder(s, t) && Next(s, t, a, s')
    ensures OnlyOwn(s, t, s')
  {
    hide FairEvent, Do;
    if a.Leave? { DoesItsHandle(Library(s.threads[t].seen, s.lib.natives), s.threads[t].op); }
  }

  lemma OtherThreadKept(s: System, t: nat, s': System, u: nat)
    requires OnlyOwn(s, t, s') && u < |s.threads| && u != t && ThreadInOrder(s, u)
    ensures ThreadInOrder(s', u)
  {
    hide FairEvent;
  }

  /** What the native calls do to the installed flag of the native handle. */
  lemma NativeFlag(before: Run, e: Event)
    requires ValidPages(before.state.pages, before.state.layout)
    ensures var (s, rv) := Apply(before.state, e);
      && (e.PrepareEvent? ==> s.installed == before.state.installed)
      && (e.InstallEvent? ==> s.installed == (before.state.installed || rv == SUCCESS))
      && (e.UninstallEvent? ==> s.installed == (before.state.installed && rv != SUCCESS))
      && (e.DestroyEvent? ==> s.installed == before.state.installed && (s.live ==> before.state.live))
      && (e.DestroyEvent? && before.state.installed ==> s == before.state)
      && (!e.DestroyEvent? ==> s.live == before.state.live)
  {
    hide Perform, Actions, Bases, FindPage, ValidPages;
  }

  /** And what a whole call does. */
  lemma CallFlag(lib: Library, op: Op)
    requires !op.New? && op.h < |lib.natives|
    ensures var (v, rv) := Do(lib, op); var d, e := lib.natives[op.h].local, v.natives[op.h].local;
      && |v.natives| == |lib.natives|
      && (op.Call? && op.event.PrepareEvent? ==> e.installed == d.installed)
      && (op.Call? && op.event.InstallEvent? ==> e.installed == (d.installed || rv == SUCCESS))
      && (op.Call? && op.event.UninstallEvent? ==> e.installed == (d.installed && rv != SUCCESS))
      && (op.Call? && !op.event.DestroyEvent? ==> e.live == d.live)
      && (op.Drop? ==> e.installed == d.installed && (d.installed ==> e == d))
      && v.natives[op.h].region == lib.natives[op.h].region
  {
    if Callable(lib, op) {
      var before := View(lib.shared, lib.natives[op.h].local);
      NativeFlag(before, EventOf(op));
      AdvanceState(before, EventOf(op));
      if op.Drop? { DestroyKeepsHistory(before); }
      hide Advance, Apply, ValidPages;
    }
  }

  lemma DestroyKeepsHistory(r: Run)
    requires ValidPages(r.state.pages, r.state.layout)
    ensures r.state.installed ==> Advance(r, DestroyEvent) == r
  {}

  lemma OwnHandleKept(s: System, t: nat, a: Action, s': System, h: nat)
    requires t < |s.threads| && |s.wrappers| == |s.lib.natives| && Next(s, t, a, s') && ThreadInOrder(s, t)
    requires forall k :: 0 <= k < |s.wrappers| ==> HandleInOrder(s, k)
    requires OnlyOwn(s, t, s') && h < |s'.wrappers| && s'.wrappers[h].owner == t
    ensures HandleInOrder(s', h)
  {
    hide FairEvent, Do;
    if h < |s.wrappers| { assert HandleInOrder(s, h); }
    if a.Leave? {
      var op := s.threads[t].op;
      var lib := Library(s.threads[t].seen, s.lib.natives);
      DoesItsHandle(lib, op);
      if !op.New? { CallFlag(lib, op); }
    }
  }

  lemma OwnThreadKept(s: System, t: nat, a: Action, s': System)
    requires t < |s.threads| && |s.wrappers| == |s.lib.natives| && Next(s, t, a, s') && ThreadInOrder(s, t)
    requires forall k :: 0 <= k < |s.wrappers| ==> HandleInOrder(s, k)
    ensures ThreadInOrder(s', t)
  {
    hide FairEvent, Do;
    if a.Begin? && !a.op.New? { assert HandleInOrder(s, a.op.h); }
  }

  lemma NextKeepsOrder(s: System, t: nat, a: Action, s': System)
    requires InOrder(s) && Next(s, t, a, s')
    ensures InOrder(s')
  {
    hide HandleInOrder, ThreadInOrder, OneHolder, MayBegin, Do;
    assert ThreadInOrder(s, t);
    LockKept(s, t, a, s');
    StepIsOwn(s, t, a, s');
    OwnThreadKept(s, t, a, s');
    forall u | 0 <= u < |s'.threads| ensures ThreadInOrder(s', u) {
      if u != t { OtherThreadKept(s, t, s', u); }
    }
    forall h | 0 <= h < |s'.wrappers| ensures HandleInOrder(s', h) {
      if s'.wrappers[h].owner != t {
        OtherHandleKept(s, t, s', h);
      } else {
        OwnHandleKept(s, t, a, s', h);
      }
    }
  }

  lemma OtherHandleKept(s: System, t: nat, s': System, h: nat)
    requires OnlyOwn(s, t, s') && h < |s.wrappers| && s.wrappers[h].owner != t && HandleInOrder(s, h)
    ensures HandleInOrder(s', h)
  {}

  // ---- the log is fair ----

  /** The addresses of each new handle are not those of one that lives: the one thing asked of the program. */
  ghost predicate NewsApart(mem: HookState.Memory, log: seq<Op>) {
    forall i :: 0 <= i < |log| && log[i].New? ==> Fair(DoAll(Start(mem), log[..i]), log[i])
  }

  ghost predicate LogFair(s: System, mem: HookState.Memory) { NewsApart(mem, s.log) ==> AllFair(Start(mem), s.log) }

  lemma LogFairKept(s: System, t: nat, a: Action, s': System, mem: HookState.Memory)
    requires InOrder(s) && Serial(s, mem) && LogFair(s, mem) && Next(s, t, a, s')
    ensures LogFair(s', mem)
  {
    hide DoAll, Do, HandleInOrder, FairEvent;
    if s'.log != s.log && NewsApart(mem, s'.log) {
      var op, n := s.threads[t].op, |s.log|;
      assert forall i :: 0 <= i <= n ==> s'.log[..i] == s.log[..i];
      assert forall i :: 0 <= i < n ==> s'.log[i] == s.log[i];
      assert s.log[..n] == s.log;
      assert forall u :: 0 <= u < |s.threads| ==> !Calling(s.threads[u]);
      assert s.lib == DoAll(Start(mem), s.log);
      assert NewsApart(mem, s.log);
      assert ThreadInOrder(s, t);
      if op.Call? { OwnedLives(s, op.h); }
      if op.New? { assert Fair(DoAll(Start(mem), s'.log[..n]), s'.log[n]); }
      assert Fair(s.lib, op);
    }
  }

  lemma OwnedLives(s: System, h: nat)
    requires InOrder(s) && h < |s.wrappers| && s.wrappers[h].owned
    ensures s.lib.natives[h].local.live
  {
    assert HandleInOrder(s, h);
  }

  // ---- every run ----

  ghost predicate Invariants(s: System, mem: HookState.Memory) { InOrder(s) && Serial(s, mem) && LogFair(s, mem) }

  lemma {:induction false} EveryRunInOrder(n: nat, mem: HookState.Memory, systems: seq<System>,
                                           steps: seq<(nat, Action)>)
    requires ValidRun(n, mem, systems, steps)
    ensures Invariants(systems[|steps|], mem)
    decreases |steps|
  {
    hide InOrder, Serial, LogFair, Next;
    var k := |steps|;
    if k == 0 {
      InitialInOrder(n, mem);
    } else {
      assert ValidRun(n, mem, systems[..k], steps[..k - 1]);
      EveryRunInOrder(n, mem, systems[..k], steps[..k - 1]);
      var s, t, a, s' := systems[k - 1], steps[k - 1].0, steps[k - 1].1, systems[k];
      OrderMeansOneHolder(s);
      NextKeepsOrder(s, t, a, s');
      SerialKept(s, t, a, s', mem);
      LogFairKept(s, t, a, s', mem);
    }
  }

  lemma OrderMeansOneHolder(s: System)
    requires InOrder(s)
    ensures OneHolder(s)
  {}

  lemma InitialInOrder(n: nat, mem: HookState.Memory)
    ensures Invariants(Initial(n, mem), mem)
  {}

  lemma LibraryStaysInOrder(s: System, mem: HookState.Memory)
    requires Invariants(s, mem) && NewsApart(mem, s.log)
    ensures LibraryInOrder(s.lib)
  {
    hide LibraryInOrder, Fair, DoAll, OneHolder, InOrder;
    StartInOrder(mem);
    if exists t :: 0 <= t < |s.threads| && Calling(s.threads[t]) {
      var n := |s.log| - 1;
      assert forall i :: 0 <= i < n ==> s.log[..n][..i] == s.log[..i];
      assert AllFair(Start(mem), s.log[..n]);
      AllCallsKeepOrder(Start(mem), s.log[..n]);
    } else {
      AllCallsKeepOrder(Start(mem), s.log);
    }
  }

  lemma StartInOrder(mem: HookState.Memory)
    ensures LibraryInOrder(Start(mem))
  {}

  // ---- the main theorems ----

  /** Mutual exclusion, in every run of any number of threads: at most one thread is between taking and releasing the
      lock, and the lock is free exactly when none is. */
  lemma MutualExclusion(n: nat, mem: HookState.Memory, systems: seq<System>, steps: seq<(nat, Action)>, t: nat, u: nat)
    requires ValidRun(n, mem, systems, steps)
    requires var s := systems[|steps|]; t < |s.threads| && u < |s.threads|
    ensures var s := systems[|steps|];
      && (Holds(s.threads[t]) && Holds(s.threads[u]) ==> t == u)
      && (!s.lock ==> !Holds(s.threads[t]))
      && (s.lock ==> exists v :: 0 <= v < |s.threads| && Holds(s.threads[v]))
  {
    EveryRunInOrder(n, mem, systems, steps);
  }

  /** Native calls are serial: though each of them works on the shared code and pages as it has found them, the state
      is always the one that the calls lead to when they are made one after the other, in the order in which the lock
      was taken; the last one in this order may still be under way, and nothing has changed since it began. */
  lemma CallsAreSerial(n: nat, mem: HookState.Memory, systems: seq<System>, steps: seq<(nat, Action)>)
    requires ValidRun(n, mem, systems, steps)
    ensures var s := systems[|steps|];
      if exists t :: 0 <= t < |s.threads| && Calling(s.threads[t]) then
        s.log != [] && s.lib == DoAll(Start(mem), s.log[..|s.log| - 1])
      else s.lib == DoAll(Start(mem), s.log)
    ensures var s := systems[|steps|];
      forall t :: 0 <= t < |s.threads| && s.threads[t].Inside? ==> s.threads[t].seen == s.lib.shared
  {
    hide DoAll, InOrder, LogFair;
    EveryRunInOrder(n, mem, systems, steps);
    var s := systems[|steps|];
    forall t | 0 <= t < |s.threads| && s.threads[t].Inside? ensures s.threads[t].seen == s.lib.shared {
      assert Calling(s.threads[t]);
    }
  }

  /** No page is ever on the lists of two handles, whichever threads they belong to, and the pages handed out are
      those on some handle's list, none lost. */
  lemma PagesHaveOneOwner(n: nat, mem: HookState.Memory, systems: seq<System>, steps: seq<(nat, Action)>)
    requires ValidRun(n, mem, systems, steps) && NewsApart(mem, systems[|steps|].log)
    ensures var lib := systems[|steps|].lib;
      && (forall h, k ::
        0 <= h < k < |lib.natives| ==> Bases(lib.natives[h].local.pages) !! Bases(lib.natives[k].local.pages))
      && (forall b ::
        b in lib.shared.mapped <==> exists h :: 0 <= h < |lib.natives| && b in Bases(lib.natives[h].local.pages))
  {
    EveryRunInOrder(n, mem, systems, steps);
    var lib := systems[|steps|].lib;
    LibraryStaysInOrder(systems[|steps|], mem);
    forall h | 0 <= h < |lib.natives| ensures Bases(lib.natives[h].local.pages) <= lib.shared.mapped {
      MappedByOwner(lib, h);
    }
    hide NativeInOrder, Bases;
  }

  /** Whenever the owner of a handle is not between a successful native call and the update of the flag, the flag of the
      wrapper is the native one, however many calls have failed. */
  lemma FlagTellsInstalled(n: nat, mem: HookState.Memory, systems: seq<System>, steps: seq<(nat, Action)>, h: nat)
    requires ValidRun(n, mem, systems, steps) && h < |systems[|steps|].wrappers|
    ensures var s := systems[|steps|]; var w := s.wrappers[h];
      && h < |s.lib.natives| && w.owner < |s.threads|
      && (!Updating(s.threads[w.owner], h) ==> w.flag == s.lib.natives[h].local.installed)
  {
    EveryRunInOrder(n, mem, systems, steps);
    assert HandleInOrder(systems[|steps|], h);
  }

  /** A handle that is installed is never destroyed; and a drop that reaches the native call finds a living handle that
      is not installed, which it destroys, with all its pages. */
  lemma DropNeverDestroysInstalled(n: nat, mem: HookState.Memory, systems: seq<System>, steps: seq<(nat, Action)>,
                                   h: nat, t: nat)
    requires ValidRun(n, mem, systems, steps) && h < |systems[|steps|].wrappers|
    ensures var s := systems[|steps|];
      && h < |s.lib.natives| && (s.lib.natives[h].local.installed ==> s.lib.natives[h].local.live)
      && (t < |s.threads| && Calling(s.threads[t]) && s.threads[t].op == Drop(h) && NewsApart(mem, s.log) ==>
        var (lib, rv) := Do(s.lib, Drop(h));
        && s.lib.natives[h].local.live && rv == SUCCESS && !lib.natives[h].local.live
        && lib.shared.mapped == s.lib.shared.mapped - Bases(s.lib.natives[h].local.pages))
  {
    EveryRunInOrder(n, mem, systems, steps);
    var s := systems[|steps|];
    assert HandleInOrder(s, h);
    if t < |s.threads| && Calling(s.threads[t]) && s.threads[t].op == Drop(h) && NewsApart(mem, s.log) {
      assert ThreadInOrder(s, t);
      LibraryStaysInOrder(s, mem);
      DropDestroys(s.lib, h);
    }
  }

  lemma DropDestroys(lib: Library, h: nat)
    requires LibraryInOrder(lib) && h < |lib.natives| && lib.natives[h].local.live && !lib.natives[h].local.installed
    ensures var (v, rv) := Do(lib, Drop(h));
      && rv == SUCCESS && h < |v.natives| == |lib.natives| && !v.natives[h].local.live
      && v.shared.mem == lib.shared.mem
      && v.shared.mapped == lib.shared.mapped - Bases(lib.natives[h].local.pages)
  {
    assert NativeInOrder(lib.shared, lib.natives[h]);
    InvariantMeansOrder(View(lib.shared, lib.natives[h].local), lib.natives[h].region, lib.natives[h].orig);
    hide NativeInOrder, Bases;
  }

  /** When the wrapper says that a handle is not installed, the code at its targets, in the memory all handles share, is
      as the handle found it, whatever other threads have done to other targets; unless a half-failed install has not
      been followed by a successful call yet, or had a prepare behind it. */
  lemma NotInstalledIsOriginal(n: nat, mem: HookState.Memory, systems: seq<System>, steps: seq<(nat, Action)>, h: nat)
    requires ValidRun(n, mem, systems, steps) && NewsApart(mem, systems[|steps|].log) && h < |systems[|steps|].wrappers|
    requires var s := systems[|steps|]; var w := s.wrappers[h];
      && w.owned && !w.flag && w.owner < |s.threads| && !Updating(s.threads[w.owner], h)
      && h < |s.lib.natives| && s.lib.natives[h].local.careful && !s.lib.natives[h].local.torn
    ensures var s := systems[|steps|]; var d := s.lib.natives[h];
      forall x :: d.region(x) ==> s.lib.shared.mem(x) == d.orig(x)
  {
    EveryRunInOrder(n, mem, systems, steps);
    var s := systems[|steps|];
    assert HandleInOrder(s, h);
    LibraryStaysInOrder(s, mem);
    assert NativeInOrder(s.lib.shared, s.lib.natives[h]);
  }

  // ---- progress ----

  /** One thread alone takes these steps. */
  ghost predicate Alone(s: System, t: nat, actions: seq<Action>, s': System)
    decreases |actions|
  {
    if actions == [] then s' == s else exists m :: Next(s, t, actions[0], m) && Alone(m, t, actions[1..], s')
  }

  lemma OneMore(s: System, t: nat, a: Action, m: System, actions: seq<Action>, s': System)
    requires Next(s, t, a, m) && Alone(m, t, actions, s')
    ensures Alone(s, t, [a] + actions, s')
  {
    assert ([a] + actions)[0] == a && ([a] + actions)[1..] == actions;
  }

  /** While the lock is free, a waiting thread gets it in at most two steps of its own. */
  lemma FreeLockIsTaken(s: System, t: nat) returns (own: seq<Action>, s': System)
    requires t < |s.threads| && (s.threads[t].Spinning? || s.threads[t].Waiting?) && !s.lock
    ensures |own| <= 2 && Alone(s, t, own, s')
    ensures var op := s.threads[t].op;
      s' == System(true, s.threads[t := Locked(op)], s.lib, s.wrappers, s.log + [op])
  {
    var op := s.threads[t].op;
    var m := if s.threads[t].Waiting? then To(s, t, Spinning(op)) else s;
    s' := To(m.(lock := true, log := m.log + [op]), t, Locked(op));
    assert Next(m, t, TryLock(false), s') && Alone(s', t, [], s');
    OneMore(m, t, TryLock(false), s', [], s');
    own := [TryLock(false)] + [];
    if s.threads[t].Waiting? {
      OneMore(s, t, Load, m, own, s');
      own := [Load] + own;
    }
  }

  function StepsLeft(p: Phase): nat
    requires Holds(p)
  {
    match p
    case Locked(_) => 4
    case Inside(_, _) => 3
    case Called(_, _) => 2
    case _ => 1
  }

  /** The thread that holds the lock can go on by itself until it has released it. */
  lemma HolderReleases(s: System, u: nat) returns (held: seq<Action>, m: System)
    requires InOrder(s) && u < |s.threads| && Holds(s.threads[u])
    ensures |held| <= StepsLeft(s.threads[u]) && Alone(s, u, held, m) && !m.lock
    ensures |m.threads| == |s.threads| && forall v :: 0 <= v < |s.threads| && v != u ==> m.threads[v] == s.threads[v]
    ensures m.log == s.log
    decreases StepsLeft(s.threads[u])
  {
    hide Do, OneHolder, HandleInOrder, MayBegin;
    var p := s.threads[u];
    assert ThreadInOrder(s, u);
    var a := if p.Locked? then Enter else if p.Inside? then Leave else if p.Called? then Settle else Unlock;
    var next :=
      if p.Locked? then To(s, u, Inside(p.op, s.lib.shared))
      else if p.Inside? then LeaveStep(s, u, p.op, p.seen)
      else if p.Called? then SettleStep(s, u, p.op, p.rv)
      else To(s.(lock := false), u, Idle);
    assert Next(s, u, a, next);
    hide ThreadInOrder;
    if a.Unlock? {
      m := next;
      assert Alone(m, u, [], m);
      OneMore(s, u, a, m, [], m);
      held := [a] + [];
    } else {
      NextKeepsOrder(s, u, a, next);
      held, m := HolderReleases(next, u);
      OneMore(s, u, a, next, held, m);
      held := [a] + held;
    }
  }

  /** No thread waits for ever because of the lock itself: in every run, at most four steps of the thread that holds it,
      none if it is free, and then at most two of the waiting thread let the waiting thread in. */
  lemma WaitingThreadCanEnter(n: nat, mem: HookState.Memory, systems: seq<System>, steps: seq<(nat, Action)>, t: nat)
    returns (u: nat, held: seq<Action>, m: System, own: seq<Action>, s': System)
    requires ValidRun(n, mem, systems, steps)
    requires var s := systems[|steps|]; t < |s.threads| && (s.threads[t].Spinning? || s.threads[t].Waiting?)
    ensures var s := systems[|steps|];
      && (if s.lock then u < |s.threads| && Holds(s.threads[u]) && u != t && |held| <= 4 else held == [])
      && |own| <= 2
      && Alone(s, u, held, m) && Alone(m, t, own, s')
      && t < |s'.threads| && s'.threads[t] == Locked(s.threads[t].op)
  {
    EveryRunInOrder(n, mem, systems, steps);
    var s := systems[|steps|];
    u, held, m := t, [], s;
    if s.lock {
      u :| u < |s.threads| && Holds(s.threads[u]);
      held, m := HolderReleases(s, u);
    }
    own, s' := FreeLockIsTaken(m, t);
  }
}
