/** What the calls of the Rust wrapper lead to, whatever the other threads are doing when they begin. */
module RustOutcomes {
  import opened Common
  import HookRuns
  import HookState
  import opened NativeLibrary
  import opened RustWrapper

  /** A drop takes the Rust object away. With the flag set, nothing else happens; with the flag clear, the owner goes to
      wait for the lock. Any other call goes to wait for the lock and changes nothing before it has it. */
  lemma BeginningExactly(s: System, t: nat, op: Op, s': System)
    requires t < |s.threads| && Next(s, t, Begin(op), s') && |s.wrappers| == |s.lib.natives|
    ensures s'.lib == s.lib && s'.lock == s.lock && s'.log == s.log && |s'.wrappers| == |s.wrappers|
    ensures s'.threads == s.threads[t := if op.Drop? && s.wrappers[op.h].flag then Idle else Spinning(op)]
    ensures forall h :: 0 <= h < |s.wrappers| ==>
      s'.wrappers[h] == Wrapper(s.wrappers[h].owner, s.wrappers[h].owned && op != Drop(h), s.wrappers[h].flag)
  {
    hide FairEvent;
    assert s.threads == s.threads[t := Idle];
  }

  /** What a native call is, by itself: the creation of a handle succeeds when the system lets it, and any other call is
      the one of the life cycle on the handle and on what all handles share. */
  lemma NativeCallExactly(lib: Library, op: Op)
    requires Callable(lib, op)
    ensures var (v, rv) := Do(lib, op); op.New? ==>
      && v.shared == lib.shared && rv == (if op.succeeds then SUCCESS else OUT_OF_MEMORY)
      && v.natives[..|lib.natives|] == lib.natives && |v.natives| == |lib.natives| + (if op.succeeds then 1 else 0)
    ensures var (v, rv) := Do(lib, op); !op.New? ==>
      && |v.natives| == |lib.natives|
      && (View(v.shared, v.natives[op.h].local).state, rv)
        == HookRuns.Apply(View(lib.shared, lib.natives[op.h].local).state, EventOf(op))
  {
    if !op.New? { HookRuns.AdvanceState(View(lib.shared, lib.natives[op.h].local), EventOf(op)); }
    hide HookRuns.Advance, HookRuns.Apply, HookState.ValidPages;
  }

  lemma {:induction false} AloneKeeps(s: System, t: nat, actions: seq<Action>, s': System,
                                      mem: HookState.Memory)
    requires Invariants(s, mem) && Alone(s, t, actions, s')
    ensures Invariants(s', mem)
    decreases |actions|
  {
    hide InOrder, Serial, LogFair, Next;
    if actions != [] {
      var m :| Next(s, t, actions[0], m) && Alone(m, t, actions[1..], s');
      OrderMeansOneHolder(s);
      NextKeepsOrder(s, t, actions[0], m);
      SerialKept(s, t, actions[0], m, mem);
      LogFairKept(s, t, actions[0], m, mem);
      AloneKeeps(m, t, actions[1..], s', mem);
    }
  }

  lemma {:induction false} AloneJoined(s: System, t: nat, first: seq<Action>, m: System,
                                       rest: seq<Action>, s': System)
    requires Alone(s, t, first, m) && Alone(m, t, rest, s')
    ensures Alone(s, t, first + rest, s')
    decreases |first|
  {
    hide Next;
    if first == [] {
      assert first + rest == rest;
    } else {
      var n :| Next(s, t, first[0], n) && Alone(n, t, first[1..], m);
      AloneJoined(n, t, first[1..], m, rest, s');
      assert (first + rest)[0] == first[0] && (first + rest)[1..] == first[1..] + rest;
    }
  }

  /** The native call of thread `t` has been made by itself: the library is as it leaves it, a new handle has got its
      wrapper, the wrappers belong to whom they did, the lock is free and the thread idle. */
  ghost predicate CallMade(s: System, t: nat, op: Op, s': System) {
    var (lib, rv) := Do(s.lib, op);
    && t < |s.threads| && s'.lib == lib && !s'.lock && s'.threads == s.threads[t := Idle]
    && |s'.wrappers| == |s.wrappers| + (if op.New? && rv == SUCCESS then 1 else 0)
    && (op.New? && rv == SUCCESS ==> s'.wrappers[|s.wrappers|] == Wrapper(t, true, false))
    && SameOwners(s.wrappers, s'.wrappers)
  }

  ghost predicate SameOwners(before: seq<Wrapper>, after: seq<Wrapper>)
    requires |before| <= |after|
  {
    forall h :: 0 <= h < |before| ==> after[h].owner == before[h].owner && after[h].owned == before[h].owned
  }

  /** The thread that has just taken the lock makes the native call and gives the lock back. */
  lemma LockedCallCompletes(s: System, t: nat) returns (own: seq<Action>, s': System)
    requires InOrder(s) && t < |s.threads| && s.threads[t].Locked?
    ensures |own| == 4 && Alone(s, t, own, s') && CallMade(s, t, s.threads[t].op, s') && s'.log == s.log
  {
    hide Do, OneHolder, HandleInOrder, FairEvent;
    var op := s.threads[t].op;
    assert ThreadInOrder(s, t);
    var inside := To(s, t, Inside(op, s.lib.shared));
    var called := LeaveStep(inside, t, op, s.lib.shared);
    var settled := SettleStep(called, t, op, called.threads[t].rv);
    s' := To(settled.(lock := false), t, Idle);
    assert Library(s.lib.shared, s.lib.natives) == s.lib;
    assert Next(s, t, Enter, inside);
    assert Next(inside, t, Leave, called);
    assert Next(called, t, Settle, settled);
    assert Next(settled, t, Unlock, s');
    assert Alone(s', t, [], s');
    hide Next, InOrder, ThreadInOrder;
    OneMore(settled, t, Unlock, s', [], s');
    OneMore(called, t, Settle, settled, [Unlock] + [], s');
    OneMore(inside, t, Leave, called, [Settle] + ([Unlock] + []), s');
    OneMore(s, t, Enter, inside, [Leave] + ([Settle] + ([Unlock] + [])), s');
    own := [Enter] + ([Leave] + ([Settle] + ([Unlock] + [])));
  }

  /** At most four steps of the thread that holds the lock, none if it is free, and then at most six of thread `t`. */
  ghost predicate LetThrough(s: System, u: nat, held: seq<Action>, m: System, t: nat, own: seq<Action>, s': System) {
    && (if s.lock then u < |s.threads| && Holds(s.threads[u]) && u != t && |held| <= 4 else held == [])
    && |own| <= 6 && Alone(s, u, held, m) && Alone(m, t, own, s')
  }

  /** The flags of the wrappers of the thread are those of their native handles. */
  ghost predicate FlagsTell(s: System, t: nat) {
    |s.wrappers| == |s.lib.natives| && forall h :: 0 <= h < |s.wrappers| && s.wrappers[h].owner == t ==>
      s.wrappers[h].flag == s.lib.natives[h].local.installed
  }

  /** Every call that waits is made and comes back: in every run, the thread that holds the lock and then the waiting
      thread can go on by themselves until the native call has done its work, the flags of the waiting thread's wrappers
      are up to date, and the lock is free. */
  lemma WaitingCallCompletes(n: nat, mem: HookState.Memory, systems: seq<System>, steps: seq<(nat, Action)>, t: nat)
    returns (u: nat, held: seq<Action>, m: System, own: seq<Action>, s': System)
    requires ValidRun(n, mem, systems, steps)
    requires var s := systems[|steps|]; t < |s.threads| && (s.threads[t].Spinning? || s.threads[t].Waiting?)
    ensures LetThrough(systems[|steps|], u, held, m, t, own, s')
    ensures t < |m.threads| && m.threads[t] == systems[|steps|].threads[t] && m.log == systems[|steps|].log
    ensures CallMade(m, t, m.threads[t].op, s') && FlagsTell(s', t) && s'.log == m.log + [m.threads[t].op]
    ensures Invariants(m, mem) && Invariants(s', mem)
  {
    hide Do, InOrder, Next, Serial, LogFair, DoAll;
    EveryRunInOrder(n, mem, systems, steps);
    var s := systems[|steps|];
    u, held, m := t, [], s;
    OrderMeansOneHolder(s);
    if s.lock {
      u :| u < |s.threads| && Holds(s.threads[u]);
      held, m := HolderReleases(s, u);
    }
    AloneKeeps(s, u, held, m, mem);
    var first, taken := FreeLockIsTaken(m, t);
    AloneKeeps(m, t, first, taken, mem);
    var rest;
    rest, s' := LockedCallCompletes(taken, t);
    AloneKeeps(taken, t, rest, s', mem);
    AloneJoined(m, t, first, taken, rest, s');
    own := first + rest;
    FlagsAreRight(s', t);
  }

  lemma FlagsAreRight(s: System, t: nat)
    requires InOrder(s) && t < |s.threads| && s.threads[t].Idle?
    ensures FlagsTell(s, t)
  {
    forall h | 0 <= h < |s.wrappers| && s.wrappers[h].owner == t
      ensures s.wrappers[h].flag == s.lib.natives[h].local.installed
    {
      assert HandleInOrder(s, h);
    }
  }

  /** A drop that began with the flag clear ends, in the same way, with a handle that is destroyed: it does not live any
      more, and its pages, and those alone, are given back. */
  lemma DropCompletes(n: nat, mem: HookState.Memory, systems: seq<System>, steps: seq<(nat, Action)>, t: nat, h: nat)
    returns (u: nat, held: seq<Action>, m: System, own: seq<Action>, s': System)
    requires ValidRun(n, mem, systems, steps) && NewsApart(mem, systems[|steps|].log)
    requires var s := systems[|steps|];
      t < |s.threads| && (s.threads[t] == Spinning(Drop(h)) || s.threads[t] == Waiting(Drop(h)))
    ensures LetThrough(systems[|steps|], u, held, m, t, own, s') && !s'.lock
    ensures h < |m.lib.natives| == |s'.lib.natives| && m.lib.natives[h].local.live && !s'.lib.natives[h].local.live
    ensures s'.lib.shared.mapped == m.lib.shared.mapped - HookState.Bases(m.lib.natives[h].local.pages)
    ensures s'.lib.shared.mem == m.lib.shared.mem
  {
    hide Do, InOrder, Next, Serial, LogFair, DoAll;
    u, held, m, own, s' := WaitingCallCompletes(n, mem, systems, steps, t);
    LibraryStaysInOrder(m, mem);
    DroppedIsLive(m, t, h);
    DropDestroys(m.lib, h);
  }

  lemma DroppedIsLive(s: System, t: nat, h: nat)
    requires InOrder(s) && t < |s.threads| && (s.threads[t] == Spinning(Drop(h)) || s.threads[t] == Waiting(Drop(h)))
    ensures h < |s.lib.natives| && s.lib.natives[h].local.live && !s.lib.natives[h].local.installed
  {
    assert ThreadInOrder(s, t);
  }
}
