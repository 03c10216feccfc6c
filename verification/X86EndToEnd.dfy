/** Allocator, translator, fixer, life cycle and routing together, on x86-64: after a finished install, calls of a
    prepared function go where its prepare said. */
module X86EndToEnd {
  import opened Common
  import opened X86Code
  import X86Limits
  import X86Relocation
  import X86Relocator
  import opened X86Fix
  import opened X86Routing
  import HookCaller
  import HookState
  import opened HookOrigins
  import HookRuns
  import UnixPages

  // ---- the entry behind a transit address ----

  /** The slot of a page whose transit code is at the address. */
  function SlotInPage(page: HookState.Page, a: int): (i: Option<nat>)
    ensures i.Some? ==> i.value < |page.entries| && TransitAddr(page.base, i.value) == a
    ensures i.None? ==> forall k :: 0 <= k < |page.entries| ==> TransitAddr(page.base, k) != a
  {
    var off := a - page.base - PAGE_HEADER;
    if off >= 0 && off % ENTRY_SIZE == 0 && off / ENTRY_SIZE < |page.entries| then Some(off / ENTRY_SIZE) else None
  }

  /** The slot whose transit code is at the address, in the whole list. */
  function SlotAt(pages: seq<HookState.Page>, a: int): (r: Option<(nat, nat)>)
    ensures r.Some? ==> r.value.0 < |pages| && SlotInPage(pages[r.value.0], a) == Some(r.value.1)
    ensures r.None? ==> forall p :: 0 <= p < |pages| ==> SlotInPage(pages[p], a).None?
  {
    if pages == [] then None
    else
      var i := SlotInPage(pages[0], a);
      if i.Some? then Some((0, i.value))
      else
        var r := SlotAt(pages[1..], a);
        assert forall p :: 1 <= p < |pages| ==> pages[p] == pages[1..][p - 1];
        if r.Some? then Some((r.value.0 + 1, r.value.1)) else None
  }

  /** A page of the allocator: aligned, within the address space. */
  predicate IsPage(pageSize: nat, base: int)
    requires pageSize > 0
  {
    0 <= base && base % pageSize == 0 && base + pageSize <= TWO64
  }

  /** The pages are distinct, and their entries lie inside them. */
  ghost predicate ListInOrder(pages: seq<HookState.Page>, pageSize: nat)
    requires pageSize > PAGE_HEADER
  {
    && (forall p ::
      0 <= p < |pages| ==> IsPage(pageSize, pages[p].base) && |pages[p].entries| <= EntriesInPage(pageSize))
    && (forall p, q :: 0 <= p < q < |pages| ==> pages[p].base != pages[q].base)
  }

  lemma AlignedApart(pageSize: nat, a: int, b: int)
    requires pageSize > 0 && a % pageSize == 0 && b % pageSize == 0 && a < b
    ensures a + pageSize <= b
  {
    UnixPages.AlignedMeans(a, pageSize);
    UnixPages.AlignedMeans(b, pageSize);
    MultiplesApart(pageSize, a / pageSize, b / pageSize);
    MultiplesApart(pageSize, b / pageSize, a / pageSize);
  }

  /** A transit address belongs to one slot of one page only. */
  lemma TransitIsUnique(pages: seq<HookState.Page>, pageSize: nat, p: nat, i: nat, q: nat, j: nat)
    requires pageSize > PAGE_HEADER && ListInOrder(pages, pageSize)
    requires p < |pages| && i < |pages[p].entries| && q < |pages| && j < |pages[q].entries|
    requires TransitAddr(pages[p].base, i) == TransitAddr(pages[q].base, j)
    ensures p == q && i == j
  {
    var a, b := pages[p].base, pages[q].base;
    EntriesFitInPage(a, pageSize, i);
    EntriesFitInPage(b, pageSize, j);
    if a < b { AlignedApart(pageSize, a, b); } else if b < a { AlignedApart(pageSize, b, a); }
    assert a == b;
  }

  /** So the stub, which has nothing but this address, finds the slot it was entered through. */
  lemma SlotIsRecovered(pages: seq<HookState.Page>, pageSize: nat, p: nat, i: nat)
    requires pageSize > PAGE_HEADER && ListInOrder(pages, pageSize) && p < |pages| && i < |pages[p].entries|
    ensures SlotAt(pages, TransitAddr(pages[p].base, i)) == Some((p, i))
  {
    var a := TransitAddr(pages[p].base, i);
    var r := SlotAt(pages, a);
    assert SlotInPage(pages[p], a).Some?;
    TransitIsUnique(pages, pageSize, p, i, r.value.0, r.value.1);
  }

  // ---- the caller stub ----

  /** The fields of the entry that funchook_hook_caller reads. */
  function Routed(d: HookState.Entry, base: int, idx: nat): HookCaller.Entry<int> {
    HookCaller.Entry(d.original, d.target, d.params.hook, d.params.hasPrehook, d.params.userData, d.params.flags,
                     TrampolineAddr(base, idx))
  }

  /** The stub as one step: it passes r11 to funchook_hook_caller and jumps to the result. The entry is the one that
      lies at this address. */
  function StubStep(pages: seq<HookState.Page>, prehook: HookCaller.Prehook<int>, s: Cpu): Option<Cpu> {
    var slot := SlotAt(pages, s.r11);
    if slot.None? then None
    else
      var (p, i) := slot.value;
      Some(s.(rip := HookCaller.Call(Routed(pages[p].entries[i], pages[p].base, i), prehook)))
  }

  // ---- what a prepare is made of ----

  function Asked(r: HookState.Request, base: int, idx: nat): HookCaller.Entry<int> {
    HookCaller.Entry(r.original, r.target, r.params.hook, r.params.hasPrehook, r.params.userData, r.params.flags,
                     TrampolineAddr(base, idx))
  }

  /** What page_avail has tested and fix_code has written for a slot. */
  ghost predicate SlotIsRight(r: HookState.Request, env: X86Relocator.Env, caller: int, base: int, idx: nat)
    requires env.Valid() && X86Relocator.Prepare(env).Ok? && X86Relocator.Prepare(env).value.size != 0
  {
    var q, e, patch := X86Relocator.Prepare(env).value, Asked(r, base, idx), r.fix(base, idx);
    var transit := TransitAddr(base, idx);
    && PageAvail(X64, env.func, transit, e.trampoline, q.disp0, q.copy.disp)
    && patch.size == X86Limits.PatchSize(q, env.func)
    && patch.code == NewCode(e.target, if ViaTransit(e) then transit else HookCaller.Destination(e))
    && (e.hasPrehook ==> patch.transit == PrehookTransit(caller))
    && (!e.hasPrehook && ViaTransit(e) ==>
      |patch.transit| >= 14 && patch.transit[..14] == AbsoluteJump(HookCaller.Destination(e)))
    && SlotsInBuffer(q) && patch.trampoline == Fixed(q, e.trampoline)
  }

  /** A prepare whose parts are those of X86Relocator, X86Fix and X86Routing: the translation of the function, the
      reach test for each slot, and the code that FixCode writes. Functions shorter than the patch are not among
      them. */
  ghost predicate MadeFor(r: HookState.Request, env: X86Relocator.Env, caller: int) {
    && env.Valid() && env.mode == X64 && r.target == env.func
    && (r.params.hook.Some? ==> 0 <= r.params.hook.value < TWO64)
    && (r.translation == SUCCESS ==>
      && X86Relocator.Prepare(env).Ok? && X86Relocator.Prepare(env).value.size != 0
      && forall base, idx :: r.avail(base, idx) ==> SlotIsRight(r, env, caller, base, idx))
  }

  // ---- from a run to a call ----

  /** The processor sees the code that the install has left, and the transit code in the pages. */
  ghost predicate Sees(mem: Memory, t: HookState.State) {
    && (forall x :: HookRuns.Patched(t.pages, x) ==> mem(x) == t.mem(x))
    && (forall p, i :: 0 <= p < |t.pages| && 0 <= i < |t.pages[p].entries| ==>
      BytesAt(mem, TransitAddr(t.pages[p].base, i), t.pages[p].entries[i].transit))
  }

  /** The same events, with the function each prepare was made for, read from the code memory as it was then. */
  ghost predicate AllMadeFor(runs: seq<HookRuns.Run>, events: seq<HookRuns.Event>, envs: seq<X86Relocator.Env>,
                             pageSize: nat, caller: int)
    requires pageSize > 0 && |runs| == |events| + 1
  {
    && |envs| == |events|
    && forall k :: 0 <= k < |events| && events[k].PrepareEvent? ==>
      && MadeFor(events[k].request, envs[k], caller)
      && ReadFrom(runs[k].state.mem, envs[k].func, envs[k].code)
      && HookRuns.AllocatesOnly(events[k].request, b => IsPage(pageSize, b))
  }

  lemma ListStaysInOrder(layout: HookState.Layout, orig: HookState.Memory, runs: seq<HookRuns.Run>,
                         events: seq<HookRuns.Event>, envs: seq<X86Relocator.Env>, pageSize: nat, caller: int)
    requires HookRuns.ValidRun(layout, orig, runs, events)
    requires pageSize > PAGE_HEADER && layout.capacity == EntriesInPage(pageSize)
    requires AllMadeFor(runs, events, envs, pageSize, caller)
    ensures ListInOrder(runs[|events|].state.pages, pageSize)
  {
    hide HookState.Bases, MadeFor, HookRuns.Advance, HookRuns.Invariant, IsPage, EntriesInPage;
    HookRuns.EveryRunKeepsInvariant(layout, orig, runs, events);
    HookRuns.InvariantMeansOrder(runs[|events|], HookRuns.EVERYWHERE, orig);
    HookRuns.EveryBaseIsAllocated(layout, orig, runs, events, b => IsPage(pageSize, b));
  }

  /** The fields of an entry that the machine and the stub see are those its prepare has asked for and written. */
  lemma FilledIsAsked(d: HookState.Entry, base: int, i: nat, before: HookState.State, r: HookState.Request)
    requires HookRuns.FilledBy(d, base, i, before, r)
    ensures Routed(d, base, i) == Asked(r, base, i) && r.avail(base, i)
    ensures d.newCode == r.fix(base, i).code && d.size == r.fix(base, i).size && d.transit == r.fix(base, i).transit
    ensures d.trampoline == r.fix(base, i).trampoline
  {}

  lemma PatchIsInMemory(layout: HookState.Layout, orig: HookState.Memory, runs: seq<HookRuns.Run>,
                        events: seq<HookRuns.Event>, p: nat, i: nat, mem: Memory)
    requires HookRuns.ValidRun(layout, orig, runs, events) && JustInstalled(runs, events)
    requires var pages := runs[|events|].state.pages; p < |pages| && i < |pages[p].entries| && Prevails(pages, p, i)
    requires var d := runs[|events|].state.pages[p].entries[i];
      0 <= d.target && d.target + d.size <= TWO64 && d.size <= |d.newCode|
    requires Sees(mem, runs[|events|].state)
    ensures var d := runs[|events|].state.pages[p].entries[i]; BytesAt(mem, d.target, d.newCode[..d.size])
  {
    hide HookRuns.Patched, Prevails, JustInstalled, HookRuns.Advance;
    var d := runs[|events|].state.pages[p].entries[i];
    forall k | 0 <= k < d.size ensures mem(d.target + k) == d.newCode[..d.size][k] {
      PatchIsInPlace(layout, orig, runs, events, p, i, k);
    }
  }

  /** What was asked for is what happens: in every run that ends in a finished install, for every slot whose patch
      prevails, a call of the function arrives, without a prehook, at the hook its prepare asked for, or at the
      trampoline, in at most two instructions. */
  lemma InstalledCallReachesHook(layout: HookState.Layout, orig: HookState.Memory, runs: seq<HookRuns.Run>,
                                 events: seq<HookRuns.Event>, envs: seq<X86Relocator.Env>, pageSize: nat, caller: int,
                                 p: nat, i: nat, mem: Memory, c: Cpu) returns (k: nat)
    requires HookRuns.ValidRun(layout, orig, runs, events) && JustInstalled(runs, events)
    requires pageSize > PAGE_HEADER && layout.capacity == EntriesInPage(pageSize)
    requires AllMadeFor(runs, events, envs, pageSize, caller)
    requires var pages := runs[|events|].state.pages; p < |pages| && i < |pages[p].entries| && Prevails(pages, p, i)
    requires Sees(mem, runs[|events|].state)
    requires c.rip == runs[|events|].state.pages[p].entries[i].target
    requires !runs[|events|].state.pages[p].entries[i].params.hasPrehook
    ensures k < |events| && events[k].PrepareEvent? && events[k].request.target == c.rip
    ensures var e := Asked(events[k].request, runs[|events|].state.pages[p].base, i);
      exists m :: 1 <= m <= 2 && Steps(mem, m, c) == Some(c.(rip := HookCaller.Destination(e)))
  {
    hide HookRuns.Advance, HookRuns.FilledBy, Prevails, Sees, NewCode, AbsoluteJump, BytesAt, Step, PageAvail,
         ViaTransit, X86Relocator.Prepare, JustInstalled;
    var page := runs[|events|].state.pages[p];
    ListStaysInOrder(layout, orig, runs, events, envs, pageSize, caller);
    k := SlotHasOrigin(layout, orig, runs, events, p, i);
    FilledIsRight(page.entries[i], page.base, i, runs[k].state, events[k].request, envs[k], caller, pageSize);
    PatchIsInMemory(layout, orig, runs, events, p, i, mem);
    TransitIsSeen(mem, runs[|events|].state, p, i);
    var e := Asked(events[k].request, page.base, i);
    var q := X86Relocator.Prepare(envs[k]).value;
    PatchedCallReachesHook(mem, e, q, page.entries[i].size, TransitAddr(page.base, i), c);
  }

  /** With a prehook, it arrives at the caller stub, and the stub goes on at the prehook's choice, which has seen what
      the prepare asked for, or at this function's trampoline. */
  lemma InstalledCallReachesChoice(layout: HookState.Layout, orig: HookState.Memory, runs: seq<HookRuns.Run>,
                                   events: seq<HookRuns.Event>, envs: seq<X86Relocator.Env>, pageSize: nat, caller: int,
                                   p: nat, i: nat, prehook: HookCaller.Prehook<int>, mem: Memory, c: Cpu)
    returns (k: nat)
    requires HookRuns.ValidRun(layout, orig, runs, events) && JustInstalled(runs, events)
    requires pageSize > PAGE_HEADER && layout.capacity == EntriesInPage(pageSize) && 0 <= caller < TWO64
    requires AllMadeFor(runs, events, envs, pageSize, caller)
    requires var pages := runs[|events|].state.pages; p < |pages| && i < |pages[p].entries| && Prevails(pages, p, i)
    requires Sees(mem, runs[|events|].state)
    requires c.rip == runs[|events|].state.pages[p].entries[i].target
    requires runs[|events|].state.pages[p].entries[i].params.hasPrehook
    ensures k < |events| && events[k].PrepareEvent? && events[k].request.target == c.rip
    ensures var r, base := events[k].request, runs[|events|].state.pages[p].base;
      var seen := HookCaller.Info(r.original, r.target, TrampolineAddr(base, i), r.params.hook, r.params.userData,
        r.params.flags);
      var choice := prehook(seen).hook;
      var stub := Steps(mem, 3, c);
      && stub.Some? && stub.value.rip == caller
      && var there := StubStep(runs[|events|].state.pages, prehook, stub.value);
        there.Some? && there.value.rip == if choice.Some? then choice.value else TrampolineAddr(base, i)
  {
    hide HookRuns.Advance, HookRuns.FilledBy, Prevails, Sees, NewCode, PrehookTransit, BytesAt, Step, PageAvail,
         X86Relocator.Prepare, SlotAt, JustInstalled;
    var pages := runs[|events|].state.pages;
    var page := pages[p];
    ListStaysInOrder(layout, orig, runs, events, envs, pageSize, caller);
    k := SlotHasOrigin(layout, orig, runs, events, p, i);
    FilledIsRight(page.entries[i], page.base, i, runs[k].state, events[k].request, envs[k], caller, pageSize);
    PatchIsInMemory(layout, orig, runs, events, p, i, mem);
    TransitIsSeen(mem, runs[|events|].state, p, i);
    var e := Asked(events[k].request, page.base, i);
    var q := X86Relocator.Prepare(envs[k]).value;
    PatchedCallReachesStub(mem, e, q, page.entries[i].size, TransitAddr(page.base, i), caller, c);
    SlotIsRecovered(pages, pageSize, p, i);
  }

  /** Calling the original: in every run, the trampoline in each used slot consists of the instructions of the function
      its prepare was made for, each with its absolute target, unless that is address zero, and a jump to the first
      byte behind the patch. These are the instructions of the original code, unless a prepare has succeeded behind a
      half-failed install. */
  lemma TrampolineMeansOriginal(layout: HookState.Layout, orig: HookState.Memory, runs: seq<HookRuns.Run>,
                                events: seq<HookRuns.Event>, envs: seq<X86Relocator.Env>, pageSize: nat, caller: int,
                                p: nat, i: nat) returns (k: nat)
    requires HookRuns.ValidRun(layout, orig, runs, events) && pageSize > 0
    requires AllMadeFor(runs, events, envs, pageSize, caller)
    requires var pages := runs[|events|].state.pages; p < |pages| && i < |pages[p].entries|
    ensures k < |events| && events[k].PrepareEvent?
    ensures var page := runs[|events|].state.pages[p]; var d, env := page.entries[i], envs[k];
      && d.target == env.func && env.Valid() && X86Relocator.Prepare(env).Ok?
      && (runs[|events|].careful ==> ReadFrom(orig, env.func, env.code))
      && SlotsInBuffer(X86Relocator.Prepare(env).value)
      && d.trampoline == Fixed(X86Relocator.Prepare(env).value, TrampolineAddr(page.base, i))
      && IsTrampolineOf(d.trampoline, TrampolineAddr(page.base, i), env)
  {
    hide HookRuns.Advance, X86Relocator.Prepare, PageAvail, IsTrampolineOf, HookRuns.FilledBy, Fixed, SlotsInBuffer;
    k := SlotHasOrigin(layout, orig, runs, events, p, i);
    var page, env := runs[|events|].state.pages[p], envs[k];
    FilledIsAsked(page.entries[i], page.base, i, runs[k].state, events[k].request);
    FilledFrom(page.entries[i], page.base, i, runs[k].state, events[k].request);
    assert SlotIsRight(events[k].request, env, caller, page.base, i);
    TrampolineIsRight(env, TrampolineAddr(page.base, i), TransitAddr(page.base, i));
    if runs[|events|].careful { PreparesSeeOriginal(layout, orig, runs, events, k); }
  }

  lemma FilledFrom(d: HookState.Entry, base: int, i: nat, before: HookState.State, r: HookState.Request)
    requires HookRuns.FilledBy(d, base, i, before, r)
    ensures d.target == r.target && r.translation == SUCCESS && HookState.Prepare(before, r).rv == SUCCESS
  {}

  /** Every copied instruction means what it meant, and the jump behind them leads behind the patch. */
  ghost predicate IsTrampolineOf(tramp: seq<byte>, at: int, env: X86Relocator.Env)
    requires env.Valid() && X86Relocator.Prepare(env).Ok?
  {
    var c := X86Relocator.Prepare(env).value.copy;
    && (forall j :: 0 <= j < |c.units| ==> MeansOriginal(env, tramp, at, c.units[j]))
    && |c.dst| + 5 <= |tramp| && tramp[|c.dst|] == JMP
    && (at + |c.dst| + 5 + Signed32(Get32(tramp, |c.dst| + 1))) % TWO64 == env.func + c.src
  }

  lemma TrampolineIsRight(env: X86Relocator.Env, at: int, transit: int)
    requires env.Valid() && env.mode == X64 && X86Relocator.Prepare(env).Ok?
      && X86Relocator.Prepare(env).value.size != 0
    requires var q := X86Relocator.Prepare(env).value;
      SlotsInBuffer(q) && PageAvail(X64, env.func, transit, at, q.disp0, q.copy.disp)
    ensures IsTrampolineOf(Fixed(X86Relocator.Prepare(env).value, at), at, env)
  {
    hide X86Relocator.Prepare, Fixed, PageAvail, SlotsInBuffer, MeansOriginal, Get32, Signed32;
    var q := X86Relocator.Prepare(env).value;
    X86Relocation.ReturnJumpIsRight(env, at, transit);
    forall j | 0 <= j < |q.copy.units| ensures MeansOriginal(env, Fixed(q, at), at, q.copy.units[j]) {
      UnitMeansOriginal(env, at, transit, j);
    }
  }

  /** The bytes at the place of a copied instruction decode to an instruction of the same size, with the same bytes
      outside its relative field and the same absolute target. */
  ghost predicate MeansOriginal(env: X86Relocator.Env, tramp: seq<byte>, at: int, u: X86Relocator.Unit) {
    u.kind.Copied? && env.InsnAt(u.src).Some? && !NullTarget(env.InsnAt(u.src).value) ==>
      var i := env.InsnAt(u.src).value;
      && u.dst <= |tramp| && u.src <= |env.code| && env.dec(tramp[u.dst..], at + u.dst).Some?
      && var j := env.dec(tramp[u.dst..], at + u.dst).value;
        SameShape(i, j) && SameOpcode(i, env.code[u.src..], tramp[u.dst..]) && j.Relative().addr == i.Relative().addr
  }

  predicate NullTarget(i: Insn) { i.Relative().size != 0 && i.Relative().addr == 0 }

  lemma UnitMeansOriginal(env: X86Relocator.Env, tramp: int, transit: int, j: nat)
    requires env.Valid() && env.mode == X64 && X86Relocator.Prepare(env).Ok?
      && X86Relocator.Prepare(env).value.size != 0
    requires var q := X86Relocator.Prepare(env).value;
      SlotsInBuffer(q) && PageAvail(X64, env.func, transit, tramp, q.disp0, q.copy.disp) && j < |q.copy.units|
    ensures var q := X86Relocator.Prepare(env).value; MeansOriginal(env, Fixed(q, tramp), tramp, q.copy.units[j])
  {
    hide X86Relocator.Prepare, Fixed, PageAvail, SlotsInBuffer, SameShape, SameOpcode;
    var q := X86Relocator.Prepare(env).value;
    var u := q.copy.units[j];
    if u.kind.Copied? && env.InsnAt(u.src).Some? && !NullTarget(env.InsnAt(u.src).value) {
      X86Relocation.RelocationPreservesMeaning(env, tramp, transit, j);
    }
  }

  /** What the parts of a prepare give for the slot it was put into. */
  lemma SlotIsReady(r: HookState.Request, env: X86Relocator.Env, caller: int, base: int, idx: nat, pageSize: nat)
    requires MadeFor(r, env, caller) && r.translation == SUCCESS && r.avail(base, idx)
    requires pageSize > PAGE_HEADER && IsPage(pageSize, base) && idx < EntriesInPage(pageSize)
    ensures var e, patch := Asked(r, base, idx), r.fix(base, idx);
      && SlotIsRight(r, env, caller, base, idx)
      && X86Relocator.REL2G_JUMP_SIZE <= patch.size <= X86Relocator.MAX_PATCH_CODE_SIZE == |patch.code|
      && 0 <= e.target && e.target + patch.size <= TWO64
      && 0 <= HookCaller.Destination(e) < TWO64 && 0 <= TransitAddr(base, idx) < TWO64
  {
    hide PageAvail, ViaTransit, PrehookTransit, AbsoluteJump, X86Relocator.Prepare;
    X86Limits.PatchSizeIsRight(env);
    EntriesFitInPage(base, pageSize, idx);
  }

  lemma FilledIsRight(d: HookState.Entry, base: int, i: nat, before: HookState.State, r: HookState.Request,
                      env: X86Relocator.Env, caller: int, pageSize: nat)
    requires HookRuns.FilledBy(d, base, i, before, r) && MadeFor(r, env, caller)
    requires pageSize > PAGE_HEADER && IsPage(pageSize, base) && i < EntriesInPage(pageSize)
    ensures env.Valid() && X86Relocator.Prepare(env).Ok? && X86Relocator.Prepare(env).value.size != 0
    ensures var e, patch := Asked(r, base, i), r.fix(base, i);
      && Routed(d, base, i) == e && SlotIsRight(r, env, caller, base, i)
      && d.target == r.target && d.newCode == patch.code && d.size == patch.size && d.transit == patch.transit
      && X86Relocator.REL2G_JUMP_SIZE <= patch.size <= X86Relocator.MAX_PATCH_CODE_SIZE == |patch.code|
      && 0 <= e.target && e.target + patch.size <= TWO64
      && 0 <= HookCaller.Destination(e) < TWO64 && 0 <= TransitAddr(base, i) < TWO64
  {
    hide SlotIsRight, X86Relocator.Prepare, IsPage;
    FilledIsAsked(d, base, i, before, r);
    FilledFrom(d, base, i, before, r);
    SlotIsReady(r, env, caller, base, i, pageSize);
  }

  lemma TransitIsSeen(mem: Memory, t: HookState.State, p: nat, i: nat)
    requires Sees(mem, t) && p < |t.pages| && i < |t.pages[p].entries|
    ensures BytesAt(mem, TransitAddr(t.pages[p].base, i), t.pages[p].entries[i].transit)
    ensures |t.pages[p].entries[i].transit| >= 14 ==>
      BytesAt(mem, TransitAddr(t.pages[p].base, i), t.pages[p].entries[i].transit[..14])
  {}

  // ---- allocator and reach ----

  /** A page that the Unix allocator returns for a function is accepted for its first entry, unless the function has a
      relative operand that is out of reach from there. */
  lemma AllocatedPageServes(os: UnixPages.Os, pageSize: nat, env: X86Relocator.Env)
    requires env.Valid() && env.mode == X64 && X86Relocator.Prepare(env).Ok?
      && X86Relocator.Prepare(env).value.size != 0
    requires 4096 <= pageSize < INT32_MAX && UnixPages.Allocate(os, pageSize, env.func, 0).rv == SUCCESS
    ensures var q, page := X86Relocator.Prepare(env).value, UnixPages.Allocate(os, pageSize, env.func, 0).page;
      PageAvail(X64, env.func, TransitAddr(page, 0), TrampolineAddr(page, 0), q.disp0, q.copy.disp)
      <==> q.copy.disp.dst == 0 || Within32BitRelative(TrampolineAddr(page, 0) + q.copy.disp.srcOffset, q.copy.disp.dst)
  {
    UnixPages.AllocatedIsNear(os, pageSize, env.func, 0);
    hide UnixPages.Allocate, X86Relocator.Prepare, PageAvail, Within32BitRelative, UnixPages.Near;
    NearPageFailsOnlyForOperand(env, UnixPages.Allocate(os, pageSize, env.func, 0).page, pageSize);
  }
}
