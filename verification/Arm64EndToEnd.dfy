/** The parts together on arm64: what the prepares of a run have asked for is what a call of a patched function, after
    the install, and a call of a trampoline do. */
module Arm64EndToEnd {
  import opened Common
  import opened A64Machine
  import opened Arm64Translator
  import opened Arm64Blocks
  import opened Arm64Simulation
  import opened Arm64Routing
  import opened Arm64Bytes
  import opened Arm64Numbers
  import opened HookOrigins
  import HookCaller
  import HookState
  import HookRuns
  import UnixPages

  const PATCH_SIZE := 4 * REL4G_JUMP_SIZE
  const TRAMPOLINE_OFFSET: bv64 := 72

  /** One entry in a page, at its beginning. */
  const LAYOUT := HookState.Layout(1, PATCH_SIZE)

  // ---- what a prepare is made of ----

  /** The function a prepare is for, with its reports, and its pointers as the processor has them. */
  datatype Made = Made(x: Prefix, original: Addr, hook: Option<Addr>, userData: Addr)

  function Asked(m: Made, r: HookState.Request, a: Addr): HookCaller.Entry<Addr> {
    HookCaller.Entry(m.original, m.x.func, m.hook, r.params.hasPrehook, m.userData, r.params.flags,
                     Plus(a, TRAMPOLINE_OFFSET))
  }

  /** A page as the Unix allocator returns it for a function: aligned and near. */
  ghost predicate IsNearPage(func: Addr, a: Addr, pageSize: bv64) {
    IsPageMultiple(a) && UnixPages.Near(Number(func), Number(a), Number(pageSize))
  }

  ghost predicate HasNearPage(func: Addr, base: int, pageSize: bv64) {
    exists a: Addr :: Number(a) == base && IsNearPage(func, a, pageSize)
  }

  lemma NearPagePasses(func: Addr, a: Addr, pageSize: bv64)
    requires IsNearPage(func, a, pageSize) && IsPageSize(pageSize)
    ensures IsPageMultiple(a) && (SafeJumpDistance(func, a, pageSize) || SafeJumpDistance(a, func, pageSize))
  {
    hide Number, SafeJumpDistance, UnixPages.SafeDistance, IsPageSize, IsPageMultiple;
    SameDistanceTest(func, a, pageSize);
    SameDistanceTest(a, func, pageSize);
  }

  /** Allocator and reach: a page that the Unix allocator returns for a function is one that the emitted ADRP
      reaches from there. */
  lemma AllocatedPageIsReached(os: UnixPages.Os, cpu: Cpu, func: Addr, a: Addr, pageSize: bv64, s: State)
    requires UnixPages.Allocate(os, Number(pageSize), Number(func), 0) == UnixPages.Done(SUCCESS, Number(a))
    requires IsPageMultiple(a) && IsPageSize(pageSize)
    ensures HasNearPage(func, Number(a), pageSize)
    ensures Step(cpu, AdrpWord(PageDistance(func, a)), func, s) == (SetX(s, 9, a), None)
  {
    hide Number, SafeJumpDistance, UnixPages.Near, UnixPages.Allocate, IsPageSize, IsPageMultiple, AdrpWord,
         PageDistance, Step, SetX;
    UnixPages.AllocatedIsNear(os, Number(pageSize), Number(func), 0);
    assert IsNearPage(func, a, pageSize);
    NearPagePasses(func, a, pageSize);
    NearPageIsReached(cpu, func, a, pageSize, s);
  }

  /** What fix_code has written for the page at `a`. */
  ghost predicate PatchIsRight(patch: HookState.Patch, e: HookCaller.Entry<Addr>, trampoline: seq<Word>, a: Addr,
                               caller: Addr) {
    && patch.size == PATCH_SIZE && patch.code == Encoding(NewCode(e.target, a))
    && Encoding(if e.hasPrehook then PrehookTransit(caller) else AbsoluteJump(HookCaller.Destination(e)))
      <= patch.transit
    && patch.trampoline == Encoding(trampoline)
  }

  /** A prepare whose parts are those of Arm64Translator and Arm64Routing. */
  ghost predicate MadeFor(r: HookState.Request, m: Made, pageSize: bv64, caller: Addr) {
    && |m.x.code| == MAX_INSN_CHECK_SIZE && InSpace(m.x.func, 4 * MAX_INSN_CHECK_SIZE)
    && r.target == Number(m.x.func) && r.original == Number(m.original) && r.params.userData == Number(m.userData)
    && r.params.hook == (if m.hook.Some? then Some(Number(m.hook.value)) else None)
    && (r.translation == SUCCESS ==> m.x.Accepted())
    && (forall pages: set<int> :: r.alloc(pages).Ok? ==> HasNearPage(m.x.func, r.alloc(pages).value, pageSize))
    && (r.translation == SUCCESS ==> forall a: Addr ::
      PatchIsRight(r.fix(Number(a), 0), Asked(m, r, a), Layout(m.x.Final()), a, caller))
  }

  /** The same events, with the function each prepare was made for, read from the code memory as it was then. */
  ghost predicate AllMadeFor(runs: seq<HookRuns.Run>, events: seq<HookRuns.Event>, made: seq<Made>, pageSize: bv64,
                             caller: Addr)
    requires |runs| == |events| + 1
  {
    && |made| == |events|
    && forall k :: 0 <= k < |events| && events[k].PrepareEvent? ==>
      && MadeFor(events[k].request, made[k], pageSize, caller)
      && ReadFrom(runs[k].state.mem, Number(made[k].x.func), Encoding(made[k].x.code))
  }

  // ---- what the processor sees ----

  /** The code of the process, and the transit code and trampolines in the pages. */
  ghost predicate Sees(mem: Memory, t: HookState.State) {
    && (forall a: Addr :: HookRuns.Patched(t.pages, Number(a)) ==> mem(a) == Bits(t.mem(Number(a))))
    && (forall p, a: Addr :: 0 <= p < |t.pages| && |t.pages[p].entries| > 0 && Number(a) == t.pages[p].base ==>
      && Shows(mem, a, t.pages[p].entries[0].transit)
      && Shows(mem, Plus(a, TRAMPOLINE_OFFSET), t.pages[p].entries[0].trampoline))
  }

  /** The entry as the stub reads it. */
  ghost predicate Represents(e: HookCaller.Entry<Addr>, d: HookState.Entry, a: Addr) {
    && Number(e.originalTarget) == d.original && Number(e.target) == d.target
    && d.params.hook == (if e.hook.Some? then Some(Number(e.hook.value)) else None)
    && e.hasPrehook == d.params.hasPrehook && Number(e.userData) == d.params.userData && e.flags == d.params.flags
    && e.trampoline == Plus(a, TRAMPOLINE_OFFSET)
  }

  /** The list of the handle, with the addresses the processor has for its pages. */
  ghost predicate IsListOf(list: seq<HookPage>, pages: seq<HookState.Page>) {
    && |list| == |pages|
    && forall p :: 0 <= p < |pages| ==>
      && Number(list[p].base) == pages[p].base && |pages[p].entries| == 1
      && Represents(list[p].entry, pages[p].entries[0], list[p].base)
  }

  lemma ListIsDistinct(list: seq<HookPage>, pages: seq<HookState.Page>)
    requires IsListOf(list, pages)
    requires forall p, q :: 0 <= p < q < |pages| ==> pages[p].base != pages[q].base
    ensures DistinctPages(list)
  {
    hide Number, Represents;
  }

  lemma OneRepresents(e: HookCaller.Entry<Addr>, e': HookCaller.Entry<Addr>, d: HookState.Entry, a: Addr)
    requires Represents(e, d, a) && Represents(e', d, a)
    ensures e == e'
  {
    hide Number, Plus;
    NumberIsInjective(e.originalTarget, e'.originalTarget);
    NumberIsInjective(e.target, e'.target);
    NumberIsInjective(e.userData, e'.userData);
    if e.hook.Some? && e'.hook.Some? { NumberIsInjective(e.hook.value, e'.hook.value); }
  }

  // ---- from a run to a call ----

  /** The entry of the page at `a` is what this prepare has asked for and written there. */
  ghost predicate IsOrigin(before: HookState.State, r: HookState.Request, m: Made, d: HookState.Entry, a: Addr,
                           pageSize: bv64, caller: Addr) {
    && HookState.Prepare(before, r).rv == SUCCESS
    && m.x.Accepted() && InSpace(m.x.func, PATCH_SIZE) && IsNearPage(m.x.func, a, pageSize)
    && d.target == r.target && Represents(Asked(m, r, a), d, a)
    && d.size == PATCH_SIZE && d.newCode == Encoding(NewCode(m.x.func, a))
    && Encoding(if d.params.hasPrehook then PrehookTransit(caller)
                else AbsoluteJump(HookCaller.Destination(Asked(m, r, a)))) <= d.transit
    && d.trampoline == Encoding(Layout(m.x.Final()))
  }

  lemma OriginFrom(d: HookState.Entry, before: HookState.State, r: HookState.Request, m: Made, a: Addr,
                   pageSize: bv64, caller: Addr)
    requires HookRuns.FilledBy(d, Number(a), 0, before, r) && MadeFor(r, m, pageSize, caller)
    requires IsNearPage(m.x.func, a, pageSize)
    ensures IsOrigin(before, r, m, d, a, pageSize, caller)
  {
    hide HookRuns.FilledBy, Number, Encoding, IsNearPage, HookState.Prepare, NewCode, PrehookTransit, AbsoluteJump,
         Layout, Translate, Plus, HasNearPage;
    FilledFrom(d, Number(a), before, r);
    assert PatchIsRight(r.fix(Number(a), 0), Asked(m, r, a), Layout(m.x.Final()), a, caller);
  }

  lemma FilledFrom(d: HookState.Entry, base: int, before: HookState.State, r: HookState.Request)
    requires HookRuns.FilledBy(d, base, 0, before, r)
    ensures d.target == r.target && d.original == r.original && d.params == r.params
    ensures r.translation == SUCCESS && HookState.Prepare(before, r).rv == SUCCESS && r.alloc(before.mapped) == Ok(base)
    ensures d.newCode == r.fix(base, 0).code && d.size == r.fix(base, 0).size && d.transit == r.fix(base, 0).transit
    ensures d.trampoline == r.fix(base, 0).trampoline
  {}

  /** In every run, every page on the list has one entry, which some prepare has filled in. */
  lemma PageHasOrigin(orig: HookState.Memory, runs: seq<HookRuns.Run>, events: seq<HookRuns.Event>, made: seq<Made>,
                      pageSize: bv64, caller: Addr, p: nat) returns (k: nat, a: Addr)
    requires HookRuns.ValidRun(LAYOUT, orig, runs, events) && AllMadeFor(runs, events, made, pageSize, caller)
    requires p < |runs[|events|].state.pages|
    ensures k < |events| && events[k].PrepareEvent?
    ensures var page := runs[|events|].state.pages[p];
      && |page.entries| == 1 && Number(a) == page.base
      && IsOrigin(runs[k].state, events[k].request, made[k], page.entries[0], a, pageSize, caller)
  {
    hide HookRuns.FilledBy, HookRuns.Advance, HookRuns.Invariant, Number, IsOrigin, IsNearPage;
    var page := runs[|events|].state.pages[p];
    HookRuns.EveryRunKeepsInvariant(LAYOUT, orig, runs, events);
    HookRuns.InvariantMeansOrder(runs[|events|], HookRuns.EVERYWHERE, orig);
    assert 1 <= |page.entries| <= 1;
    k := SlotHasOrigin(LAYOUT, orig, runs, events, p, 0);
    var r := events[k].request;
    FilledFrom(page.entries[0], page.base, runs[k].state, r);
    assert MadeFor(r, made[k], pageSize, caller);
    assert HasNearPage(made[k].x.func, r.alloc(runs[k].state.mapped).value, pageSize);
    a :| Number(a) == page.base && IsNearPage(made[k].x.func, a, pageSize);
    OriginFrom(page.entries[0], runs[k].state, r, made[k], a, pageSize, caller);
  }

  /** The patch and the transit code of the page are what the processor sees. */
  lemma PatchIsSeen(orig: HookState.Memory, runs: seq<HookRuns.Run>, events: seq<HookRuns.Event>, p: nat, func: Addr,
                    words: seq<Word>, mem: Memory)
    requires HookRuns.ValidRun(LAYOUT, orig, runs, events) && JustInstalled(runs, events) && |words| == REL4G_JUMP_SIZE
    requires var pages := runs[|events|].state.pages;
      && p < |pages| && |pages[p].entries| == 1 && Prevails(pages, p, 0)
      && pages[p].entries[0].target == Number(func) && InSpace(func, PATCH_SIZE)
      && pages[p].entries[0].size == PATCH_SIZE && pages[p].entries[0].newCode == Encoding(words)
    requires Sees(mem, runs[|events|].state)
    ensures WordsAt(mem, func, words)
  {
    hide HookRuns.Advance, HookRuns.Patched, Prevails, JustInstalled, Number, Plus, Offset, Encoding, WordsAt, Bits,
         Shows;
    var t := runs[|events|].state;
    var d := t.pages[p].entries[0];
    forall k | 0 <= k < PATCH_SIZE ensures mem(Plus(func, Offset(k))) == Bits(d.newCode[k]) {
      PatchIsInPlace(LAYOUT, orig, runs, events, p, 0, k);
      NumberOfSum(func, k);
    }
    ShownIfEach(mem, func, d.newCode);
    WordsShown(mem, func, words, d.newCode);
  }

  lemma ShownIfEach(mem: Memory, a: Addr, bytes: seq<byte>)
    requires forall k :: 0 <= k < |bytes| ==> mem(Plus(a, Offset(k))) == Bits(bytes[k])
    ensures Shows(mem, a, bytes)
  {}

  /** What was asked for is what happens: in every run that ends in a finished install, a call of a function whose patch
      prevails arrives, without a prehook, at the hook its prepare asked for, or at the trampoline, in four steps that
      change nothing but x9. */
  lemma InstalledCallReachesHook(orig: HookState.Memory, runs: seq<HookRuns.Run>, events: seq<HookRuns.Event>,
                                 made: seq<Made>, pageSize: bv64, caller: Addr, p: nat, cpu: Cpu, s: State)
    returns (k: nat, a: Addr)
    requires HookRuns.ValidRun(LAYOUT, orig, runs, events) && JustInstalled(runs, events) && IsPageSize(pageSize)
    requires AllMadeFor(runs, events, made, pageSize, caller) && Sees(s.mem, runs[|events|].state)
    requires var pages := runs[|events|].state.pages;
      p < |pages| && |pages[p].entries| == 1 && Prevails(pages, p, 0) && !pages[p].entries[0].params.hasPrehook
    ensures k < |events| && events[k].PrepareEvent?
    ensures var page := runs[|events|].state.pages[p]; var e := Asked(made[k], events[k].request, a);
      var c := Run(cpu, 4, Config(e.target, s));
      && Number(a) == page.base && Number(e.target) == page.entries[0].target == events[k].request.target
      && c.pc == HookCaller.Destination(e) && Agree(s, c.s, {9})
  {
    hide HookRuns.Advance, Prevails, JustInstalled, Number, AdrpWord, PageDistance, Low, High, Encoding, WordsAt,
         Layout, Translate, IsPageSize, IsPageMultiple, SafeJumpDistance, IsNearPage, Run, InSpace, Plus, Shows,
         MadeFor;
    k, a := PageHasOrigin(orig, runs, events, made, pageSize, caller, p);
    var d, e := runs[|events|].state.pages[p].entries[0], Asked(made[k], events[k].request, a);
    PatchIsSeen(orig, runs, events, p, e.target, NewCode(e.target, a), s.mem);
    WordsShown(s.mem, a, AbsoluteJump(HookCaller.Destination(e)), d.transit);
    NearPagePasses(e.target, a, pageSize);
    PatchedCallReachesHook(cpu, e, a, pageSize, s);
  }

  /** On the list as the processor has it, every entry is what its prepare has asked for. */
  lemma EveryPageIsOrigin(orig: HookState.Memory, runs: seq<HookRuns.Run>, events: seq<HookRuns.Event>,
                          made: seq<Made>, pageSize: bv64, caller: Addr, list: seq<HookPage>, p: nat)
    returns (k: nat)
    requires HookRuns.ValidRun(LAYOUT, orig, runs, events) && AllMadeFor(runs, events, made, pageSize, caller)
    requires IsListOf(list, runs[|events|].state.pages) && p < |list|
    ensures k < |events| && events[k].PrepareEvent?
    ensures list[p].entry == Asked(made[k], events[k].request, list[p].base)
    ensures IsOrigin(runs[k].state, events[k].request, made[k], runs[|events|].state.pages[p].entries[0], list[p].base,
                     pageSize, caller)
  {
    hide HookRuns.Advance, Number, Encoding, NewCode, PrehookTransit, AbsoluteJump, Layout, Translate, IsNearPage,
         InSpace, Represents, MadeFor, HookState.Prepare;
    var a;
    k, a := PageHasOrigin(orig, runs, events, made, pageSize, caller, p);
    NumberIsInjective(a, list[p].base);
    var d := runs[|events|].state.pages[p].entries[0];
    OneRepresents(list[p].entry, Asked(made[k], events[k].request, a), d, a);
  }

  /** With a prehook, it arrives at the caller stub, and the stub, which recovers the entry from the list of the handle,
      goes on at the prehook's choice, which has seen what the prepare asked for, or at this function's trampoline. */
  lemma InstalledCallReachesChoice(orig: HookState.Memory, runs: seq<HookRuns.Run>, events: seq<HookRuns.Event>,
                                   made: seq<Made>, pageSize: bv64, caller: Addr, list: seq<HookPage>, p: nat,
                                   prehook: HookCaller.Prehook<Addr>, cpu: Cpu, s: State) returns (k: nat)
    requires HookRuns.ValidRun(LAYOUT, orig, runs, events) && JustInstalled(runs, events) && IsPageSize(pageSize)
    requires AllMadeFor(runs, events, made, pageSize, caller) && Sees(s.mem, runs[|events|].state)
    requires IsListOf(list, runs[|events|].state.pages) && p < |list|
    requires var pages := runs[|events|].state.pages; Prevails(pages, p, 0) && pages[p].entries[0].params.hasPrehook
    ensures k < |events| && events[k].PrepareEvent?
    ensures var e := Asked(made[k], events[k].request, list[p].base);
      var seen := HookCaller.Info(e.originalTarget, e.target, e.trampoline, e.hook, e.userData, e.flags);
      var choice := prehook(seen).hook;
      var stub := Run(cpu, 5, Config(e.target, s));
      var there := StubStep(list, prehook, stub);
      && Number(e.target) == events[k].request.target
      && stub.pc == caller && there.Some? && Agree(s, there.value.s, {9, 10})
      && there.value.pc == if choice.Some? then choice.value else e.trampoline
  {
    hide HookRuns.Advance, Prevails, JustInstalled, Number, AdrpWord, PageDistance, Low, High, Encoding, WordsAt,
         Layout, Translate, IsPageSize, IsPageMultiple, SafeJumpDistance, IsNearPage, Run, InSpace, Plus, Shows,
         MadeFor, StubStep, Agree, DistinctPages;
    k := EveryPageIsOrigin(orig, runs, events, made, pageSize, caller, list, p);
    var d, e := runs[|events|].state.pages[p].entries[0], list[p].entry;
    PagesAreDistinct(orig, runs, events);
    ListIsDistinct(list, runs[|events|].state.pages);
    PatchIsSeen(orig, runs, events, p, e.target, NewCode(e.target, list[p].base), s.mem);
    WordsShown(s.mem, list[p].base, PrehookTransit(caller), d.transit);
    NearPagePasses(e.target, list[p].base, pageSize);
    PatchedCallReachesChoice(cpu, list, p, caller, pageSize, prehook, s);
  }

  lemma PagesAreDistinct(orig: HookState.Memory, runs: seq<HookRuns.Run>, events: seq<HookRuns.Event>)
    requires HookRuns.ValidRun(LAYOUT, orig, runs, events)
    ensures var pages := runs[|events|].state.pages;
      forall p, q :: 0 <= p < q < |pages| ==> pages[p].base != pages[q].base
  {
    hide HookRuns.Advance, HookRuns.Invariant;
    HookRuns.EveryRunKeepsInvariant(LAYOUT, orig, runs, events);
    HookRuns.InvariantMeansOrder(runs[|events|], HookRuns.EVERYWHERE, orig);
  }

  /** Calling the original: in every run, the trampoline in each page, as the processor sees it, is the translation of
      the function its prepare was made for, whose words are those of the original code, unless a prepare has succeeded
      behind a half-failed install. Arm64Simulation says what it does. */
  lemma TrampolineIsTranslation(orig: HookState.Memory, runs: seq<HookRuns.Run>, events: seq<HookRuns.Event>,
                                made: seq<Made>, pageSize: bv64, caller: Addr, p: nat, mem: Memory)
    returns (k: nat, a: Addr)
    requires HookRuns.ValidRun(LAYOUT, orig, runs, events) && AllMadeFor(runs, events, made, pageSize, caller)
    requires p < |runs[|events|].state.pages| && Sees(mem, runs[|events|].state)
    ensures k < |events| && events[k].PrepareEvent?
    ensures var page, x := runs[|events|].state.pages[p], made[k].x;
      && Number(a) == page.base && |page.entries| == 1 && page.entries[0].target == Number(x.func)
      && (runs[|events|].careful ==> ReadFrom(orig, Number(x.func), Encoding(x.code)))
      && x.Accepted() && Loaded(mem, Plus(a, TRAMPOLINE_OFFSET), Layout(x.Final()))
  {
    hide HookRuns.Advance, Number, NewCode, PrehookTransit, AbsoluteJump, Encoding, LayoutWord, Translate, IsNearPage,
         InSpace, Plus, Shows, WordsAt, HookState.Prepare;
    k, a := PageHasOrigin(orig, runs, events, made, pageSize, caller, p);
    var x, d := made[k].x, runs[|events|].state.pages[p].entries[0];
    WordsShown(mem, Plus(a, TRAMPOLINE_OFFSET), Layout(x.Final()), d.trampoline);
    LoadedIfWordsAt(mem, Plus(a, TRAMPOLINE_OFFSET), Layout(x.Final()));
    if runs[|events|].careful { PreparesSeeOriginal(LAYOUT, orig, runs, events, k); }
  }

  lemma LoadedIfWordsAt(mem: Memory, a: Addr, words: seq<Word>)
    requires WordsAt(mem, a, words) && |words| == TRAMPOLINE_SIZE
    ensures Loaded(mem, a, words)
  {
    hide Load32, WordAt;
  }
}
