/** The properties of a handle that callers rely on, over all runs, and the exact limits of what the code does. */
module HookSafety {
  import opened Common
  import opened HookState
  import opened HookRuns

  /** Original code: after any run in which no prepare succeeded behind a half-failed install, whatever calls failed
      and however entries overlap, a handle that is not installed has left all code as it found it, unless an install
      has just failed half-way; and all its pages are writable. */
  lemma NotInstalledIsOriginal(layout: Layout, orig: Memory, runs: seq<Run>, events: seq<Event>)
    requires ValidRun(layout, orig, runs, events)
    requires var last := runs[|events|]; last.careful && !last.torn && !last.state.installed
    ensures Same(runs[|events|].state.mem, orig) && runs[|events|].state.shielded == {}
  {
    EveryRunKeepsInvariant(layout, orig, runs, events);
    forall x ensures runs[|events|].state.mem(x) == orig(x) { assert EVERYWHERE(x); }
  }

  /** In every run, careful or not, only patched windows can differ from the original code. */
  lemma OnlyWindowsChange(layout: Layout, orig: Memory, runs: seq<Run>, events: seq<Event>, x: int)
    requires ValidRun(layout, orig, runs, events) && runs[|events|].state.live
    requires runs[|events|].state.mem(x) != orig(x)
    ensures Patched(runs[|events|].state.pages, x)
  {
    EveryRunKeepsInvariant(layout, orig, runs, events);
    assert EVERYWHERE(x);
  }

  /** In every run the mapped pages are those on the list, each once, and each holds between one entry and as many
      as fit; a destroyed handle has none left. */
  lemma PagesAreConserved(layout: Layout, orig: Memory, runs: seq<Run>, events: seq<Event>)
    requires ValidRun(layout, orig, runs, events)
    ensures var s := runs[|events|].state;
      && s.mapped == Bases(s.pages)
      && (forall p, q :: 0 <= p < q < |s.pages| ==> s.pages[p].base != s.pages[q].base)
      && (forall p :: 0 <= p < |s.pages| ==> 1 <= |s.pages[p].entries| <= layout.capacity)
      && (!s.live ==> s.mapped == {} && !s.installed)
  {
    EveryRunKeepsInvariant(layout, orig, runs, events);
    NoBases();
  }

  lemma NoBases()
    ensures Bases([]) == {}
  {}

  // ---- retrying ----

  ghost predicate AllSucceed(answers: Answers) { forall k :: answers(k) == 0 }

  lemma {:induction false} PerformSucceeds(mem: Memory, shielded: set<int>, actions: seq<Action>, answers: Answers,
                                           call: nat)
    requires AllSucceed(answers)
    ensures Perform(mem, shielded, actions, answers, call).rv == SUCCESS
    decreases |actions|
  {
    if actions != [] {
      match actions[0]
      case Protect(base) => PerformSucceeds(mem, shielded + {base}, actions[1..], answers, call + 1);
      case Unprotect(base) => PerformSucceeds(mem, shielded - {base}, actions[1..], answers, call + 1);
      case Store(at, code) => PerformSucceeds(Write(mem, at, code), shielded, actions[1..], answers, call + 2);
    }
  }

  /** An uninstall whose calls all succeed ends in original code, however much a failed one before it had restored:
      a failed uninstall leaves the handle installed, so that the next one is accepted. */
  lemma RetriedUninstallRestores(layout: Layout, orig: Memory, runs: seq<Run>, events: seq<Event>)
    requires ValidRun(layout, orig, runs, events) && |events| >= 2
    requires var n := |events|;
      && events[n - 2].UninstallEvent? && events[n - 1].UninstallEvent? && AllSucceed(events[n - 1].answers)
      && runs[n - 2].careful && runs[n - 2].state.installed
    ensures var s := runs[|events|].state; !s.installed && Same(s.mem, orig) && s.shielded == {}
    ensures runs[|events|].state.pages == runs[|events| - 2].state.pages
  {
    hide Perform, Actions, Invariant, ValidPages, ValidRequest;
    var n := |events|;
    EveryRunKeepsInvariant(layout, orig, runs, events);
    InstalledIsWhole(layout, orig, runs[..n - 1], events[..n - 2]);
    assert Next(runs[n - 2], events[n - 2], runs[n - 1]) && Next(runs[n - 1], events[n - 1], runs[n]);
    var s := runs[n - 1].state;
    PerformSucceeds(s.mem, s.shielded, Actions(s.pages, false, s.layout), events[n - 1].answers, 0);
    NotInstalledIsOriginal(layout, orig, runs, events);
  }

  lemma InstalledIsWhole(layout: Layout, orig: Memory, runs: seq<Run>, events: seq<Event>)
    requires ValidRun(layout, orig, runs, events) && runs[|events|].state.installed
    ensures !runs[|events|].torn
  {
    EveryRunKeepsInvariant(layout, orig, runs, events);
  }

  /** A failed install can be repeated, and the uninstall behind the second one restores everything. */
  lemma RetriedInstallIsUndone(layout: Layout, orig: Memory, runs: seq<Run>, events: seq<Event>)
    requires ValidRun(layout, orig, runs, events) && |events| >= 3
    requires var n := |events|;
      && events[n - 3].InstallEvent?
      && events[n - 2].InstallEvent? && AllSucceed(events[n - 2].answers)
      && events[n - 1].UninstallEvent? && AllSucceed(events[n - 1].answers)
      && runs[n - 3].careful
    ensures runs[|events| - 1].state.installed
    ensures var s := runs[|events|].state; !s.installed && Same(s.mem, orig) && s.shielded == {}
  {
    hide Perform, Actions, Invariant, ValidPages, ValidRequest;
    var n := |events|;
    assert Next(runs[n - 3], events[n - 3], runs[n - 2]) && Next(runs[n - 2], events[n - 2], runs[n - 1])
      && Next(runs[n - 1], events[n - 1], runs[n]);
    var s, t := runs[n - 2].state, runs[n - 1].state;
    PerformSucceeds(s.mem, s.shielded, Actions(s.pages, true, s.layout), events[n - 2].answers, 0);
    PerformSucceeds(t.mem, t.shielded, Actions(t.pages, false, t.layout), events[n - 1].answers, 0);
    NotInstalledIsOriginal(layout, orig, runs, events);
  }

  /** Without care: a finished uninstall ends in original code exactly when, for every patched address, the last
      snapshot on the list that covers it is of the original code. One taken from patched code survives there. */
  lemma UninstallRestoresExactly(s: State, orig: Memory, answers: Answers)
    requires s.installed && ValidPages(s.pages, s.layout) && UnpatchedIsOriginal(s, EVERYWHERE, orig)
    requires Switch(s, false, answers).1 == SUCCESS
    ensures Same(Switch(s, false, answers).0.mem, orig) <==>
      forall x :: Patched(s.pages, x) ==> LastByte(Actions(s.pages, false, s.layout), x) == Some(orig(x))
  {
    hide Patched, Perform, Actions, LastByte;
    forall x
      ensures LastByte(Actions(s.pages, false, s.layout), x).Some? <==> Patched(s.pages, x)
      ensures Switch(s, false, answers).0.mem(x)
        == if Patched(s.pages, x) then LastByte(Actions(s.pages, false, s.layout), x).value else s.mem(x)
    {
      ActionsReach(s.pages, false, s.layout, x, 0);
      PerformedToTheEnd(s.mem, s.shielded, Actions(s.pages, false, s.layout), answers, 0, x);
      assert EVERYWHERE(x);
    }
  }

  // ---- what a finished install does ----

  /** After a finished install every patched address holds the new code of an entry that covers it: of the last one in
      list order, which is the one that matters where entries overlap. Every page is write-protected. */
  lemma FinishedInstallPatches(s: State, answers: Answers, x: int) returns (p: nat, i: nat)
    requires PagesInOrder(s) && !s.installed && Switch(s, true, answers).1 == SUCCESS && Patched(s.pages, x)
    ensures LastToCover(s.pages, x, p, i)
    ensures var t := Switch(s, true, answers).0; var e := s.pages[p].entries[i];
      && e.target <= x < e.target + e.size <= e.target + |e.newCode|
      && t.mem(x) == e.newCode[x - e.target]
      && t.shielded == Bases(s.pages)
  {
    p, i := SomeEntryIsLast(s.pages, x);
    LastEntryPatches(s, answers, x, p, i);
  }

  lemma LastEntryPatches(s: State, answers: Answers, x: int, p: nat, i: nat)
    requires PagesInOrder(s) && !s.installed && Switch(s, true, answers).1 == SUCCESS && LastToCover(s.pages, x, p, i)
    ensures var t := Switch(s, true, answers).0; var e := s.pages[p].entries[i];
      && ValidEntry(e, s.layout) && t.mem(x) == e.newCode[x - e.target] && t.shielded == Bases(s.pages)
  {
    var e := s.pages[p].entries[i];
    assert ValidEntries(s.pages[p].entries, s.layout) && ValidEntry(e, s.layout);
    hide Bases;
    ActionsLast(s.pages, true, s.layout, x, p, i);
    PerformedToTheEnd(s.mem, s.shielded, Actions(s.pages, true, s.layout), answers, 0, x);
    InstallShields(s.mem, s.shielded, s.pages, s.layout, answers, 0);
  }

  // ---- half-failed installs ----

  /** A store that leaves something different from the given code. */
  ghost predicate Alters(a: Action, orig: Memory) {
    a.Store? ==> exists k :: 0 <= k < |a.code| && a.code[k] != orig(a.at + k)
  }

  ghost predicate AllAlter(actions: seq<Action>, orig: Memory) {
    forall i :: 0 <= i < |actions| ==> Alters(actions[i], orig)
  }

  lemma {:induction false} AlteredStaysAltered(mem: Memory, shielded: set<int>, actions: seq<Action>,
                                               answers: Answers, call: nat, orig: Memory)
    requires AllAlter(actions, orig) && !Same(mem, orig)
    ensures !Same(Perform(mem, shielded, actions, answers, call).mem, orig)
    decreases |actions|
  {
    if actions != [] {
      assert forall i :: 0 <= i < |actions[1..]| ==> actions[1..][i] == actions[i + 1];
      assert Alters(actions[0], orig);
      match actions[0]
      case Protect(base) => AlteredStaysAltered(mem, shielded + {base}, actions[1..], answers, call + 1, orig);
      case Unprotect(base) => AlteredStaysAltered(mem, shielded - {base}, actions[1..], answers, call + 1, orig);
      case Store(at, code) =>
        StoreAlters(mem, actions[0], orig);
        AlteredStaysAltered(Write(mem, at, code), shielded, actions[1..], answers, call + 2, orig);
    }
  }

  lemma StoreAlters(mem: Memory, a: Action, orig: Memory)
    requires a.Store? && Alters(a, orig)
    ensures !Same(Write(mem, a.at, a.code), orig)
  {
    var k :| 0 <= k < |a.code| && a.code[k] != orig(a.at + k);
    assert Write(mem, a.at, a.code)(a.at + k) != orig(a.at + k);
  }

  /** The patch of the entry is not what the code looked like when it was prepared. */
  predicate NewCodeDiffers(e: Entry)
    requires e.size <= |e.oldCode| == |e.newCode|
  {
    exists k :: 0 <= k < e.size && e.newCode[k] != e.oldCode[k]
  }

  ghost predicate AllDiffer(es: seq<Entry>, layout: Layout)
    requires ValidEntries(es, layout)
  {
    forall i :: 0 <= i < |es| ==> NewCodeDiffers(es[i])
  }

  lemma {:induction false} StoresAlter(es: seq<Entry>, layout: Layout, orig: Memory)
    requires ValidEntries(es, layout) && AllDiffer(es, layout) && HonestEntries(es, orig)
    ensures AllAlter(Stores(es, true, layout), orig)
  {
    if es != [] {
      var rest, e := es[1..], es[0];
      assert forall i :: 0 <= i < |rest| ==> rest[i] == es[i + 1];
      StoresAlter(rest, layout, orig);
      var k :| 0 <= k < e.size && e.newCode[k] != e.oldCode[k];
      var a := StoreOf(e, true);
      assert a.code[k] != orig(a.at + k);
      assert Alters(a, orig);
    }
  }

  lemma {:induction false} ActionsAlter(pages: seq<Page>, layout: Layout, orig: Memory)
    requires ValidPages(pages, layout) && HonestPages(pages, orig)
    requires forall p :: 0 <= p < |pages| ==> AllDiffer(pages[p].entries, layout)
    ensures AllAlter(Actions(pages, true, layout), orig)
  {
    if pages != [] {
      hide Stores, AllDiffer, HonestEntries, ValidEntries;
      var rest := pages[1..];
      assert forall p :: 0 <= p < |rest| ==> rest[p] == pages[p + 1];
      StoresAlter(pages[0].entries, layout, orig);
      ActionsAlter(rest, layout, orig);
      assert Actions(pages, true, layout)
        == [Protect(pages[0].base)] + Stores(pages[0].entries, true, layout) + Actions(rest, true, layout);
    }
  }

  /** A half-failed install: exactly when the first call, protecting the first page, or the second one, lifting the
      protection of the first target, is the one that failed has the code stayed original. Otherwise the handle is
      not installed, an uninstall is refused and leaves the patches in, and a destroy is accepted, frees all pages
      and leaves them in too. */
  lemma HalfFailedInstall(s: State, orig: Memory, answers: Answers, later: Answers)
    requires PagesInOrder(s) && !s.installed && Same(s.mem, orig) && HonestPages(s.pages, orig)
    requires forall p :: 0 <= p < |s.pages| ==> AllDiffer(s.pages[p].entries, s.layout)
    requires Switch(s, true, answers).1 != SUCCESS
    ensures var t := Switch(s, true, answers).0;
      && !t.installed
      && (Same(t.mem, orig) <==> answers(0) != 0 || answers(1) != 0)
      && Switch(t, false, later) == (t, NOT_INSTALLED)
      && Destroy(t).1 == SUCCESS && Destroy(t).0.mapped !! Bases(s.pages) && Destroy(t).0.mem == t.mem
  {
    hide HonestPages, Bases, AllDiffer, ValidEntries, Same;
    FirstActions(s.pages, s.layout, answers);
    var all := Actions(s.pages, true, s.layout);
    assert all != [] && all[1..][0] == all[1] && all[1..][1..] == all[2..];
    if answers(0) == 0 {
      if answers(1) == 0 {
        ActionsAlter(s.pages, s.layout, orig);
        assert Alters(all[1], orig);
        assert AllAlter(all[1..], orig);
      }
      SecondStep(s.mem, s.shielded + {all[0].base}, all[1..], answers, orig);
    }
  }

  lemma SecondStep(mem: Memory, shielded: set<int>, actions: seq<Action>, answers: Answers, orig: Memory)
    requires actions != [] && actions[0].Store? && Same(mem, orig) && (answers(1) == 0 ==> AllAlter(actions, orig))
    ensures Same(Perform(mem, shielded, actions, answers, 1).mem, orig) <==> answers(1) != 0
  {
    hide Same;
    if answers(1) == 0 {
      assert Alters(actions[0], orig);
      StoreAlters(mem, actions[0], orig);
      assert forall i :: 0 <= i < |actions[1..]| ==> actions[1..][i] == actions[i + 1];
      assert AllAlter(actions[1..], orig);
      AlteredStaysAltered(Write(mem, actions[0].at, actions[0].code), shielded, actions[1..], answers, 3, orig);
    }
  }

  lemma FirstActions(pages: seq<Page>, layout: Layout, answers: Answers)
    requires ValidPages(pages, layout) && forall p :: 0 <= p < |pages| ==> |pages[p].entries| >= 1
    ensures var all := Actions(pages, true, layout);
      if pages == [] then all == [] else |all| >= 2 && all[0] == Protect(pages[0].base) && all[1].Store?
  {
    if pages != [] {
      assert Stores(pages[0].entries, true, layout) != [];
    }
  }

  /** In every run a destroy succeeds exactly while nothing is installed. It then leaves no page behind, and, in a run
      without a half-failed install, original code. */
  lemma DestroyLeavesNothing(layout: Layout, orig: Memory, runs: seq<Run>, events: seq<Event>)
    requires ValidRun(layout, orig, runs, events) && |events| > 0 && events[|events| - 1].DestroyEvent?
    ensures var n := |events|;
      && (!runs[n].state.live <==> !runs[n - 1].state.installed)
      && (runs[n].state.live ==> runs[n] == runs[n - 1])
      && (!runs[n].state.live ==> runs[n].state.mapped == {} && runs[n].state.shielded == {})
      && (!runs[n].state.live && runs[n].careful && !runs[n].torn ==> Same(runs[n].state.mem, orig))
  {
    hide Bases, ValidRequest, ValidPages, Perform, Actions, Invariant;
    var n := |events|;
    assert Next(runs[n - 1], events[n - 1], runs[n]);
    PagesAreConserved(layout, orig, runs, events);
    if !runs[n].state.live {
      EveryRunKeepsInvariant(layout, orig, runs, events);
      InvariantMeansOrder(runs[n], EVERYWHERE, orig);
      NoBases();
      if runs[n].careful && !runs[n].torn { NotInstalledIsOriginal(layout, orig, runs, events); }
    }
  }
}
