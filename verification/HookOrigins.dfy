/** What the entries of a run come from: the prepare that has filled each of them, the code this prepare has seen, and
    the code a finished install has put at its target. Both processors build on it. */
module HookOrigins {
  import opened Common
  import opened HookState
  import opened HookRuns
  import opened HookSafety

  /** The last event is an install that has finished. */
  ghost predicate JustInstalled(runs: seq<Run>, events: seq<Event>) {
    && |events| > 0 && |runs| == |events| + 1 && events[|events| - 1].InstallEvent?
    && !runs[|events| - 1].state.installed && runs[|events|].state.installed
  }

  /** No entry behind this one in list order covers a byte of its patch. */
  ghost predicate Prevails(pages: seq<Page>, p: nat, i: nat)
    requires p < |pages| && i < |pages[p].entries|
  {
    forall x :: Within(pages[p].entries[i], x) ==> LastToCover(pages, x, p, i)
  }

  lemma BeforeInstall(layout: Layout, orig: Memory, runs: seq<Run>, events: seq<Event>)
    requires ValidRun(layout, orig, runs, events) && JustInstalled(runs, events)
    ensures var n := |events|; var s, t := runs[n - 1].state, runs[n].state;
      && PagesInOrder(s) && Switch(s, true, events[n - 1].answers) == (t, SUCCESS)
      && t.pages == s.pages && s.layout == layout
  {
    hide Perform, Actions, ValidPages, Bases, Advance, Invariant;
    var n := |events|;
    var before := runs[n - 1];
    assert ValidRun(layout, orig, runs[..n], events[..n - 1]);
    EveryRunKeepsInvariant(layout, orig, runs[..n], events[..n - 1]);
    InvariantMeansOrder(before, EVERYWHERE, orig);
    assert Next(before, events[n - 1], runs[n]);
    AdvanceState(before, events[n - 1]);
  }

  /** Where its patch prevails, the code an install has left is the new code of the entry. */
  lemma PatchIsInPlace(layout: Layout, orig: Memory, runs: seq<Run>, events: seq<Event>, p: nat, i: nat, k: nat)
    requires ValidRun(layout, orig, runs, events) && JustInstalled(runs, events)
    requires var pages := runs[|events|].state.pages;
      p < |pages| && i < |pages[p].entries| && Prevails(pages, p, i) && k < pages[p].entries[i].size
    ensures var t := runs[|events|].state; var d := t.pages[p].entries[i];
      && Patched(t.pages, d.target + k) && k < |d.newCode| && t.mem(d.target + k) == d.newCode[k]
  {
    hide PagesInOrder, Switch, LastToCover, Patched;
    BeforeInstall(layout, orig, runs, events);
    var s, t := runs[|events| - 1].state, runs[|events|].state;
    var d := t.pages[p].entries[i];
    assert Within(d, d.target + k);
    CoveredIsPatched(t.pages, d.target + k, p, i);
    LastEntryPatches(s, events[|events| - 1].answers, d.target + k, p, i);
  }

  lemma CoveredIsPatched(pages: seq<Page>, x: int, p: nat, i: nat)
    requires p < |pages| && i < |pages[p].entries| && Within(pages[p].entries[i], x)
    ensures Patched(pages, x)
  {}

  /** The prepare that has filled a slot. */
  lemma SlotHasOrigin(layout: Layout, orig: Memory, runs: seq<Run>, events: seq<Event>, p: nat, i: nat)
    returns (k: nat)
    requires ValidRun(layout, orig, runs, events)
    requires var pages := runs[|events|].state.pages; p < |pages| && i < |pages[p].entries|
    ensures k < |events| && events[k].PrepareEvent?
    ensures var page := runs[|events|].state.pages[p];
      FilledBy(page.entries[i], page.base, i, runs[k].state, events[k].request)
  {
    hide FilledBy;
    var page := runs[|events|].state.pages[p];
    var d := page.entries[i];
    assert InSlot(runs[|events|].state.pages, page.base, i, d);
    EveryEntryHasOrigin(layout, orig, runs, events, page.base, i, d);
    k :| 0 <= k < |events| && k < |runs| && events[k].PrepareEvent?
      && FilledBy(d, page.base, i, runs[k].state, events[k].request);
  }

  lemma {:induction false} CarefulBefore(layout: Layout, orig: Memory, runs: seq<Run>, events: seq<Event>, k: nat)
    requires ValidRun(layout, orig, runs, events) && runs[|events|].careful && k <= |events|
    ensures runs[k].careful
    decreases |events|
  {
    var n := |events|;
    if k < n {
      assert Next(runs[n - 1], events[n - 1], runs[n]);
      CarefulBefore(layout, orig, runs[..n], events[..n - 1], k);
    }
  }

  /** In a run in which no prepare has succeeded behind a half-failed install, every successful prepare has seen the
      original code. */
  lemma PreparesSeeOriginal(layout: Layout, orig: Memory, runs: seq<Run>, events: seq<Event>, k: nat)
    requires ValidRun(layout, orig, runs, events) && runs[|events|].careful && k < |events|
    requires events[k].PrepareEvent? && Prepare(runs[k].state, events[k].request).rv == SUCCESS
    ensures Same(runs[k].state.mem, orig)
  {
    CarefulBefore(layout, orig, runs, events, k);
    CarefulBefore(layout, orig, runs, events, k + 1);
    assert Next(runs[k], events[k], runs[k + 1]);
    assert ValidRun(layout, orig, runs[..k + 1], events[..k]);
    NotInstalledIsOriginal(layout, orig, runs[..k + 1], events[..k]);
  }

  /** The bytes that a prepare of a function at `func` has read are those of the code memory. */
  ghost predicate ReadFrom(mem: Memory, func: int, code: seq<byte>) {
    forall b :: 0 <= b < |code| ==> mem(func + b) == code[b]
  }
}
