/** What holds in every run of one handle: the original code comes back, nothing outside the patched windows ever
    changes, prepare is all or nothing, and pages are conserved. */
module HookRuns {
  import opened Common
  import opened HookState

  ghost predicate Same(m: Memory, n: Memory) { forall x :: m(x) == n(x) }

  /** Addresses that belong to the targets of one handle. */
  type Region = int -> bool

  const EVERYWHERE: Region := (x: int) => true

  ghost predicate SameIn(region: Region, m: Memory, n: Memory) { forall x :: region(x) ==> m(x) == n(x) }

  predicate Within(e: Entry, x: int) { e.target <= x < e.target + e.size }

  /** Some entry's patch covers the address. */
  predicate Patched(pages: seq<Page>, x: int) {
    exists p, i :: 0 <= p < |pages| && 0 <= i < |pages[p].entries| && Within(pages[p].entries[i], x)
  }

  // ---- the last store to an address wins ----

  predicate Covers(a: Action, x: int) { a.Store? && a.at <= x < a.at + |a.code| }

  function LastByte(actions: seq<Action>, x: int): Option<byte> {
    if actions == [] then None
    else
      var later := LastByte(actions[1..], x);
      if later.Some? then later
      else if Covers(actions[0], x) then Some(actions[0].code[x - actions[0].at])
      else None
  }

  /** Carried out to the end, actions leave the last byte stored to each address, and the old one elsewhere. */
  lemma {:induction false} PerformedToTheEnd(mem: Memory, shielded: set<int>, actions: seq<Action>, answers: Answers,
                                             call: nat, x: int)
    requires Perform(mem, shielded, actions, answers, call).rv == SUCCESS
    ensures var last := LastByte(actions, x);
      Perform(mem, shielded, actions, answers, call).mem(x) == if last.Some? then last.value else mem(x)
    decreases |actions|
  {
    if actions != [] {
      match actions[0]
      case Protect(base) => PerformedToTheEnd(mem, shielded + {base}, actions[1..], answers, call + 1, x);
      case Unprotect(base) => PerformedToTheEnd(mem, shielded - {base}, actions[1..], answers, call + 1, x);
      case Store(at, code) => PerformedToTheEnd(Write(mem, at, code), shielded, actions[1..], answers, call + 2, x);
    }
  }

  /** Wherever they stop, actions change no address they do not cover. */
  lemma {:induction false} PerformedElsewhere(mem: Memory, shielded: set<int>, actions: seq<Action>,
                                              answers: Answers, call: nat, x: int)
    requires LastByte(actions, x).None?
    ensures Perform(mem, shielded, actions, answers, call).mem(x) == mem(x)
    decreases |actions|
  {
    if actions != [] {
      match actions[0]
      case Protect(base) => PerformedElsewhere(mem, shielded + {base}, actions[1..], answers, call + 1, x);
      case Unprotect(base) => PerformedElsewhere(mem, shielded - {base}, actions[1..], answers, call + 1, x);
      case Store(at, code) => PerformedElsewhere(Write(mem, at, code), shielded, actions[1..], answers, call + 2, x);
    }
  }

  lemma {:induction false} LastByteOfSum(a: seq<Action>, b: seq<Action>, x: int)
    ensures LastByte(a + b, x) == if LastByte(b, x).Some? then LastByte(b, x) else LastByte(a, x)
  {
    if a == [] {
      assert a + b == b;
    } else {
      assert (a + b)[1..] == a[1..] + b;
      LastByteOfSum(a[1..], b, x);
    }
  }

  /** Every byte an uninstall stores is the one of the given memory. */
  ghost predicate Honest(e: Entry, orig: Memory) {
    e.size <= |e.oldCode| && forall k :: 0 <= k < e.size ==> e.oldCode[k] == orig(e.target + k)
  }

  ghost predicate HonestEntries(es: seq<Entry>, orig: Memory) { forall i :: 0 <= i < |es| ==> Honest(es[i], orig) }

  ghost predicate HonestPages(pages: seq<Page>, orig: Memory) {
    forall p :: 0 <= p < |pages| ==> HonestEntries(pages[p].entries, orig)
  }

  /** The byte an install or uninstall stores at an address within the entry's patch. */
  function StoredByte(e: Entry, install: bool, x: int): byte
    requires e.size <= |e.oldCode| == |e.newCode| && Within(e, x)
  {
    if install then e.newCode[x - e.target] else e.oldCode[x - e.target]
  }

  ghost predicate Agree(es: seq<Entry>, install: bool, layout: Layout, x: int, b: byte)
    requires ValidEntries(es, layout)
  {
    forall i :: 0 <= i < |es| && Within(es[i], x) ==> StoredByte(es[i], install, x) == b
  }

  /** Every entry that covers the address stores the same byte there. */
  ghost predicate AllAgree(pages: seq<Page>, install: bool, layout: Layout, x: int, b: byte)
    requires ValidPages(pages, layout)
  {
    forall p :: 0 <= p < |pages| ==> Agree(pages[p].entries, install, layout, x, b)
  }

  lemma {:induction false} StoresReach(es: seq<Entry>, install: bool, layout: Layout, x: int, b: byte)
    requires ValidEntries(es, layout)
    ensures var last := LastByte(Stores(es, install, layout), x);
      && (last.Some? <==> exists i :: 0 <= i < |es| && Within(es[i], x))
      && (last.Some? && Agree(es, install, layout, x, b) ==> last.value == b)
  {
    if es != [] {
      var rest := es[1..];
      StoresReach(rest, install, layout, x, b);
      var all := Stores(es, install, layout);
      assert all[0] == StoreOf(es[0], install) && all[1..] == Stores(rest, install, layout);
      assert Covers(all[0], x) <==> Within(es[0], x);
      assert Within(es[0], x) ==> all[0].code[x - all[0].at] == StoredByte(es[0], install, x);
      hide Within, Covers, StoredByte, StoreOf, ValidEntries, Stores;
      assert forall i :: 0 <= i < |rest| ==> rest[i] == es[i + 1];
      assert forall i :: 1 <= i < |es| ==> es[i] == rest[i - 1];
      assert Agree(es, install, layout, x, b) ==> Agree(rest, install, layout, x, b);
    }
  }

  lemma {:induction false} ActionsReach(pages: seq<Page>, install: bool, layout: Layout, x: int, b: byte)
    requires ValidPages(pages, layout)
    ensures var last := LastByte(Actions(pages, install, layout), x);
      && (last.Some? <==> Patched(pages, x))
      && (last.Some? && AllAgree(pages, install, layout, x, b) ==> last.value == b)
  {
    if pages != [] {
      hide Agree, Stores;
      var before := if install then [Protect(pages[0].base)] else [];
      var stores := Stores(pages[0].entries, install, layout);
      var behind := if install then [] else [Unprotect(pages[0].base)];
      var rest := Actions(pages[1..], install, layout);
      assert Actions(pages, install, layout) == before + stores + behind + rest;
      LastByteOfSum(before + stores + behind, rest, x);
      LastByteOfSum(before + stores, behind, x);
      LastByteOfSum(before, stores, x);
      StoresReach(pages[0].entries, install, layout, x, b);
      ActionsReach(pages[1..], install, layout, x, b);
      PatchedSplit(pages, x);
    }
  }

  lemma PatchedSplit(pages: seq<Page>, x: int)
    requires pages != []
    ensures Patched(pages, x) <==>
      (exists i :: 0 <= i < |pages[0].entries| && Within(pages[0].entries[i], x)) || Patched(pages[1..], x)
  {
    assert forall p :: 1 <= p < |pages| ==> pages[p] == pages[1..][p - 1];
    if Patched(pages[1..], x) {
      var p, i :| 0 <= p < |pages[1..]| && 0 <= i < |pages[1..][p].entries| && Within(pages[1..][p].entries[i], x);
      assert Within(pages[p + 1].entries[i], x);
    }
  }

  /** The entry covers the address and none behind it in list order does. */
  ghost predicate LastToCover(pages: seq<Page>, x: int, p: nat, i: nat) {
    && p < |pages| && i < |pages[p].entries| && Within(pages[p].entries[i], x)
    && (forall j :: i < j < |pages[p].entries| ==> !Within(pages[p].entries[j], x))
    && (forall q, j :: p < q < |pages| && 0 <= j < |pages[q].entries| ==> !Within(pages[q].entries[j], x))
  }

  /** Every patched address has such an entry. */
  lemma {:induction false} SomeEntryIsLast(pages: seq<Page>, x: int) returns (p: nat, i: nat)
    requires Patched(pages, x)
    ensures LastToCover(pages, x, p, i)
  {
    var rest := pages[1..];
    PatchedSplit(pages, x);
    assert forall q :: 0 <= q < |rest| ==> rest[q] == pages[q + 1];
    if Patched(rest, x) {
      var q, j := SomeEntryIsLast(rest, x);
      p, i := q + 1, j;
      assert forall r :: p < r < |pages| ==> pages[r] == rest[r - 1];
    } else {
      p, i := 0, LastOf(pages[0].entries, x);
      forall r, k | 0 < r < |pages| && 0 <= k < |pages[r].entries| ensures !Within(pages[r].entries[k], x) {
        assert pages[r] == rest[r - 1];
      }
    }
  }

  function LastOf(es: seq<Entry>, x: int): (i: nat)
    requires exists i :: 0 <= i < |es| && Within(es[i], x)
    ensures i < |es| && Within(es[i], x) && forall j :: i < j < |es| ==> !Within(es[j], x)
  {
    var n := |es| - 1;
    if Within(es[n], x) then n
    else
      assert exists i :: 0 <= i < n && Within(es[..n][i], x) by {
        var i :| 0 <= i < |es| && Within(es[i], x);
        assert Within(es[..n][i], x);
      }
      LastOf(es[..n], x)
  }

  lemma {:induction false} StoresLast(es: seq<Entry>, install: bool, layout: Layout, x: int, i: nat)
    requires ValidEntries(es, layout) && i < |es| && Within(es[i], x)
    requires forall j :: i < j < |es| ==> !Within(es[j], x)
    ensures LastByte(Stores(es, install, layout), x) == Some(StoredByte(es[i], install, x))
  {
    var rest := es[1..];
    var all := Stores(es, install, layout);
    assert all[0] == StoreOf(es[0], install) && all[1..] == Stores(rest, install, layout);
    assert forall j :: 0 <= j < |rest| ==> rest[j] == es[j + 1];
    if i > 0 {
      StoresLast(rest, install, layout, x, i - 1);
    } else {
      StoresReach(rest, install, layout, x, 0);
    }
  }

  lemma {:induction false} ActionsLast(pages: seq<Page>, install: bool, layout: Layout, x: int, p: nat, i: nat)
    requires ValidPages(pages, layout) && LastToCover(pages, x, p, i)
    ensures LastByte(Actions(pages, install, layout), x) == Some(StoredByte(pages[p].entries[i], install, x))
  {
    hide Stores, StoredByte;
    var before := if install then [Protect(pages[0].base)] else [];
    var stores := Stores(pages[0].entries, install, layout);
    var behind := if install then [] else [Unprotect(pages[0].base)];
    var rest := Actions(pages[1..], install, layout);
    assert Actions(pages, install, layout) == before + stores + behind + rest;
    LastByteOfSum(before + stores + behind, rest, x);
    LastByteOfSum(before + stores, behind, x);
    LastByteOfSum(before, stores, x);
    assert forall q :: 0 <= q < |pages[1..]| ==> pages[1..][q] == pages[q + 1];
    if p > 0 {
      ActionsLast(pages[1..], install, layout, x, p - 1, i);
    } else {
      StoresLast(pages[0].entries, install, layout, x, i);
      assert !Patched(pages[1..], x);
      ActionsReach(pages[1..], install, layout, x, 0);
    }
  }

  lemma HonestAgree(es: seq<Entry>, layout: Layout, orig: Memory, x: int)
    requires ValidEntries(es, layout) && HonestEntries(es, orig)
    ensures Agree(es, false, layout, x, orig(x))
  {
    forall i | 0 <= i < |es| && Within(es[i], x) ensures StoredByte(es[i], false, x) == orig(x) {
      var k := x - es[i].target;
      assert es[i].oldCode[k] == orig(es[i].target + k);
    }
  }

  /** A finished uninstall leaves, on every patched address, the byte of the given memory, whatever was there. */
  lemma UninstallRestores(s: State, region: Region, orig: Memory, answers: Answers)
    requires s.installed && ValidPages(s.pages, s.layout) && HonestPages(s.pages, orig)
    requires UnpatchedIsOriginal(s, region, orig)
    requires Switch(s, false, answers).1 == SUCCESS
    ensures SameIn(region, Switch(s, false, answers).0.mem, orig)
  {
    var actions := Actions(s.pages, false, s.layout);
    forall x | region(x) ensures Switch(s, false, answers).0.mem(x) == orig(x) {
      PerformedToTheEnd(s.mem, s.shielded, actions, answers, 0, x);
      ActionsReach(s.pages, false, s.layout, x, orig(x));
      forall p | 0 <= p < |s.pages| ensures Agree(s.pages[p].entries, false, s.layout, x, orig(x)) {
        HonestAgree(s.pages[p].entries, s.layout, orig, x);
      }
    }
  }

  /** Install and uninstall, finished or not, leave every address alone that no patch covers. */
  lemma SwitchElsewhere(s: State, install: bool, answers: Answers, x: int)
    requires ValidPages(s.pages, s.layout) && !Patched(s.pages, x)
    ensures Switch(s, install, answers).0.mem(x) == s.mem(x)
  {
    ActionsReach(s.pages, install, s.layout, x, 0);
    PerformedElsewhere(s.mem, s.shielded, Actions(s.pages, install, s.layout), answers, 0, x);
  }

  // ---- write protection of the pages ----

  lemma {:induction false} StoresKeepShields(mem: Memory, shielded: set<int>, es: seq<Entry>, install: bool,
                                             layout: Layout,
                                             rest: seq<Action>, answers: Answers, call: nat)
    requires ValidEntries(es, layout)
    requires Perform(mem, shielded, Stores(es, install, layout) + rest, answers, call).rv == SUCCESS
    ensures exists m, k: nat ::
      Perform(mem, shielded, Stores(es, install, layout) + rest, answers, call)
        == Perform(m, shielded, rest, answers, k)
    decreases |es|
  {
    var all := Stores(es, install, layout) + rest;
    if es == [] {
      assert all == rest;
    } else {
      assert all[1..] == Stores(es[1..], install, layout) + rest;
      var store := StoreOf(es[0], install);
      StoresKeepShields(Write(mem, store.at, store.code), shielded, es[1..], install, layout, rest, answers, call + 2);
    }
  }

  /** A finished install protects every page. */
  lemma {:induction false} InstallShields(mem: Memory, shielded: set<int>, pages: seq<Page>, layout: Layout,
                                          answers: Answers, call: nat)
    requires ValidPages(pages, layout)
    requires Perform(mem, shielded, Actions(pages, true, layout), answers, call).rv == SUCCESS
    ensures Perform(mem, shielded, Actions(pages, true, layout), answers, call).shielded == shielded + Bases(pages)
    decreases |pages|
  {
    if pages != [] {
      hide Stores, StoreOf, Bases, Write;
      var rest, base := Actions(pages[1..], true, layout), pages[0].base;
      var stores, all := Stores(pages[0].entries, true, layout), Actions(pages, true, layout);
      assert all == [Protect(base)] + (stores + rest);
      assert all[0] == Protect(base) && all[1..] == stores + rest;
      StoresKeepShields(mem, shielded + {base}, pages[0].entries, true, layout, rest, answers, call + 1);
      var m, k: nat :| Perform(mem, shielded + {base}, stores + rest, answers, call + 1)
        == Perform(m, shielded + {base}, rest, answers, k);
      InstallShields(m, shielded + {base}, pages[1..], layout, answers, k);
      BasesSplit(pages);
      assert shielded + {base} + Bases(pages[1..]) == shielded + Bases(pages);
    } else {
      assert Bases(pages) == {};
    }
  }

  /** A finished uninstall lifts the protection of every page. */
  lemma {:induction false} UninstallShields(mem: Memory, shielded: set<int>, pages: seq<Page>, layout: Layout,
                                            answers: Answers, call: nat)
    requires ValidPages(pages, layout)
    requires Perform(mem, shielded, Actions(pages, false, layout), answers, call).rv == SUCCESS
    ensures Perform(mem, shielded, Actions(pages, false, layout), answers, call).shielded == shielded - Bases(pages)
    decreases |pages|
  {
    if pages != [] {
      hide Stores, StoreOf, Bases, Write;
      var rest, base := Actions(pages[1..], false, layout), pages[0].base;
      var stores, behind := Stores(pages[0].entries, false, layout), [Unprotect(base)] + rest;
      assert Actions(pages, false, layout) == stores + behind;
      StoresKeepShields(mem, shielded, pages[0].entries, false, layout, behind, answers, call);
      var m, k: nat :| Perform(mem, shielded, stores + behind, answers, call)
        == Perform(m, shielded, behind, answers, k);
      assert behind[0] == Unprotect(base) && behind[1..] == rest;
      UninstallShields(m, shielded - {base}, pages[1..], layout, answers, k + 1);
      BasesSplit(pages);
      assert shielded - {base} - Bases(pages[1..]) == shielded - Bases(pages);
    } else {
      assert Bases(pages) == {};
    }
  }

  lemma BasesSplit(pages: seq<Page>)
    requires pages != []
    ensures Bases(pages) == {pages[0].base} + Bases(pages[1..])
  {
    var rest := pages[1..];
    assert forall p :: 1 <= p < |pages| ==> pages[p] == rest[p - 1];
    assert forall p :: 0 <= p < |rest| ==> rest[p] == pages[p + 1];
    forall b ensures b in Bases(pages) <==> b in {pages[0].base} + Bases(rest) {
      if b in Bases(pages) {
        var p :| 0 <= p < |pages| && pages[p].base == b;
        if p > 0 { assert rest[p - 1].base == b; }
      }
      if b in Bases(rest) {
        var p :| 0 <= p < |rest| && rest[p].base == b;
        assert pages[p + 1].base == b;
      }
    }
  }

  predicate ProtectsOnly(actions: seq<Action>, bases: set<int>) {
    forall i :: 0 <= i < |actions| && actions[i].Protect? ==> actions[i].base in bases
  }

  /** Wherever they stop, actions protect no page but those they name. */
  lemma {:induction false} PerformShieldsOnly(mem: Memory, shielded: set<int>, actions: seq<Action>,
                                              answers: Answers, call: nat, bases: set<int>)
    requires shielded <= bases
    requires ProtectsOnly(actions, bases)
    ensures Perform(mem, shielded, actions, answers, call).shielded <= bases
    decreases |actions|
  {
    if actions != [] {
      assert forall i :: 0 <= i < |actions[1..]| ==> actions[1..][i] == actions[i + 1];
      match actions[0]
      case Protect(base) => PerformShieldsOnly(mem, shielded + {base}, actions[1..], answers, call + 1, bases);
      case Unprotect(base) => PerformShieldsOnly(mem, shielded - {base}, actions[1..], answers, call + 1, bases);
      case Store(at, code) =>
        PerformShieldsOnly(Write(mem, at, code), shielded, actions[1..], answers, call + 2, bases);
    }
  }

  lemma {:induction false} StoresOnlyStore(es: seq<Entry>, install: bool, layout: Layout)
    requires ValidEntries(es, layout)
    ensures forall i :: 0 <= i < |Stores(es, install, layout)| ==> Stores(es, install, layout)[i].Store?
  {
    if es != [] {
      StoresOnlyStore(es[1..], install, layout);
    }
  }

  lemma {:induction false} ProtectsOwnPages(pages: seq<Page>, install: bool, layout: Layout)
    requires ValidPages(pages, layout)
    ensures ProtectsOnly(Actions(pages, install, layout), Bases(pages))
  {
    if pages != [] {
      hide Stores, Bases;
      StoresOnlyStore(pages[0].entries, install, layout);
      ProtectsOwnPages(pages[1..], install, layout);
      BasesSplit(pages);
      var head := (if install then [Protect(pages[0].base)] else [])
        + Stores(pages[0].entries, install, layout)
        + (if install then [] else [Unprotect(pages[0].base)]);
      assert Actions(pages, install, layout) == head + Actions(pages[1..], install, layout);
      assert forall i :: 0 <= i < |head| && head[i].Protect? ==> head[i].base == pages[0].base;
    }
  }

  lemma SwitchShieldsOwnPages(s: State, install: bool, answers: Answers)
    requires ValidPages(s.pages, s.layout) && s.shielded <= Bases(s.pages)
    ensures Switch(s, install, answers).0.shielded <= Bases(s.pages)
  {
    hide Bases, Perform, Actions, ProtectsOnly;
    ProtectsOwnPages(s.pages, install, s.layout);
    PerformShieldsOnly(s.mem, s.shielded, Actions(s.pages, install, s.layout), answers, 0, Bases(s.pages));
  }

  // ---- runs ----

  datatype Event = PrepareEvent(request: Request) | InstallEvent(answers: Answers) | UninstallEvent(answers: Answers)
    | DestroyEvent

  function Apply(s: State, e: Event): (State, int)
    requires ValidPages(s.pages, s.layout)
  {
    match e
    case PrepareEvent(r) => (Prepare(s, r).state, Prepare(s, r).rv)
    case InstallEvent(answers) => Switch(s, true, answers)
    case UninstallEvent(answers) => Switch(s, false, answers)
    case DestroyEvent => Destroy(s)
  }

  /** What the rest of the library and the allocator promise about a prepare: errors are not 0, patches have the
      size of the entry's buffers, and a page that is handed out is not one that is in use. */
  ghost predicate ValidRequest(layout: Layout, r: Request) {
    && (forall pages: set<int> ::
      if r.alloc(pages).Err? then r.alloc(pages).code != SUCCESS else r.alloc(pages).value !in pages)
    && forall base, idx :: |r.fix(base, idx).code| == layout.patchMax && r.fix(base, idx).size <= layout.patchMax
  }

  /** The patch of a prepare stays within the addresses of the handle's targets. */
  ghost predicate RequestIn(region: Region, r: Request) {
    forall base, idx, x :: r.target <= x < r.target + r.fix(base, idx).size ==> region(x)
  }

  /** Distinct pages, each with at least one entry and no more than fit, all of them mapped; and no other page is
      protected. */
  ghost predicate PagesInOrder(s: State) {
    && ValidPages(s.pages, s.layout)
    && (forall p :: 0 <= p < |s.pages| ==> 1 <= |s.pages[p].entries| <= s.layout.capacity)
    && (forall p, q :: 0 <= p < q < |s.pages| ==> s.pages[p].base != s.pages[q].base)
    && Bases(s.pages) <= s.mapped
    && s.shielded <= Bases(s.pages)
  }

  /** The states that a handle can reach from its creation over the given code, with the calls made so far and
      whether an install has failed half-way since the code was last known to be original. */
  datatype Run = Run(state: State, torn: bool, careful: bool)

  /** A half-failed install: the first page got protected, so that code may have been patched, and then some call
      failed. A finished install or uninstall ends this condition. A run stays careful as long as no prepare
      succeeds in it. */
  function Advance(before: Run, e: Event): Run
    requires ValidPages(before.state.pages, before.state.layout)
  {
    var (s, rv) := Apply(before.state, e);
    var torn :=
      match e
      case InstallEvent(answers) =>
        if rv == SUCCESS then false
        else before.torn || (!before.state.installed && before.state.pages != [] && answers(0) == 0)
      case UninstallEvent(_) => rv != SUCCESS && before.torn
      case _ => before.torn;
    Run(s, torn, before.careful && !(e.PrepareEvent? && rv == SUCCESS && before.torn))
  }

  ghost predicate Next(before: Run, e: Event, after: Run) {
    && before.state.live && ValidPages(before.state.pages, before.state.layout)
    && (e.PrepareEvent? ==> ValidRequest(before.state.layout, e.request))
    && after == Advance(before, e)
  }

  /** A run over some code, of a handle that has the process for itself: runs[i] is what is reached after i events. */
  ghost predicate ValidRun(layout: Layout, orig: Memory, runs: seq<Run>, events: seq<Event>) {
    && layout.capacity >= 1
    && |runs| == |events| + 1
    && runs[0] == Run(Fresh(layout, orig, {}), false, true)
    && forall i :: 0 <= i < |events| ==> Next(runs[i], events[i], runs[i + 1])
  }

  ghost predicate UnpatchedIsOriginal(s: State, region: Region, orig: Memory) {
    forall x :: region(x) && !Patched(s.pages, x) ==> s.mem(x) == orig(x)
  }

  /** All patches lie in the region. */
  ghost predicate PatchesIn(pages: seq<Page>, region: Region) { forall x :: Patched(pages, x) ==> region(x) }

  ghost predicate Invariant(r: Run, region: Region, orig: Memory) {
    && PagesInOrder(r.state) && PatchesIn(r.state.pages, region)
    && (r.state.live ==> UnpatchedIsOriginal(r.state, region, orig))
    && (r.state.live || (!r.state.installed && r.state.pages == []))
    && (r.state.installed ==> !r.torn)
    && (r.careful ==> HonestPages(r.state.pages, orig))
    && (r.careful && !r.state.installed && !r.torn ==> SameIn(region, r.state.mem, orig) && r.state.shielded == {})
  }

  lemma SwitchKeeps(before: Run, install: bool, answers: Answers, after: Run, region: Region, orig: Memory)
    requires Invariant(before, region, orig)
    requires Next(before, if install then InstallEvent(answers) else UninstallEvent(answers), after)
    ensures Invariant(after, region, orig)
  {
    hide Patched, Perform, Actions, HonestPages, SameIn, ValidPages, Bases;
    var s := before.state;
    var t := after.state;
    assert t.pages == s.pages && t.mapped == s.mapped && t.layout == s.layout;
    SwitchShieldsOwnPages(s, install, answers);
    forall x | region(x) && !Patched(s.pages, x) ensures t.mem(x) == orig(x) {
      SwitchElsewhere(s, install, answers, x);
    }
    if after.careful && !t.installed && !after.torn {
      if s.installed {
        UninstallRestores(s, region, orig, answers);
        UninstallShields(s.mem, s.shielded, s.pages, s.layout, answers, 0);
      } else if install {
        FailedAtOnce(s, answers);
      }
    }
  }

  /** An install whose first call fails changes nothing; without pages it cannot fail. */
  lemma FailedAtOnce(s: State, answers: Answers)
    requires PagesInOrder(s) && !s.installed && (s.pages == [] || answers(0) != 0)
    ensures s.pages == [] ==> Switch(s, true, answers).1 == SUCCESS
    ensures Switch(s, true, answers).0.mem == s.mem && Switch(s, true, answers).0.shielded == s.shielded
  {
    hide Stores;
    if s.pages != [] {
      var all := Actions(s.pages, true, s.layout);
      assert all[0] == Protect(s.pages[0].base);
    }
  }

  // ---- prepare ----

  ghost predicate InSlot(pages: seq<Page>, base: int, idx: nat, e: Entry) {
    exists p :: 0 <= p < |pages| && pages[p].base == base && idx < |pages[p].entries| && pages[p].entries[idx] == e
  }

  ghost predicate InUse(pages: seq<Page>, base: int, idx: nat) { exists e :: InSlot(pages, base, idx, e) }

  /** What a successful prepare does to the page list: one entry appears, in the first unused slot of its page. */
  ghost predicate OneSlotFilled(before: seq<Page>, after: seq<Page>, base: int, idx: nat, e: Entry) {
    && (forall b, i: nat, d :: InSlot(after, b, i, d) <==> InSlot(before, b, i, d) || (b == base && i == idx && d == e))
    && (forall i: nat, d :: i >= idx ==> !InSlot(before, base, i, d))
    && (forall i: nat :: i < idx ==> InUse(before, base, i))
  }

  /** The entry belongs to the target, holds the code that is there now, and the patch made for its slot. */
  ghost predicate EntryIsRight(e: Entry, s: State, r: Request, patch: Patch) {
    && e.original == r.original && e.target == r.target && e.params == r.params
    && e.newCode == patch.code && e.size == patch.size && e.transit == patch.transit && e.trampoline == patch.trampoline
    && |e.oldCode| == s.layout.patchMax && forall k :: 0 <= k < |e.oldCode| ==> e.oldCode[k] == s.mem(r.target + k)
  }

  lemma GrownPage(pages: seq<Page>, p: nat, e: Entry)
    requires p < |pages|
    requires forall i, j :: 0 <= i < j < |pages| ==> pages[i].base != pages[j].base
    ensures var page := pages[p];
      OneSlotFilled(pages, pages[p := page.(entries := page.entries + [e])], page.base, |page.entries|, e)
  {
    var page := pages[p];
    var grown := page.(entries := page.entries + [e]);
    var after := pages[p := grown];
    forall b, i: nat, d
      ensures InSlot(after, b, i, d) <==> InSlot(pages, b, i, d) || (b == page.base && i == |page.entries| && d == e)
    {
      if InSlot(after, b, i, d) {
        var q :| 0 <= q < |after| && after[q].base == b && i < |after[q].entries| && after[q].entries[i] == d;
        if q != p { assert pages[q] == after[q]; } else if i < |page.entries| { assert pages[p].entries[i] == d; }
      }
      if InSlot(pages, b, i, d) {
        var q :| 0 <= q < |pages| && pages[q].base == b && i < |pages[q].entries| && pages[q].entries[i] == d;
        if q != p { assert after[q] == pages[q]; } else { assert after[p].entries[i] == d; }
      }
      if b == page.base && i == |page.entries| && d == e { assert after[p].entries[i] == e; }
    }
    forall i: nat | i < |page.entries| ensures InUse(pages, page.base, i) {
      assert InSlot(pages, page.base, i, page.entries[i]);
    }
  }

  lemma NewPage(pages: seq<Page>, base: int, e: Entry)
    requires forall q :: 0 <= q < |pages| ==> pages[q].base != base
    ensures OneSlotFilled(pages, [Page(base, [e])] + pages, base, 0, e)
  {
    var after := [Page(base, [e])] + pages;
    forall b, i: nat, d ensures InSlot(after, b, i, d) <==> InSlot(pages, b, i, d) || (b == base && i == 0 && d == e) {
      if InSlot(after, b, i, d) {
        var q :| 0 <= q < |after| && after[q].base == b && i < |after[q].entries| && after[q].entries[i] == d;
        if q > 0 { assert pages[q - 1] == after[q]; }
      }
      if InSlot(pages, b, i, d) {
        var q :| 0 <= q < |pages| && pages[q].base == b && i < |pages[q].entries| && pages[q].entries[i] == d;
        assert after[q + 1] == pages[q];
      }
      if b == base && i == 0 && d == e { assert after[0].entries[0] == e; }
    }
  }

  /** A failing prepare changes nothing. A successful one fills exactly one slot, the first unused one of its page,
      with a snapshot of the code as it is; code and protection stay as they are, and a page is added only when no
      page has room. */
  lemma PrepareAllOrNothing(s: State, r: Request)
    requires PagesInOrder(s) && ValidRequest(s.layout, r)
    ensures var p := Prepare(s, r);
      && (p.rv != SUCCESS <==> p.slot.None?) && (p.slot.None? ==> p.state == s)
      && (p.slot.Some? ==>
        && !s.installed && p.state.mem == s.mem && p.state.shielded == s.shielded
        && OneSlotFilled(s.pages, p.state.pages, p.slot.value.0, p.slot.value.1,
          NewEntry(s, r, p.slot.value.0, p.slot.value.1))
        && r.avail(p.slot.value.0, p.slot.value.1)
        && EntryIsRight(NewEntry(s, r, p.slot.value.0, p.slot.value.1), s, r, r.fix(p.slot.value.0, p.slot.value.1))
        && (p.state.mapped != s.mapped ==> forall q :: 0 <= q < |s.pages| ==> !HasRoom(s.layout, s.pages[q], r)))
  {
    var p := Prepare(s, r);
    if p.slot.Some? {
      assert EntryIsRight(NewEntry(s, r, p.slot.value.0, p.slot.value.1), s, r, r.fix(p.slot.value.0, p.slot.value.1));
      hide OneSlotFilled, NewEntry, ValidPages, ValidEntries, EntryIsRight;
      var found := FindPage(s.layout, s.pages, r);
      var e := NewEntry(s, r, p.slot.value.0, p.slot.value.1);
      if found.Some? {
        GrownPage(s.pages, found.value, e);
      } else {
        assert forall q :: 0 <= q < |s.pages| ==> s.pages[q].base in Bases(s.pages);
        NewPage(s.pages, p.slot.value.0, e);
      }
    }
  }

  lemma GrowthKeepsPages(s: State, p: nat, e: Entry)
    requires PagesInOrder(s) && p < |s.pages| && |s.pages[p].entries| < s.layout.capacity && ValidEntry(e, s.layout)
    ensures PagesInOrder(s.(pages := s.pages[p := s.pages[p].(entries := s.pages[p].entries + [e])]))
  {
    var grown := s.pages[p].(entries := s.pages[p].entries + [e]);
    var pages := s.pages[p := grown];
    assert ValidEntries(grown.entries, s.layout);
    assert forall q :: 0 <= q < |s.pages| ==> pages[q].base == s.pages[q].base;
    forall b ensures b in Bases(pages) <==> b in Bases(s.pages) {
      if b in Bases(pages) {
        var q :| 0 <= q < |pages| && pages[q].base == b;
        assert s.pages[q].base == b;
      }
      if b in Bases(s.pages) {
        var q :| 0 <= q < |s.pages| && s.pages[q].base == b;
        assert pages[q].base == b;
      }
    }
  }

  lemma AdditionKeepsPages(s: State, base: int, e: Entry)
    requires PagesInOrder(s) && base !in s.mapped && s.layout.capacity >= 1 && ValidEntry(e, s.layout)
    ensures PagesInOrder(s.(pages := [Page(base, [e])] + s.pages, mapped := s.mapped + {base}))
  {
    var pages := [Page(base, [e])] + s.pages;
    assert forall q :: 0 <= q < |s.pages| ==> s.pages[q].base in Bases(s.pages);
    assert base !in Bases(s.pages);
    assert pages[0].base == base && forall q :: 1 <= q < |pages| ==> pages[q] == s.pages[q - 1];
    assert ValidEntries(pages[0].entries, s.layout);
    hide ValidEntries;
    assert Bases(pages) == Bases(s.pages) + {base} by {
      BasesSplit(pages);
      assert pages[1..] == s.pages;
    }
    hide Bases;
  }

  lemma PrepareKeepsPages(s: State, r: Request)
    requires PagesInOrder(s) && ValidRequest(s.layout, r) && s.layout.capacity >= 1
    ensures PagesInOrder(Prepare(s, r).state)
  {
    hide ValidPages, ValidEntries, Bases, Snapshot;
    var p := Prepare(s, r);
    if p.slot.Some? {
      var found := FindPage(s.layout, s.pages, r);
      var e := NewEntry(s, r, p.slot.value.0, p.slot.value.1);
      if found.Some? {
        GrowthKeepsPages(s, found.value, e);
      } else {
        AdditionKeepsPages(s, r.alloc(s.mapped).value, e);
      }
    }
  }

  lemma PrepareKeepsHonesty(s: State, r: Request, region: Region, orig: Memory)
    requires PagesInOrder(s) && ValidRequest(s.layout, r) && HonestPages(s.pages, orig)
    requires SameIn(region, s.mem, orig) && RequestIn(region, r)
    ensures HonestPages(Prepare(s, r).state.pages, orig)
  {
    var p := Prepare(s, r);
    if p.slot.Some? {
      var e := NewEntry(s, r, p.slot.value.0, p.slot.value.1);
      forall k | 0 <= k < e.size ensures e.oldCode[k] == orig(e.target + k) {
        assert region(r.target + k);
      }
      assert Honest(e, orig);
    }
  }

  lemma SlotPatches(pages: seq<Page>, base: int, idx: nat, e: Entry, x: int)
    requires InSlot(pages, base, idx, e) && Within(e, x)
    ensures Patched(pages, x)
  {
    var p :| 0 <= p < |pages| && pages[p].base == base && idx < |pages[p].entries| && pages[p].entries[idx] == e;
    assert Within(pages[p].entries[idx], x);
  }

  lemma PatchedHasSlot(pages: seq<Page>, x: int) returns (base: int, idx: nat, e: Entry)
    requires Patched(pages, x)
    ensures InSlot(pages, base, idx, e) && Within(e, x)
  {
    var p, i :| 0 <= p < |pages| && 0 <= i < |pages[p].entries| && Within(pages[p].entries[i], x);
    base, idx, e := pages[p].base, i, pages[p].entries[i];
  }

  /** The patched addresses after a prepare are those before and those of the new entry. */
  lemma PreparePatches(s: State, r: Request, x: int)
    requires PagesInOrder(s) && ValidRequest(s.layout, r)
    ensures var p := Prepare(s, r);
      var added := p.slot.Some? && Within(NewEntry(s, r, p.slot.value.0, p.slot.value.1), x);
      Patched(p.state.pages, x) <==> (Patched(s.pages, x) || added)
  {
    PrepareAllOrNothing(s, r);
    hide Patched, InSlot, NewEntry, Within, PagesInOrder, ValidRequest, Prepare;
    var p := Prepare(s, r);
    if p.slot.Some? {
      var base, idx := p.slot.value.0, p.slot.value.1;
      var e := NewEntry(s, r, base, idx);
      if Patched(s.pages, x) {
        var b, i, d := PatchedHasSlot(s.pages, x);
        SlotPatches(p.state.pages, b, i, d, x);
      }
      if Within(e, x) { SlotPatches(p.state.pages, base, idx, e, x); }
      if Patched(p.state.pages, x) && !Within(e, x) {
        var b, i, d := PatchedHasSlot(p.state.pages, x);
        SlotPatches(s.pages, b, i, d, x);
      }
    }
  }

  lemma PrepareKeepsUnpatched(s: State, r: Request, region: Region, orig: Memory)
    requires PagesInOrder(s) && ValidRequest(s.layout, r) && UnpatchedIsOriginal(s, region, orig)
    requires PatchesIn(s.pages, region) && RequestIn(region, r)
    ensures UnpatchedIsOriginal(Prepare(s, r).state, region, orig) && PatchesIn(Prepare(s, r).state.pages, region)
  {
    var t := Prepare(s, r).state;
    forall x ensures Patched(s.pages, x) ==> Patched(t.pages, x) ensures Patched(t.pages, x) ==> region(x) {
      PreparePatches(s, r, x);
      hide Patched;
    }
    hide Patched;
  }

  lemma PrepareKeeps(before: Run, r: Request, after: Run, region: Region, orig: Memory)
    requires Invariant(before, region, orig) && before.state.layout.capacity >= 1 && RequestIn(region, r)
    requires Next(before, PrepareEvent(r), after)
    ensures Invariant(after, region, orig)
  {
    hide Patched, HonestPages, ValidPages, Bases, UnpatchedIsOriginal, PatchesIn, RequestIn, SameIn;
    var s := before.state;
    PrepareAllOrNothing(s, r);
    PrepareKeepsPages(s, r);
    PrepareKeepsUnpatched(s, r, region, orig);
    if after.careful && Prepare(s, r).rv == SUCCESS {
      PrepareKeepsHonesty(s, r, region, orig);
    }
  }

  lemma DestroyKeeps(before: Run, after: Run, region: Region, orig: Memory)
    requires Invariant(before, region, orig) && Next(before, DestroyEvent, after)
    ensures Invariant(after, region, orig)
  {
    if !before.state.installed { assert Bases(after.state.pages) == {}; }
  }

  lemma NextKeeps(before: Run, e: Event, after: Run, region: Region, orig: Memory)
    requires Invariant(before, region, orig) && before.state.layout.capacity >= 1 && Next(before, e, after)
    requires e.PrepareEvent? ==> RequestIn(region, e.request)
    ensures Invariant(after, region, orig)
  {
    hide Invariant;
    match e
    case PrepareEvent(r) => PrepareKeeps(before, r, after, region, orig);
    case InstallEvent(answers) => SwitchKeeps(before, true, answers, after, region, orig);
    case UninstallEvent(answers) => SwitchKeeps(before, false, answers, after, region, orig);
    case DestroyEvent => DestroyKeeps(before, after, region, orig);
  }

  /** No call touches the pages of others. */
  lemma ForeignPagesKept(s: State, e: Event)
    requires PagesInOrder(s) && (e.PrepareEvent? ==> ValidRequest(s.layout, e.request))
    ensures var t := Apply(s, e).0;
      && t.mapped - Bases(t.pages) == s.mapped - Bases(s.pages) && Bases(t.pages) <= t.mapped
      && forall b :: b in Bases(t.pages) && b !in Bases(s.pages) ==> b !in s.mapped
  {
    match e
    case PrepareEvent(r) =>
      var t := Prepare(s, r).state;
      var found := FindPage(s.layout, s.pages, r);
      if found.Some? {
        assert forall q :: 0 <= q < |s.pages| ==> t.pages[q].base == s.pages[q].base;
        SameBases(s.pages, t.pages);
      } else if t != s {
        assert t.pages[1..] == s.pages;
        BasesSplit(t.pages);
        hide Bases;
      }
    case DestroyEvent => assert Bases([]) == {};
    case _ =>
  }

  lemma SameBases(a: seq<Page>, b: seq<Page>)
    requires |a| == |b| && forall q :: 0 <= q < |a| ==> a[q].base == b[q].base
    ensures Bases(a) == Bases(b)
  {
    forall x | x in Bases(a) ensures x in Bases(b) {
      var q :| 0 <= q < |a| && a[q].base == x;
      assert b[q].base == x;
    }
    forall x | x in Bases(b) ensures x in Bases(a) {
      var q :| 0 <= q < |b| && b[q].base == x;
      assert a[q].base == x;
    }
  }

  // ---- where entries come from ----

  /** The entry was filled in by this prepare, in this slot; the first slot of a page is filled in when the page has
      just been allocated. */
  ghost predicate FilledBy(e: Entry, base: int, idx: nat, before: State, r: Request) {
    && !before.installed && r.translation == SUCCESS && Prepare(before, r).rv == SUCCESS && r.avail(base, idx)
    && (idx == 0 ==> r.alloc(before.mapped) == Ok(base))
    && EntryIsRight(e, before, r, r.fix(base, idx))
  }

  ghost predicate HasOrigin(runs: seq<Run>, events: seq<Event>, base: int, idx: nat, e: Entry) {
    exists k :: 0 <= k < |events| && k < |runs| && events[k].PrepareEvent?
      && FilledBy(e, base, idx, runs[k].state, events[k].request)
  }

  /** Every entry of every run was filled in by one of its prepares, for the slot it is in, and is still what it was. */
  lemma {:induction false} EveryEntryHasOrigin(layout: Layout, orig: Memory, runs: seq<Run>, events: seq<Event>,
                                               base: int, idx: nat, e: Entry)
    requires ValidRun(layout, orig, runs, events) && InSlot(runs[|events|].state.pages, base, idx, e)
    ensures HasOrigin(runs, events, base, idx, e)
    decreases |events|
  {
    hide FilledBy, InSlot, Advance;
    var n := |events|;
    if n == 0 {
      NoSlots(base, idx, e);
    } else {
      var earlier, ev, before := events[..n - 1], events[n - 1], runs[n - 1];
      assert ValidRun(layout, orig, runs[..n], earlier);
      assert Next(before, ev, runs[n]);
      AdvanceState(before, ev);
      if InSlot(before.state.pages, base, idx, e) {
        EveryEntryHasOrigin(layout, orig, runs[..n], earlier, base, idx, e);
        var k :| 0 <= k < |earlier| && k < |runs[..n]| && earlier[k].PrepareEvent?
          && FilledBy(e, base, idx, runs[..n][k].state, earlier[k].request);
        assert events[k] == earlier[k] && runs[k] == runs[..n][k];
      } else {
        EveryRunKeepsInvariant(layout, orig, runs[..n], earlier);
        InvariantMeansOrder(before, EVERYWHERE, orig);
        NewSlotIsFilled(before.state, ev, base, idx, e);
      }
    }
  }

  lemma NoSlots(base: int, idx: nat, e: Entry)
    ensures !InSlot([], base, idx, e)
  {}

  lemma NewSlotIsFilled(s: State, ev: Event, base: int, idx: nat, e: Entry)
    requires PagesInOrder(s) && (ev.PrepareEvent? ==> ValidRequest(s.layout, ev.request))
    requires InSlot(Apply(s, ev).0.pages, base, idx, e) && !InSlot(s.pages, base, idx, e)
    ensures ev.PrepareEvent? && FilledBy(e, base, idx, s, ev.request)
  {
    match ev
    case PrepareEvent(r) =>
      PrepareAllOrNothing(s, r);
      PrepareOnlyTranslated(s, r);
      hide InSlot, NewEntry, PagesInOrder, ValidRequest, Prepare, EntryIsRight;
    case DestroyEvent => NoSlots(base, idx, e);
    case _ =>
  }

  lemma PrepareOnlyTranslated(s: State, r: Request)
    requires forall p :: 0 <= p < |s.pages| ==> 1 <= |s.pages[p].entries|
    ensures var p := Prepare(s, r);
      p.slot.Some? ==>
        && !s.installed && r.translation == SUCCESS && p.rv == SUCCESS
        && (p.slot.value.1 == 0 ==> r.alloc(s.mapped) == Ok(p.slot.value.0))
  {}

  ghost predicate AllocatesOnly(r: Request, good: int -> bool) {
    forall pages: set<int> :: r.alloc(pages).Ok? ==> good(r.alloc(pages).value)
  }

  /** Every page of every run has an address that the allocator has answered with. */
  lemma {:induction false} EveryBaseIsAllocated(layout: Layout, orig: Memory, runs: seq<Run>, events: seq<Event>,
                                                good: int -> bool)
    requires ValidRun(layout, orig, runs, events)
    requires forall k :: 0 <= k < |events| && events[k].PrepareEvent? ==> AllocatesOnly(events[k].request, good)
    ensures forall p :: 0 <= p < |runs[|events|].state.pages| ==> good(runs[|events|].state.pages[p].base)
    decreases |events|
  {
    hide Advance, AllocatesOnly;
    var n := |events|;
    if n > 0 {
      var before, ev := runs[n - 1], events[n - 1];
      assert ValidRun(layout, orig, runs[..n], events[..n - 1]);
      EveryBaseIsAllocated(layout, orig, runs[..n], events[..n - 1], good);
      assert Next(before, ev, runs[n]);
      AdvanceState(before, ev);
      BasesStayGood(before.state, ev, good);
    }
  }

  lemma BasesStayGood(s: State, e: Event, good: int -> bool)
    requires ValidPages(s.pages, s.layout) && (e.PrepareEvent? ==> AllocatesOnly(e.request, good))
    requires forall p :: 0 <= p < |s.pages| ==> good(s.pages[p].base)
    ensures forall p :: 0 <= p < |Apply(s, e).0.pages| ==> good(Apply(s, e).0.pages[p].base)
  {
    hide Perform, Actions, Bases, ValidPages, NewEntry;
  }

  // ---- every run ----

  lemma {:induction false} EveryRunKeepsInvariant(layout: Layout, orig: Memory, runs: seq<Run>, events: seq<Event>)
    requires ValidRun(layout, orig, runs, events)
    ensures var last := runs[|events|];
      && Invariant(last, EVERYWHERE, orig) && last.state.layout == layout
      && last.state.mapped == Bases(last.state.pages)
    decreases |events|
  {
    hide Invariant;
    var n := |events|;
    if n == 0 {
      FreshInvariant(layout, EVERYWHERE, orig, {});
      assert Bases([]) == {};
    } else {
      var earlier, e := events[..n - 1], events[n - 1];
      assert ValidRun(layout, orig, runs[..n], earlier);
      EveryRunKeepsInvariant(layout, orig, runs[..n], earlier);
      var before, after := runs[n - 1], runs[n];
      assert Next(before, e, after);
      NextKeeps(before, e, after, EVERYWHERE, orig);
      InvariantMeansOrder(before, EVERYWHERE, orig);
      ForeignPagesKept(before.state, e);
      AdvanceState(before, e);
    }
  }

  lemma InvariantMeansOrder(r: Run, region: Region, orig: Memory)
    requires Invariant(r, region, orig)
    ensures PagesInOrder(r.state)
  {}

  lemma AdvanceState(before: Run, e: Event)
    requires ValidPages(before.state.pages, before.state.layout)
    ensures Advance(before, e).state == Apply(before.state, e).0
      && Apply(before.state, e).0.layout == before.state.layout
  {}

  lemma FreshInvariant(layout: Layout, region: Region, orig: Memory, mapped: set<int>)
    ensures Invariant(Run(Fresh(layout, orig, mapped), false, true), region, orig)
  {
    assert Bases([]) == {};
  }
}
