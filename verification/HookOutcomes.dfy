/** What the calls of a handle answer: for prepare, install, uninstall and destroy, success and every failing result by
    conditions on the handle, the request and the answers of the operating system. */
module HookOutcomes {
  import opened Common
  import opened HookState
  import opened HookRuns

  // ---- prepare ----

  /** The page has an unused slot that is near enough. */
  predicate Accepts(layout: Layout, page: Page, r: Request) {
    |page.entries| < layout.capacity && r.avail(page.base, |page.entries|)
  }

  /** Page `p` is the first one on the list that accepts the request. */
  ghost predicate FirstToAccept(s: State, r: Request, p: nat) {
    p < |s.pages| && Accepts(s.layout, s.pages[p], r) && forall q :: 0 <= q < p ==> !Accepts(s.layout, s.pages[q], r)
  }

  ghost predicate SomePageAccepts(s: State, r: Request) {
    exists p :: 0 <= p < |s.pages| && Accepts(s.layout, s.pages[p], r)
  }

  /** The request is put into the first unused slot of page `k`, and the rest of the list stays as it is. */
  ghost predicate TakesSlotOf(s: State, p: Prepared, k: nat) {
    && k < |s.pages| == |p.state.pages| && p.slot == Some((s.pages[k].base, |s.pages[k].entries|))
    && p.state.pages[k].base == s.pages[k].base && p.state.mapped == s.mapped
    && |p.state.pages[k].entries| == |s.pages[k].entries| + 1
    && p.state.pages[k].entries[..|s.pages[k].entries|] == s.pages[k].entries
    && forall q :: 0 <= q < |s.pages| && q != k ==> p.state.pages[q] == s.pages[q]
  }

  /** The request is put into the first slot of a new page, which comes to the front of the list. */
  predicate TakesNewPage(s: State, p: Prepared, base: int) {
    && p.slot == Some((base, 0)) && p.state.mapped == s.mapped + {base} && |p.state.pages| == |s.pages| + 1
    && p.state.pages[0].base == base && |p.state.pages[0].entries| == 1 && p.state.pages[1..] == s.pages
  }

  /** When a prepare succeeds, and with which code it fails: the handle must not be installed, the translation must
      have succeeded, and some page on the list, or else a new one, must have a slot that is near enough. And which slot
      it takes: one of the first page on the list that has one, or of a new one if none has. */
  lemma PrepareExactly(s: State, r: Request)
    requires ValidRequest(s.layout, r)
    ensures var rv, alloc := Prepare(s, r).rv, r.alloc(s.mapped);
      if s.installed then rv == ALREADY_INSTALLED
      else if r.translation != SUCCESS then rv == r.translation
      else if SomePageAccepts(s, r) then rv == SUCCESS
      else if alloc.Err? then rv == alloc.code
      else rv == (if r.avail(alloc.value, 0) then SUCCESS else NO_SPACE_NEAR_TARGET_ADDR)
    ensures var p, alloc := Prepare(s, r), r.alloc(s.mapped);
      var served := SomePageAccepts(s, r) || (alloc.Ok? && r.avail(alloc.value, 0));
      && (p.rv == SUCCESS <==> !s.installed && r.translation == SUCCESS && served)
      && (p.rv == SUCCESS && SomePageAccepts(s, r) ==> exists k :: FirstToAccept(s, r, k) && TakesSlotOf(s, p, k))
      && (p.rv == SUCCESS && !SomePageAccepts(s, r) ==> TakesNewPage(s, p, alloc.value))
      && (p.rv != SUCCESS ==> p.state == s && p.slot == None)
  {
    var found := FindPage(s.layout, s.pages, r);
    forall q | 0 <= q < |s.pages| ensures Accepts(s.layout, s.pages[q], r) <==> HasRoom(s.layout, s.pages[q], r) {}
    if found.Some? {
      assert FirstToAccept(s, r, found.value);
      if Prepare(s, r).rv == SUCCESS { assert TakesSlotOf(s, Prepare(s, r), found.value); }
    }
    hide FindPage, NewEntry;
  }

  // ---- install and uninstall ----

  /** The calls of an install or uninstall in the order in which they are made, and whether the answer is looked at:
      two for each entry, with one before those of a page that is to be protected, or one behind them, whose answer is
      not looked at, for a page that is to be unprotected. */
  function LookedAt(pages: seq<Page>, install: bool): seq<bool> {
    if pages == [] then []
    else
      (if install then [true] else []) + seq(2 * |pages[0].entries|, _ => true) + (if install then [] else [false])
      + LookedAt(pages[1..], install)
  }

  /** Call `k` is the first one whose answer is looked at and is not 0. */
  ghost predicate FailsAt(looked: seq<bool>, answers: Answers, call: nat, k: nat) {
    && k < |looked| && looked[k] && answers(call + k) != 0
    && forall j :: 0 <= j < k && looked[j] ==> answers(call + j) == 0
  }

  ghost predicate AllAnswered(looked: seq<bool>, answers: Answers, call: nat) {
    forall j :: 0 <= j < |looked| && looked[j] ==> answers(call + j) == 0
  }

  /** The calls of an action, and of a list of actions. */
  function CallsOfOne(a: HookState.Action): seq<bool> {
    match a
    case Protect(_) => [true]
    case Unprotect(_) => [false]
    case Store(_, _) => [true, true]
  }

  function CallsOf(actions: seq<HookState.Action>): seq<bool> {
    if actions == [] then [] else CallsOfOne(actions[0]) + CallsOf(actions[1..])
  }

  lemma {:induction false} CallsOfSum(a: seq<HookState.Action>, b: seq<HookState.Action>)
    ensures CallsOf(a + b) == CallsOf(a) + CallsOf(b)
  {
    if a == [] {
      assert a + b == b;
    } else {
      assert (a + b)[0] == a[0] && (a + b)[1..] == a[1..] + b;
      CallsOfSum(a[1..], b);
    }
  }

  lemma FirstStore(es: seq<Entry>, install: bool, layout: Layout)
    requires ValidEntries(es, layout) && es != []
    ensures ValidEntry(es[0], layout) && ValidEntries(es[1..], layout)
    ensures Stores(es, install, layout) == [StoreOf(es[0], install)] + Stores(es[1..], install, layout)
  {
    hide ValidEntry;
  }

  lemma {:induction false} CallsOfStores(es: seq<Entry>, install: bool, layout: Layout)
    requires ValidEntries(es, layout)
    ensures CallsOf(Stores(es, install, layout)) == seq(2 * |es|, _ => true)
  {
    if es != [] {
      FirstStore(es, install, layout);
      hide Stores, ValidEntries, ValidEntry;
      CallsOfStores(es[1..], install, layout);
      assert Stores(es, install, layout)[1..] == Stores(es[1..], install, layout);
    }
  }

  /** The actions of one page. */
  function PageActions(page: Page, install: bool, layout: Layout): seq<HookState.Action>
    requires ValidEntries(page.entries, layout)
  {
    (if install then [Protect(page.base)] else []) + Stores(page.entries, install, layout)
    + (if install then [] else [Unprotect(page.base)])
  }

  lemma ActionsSplit(pages: seq<Page>, install: bool, layout: Layout)
    requires ValidPages(pages, layout) && pages != []
    ensures ValidEntries(pages[0].entries, layout) && ValidPages(pages[1..], layout)
    ensures Actions(pages, install, layout)
      == PageActions(pages[0], install, layout) + Actions(pages[1..], install, layout)
  {
    hide Stores, ValidEntries;
    assert forall p :: 0 <= p < |pages[1..]| ==> pages[1..][p] == pages[p + 1];
  }

  lemma CallsOfPage(page: Page, install: bool, layout: Layout)
    requires ValidEntries(page.entries, layout)
    ensures CallsOf(PageActions(page, install, layout))
      == (if install then [true] else []) + seq(2 * |page.entries|, _ => true) + (if install then [] else [false])
  {
    var first := if install then [Protect(page.base)] else [];
    var stores := Stores(page.entries, install, layout);
    var last := if install then [] else [Unprotect(page.base)];
    CallsOfStores(page.entries, install, layout);
    hide Stores;
    CallsOfSum(first + stores, last);
    CallsOfSum(first, stores);
  }

  lemma {:induction false} CallsOfActions(pages: seq<Page>, install: bool, layout: Layout)
    requires ValidPages(pages, layout)
    ensures CallsOf(Actions(pages, install, layout)) == LookedAt(pages, install)
  {
    if pages != [] {
      ActionsSplit(pages, install, layout);
      hide Actions, PageActions, CallsOf, ValidEntries;
      CallsOfPage(pages[0], install, layout);
      CallsOfActions(pages[1..], install, layout);
      CallsOfSum(PageActions(pages[0], install, layout), Actions(pages[1..], install, layout));
    }
  }

  /** Whether all goes well, and which call is the first to fail, when `first` comes before `rest`. */
  lemma FirstCalls(first: seq<bool>, rest: seq<bool>, answers: Answers, call: nat)
    ensures AllAnswered(first + rest, answers, call)
      <==> AllAnswered(first, answers, call) && AllAnswered(rest, answers, call + |first|)
    ensures forall k :: FailsAt(first, answers, call, k) ==> FailsAt(first + rest, answers, call, k)
  {
    var all := first + rest;
    assert forall j :: 0 <= j < |rest| ==> all[|first| + j] == rest[j];
    assert forall j :: 0 <= j < |first| ==> all[j] == first[j];
  }

  lemma LaterCall(first: seq<bool>, rest: seq<bool>, answers: Answers, call: nat, k: nat)
    requires AllAnswered(first, answers, call) && FailsAt(rest, answers, call + |first|, k)
    ensures FailsAt(first + rest, answers, call, |first| + k)
  {
    var all := first + rest;
    assert forall j :: 0 <= j < |rest| ==> all[|first| + j] == rest[j];
    forall j | 0 <= j < |first| + k && all[j] ensures answers(call + j) == 0 {
      if j >= |first| { assert rest[j - |first|]; }
    }
  }

  /** Memory and protected pages after an action. */
  function Written(mem: Memory, a: HookState.Action): Memory { if a.Store? then Write(mem, a.at, a.code) else mem }

  function Protected(shielded: set<int>, a: HookState.Action): set<int> {
    match a
    case Protect(base) => shielded + {base}
    case Unprotect(base) => shielded - {base}
    case Store(_, _) => shielded
  }

  /** The first action either leads on to the others or ends with its first or second call, before or after the code is
      written. */
  lemma PerformFirst(mem: Memory, shielded: set<int>, actions: seq<HookState.Action>, answers: Answers, call: nat)
    requires actions != []
    ensures var a, w := actions[0], Perform(mem, shielded, actions, answers, call); var n := |CallsOfOne(a)|;
      if AllAnswered(CallsOfOne(a), answers, call) then
        w == Perform(Written(mem, a), Protected(shielded, a), actions[1..], answers, call + n)
      else
        var k := if answers(call) != 0 then 0 else 1;
        && FailsAt(CallsOfOne(a), answers, call, k) && w.rv == answers(call + k) && w.rv != SUCCESS
        && w.mem == if k == 0 then mem else Written(mem, a)
  {
    var looked := CallsOfOne(actions[0]);
    hide Write;
    assert AllAnswered(looked, answers, call) && looked[0] ==> answers(call + 0) == 0;
    assert AllAnswered(looked, answers, call) && |looked| == 2 && looked[1] ==> answers(call + 1) == 0;
  }

  /** Actions are carried out to the end exactly when every answer that is looked at is 0, and otherwise end with the
      first one that is not. */
  lemma {:induction false} PerformExactly(mem: Memory, shielded: set<int>, actions: seq<HookState.Action>,
                                          answers: Answers, call: nat)
    ensures var rv, looked := Perform(mem, shielded, actions, answers, call).rv, CallsOf(actions);
      && (rv == SUCCESS <==> AllAnswered(looked, answers, call))
      && (rv != SUCCESS ==> exists k :: FailsAt(looked, answers, call, k) && rv == answers(call + k))
    decreases |actions|
  {
    if actions != [] {
      var first, rest, a := CallsOfOne(actions[0]), actions[1..], actions[0];
      PerformFirst(mem, shielded, actions, answers, call);
      FirstCalls(first, CallsOf(rest), answers, call);
      PerformExactly(Written(mem, a), Protected(shielded, a), rest, answers, call + |first|);
      var w := Perform(mem, shielded, actions, answers, call);
      assert CallsOf(actions) == first + CallsOf(rest);
      hide Perform, CallsOf, CallsOfOne, FailsAt, AllAnswered, Written, Protected;
      if w.rv != SUCCESS && AllAnswered(first, answers, call) {
        var k :| FailsAt(CallsOf(rest), answers, call + |first|, k) && w.rv == answers(call + |first| + k);
        LaterCall(first, CallsOf(rest), answers, call, k);
        assert w.rv == answers(call + (|first| + k));
      }
    }
  }

  /** What an install or uninstall answers. If the handle is already as it is to be, this is refused and nothing
      changes; otherwise success means that every answer that is looked at is 0, and a failing result is the first that
      is not. The handle becomes installed or not installed by a success alone, and its pages stay as they are in any
      case. */
  lemma SwitchExactly(s: State, install: bool, answers: Answers)
    requires ValidPages(s.pages, s.layout)
    ensures var (v, rv) := Switch(s, install, answers);
      s.installed == install ==> v == s && rv == (if install then ALREADY_INSTALLED else NOT_INSTALLED)
    ensures var (v, rv) := Switch(s, install, answers); var looked := LookedAt(s.pages, install);
      s.installed != install ==>
        && (rv == SUCCESS <==> forall j :: 0 <= j < |looked| && looked[j] ==> answers(j) == 0)
        && (rv != SUCCESS ==> exists k :: FailsAt(looked, answers, 0, k) && rv == answers(k))
        && v.installed == (if rv == SUCCESS then install else !install)
        && v.live == s.live && v.pages == s.pages && v.mapped == s.mapped && v.layout == s.layout
  {
    hide Actions, Perform, CallsOf, LookedAt, FailsAt, ValidPages;
    CallsOfActions(s.pages, install, s.layout);
    PerformExactly(s.mem, s.shielded, Actions(s.pages, install, s.layout), answers, 0);
  }

  // ---- destroy ----

  ghost predicate OnList(pages: seq<Page>, base: int) { exists p :: 0 <= p < |pages| && pages[p].base == base }

  /** What a destroy answers, and what it does to the pages, the flags and the code. */
  lemma DestroyExactly(s: State, base: int)
    ensures var (v, rv) := Destroy(s);
      && rv == (if s.installed then ALREADY_INSTALLED else SUCCESS)
      && (rv != SUCCESS ==> v == s)
      && (rv == SUCCESS ==> !v.live && !v.installed && v.pages == [] && v.mem == s.mem)
      && (rv == SUCCESS && base in s.mapped ==> (base in v.mapped <==> !OnList(s.pages, base)))
      && (base !in s.mapped ==> base !in v.mapped)
  {}
}
