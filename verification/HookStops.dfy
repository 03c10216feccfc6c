/** What an install or uninstall has done when one of its calls fails. */
module HookStops {
  import opened Common
  import opened HookState
  import opened HookRuns
  import opened HookOutcomes

  /** Subtraction of numbers of calls. */
  function Less(k: nat, n: nat): nat { if k >= n then k - n else 0 }

  /** The part of the pages that an install or uninstall has begun with when call `k` fails. A page takes a call for its
      own protection, first or last, and two for each entry, whose code is written between them. */
  function Begun(pages: seq<Page>, install: bool, k: nat): seq<Page> {
    if pages == [] || k == 0 then []
    else
      var es, own := pages[0].entries, 1 + 2 * |pages[0].entries|;
      var written := if install then k / 2 else (k + 1) / 2;
      if written >= |es| then [pages[0]] + Begun(pages[1..], install, Less(k, own))
      else [pages[0].(entries := es[..written])]
  }

  /** The actions that have been begun with when call `k` fails. */
  function ActionsBegun(actions: seq<HookState.Action>, k: nat): seq<HookState.Action> {
    if actions == [] || k == 0 then []
    else [actions[0]] + ActionsBegun(actions[1..], Less(k, |CallsOfOne(actions[0])|))
  }

  /** Call `k` of `first + rest` is one of `first`, or else one of `rest`. */
  lemma WhichCalls(first: seq<bool>, rest: seq<bool>, answers: Answers, call: nat, k: nat)
    requires FailsAt(first + rest, answers, call, k)
    ensures if k < |first| then FailsAt(first, answers, call, k)
      else AllAnswered(first, answers, call) && FailsAt(rest, answers, call + |first|, k - |first|)
  {
    var all := first + rest;
    assert forall j :: 0 <= j < |first| ==> all[j] == first[j];
    if k >= |first| {
      forall j | 0 <= j < k - |first| && rest[j] ensures answers(call + |first| + j) == 0 {
        assert all[|first| + j] && answers(call + (|first| + j)) == 0;
      }
    }
  }

  lemma {:induction false} PerformStops(mem: Memory, shielded: set<int>, actions: seq<HookState.Action>,
                                        answers: Answers, call: nat, k: nat, x: int)
    requires FailsAt(CallsOf(actions), answers, call, k)
    ensures var last := LastByte(ActionsBegun(actions, k), x);
      Perform(mem, shielded, actions, answers, call).mem(x) == if last.Some? then last.value else mem(x)
    decreases |actions|
  {
    var first, rest, a := CallsOfOne(actions[0]), actions[1..], actions[0];
    PerformFirst(mem, shielded, actions, answers, call);
    WhichCalls(first, CallsOf(rest), answers, call, k);
    hide Perform, CallsOf;
    if k >= |first| {
      PerformStops(Written(mem, a), Protected(shielded, a), rest, answers, call + |first|, k - |first|, x);
    } else {
      assert first[0] && k == 1 ==> answers(call + 0) == 0;
    }
  }

  lemma FirstBegun(actions: seq<HookState.Action>, k: nat)
    requires actions != [] && k > 0
    ensures ActionsBegun(actions, k)
      == [actions[0]] + ActionsBegun(actions[1..], Less(k, |CallsOfOne(actions[0])|))
  {}

  lemma NoneBegun(actions: seq<HookState.Action>, k: nat)
    requires actions == [] || k == 0
    ensures ActionsBegun(actions, k) == []
  {}

  lemma {:induction false} BegunSum(a: seq<HookState.Action>, b: seq<HookState.Action>, k: nat)
    ensures ActionsBegun(a + b, k) == ActionsBegun(a, k) + ActionsBegun(b, Less(k, |CallsOf(a)|))
  {
    hide ActionsBegun, CallsOfOne;
    if a == [] {
      NoneBegun(a, k);
      assert a + b == b;
    } else if k == 0 {
      NoneBegun(a, k);
      NoneBegun(a + b, k);
      NoneBegun(b, 0);
    } else {
      var first, rest := [a[0]], a[1..];
      var left := Less(k, |CallsOfOne(a[0])|);
      BegunSum(rest, b, left);
      assert (a + b)[0] == a[0] && (a + b)[1..] == rest + b;
      FirstBegun(a, k);
      FirstBegun(a + b, k);
      assert Less(left, |CallsOf(rest)|) == Less(k, |CallsOf(a)|);
      hide CallsOf, Less;
      var here, there := ActionsBegun(rest, left), ActionsBegun(b, Less(left, |CallsOf(rest)|));
      assert first + (here + there) == (first + here) + there;
    }
  }

  lemma {:induction false} BegunStores(es: seq<Entry>, install: bool, layout: Layout, k: nat)
    requires ValidEntries(es, layout)
    ensures var n := if (k + 1) / 2 >= |es| then |es| else (k + 1) / 2;
      ActionsBegun(Stores(es, install, layout), k) == Stores(es[..n], install, layout)
  {
    var n := if (k + 1) / 2 >= |es| then |es| else (k + 1) / 2;
    if es != [] && k > 0 {
      FirstStore(es, install, layout);
      FirstStore(es[..n], install, layout);
      hide Stores, ValidEntries, ValidEntry;
      BegunStores(es[1..], install, layout, Less(k, 2));
      assert es[..n][0] == es[0] && es[..n][1..] == es[1..][..n - 1];
      assert Stores(es, install, layout)[1..] == Stores(es[1..], install, layout);
    }
  }

  /** The protection of a page does not change its code. */
  lemma PageBytes(page: Page, install: bool, layout: Layout, x: int)
    requires ValidEntries(page.entries, layout)
    ensures LastByte(PageActions(page, install, layout), x) == LastByte(Stores(page.entries, install, layout), x)
    ensures |CallsOf(PageActions(page, install, layout))| == 1 + 2 * |page.entries|
  {
    var first := if install then [Protect(page.base)] else [];
    var stores := Stores(page.entries, install, layout);
    var last := if install then [] else [Unprotect(page.base)];
    LastByteOfSum(first + stores, last, x);
    LastByteOfSum(first, stores, x);
    CallsOfPage(page, install, layout);
    hide Stores, CallsOf;
  }

  lemma ProtectionOnly(actions: seq<HookState.Action>, j: nat, x: int)
    requires actions == [] || (|actions| == 1 && !actions[0].Store?)
    ensures LastByte(ActionsBegun(actions, j), x) == None && |CallsOf(actions)| == |actions|
  {}

  lemma BegunPageBytes(page: Page, install: bool, layout: Layout, k: nat, x: int)
    requires ValidEntries(page.entries, layout) && k > 0
    ensures var m := if install then k / 2 else (k + 1) / 2; var n := if m >= |page.entries| then |page.entries| else m;
      LastByte(ActionsBegun(PageActions(page, install, layout), k), x)
        == LastByte(Stores(page.entries[..n], install, layout), x)
  {
    hide Stores, CallsOf, LastByte, ActionsBegun;
    var first := if install then [Protect(page.base)] else [];
    var stores := Stores(page.entries, install, layout);
    var last := if install then [] else [Unprotect(page.base)];
    BegunSum(first + stores, last, k);
    BegunSum(first, stores, k);
    BegunStores(page.entries, install, layout, Less(k, |first|));
    ProtectionOnly(first, k, x);
    ProtectionOnly(last, Less(k, |CallsOf(first + stores)|), x);
    LastByteOfSum(ActionsBegun(first + stores, k), ActionsBegun(last, Less(k, |CallsOf(first + stores)|)), x);
    LastByteOfSum(ActionsBegun(first, k), ActionsBegun(stores, Less(k, |first|)), x);
  }

  lemma BegunSplit(pages: seq<Page>, install: bool, layout: Layout, k: nat)
    requires ValidPages(pages, layout) && pages != [] && k > 0
    ensures var begun, own, es := Begun(pages, install, k), 1 + 2 * |pages[0].entries|, pages[0].entries;
      var m := if install then k / 2 else (k + 1) / 2;
      && begun != [] && begun[1..] == Begun(pages[1..], install, Less(k, own))
      && begun[0].base == pages[0].base && begun[0].entries == es[..if m >= |es| then |es| else m]
      && ValidEntries(begun[0].entries, layout)
  {
    assert ValidEntries(pages[0].entries, layout);
    assert pages[0].entries[..|pages[0].entries|] == pages[0].entries;
  }

  lemma SameBytes(a: seq<HookState.Action>, b: seq<HookState.Action>, c: seq<HookState.Action>,
                  d: seq<HookState.Action>, x: int)
    requires LastByte(a, x) == LastByte(c, x) && LastByte(b, x) == LastByte(d, x)
    ensures LastByte(a + b, x) == LastByte(c + d, x)
  {
    hide LastByte;
    LastByteOfSum(a, b, x);
    LastByteOfSum(c, d, x);
  }

  lemma {:induction false} BegunIsValid(pages: seq<Page>, install: bool, layout: Layout, k: nat)
    requires ValidPages(pages, layout)
    ensures ValidPages(Begun(pages, install, k), layout)
  {
    if pages != [] && k > 0 {
      ActionsSplit(pages, install, layout);
      BegunSplit(pages, install, layout, k);
      hide Begun, ValidEntries, Actions, PageActions;
      BegunIsValid(pages[1..], install, layout, Less(k, 1 + 2 * |pages[0].entries|));
      var begun := Begun(pages, install, k);
      assert forall p :: 1 <= p < |begun| ==> begun[p] == begun[1..][p - 1];
    }
  }

  /** What is stored of the first page. */
  lemma BegunFirstPage(pages: seq<Page>, install: bool, layout: Layout, k: nat, x: int)
    requires ValidPages(pages, layout) && pages != [] && k > 0
    ensures var begun := Begun(pages, install, k);
      && begun != [] && ValidEntries(begun[0].entries, layout)
      && LastByte(ActionsBegun(PageActions(pages[0], install, layout), k), x)
        == LastByte(PageActions(begun[0], install, layout), x)
  {
    hide Begun, ActionsBegun, LastByte, PageActions, Stores, ValidEntries, Less;
    ActionsSplit(pages, install, layout);
    BegunSplit(pages, install, layout, k);
    BegunPageBytes(pages[0], install, layout, k, x);
    PageBytes(Begun(pages, install, k)[0], install, layout, x);
  }

  lemma {:induction false} BegunActions(pages: seq<Page>, install: bool, layout: Layout, k: nat, x: int)
    requires ValidPages(pages, layout)
    ensures ValidPages(Begun(pages, install, k), layout)
    ensures LastByte(ActionsBegun(Actions(pages, install, layout), k), x)
      == LastByte(Actions(Begun(pages, install, k), install, layout), x)
  {
    BegunIsValid(pages, install, layout, k);
    if pages != [] && k > 0 {
      hide Begun, Actions, ActionsBegun, LastByte, CallsOf, PageActions, Stores, ValidEntries, ValidPages, Less;
      ActionsSplit(pages, install, layout);
      BegunActions(pages[1..], install, layout, Less(k, 1 + 2 * |pages[0].entries|), x);
      BegunStep(pages, install, layout, k, x);
    }
  }

  lemma BegunStep(pages: seq<Page>, install: bool, layout: Layout, k: nat, x: int)
    requires ValidPages(pages, layout) && pages != [] && k > 0
    requires ValidPages(pages[1..], layout) && ValidPages(Begun(pages, install, k), layout)
    requires var left := Less(k, 1 + 2 * |pages[0].entries|);
      && ValidPages(Begun(pages[1..], install, left), layout)
      && LastByte(ActionsBegun(Actions(pages[1..], install, layout), left), x)
        == LastByte(Actions(Begun(pages[1..], install, left), install, layout), x)
    ensures LastByte(ActionsBegun(Actions(pages, install, layout), k), x)
      == LastByte(Actions(Begun(pages, install, k), install, layout), x)
  {
    hide Begun, Actions, ActionsBegun, LastByte, CallsOf, PageActions, Stores, ValidEntries, ValidPages, Less;
    var begun, left := Begun(pages, install, k), Less(k, 1 + 2 * |pages[0].entries|);
    ActionsSplit(pages, install, layout);
    BegunFirstPage(pages, install, layout, k, x);
    BegunSplit(pages, install, layout, k);
    ActionsSplit(begun, install, layout);
    var page, others := PageActions(pages[0], install, layout), Actions(pages[1..], install, layout);
    PageBytes(pages[0], install, layout, x);
    BegunSum(page, others, k);
    SameBytes(ActionsBegun(page, k), ActionsBegun(others, left),
              PageActions(begun[0], install, layout), Actions(begun[1..], install, layout), x);
  }

  /** What a half-finished install or uninstall leaves in the code: what a finished one would of the entries alone whose
      first call comes before the one that fails. */
  lemma StoppedExactly(s: State, install: bool, answers: Answers, k: nat, x: int)
    requires ValidPages(s.pages, s.layout) && s.installed != install
    requires FailsAt(LookedAt(s.pages, install), answers, 0, k)
    ensures var begun := s.(pages := Begun(s.pages, install, k));
      && ValidPages(begun.pages, s.layout)
      && Switch(s, install, answers).0.mem(x) == Switch(begun, install, _ => 0).0.mem(x)
  {
    var begun := Begun(s.pages, install, k);
    CallsOfActions(s.pages, install, s.layout);
    PerformStops(s.mem, s.shielded, Actions(s.pages, install, s.layout), answers, 0, k, x);
    BegunActions(s.pages, install, s.layout, k, x);
    PerformExactly(s.mem, s.shielded, Actions(begun, install, s.layout), _ => 0, 0);
    PerformedToTheEnd(s.mem, s.shielded, Actions(begun, install, s.layout), _ => 0, 0, x);
    hide Actions, Perform, CallsOf, LookedAt, Begun, ActionsBegun, LastByte;
  }

  /** The number of the first call for entry `i` of page `p`. */
  function FirstCall(pages: seq<Page>, install: bool, p: nat, i: nat): nat
    requires p < |pages|
  {
    if p == 0 then (if install then 1 else 0) + 2 * i
    else 1 + 2 * |pages[0].entries| + FirstCall(pages[1..], install, p - 1, i)
  }

  /** Which entries those are. */
  lemma {:induction false} BegunExactly(pages: seq<Page>, install: bool, k: nat, p: nat, i: nat)
    requires p < |pages| && i < |pages[p].entries|
    ensures var begun := Begun(pages, install, k);
      && (p < |begun| && i < |begun[p].entries| <==> FirstCall(pages, install, p, i) < k)
      && (p < |begun| ==> begun[p].base == pages[p].base && begun[p].entries <= pages[p].entries)
  {
    if p > 0 && k > 0 {
      var own := 1 + 2 * |pages[0].entries|;
      BegunExactly(pages[1..], install, Less(k, own), p - 1, i);
    }
  }
}
