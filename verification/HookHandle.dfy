/** funchook_t with its page list, updated in place, against the state machine of HookState. */
module HookHandle {
  import opened Common
  import opened HookState
  import opened HookRuns

  /** What the handle changes outside itself: code, mapped pages and their protection. */
  class Process {
    var mem: Memory
    var mapped: set<int>
    var shielded: set<int>

    constructor (code: Memory)
      ensures mem == code && mapped == {} && shielded == {}
    {
      mem, mapped, shielded := code, {}, {};
    }

    method CopyCode(at: int, code: seq<byte>)
      modifies this`mem
      ensures mem == Write(old(mem), at, code)
    {
      mem := Write(mem, at, code);
    }

    /** munmap of a page that is mapped. */
    method PageFree(base: int)
      requires base in mapped
      modifies this`mapped, this`shielded
      ensures mapped == old(mapped) - {base} && shielded == old(shielded) - {base}
    {
      mapped, shielded := mapped - {base}, shielded - {base};
    }
  }

  /** The actions that are left to do at entry i of page p. */
  function LeftInPage(pages: seq<Page>, p: nat, i: nat, install: bool, layout: Layout): seq<Action>
    requires ValidPages(pages, layout) && p < |pages| && i <= |pages[p].entries|
  {
    ValidRest(pages, p, layout);
    Stores(pages[p].entries[i..], install, layout)
    + (if install then [] else [Unprotect(pages[p].base)])
    + Left(pages, p + 1, install, layout)
  }

  function Left(pages: seq<Page>, p: nat, install: bool, layout: Layout): seq<Action>
    requires ValidPages(pages, layout) && p <= |pages|
  {
    Actions(pages[p..], install, layout)
  }

  lemma ValidRest(pages: seq<Page>, p: nat, layout: Layout)
    requires ValidPages(pages, layout) && p < |pages|
    ensures forall i :: 0 <= i <= |pages[p].entries| ==> ValidEntries(pages[p].entries[i..], layout)
  {}

  lemma PageBegins(pages: seq<Page>, p: nat, install: bool, layout: Layout)
    requires ValidPages(pages, layout) && p < |pages|
    ensures Left(pages, p, install, layout)
      == (if install then [Protect(pages[p].base)] else []) + LeftInPage(pages, p, 0, install, layout)
  {
    hide Stores;
    assert pages[p..][0] == pages[p] && pages[p..][1..] == pages[p + 1..];
    assert pages[p].entries[0..] == pages[p].entries;
  }

  lemma EntryIsNext(pages: seq<Page>, p: nat, i: nat, install: bool, layout: Layout)
    requires ValidPages(pages, layout) && p < |pages| && i < |pages[p].entries|
    ensures ValidEntry(pages[p].entries[i], layout)
    ensures LeftInPage(pages, p, i, install, layout)
      == [StoreOf(pages[p].entries[i], install)] + LeftInPage(pages, p, i + 1, install, layout)
  {
    hide Actions;
    ValidRest(pages, p, layout);
    var es := pages[p].entries;
    assert ValidEntry(es[i], layout);
    assert es[i..][0] == es[i] && es[i..][1..] == es[i + 1..];
  }

  lemma PageEnds(pages: seq<Page>, p: nat, install: bool, layout: Layout)
    requires ValidPages(pages, layout) && p < |pages|
    ensures LeftInPage(pages, p, |pages[p].entries|, install, layout)
      == (if install then [] else [Unprotect(pages[p].base)]) + Left(pages, p + 1, install, layout)
  {
    assert pages[p].entries[|pages[p].entries|..] == [];
  }

  class Funchook {
    const layout: Layout
    const process: Process
    var live: bool
    var installed: bool
    var pages: seq<Page>

    function Value(): State
      reads this, process
    {
      State(layout, live, installed, pages, process.mem, process.mapped, process.shielded)
    }

    constructor (layout: Layout, process: Process)
      requires process.shielded == {}
      ensures this.layout == layout && this.process == process && Value() == Fresh(layout, process.mem, process.mapped)
    {
      this.layout, this.process := layout, process;
      live, installed, pages := true, false, [];
    }

    /** get_page: the first page on the list with a slot near enough, or else a new one, or an error. */
    method GetPage(r: Request) returns (rv: int, p: nat)
      requires PagesInOrder(Value()) && ValidRequest(layout, r) && !installed
      modifies this`pages, process`mapped
      ensures var found := FindPage(layout, old(pages), r);
        if found.Some? then rv == SUCCESS && p == found.value && pages == old(pages)
          && process.mapped == old(process.mapped)
        else
          var alloc := r.alloc(old(process.mapped));
          if alloc.Ok? && r.avail(alloc.value, 0) then
            rv == SUCCESS && p == 0 && pages == [Page(alloc.value, [])] + old(pages)
            && process.mapped == old(process.mapped) + {alloc.value}
          else
            rv == (if alloc.Err? then alloc.code else NO_SPACE_NEAR_TARGET_ADDR)
            && pages == old(pages) && process.mapped == old(process.mapped)
    {
      p := 0;
      while p < |pages|
        invariant p <= |pages|
        invariant forall q :: 0 <= q < p ==> !HasRoom(layout, pages[q], r)
        invariant pages == old(pages) && process.mapped == old(process.mapped)
      {
        if HasRoom(layout, pages[p], r) { return SUCCESS, p; }
        p := p + 1;
      }
      var alloc := r.alloc(process.mapped);
      if alloc.Err? { return alloc.code, 0; }
      var base := alloc.value;
      process.mapped := process.mapped + {base};
      if !r.avail(base, 0) {
        process.mapped := process.mapped - {base};
        return NO_SPACE_NEAR_TARGET_ADDR, 0;
      }
      pages := [Page(base, [])] + pages;
      return SUCCESS, 0;
    }

    method Prepare(r: Request) returns (rv: int, slot: Option<(int, nat)>)
      requires live && PagesInOrder(Value()) && ValidRequest(layout, r)
      modifies this, process
      ensures HookState.Prepared(Value(), rv, slot) == HookState.Prepare(old(Value()), r)
    {
      slot := None;
      if installed { return ALREADY_INSTALLED, None; }
      if r.translation != SUCCESS { return r.translation, None; }
      var p;
      rv, p := GetPage(r);
      if rv != SUCCESS { return; }
      var page := pages[p];
      var idx := |page.entries|;
      var patch := r.fix(page.base, idx);
      var entry := Entry(r.original, r.target, r.params, patch.transit, patch.trampoline,
                         patch.size, Snapshot(process.mem, r.target, layout.patchMax), patch.code);
      pages := pages[p := page.(entries := page.entries + [entry])];
      slot := Some((page.base, idx));
      assert entry == NewEntry(old(Value()), r, page.base, idx);
      assert idx == 0 ==> page.entries + [entry] == [entry];
      assert FindPage(layout, old(pages), r).None? ==> pages == [Page(page.base, [entry])] + old(pages);
    }

    method Install(answers: Answers) returns (rv: int)
      requires live && ValidPages(pages, layout)
      modifies this`installed, process`mem, process`shielded
      ensures (Value(), rv) == Switch(old(Value()), true, answers)
    {
      hide Actions, Left, LeftInPage, ValidPages;
      if installed { return ALREADY_INSTALLED; }
      var p, call: nat := 0, 0;
      ghost var w := Perform(process.mem, process.shielded, Actions(pages, true, layout), answers, 0);
      assert Left(pages, 0, true, layout) == Actions(pages, true, layout) by { AllLeft(pages, true, layout); }
      while p < |pages|
        invariant p <= |pages| && !installed && pages == old(pages) && process.mapped == old(process.mapped)
        invariant w == Perform(process.mem, process.shielded, Left(pages, p, true, layout), answers, call)
      {
        PageBegins(pages, p, true, layout);
        var page := pages[p];
        assert Left(pages, p, true, layout)[1..] == LeftInPage(pages, p, 0, true, layout);
        rv := answers(call);
        if rv != 0 { return; }
        process.shielded := process.shielded + {page.base};
        call := call + 1;
        var i := 0;
        while i < |page.entries|
          invariant i <= |page.entries| && !installed && pages == old(pages) && process.mapped == old(process.mapped)
          invariant w == Perform(process.mem, process.shielded, LeftInPage(pages, p, i, true, layout), answers, call)
        {
          EntryIsNext(pages, p, i, true, layout);
          assert LeftInPage(pages, p, i, true, layout)[1..] == LeftInPage(pages, p, i + 1, true, layout);
          var entry := page.entries[i];
          rv := answers(call);
          if rv != 0 { return; }
          process.CopyCode(entry.target, entry.newCode[..entry.size]);
          rv := answers(call + 1);
          if rv != 0 { return; }
          call := call + 2;
          i := i + 1;
        }
        PageEnds(pages, p, true, layout);
        assert LeftInPage(pages, p, |page.entries|, true, layout) == Left(pages, p + 1, true, layout);
        p := p + 1;
      }
      NoneLeft(pages, true, layout);
      installed := true;
      rv := SUCCESS;
    }

    method Uninstall(answers: Answers) returns (rv: int)
      requires live && ValidPages(pages, layout)
      modifies this`installed, process`mem, process`shielded
      ensures (Value(), rv) == Switch(old(Value()), false, answers)
    {
      hide Actions, Left, LeftInPage, ValidPages;
      if !installed { return NOT_INSTALLED; }
      var p, call: nat := 0, 0;
      ghost var w := Perform(process.mem, process.shielded, Actions(pages, false, layout), answers, 0);
      assert Left(pages, 0, false, layout) == Actions(pages, false, layout) by { AllLeft(pages, false, layout); }
      while p < |pages|
        invariant p <= |pages| && installed && pages == old(pages) && process.mapped == old(process.mapped)
        invariant w == Perform(process.mem, process.shielded, Left(pages, p, false, layout), answers, call)
      {
        PageBegins(pages, p, false, layout);
        assert Left(pages, p, false, layout) == LeftInPage(pages, p, 0, false, layout);
        var page := pages[p];
        var i := 0;
        while i < |page.entries|
          invariant i <= |page.entries| && installed && pages == old(pages) && process.mapped == old(process.mapped)
          invariant w == Perform(process.mem, process.shielded, LeftInPage(pages, p, i, false, layout), answers, call)
        {
          EntryIsNext(pages, p, i, false, layout);
          assert LeftInPage(pages, p, i, false, layout)[1..] == LeftInPage(pages, p, i + 1, false, layout);
          var entry := page.entries[i];
          rv := answers(call);
          if rv != 0 { return; }
          process.CopyCode(entry.target, entry.oldCode[..entry.size]);
          rv := answers(call + 1);
          if rv != 0 { return; }
          call := call + 2;
          i := i + 1;
        }
        PageEnds(pages, p, false, layout);
        assert LeftInPage(pages, p, |page.entries|, false, layout)[1..] == Left(pages, p + 1, false, layout);
        process.shielded := process.shielded - {page.base};
        call := call + 1;
        p := p + 1;
      }
      NoneLeft(pages, false, layout);
      installed := false;
      rv := SUCCESS;
    }

    /** Every page is freed while it is still mapped, so none is freed twice. */
    method Destroy() returns (rv: int)
      requires live && PagesInOrder(Value())
      modifies this, process`mapped, process`shielded
      ensures (Value(), rv) == HookState.Destroy(old(Value()))
    {
      if installed { return ALREADY_INSTALLED; }
      var p := 0;
      while p < |pages|
        invariant p <= |pages| && pages == old(pages) && live == old(live) && installed == old(installed)
        invariant process.mapped == old(process.mapped) - Bases(pages[..p])
        invariant process.shielded == old(process.shielded) - Bases(pages[..p])
      {
        BasesGrow(pages, p);
        assert forall q :: 0 <= q < p ==> pages[..p][q] == pages[q];
        process.PageFree(pages[p].base);
        p := p + 1;
      }
      assert pages[..p] == pages;
      live, pages := false, [];
      rv := SUCCESS;
    }
  }

  lemma AllLeft(pages: seq<Page>, install: bool, layout: Layout)
    requires ValidPages(pages, layout)
    ensures Left(pages, 0, install, layout) == Actions(pages, install, layout)
  {
    assert pages[0..] == pages;
  }

  lemma NoneLeft(pages: seq<Page>, install: bool, layout: Layout)
    requires ValidPages(pages, layout)
    ensures Left(pages, |pages|, install, layout) == []
  {}

  lemma BasesGrow(pages: seq<Page>, p: nat)
    requires p < |pages|
    ensures Bases(pages[..p + 1]) == Bases(pages[..p]) + {pages[p].base}
    ensures pages[p].base in Bases(pages)
  {
    var a, b := pages[..p], pages[..p + 1];
    assert forall q :: 0 <= q < p ==> a[q] == b[q] == pages[q];
    forall x | x in Bases(b) ensures x in Bases(a) + {pages[p].base} {
      var q :| 0 <= q < |b| && b[q].base == x;
      if q < p { assert a[q].base == x; }
    }
    forall x | x in Bases(a) + {pages[p].base} ensures x in Bases(b) {
      if x in Bases(a) {
        var q :| 0 <= q < |a| && a[q].base == x;
        assert b[q].base == x;
      } else {
        assert b[p].base == x;
      }
    }
  }
}
