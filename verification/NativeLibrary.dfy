/** What the native library shares between handles, and its calls on it, one after the other. */
module NativeLibrary {
  import opened Common
  import opened HookState
  import opened HookRuns

  /** The code of the process, and the pages the allocator has handed out, to whichever handle. */
  datatype Shared = Shared(mem: Memory, mapped: set<int>)

  /** What a native handle keeps for itself, with the history of HookRuns. */
  datatype Local = Local(
    layout: Layout, live: bool, installed: bool, pages: seq<Page>, shielded: set<int>, torn: bool, careful: bool)

  /** A native handle, the addresses its targets may take up, and the code there was when it was created. */
  datatype Native = Native(region: Region, orig: Memory, local: Local)

  datatype Library = Library(shared: Shared, natives: seq<Native>)

  /** What a thread may ask the native library for. */
  datatype Op = New(layout: Layout, region: Region, succeeds: bool) | Call(h: nat, event: Event) | Drop(h: nat)

  function EventOf(op: Op): Event
    requires !op.New?
  {
    if op.Call? then op.event else DestroyEvent
  }

  /** A handle as a call on it sees the process. */
  function View(shared: Shared, local: Local): Run {
    Run(State(local.layout, local.live, local.installed, local.pages, shared.mem, shared.mapped, local.shielded),
        local.torn, local.careful)
  }

  function LocalOf(r: Run): Local {
    Local(r.state.layout, r.state.live, r.state.installed, r.state.pages, r.state.shielded, r.torn, r.careful)
  }

  function NewLocal(layout: Layout): Local { Local(layout, true, false, [], {}, false, true) }

  predicate Callable(lib: Library, op: Op) {
    op.New? || (op.h < |lib.natives| && ValidPages(lib.natives[op.h].local.pages, lib.natives[op.h].local.layout))
  }

  /** One native call, from beginning to end, and its result. A call on nothing leaves everything as it is. */
  function Do(lib: Library, op: Op): (Library, int) {
    if !Callable(lib, op) then (lib, INTERNAL_ERROR)
    else
      match op
      case New(layout, region, succeeds) =>
        if succeeds then (lib.(natives := lib.natives + [Native(region, lib.shared.mem, NewLocal(layout))]), SUCCESS)
        else (lib, OUT_OF_MEMORY)
      case _ =>
        var d := lib.natives[op.h];
        var before := View(lib.shared, d.local);
        var after := Advance(before, EventOf(op));
        (Library(Shared(after.state.mem, after.state.mapped), lib.natives[op.h := d.(local := LocalOf(after))]),
         Apply(before.state, EventOf(op)).1)
  }

  /** All of the calls, one after the other. */
  function DoAll(lib: Library, ops: seq<Op>): Library
    decreases |ops|
  {
    if ops == [] then lib else Do(DoAll(lib, ops[..|ops| - 1]), ops[|ops| - 1]).0
  }

  // ---- what holds between calls ----

  ghost predicate Apart(a: Region, b: Region) { forall x :: !(a(x) && b(x)) }

  /** What callers and the system guarantee about one call: handles are used while they live, never to destroy what
      is not dropped, targets stay within the handle's addresses, and the addresses of a new handle are not those of
      another one that lives. */
  ghost predicate Fair(lib: Library, op: Op) {
    match op
    case New(layout, region, _) =>
      layout.capacity >= 1 && forall h ::
        0 <= h < |lib.natives| && lib.natives[h].local.live ==> Apart(region, lib.natives[h].region)
    case Call(h, e) =>
      h < |lib.natives| && lib.natives[h].local.live && !e.DestroyEvent? && FairEvent(lib.natives[h], e)
    case Drop(h) => h < |lib.natives| && lib.natives[h].local.live
  }

  ghost predicate FairEvent(d: Native, e: Event) {
    e.PrepareEvent? ==> ValidRequest(d.local.layout, e.request) && RequestIn(d.region, e.request)
  }

  ghost predicate NativeInOrder(shared: Shared, d: Native) {
    d.local.layout.capacity >= 1 && (d.local.live || (!d.local.installed && d.local.pages == []))
    && (d.local.live ==> Invariant(View(shared, d.local), d.region, d.orig))
  }

  /** Each handle is in order, on the code and pages they all share; living handles have different addresses and
      different pages; and every page that is handed out is on one handle's list. */
  ghost predicate LibraryInOrder(lib: Library) {
    && (forall h :: 0 <= h < |lib.natives| ==> NativeInOrder(lib.shared, lib.natives[h]))
    && (forall h, k :: 0 <= h < k < |lib.natives| && lib.natives[h].local.live && lib.natives[k].local.live ==>
      Apart(lib.natives[h].region, lib.natives[k].region))
    && (forall h, k ::
      0 <= h < k < |lib.natives| ==> Bases(lib.natives[h].local.pages) !! Bases(lib.natives[k].local.pages))
    && (forall b ::
      b in lib.shared.mapped ==> exists h :: 0 <= h < |lib.natives| && b in Bases(lib.natives[h].local.pages))
  }

  /** A call changes code only within the addresses of its handle. */
  lemma CallStaysInRegion(s: State, e: Event, region: Region, x: int)
    requires PagesInOrder(s) && PatchesIn(s.pages, region) && (e.PrepareEvent? ==> ValidRequest(s.layout, e.request))
    requires !region(x)
    ensures Apply(s, e).0.mem(x) == s.mem(x)
  {
    hide Patched, Perform, Actions, Bases;
    match e
    case PrepareEvent(r) => PrepareAllOrNothing(s, r);
    case InstallEvent(answers) => SwitchElsewhere(s, true, answers, x);
    case UninstallEvent(answers) => SwitchElsewhere(s, false, answers, x);
    case DestroyEvent =>
  }

  /** What another handle's call does to a handle: its code and its pages stay as they are. */
  lemma OtherStaysInOrder(d: Native, before: Shared, after: Shared)
    requires NativeInOrder(before, d)
    requires d.local.live ==> forall x :: d.region(x) ==> after.mem(x) == before.mem(x)
    requires d.local.live ==> Bases(d.local.pages) <= after.mapped
    ensures NativeInOrder(after, d)
  {
    hide Patched, ValidPages, HonestPages, Bases;
  }

  lemma NewIsInOrder(shared: Shared, layout: Layout, region: Region)
    requires layout.capacity >= 1
    ensures NativeInOrder(shared, Native(region, shared.mem, NewLocal(layout)))
    ensures Bases(NewLocal(layout).pages) == {}
  {
    FreshInvariant(layout, region, shared.mem, shared.mapped);
    assert Bases([]) == {};
  }

  lemma NewKeepsOrder(lib: Library, op: Op)
    requires LibraryInOrder(lib) && op.New? && Fair(lib, op)
    ensures LibraryInOrder(Do(lib, op).0)
  {
    var v := Do(lib, op).0;
    if op.succeeds {
      var n := |lib.natives|;
      NewIsInOrder(lib.shared, op.layout, op.region);
      hide NativeInOrder, Bases, Apart;
      assert v.natives[n] == Native(op.region, lib.shared.mem, NewLocal(op.layout));
      assert forall h :: 0 <= h < n ==> v.natives[h] == lib.natives[h];
      forall b | b in v.shared.mapped ensures exists h :: 0 <= h < |v.natives| && b in Bases(v.natives[h].local.pages) {
        var h :| 0 <= h < |lib.natives| && b in Bases(lib.natives[h].local.pages);
        assert b in Bases(v.natives[h].local.pages);
      }
      ApartBothWays(lib, op.region);
    }
  }

  lemma ApartBothWays(lib: Library, region: Region)
    ensures forall h ::
      0 <= h < |lib.natives| && Apart(region, lib.natives[h].region) ==> Apart(lib.natives[h].region, region)
  {}

  /** What a call on a handle does, as far as the others can see it. */
  lemma CallOutcome(lib: Library, op: Op)
    requires LibraryInOrder(lib) && !op.New? && Fair(lib, op)
    ensures Callable(lib, op)
    ensures var v := Do(lib, op).0; var d, e := lib.natives[op.h], v.natives[op.h];
      && |v.natives| == |lib.natives|
      && (forall h :: 0 <= h < |lib.natives| && h != op.h ==> v.natives[h] == lib.natives[h])
      && e.region == d.region && e.orig == d.orig && NativeInOrder(v.shared, e)
      && (forall x :: !d.region(x) ==> v.shared.mem(x) == lib.shared.mem(x))
      && v.shared.mapped - Bases(e.local.pages) == lib.shared.mapped - Bases(d.local.pages)
      && Bases(e.local.pages) <= v.shared.mapped
      && (forall b :: b in Bases(e.local.pages) && b !in Bases(d.local.pages) ==> b !in lib.shared.mapped)
  {
    var d, ev := lib.natives[op.h], EventOf(op);
    var before := View(lib.shared, d.local);
    assert NativeInOrder(lib.shared, d);
    InvariantMeansOrder(before, d.region, d.orig);
    PatchesStayIn(before, d.region, d.orig);
    var after := Advance(before, ev);
    assert HookRuns.Next(before, ev, after) by { hide Advance, Invariant; }
    NextKeeps(before, ev, after, d.region, d.orig);
    InvariantMeansLive(after, d.region, d.orig);
    AdvanceState(before, ev);
    ForeignPagesKept(before.state, ev);
    hide Invariant, Advance, Apply, Bases, PagesInOrder, PatchesIn, ValidRequest, RequestIn, ValidPages;
    forall x | !d.region(x) ensures Do(lib, op).0.shared.mem(x) == lib.shared.mem(x) {
      CallStaysInRegion(before.state, ev, d.region, x);
    }
    assert View(Do(lib, op).0.shared, LocalOf(after)) == after;
  }

  lemma PatchesStayIn(r: Run, region: Region, orig: Memory)
    requires Invariant(r, region, orig)
    ensures PatchesIn(r.state.pages, region)
  {}

  lemma InvariantMeansLive(r: Run, region: Region, orig: Memory)
    requires Invariant(r, region, orig)
    ensures r.state.live || (!r.state.installed && r.state.pages == [])
  {}

  lemma CallKeepsOrder(lib: Library, op: Op)
    requires LibraryInOrder(lib) && !op.New? && Fair(lib, op)
    ensures Callable(lib, op) && LibraryInOrder(Do(lib, op).0)
  {
    CallOutcome(lib, op);
    var v := Do(lib, op).0;
    var c := op.h;
    assert v.natives[c].local.live ==> lib.natives[c].local.live;
    forall h | 0 <= h < |v.natives| && h != c ensures NativeInOrder(v.shared, v.natives[h]) {
      OthersAreApart(lib, v, c, h);
      OtherStaysInOrder(lib.natives[h], lib.shared, v.shared);
    }
    PagesStayApart(lib, v, c);
    hide NativeInOrder, Bases, Apart, Do, Callable, Fair;
  }

  /** What a handle has is not touched by a call that stays within another one's addresses and pages. */
  lemma OthersAreApart(lib: Library, v: Library, c: nat, h: nat)
    requires LibraryInOrder(lib) && c < |lib.natives| == |v.natives| && h < |lib.natives| && h != c
      && lib.natives[c].local.live
    requires forall x :: !lib.natives[c].region(x) ==> v.shared.mem(x) == lib.shared.mem(x)
    requires v.shared.mapped - Bases(v.natives[c].local.pages) == lib.shared.mapped - Bases(lib.natives[c].local.pages)
    ensures lib.natives[h].local.live ==>
      && (forall x :: lib.natives[h].region(x) ==> v.shared.mem(x) == lib.shared.mem(x))
      && Bases(lib.natives[h].local.pages) <= v.shared.mapped
  {
    var d := lib.natives[h];
    if d.local.live {
      assert Apart(d.region, lib.natives[c].region) || Apart(lib.natives[c].region, d.region);
      assert NativeInOrder(lib.shared, d);
      InvariantMeansOrder(View(lib.shared, d.local), d.region, d.orig);
      var mine, theirs := Bases(d.local.pages), Bases(lib.natives[c].local.pages);
      assert mine !! theirs;
      hide Bases, Apart;
      forall b | b in mine ensures b in v.shared.mapped {
        assert b in lib.shared.mapped - theirs;
      }
    }
  }

  lemma PagesStayApart(lib: Library, v: Library, c: nat)
    requires LibraryInOrder(lib) && c < |lib.natives| == |v.natives|
    requires forall h :: 0 <= h < |lib.natives| && h != c ==> v.natives[h] == lib.natives[h]
    requires v.shared.mapped - Bases(v.natives[c].local.pages) == lib.shared.mapped - Bases(lib.natives[c].local.pages)
    requires forall b ::
      b in Bases(v.natives[c].local.pages) && b !in Bases(lib.natives[c].local.pages) ==> b !in lib.shared.mapped
    ensures forall h, k ::
      0 <= h < k < |v.natives| ==> Bases(v.natives[h].local.pages) !! Bases(v.natives[k].local.pages)
    ensures forall b ::
      b in v.shared.mapped ==> exists h :: 0 <= h < |v.natives| && b in Bases(v.natives[h].local.pages)
  {
    forall h | 0 <= h < |v.natives| && h != c
      ensures Bases(v.natives[h].local.pages) !! Bases(v.natives[c].local.pages)
    {
      MappedByOwner(lib, h);
      assert Bases(lib.natives[h].local.pages) !! Bases(lib.natives[c].local.pages);
      hide Bases;
    }
    hide Bases, NativeInOrder;
    forall b | b in v.shared.mapped ensures exists h :: 0 <= h < |v.natives| && b in Bases(v.natives[h].local.pages) {
      if b !in Bases(v.natives[c].local.pages) {
        assert b in lib.shared.mapped - Bases(lib.natives[c].local.pages);
        var h :| 0 <= h < |lib.natives| && b in Bases(lib.natives[h].local.pages);
        assert b in Bases(v.natives[h].local.pages);
      }
    }
  }

  lemma MappedByOwner(lib: Library, h: nat)
    requires LibraryInOrder(lib) && h < |lib.natives|
    ensures Bases(lib.natives[h].local.pages) <= lib.shared.mapped
  {
    var d := lib.natives[h];
    assert NativeInOrder(lib.shared, d);
    if d.local.live {
      InvariantMeansOrder(View(lib.shared, d.local), d.region, d.orig);
    } else {
      assert Bases([]) == {};
    }
  }

  lemma DoKeepsOrder(lib: Library, op: Op)
    requires LibraryInOrder(lib) && Fair(lib, op)
    ensures Callable(lib, op) && LibraryInOrder(Do(lib, op).0)
  {
    if op.New? { NewKeepsOrder(lib, op); } else { CallKeepsOrder(lib, op); }
  }

  // ---- sequences of calls ----

  /** Each of the calls is fair where it is made. */
  ghost predicate AllFair(lib: Library, ops: seq<Op>) {
    forall i :: 0 <= i < |ops| ==> Fair(DoAll(lib, ops[..i]), ops[i])
  }

  lemma {:induction false} AllCallsKeepOrder(lib: Library, ops: seq<Op>)
    requires LibraryInOrder(lib) && AllFair(lib, ops)
    ensures LibraryInOrder(DoAll(lib, ops))
    decreases |ops|
  {
    hide LibraryInOrder, Fair, Do;
    if ops != [] {
      var n := |ops| - 1;
      assert forall i :: 0 <= i < n ==> ops[..n][..i] == ops[..i];
      AllCallsKeepOrder(lib, ops[..n]);
      DoKeepsOrder(DoAll(lib, ops[..n]), ops[n]);
    }
  }

  /** No two handles ever have the same page, and none has a page that is not handed out, however many handles there are
      and whatever calls fail; and nothing is handed out that is on nobody's list. */
  lemma PagesHaveOneOwner(lib: Library, ops: seq<Op>, h: nat, k: nat, base: int)
    requires LibraryInOrder(lib) && AllFair(lib, ops)
    requires var v := DoAll(lib, ops); h < |v.natives| && k < |v.natives|
    requires var v := DoAll(lib, ops);
      base in Bases(v.natives[h].local.pages) && base in Bases(v.natives[k].local.pages)
    ensures h == k && base in DoAll(lib, ops).shared.mapped
  {
    AllCallsKeepOrder(lib, ops);
    MappedByOwner(DoAll(lib, ops), h);
  }
}
