/** All sequences of allocations and releases: pages are handed out once, recovered by masking, and given back. */
module WindowsRuns {
  import opened Common
  import opened WindowsPages

  datatype Event = AllocEvent(a: AllocAnswers) | FreeEvent(page: int, f: FreeAnswers)

  /** The state, the pages handed out and not yet given back, and whether every call so far has succeeded. */
  datatype Run = Run(state: State, live: set<int>, smooth: bool)

  /** The operating system reserves whole units that are not reserved already, and errors are not 0. */
  ghost predicate ValidAnswers(sz: Sizes, s: State, a: AllocAnswers)
    requires sz.Valid()
  {
    if a.reserve.Ok? then a.reserve.value % sz.unit == 0 && a.reserve.value !in s.reserved
    else a.reserve.code != SUCCESS
  }

  ghost predicate Next(sz: Sizes, before: Run, e: Event, after: Run)
    requires sz.Valid()
  {
    match e
    case AllocEvent(a) =>
      var r := Alloc(sz, before.state, a);
      && ValidAnswers(sz, before.state, a)
      && after.state == r.state
      && after.live == (if r.page.Some? then before.live + {r.page.value} else before.live)
      && after.smooth == (before.smooth && (a.commit || r.state == before.state))
    case FreeEvent(page, f) =>
      && ValidState(sz, before.state) && Live(sz, before.state, page) && page in before.live
      && after.state == Free(sz, before.state, page, f).0
      && after.live == (if f.decommit then before.live - {page} else before.live)
      && after.smooth == (before.smooth && f.release)
  }

  ghost predicate ValidRun(sz: Sizes, runs: seq<Run>, events: seq<Event>) {
    && sz.Valid()
    && |runs| == |events| + 1 && runs[0] == Run(State([], {}), {}, true)
    && forall i :: 0 <= i < |events| ==> Next(sz, runs[i], events[i], runs[i + 1])
  }

  function Bases(units: seq<Unit>): set<int> { set j | 0 <= j < |units| :: units[j].base }

  /** No unit is kept without a page in use, and nothing else is reserved. */
  ghost predicate Tight(s: State) {
    (forall j :: 0 <= j < |s.units| ==> AnyUsed(s.units[j].used)) && s.reserved == Bases(s.units)
  }

  ghost predicate Invariant(sz: Sizes, r: Run) {
    && ValidState(sz, r.state)
    && (forall page :: page in r.live <==> Live(sz, r.state, page))
    && (r.smooth ==> Tight(r.state))
  }

  // ---- one page changes ----

  lemma MarkLive(sz: Sizes, s: State, j: nat, i: nat, flag: bool, page: int)
    requires ValidState(sz, s) && j < |s.units| && i < sz.Count()
    ensures ValidState(sz, Mark(s, j, i, flag))
    ensures Live(sz, Mark(s, j, i, flag), page) <==>
      if page == PageAt(sz, s.units[j].base, i) then flag else Live(sz, s, page)
  {
    var t := Mark(s, j, i, flag);
    hide PageAt;
    assert forall k ::
      0 <= k < |s.units| ==> t.units[k].base == s.units[k].base && |t.units[k].used| == |s.units[k].used|;
    if page == PageAt(sz, s.units[j].base, i) {
      if flag { assert InUse(sz, t, page, j, i); }
      forall k: nat, l: nat | InUse(sz, t, page, k, l) ensures flag {
        PagesAreDistinct(sz, s, j, i, k, l);
      }
    } else {
      forall k: nat, l: nat | InUse(sz, s, page, k, l) ensures InUse(sz, t, page, k, l) {}
      forall k: nat, l: nat | InUse(sz, t, page, k, l) ensures InUse(sz, s, page, k, l) {}
    }
  }

  lemma NewUnitLive(sz: Sizes, s: State, base: int, page: int)
    requires ValidState(sz, s) && base % sz.unit == 0 && base !in s.reserved && sz.Count() >= 1
    ensures var t := State([Unit(base, NoneUsed(sz.Count()))] + s.units, s.reserved + {base});
      ValidState(sz, t) && (Live(sz, t, page) <==> Live(sz, s, page))
  {
    var t := State([Unit(base, NoneUsed(sz.Count()))] + s.units, s.reserved + {base});
    hide PageAt;
    assert forall k :: 1 <= k < |t.units| ==> t.units[k] == s.units[k - 1];
    forall k: nat, l: nat | InUse(sz, s, page, k, l) ensures InUse(sz, t, page, k + 1, l) {}
    forall k: nat, l: nat | InUse(sz, t, page, k, l) ensures k >= 1 && InUse(sz, s, page, k - 1, l) {}
  }

  function Without(s: State, j: nat, reserved: set<int>): State
    requires j < |s.units|
  {
    State(s.units[..j] + s.units[j + 1..], reserved)
  }

  lemma WithoutLive(sz: Sizes, s: State, j: nat, reserved: set<int>, page: int)
    requires ValidState(sz, s) && j < |s.units| && !AnyUsed(s.units[j].used)
    requires reserved == s.reserved || reserved == s.reserved - {s.units[j].base}
    ensures ValidState(sz, Without(s, j, reserved))
    ensures Live(sz, Without(s, j, reserved), page) <==> Live(sz, s, page)
  {
    var t := Without(s, j, reserved);
    hide PageAt;
    assert forall k :: 0 <= k < j ==> t.units[k] == s.units[k];
    assert forall k :: j <= k < |t.units| ==> t.units[k] == s.units[k + 1];
    forall k: nat, l: nat | InUse(sz, s, page, k, l) ensures InUse(sz, t, page, if k < j then k else k - 1, l) {
      assert s.units[k].used[l];
    }
    forall k: nat, l: nat | InUse(sz, t, page, k, l) ensures InUse(sz, s, page, if k < j then k else k + 1, l) {}
  }

  // ---- allocation ----

  /** An allocation hands out a page that nobody has and that is not a control page, and everything else stays in use
      as it was; a failed one leaves all pages as they were. */
  lemma AllocatedPageIsNew(sz: Sizes, s: State, a: AllocAnswers)
    requires ValidState(sz, s) && ValidAnswers(sz, s, a)
    ensures var r := Alloc(sz, s, a);
      && ValidState(sz, r.state)
      && (r.page.Some? <==> r.rv == SUCCESS)
      && (r.page.Some? ==>
        && !Live(sz, s, r.page.value)
        && r.page.value % sz.unit != 0 && UnitOf(sz, r.page.value) in r.state.reserved
        && (UnitOf(sz, r.page.value) in s.reserved ==> a.avail(r.page.value)))
      && forall page :: Live(sz, r.state, page) <==> Live(sz, s, page) || r.page == Some(page)
  {
    UnitHasPages(sz);
    var found := Find(sz, s.units, 0, a.avail);
    if found.Some? {
      var (j, i) := found.value;
      PageIsRecovered(sz, s.units[j].base, i);
      forall k: nat, l: nat | InUse(sz, s, PageAt(sz, s.units[j].base, i), k, l) ensures false {
        PagesAreDistinct(sz, s, j, i, k, l);
      }
      forall page
        ensures Live(sz, Mark(s, j, i, true), page) <==> Live(sz, s, page) || page == PageAt(sz, s.units[j].base, i)
      {
        MarkLive(sz, s, j, i, true, page);
      }
      MarkLive(sz, s, j, i, true, 0);
    } else if a.reserve.Ok? && a.control {
      var base := a.reserve.value;
      var t := State([Unit(base, NoneUsed(sz.Count()))] + s.units, s.reserved + {base});
      PageIsRecovered(sz, base, 0);
      NewUnitLive(sz, s, base, 0);
      forall k: nat, l: nat | InUse(sz, t, PageAt(sz, base, 0), k, l) ensures false {
        PagesAreDistinct(sz, t, 0, 0, k, l);
      }
      forall page
        ensures Live(sz, t, page) <==> Live(sz, s, page)
        ensures Live(sz, Mark(t, 0, 0, true), page) <==> Live(sz, s, page) || page == PageAt(sz, base, 0)
      {
        NewUnitLive(sz, s, base, page);
        MarkLive(sz, t, 0, 0, true, page);
      }
      MarkLive(sz, t, 0, 0, true, 0);
    }
  }

  // ---- release ----

  /** Some other page of the page's unit is in use. */
  ghost predicate UnitShared(sz: Sizes, s: State, page: int)
    requires sz.Valid()
  {
    exists other :: other != page && UnitOf(sz, other) == UnitOf(sz, page) && Live(sz, s, other)
  }

  lemma SharedMeansUsed(sz: Sizes, s: State, j: nat, i: nat)
    requires ValidState(sz, s) && j < |s.units| && InUse(sz, s, PageAt(sz, s.units[j].base, i), j, i)
    ensures UnitShared(sz, s, PageAt(sz, s.units[j].base, i)) <==> AnyUsed(s.units[j].used[i := false])
  {
    var page := PageAt(sz, s.units[j].base, i);
    PageIsRecovered(sz, s.units[j].base, i);
    if AnyUsed(s.units[j].used[i := false]) {
      var l :| 0 <= l < |s.units[j].used| && s.units[j].used[i := false][l];
      var other := PageAt(sz, s.units[j].base, l);
      assert InUse(sz, s, other, j, l);
      PageIsRecovered(sz, s.units[j].base, l);
    }
    if UnitShared(sz, s, page) {
      var other :| other != page && UnitOf(sz, other) == UnitOf(sz, page) && Live(sz, s, other);
      var k: nat, l: nat :| InUse(sz, s, other, k, l);
      PageIsRecovered(sz, s.units[k].base, l);
      assert k == j;
      assert s.units[j].used[i := false][l];
    }
  }

  lemma LivePageHasPlace(sz: Sizes, s: State, page: int, a: FreeAnswers) returns (j: nat, i: nat)
    requires ValidState(sz, s) && Live(sz, s, page)
    ensures InUse(sz, s, page, j, i) && Free(sz, s, page, a) == FreeAt(s, j, i, a)
  {
    j, i :| InUse(sz, s, page, j, i);
    LivePageIsFound(sz, s, page, j, i);
  }

  /** Freeing a page takes exactly this page out of use. Its unit leaves the list exactly when no other page of it is
      in use, and is then given back to the system. */
  lemma FreedPageIsGone(sz: Sizes, s: State, page: int, a: FreeAnswers)
    requires ValidState(sz, s) && Live(sz, s, page)
    ensures var (t, rv) := Free(sz, s, page, a);
      && ValidState(sz, t)
      && (!a.decommit ==> t == s && rv != SUCCESS)
      && (a.decommit ==> forall p :: Live(sz, t, p) <==> Live(sz, s, p) && p != page)
      && (a.decommit ==>
        if UnitShared(sz, s, page) then Bases(t.units) == Bases(s.units) && t.reserved == s.reserved && rv == SUCCESS
        else Bases(t.units) == Bases(s.units) - {UnitOf(sz, page)}
             && t.reserved == (if a.release then s.reserved - {UnitOf(sz, page)} else s.reserved)
             && (rv == SUCCESS <==> a.release))
  {
    var j, i := LivePageHasPlace(sz, s, page, a);
    if a.decommit {
      PageIsRecovered(sz, s.units[j].base, i);
      SharedMeansUsed(sz, s, j, i);
      var t := Mark(s, j, i, false);
      forall p
        ensures ValidState(sz, t) && (Live(sz, t, p) <==> Live(sz, s, p) && p != page)
      {
        MarkLive(sz, s, j, i, false, p);
      }
      SameBases(s.units, t.units);
      if !AnyUsed(t.units[j].used) {
        var reserved := if a.release then t.reserved - {t.units[j].base} else t.reserved;
        forall p
          ensures ValidState(sz, Without(t, j, reserved)) && (Live(sz, Without(t, j, reserved), p) <==> Live(sz, t, p))
        {
          WithoutLive(sz, t, j, reserved, p);
        }
        BasesWithout(sz, t, j, reserved);
      }
    }
  }

  lemma SameBases(a: seq<Unit>, b: seq<Unit>)
    requires |a| == |b| && forall j :: 0 <= j < |a| ==> a[j].base == b[j].base
    ensures Bases(a) == Bases(b)
  {
    forall x | x in Bases(a) ensures x in Bases(b) {
      var j :| 0 <= j < |a| && a[j].base == x;
      assert b[j].base == x;
    }
    forall x | x in Bases(b) ensures x in Bases(a) {
      var j :| 0 <= j < |b| && b[j].base == x;
      assert a[j].base == x;
    }
  }

  lemma BasesWithout(sz: Sizes, s: State, j: nat, reserved: set<int>)
    requires ValidState(sz, s) && j < |s.units|
    ensures Bases(Without(s, j, reserved).units) == Bases(s.units) - {s.units[j].base}
  {
    var t := Without(s, j, reserved);
    forall x | x in Bases(t.units) ensures x in Bases(s.units) - {s.units[j].base} {
      var k :| 0 <= k < |t.units| && t.units[k].base == x;
      var l := if k < j then k else k + 1;
      assert s.units[l].base == x;
    }
    forall x | x in Bases(s.units) - {s.units[j].base} ensures x in Bases(t.units) {
      var l :| 0 <= l < |s.units| && s.units[l].base == x;
      var k := if l < j then l else l - 1;
      assert t.units[k].base == x;
    }
  }

  // ---- tightness ----

  lemma AllocKeepsTight(sz: Sizes, s: State, a: AllocAnswers)
    requires ValidState(sz, s) && Tight(s) && (a.commit || Alloc(sz, s, a).state == s)
    ensures Tight(Alloc(sz, s, a).state)
  {
    UnitHasPages(sz);
    var t := Alloc(sz, s, a).state;
    if t != s {
      var found := Find(sz, s.units, 0, a.avail);
      if found.Some? {
        SameBases(s.units, t.units);
        assert t.units[found.value.0].used[found.value.1];
      } else {
        assert t.units[0].used[0];
        assert t.units[1..] == s.units;
        assert forall j :: 1 <= j < |t.units| ==> t.units[j] == s.units[j - 1];
        NewBases(t.units);
      }
    }
  }

  lemma NewBases(units: seq<Unit>)
    requires units != []
    ensures Bases(units) == Bases(units[1..]) + {units[0].base}
  {
    var rest := units[1..];
    forall x | x in Bases(units) ensures x in Bases(rest) + {units[0].base} {
      var j :| 0 <= j < |units| && units[j].base == x;
      if j > 0 { assert rest[j - 1].base == x; }
    }
    forall x | x in Bases(rest) ensures x in Bases(units) {
      var j :| 0 <= j < |rest| && rest[j].base == x;
      assert units[j + 1].base == x;
    }
  }

  lemma FreeKeepsTight(sz: Sizes, s: State, page: int, a: FreeAnswers)
    requires ValidState(sz, s) && Live(sz, s, page) && Tight(s) && a.release
    ensures Tight(Free(sz, s, page, a).0)
  {
    var j, i := LivePageHasPlace(sz, s, page, a);
    if a.decommit {
      var t := Mark(s, j, i, false);
      SameBases(s.units, t.units);
      if !AnyUsed(t.units[j].used) {
        MarkLive(sz, s, j, i, false, page);
        BasesWithout(sz, t, j, t.reserved - {t.units[j].base});
      }
    }
  }

  // ---- the main theorems ----

  /** In every run: the list stays well formed, units being distinct and aligned; the pages marked as used are exactly
      those handed out and not given back; and as long as every call has succeeded, no unit is kept without a page in
      use and no other address range is reserved. */
  lemma {:induction false} EveryRunKeepsInvariant(sz: Sizes, runs: seq<Run>, events: seq<Event>)
    requires ValidRun(sz, runs, events)
    ensures Invariant(sz, runs[|events|])
    decreases |events|
  {
    var n := |events|;
    if n == 0 {
      assert Bases([]) == {};
    } else {
      assert ValidRun(sz, runs[..n], events[..n - 1]);
      EveryRunKeepsInvariant(sz, runs[..n], events[..n - 1]);
      assert Next(sz, runs[n - 1], events[n - 1], runs[n]);
      NextKeepsInvariant(sz, runs[n - 1], events[n - 1], runs[n]);
    }
  }

  lemma NextKeepsInvariant(sz: Sizes, before: Run, e: Event, after: Run)
    requires sz.Valid() && Invariant(sz, before) && Next(sz, before, e, after)
    ensures Invariant(sz, after)
  {
    hide Tight, Live, Bases;
    match e
    case AllocEvent(a) =>
      AllocatedPageIsNew(sz, before.state, a);
      if after.smooth { AllocKeepsTight(sz, before.state, a); }
    case FreeEvent(page, f) =>
      FreedPageIsGone(sz, before.state, page, f);
      if after.smooth { FreeKeepsTight(sz, before.state, page, f); }
  }

  /** When everything has been given back and every call has succeeded, nothing stays reserved. */
  lemma NothingIsLeftBehind(sz: Sizes, runs: seq<Run>, events: seq<Event>)
    requires ValidRun(sz, runs, events) && runs[|events|].smooth && runs[|events|].live == {}
    ensures runs[|events|].state == State([], {})
  {
    EveryRunKeepsInvariant(sz, runs, events);
    var r := runs[|events|];
    if r.state.units != [] {
      UsedMeansLive(sz, r.state);
    } else {
      assert Bases(r.state.units) == {};
    }
  }

  lemma UsedMeansLive(sz: Sizes, s: State)
    requires s.units != [] && AnyUsed(s.units[0].used)
    ensures exists page :: Live(sz, s, page)
  {
    var i: nat :| i < |s.units[0].used| && s.units[0].used[i];
    var page := PageAt(sz, s.units[0].base, i);
    assert InUse(sz, s, page, 0, i);
    assert Live(sz, s, page);
  }

  /** In no run is a page handed out that somebody still has. */
  lemma NeverHandedOutTwice(sz: Sizes, runs: seq<Run>, events: seq<Event>, a: AllocAnswers)
    requires ValidRun(sz, runs, events) && ValidAnswers(sz, runs[|events|].state, a)
    ensures var r := Alloc(sz, runs[|events|].state, a);
      r.page.Some? ==> r.page.value !in runs[|events|].live && r.page.value % sz.unit != 0
  {
    EveryRunKeepsInvariant(sz, runs, events);
    AllocatedPageIsNew(sz, runs[|events|].state, a);
  }

  /** Allocating a page and freeing it, with every call succeeding, leads back to the same state, unless the page was
      taken from a unit without pages in use, which a failed commit had left on the list: that unit is given back. */
  lemma AllocThenFree(sz: Sizes, s: State, a: AllocAnswers, f: FreeAnswers)
    requires ValidState(sz, s) && ValidAnswers(sz, s, a) && Alloc(sz, s, a).page.Some? && f.decommit && f.release
    ensures var r := Alloc(sz, s, a);
      && ValidState(sz, r.state) && Live(sz, r.state, r.page.value)
      && (Free(sz, r.state, r.page.value, f).0 == s <==>
        var found := Find(sz, s.units, 0, a.avail); found.None? || AnyUsed(s.units[found.value.0].used))
  {
    hide PageAt, Live, ValidState, Find, UnitOf, IndexOf, Free, FreeAt, Alloc;
    AllocatedPageIsNew(sz, s, a);
    var r := Alloc(sz, s, a);
    var j, i := AllocatedAt(sz, s, a);
    var k, l := LivePageHasPlace(sz, r.state, r.page.value, f);
    PlaceIsUnique(sz, r.state, r.page.value, j, i, k, l);
    FreeUndoes(sz, s, a, f, j, i);
  }

  lemma PlaceIsUnique(sz: Sizes, s: State, page: int, j: nat, i: nat, k: nat, l: nat)
    requires ValidState(sz, s) && InUse(sz, s, page, j, i) && InUse(sz, s, page, k, l)
    ensures j == k && i == l
  {
    hide PageAt;
    PagesAreDistinct(sz, s, j, i, k, l);
  }

  /** The slot that has been marked. */
  lemma AllocatedAt(sz: Sizes, s: State, a: AllocAnswers) returns (j: nat, i: nat)
    requires ValidState(sz, s) && ValidAnswers(sz, s, a) && Alloc(sz, s, a).page.Some?
    ensures var found := Find(sz, s.units, 0, a.avail); (j, i) == if found.Some? then found.value else (0, 0)
    ensures var r := Alloc(sz, s, a); InUse(sz, r.state, r.page.value, j, i)
  {
    UnitHasPages(sz);
    var found := Find(sz, s.units, 0, a.avail);
    j, i := if found.Some? then found.value.0 else 0, if found.Some? then found.value.1 else 0;
    hide PageAt, Find;
  }

  lemma FreeUndoes(sz: Sizes, s: State, a: AllocAnswers, f: FreeAnswers, j: nat, i: nat)
    requires ValidState(sz, s) && ValidAnswers(sz, s, a) && Alloc(sz, s, a).page.Some? && f.decommit && f.release
    requires var found := Find(sz, s.units, 0, a.avail); (j, i) == if found.Some? then found.value else (0, 0)
    requires var r := Alloc(sz, s, a).state; j < |r.units| && i < |r.units[j].used|
    ensures FreeAt(Alloc(sz, s, a).state, j, i, f).0 == s <==>
      var found := Find(sz, s.units, 0, a.avail); found.None? || AnyUsed(s.units[found.value.0].used)
  {
    UnitHasPages(sz);
    hide PageAt, Find, ValidState;
    var t := Mark(Alloc(sz, s, a).state, j, i, false);
    if Find(sz, s.units, 0, a.avail).Some? {
      assert t.units[j].used == s.units[j].used;
      assert t.units == s.units;
    } else {
      assert t.units[0].used == NoneUsed(sz.Count());
      assert t.units[..0] + t.units[1..] == s.units;
      assert t.reserved - {a.reserve.value} == s.reserved;
    }
  }
}
