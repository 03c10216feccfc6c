/** What an allocation and a release of src/os_windows.c answer, and which page they take, by conditions on the units
    and the answers of the operating system. */
module WindowsOutcomes {
  import opened Common
  import opened WindowsPages
  import opened WindowsRuns

  /** Page `i` of unit `j` is not in use and near enough. */
  predicate Suits(sz: Sizes, s: State, a: AllocAnswers, j: nat, i: nat) {
    j < |s.units| && i < |s.units[j].used| && !s.units[j].used[i] && a.avail(s.units[j].base + (i + 1) * sz.page)
  }

  ghost predicate SomePageSuits(sz: Sizes, s: State, a: AllocAnswers) {
    exists j: nat, i: nat :: Suits(sz, s, a, j, i)
  }

  /** It is the first one in the order of the list, and within a unit the one with the lowest index. */
  ghost predicate FirstToSuit(sz: Sizes, s: State, a: AllocAnswers, j: nat, i: nat) {
    Suits(sz, s, a, j, i) && forall k: nat, l: nat :: Suits(sz, s, a, k, l) ==> j < k || (j == k && i <= l)
  }

  lemma FoundIsFirst(sz: Sizes, s: State, a: AllocAnswers)
    ensures var found := Find(sz, s.units, 0, a.avail);
      if found.Some? then FirstToSuit(sz, s, a, found.value.0, found.value.1) else !SomePageSuits(sz, s, a)
  {
    var found := Find(sz, s.units, 0, a.avail);
    forall k: nat, l: nat | Suits(sz, s, a, k, l)
      ensures found.Some? && (found.value.0 < k || (found.value.0 == k && found.value.1 <= l))
    {
      assert Fits(sz, s.units[k], l, a.avail);
      if found.None? || k < found.value.0 || (k == found.value.0 && l < found.value.1) {
        FindIsFirst(sz, s.units, 0, a.avail, k, l);
      }
    }
  }

  /** Which page an allocation hands out, and with which code it fails: the first one that suits, or else the first one
      of a new unit, which comes to the front of the list; a unit whose control page cannot be committed is given back,
      and one whose first page cannot be committed stays. */
  lemma AllocExactly(sz: Sizes, s: State, a: AllocAnswers)
    requires sz.Valid()
    ensures var r := Alloc(sz, s, a);
      if SomePageSuits(sz, s, a) then r.rv == (if a.commit then SUCCESS else MEMORY_FUNCTION)
      else if a.reserve.Err? then r.rv == a.reserve.code
      else r.rv == (if a.control && a.commit then SUCCESS else MEMORY_FUNCTION)
    ensures var r := Alloc(sz, s, a);
      SomePageSuits(sz, s, a) && a.commit ==> exists j: nat, i: nat ::
        FirstToSuit(sz, s, a, j, i) && r.page == Some(s.units[j].base + (i + 1) * sz.page)
    ensures var r := Alloc(sz, s, a);
      !SomePageSuits(sz, s, a) && a.reserve.Ok? && a.control && a.commit ==>
        r.page == Some(a.reserve.value + sz.page)
    ensures var r := Alloc(sz, s, a); var grown := !SomePageSuits(sz, s, a) && a.reserve.Ok? && a.control;
      && r.state.reserved == (if grown then s.reserved + {a.reserve.value} else s.reserved)
      && |r.state.units| == |s.units| + (if grown then 1 else 0)
      && (grown ==> r.state.units[0].base == a.reserve.value && r.state.units[1..] == s.units)
      && (!grown ==> forall k :: 0 <= k < |s.units| ==> r.state.units[k].base == s.units[k].base)
  {
    UnitHasPages(sz);
    FoundIsFirst(sz, s, a);
    hide Find, Suits, SomePageSuits;
  }

  /** What a release answers: the page must be decommitted, and its unit given back if no other page of it is in use. */
  lemma FreeExactly(sz: Sizes, s: State, page: int, a: FreeAnswers, j: nat, i: nat)
    requires ValidState(sz, s) && InUse(sz, s, page, j, i)
    ensures Live(sz, s, page)
    ensures var (t, rv) := Free(sz, s, page, a);
      var shared := exists l :: 0 <= l < |s.units[j].used| && l != i && s.units[j].used[l];
      && rv == (if a.decommit && (shared || a.release) then SUCCESS else MEMORY_FUNCTION)
      && (!a.decommit ==> t == s)
      && t.reserved == (if a.decommit && !shared && a.release then s.reserved - {s.units[j].base} else s.reserved)
      && |t.units| == |s.units| - (if a.decommit && !shared then 1 else 0)
  {
    var k, l := LivePageHasPlace(sz, s, page, a);
    PlaceIsUnique(sz, s, page, j, i, k, l);
    var used := s.units[j].used;
    assert forall m :: 0 <= m < |used| ==> used[i := false][m] == (m != i && used[m]);
    hide ValidState, Live, Free;
  }
}
