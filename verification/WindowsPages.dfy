/** The page allocator of src/os_windows.c on values: allocation units in list order, each with a control page and
    used flags for its other pages. */
module WindowsPages {
  import opened Common

  /** Page size and allocation unit. */
  datatype Sizes = Sizes(page: int, unit: int) {
    /** A unit is a multiple of the page size with room for the control page and one more. */
    predicate Valid() { 0 < page && 2 * page <= unit && unit % page == 0 }

    /** max_num_pages. */
    function Count(): int
      requires Valid()
    {
      unit / page - 1
    }
  }

  datatype Unit = Unit(base: int, used: seq<bool>)

  /** Reserved address ranges are tracked beside the list, since a failed release leaves one behind. */
  datatype State = State(units: seq<Unit>, reserved: set<int>)

  function PageAt(sz: Sizes, base: int, i: int): int { base + (i + 1) * sz.page }

  /** What an allocation depends on: page_avail, the reservation of a new unit with its error code, and whether
      committing its control page and committing the page succeed. */
  datatype AllocAnswers = AllocAnswers(avail: int -> bool, reserve: Result<int>, control: bool, commit: bool)

  /** Whether decommitting the page and releasing its unit succeed. */
  datatype FreeAnswers = FreeAnswers(decommit: bool, release: bool)

  // ---- the search ----

  predicate Fits(sz: Sizes, u: Unit, i: int, avail: int -> bool)
    requires 0 <= i < |u.used|
  {
    !u.used[i] && avail(PageAt(sz, u.base, i))
  }

  /** The first fitting page of a unit, from index i on. */
  function FindIn(sz: Sizes, u: Unit, i: nat, avail: int -> bool): (r: Option<nat>)
    requires i <= |u.used|
    ensures r.Some? ==> i <= r.value < |u.used| && Fits(sz, u, r.value, avail)
    ensures forall k :: i <= k < (if r.Some? then r.value else |u.used|) ==> !Fits(sz, u, k, avail)
    decreases |u.used| - i
  {
    if i == |u.used| then None
    else if Fits(sz, u, i, avail) then Some(i)
    else FindIn(sz, u, i + 1, avail)
  }

  /** The first unit with a fitting page, from unit j on, and that page's index. */
  function Find(sz: Sizes, units: seq<Unit>, j: nat, avail: int -> bool): (r: Option<(nat, nat)>)
    requires j <= |units|
    ensures r.Some? ==> j <= r.value.0 < |units| && r.value.1 < |units[r.value.0].used|
    ensures r.Some? ==> Fits(sz, units[r.value.0], r.value.1, avail)
    decreases |units| - j
  {
    if j == |units| then None
    else
      var here := FindIn(sz, units[j], 0, avail);
      if here.Some? then Some((j, here.value)) else Find(sz, units, j + 1, avail)
  }

  /** It is the first one in list order: no page of an earlier unit fits, and none before it in its own. Without a
      result no page of any unit fits. */
  lemma {:induction false} FindIsFirst(sz: Sizes, units: seq<Unit>, j: nat, avail: int -> bool, k: nat, i: nat)
    requires j <= k < |units| && i < |units[k].used|
    requires var r := Find(sz, units, j, avail); r.Some? ==> k < r.value.0 || (k == r.value.0 && i < r.value.1)
    ensures !Fits(sz, units[k], i, avail)
    decreases |units| - j
  {
    hide Fits;
    var here := FindIn(sz, units[j], 0, avail);
    if k != j {
      FindIsFirst(sz, units, j + 1, avail, k, i);
    }
  }

  // ---- allocation and release ----

  datatype Allocated = Allocated(state: State, rv: int, page: Option<int>)

  function Mark(s: State, j: nat, i: nat, flag: bool): State
    requires j < |s.units| && i < |s.units[j].used|
  {
    s.(units := s.units[j := s.units[j].(used := s.units[j].used[i := flag])])
  }

  function NoneUsed(n: nat): (f: seq<bool>)
    ensures |f| == n && forall i :: 0 <= i < n ==> !f[i]
  {
    seq(n, i => false)
  }

  function Alloc(sz: Sizes, s: State, a: AllocAnswers): Allocated
    requires sz.Valid()
  {
    UnitHasPages(sz);
    var found := Find(sz, s.units, 0, a.avail);
    if found.Some? then
      var (j, i) := found.value;
      if a.commit then Allocated(Mark(s, j, i, true), SUCCESS, Some(PageAt(sz, s.units[j].base, i)))
      else Allocated(s, MEMORY_FUNCTION, None)
    else if a.reserve.Err? then Allocated(s, a.reserve.code, None)
    else if !a.control then Allocated(s, MEMORY_FUNCTION, None)
    else
      var base := a.reserve.value;
      var t := State([Unit(base, NoneUsed(sz.Count()))] + s.units, s.reserved + {base});
      if a.commit then Allocated(Mark(t, 0, 0, true), SUCCESS, Some(PageAt(sz, base, 0)))
      else Allocated(t, MEMORY_FUNCTION, None)
  }

  /** The address of the control page, by masking, and the index, by division. */
  function UnitOf(sz: Sizes, page: int): int
    requires sz.Valid()
  {
    page - page % sz.unit
  }

  function IndexOf(sz: Sizes, page: int): int
    requires sz.Valid()
  {
    (page - UnitOf(sz, page)) / sz.page - 1
  }

  predicate AnyUsed(used: seq<bool>) { exists i :: 0 <= i < |used| && used[i] }

  /** Page `i` of unit `j` is freed. */
  function FreeAt(s: State, j: nat, i: nat, a: FreeAnswers): (State, int)
    requires j < |s.units| && i < |s.units[j].used|
  {
    if !a.decommit then (s, MEMORY_FUNCTION)
    else
      var t := Mark(s, j, i, false);
      if AnyUsed(t.units[j].used) then (t, SUCCESS)
      else
        var rest := t.units[..j] + t.units[j + 1..];
        if a.release then (State(rest, t.reserved - {t.units[j].base}), SUCCESS)
        else (State(rest, t.reserved), MEMORY_FUNCTION)
  }

  // ---- well-formed states ----

  predicate InUse(sz: Sizes, s: State, page: int, j: nat, i: nat) {
    j < |s.units| && i < |s.units[j].used| && s.units[j].used[i] && page == PageAt(sz, s.units[j].base, i)
  }

  predicate ValidUnit(sz: Sizes, u: Unit)
    requires sz.Valid()
  {
    u.base % sz.unit == 0 && |u.used| == sz.Count()
  }

  ghost predicate ValidState(sz: Sizes, s: State) {
    && sz.Valid()
    && (forall j :: 0 <= j < |s.units| ==> ValidUnit(sz, s.units[j]) && s.units[j].base in s.reserved)
    && (forall j, k :: 0 <= j < k < |s.units| ==> s.units[j].base != s.units[k].base)
  }

  /** The pages handed out and not yet freed. */
  ghost predicate Live(sz: Sizes, s: State, page: int) { exists j: nat, i: nat :: InUse(sz, s, page, j, i) }

  // ---- masking and dividing ----

  lemma UnitHasPages(sz: Sizes)
    requires sz.Valid()
    ensures sz.Count() >= 1 && sz.unit == (sz.Count() + 1) * sz.page
  {
    var q := sz.unit / sz.page;
    assert sz.unit == q * sz.page;
    MultiplesApart(sz.page, q, 2);
  }

  lemma OrderedMultiples(x: int, y: int, p: int)
    requires x <= y && p > 0
    ensures x * p <= y * p
  {
    assert (y - x) * p == y * p - x * p;
    assert (y - x) * p >= 0;
  }

  /** For every page of a unit but the control page, masking its address gives the unit and dividing its offset gives
      its index; and it is not itself the control page of any unit. */
  lemma PageIsRecovered(sz: Sizes, base: int, i: int)
    requires sz.Valid() && base % sz.unit == 0 && 0 <= i < sz.Count()
    ensures var page := PageAt(sz, base, i);
      UnitOf(sz, page) == base && IndexOf(sz, page) == i && page % sz.unit != 0
  {
    var page, off := PageAt(sz, base, i), (i + 1) * sz.page;
    UnitHasPages(sz);
    OrderedMultiples(1, i + 1, sz.page);
    OrderedMultiples(i + 2, sz.Count() + 1, sz.page);
    assert 0 < off < sz.unit by { assert (i + 2) * sz.page == off + sz.page; }
    RemainderOfSum(base, off, sz.unit);
    assert off / sz.page == i + 1 by { QuotientOfMultiple(i + 1, sz.page); }
  }

  lemma RemainderOfSum(base: int, off: int, unit: int)
    requires unit > 0 && base % unit == 0 && 0 <= off < unit
    ensures (base + off) % unit == off
  {
    Unique(base + off, unit, base / unit, off);
  }

  lemma QuotientOfMultiple(q: int, p: int)
    requires p > 0
    ensures (q * p) / p == q
  {
    Unique(q * p, p, q, 0);
  }

  lemma Unique(a: int, p: int, q: int, r: int)
    requires p > 0 && a == q * p + r && 0 <= r < p
    ensures a / p == q && a % p == r
  {
    MultiplesApart(p, a / p, q);
    MultiplesApart(p, q, a / p);
  }

  /** Two pages are at the same address only if they are the same page of the same unit. */
  lemma PagesAreDistinct(sz: Sizes, s: State, j: nat, i: nat, k: nat, l: nat)
    requires ValidState(sz, s) && j < |s.units| && k < |s.units| && i < sz.Count() && l < sz.Count()
    requires PageAt(sz, s.units[j].base, i) == PageAt(sz, s.units[k].base, l)
    ensures j == k && i == l
  {
    PageIsRecovered(sz, s.units[j].base, i);
    PageIsRecovered(sz, s.units[k].base, l);
  }

  // ---- freeing by address ----

  /** The unit whose control page the masked address points to. */
  function FindUnit(units: seq<Unit>, base: int): (j: Option<nat>)
    ensures j.Some? ==> j.value < |units| && units[j.value].base == base
    ensures j.None? ==> forall k :: 0 <= k < |units| ==> units[k].base != base
  {
    if units == [] then None
    else if units[0].base == base then Some(0)
    else
      var j := FindUnit(units[1..], base);
      assert forall k :: 1 <= k < |units| ==> units[k] == units[1..][k - 1];
      if j.Some? then Some(j.value + 1) else None
  }

  lemma LivePageIsFound(sz: Sizes, s: State, page: int, j: nat, i: nat)
    requires ValidState(sz, s) && InUse(sz, s, page, j, i)
    ensures FindUnit(s.units, UnitOf(sz, page)) == Some(j) && IndexOf(sz, page) == i
  {
    PageIsRecovered(sz, s.units[j].base, i);
  }

  function Free(sz: Sizes, s: State, page: int, a: FreeAnswers): (State, int)
    requires ValidState(sz, s) && Live(sz, s, page)
  {
    var j, i :| InUse(sz, s, page, j, i);
    LivePageIsFound(sz, s, page, j, i);
    FreeAt(s, FindUnit(s.units, UnitOf(sz, page)).value, IndexOf(sz, page), a)
  }
}
