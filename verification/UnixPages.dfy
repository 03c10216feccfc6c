/** Where pages near a function come from on Unix: the search for free addresses, the allocation around it, and the
    rounding of code ranges to pages, src/os_unix.c. Addresses are integers; unsigned differences are written out. */
module UnixPages {
  import opened Common

  const SPACE := 0x1_0000_0000_0000_0000
  const INT32_MAX := 0x7FFF_FFFF

  datatype Region = Region(start: int, end: int)

  /** A process map: non-empty regions in ascending order that do not overlap, with room for a page behind each. */
  ghost predicate IsMap(regions: seq<Region>, page: nat) {
    && (forall i :: 0 <= i < |regions| ==> 0 <= regions[i].start < regions[i].end && regions[i].end + page <= SPACE)
    && (forall i, j :: 0 <= i < j < |regions| ==> regions[i].end <= regions[j].start)
  }

  predicate Apart(r: Region, a: int, page: nat) { a + page <= r.start || r.end <= a }

  /** The page at the address overlaps no region. */
  predicate Free(regions: seq<Region>, page: nat, a: int) {
    0 <= a && a + page <= SPACE && forall i :: 0 <= i < |regions| ==> Apart(regions[i], a, page)
  }

  /** The addresses below and above the function; 0 is a null pointer. */
  datatype Found = Found(rv: int, below: int, above: int)

  function PrevEnd(regions: seq<Region>, i: nat): int
    requires i <= |regions|
  {
    if i == 0 then 0 else regions[i - 1].end
  }

  function Above(prevEnd: int, func: int): int { if prevEnd - func < INT32_MAX then prevEnd else 0 }

  /** The address below, after a gap that ends at `start`. */
  function Below(start: int, page: nat, func: int, below: int): int {
    if start < func && func - (start - page) < INT32_MAX then start - page else below
  }

  /** The rest of the scan, from region i on. */
  function Scan(regions: seq<Region>, page: nat, func: int, i: nat, below: int): Found
    requires i <= |regions|
    decreases |regions| - i
  {
    var prevEnd := PrevEnd(regions, i);
    if i == |regions| then
      if func < prevEnd then Found(SUCCESS, below, Above(prevEnd, func)) else Found(MEMORY_ALLOCATION, below, 0)
    else if prevEnd + page <= regions[i].start then
      var nearest := Below(regions[i].start, page, func, below);
      if func < prevEnd then Found(SUCCESS, nearest, Above(prevEnd, func))
      else Scan(regions, page, func, i + 1, nearest)
    else Scan(regions, page, func, i + 1, below)
  }

  function FreeAddresses(regions: seq<Region>, page: nat, func: int): Found { Scan(regions, page, func, 0, 0) }

  method GetFreeAddress(regions: seq<Region>, page: nat, func: int) returns (rv: int, below: int, above: int)
    ensures Found(rv, below, above) == FreeAddresses(regions, page, func)
  {
    var prevEnd, i := 0, 0;
    below, above := 0, 0;
    while i < |regions|
      invariant i <= |regions| && above == 0 && prevEnd == PrevEnd(regions, i)
      invariant FreeAddresses(regions, page, func) == Scan(regions, page, func, i, below)
    {
      var start, end := regions[i].start, regions[i].end;
      if prevEnd + page <= start {
        if start < func {
          var addr := start - page;
          if func - addr < INT32_MAX {
            below := addr;
          }
        }
        if func < prevEnd {
          if prevEnd - func < INT32_MAX {
            above := prevEnd;
          }
          return SUCCESS, below, above;
        }
      }
      prevEnd := end;
      i := i + 1;
    }
    if func < prevEnd {
      if prevEnd - func < INT32_MAX {
        above := prevEnd;
      }
      return SUCCESS, below, above;
    }
    rv := MEMORY_ALLOCATION;
  }

  // ---- the search is optimal ----

  /** `above` is the lowest free page above the function, or null because that one is too far. */
  ghost predicate NearestAbove(regions: seq<Region>, page: nat, func: int, above: int) {
    if above != 0 then
      && Free(regions, page, above) && func < above && above - func < INT32_MAX
      && forall a :: Free(regions, page, a) && func < a ==> above <= a
    else forall a :: Free(regions, page, a) && func < a ==> a - func >= INT32_MAX
  }

  /** Among the pages below `limit`, `below` is the highest free one below the function other than page 0, or null
      because that one is too far or there is none. */
  ghost predicate NearestBelow(regions: seq<Region>, page: nat, func: int, below: int, limit: int) {
    if below != 0 then
      && Free(regions, page, below) && below < func && func - below < INT32_MAX
      && forall a :: Free(regions, page, a) && 0 < a < func && a < limit ==> a <= below
    else forall a :: Free(regions, page, a) && 0 < a < func && a < limit ==> func - a >= INT32_MAX
  }

  ghost predicate Inside(regions: seq<Region>, func: int, k: nat) {
    k < |regions| && regions[k].start <= func < regions[k].end
  }

  lemma PageAfter(regions: seq<Region>, page: nat, i: nat)
    requires IsMap(regions, page) && 1 <= i <= |regions|
    requires i < |regions| ==> PrevEnd(regions, i) + page <= regions[i].start
    ensures Free(regions, page, PrevEnd(regions, i))
  {
    var a := PrevEnd(regions, i);
    forall j | 0 <= j < |regions| ensures Apart(regions[j], a, page) {
      if i < j { assert regions[i].end <= regions[j].start; }
      if j < i - 1 { assert regions[j].end <= regions[i - 1].start; }
    }
  }

  lemma PageBefore(regions: seq<Region>, page: nat, i: nat)
    requires IsMap(regions, page) && i < |regions| && PrevEnd(regions, i) + page <= regions[i].start
    ensures Free(regions, page, regions[i].start - page)
  {
    var a := regions[i].start - page;
    forall j | 0 <= j < |regions| ensures Apart(regions[j], a, page) {
      if i < j { assert regions[i].end <= regions[j].start; }
      if j < i - 1 { assert regions[j].end <= regions[i - 1].start; }
    }
  }

  lemma {:induction false} ScanAbove(regions: seq<Region>, page: nat, func: int, k: nat, i: nat, below: int)
    requires IsMap(regions, page) && page > 0 && Inside(regions, func, k) && i <= |regions|
    requires i > k ==> func < PrevEnd(regions, i) && forall a ::
      Free(regions, page, a) && func < a ==> PrevEnd(regions, i) <= a
    ensures var f := Scan(regions, page, func, i, below); f.rv == SUCCESS && NearestAbove(regions, page, func, f.above)
    decreases |regions| - i
  {
    var prevEnd := PrevEnd(regions, i);
    if i <= k {
      assert prevEnd <= regions[k].start;
    }
    if i == |regions| || (prevEnd + page <= regions[i].start && func < prevEnd) {
      PageAfter(regions, page, i);
    } else {
      forall a | i >= k && Free(regions, page, a) && func < a ensures regions[i].end <= a {
        assert Apart(regions[i], a, page);
      }
      var nearest := if prevEnd + page <= regions[i].start then Below(regions[i].start, page, func, below) else below;
      ScanAbove(regions, page, func, k, i + 1, nearest);
    }
  }

  /** The page above: for any function inside a region of any process map, the search finds the lowest free page above
      it, or null exactly when that page is too far. */
  lemma AboveIsNearest(regions: seq<Region>, page: nat, func: int, k: nat)
    requires IsMap(regions, page) && page > 0 && Inside(regions, func, k)
    ensures var f := FreeAddresses(regions, page, func); f.rv == SUCCESS && NearestAbove(regions, page, func, f.above)
  {
    ScanAbove(regions, page, func, k, 0, 0);
  }

  /** Behind the function's region the scan does not change the address below. */
  lemma {:induction false} ScanBehind(regions: seq<Region>, page: nat, func: int, i: nat, below: int)
    requires IsMap(regions, page) && i <= |regions| && forall j :: i <= j < |regions| ==> func <= regions[j].start
    ensures Scan(regions, page, func, i, below).below == below
    decreases |regions| - i
  {
    if i < |regions| {
      ScanBehind(regions, page, func, i + 1, below);
    }
  }

  lemma {:induction false} ScanBelow(regions: seq<Region>, page: nat, func: int, k: nat, i: nat, below: int)
    requires IsMap(regions, page) && page > 0 && Inside(regions, func, k) && i <= k
    requires NearestBelow(regions, page, func, below, PrevEnd(regions, i))
    ensures var f := Scan(regions, page, func, i, below);
      NearestBelow(regions, page, func, f.below, if regions[k].start < func then func else PrevEnd(regions, k))
    decreases k - i
  {
    var r, prevEnd := regions[i], PrevEnd(regions, i);
    assert prevEnd <= func by {
      if i > 0 { assert regions[i - 1].end <= regions[k].start; }
    }
    var nearest := if prevEnd + page <= r.start then Below(r.start, page, func, below) else below;
    assert Scan(regions, page, func, i, below) == Scan(regions, page, func, i + 1, nearest);
    assert r.start <= func by {
      if i < k { assert r.end <= regions[k].start; }
    }
    if r.start < func {
      StepBelow(regions, page, func, i, below);
    }
    if i < k {
      assert r.end <= regions[k].start;
      ScanBelow(regions, page, func, k, i + 1, nearest);
    } else {
      assert forall j :: k < j < |regions| ==> regions[k].end <= regions[j].start;
      ScanBehind(regions, page, func, k + 1, nearest);
    }
  }

  /** One round, for a region that starts below the function. */
  lemma StepBelow(regions: seq<Region>, page: nat, func: int, i: nat, below: int)
    requires IsMap(regions, page) && page > 0 && i < |regions| && regions[i].start < func && PrevEnd(regions, i) <= func
    requires NearestBelow(regions, page, func, below, PrevEnd(regions, i))
    ensures var nearest :=
        if PrevEnd(regions, i) + page <= regions[i].start then Below(regions[i].start, page, func, below) else below;
      NearestBelow(regions, page, func, nearest, regions[i].end)
  {
    var r, prevEnd := regions[i], PrevEnd(regions, i);
    forall a | Free(regions, page, a) && a < r.end
      ensures a + page <= r.start && (a < prevEnd || prevEnd + page <= r.start)
    {
      assert Apart(r, a, page);
    }
    if prevEnd + page <= r.start {
      PageBefore(regions, page, i);
    }
  }

  /** The page below: for any function inside a region, the search finds the highest free page below it other than
      page 0, or null exactly when that page is too far or there is none, except in one case: the function is the
      first byte of its region and the page just below is free and not page 0. That page is then overlooked. */
  lemma BelowIsNearestExactly(regions: seq<Region>, page: nat, func: int, k: nat)
    requires IsMap(regions, page) && 0 < page < INT32_MAX && Inside(regions, func, k)
    ensures NearestBelow(regions, page, func, FreeAddresses(regions, page, func).below, func) <==>
      !(func == regions[k].start && func - page > 0 && Free(regions, page, func - page))
  {
    var below := FreeAddresses(regions, page, func).below;
    ScanBelow(regions, page, func, k, 0, 0);
    if regions[k].start == func {
      var prevEnd := PrevEnd(regions, k);
      forall a | Free(regions, page, a) && 0 < a < func && prevEnd <= a
        ensures func - page > 0 && Free(regions, page, func - page)
      {
        assert Apart(regions[k], a, page);
        PageBefore(regions, page, k);
      }
      if func - page > 0 && Free(regions, page, func - page) {
        OverlooksPageBelow(regions, page, func, k, below);
      }
    }
  }

  lemma OverlooksPageBelow(regions: seq<Region>, page: nat, func: int, k: nat, below: int)
    requires IsMap(regions, page) && 0 < page < INT32_MAX && Inside(regions, func, k) && func == regions[k].start
    requires func - page > 0 && Free(regions, page, func - page)
    requires below == FreeAddresses(regions, page, func).below
    ensures !NearestBelow(regions, page, func, below, func)
  {
    BelowIsFarther(regions, page, func, k, 0, 0);
    var a := func - page;
    assert Free(regions, page, a) && 0 < a < func && func - a < INT32_MAX;
  }

  /** Whatever the search returns below the first byte of a region starts more than a page below it. */
  lemma {:induction false} BelowIsFarther(regions: seq<Region>, page: nat, func: int, k: nat, i: nat, below: int)
    requires IsMap(regions, page) && page > 0 && Inside(regions, func, k) && func == regions[k].start && i <= k
    requires below < func - page || below == 0
    ensures var f := Scan(regions, page, func, i, below); f.below < func - page || f.below == 0
    decreases k - i
  {
    var r, prevEnd := regions[i], PrevEnd(regions, i);
    assert prevEnd <= func by {
      if i > 0 { assert regions[i - 1].end <= regions[k].start; }
    }
    var nearest := if prevEnd + page <= r.start then Below(r.start, page, func, below) else below;
    assert Scan(regions, page, func, i, below) == Scan(regions, page, func, i + 1, nearest);
    if i < k {
      assert r.end <= regions[k].start;
      BelowIsFarther(regions, page, func, k, i + 1, nearest);
    } else {
      assert forall j :: k < j < |regions| ==> regions[k].end <= regions[j].start;
      ScanBehind(regions, page, func, k + 1, nearest);
    }
  }

  /** The search fails exactly when no region ends above the function. */
  lemma {:induction false} FailsExactly(regions: seq<Region>, page: nat, func: int, i: nat, below: int)
    requires IsMap(regions, page) && 0 <= func && i <= |regions|
    ensures Scan(regions, page, func, i, below).rv == SUCCESS
      <==> func < PrevEnd(regions, i) || exists j :: i <= j < |regions| && func < regions[j].end
    ensures Scan(regions, page, func, i, below).rv in {SUCCESS, MEMORY_ALLOCATION}
    decreases |regions| - i
  {
    if i < |regions| {
      var prevEnd := PrevEnd(regions, i);
      var nearest := if prevEnd + page <= regions[i].start then Below(regions[i].start, page, func, below) else below;
      FailsExactly(regions, page, func, i + 1, nearest);
    }
  }

  ghost predicate FreeBelow(regions: seq<Region>, page: nat, func: int, a: int) {
    a != 0 ==> Free(regions, page, a) && a < func && func - a < INT32_MAX
  }

  ghost predicate FreeAbove(regions: seq<Region>, page: nat, func: int, a: int) {
    a != 0 ==> Free(regions, page, a) && func < a && a - func < INT32_MAX
  }

  lemma AboveIsFree(regions: seq<Region>, page: nat, func: int, i: nat)
    requires IsMap(regions, page) && i <= |regions| && 0 <= func < PrevEnd(regions, i)
    requires i == |regions| || PrevEnd(regions, i) + page <= regions[i].start
    ensures FreeAbove(regions, page, func, Above(PrevEnd(regions, i), func))
  {
    PageAfter(regions, page, i);
    hide Free, IsMap;
  }

  lemma BelowIsFree(regions: seq<Region>, page: nat, func: int, i: nat, below: int)
    requires IsMap(regions, page) && 0 <= func && i < |regions| && FreeBelow(regions, page, func, below)
    requires PrevEnd(regions, i) + page <= regions[i].start
    ensures FreeBelow(regions, page, func, Below(regions[i].start, page, func, below))
  {
    PageBefore(regions, page, i);
    hide Free, IsMap;
  }

  /** Wherever the function lies, no address found overlaps a region, and both are on their side within reach. */
  lemma {:induction false} FoundIsFree(regions: seq<Region>, page: nat, func: int, i: nat, below: int)
    requires IsMap(regions, page) && 0 <= func && i <= |regions| && FreeBelow(regions, page, func, below)
    ensures var f := Scan(regions, page, func, i, below);
      && (f.below != 0 ==> Free(regions, page, f.below) && f.below < func && func - f.below < INT32_MAX)
      && (f.above != 0 ==> Free(regions, page, f.above) && func < f.above && f.above - func < INT32_MAX)
    decreases |regions| - i
  {
    hide Free, IsMap, Above, Below;
    var prevEnd := PrevEnd(regions, i);
    if i == |regions| {
      if func < prevEnd { AboveIsFree(regions, page, func, i); }
    } else {
      if prevEnd + page <= regions[i].start {
        BelowIsFree(regions, page, func, i, below);
        if func < prevEnd { AboveIsFree(regions, page, func, i); }
        FoundIsFree(regions, page, func, i + 1, Below(regions[i].start, page, func, below));
      } else {
        FoundIsFree(regions, page, func, i + 1, below);
      }
    }
  }

  /** When the process map is page-aligned, so is what is found. */
  lemma {:induction false} FoundIsAligned(regions: seq<Region>, page: nat, func: int, i: nat, below: int)
    requires IsMap(regions, page) && page > 0 && i <= |regions| && below % page == 0
    requires forall j :: 0 <= j < |regions| ==> regions[j].start % page == 0 && regions[j].end % page == 0
    ensures var f := Scan(regions, page, func, i, below); f.below % page == 0 && f.above % page == 0
    decreases |regions| - i
  {
    ZeroIsAligned(page);
    if i < |regions| {
      PageDown(regions[i].start, page);
      var nearest :=
        if PrevEnd(regions, i) + page <= regions[i].start then Below(regions[i].start, page, func, below) else below;
      FoundIsAligned(regions, page, func, i + 1, nearest);
    }
  }

  lemma ZeroIsAligned(page: nat)
    requires page > 0
    ensures 0 % page == 0
  {}

  lemma PageDown(a: int, page: nat)
    requires page > 0 && a % page == 0
    ensures (a - page) % page == 0
  {
    var q := a / page;
    assert a - page == page * (q - 1);
    MultipleIsAligned(page, q - 1);
  }

  lemma MultipleIsAligned(page: nat, q: int)
    requires page > 0
    ensures (page * q) % page == 0
  {
    DivisionIsUnique(page * q, page, q, 0);
  }

  lemma DivisionIsUnique(a: int, page: nat, q: int, r: int)
    requires page > 0 && a == page * q + r && 0 <= r < page
    ensures a / page == q && a % page == r
  {
    MultiplesApart(page, a / page, q);
    MultiplesApart(page, q, a / page);
  }

  // ---- allocation ----

  const MAP_FAILED := SPACE - 1
  const MAP_FAILED_32 := 0xFFFF_FFFF

  /** The answers of the operating system: the process map in each round, if it can be read, and the result of each
      mmap for its hint. */
  datatype Os = Os(maps: nat -> Option<seq<Region>>, mmap: (nat, int) -> int)

  /** SAFE_JUMP_DISTANCE: the difference is unsigned. */
  predicate SafeDistance(x: int, y: int, page: nat) {
    (x - y) % SPACE < INT32_MAX - page
  }

  predicate Near(func: int, p: int, page: nat) { SafeDistance(func, p, page) || SafeDistance(p, func, page) }

  datatype Try = Done(rv: int, page: int) | Rejected

  function TryHint(os: Os, page: nat, func: int, call: nat, hint: int): Try {
    if hint == 0 then Rejected
    else
      var p := os.mmap(call, hint);
      if Near(func, p, page) then Done(SUCCESS, p)
      else if p == MAP_FAILED then Done(MEMORY_ALLOCATION, p)
      else Rejected
  }

  function Allocate(os: Os, page: nat, func: int, round: nat): (r: Try)
    ensures r.Done?
    decreases 3 - round
  {
    if round >= 3 then Done(MEMORY_ALLOCATION, 0)
    else if os.maps(round).None? then Done(INTERNAL_ERROR, 0)
    else
      var f := FreeAddresses(os.maps(round).value, page, func);
      if f.rv != SUCCESS then Done(f.rv, 0)
      else
        var first := TryHint(os, page, func, 2 * round, f.above);
        if first.Done? then first
        else
          var second := TryHint(os, page, func, 2 * round + 1, f.below);
          if second.Done? then second else Allocate(os, page, func, round + 1)
  }

  /** The allocation on a 64-bit processor, and on a 32-bit one, where any page will do. `kept` are the pages this
      call has mapped and not unmapped again. */
  method PageAlloc(os: Os, wide: bool, page: nat, func: int) returns (rv: int, pageOut: int, kept: set<int>)
    ensures wide ==> rv == Allocate(os, page, func, 0).rv
    ensures wide && rv == SUCCESS ==> pageOut == Allocate(os, page, func, 0).page
    ensures wide ==> kept == if rv == SUCCESS && pageOut != MAP_FAILED then {pageOut} else {}
    ensures !wide ==> rv in {SUCCESS, MEMORY_ALLOCATION} && (rv == SUCCESS <==> os.mmap(0, 0) != MAP_FAILED_32)
    ensures !wide ==> kept == if rv == SUCCESS then {os.mmap(0, 0)} else {}
    ensures !wide && rv == SUCCESS ==> pageOut in kept
  {
    hide Near;
    kept, pageOut := {}, 0;
    if !wide {
      pageOut := os.mmap(0, 0);
      if pageOut != MAP_FAILED_32 { return SUCCESS, pageOut, {pageOut}; }
      return MEMORY_ALLOCATION, pageOut, kept;
    }
    var round := 0;
    while round < 3
      invariant round <= 3 && kept == {}
      invariant Allocate(os, page, func, 0) == Allocate(os, page, func, round)
    {
      var regions := os.maps(round);
      if regions.None? { return INTERNAL_ERROR, pageOut, kept; }
      var below, above;
      rv, below, above := GetFreeAddress(regions.value, page, func);
      if rv != SUCCESS { return; }
      var addrs := [below, above];
      var i := 1;
      while i >= 0
        invariant -1 <= i <= 1 && kept == {}
        invariant i == 1 ==> Allocate(os, page, func, 0) == Allocate(os, page, func, round)
        invariant i < 1 ==> TryHint(os, page, func, 2 * round, above).Rejected?
        invariant i < 0 ==> TryHint(os, page, func, 2 * round + 1, below).Rejected?
      {
        if addrs[i] != 0 {
          pageOut := os.mmap(2 * round + 1 - i, addrs[i]);
          if pageOut != MAP_FAILED { kept := kept + {pageOut}; }
          if Near(func, pageOut, page) { return SUCCESS, pageOut, kept; }
          if pageOut == MAP_FAILED { return MEMORY_ALLOCATION, pageOut, kept; }
          kept := kept - {pageOut};
        }
        i := i - 1;
      }
      round := round + 1;
    }
    rv := MEMORY_ALLOCATION;
  }

  /** A page that is returned is within reach of the function. */
  lemma {:induction false} AllocatedIsNear(os: Os, page: nat, func: int, round: nat)
    requires Allocate(os, page, func, round).rv == SUCCESS
    ensures Near(func, Allocate(os, page, func, round).page, page)
    decreases 3 - round
  {
    hide Near;
    if round < 3 && os.maps(round).Some? {
      var f := FreeAddresses(os.maps(round).value, page, func);
      if f.rv == SUCCESS && TryHint(os, page, func, 2 * round, f.above).Rejected?
         && TryHint(os, page, func, 2 * round + 1, f.below).Rejected? {
        AllocatedIsNear(os, page, func, round + 1);
      }
    }
  }

  predicate Good(os: Os, page: nat, func: int, call: nat, hint: int) {
    hint != 0 && Near(func, os.mmap(call, hint), page)
  }

  predicate GoodRound(os: Os, page: nat, func: int, round: nat)
    requires os.maps(round).Some?
  {
    var f := FreeAddresses(os.maps(round).value, page, func);
    Good(os, page, func, 2 * round, f.above) || Good(os, page, func, 2 * round + 1, f.below)
  }

  /** As long as maps can be read, searches succeed and mmap does not fail, the allocation succeeds if and only if one
      of the two tries of one of the three rounds gives a page within reach. */
  lemma {:induction false} SucceedsIffSomeTryIsNear(os: Os, page: nat, func: int, round: nat)
    requires round <= 3 && forall call, hint :: os.mmap(call, hint) != MAP_FAILED
    requires forall r ::
      round <= r < 3 ==> os.maps(r).Some? && FreeAddresses(os.maps(r).value, page, func).rv == SUCCESS
    ensures Allocate(os, page, func, round).rv == SUCCESS
      <==> exists r :: round <= r < 3 && GoodRound(os, page, func, r)
    decreases 3 - round
  {
    hide Near, FreeAddresses;
    if round < 3 {
      SucceedsIffSomeTryIsNear(os, page, func, round + 1);
      assert GoodRound(os, page, func, round) || Allocate(os, page, func, round) == Allocate(os, page, func, round + 1);
    }
  }

  /** Where the value of MAP_FAILED itself passes the distance test. */
  predicate FailureLooksNear(func: int, page: nat) {
    func + 1 < INT32_MAX - page || MAP_FAILED - func < INT32_MAX - page
  }

  predicate Fails(os: Os, call: nat, hint: int) { hint != 0 && os.mmap(call, hint) == MAP_FAILED }

  /** Some try that is made, behind any number of rejected ones, ends in a failing mmap. */
  predicate MeetsFailure(os: Os, page: nat, func: int, round: nat)
    decreases 3 - round
  {
    round < 3 && os.maps(round).Some? &&
    var f := FreeAddresses(os.maps(round).value, page, func);
    f.rv == SUCCESS &&
    (Fails(os, 2 * round, f.above) ||
     (TryHint(os, page, func, 2 * round, f.above).Rejected? &&
      (Fails(os, 2 * round + 1, f.below) ||
       (TryHint(os, page, func, 2 * round + 1, f.below).Rejected? && MeetsFailure(os, page, func, round + 1)))))
  }

  /** A failing mmap ends the allocation, and is taken for a success exactly for functions in the lowest or highest
      2 GB of the address space, since the distance is tested first; nothing else gives this value. */
  lemma {:induction false} FailedMappingExactly(os: Os, page: nat, func: int, round: nat)
    requires 0 <= func < SPACE && page < INT32_MAX
    ensures MeetsFailure(os, page, func, round) ==>
      var rv := if FailureLooksNear(func, page) then SUCCESS else MEMORY_ALLOCATION;
      Allocate(os, page, func, round) == Done(rv, MAP_FAILED)
    ensures Allocate(os, page, func, round) == Done(SUCCESS, MAP_FAILED)
      <==> MeetsFailure(os, page, func, round) && FailureLooksNear(func, page)
    decreases 3 - round
  {
    FailureIsNear(func, page);
    hide Near, FreeAddresses, FailureLooksNear;
    if round < 3 { FailedMappingExactly(os, page, func, round + 1); }
  }

  lemma FailureIsNear(func: int, page: nat)
    requires 0 <= func < SPACE && page < INT32_MAX
    ensures Near(func, MAP_FAILED, page) <==> FailureLooksNear(func, page)
  {}

  /** Elsewhere a success is a mapped page. */
  lemma {:induction false} AllocatedIsMapped(os: Os, page: nat, func: int, round: nat)
    requires 0 <= func < SPACE && page < INT32_MAX && !FailureLooksNear(func, page)
    requires Allocate(os, page, func, round).rv == SUCCESS
    ensures Allocate(os, page, func, round).page != MAP_FAILED
  {
    AllocatedIsNear(os, page, func, round);
  }

  /** A system that maps a page at the hint when it is free gives the lowest free page above the function when that is
      within reach, whatever lies below. */
  lemma NearestPageIsTaken(os: Os, page: nat, func: int, regions: seq<Region>, k: nat, best: int)
    requires os.maps(0) == Some(regions) && IsMap(regions, page) && 0 < page < INT32_MAX && Inside(regions, func, k)
    requires forall a :: Free(regions, page, a) ==> os.mmap(0, a) == a
    requires Free(regions, page, best) && func < best && best - func < INT32_MAX - page
    requires forall a :: Free(regions, page, a) && func < a ==> best <= a
    ensures Allocate(os, page, func, 0) == Done(SUCCESS, best)
  {
    AboveIsNearest(regions, page, func, k);
    hide Free;
    var above := FreeAddresses(regions, page, func).above;
    assert above == best;
  }

  // ---- lifting the protection of code ----

  function RoundDown(a: int, page: nat): int
    requires page > 0
  {
    a - a % page
  }

  function RoundUp(a: int, page: nat): int
    requires page > 0
  {
    RoundDown(a + page - 1, page)
  }

  /** The range whose protection funchook_unprotect_begin changes: address and size. */
  function Unprotected(start: int, len: nat, page: nat): (int, int)
    requires page > 0
  {
    var saddr := RoundDown(start, page);
    (saddr, RoundUp(len + start - saddr, page))
  }

  /** It covers the code to be written, begins and ends at page boundaries, and is the least such range. */
  lemma UnprotectedIsLeastCover(start: int, len: nat, page: nat, a: int, b: int)
    requires page > 0 && len > 0
    requires a % page == 0 && b % page == 0 && a <= start && start + len <= b
    ensures var (at, size) := Unprotected(start, len, page);
      && at % page == 0 && (at + size) % page == 0
      && at <= start && start + len <= at + size
      && a <= at && at + size <= b
  {
    var at := RoundDown(start, page);
    var n := len + start - at;
    RoundDownMeans(start, page);
    RoundDownMeans(n + page - 1, page);
    AlignedMeans(a, page);
    AlignedMeans(b, page);
    hide RoundDown;
    LeastMultiples(page, start / page, (n + page - 1) / page, a / page, b / page, start, len);
  }

  lemma LeastMultiples(page: nat, q0: int, q1: int, qa: int, qb: int, start: int, len: nat)
    requires page > 0
    requires page * q0 <= start < page * q0 + page
    requires page * q1 <= len + start - page * q0 + page - 1 < page * q1 + page
    requires page * qa <= start && start + len <= page * qb
    ensures (page * q0) % page == 0 && (page * q0 + page * q1) % page == 0
    ensures start + len <= page * q0 + page * q1
    ensures page * qa <= page * q0 && page * q0 + page * q1 <= page * qb
  {
    assert page * q0 + page * q1 == page * (q0 + q1);
    MultipleIsAligned(page, q0);
    MultipleIsAligned(page, q0 + q1);
    MultiplesApart(page, q0, qa);
    MultiplesApart(page, qb, q0 + q1);
  }

  lemma AlignedMeans(a: int, page: nat)
    requires page > 0 && a % page == 0
    ensures a == page * (a / page)
  {}

  lemma RoundDownMeans(a: int, page: nat)
    requires page > 0
    ensures RoundDown(a, page) == page * (a / page) && RoundDown(a, page) <= a < RoundDown(a, page) + page
  {}
}
