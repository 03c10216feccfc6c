/** What the page allocation of src/os_unix.c answers on a 64-bit processor, for every behaviour of the system. */
module UnixOutcomes {
  import opened Common
  import opened UnixPages

  /** The distance test accepts exactly the pages whose distance, one way or the other round the address space, is below
      the limit. */
  lemma NearExactly(func: int, p: int, page: nat)
    requires 0 <= func < SPACE && 0 <= p < SPACE && page < INT32_MAX
    ensures Near(func, p, page) <==>
      var d := if func <= p then p - func else func - p;
      d < INT32_MAX - page || SPACE - d < INT32_MAX - page
  {
    var d := if func <= p then p - func else func - p;
    assert (func - p) % SPACE == if func >= p then d else SPACE - d;
    assert (p - func) % SPACE == if p >= func then d else SPACE - d;
  }

  /** An allocation consists of at most nine steps, three in each round: the search in the process map, the try above
      the function and the try below it. `hint` is the address of a try, null if there is none. */
  function Hint(os: Os, page: nat, func: int, step: nat): int
    requires os.maps(step / 3).Some?
  {
    var found := FreeAddresses(os.maps(step / 3).value, page, func);
    if step % 3 == 1 then found.above else found.below
  }

  /** What mmap answers in a try. */
  function Answer(os: Os, page: nat, func: int, step: nat): int
    requires os.maps(step / 3).Some? && step % 3 != 0
  {
    os.mmap(2 * (step / 3) + step % 3 - 1, Hint(os, page, func, step))
  }

  /** The step ends the allocation: the map cannot be read, the search fails, or mmap is asked for a page and fails or
      answers with a near one. */
  predicate Ends(os: Os, page: nat, func: int, step: nat) {
    var read := os.maps(step / 3);
    if step % 3 == 0 then read.None? || FreeAddresses(read.value, page, func).rv != SUCCESS
    else
      && read.Some? && Hint(os, page, func, step) != 0
      && (Near(func, Answer(os, page, func, step), page) || Answer(os, page, func, step) == MAP_FAILED)
  }

  ghost predicate FirstToEnd(os: Os, page: nat, func: int, from: nat, step: nat) {
    from <= step < 9 && Ends(os, page, func, step) && forall k :: from <= k < step ==> !Ends(os, page, func, k)
  }

  /** What the allocation answers when this step is the one that ends it, and the address it has got. */
  function Verdict(os: Os, page: nat, func: int, step: nat): Try
    requires Ends(os, page, func, step)
  {
    if step % 3 == 0 then Done(if os.maps(step / 3).None? then INTERNAL_ERROR else MEMORY_ALLOCATION, 0)
    else
      var p := Answer(os, page, func, step);
      Done(if Near(func, p, page) then SUCCESS else MEMORY_ALLOCATION, p)
  }

  lemma {:induction false} SearchCodes(regions: seq<Region>, page: nat, func: int, i: nat, below: int)
    requires i <= |regions|
    ensures Scan(regions, page, func, i, below).rv in {SUCCESS, MEMORY_ALLOCATION}
    decreases |regions| - i
  {
    hide Above, Below;
    if i < |regions| {
      var nearest := if PrevEnd(regions, i) + page <= regions[i].start then Below(regions[i].start, page, func, below)
        else below;
      SearchCodes(regions, page, func, i + 1, nearest);
    }
  }

  /** The three steps of a round, as the allocation takes them. */
  lemma StepsOfRound(os: Os, page: nat, func: int, round: nat)
    ensures Ends(os, page, func, 3 * round) ==>
      Allocate(os, page, func, round) == if round < 3 then Verdict(os, page, func, 3 * round)
        else Done(MEMORY_ALLOCATION, 0)
    ensures round < 3 && !Ends(os, page, func, 3 * round) ==>
      var next, last := 3 * round + 1, 3 * round + 2;
      Allocate(os, page, func, round) ==
        if Ends(os, page, func, next) then Verdict(os, page, func, next)
        else if Ends(os, page, func, last) then Verdict(os, page, func, last)
        else Allocate(os, page, func, round + 1)
  {
    hide Near, FreeAddresses, Scan;
    assert (3 * round) / 3 == (3 * round + 1) / 3 == (3 * round + 2) / 3 == round;
    assert (3 * round) % 3 == 0 && (3 * round + 1) % 3 == 1 && (3 * round + 2) % 3 == 2;
    if os.maps(round).Some? { SearchFailure(os.maps(round).value, page, func); }
  }

  lemma SearchFailure(regions: seq<Region>, page: nat, func: int)
    ensures FreeAddresses(regions, page, func).rv in {SUCCESS, MEMORY_ALLOCATION}
  {
    SearchCodes(regions, page, func, 0, 0);
  }

  lemma {:induction false} AllocateFrom(os: Os, page: nat, func: int, round: nat, step: nat)
    requires FirstToEnd(os, page, func, 3 * round, step)
    ensures Allocate(os, page, func, round) == Verdict(os, page, func, step)
    decreases 3 - round
  {
    StepsOfRound(os, page, func, round);
    hide Ends, Verdict, Allocate;
    if step >= 3 * (round + 1) {
      AllocateFrom(os, page, func, round + 1, step);
    }
  }

  lemma {:induction false} AllocateInVain(os: Os, page: nat, func: int, round: nat)
    requires round <= 3 && forall step :: 3 * round <= step < 9 ==> !Ends(os, page, func, step)
    ensures Allocate(os, page, func, round) == Done(MEMORY_ALLOCATION, 0)
    decreases 3 - round
  {
    if round < 3 {
      StepsOfRound(os, page, func, round);
      hide Ends, Verdict, Allocate;
      AllocateInVain(os, page, func, round + 1);
    }
  }

  /** The first step that ends the allocation decides what it answers; without one it fails after three rounds. */
  lemma AllocateExactly(os: Os, page: nat, func: int)
    ensures forall step :: FirstToEnd(os, page, func, 0, step) ==>
      Allocate(os, page, func, 0) == Verdict(os, page, func, step)
    ensures (forall step :: 0 <= step < 9 ==> !Ends(os, page, func, step)) ==>
      Allocate(os, page, func, 0) == Done(MEMORY_ALLOCATION, 0)
  {
    forall step | FirstToEnd(os, page, func, 0, step)
      ensures Allocate(os, page, func, 0) == Verdict(os, page, func, step)
    {
      AllocateFrom(os, page, func, 0, step);
    }
    if forall step :: 0 <= step < 9 ==> !Ends(os, page, func, step) {
      AllocateInVain(os, page, func, 0);
    }
  }
}
