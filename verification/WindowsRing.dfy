/** The page list of src/os_windows.c as it is: control pages linked into a circular doubly linked list around a
    static head, with used flags and a counter updated in place. */
module WindowsRing {
  import opened Common
  import opened WindowsPages
  import opened WindowsRuns

  /** page_list_t; `base` is the address it lies at. */
  class Node {
    const base: int
    var next: Node
    var prev: Node
    var numUsed: int
    var used: seq<bool>

    constructor (base: int, used: seq<bool>)
      ensures this.base == base && next == this && prev == this && numUsed == 0 && this.used == used
    {
      this.base, this.next, this.prev, this.numUsed, this.used := base, this, this, 0, used;
    }
  }

  function CountUsed(used: seq<bool>): nat {
    if used == [] then 0 else (if used[0] then 1 else 0) + CountUsed(used[1..])
  }

  lemma {:induction false} CountAfter(used: seq<bool>, i: nat, flag: bool)
    requires i < |used| && used[i] != flag
    ensures CountUsed(used[i := flag]) == CountUsed(used) + if flag then 1 else -1
  {
    if i == 0 {
      assert used[i := flag][1..] == used[1..];
    } else {
      assert used[i := flag][1..] == used[1..][i - 1 := flag];
      CountAfter(used[1..], i - 1, flag);
    }
  }

  lemma {:induction false} CountIsZero(used: seq<bool>)
    ensures CountUsed(used) == 0 <==> !AnyUsed(used)
  {
    if used != [] {
      CountIsZero(used[1..]);
      if AnyUsed(used[1..]) {
        var i :| 0 <= i < |used[1..]| && used[1..][i];
        assert used[i + 1];
      }
      if AnyUsed(used) && !used[0] {
        var i :| 0 <= i < |used| && used[i];
        assert used[1..][i - 1];
      }
    }
  }

  function Units(nodes: seq<Node>): (u: seq<Unit>)
    reads nodes`used
    ensures |u| == |nodes| && forall i :: 0 <= i < |nodes| ==> u[i] == Unit(nodes[i].base, nodes[i].used)
  {
    if nodes == [] then [] else [Unit(nodes[0].base, nodes[0].used)] + Units(nodes[1..])
  }

  predicate Distinct(head: Node, nodes: seq<Node>) {
    head !in nodes && forall i, k :: 0 <= i < k < |nodes| ==> nodes[i] != nodes[k]
  }

  /** The ends of the i-th of the links around the ring. */
  function From(head: Node, nodes: seq<Node>, i: nat): Node
    requires i <= |nodes|
  {
    if i > 0 then nodes[i - 1] else head
  }

  function To(head: Node, nodes: seq<Node>, i: nat): Node
    requires i <= |nodes|
  {
    if i < |nodes| then nodes[i] else head
  }

  predicate Forward(head: Node, nodes: seq<Node>)
    reads head`next, nodes`next
  {
    forall i :: 0 <= i <= |nodes| ==> From(head, nodes, i).next == To(head, nodes, i)
  }

  predicate Backward(head: Node, nodes: seq<Node>)
    reads head`prev, nodes`prev
  {
    forall i :: 0 <= i <= |nodes| ==> To(head, nodes, i).prev == From(head, nodes, i)
  }

  /** The head and the nodes are distinct and linked in this order, forwards and backwards, the last to the head. */
  predicate Circular(head: Node, nodes: seq<Node>)
    reads head`next, head`prev, nodes`next, nodes`prev
  {
    Distinct(head, nodes) && Forward(head, nodes) && Backward(head, nodes)
  }

  /** Counters agree with flags, and a control page is found at its address. */
  predicate InOrder(nodes: seq<Node>, at: map<int, Node>)
    reads nodes`used, nodes`numUsed
  {
    forall i :: 0 <= i < |nodes| ==>
      nodes[i].numUsed == CountUsed(nodes[i].used) && nodes[i].base in at && at[nodes[i].base] == nodes[i]
  }

  method InsertBehind(head: Node, ghost nodes: seq<Node>, pl: Node)
    requires Circular(head, nodes) && pl !in nodes && pl != head
    modifies head`next, head`prev, nodes`prev, pl`next, pl`prev
    ensures Circular(head, [pl] + nodes)
  {
    assert head.next == To(head, nodes, 0) && From(head, nodes, 0) == head;
    pl.next := head.next;
    pl.prev := head;
    head.next.prev := pl;
    head.next := pl;
    ghost var after := [pl] + nodes;
    forall i | 0 <= i <= |after| ensures From(head, after, i).next == To(head, after, i) {
      if i > 1 {
        assert From(head, after, i) == From(head, nodes, i - 1) && To(head, after, i) == To(head, nodes, i - 1);
      }
    }
    forall i | 0 <= i <= |after| ensures To(head, after, i).prev == From(head, after, i) {
      if i > 1 {
        assert From(head, after, i) == From(head, nodes, i - 1) && To(head, after, i) == To(head, nodes, i - 1);
      }
    }
  }

  method Unlink(head: Node, ghost nodes: seq<Node>, ghost j: nat, pl: Node)
    requires Circular(head, nodes) && j < |nodes| && pl == nodes[j]
    modifies head`next, head`prev, nodes`next, nodes`prev
    ensures Circular(head, nodes[..j] + nodes[j + 1..])
  {
    assert pl == To(head, nodes, j) == From(head, nodes, j + 1);
    assert pl.prev == From(head, nodes, j) && pl.next == To(head, nodes, j + 1);
    pl.next.prev := pl.prev;
    pl.prev.next := pl.next;
    ForwardWithout(head, nodes, j);
    BackwardWithout(head, nodes, j);
  }

  /** Both ends of a link of the shorter ring, in the longer one. */
  lemma EndsWithout(head: Node, nodes: seq<Node>, j: nat, i: nat)
    requires j < |nodes| && i < |nodes|
    ensures var after := nodes[..j] + nodes[j + 1..];
      && To(head, after, i) == To(head, nodes, if i < j then i else i + 1)
      && From(head, after, i) == From(head, nodes, if i <= j then i else i + 1)
  {}

  lemma ForwardWithout(head: Node, nodes: seq<Node>, j: nat)
    requires j < |nodes| && From(head, nodes, j).next == To(head, nodes, j + 1)
    requires forall i :: 0 <= i <= |nodes| && i != j ==> From(head, nodes, i).next == To(head, nodes, i)
    ensures Forward(head, nodes[..j] + nodes[j + 1..])
  {
    var after := nodes[..j] + nodes[j + 1..];
    forall i | 0 <= i <= |after| ensures From(head, after, i).next == To(head, after, i) {
      EndsWithout(head, nodes, j, i);
    }
  }

  lemma BackwardWithout(head: Node, nodes: seq<Node>, j: nat)
    requires j < |nodes| && To(head, nodes, j + 1).prev == From(head, nodes, j)
    requires forall i :: 0 <= i <= |nodes| && i != j + 1 ==> To(head, nodes, i).prev == From(head, nodes, i)
    ensures Backward(head, nodes[..j] + nodes[j + 1..])
  {
    var after := nodes[..j] + nodes[j + 1..];
    forall i | 0 <= i <= |after| ensures To(head, after, i).prev == From(head, after, i) {
      EndsWithout(head, nodes, j, i);
    }
  }

  lemma UnitsOfSum(pl: Node, nodes: seq<Node>)
    ensures Units([pl] + nodes) == [Unit(pl.base, pl.used)] + Units(nodes)
  {
    assert ([pl] + nodes)[1..] == nodes;
  }

  lemma UnitsWithout(nodes: seq<Node>, j: nat)
    requires j < |nodes|
    ensures Units(nodes[..j] + nodes[j + 1..]) == Units(nodes)[..j] + Units(nodes)[j + 1..]
  {
    hide Units;
    var rest, units := nodes[..j] + nodes[j + 1..], Units(nodes);
    forall i | 0 <= i < |rest| ensures Units(rest)[i] == (units[..j] + units[j + 1..])[i] {
      assert rest[i] == nodes[if i < j then i else i + 1];
    }
  }

  lemma InOrderWithout(nodes: seq<Node>, at: map<int, Node>, j: nat)
    requires j < |nodes| && InOrder(nodes, at)
    requires forall i :: 0 <= i < |nodes| && i != j ==> nodes[i].base != nodes[j].base
    ensures InOrder(nodes[..j] + nodes[j + 1..], at - {nodes[j].base})
  {
    var rest := nodes[..j] + nodes[j + 1..];
    hide CountUsed;
    forall i | 0 <= i < |rest|
      ensures rest[i].numUsed == CountUsed(rest[i].used) && rest[i].base in at - {nodes[j].base}
        && at[rest[i].base] == rest[i]
    {
      assert rest[i] == nodes[if i < j then i else i + 1];
    }
  }

  lemma InOrderWithNew(pl: Node, nodes: seq<Node>, at: map<int, Node>)
    requires InOrder(nodes, at) && pl.numUsed == CountUsed(pl.used)
    requires forall i :: 0 <= i < |nodes| ==> nodes[i].base != pl.base
    ensures InOrder([pl] + nodes, at[pl.base := pl])
  {}

  class PageList {
    const sz: Sizes
    const head: Node
    var at: map<int, Node>
    var reserved: set<int>
    ghost var nodes: seq<Node>

    ghost function Value(): State
      reads this, nodes`used
    {
      State(Units(nodes), reserved)
    }

    ghost predicate Valid()
      reads this, head, nodes
    {
      Circular(head, nodes) && InOrder(nodes, at) && ValidState(sz, Value())
    }

    constructor (sz: Sizes)
      requires sz.Valid()
      ensures Valid() && Value() == State([], {}) && this.sz == sz && fresh(head)
    {
      this.sz := sz;
      var h := new Node(0, []);
      this.head, this.at, this.reserved, this.nodes := h, map[], {}, [];
    }

    /** The search of funchook_page_alloc through the list. */
    method Search(avail: int -> bool) returns (pl: Node, i: nat)
      requires Valid()
      ensures var found := Find(sz, Value().units, 0, avail);
        && (pl == head <==> found.None?)
        && (found.Some? ==>
          found.value.0 < |nodes| && pl == nodes[found.value.0] && i == found.value.1 < |pl.used| && !pl.used[i])
    {
      ghost var units := Units(nodes);
      ghost var j := 0;
      assert From(head, nodes, 0) == head;
      pl, i := head.next, 0;
      while pl != head
        invariant j <= |units| && pl == To(head, nodes, j)
        invariant Find(sz, units, 0, avail) == Find(sz, units, j, avail)
        decreases |units| - j
      {
        i := 0;
        while i < |pl.used|
          invariant i <= |pl.used|
          invariant FindIn(sz, units[j], 0, avail) == FindIn(sz, units[j], i, avail)
        {
          if !pl.used[i] && avail(PageAt(sz, pl.base, i)) { return; }
          i := i + 1;
        }
        assert pl == From(head, nodes, j + 1);
        pl := pl.next;
        j := j + 1;
      }
    }

    /** The linking half of alloc_page_info: a new control page goes right behind the head. */
    method Link(base: int) returns (pl: Node)
      requires Valid() && base % sz.unit == 0 && base !in reserved
      modifies this, head`next, head`prev, nodes`prev
      ensures Valid() && nodes == [pl] + old(nodes) && fresh(pl)
      ensures Value() == State([Unit(base, NoneUsed(sz.Count()))] + old(Value()).units, old(reserved) + {base})
    {
      hide ValidState, NoneUsed, Circular, InOrder, Units, Sizes.Count, Sizes.Valid;
      MayBeAdded(base);
      pl := NewControlPage(head, nodes, at, base, sz.Count());
      at := at[base := pl];
      reserved := reserved + {base};
      nodes := [pl] + nodes;
      assert Circular(head, nodes);
      assert InOrder(nodes, at);
      assert Units(nodes) == [Unit(base, NoneUsed(sz.Count()))] + old(Units(nodes));
    }

    /** The page found, or the first one of a new unit, is committed and marked. A failed commit leaves a new unit on
        the list. */
    method PageAlloc(a: AllocAnswers) returns (rv: int, page: Option<int>)
      requires Valid() && ValidAnswers(sz, Value(), a)
      modifies this, head, nodes
      ensures Valid() && Allocated(Value(), rv, page) == Alloc(sz, old(Value()), a)
    {
      hide Circular, InOrder, Find, CountUsed;
      page := None;
      var pl, i := Search(a.avail);
      ghost var found := Find(sz, Value().units, 0, a.avail);
      ghost var j := if found.Some? then found.value.0 else 0;
      if pl == head {
        if a.reserve.Err? { return a.reserve.code, None; }
        if !a.control { return MEMORY_FUNCTION, None; }
        pl := Link(a.reserve.value);
        i := 0;
      }
      if !a.commit { return MEMORY_FUNCTION, None; }
      SetFlag(pl, j, i, true);
      rv, page := SUCCESS, Some(PageAt(sz, pl.base, i));
    }

    /** Masking the address gives the control page, dividing the offset the index. The control page leaves the list when
        its last page is freed. */
    method PageFree(page: int, f: FreeAnswers) returns (rv: int)
      requires Valid() && Live(sz, Value(), page)
      modifies this, head, nodes
      ensures Valid() && (Value(), rv) == Free(sz, old(Value()), page, f)
    {
      ghost var s := Value();
      ghost var j, k := LivePageHasPlace(sz, s, page, f);
      LivePageIsFound(sz, s, page, j, k);
      var base := UnitOf(sz, page);
      var pl := at[base];
      var idx := IndexOf(sz, page);
      if !f.decommit { return MEMORY_FUNCTION; }
      SetFlag(pl, j, idx, false);
      CountIsZero(pl.used);
      if pl.numUsed != 0 { return SUCCESS; }
      Release(pl, j, f.release);
      rv := if f.release then SUCCESS else MEMORY_FUNCTION;
    }

    method Release(pl: Node, ghost j: nat, release: bool)
      requires Valid() && j < |nodes| && pl == nodes[j] && !AnyUsed(pl.used)
      modifies this, head`next, head`prev, nodes`next, nodes`prev
      ensures Valid() && nodes == old(nodes)[..j] + old(nodes)[j + 1..]
      ensures Value() == Without(old(Value()), j, if release then old(reserved) - {pl.base} else old(reserved))
    {
      hide ValidState, InOrder, Circular, Units, AnyUsed;
      StaysValidWithout(j, release);
      UnitsWithout(nodes, j);
      InOrderWithout(nodes, at, j);
      Unlink(head, nodes, j, pl);
      nodes := nodes[..j] + nodes[j + 1..];
      at := at - {pl.base};
      reserved := if release then reserved - {pl.base} else reserved;
      assert Units(nodes) == old(Units(nodes)[..j] + Units(nodes)[j + 1..]);
      assert Circular(head, nodes);
      assert InOrder(nodes, at);
    }

    lemma StaysValidWithout(j: nat, release: bool)
      requires Valid() && j < |nodes| && !AnyUsed(nodes[j].used)
      ensures ValidState(sz, Without(Value(), j, if release then reserved - {nodes[j].base} else reserved))
      ensures forall i :: 0 <= i < |nodes| && i != j ==> nodes[i].base != nodes[j].base
    {
      var s := Value();
      assert forall i :: 0 <= i < |nodes| ==> nodes[i].base == s.units[i].base;
      hide Circular, InOrder, AnyUsed;
      WithoutLive(sz, s, j, if release then reserved - {nodes[j].base} else reserved, 0);
    }

    /** used[i] = flag, and the counter with it. */
    method SetFlag(pl: Node, ghost j: nat, i: nat, flag: bool)
      requires Valid() && j < |nodes| && pl == nodes[j] && i < |pl.used| && pl.used[i] != flag
      modifies pl`used, pl`numUsed
      ensures Valid() && Value() == Mark(old(Value()), j, i, flag)
    {
      MarkStaysValid(j, i, flag);
      hide ValidState, InOrder, Units;
      Flip(head, nodes, at, j, pl, i, flag);
    }

    lemma MarkStaysValid(j: nat, i: nat, flag: bool)
      requires Valid() && j < |nodes| && i < |nodes[j].used|
      ensures ValidState(sz, Mark(Value(), j, i, flag))
    {
      MarkLive(sz, Value(), j, i, flag, 0);
    }

    lemma MayBeAdded(base: int)
      requires Valid() && base % sz.unit == 0 && base !in reserved
      ensures sz.Valid() && sz.Count() >= 1
      ensures ValidState(sz, State([Unit(base, NoneUsed(sz.Count()))] + Value().units, reserved + {base}))
      ensures forall i :: 0 <= i < |nodes| ==> nodes[i].base != base
    {
      var units := Value().units;
      assert forall i :: 0 <= i < |nodes| ==> nodes[i].base == units[i].base;
      UnitHasPages(sz);
      NewUnitLive(sz, Value(), base, 0);
    }
  }

  method Flip(ghost head: Node, ghost nodes: seq<Node>, ghost at: map<int, Node>, ghost j: nat, pl: Node, i: nat,
              flag: bool)
    requires Distinct(head, nodes) && InOrder(nodes, at)
    requires j < |nodes| && pl == nodes[j] && i < |pl.used| && pl.used[i] != flag
    modifies pl`used, pl`numUsed
    ensures pl.used == old(pl.used)[i := flag]
    ensures InOrder(nodes, at)
    ensures Units(nodes) == old(Units(nodes))[j := Unit(pl.base, pl.used)]
  {
    CountAfter(pl.used, i, flag);
    pl.used := pl.used[i := flag];
    pl.numUsed := pl.numUsed + if flag then 1 else -1;
    assert forall k :: 0 <= k < |nodes| && k != j ==> nodes[k] != pl;
    hide CountUsed;
  }

  method NewControlPage(head: Node, ghost nodes: seq<Node>, ghost at: map<int, Node>, base: int, count: nat)
    returns (pl: Node)
    requires Circular(head, nodes) && InOrder(nodes, at) && forall i :: 0 <= i < |nodes| ==> nodes[i].base != base
    modifies head`next, head`prev, nodes`prev
    ensures fresh(pl) && pl.base == base
    ensures Circular(head, [pl] + nodes) && InOrder([pl] + nodes, at[base := pl])
    ensures Units([pl] + nodes) == [Unit(base, NoneUsed(count))] + old(Units(nodes))
  {
    var flags := NoneUsed(count);
    CountIsZero(flags);
    assert CountUsed(flags) == 0;
    hide InOrder, Units, CountUsed, NoneUsed;
    pl := new Node(base, flags);
    InsertBehind(head, nodes, pl);
    hide Circular;
    UnitsOfSum(pl, nodes);
    InOrderWithNew(pl, nodes, at);
  }
}
