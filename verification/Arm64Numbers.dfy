/** Addresses of an arm64 processor as numbers: order, differences modulo 2^64, and the distance test of the page
    allocator, which on either side is the same. */
module Arm64Numbers {
  import opened A64Machine
  import opened A64Sums
  import opened Arm64Routing
  import UnixPages

  lemma RawPredecessor(a: Addr)
    ensures a != 0 ==> Minus(a, 1) < a
  {}

  /** The number of an address, counted from zero. */
  function Number(a: Addr): nat
    decreases a
  {
    RawPredecessor(a);
    if a == 0 then 0 else Number(Minus(a, 1)) + 1
  }

  lemma NumberOfPredecessor(a: Addr)
    ensures if a == 0 then Number(a) == 0 else Number(a) == Number(Minus(a, 1)) + 1
  {
    hide Minus;
  }

  lemma {:induction false} NumberIsInjective(a: Addr, b: Addr)
    requires Number(a) == Number(b)
    ensures a == b
    decreases Number(a)
  {
    hide Minus, Plus, Number;
    NumberOfPredecessor(a);
    NumberOfPredecessor(b);
    if a != 0 && b != 0 {
      NumberIsInjective(Minus(a, 1), Minus(b, 1));
      MinusPlus(a, 1);
      MinusPlus(b, 1);
    }
  }

  // ---- order and differences ----

  predicate Less(a: Addr, b: Addr) { a < b }

  lemma LessIsTransitive(a: Addr, b: Addr, c: Addr)
    requires Less(a, b) && Less(b, c)
    ensures Less(a, c)
  {}

  lemma LessIsIrreflexive(a: Addr)
    ensures !Less(a, a)
  {}

  lemma PredecessorIsLess(a: Addr)
    ensures a != 0 ==> Less(Minus(a, 1), a)
  {
    RawPredecessor(a);
  }

  lemma {:induction false} SmallerIsLess(a: Addr, b: Addr)
    requires Number(a) < Number(b)
    ensures Less(a, b)
    decreases Number(b)
  {
    hide Minus, Number, Less;
    NumberOfPredecessor(b);
    PredecessorIsLess(b);
    var c := Minus(b, 1);
    if Number(a) == Number(c) {
      NumberIsInjective(a, c);
    } else {
      SmallerIsLess(a, c);
      LessIsTransitive(a, c, b);
    }
  }

  /** Numbers are ordered as addresses are. */
  lemma OrderOfNumbers(a: Addr, b: Addr)
    ensures Less(a, b) <==> Number(a) < Number(b)
  {
    hide Number, Less;
    LessIsIrreflexive(a);
    if Number(a) < Number(b) {
      SmallerIsLess(a, b);
    } else if Number(b) < Number(a) {
      SmallerIsLess(b, a);
      if Less(a, b) { LessIsTransitive(a, b, a); }
    } else {
      NumberIsInjective(a, b);
    }
  }

  lemma BothLess(a: Addr, b: Addr)
    ensures Minus(Minus(a, 1), Minus(b, 1)) == Minus(a, b)
  {
    hide Minus, Plus;
    MinusPlus(a, b);
    MinusPlus(a, 1);
    MinusPlus(b, 1);
    PlusSwaps(Minus(b, 1), 1);
    PlusAssociates(1, Minus(b, 1), Minus(a, b));
    PlusCancels(1, Plus(Minus(b, 1), Minus(a, b)), Minus(a, 1));
    MinusPlus(Minus(a, 1), Minus(b, 1));
    PlusCancels(Minus(b, 1), Minus(Minus(a, 1), Minus(b, 1)), Minus(a, b));
  }

  lemma MinusNothing(a: Addr)
    ensures Minus(a, 0) == a
  {}

  lemma {:induction false} DifferenceOfLess(a: Addr, b: Addr)
    requires Number(b) <= Number(a)
    ensures Number(Minus(a, b)) == Number(a) - Number(b)
    decreases Number(b)
  {
    hide Minus, Number;
    NumberOfPredecessor(a);
    NumberOfPredecessor(b);
    BothLess(a, b);
    MinusNothing(a);
    if b != 0 { DifferenceOfLess(Minus(a, 1), Minus(b, 1)); }
  }

  // ---- the highest address ----

  lemma Twice(a: Addr, b: Addr)
    requires Minus(b, a) == a && Less(a, b)
    ensures Number(b) == 2 * Number(a)
  {
    hide Minus, Number, Less;
    OrderOfNumbers(a, b);
    DifferenceOfLess(b, a);
  }

  predicate IsTwice(a: Addr, b: Addr) { Minus(b, a) == a && Less(a, b) }

  lemma Sixteen(a: Addr, b: Addr, c: Addr, d: Addr, e: Addr)
    requires IsTwice(a, b) && IsTwice(b, c) && IsTwice(c, d) && IsTwice(d, e)
    ensures Number(e) == 16 * Number(a)
  {
    hide Minus, Number, Less;
    Twice(a, b);
    Twice(b, c);
    Twice(c, d);
    Twice(d, e);
  }

  lemma One()
    ensures Number(1) == 1
  {
    NumberOfPredecessor(1);
    NumberOfPredecessor(0);
    hide Number;
  }

  /** 2 to the power of 16, 31, 32, 48 and 63. */
  lemma Powers16()
    ensures Number(0x1_0000) == 0x1_0000
  {
    hide Number;
    One();
    Sixteen(1, 2, 4, 8, 0x10);
    Sixteen(0x10, 0x20, 0x40, 0x80, 0x100);
    Sixteen(0x100, 0x200, 0x400, 0x800, 0x1000);
    Sixteen(0x1000, 0x2000, 0x4000, 0x8000, 0x1_0000);
  }

  lemma Powers32()
    ensures Number(0x8000_0000) == 0x8000_0000 && Number(0x1_0000_0000) == 0x1_0000_0000
  {
    hide Number;
    Powers16();
    Sixteen(0x1_0000, 0x2_0000, 0x4_0000, 0x8_0000, 0x10_0000);
    Sixteen(0x10_0000, 0x20_0000, 0x40_0000, 0x80_0000, 0x100_0000);
    Sixteen(0x100_0000, 0x200_0000, 0x400_0000, 0x800_0000, 0x1000_0000);
    Twice(0x1000_0000, 0x2000_0000);
    Twice(0x2000_0000, 0x4000_0000);
    Twice(0x4000_0000, 0x8000_0000);
    Twice(0x8000_0000, 0x1_0000_0000);
  }

  lemma Powers48()
    ensures Number(0x1_0000_0000_0000) == 0x1_0000_0000_0000
  {
    hide Number;
    Powers32();
    Sixteen(0x1_0000_0000, 0x2_0000_0000, 0x4_0000_0000, 0x8_0000_0000, 0x10_0000_0000);
    Sixteen(0x10_0000_0000, 0x20_0000_0000, 0x40_0000_0000, 0x80_0000_0000, 0x100_0000_0000);
    Sixteen(0x100_0000_0000, 0x200_0000_0000, 0x400_0000_0000, 0x800_0000_0000, 0x1000_0000_0000);
    Sixteen(0x1000_0000_0000, 0x2000_0000_0000, 0x4000_0000_0000, 0x8000_0000_0000, 0x1_0000_0000_0000);
  }

  lemma Powers63()
    ensures Number(0x8000_0000_0000_0000) == 0x8000_0000_0000_0000
  {
    hide Number;
    Powers48();
    Sixteen(0x1_0000_0000_0000, 0x2_0000_0000_0000, 0x4_0000_0000_0000, 0x8_0000_0000_0000, 0x10_0000_0000_0000);
    Sixteen(0x10_0000_0000_0000, 0x20_0000_0000_0000, 0x40_0000_0000_0000, 0x80_0000_0000_0000, 0x100_0000_0000_0000);
    Sixteen(0x100_0000_0000_0000, 0x200_0000_0000_0000, 0x400_0000_0000_0000, 0x800_0000_0000_0000,
            0x1000_0000_0000_0000);
    Twice(0x1000_0000_0000_0000, 0x2000_0000_0000_0000);
    Twice(0x2000_0000_0000_0000, 0x4000_0000_0000_0000);
    Twice(0x4000_0000_0000_0000, 0x8000_0000_0000_0000);
  }

  const MAX: Addr := 0xFFFF_FFFF_FFFF_FFFF

  lemma RawMax(a: Addr)
    ensures Minus(MAX, 0x8000_0000_0000_0000) == Minus(0x8000_0000_0000_0000, 1)
    ensures Less(0x8000_0000_0000_0000, MAX) && (a != MAX ==> Less(a, MAX)) && Minus(0, 1) == MAX
  {}

  lemma NumberOfMax()
    ensures Number(MAX) == UnixPages.SPACE - 1
  {
    hide Number, Minus, Less;
    Powers63();
    RawMax(0);
    NumberOfPredecessor(0x8000_0000_0000_0000);
    OrderOfNumbers(0x8000_0000_0000_0000, MAX);
    DifferenceOfLess(MAX, 0x8000_0000_0000_0000);
  }

  lemma NumberIsBounded(a: Addr)
    ensures 0 <= Number(a) < UnixPages.SPACE
  {
    hide Number, Less;
    NumberOfMax();
    RawMax(a);
    OrderOfNumbers(a, MAX);
  }

  lemma RawNegative(b: Addr)
    ensures Minus(0, b) == Minus(Minus(0, Minus(b, 1)), 1)
  {}

  lemma {:induction false} NumberOfNegative(b: Addr)
    requires b != 0
    ensures Number(Minus(0, b)) == UnixPages.SPACE - Number(b)
    decreases Number(b)
  {
    hide Number, Minus;
    NumberOfPredecessor(b);
    NumberOfPredecessor(0);
    var c := Minus(b, 1);
    RawNegative(b);
    RawMax(0);
    if c == 0 {
      NumberOfMax();
      MinusNothing(0);
    } else {
      NumberOfNegative(c);
      NumberIsBounded(c);
      NumberOfPredecessor(Minus(0, c));
    }
  }

  lemma {:induction false} DifferenceOfGreater(a: Addr, b: Addr)
    requires Number(a) < Number(b)
    ensures Number(Minus(a, b)) == Number(a) - Number(b) + UnixPages.SPACE
    decreases Number(a)
  {
    hide Number, Minus;
    NumberOfPredecessor(a);
    NumberOfPredecessor(b);
    BothLess(a, b);
    if a == 0 { NumberOfNegative(b); } else { DifferenceOfGreater(Minus(a, 1), Minus(b, 1)); }
  }

  /** Differences of addresses are differences of numbers modulo 2^64. */
  lemma NumberOfDifference(a: Addr, b: Addr)
    ensures Number(Minus(a, b)) == (Number(a) - Number(b)) % UnixPages.SPACE
  {
    hide Number, Minus;
    NumberIsBounded(a);
    NumberIsBounded(b);
    if Number(b) <= Number(a) { DifferenceOfLess(a, b); } else { DifferenceOfGreater(a, b); }
  }

  // ---- the distance test ----

  lemma LimitIsMinus(pageSize: bv64)
    ensures SafeLimit(pageSize) == Minus(0x7FFF_FFFF, pageSize) && Minus(0x8000_0000, 1) == 0x7FFF_FFFF
    ensures IsPageSize(pageSize) <==> !Less(0x7FFF_FFFF, pageSize)
  {}

  lemma NumberOfLimit(pageSize: bv64)
    requires IsPageSize(pageSize)
    ensures Number(SafeLimit(pageSize)) == UnixPages.INT32_MAX - Number(pageSize) && Number(pageSize) >= 0
  {
    hide Number, Minus, Less, SafeLimit, IsPageSize;
    Powers32();
    LimitIsMinus(pageSize);
    NumberOfPredecessor(0x8000_0000);
    OrderOfNumbers(0x7FFF_FFFF, pageSize);
    DifferenceOfLess(0x7FFF_FFFF, pageSize);
  }

  lemma BelowIsLess(a: bv64, b: bv64)
    ensures Below(a, b) <==> Less(a, b)
  {}

  /** The test on the processor's words is the allocator's test on numbers. */
  lemma SameDistanceTest(x: Addr, y: Addr, pageSize: bv64)
    requires IsPageSize(pageSize)
    ensures SafeJumpDistance(x, y, pageSize) <==> UnixPages.SafeDistance(Number(x), Number(y), Number(pageSize))
  {
    hide Number, Minus, Less, SafeLimit, IsPageSize, Below;
    NumberOfDifference(x, y);
    NumberOfLimit(pageSize);
    BelowIsLess(Minus(x, y), SafeLimit(pageSize));
    OrderOfNumbers(Minus(x, y), SafeLimit(pageSize));
  }
}
