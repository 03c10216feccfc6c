/** Sums of addresses and offsets modulo 2^64, as equations that do not mention the operation. */
module A64Sums {
  import opened A64Machine

  predicate IsSum(a: bv64, b: bv64, sum: bv64) { sum == a + b }

  function Minus(a: bv64, b: bv64): bv64 { a - b }

  lemma PlusIsSum(a: Addr, b: bv64)
    ensures IsSum(a, b, Plus(a, b))
  {}

  lemma RawMinus(a: bv64, b: bv64, c: bv64, t: bv64)
    requires t == a - b
    ensures t + c == (a - b) + c
  {}

  lemma RawSum(a: bv64, b: bv64, t: bv64)
    requires t == a - b
    ensures a == b + t
  {
    RawMinus(a, b, b, t);
  }

  lemma MinusIsSum(a: bv64, b: bv64)
    ensures IsSum(b, Minus(a, b), a)
  {
    RawSum(a, b, Minus(a, b));
  }

  lemma SumIsUnique(a: bv64, b: bv64, s: bv64, s': bv64)
    requires IsSum(a, b, s) && IsSum(a, b, s')
    ensures s == s'
  {}

  lemma RawCancel(a: bv64, x: bv64, y: bv64)
    requires a + x == a + y
    ensures x == y
  {}

  lemma SumCancels(a: bv64, x: bv64, y: bv64, s: bv64)
    requires IsSum(a, x, s) && IsSum(a, y, s)
    ensures x == y
  {
    RawCancel(a, x, y);
  }

  lemma RawAssociates(a: bv64, b: bv64, c: bv64, ab: bv64)
    requires ab == a + b
    ensures ab + c == a + (b + c)
  {}

  function Sum3(a: bv64, b: bv64, c: bv64): bv64 { a + (b + c) }

  lemma SumFromLeft(a: bv64, b: bv64, c: bv64, ab: bv64)
    requires IsSum(a, b, ab)
    ensures IsSum(ab, c, Sum3(a, b, c))
  {
    RawAssociates(a, b, c, ab);
  }

  lemma RawFromRight(a: bv64, b: bv64, c: bv64, bc: bv64)
    requires bc == b + c
    ensures a + (b + c) == a + bc
  {}

  lemma SumFromRight(a: bv64, b: bv64, c: bv64, bc: bv64)
    requires IsSum(b, c, bc)
    ensures IsSum(a, bc, Sum3(a, b, c))
  {
    RawFromRight(a, b, c, bc);
  }

  lemma PlusAssociates(a: Addr, b: bv64, c: bv64)
    ensures Plus(Plus(a, b), c) == Plus(a, Plus(b, c))
  {
    hide Plus, IsSum, Sum3;
    PlusIsSum(a, b);
    PlusIsSum(b, c);
    PlusIsSum(Plus(a, b), c);
    PlusIsSum(a, Plus(b, c));
    SumFromLeft(a, b, c, Plus(a, b));
    SumFromRight(a, b, c, Plus(b, c));
    SumIsUnique(Plus(a, b), c, Plus(Plus(a, b), c), Sum3(a, b, c));
    SumIsUnique(a, Plus(b, c), Plus(a, Plus(b, c)), Sum3(a, b, c));
  }

  lemma MinusPlus(a: bv64, b: bv64)
    ensures Plus(b, Minus(a, b)) == a
  {
    hide Plus, Minus, IsSum;
    MinusIsSum(a, b);
    PlusIsSum(b, Minus(a, b));
    SumIsUnique(b, Minus(a, b), a, Plus(b, Minus(a, b)));
  }

  lemma PlusCancels(a: bv64, x: bv64, y: bv64)
    ensures Plus(a, x) == Plus(a, y) <==> x == y
  {
    hide Plus, IsSum;
    PlusIsSum(a, x);
    PlusIsSum(a, y);
    if Plus(a, x) == Plus(a, y) { SumCancels(a, x, y, Plus(a, x)); }
  }

  lemma PlusSwaps(a: bv64, b: bv64)
    ensures Plus(a, b) == Plus(b, a)
  {}

  /** There and back again. */
  lemma PlusMinus(a: Addr, o: bv64, t: bv64)
    ensures Plus(Plus(a, o), Minus(t, o)) == Plus(a, t)
  {
    hide Plus, Minus;
    PlusAssociates(a, o, Minus(t, o));
    MinusPlus(t, o);
  }
}
