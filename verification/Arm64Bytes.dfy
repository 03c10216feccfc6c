/** Between the bytes and numbers that a handle keeps and the words and addresses that an arm64 processor sees. */
module Arm64Bytes {
  import opened Common
  import opened A64Machine
  import opened A64Sums
  import opened Arm64Translator
  import opened Arm64Blocks
  import opened Arm64Numbers
  import opened Arm64Routing

  // ---- bytes behind an address ----

  /** A number of bytes as an offset. */
  function Offset(k: nat): bv64 { if k == 0 then 0 else Plus(Offset(k - 1), 1) }

  /** The `n` bytes at the address do not run over the end of the address space. */
  ghost predicate InSpace(a: Addr, n: nat) { forall k :: 0 < k < n ==> Plus(a, Offset(k)) != 0 }

  lemma NumberOfNext(a: Addr)
    requires Plus(a, 1) != 0
    ensures Number(Plus(a, 1)) == Number(a) + 1
  {
    Before(a);
  }

  lemma Before(a: Addr)
    ensures Minus(Plus(a, 1), 1) == a
  {}

  lemma {:induction false} NumberOfSum(a: Addr, k: nat)
    requires InSpace(a, k + 1)
    ensures Number(Plus(a, Offset(k))) == Number(a) + k
    decreases k
  {
    hide Plus, Number;
    if k == 0 {
      PlusNothing(a);
    } else {
      NumberOfSum(a, k - 1);
      PlusAssociates(a, Offset(k - 1), 1);
      assert Plus(Plus(a, Offset(k - 1)), 1) == Plus(a, Offset(k));
      NumberOfNext(Plus(a, Offset(k - 1)));
    }
  }

  lemma PlusNothing(a: Addr)
    ensures Plus(a, 0) == a
  {}

  // ---- bytes ----

  function Bits(b: byte): bv8 { b as bv8 }

  function ByteOf(b: bv8): byte { b as byte }

  lemma BitsOfByte(b: bv8)
    ensures Bits(ByteOf(b)) == b
  {}

  function FromBytes(b0: bv8, b1: bv8, b2: bv8, b3: bv8): Word {
    (b0 as bv32) | ((b1 as bv32) << 8) | ((b2 as bv32) << 16) | ((b3 as bv32) << 24)
  }

  /** Byte `n` of a word, the lowest first. */
  function ByteAt(w: Word, n: nat): bv8 {
    match n
    case 0 => (w & 0xFF) as bv8
    case 1 => ((w >> 8) & 0xFF) as bv8
    case 2 => ((w >> 16) & 0xFF) as bv8
    case _ => (w >> 24) as bv8
  }

  lemma WordOfBytes(w: Word)
    ensures FromBytes(ByteAt(w, 0), ByteAt(w, 1), ByteAt(w, 2), ByteAt(w, 3)) == w
  {}

  /** Words as they lie in memory. */
  function Encoding(words: seq<Word>): (b: seq<byte>)
    ensures |b| == 4 * |words|
    ensures forall k :: 0 <= k < |b| ==> b[k] == ByteOf(ByteAt(words[k / 4], k % 4))
  {
    seq(4 * |words|, k requires 0 <= k < 4 * |words| => ByteOf(ByteAt(words[k / 4], k % 4)))
  }

  /** The processor sees these bytes from the address on. */
  ghost predicate Shows(mem: Memory, a: Addr, bytes: seq<byte>) {
    forall k :: 0 <= k < |bytes| ==> mem(Plus(a, Offset(k))) == Bits(bytes[k])
  }

  lemma NextOffsets(k: nat)
    ensures Offset(k + 1) == Plus(Offset(k), 1) && Offset(k + 2) == Plus(Offset(k), 2)
    ensures Offset(k + 3) == Plus(Offset(k), 3) && Offset(k + 4) == Plus(Offset(k), 4)
  {
    assert Offset(k + 1) == Plus(Offset(k), 1) && Offset(k + 2) == Plus(Offset(k + 1), 1);
    assert Offset(k + 3) == Plus(Offset(k + 2), 1) && Offset(k + 4) == Plus(Offset(k + 3), 1);
    hide Offset;
    Ones();
    hide Plus;
    PlusAssociates(Offset(k), 1, 1);
    PlusAssociates(Offset(k), 2, 1);
    PlusAssociates(Offset(k), 3, 1);
  }

  lemma Ones()
    ensures Plus(1, 1) == 2 && Plus(2, 1) == 3 && Plus(3, 1) == 4
  {}

  lemma {:induction false} OffsetOfWord(k: nat)
    requires k <= 14
    ensures AsBytes(k) == Offset(4 * k)
    decreases k
  {
    hide AsBytes, Plus, Offset;
    if k == 0 {
      NoOffset();
    } else {
      OffsetOfWord(k - 1);
      NextBytes(k - 1);
      NextOffsets(4 * (k - 1));
    }
  }

  lemma NoOffset()
    ensures AsBytes(0) == Offset(0)
  {}

  lemma LoadOfBytes(mem: Memory, a: Addr)
    ensures Load32(mem, a) == FromBytes(mem(a), mem(Plus(a, 1)), mem(Plus(a, 2)), mem(Plus(a, 3)))
  {}

  /** A word of code is loaded if its bytes are seen. */
  lemma WordShown(mem: Memory, a: Addr, words: seq<Word>, bytes: seq<byte>, k: nat)
    requires Shows(mem, a, bytes) && Encoding(words) <= bytes && k < |words| && k < 14
    ensures Load32(mem, WordAt(a, k)) == words[k]
  {
    hide AsBytes, Plus, Offset, Load32, FromBytes, ByteAt, Bits, ByteOf;
    var at := WordAt(a, k);
    OffsetOfWord(k);
    NextOffsets(4 * k);
    PlusAssociates(a, Offset(4 * k), 1);
    PlusAssociates(a, Offset(4 * k), 2);
    PlusAssociates(a, Offset(4 * k), 3);
    LoadOfBytes(mem, at);
    ByteShown(mem, a, words, bytes, k, 0);
    ByteShown(mem, a, words, bytes, k, 1);
    ByteShown(mem, a, words, bytes, k, 2);
    ByteShown(mem, a, words, bytes, k, 3);
    WordOfBytes(words[k]);
  }

  lemma ByteShown(mem: Memory, a: Addr, words: seq<Word>, bytes: seq<byte>, k: nat, n: nat)
    requires Shows(mem, a, bytes) && Encoding(words) <= bytes && k < |words| && n < 4
    ensures mem(Plus(a, Offset(4 * k + n))) == ByteAt(words[k], n)
  {
    hide Plus, Offset, ByteAt, Bits, ByteOf;
    assert Encoding(words)[4 * k + n] == bytes[4 * k + n];
    assert (4 * k + n) / 4 == k && (4 * k + n) % 4 == n;
    BitsOfByte(ByteAt(words[k], n));
  }

  lemma WordsShown(mem: Memory, a: Addr, words: seq<Word>, bytes: seq<byte>)
    requires Shows(mem, a, bytes) && Encoding(words) <= bytes && |words| <= 14
    ensures WordsAt(mem, a, words)
  {
    hide Load32, WordAt, Encoding, Shows;
    forall k | 0 <= k < |words| ensures Load32(mem, WordAt(a, k)) == words[k] { WordShown(mem, a, words, bytes, k); }
  }
}
