/** Bytes, little-endian fields and the contract of the disassembler, for both x86 modes. Addresses are integers;
    the wrap-around of pointer arithmetic is written out. */
module X86Code {
  import opened Common

  const TWO32 := 0x1_0000_0000
  const TWO64 := 0x1_0000_0000_0000_0000
  const INT32_MIN := -0x8000_0000
  const INT32_MAX := 0x7FFF_FFFF

  const NOP: byte := 0x90
  const JMP: byte := 0xE9
  const CALL: byte := 0xE8

  /** The stack pointer among the general registers. */
  const ESP := 4

  datatype Mode = X64 | I386

  /** The size of the address space. */
  function Space(mode: Mode): int { if mode == X64 then TWO64 else TWO32 }

  // ---- little-endian fields ----

  function Signed32(u: int): int { if u < 0x8000_0000 then u else u - TWO32 }

  function Signed64(u: int): int { if u < 0x8000_0000_0000_0000 then u else u - TWO64 }

  /** The value a 32-bit store of `v` leaves, read back as a signed number. */
  function Wrap32(v: int): int { Signed32(v % TWO32) }

  function Le32(v: int): (b: seq<byte>)
    ensures |b| == 4
  {
    [v % 256, v / 256 % 256, v / 256 / 256 % 256, v / 256 / 256 / 256 % 256]
  }

  function Get32(b: seq<byte>, off: nat): (v: int)
    requires off + 4 <= |b|
    ensures 0 <= v < TWO32
  {
    var b0: int, b1: int, b2: int, b3: int := b[off], b[off + 1], b[off + 2], b[off + 3];
    b0 + 256 * b1 + 0x1_0000 * b2 + 0x100_0000 * b3
  }

  function Put32(b: seq<byte>, off: nat, v: int): (b': seq<byte>)
    requires off + 4 <= |b|
    ensures |b'| == |b|
    ensures b'[..off] == b[..off] && b'[off..off + 4] == Le32(v) && b'[off + 4..] == b[off + 4..]
    ensures forall i :: 0 <= i < |b| && !(off <= i < off + 4) ==> b'[i] == b[i]
  {
    b[..off] + Le32(v) + b[off + 4..]
  }

  lemma Le32Value(v: int)
    ensures v % 256 + 256 * (v / 256 % 256) + 0x1_0000 * (v / 256 / 256 % 256)
      + 0x100_0000 * (v / 256 / 256 / 256 % 256)
      == v % TWO32
  {
    var q1 := v / 256;
    var q2 := q1 / 256;
    var q3 := q2 / 256;
    var q4 := q3 / 256;
    var sum := v % 256 + 256 * (q1 % 256) + 0x1_0000 * (q2 % 256) + 0x100_0000 * (q3 % 256);
    assert v == sum + TWO32 * q4;
    RemainderIsUnique(v, sum, q4);
  }

  lemma RemainderIsUnique(v: int, r: int, q: int)
    requires v == r + TWO32 * q && 0 <= r < TWO32
    ensures v % TWO32 == r
  {}

  lemma GetPut32(b: seq<byte>, off: nat, v: int)
    requires off + 4 <= |b|
    ensures Get32(Put32(b, off, v), off) == v % TWO32
  {
    var c := Put32(b, off, v);
    forall k | 0 <= k < 4 ensures c[off + k] == Le32(v)[k] {
      assert c[off..off + 4][k] == c[off + k];
    }
    Le32Value(v);
  }

  lemma GetSlice32(b: seq<byte>, at: nat, off: nat)
    requires at + off + 4 <= |b|
    ensures Get32(b[at..], off) == Get32(b, at + off)
  {}

  /** A difference that fits is stored without loss. */
  lemma Wrap32Fits(v: int)
    requires INT32_MIN <= v <= INT32_MAX
    ensures Wrap32(v) == v
  {}

  // ---- memory ----

  type Memory = int -> byte

  function Four(mem: Memory, a: int): seq<byte> { [mem(a), mem(a + 1), mem(a + 2), mem(a + 3)] }

  function Read32(mem: Memory, a: int): int { Get32(Four(mem, a), 0) }

  // ---- what the disassembler reports ----

  /** rip_relative_t: `size` is in bits and 0 when there is no relative operand of the kind. */
  datatype Rel = Rel(addr: int, raddr: int, offset: int, size: int)

  const NoRel := Rel(0, 0, 0, 0)

  datatype Insn = Insn(size: nat, disp: Rel, imm: Rel) {
    /** The operand that is relative to the next instruction, if any. */
    function Relative(): Rel { if disp.size != 0 then disp else imm }
  }

  /** Decodes the instruction at the start of some bytes that lie at an address. */
  type Decoder = (seq<byte>, int) -> Option<Insn>

  predicate WellFormedRel(r: Rel, size: nat, code: seq<byte>, at: int, space: int)
    requires size <= |code| && space > 0
  {
    && (r.size == 0 ==> r == NoRel)
    && (r.size != 0 ==> r.addr == (at + size + r.raddr) % space)
    && (r.size == 32 ==> 1 <= r.offset && r.offset + 4 <= size && r.raddr == Signed32(Get32(code, r.offset)))
  }

  predicate WellFormed(i: Insn, code: seq<byte>, at: int, space: int)
    requires space > 0
  {
    && 1 <= i.size <= 15 && i.size <= |code|
    && WellFormedRel(i.disp, i.size, code, at, space) && WellFormedRel(i.imm, i.size, code, at, space)
    && (i.disp.size == 0 || i.imm.size == 0)
  }

  predicate InField(i: Insn, k: int) {
    i.Relative().size == 32 && i.Relative().offset <= k < i.Relative().offset + 4
  }

  /** The bytes of an instruction agree, except possibly in its 32-bit relative field. */
  predicate SameOpcode(i: Insn, a: seq<byte>, b: seq<byte>) {
    i.size <= |a| && i.size <= |b| && forall k :: 0 <= k < i.size && !InField(i, k) ==> a[k] == b[k]
  }

  /** The same instruction at another place: the same size, the same operands at the same positions. */
  predicate SameShape(i: Insn, j: Insn) {
    && j.size == i.size
    && j.disp.size == i.disp.size && j.disp.offset == i.disp.offset
    && j.imm.size == i.imm.size && j.imm.offset == i.imm.offset
  }

  /** What is trusted: reports are well formed, and neither the address nor the bytes of a 32-bit relative field
      nor the bytes behind an instruction influence what it is. */
  ghost predicate Trusted(dec: Decoder, mode: Mode) {
    && (forall code: seq<byte>, at: int ::
      dec(code, at).Some? ==> WellFormed(dec(code, at).value, code, at, Space(mode)))
    && (forall a: seq<byte>, b: seq<byte>, at: int, bt: int ::
      dec(a, at).Some? && SameOpcode(dec(a, at).value, a, b) ==>
        dec(b, bt).Some? && SameShape(dec(a, at).value, dec(b, bt).value))
  }
}
