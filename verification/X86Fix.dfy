/** funchook_fix_code and funchook_page_avail of src/arch_x86.c: displacements are written against the final
    addresses, and the copy means what the original meant. */
module X86Fix {
  import opened Common
  import opened X86Code
  import opened X86Relocator
  import opened X86Layout

  // ---- reach ----

  /** funchook_within_32bit_relative, on 64-bit pointers. */
  predicate Within32BitRelative(src: int, dst: int) {
    INT32_MIN <= Signed64((dst - src) % TWO64) <= INT32_MAX
  }

  predicate Relative2GJumpAvail(src: int, dst: int) { Within32BitRelative(src + 5, dst) }

  /** funchook_page_avail: 32 bits suffice from the function to the transit code and for both displacements of the
      trampoline. Other processors accept every page. */
  predicate PageAvail(mode: Mode, func: int, transit: int, tramp: int, disp0: Disp, disp1: Disp) {
    mode == I386 || (
      && Relative2GJumpAvail(func, transit)
      && Within32BitRelative(tramp + disp0.srcOffset, disp0.dst)
      && (disp1.dst == 0 || Within32BitRelative(tramp + disp1.srcOffset, disp1.dst)))
  }

  /** A stored displacement, read back, sign extended and added to the next address, gives the intended target. */
  predicate Lands(mode: Mode, next: int, stored: int, dst: int) {
    (next + Wrap32(stored)) % Space(mode) == dst % Space(mode)
  }

  lemma Mod32(a: int, b: int, q: int)
    requires a == b + TWO32 * q
    ensures a % TWO32 == b % TWO32
  {}

  lemma Mod64(a: int, b: int, q: int)
    requires a == b + TWO64 * q
    ensures a % TWO64 == b % TWO64
  {}

  lemma Wrap32IsMod(v: int) returns (q: int)
    ensures Wrap32(v) == v + TWO32 * q
  {
    var k := v / TWO32;
    assert v == v % TWO32 + TWO32 * k;
    q := if v % TWO32 < 0x8000_0000 then -k else -k - 1;
  }

  lemma Signed64IsMod(v: int) returns (q: int)
    ensures Signed64(v % TWO64) == v + TWO64 * q
  {
    var k := v / TWO64;
    assert v == v % TWO64 + TWO64 * k;
    q := if v % TWO64 < 0x8000_0000_0000_0000 then -k else -k - 1;
  }

  lemma Lands32(next: int, dst: int)
    ensures Lands(I386, next, dst - next, dst)
  {
    var q := Wrap32IsMod(dst - next);
    Mod32(next + Wrap32(dst - next), dst, q);
  }

  /** A signed 64-bit value that fits in 32 bits is what a 32-bit store keeps. */
  lemma SmallWrap(v: int, d: int, p: int)
    requires INT32_MIN <= d <= INT32_MAX && d == v + TWO64 * p
    ensures Wrap32(v) == d
  {
    Mod32(v, d, -(TWO32 * p));
    Wrap32Fits(d);
  }

  lemma Lands64(next: int, dst: int)
    requires Within32BitRelative(next, dst)
    ensures Lands(X64, next, dst - next, dst)
  {
    var p := Signed64IsMod(dst - next);
    SmallWrap(dst - next, Signed64((dst - next) % TWO64), p);
    Mod64(next + Wrap32(dst - next), dst, p);
  }

  lemma Wrap32Range(v: int)
    ensures INT32_MIN <= Wrap32(v) <= INT32_MAX
  {}

  lemma Signed64Unique(v: int, w: int, k: int)
    requires INT32_MIN <= w <= INT32_MAX && w == v + TWO64 * k
    ensures Signed64(v % TWO64) == w
  {
    var q := Signed64IsMod(v);
  }

  lemma Equal64(a: int, b: int) returns (k: int)
    requires a % TWO64 == b % TWO64
    ensures a == b + TWO64 * k
  {
    k := a / TWO64 - b / TWO64;
  }

  lemma Misses64(next: int, dst: int)
    requires Lands(X64, next, dst - next, dst)
    ensures Within32BitRelative(next, dst)
  {
    var w := Wrap32(dst - next);
    Wrap32Range(dst - next);
    var k := Equal64(next + w, dst);
    Signed64Unique(dst - next, w, k);
  }

  /** In 32-bit mode every displacement lands; in 64-bit mode exactly those that fit. */
  lemma LandsIffFits(mode: Mode, next: int, dst: int)
    ensures Lands(mode, next, dst - next, dst) <==> mode == I386 || Within32BitRelative(next, dst)
  {
    hide Lands, Within32BitRelative;
    if mode == I386 {
      Lands32(next, dst);
    } else {
      if Within32BitRelative(next, dst) { Lands64(next, dst); }
      if Lands(X64, next, dst - next, dst) { Misses64(next, dst); }
    }
  }

  // ---- the fixed trampoline ----

  function Displace(b: seq<byte>, d: Disp, tramp: int): (b': seq<byte>)
    requires 0 <= d.posOffset && d.posOffset + 4 <= |b|
    ensures |b'| == |b|
  {
    Put32(b, d.posOffset, d.dst - (tramp + d.srcOffset))
  }

  ghost predicate SlotsInBuffer(p: Prepared) {
    && |Buffer(p)| == TRAMPOLINE_SIZE
    && 0 <= p.disp0.posOffset && p.disp0.posOffset + 4 <= TRAMPOLINE_SIZE
    && 0 <= p.copy.disp.posOffset && p.copy.disp.posOffset + 4 <= TRAMPOLINE_SIZE
  }

  lemma SlotsAreInBuffer(env: Env)
    requires env.Valid() && Prepare(env).Ok?
    ensures SlotsInBuffer(Prepare(env).value)
  {
    var p := Prepare(env).value;
    PreparedIsTiled(env);
    var c := p.copy;
    if c.disp != NoDisp {
      var k := |c.units| - 1;
      assert UnitIsRight(env, c, k);
      OneSlotSuffices(env, c, k);
    }
  }

  /** The trampoline in its entry, at `tramp`. A recorded target of zero counts as no record. */
  function Fixed(p: Prepared, tramp: int): (b: seq<byte>)
    requires SlotsInBuffer(p)
    ensures |b| == TRAMPOLINE_SIZE
  {
    var b := Displace(Buffer(p), p.disp0, tramp);
    if p.copy.disp.dst != 0 then Displace(b, p.copy.disp, tramp) else b
  }

  predicate InSlot(d: Disp, i: int) { d.dst != 0 && d.posOffset <= i < d.posOffset + 4 }

  /** Bytes outside the two slots are those of the buffer. */
  lemma FixedElsewhere(p: Prepared, tramp: int)
    requires SlotsInBuffer(p)
    ensures forall i | 0 <= i < TRAMPOLINE_SIZE && !(p.disp0.posOffset <= i < p.disp0.posOffset + 4)
      && !InSlot(p.copy.disp, i) ::
      Fixed(p, tramp)[i] == Buffer(p)[i]
  {
    hide Buffer, Put32;
  }

  lemma DisplaceReads(b: seq<byte>, d: Disp, tramp: int)
    requires 0 <= d.posOffset && d.posOffset + 4 <= |b|
    ensures Get32(Displace(b, d, tramp), d.posOffset) == (d.dst - (tramp + d.srcOffset)) % TWO32
  {
    GetPut32(b, d.posOffset, d.dst - (tramp + d.srcOffset));
  }

  lemma SameField(a: seq<byte>, b: seq<byte>, off: nat)
    requires off + 4 <= |a| && off + 4 <= |b| && forall i :: off <= i < off + 4 ==> a[i] == b[i]
    ensures Get32(a, off) == Get32(b, off)
  {}
}
