/** The code funchook_fix_code writes on x86-64, on a machine with the three instructions it consists of: a patched
    function reaches its hook. */
module X86Routing {
  import opened Common
  import opened X86Code
  import opened X86Relocator
  import opened X86Layout
  import opened X86Fix
  import opened HookCaller
  import UnixPages

  const TRANSIT_CODE_SIZE := 0x15
  const TRANSIT_HOOK_CALLER_ADDR := 0xD

  // ---- what is written ----

  function Le64(v: int): (b: seq<byte>)
    ensures |b| == 8
  {
    Le32(v) + Le32(v / TWO32)
  }

  function Nops(n: nat): seq<byte> { seq(n, _ => NOP) }

  /** funchook_write_relative_2g_jump into a buffer of NOPs. */
  function NewCode(target: int, dst: int): (b: seq<byte>)
    ensures |b| == MAX_PATCH_CODE_SIZE
  {
    [JMP] + Le32(dst - (target + 5)) + Nops(MAX_PATCH_CODE_SIZE - 5)
  }

  /** funchook_write_absolute_jump. */
  function AbsoluteJump(dst: int): seq<byte> { [0xFF, 0x25, 0, 0, 0, 0] + Le64(dst) }

  /** lea -7(%rip),%r11, and the jump to the stub: the template of src/template.inc with the address stored. */
  const LEA: seq<byte> := [0x4C, 0x8D, 0x1D, 0xF9, 0xFF, 0xFF, 0xFF]

  function PrehookTransit(caller: int): seq<byte> { LEA + AbsoluteJump(caller) }

  predicate ViaTransit(e: Entry<int>) {
    e.hasPrehook || !Relative2GJumpAvail(e.target, Destination(e))
  }

  method Fill(a: array<byte>, bytes: seq<byte>)
    requires |bytes| <= a.Length
    modifies a
    ensures a[..|bytes|] == bytes && a[|bytes|..] == old(a[|bytes|..])
  {
    for k := 0 to |bytes|
      invariant a[..k] == bytes[..k] && a[|bytes|..] == old(a[|bytes|..])
    {
      a[k] := bytes[k];
    }
  }

  method Store32(a: array<byte>, at: int, v: int)
    requires 0 <= at && at + 4 <= a.Length
    modifies a
    ensures a[..] == Put32(old(a[..]), at, v)
  {
    a[at], a[at + 1], a[at + 2], a[at + 3] := Le32(v)[0], Le32(v)[1], Le32(v)[2], Le32(v)[3];
    assert a[..at] == old(a[..at]) && a[at..at + 4] == Le32(v) && a[at + 4..] == old(a[at + 4..]);
    assert a[..] == a[..at] + a[at..at + 4] + a[at + 4..];
  }

  method Store64(a: array<byte>, at: nat, v: int)
    requires at + 8 <= a.Length
    modifies a
    ensures a[..] == old(a[..at]) + Le64(v) + old(a[at + 8..])
  {
    hide Le32;
    Store32(a, at, v);
    Store32(a, at + 4, v / TWO32);
    assert a[..at] == old(a[..at]) && a[at..at + 4] == Le32(v) && a[at + 4..at + 8] == Le32(v / TWO32);
    assert a[at + 8..] == old(a[at + 8..]);
    assert a[..] == a[..at] + a[at..at + 4] + a[at + 4..at + 8] + a[at + 8..];
  }

  /** Into a buffer of NOPs. */
  method WriteRelativeJump(src: int, dst: int, out: array<byte>)
    requires out[..] == Nops(MAX_PATCH_CODE_SIZE)
    modifies out
    ensures out[..] == NewCode(src, dst)
  {
    hide Le32;
    out[0] := JMP;
    Store32(out, 1, dst - (src + 5));
    assert out[..1] == [JMP] && out[1..5] == Le32(dst - (src + 5)) && out[5..] == Nops(MAX_PATCH_CODE_SIZE - 5);
    assert out[..] == out[..1] + out[1..5] + out[5..];
  }

  method WriteAbsoluteJump(out: array<byte>, dst: int)
    requires out.Length >= 14
    modifies out
    ensures out[..14] == AbsoluteJump(dst) && out[14..] == old(out[14..])
  {
    hide Le64;
    out[0], out[1], out[2], out[3], out[4], out[5] := 0xFF, 0x25, 0, 0, 0, 0;
    assert out[..6] == [0xFF, 0x25, 0, 0, 0, 0];
    Store64(out, 6, dst);
  }

  /** TRANSIT_CODE_TEMPLATE of src/template.inc; the last eight bytes are overwritten. */
  const TRANSIT_CODE_TEMPLATE: seq<byte> := [
    0x4C, 0x8D, 0x1D, 0xF9, 0xFF, 0xFF, 0xFF, 0xFF, 0x25, 0x00, 0x00, 0x00, 0x00,
    0x0F, 0x1F, 0x40, 0x00, 0x0F, 0x1F, 0x40, 0x00]

  method WriteJumpWithPrehook(transit: array<byte>, caller: int)
    requires transit.Length == TRANSIT_CODE_SIZE
    modifies transit
    ensures transit[..] == PrehookTransit(caller)
  {
    hide Le64;
    Fill(transit, TRANSIT_CODE_TEMPLATE);
    assert transit[..TRANSIT_HOOK_CALLER_ADDR] == LEA + [0xFF, 0x25, 0, 0, 0, 0];
    Store64(transit, TRANSIT_HOOK_CALLER_ADDR, caller);
  }

  method FixSlot(tramp: array<byte>, d: Disp, at: int)
    requires 0 <= d.posOffset && d.posOffset + 4 <= tramp.Length
    modifies tramp
    ensures tramp[..] == Displace(old(tramp[..]), d, at)
  {
    hide Put32;
    Store32(tramp, d.posOffset, d.dst - (at + d.srcOffset));
  }

  method FixDisplacements(tramp: array<byte>, p: Prepared, at: int)
    requires tramp.Length == TRAMPOLINE_SIZE && SlotsInBuffer(p) && tramp[..] == Buffer(p)
    modifies tramp
    ensures tramp[..] == Fixed(p, at)
  {
    hide Buffer, Displace;
    FixSlot(tramp, p.disp0, at);
    if p.copy.disp.dst != 0 { FixSlot(tramp, p.copy.disp, at); }
  }

  method FixCode(e: Entry<int>, p: Prepared, transitAddr: int, caller: int,
                 newCode: array<byte>, transit: array<byte>, tramp: array<byte>) returns (patchSize: int)
    requires newCode.Length == MAX_PATCH_CODE_SIZE && transit.Length == TRANSIT_CODE_SIZE
    requires tramp.Length == TRAMPOLINE_SIZE && newCode != transit && newCode != tramp && transit != tramp
    requires SlotsInBuffer(p) && tramp[..] == Buffer(p)
    modifies newCode, transit, tramp
    ensures patchSize == (p.disp0.dst - e.target) % TWO32
    ensures newCode[..] == NewCode(e.target, if ViaTransit(e) then transitAddr else Destination(e))
    ensures !ViaTransit(e) ==> transit[0] == 0 && transit[1..] == old(transit[1..])
    ensures e.hasPrehook ==> transit[..] == PrehookTransit(caller)
    ensures !e.hasPrehook && ViaTransit(e)
      ==> transit[..14] == AbsoluteJump(Destination(e)) && transit[14..] == old(transit[14..])
    ensures tramp[..] == Fixed(p, e.trampoline)
  {
    hide Buffer, Fixed, SlotsInBuffer, Le32, NewCode, AbsoluteJump, PrehookTransit, Within32BitRelative;
    patchSize := (p.disp0.dst - e.target) % TWO32;
    var dst := Destination(e);
    Fill(newCode, Nops(MAX_PATCH_CODE_SIZE));
    if e.hasPrehook {
      WriteRelativeJump(e.target, transitAddr, newCode);
      WriteJumpWithPrehook(transit, caller);
    } else if !Relative2GJumpAvail(e.target, dst) {
      WriteRelativeJump(e.target, transitAddr, newCode);
      WriteAbsoluteJump(transit, dst);
    } else {
      WriteRelativeJump(e.target, dst, newCode);
      transit[0] := 0;
    }
    FixDisplacements(tramp, p, e.trampoline);
  }

  // ---- the machine ----

  datatype Cpu = Cpu(rip: int, r11: int)

  function Read64(mem: Memory, a: int): int { Read32(mem, a) + TWO32 * Read32(mem, a + 4) }

  /** jmp rel32, jmp *disp32(%rip) and lea disp32(%rip),%r11; a displacement counts from the next instruction. */
  function Step(mem: Memory, s: Cpu): Option<Cpu> {
    var a := s.rip;
    if mem(a) == 0xE9 then Some(s.(rip := (a + 5 + Signed32(Read32(mem, a + 1))) % TWO64))
    else if mem(a) == 0xFF && mem(a + 1) == 0x25 then
      Some(s.(rip := Read64(mem, (a + 6 + Signed32(Read32(mem, a + 2))) % TWO64)))
    else if mem(a) == 0x4C && mem(a + 1) == 0x8D && mem(a + 2) == 0x1D then
      Some(Cpu((a + 7) % TWO64, (a + 7 + Signed32(Read32(mem, a + 3))) % TWO64))
    else None
  }

  function Steps(mem: Memory, n: nat, s: Cpu): Option<Cpu> {
    if n == 0 then Some(s)
    else
      var s' := Step(mem, s);
      if s'.None? then None else Steps(mem, n - 1, s'.value)
  }

  ghost predicate BytesAt(mem: Memory, a: int, bytes: seq<byte>) {
    0 <= a && a + |bytes| <= TWO64 && forall k :: 0 <= k < |bytes| ==> mem(a + k) == bytes[k]
  }

  lemma ReadLe32(mem: Memory, a: int, v: int)
    requires Four(mem, a) == Le32(v)
    ensures Read32(mem, a) == v % TWO32
  {
    Le32Value(v);
  }

  lemma ReadLe64(mem: Memory, a: int, v: int)
    requires 0 <= v < TWO64 && Four(mem, a) == Le32(v) && Four(mem, a + 4) == Le32(v / TWO32)
    ensures Read64(mem, a) == v
  {
    ReadLe32(mem, a, v);
    ReadLe32(mem, a + 4, v / TWO32);
  }

  lemma FourAt(mem: Memory, a: int, bytes: seq<byte>, k: nat)
    requires BytesAt(mem, a, bytes) && k + 4 <= |bytes|
    ensures Four(mem, a + k) == bytes[k..k + 4]
  {
    assert mem(a + k) == bytes[k] && mem(a + (k + 1)) == bytes[k + 1];
    assert mem(a + (k + 2)) == bytes[k + 2] && mem(a + (k + 3)) == bytes[k + 3];
  }

  lemma StepJmp(mem: Memory, s: Cpu, v: int)
    requires mem(s.rip) == 0xE9 && Read32(mem, s.rip + 1) == v
    ensures Step(mem, s) == Some(s.(rip := (s.rip + 5 + Signed32(v)) % TWO64))
  {
    hide Read32, Read64, Signed32;
  }

  lemma StepIndirect(mem: Memory, s: Cpu, dst: int)
    requires mem(s.rip) == 0xFF && mem(s.rip + 1) == 0x25 && Read32(mem, s.rip + 2) == 0
    requires 0 <= s.rip && s.rip + 6 < TWO64 && Read64(mem, s.rip + 6) == dst
    ensures Step(mem, s) == Some(s.(rip := dst))
  {
    hide Read32, Read64;
  }

  lemma StepLea(mem: Memory, s: Cpu, v: int)
    requires mem(s.rip) == 0x4C && mem(s.rip + 1) == 0x8D && mem(s.rip + 2) == 0x1D && Read32(mem, s.rip + 3) == v
    ensures Step(mem, s) == Some(Cpu((s.rip + 7) % TWO64, (s.rip + 7 + Signed32(v)) % TWO64))
  {
    hide Read32, Read64, Signed32;
  }

  lemma ByteAt(mem: Memory, a: int, bytes: seq<byte>, k: nat)
    requires BytesAt(mem, a, bytes) && k < |bytes|
    ensures mem(a + k) == bytes[k]
  {}

  lemma NewCodeBytes(target: int, dst: int, size: nat)
    requires REL2G_JUMP_SIZE <= size <= MAX_PATCH_CODE_SIZE
    ensures var b := NewCode(target, dst)[..size];
      |b| == size && b[0] == JMP && b[1..5] == Le32(dst - (target + 5))
  {
    hide Le32;
    var b := NewCode(target, dst);
    assert b[1..5] == Le32(dst - (target + 5));
    assert b[..size][1..5] == b[1..5];
  }

  /** As much of the patch as covers the jump reaches what it was written for, when a 32-bit displacement suffices. */
  lemma PatchJumps(mem: Memory, target: int, dst: int, size: nat, s: Cpu)
    requires REL2G_JUMP_SIZE <= size <= MAX_PATCH_CODE_SIZE
    requires BytesAt(mem, target, NewCode(target, dst)[..size]) && s.rip == target
    requires 0 <= dst < TWO64 && Relative2GJumpAvail(target, dst)
    ensures Step(mem, s) == Some(s.(rip := dst))
  {
    hide Le32, NewCode, Within32BitRelative, BytesAt, Read32, Step, Four;
    var b := NewCode(target, dst)[..size];
    NewCodeBytes(target, dst, size);
    FourAt(mem, target, b, 1);
    ByteAt(mem, target, b, 0);
    ReadLe32(mem, target + 1, dst - (target + 5));
    StepJmp(mem, s, (dst - (target + 5)) % TWO32);
    LandsIffFits(X64, target + 5, dst);
  }

  lemma AbsoluteJumpBytes(dst: int)
    ensures var b := AbsoluteJump(dst);
      && |b| == 14 && b[0] == 0xFF && b[1] == 0x25 && b[2..6] == [0, 0, 0, 0]
      && b[6..10] == Le32(dst) && b[10..14] == Le32(dst / TWO32)
  {
    hide Le32;
  }

  lemma ReadZero(mem: Memory, a: int)
    requires Four(mem, a) == [0, 0, 0, 0]
    ensures Read32(mem, a) == 0
  {}

  lemma AbsoluteJumps(mem: Memory, a: int, dst: int, s: Cpu)
    requires BytesAt(mem, a, AbsoluteJump(dst)) && s.rip == a && 0 <= dst < TWO64
    ensures Step(mem, s) == Some(s.(rip := dst))
  {
    AbsoluteJumpBytes(dst);
    assert 0 <= a && a + 14 <= TWO64;
    hide Le32, AbsoluteJump, BytesAt, Read32, Read64, Step, Four;
    var b := AbsoluteJump(dst);
    ByteAt(mem, a, b, 0);
    ByteAt(mem, a, b, 1);
    FourAt(mem, a, b, 2);
    FourAt(mem, a, b, 6);
    FourAt(mem, a, b, 10);
    ReadZero(mem, a + 2);
    ReadLe64(mem, a + 6, dst);
    StepIndirect(mem, s, dst);
  }

  lemma ReadMinus7(mem: Memory, a: int)
    requires Four(mem, a) == [0xF9, 0xFF, 0xFF, 0xFF]
    ensures Read32(mem, a) == TWO32 - 7
  {}

  lemma PartAt(mem: Memory, a: int, bytes: seq<byte>, k: nat)
    requires BytesAt(mem, a, bytes) && k <= |bytes|
    ensures BytesAt(mem, a, bytes[..k]) && BytesAt(mem, a + k, bytes[k..])
  {
    forall j | 0 <= j < |bytes| - k ensures mem(a + k + j) == bytes[k..][j] {
      assert mem(a + (k + j)) == bytes[k + j];
    }
  }

  lemma LeaRuns(mem: Memory, a: int, s: Cpu)
    requires BytesAt(mem, a, LEA) && s.rip == a && a + 7 < TWO64
    ensures Step(mem, s) == Some(Cpu(a + 7, a))
  {
    assert 0 <= a;
    assert LEA[3..7] == [0xF9, 0xFF, 0xFF, 0xFF];
    FourAt(mem, a, LEA, 3);
    ByteAt(mem, a, LEA, 0);
    ByteAt(mem, a, LEA, 1);
    ByteAt(mem, a, LEA, 2);
    hide BytesAt, Read32, Step, Four;
    ReadMinus7(mem, a + 3);
    StepLea(mem, s, TWO32 - 7);
  }

  lemma PrehookTransitRuns(mem: Memory, a: int, caller: int, s: Cpu)
    requires BytesAt(mem, a, PrehookTransit(caller)) && s.rip == a && 0 <= caller < TWO64
    ensures Step(mem, s) == Some(Cpu(a + 7, a)) && Step(mem, Cpu(a + 7, a)) == Some(Cpu(caller, a))
  {
    hide AbsoluteJump, Step;
    var b := PrehookTransit(caller);
    assert b[..7] == LEA && b[7..] == AbsoluteJump(caller);
    PartAt(mem, a, b, 7);
    assert |AbsoluteJump(caller)| == 14 by { AbsoluteJumpBytes(caller); }
    hide BytesAt;
    LeaRuns(mem, a, s);
    AbsoluteJumps(mem, a + 7, caller, Cpu(a + 7, a));
  }

  /** Without a prehook a call of the patched function arrives at the hook, or at the trampoline without one: in one
      step exactly when the displacement the patch has room for leads there, and otherwise in two, through the transit
      code. Only as many bytes of the new code are in place as the patch has. */
  lemma PatchedCallReachesHook(mem: Memory, e: Entry<int>, p: Prepared, size: nat, transit: int, s: Cpu)
    requires REL2G_JUMP_SIZE <= size <= MAX_PATCH_CODE_SIZE
    requires !e.hasPrehook && 0 <= Destination(e) < TWO64 && 0 <= transit < TWO64 && s.rip == e.target
    requires PageAvail(X64, e.target, transit, e.trampoline, p.disp0, p.copy.disp)
    requires BytesAt(mem, e.target, NewCode(e.target, if ViaTransit(e) then transit else Destination(e))[..size])
    requires ViaTransit(e) ==> BytesAt(mem, transit, AbsoluteJump(Destination(e)))
    ensures var dst := Destination(e);
      if Lands(X64, e.target + 5, dst - (e.target + 5), dst) then Steps(mem, 1, s) == Some(s.(rip := dst))
      else Steps(mem, 1, s) == Some(s.(rip := transit)) && Steps(mem, 2, s) == Some(s.(rip := dst))
  {
    hide Step, NewCode, AbsoluteJump, BytesAt, Within32BitRelative, Lands;
    var dst := Destination(e);
    LandsIffFits(X64, e.target + 5, dst);
    if ViaTransit(e) {
      PatchJumps(mem, e.target, transit, size, s);
      AbsoluteJumps(mem, transit, dst, s.(rip := transit));
      assert Steps(mem, 0, s.(rip := dst)) == Some(s.(rip := dst));
      assert Steps(mem, 0, s.(rip := transit)) == Some(s.(rip := transit));
      assert Steps(mem, 1, s.(rip := transit)) == Some(s.(rip := dst));
      assert Steps(mem, 2, s) == Some(s.(rip := dst));
    } else {
      PatchJumps(mem, e.target, dst, size, s);
      assert Steps(mem, 0, s.(rip := dst)) == Some(s.(rip := dst));
      assert Steps(mem, 1, s) == Some(s.(rip := dst));
    }
  }

  /** With a prehook it arrives at the stub with the transit address in r11. */
  lemma PatchedCallReachesStub(mem: Memory, e: Entry<int>, p: Prepared, size: nat, transit: int, caller: int, s: Cpu)
    requires REL2G_JUMP_SIZE <= size <= MAX_PATCH_CODE_SIZE
    requires 0 <= caller < TWO64 && 0 <= transit < TWO64 && s.rip == e.target
    requires PageAvail(X64, e.target, transit, e.trampoline, p.disp0, p.copy.disp)
    requires BytesAt(mem, e.target, NewCode(e.target, transit)[..size])
    requires BytesAt(mem, transit, PrehookTransit(caller))
    ensures Steps(mem, 3, s) == Some(Cpu(caller, transit))
  {
    hide Step, NewCode, PrehookTransit, BytesAt, Within32BitRelative;
    PatchJumps(mem, e.target, transit, size, s);
    PrehookTransitRuns(mem, transit, caller, s.(rip := transit));
    assert Steps(mem, 0, Cpu(caller, transit)) == Some(Cpu(caller, transit));
    assert Steps(mem, 1, Cpu(transit + 7, transit)) == Some(Cpu(caller, transit));
    assert Steps(mem, 2, s.(rip := transit)) == Some(Cpu(caller, transit));
  }

  /** A page and slot are accepted exactly when each of the three displacements that may be stored for them leads where
      it is to lead: that of the patch to the transit code, that of the jump at the end of the trampoline, and that of a
      relative operand if there is one. */
  lemma PageIsAcceptedExactly(func: int, transit: int, tramp: int, disp0: Disp, disp1: Disp)
    ensures PageAvail(X64, func, transit, tramp, disp0, disp1) <==>
      && Lands(X64, func + 5, transit - (func + 5), transit)
      && Lands(X64, tramp + disp0.srcOffset, disp0.dst - (tramp + disp0.srcOffset), disp0.dst)
      && (disp1.dst == 0
          || Lands(X64, tramp + disp1.srcOffset, disp1.dst - (tramp + disp1.srcOffset), disp1.dst))
  {
    hide Lands, Within32BitRelative;
    LandsIffFits(X64, func + 5, transit);
    LandsIffFits(X64, tramp + disp0.srcOffset, disp0.dst);
    LandsIffFits(X64, tramp + disp1.srcOffset, disp1.dst);
  }

  // ---- the layout of a page, and what a near page guarantees ----

  const PAGE_HEADER := 16
  const ENTRY_SIZE := 144
  const TRAMPOLINE_OFFSET := 72

  /** The transit code is the first member of an entry. */
  function TransitAddr(page: int, idx: nat): int { page + PAGE_HEADER + ENTRY_SIZE * idx }

  function TrampolineAddr(page: int, idx: nat): int { TransitAddr(page, idx) + TRAMPOLINE_OFFSET }

  function EntriesInPage(pageSize: nat): nat
    requires pageSize >= PAGE_HEADER
  {
    (pageSize - PAGE_HEADER) / ENTRY_SIZE
  }

  lemma EntriesFitInPage(page: int, pageSize: nat, idx: nat)
    requires pageSize >= PAGE_HEADER && idx < EntriesInPage(pageSize)
    ensures page <= TransitAddr(page, idx) && TransitAddr(page, idx) + ENTRY_SIZE <= page + pageSize
    ensures TrampolineAddr(page, idx) + TRAMPOLINE_SIZE + 2 * MAX_PATCH_CODE_SIZE <= page + pageSize
  {
    var n := EntriesInPage(pageSize);
    assert ENTRY_SIZE * n <= pageSize - PAGE_HEADER;
  }

  lemma NearMeansClose(x: int, y: int, limit: int) returns (q: int)
    requires (x - y) % TWO64 < limit
    ensures 0 <= x - y + TWO64 * q < limit
  {
    q := -((x - y) / TWO64);
  }

  lemma CloseMeansWithin(src: int, dst: int, q: int)
    requires INT32_MIN <= dst - src + TWO64 * q <= INT32_MAX
    ensures Within32BitRelative(src, dst)
  {
    Signed64Unique(dst - src, dst - src + TWO64 * q, q);
  }

  lemma NearPageReachesFunction(func: int, page: int, pageSize: int, p: Prepared)
    requires 4096 <= pageSize < INT32_MAX && UnixPages.Near(func, page, pageSize)
    requires |p.copy.dst| <= 25 && p.copy.src <= 20
    requires p.disp0 == Disp(func + p.copy.src, |p.copy.dst| + 5, |p.copy.dst| + 1)
    ensures Within32BitRelative(func + 5, TransitAddr(page, 0))
    ensures Within32BitRelative(TrampolineAddr(page, 0) + p.disp0.srcOffset, p.disp0.dst)
  {
    hide Within32BitRelative;
    var q;
    if UnixPages.SafeDistance(func, page, pageSize) {
      q := NearMeansClose(func, page, INT32_MAX - pageSize);
    } else {
      q := NearMeansClose(page, func, INT32_MAX - pageSize);
      q := -q;
    }
    CloseMeansWithin(func + 5, TransitAddr(page, 0), -q);
    CloseMeansWithin(TrampolineAddr(page, 0) + p.disp0.srcOffset, p.disp0.dst, q);
  }

  /** The first entry of a page the Unix allocator accepts reaches the function both ways, so that such a page can
      be refused only because of a relative operand of the function. */
  lemma NearPageFailsOnlyForOperand(env: Env, page: int, pageSize: int)
    requires env.Valid() && env.mode == X64 && Prepare(env).Ok? && Prepare(env).value.size != 0
    requires 4096 <= pageSize < INT32_MAX
    requires UnixPages.Near(env.func, page, pageSize)
    ensures var p := Prepare(env).value; var d := p.copy.disp;
      PageAvail(X64, env.func, TransitAddr(page, 0), TrampolineAddr(page, 0), p.disp0, d)
      <==> d.dst == 0 || Within32BitRelative(TrampolineAddr(page, 0) + d.srcOffset, d.dst)
  {
    hide Prepare, Tiled, Trusted, Within32BitRelative;
    PreparedIsTiled(env);
    NearPageReachesFunction(env.func, page, pageSize, Prepare(env).value);
  }
}
