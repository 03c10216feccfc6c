/** Relocation preserves meaning: decoding the fixed trampoline where it finally lies gives the instructions of the
    prefix, with the same absolute targets, followed by a jump behind the patch. */
module X86Relocation {
  import opened Common
  import opened X86Code
  import opened X86Relocator
  import opened X86Layout
  import opened X86Fix

  /** A finished translation that covers the patch. */
  ghost predicate Placed(env: Env, p: Prepared) {
    && env.Valid() && Prepare(env) == Ok(p) && p.size != 0
    && SlotsInBuffer(p) && Tiled(env, p.copy) && p.disp0 == Disp(env.func + p.copy.src, p.size, p.size - 4)
    && p.size == |p.copy.dst| + REL2G_JUMP_SIZE <= TRAMPOLINE_SIZE
  }

  lemma PlacedWhenPrepared(env: Env)
    requires env.Valid() && Prepare(env).Ok? && Prepare(env).value.size != 0
    ensures Placed(env, Prepare(env).value)
  {
    hide Prepare, Tiled, SlotsInBuffer;
    PreparedIsTiled(env);
    SlotsAreInBuffer(env);
  }

  // ---- the bytes of the fixed trampoline ----

  /** The last unit's slot lies in the last unit. */
  lemma SlotIsInLastUnit(env: Env, c: Copy)
    requires env.Valid() && Tiled(env, c) && c.disp != NoDisp
    ensures |c.units| > 0 && c.units[|c.units| - 1].dst < c.disp.posOffset && c.disp.posOffset + 4 <= |c.dst|
  {
    assert UnitIsRight(env, c, |c.units| - 1);
  }

  /** The fixed trampoline: the copy except for its recorded slot, the displacement in this slot, the jump. */
  ghost predicate IsFixed(p: Prepared, tramp: int, b: seq<byte>) {
    var c := p.copy;
    && |b| == TRAMPOLINE_SIZE && |c.dst| + 5 <= |b|
    && (forall i :: 0 <= i < |c.dst| && !InSlot(c.disp, i) ==> b[i] == c.dst[i])
    && (c.disp.dst != 0 ==>
      && 0 <= c.disp.posOffset && c.disp.posOffset + 4 <= |c.dst|
      && Get32(b, c.disp.posOffset) == (c.disp.dst - (tramp + c.disp.srcOffset)) % TWO32)
    && b[|c.dst|] == JMP
    && Get32(b, |c.dst| + 1) == (p.disp0.dst - (tramp + |c.dst| + 5)) % TWO32
  }

  lemma FixedIsFixed(env: Env, p: Prepared, tramp: int)
    requires Placed(env, p)
    ensures IsFixed(p, tramp, Fixed(p, tramp))
  {
    hide Trusted, Prepare, Put32, Fixed, Buffer, Displace, Get32;
    var c, b := p.copy, Fixed(p, tramp);
    if c.disp != NoDisp { SlotIsInLastUnit(env, c); }
    hide Tiled;
    JumpFollowsCopy(p);
    FixedElsewhere(p, tramp);
    SlotsAreFixed(p, tramp);
  }

  /** Both displacements are in place, when their slots are apart. */
  lemma SlotsAreFixed(p: Prepared, tramp: int)
    requires SlotsInBuffer(p)
    requires p.copy.disp.dst != 0 ==> p.copy.disp.posOffset + 4 <= p.disp0.posOffset
    ensures var b := Fixed(p, tramp);
      && Get32(b, p.disp0.posOffset) == (p.disp0.dst - (tramp + p.disp0.srcOffset)) % TWO32
      && (p.copy.disp.dst != 0 ==>
        Get32(b, p.copy.disp.posOffset) == (p.copy.disp.dst - (tramp + p.copy.disp.srcOffset)) % TWO32)
  {
    hide Buffer, Get32;
    var b0 := Displace(Buffer(p), p.disp0, tramp);
    DisplaceReads(Buffer(p), p.disp0, tramp);
    if p.copy.disp.dst != 0 { DisplaceReads(b0, p.copy.disp, tramp); }
    hide Put32;
    SameField(b0, Fixed(p, tramp), p.disp0.posOffset);
  }

  lemma JumpFollowsCopy(p: Prepared)
    requires p.size != 0 && |p.copy.dst| + 5 <= TRAMPOLINE_SIZE
    ensures |Buffer(p)| == TRAMPOLINE_SIZE && Buffer(p)[|p.copy.dst|] == JMP
    ensures forall i :: 0 <= i < |p.copy.dst| ==> Buffer(p)[i] == p.copy.dst[i]
  {}

  // ---- one copied instruction ----

  /** What the copy loop guarantees of one copied instruction. */
  ghost predicate CopiedInsn(env: Env, p: Prepared, u: Unit, i: Insn) {
    var c := p.copy;
    && u.src <= |env.code| && env.InsnAt(u.src) == Some(i)
    && WellFormed(i, env.code[u.src..], env.func + u.src, Space(env.mode))
    && u.dst + i.size <= |c.dst| && c.dst[u.dst..u.dst + i.size] == env.code[u.src..u.src + i.size]
    && i.Relative().size in {0, 32}
    && (if i.Relative().size == 32
        then c.disp == Disp(i.Relative().addr, u.dst + i.size, u.dst + i.Relative().offset)
        else c.disp.dst == 0 || u.dst + i.size <= c.disp.posOffset)
  }

  /** Units come in the order of the copy. */
  lemma {:induction false} DstEndBound(env: Env, c: Copy, k: nat)
    requires env.Valid() && Tiled(env, c) && k < |c.units| - 1
    ensures c.units[k].dst < DstEnd(c, k) <= c.units[|c.units| - 1].dst
    decreases |c.units| - k
  {
    assert UnitIsRight(env, c, k);
    assert c.units[k].kind.Copied?;
    if k + 2 < |c.units| { DstEndBound(env, c, k + 1); }
  }

  lemma InsnIsWellFormed(env: Env, pos: nat)
    requires env.Valid() && env.InsnAt(pos).Some?
    ensures pos <= |env.code| && WellFormed(env.InsnAt(pos).value, env.code[pos..], env.func + pos, Space(env.mode))
  {}

  lemma UnitIsCopiedInsn(env: Env, p: Prepared, k: nat)
    requires Placed(env, p) && k < |p.copy.units| && p.copy.units[k].kind.Copied?
    ensures var u := p.copy.units[k]; env.InsnAt(u.src).Some? && CopiedInsn(env, p, u, env.InsnAt(u.src).value)
  {
    hide Trusted, Prepare, Buffer, WellFormed;
    var c, u := p.copy, p.copy.units[k];
    assert UnitIsRight(env, c, k);
    OneSlotSuffices(env, c, k);
    InsnIsWellFormed(env, u.src);
    if c.disp != NoDisp { SlotIsInLastUnit(env, c); }
    if k < |c.units| - 1 { DstEndBound(env, c, k); }
  }

  /** Outside the relative field, which is zero or recorded, the instruction's bytes are the original's. */
  lemma OpcodeSurvives(env: Env, p: Prepared, tramp: int, u: Unit, i: Insn, b: seq<byte>)
    requires CopiedInsn(env, p, u, i) && IsFixed(p, tramp, b)
    ensures SameOpcode(i, env.code[u.src..], b[u.dst..])
    ensures i.Relative().size == 32 && i.Relative().addr == 0 ==>
      forall t :: 0 <= t < i.size ==> b[u.dst..][t] == env.code[u.src..][t]
  {
    hide WellFormedRel, Trusted, Get32;
    var c := p.copy;
    forall t | 0 <= t < i.size && (!InField(i, t) || c.disp.dst == 0)
      ensures env.code[u.src..][t] == b[u.dst..][t]
    {
      assert c.dst[u.dst..u.dst + i.size][t] == env.code[u.src..u.src + i.size][t];
      assert !InSlot(c.disp, u.dst + t);
    }
  }

  /** The instruction found at the copy's place in memory. */
  function FoundAt(env: Env, u: Unit, tramp: int, b: seq<byte>): Option<Insn>
    requires u.dst <= |b|
  {
    env.dec(b[u.dst..], tramp + u.dst)
  }

  lemma FoundHasShape(env: Env, p: Prepared, tramp: int, u: Unit, i: Insn, b: seq<byte>)
    requires Trusted(env.dec, env.mode) && CopiedInsn(env, p, u, i) && IsFixed(p, tramp, b)
    ensures FoundAt(env, u, tramp, b).Some?
    ensures var j := FoundAt(env, u, tramp, b).value;
      SameShape(i, j) && WellFormed(j, b[u.dst..], tramp + u.dst, Space(env.mode))
  {
    OpcodeSurvives(env, p, tramp, u, i, b);
    hide WellFormed, SameShape, SameOpcode, IsFixed;
  }

  /** The target of a relative operand, from the field that holds it. */
  lemma TargetFromField(i: Insn, code: seq<byte>, at: int, mode: Mode)
    requires WellFormed(i, code, at, Space(mode)) && i.Relative().size == 32
    ensures i.Relative().offset >= 0 && i.Relative().offset + 4 <= i.size <= |code|
    ensures i.Relative().addr == (at + i.size + Signed32(Get32(code, i.Relative().offset))) % Space(mode)
    ensures 0 <= i.Relative().addr < Space(mode)
  {
    hide Get32, Signed32;
  }

  lemma SameTarget(mode: Mode, next: int, dst: int)
    requires mode == I386 || Within32BitRelative(next, dst)
    requires 0 <= dst < Space(mode)
    ensures (next + Signed32((dst - next) % TWO32)) % Space(mode) == dst
  {
    LandsIffFits(mode, next, dst);
  }

  /** The field of the copied operand holds the displacement from the instruction's final place. */
  lemma FieldIsFixed(env: Env, p: Prepared, tramp: int, u: Unit, i: Insn, b: seq<byte>)
    requires CopiedInsn(env, p, u, i) && IsFixed(p, tramp, b) && i.Relative().size == 32 && i.Relative().addr != 0
    requires i.Relative().offset >= 0
    ensures u.dst + i.Relative().offset + 4 <= |b|
    ensures p.copy.disp.srcOffset == u.dst + i.size && p.copy.disp.dst == i.Relative().addr
    ensures Get32(b, u.dst + i.Relative().offset) == (i.Relative().addr - (tramp + u.dst + i.size)) % TWO32
  {
    hide WellFormed, Get32;
  }

  lemma FieldGivesTarget(j: Insn, code: seq<byte>, at: int, mode: Mode, dst: int)
    requires WellFormed(j, code, at, Space(mode)) && j.Relative().size == 32 && j.Relative().offset >= 0
    requires j.Relative().offset + 4 <= |code| && Get32(code, j.Relative().offset) == (dst - (at + j.size)) % TWO32
    requires 0 <= dst < Space(mode) && (mode == I386 || Within32BitRelative(at + j.size, dst))
    ensures j.Relative().addr == dst
  {
    hide WellFormed, Get32, Signed32, Within32BitRelative, Space;
    TargetFromField(j, code, at, mode);
    SameTarget(mode, at + j.size, dst);
  }

  lemma FoundHasTarget(env: Env, p: Prepared, tramp: int, u: Unit, i: Insn, j: Insn, b: seq<byte>)
    requires CopiedInsn(env, p, u, i) && IsFixed(p, tramp, b) && i.Relative().size == 32 && i.Relative().addr != 0
    requires env.mode == I386 || Within32BitRelative(tramp + p.copy.disp.srcOffset, p.copy.disp.dst)
    requires SameShape(i, j) && WellFormed(j, b[u.dst..], tramp + u.dst, Space(env.mode))
    ensures j.Relative().addr == i.Relative().addr
  {
    assert u.src <= |env.code| && WellFormed(i, env.code[u.src..], env.func + u.src, Space(env.mode));
    TargetFromField(i, env.code[u.src..], env.func + u.src, env.mode);
    hide WellFormed, Get32, Signed32, Within32BitRelative, CopiedInsn, IsFixed, Space;
    FieldIsFixed(env, p, tramp, u, i, b);
    GetSlice32(b, u.dst, i.Relative().offset);
    FieldGivesTarget(j, b[u.dst..], tramp + u.dst, env.mode, i.Relative().addr);
  }

  /** Each copied instruction means the same at its final place: it has the same size, opcode and operands, and its
      relative operand, if any, was 32 bits wide and refers to the same absolute address. */
  lemma RelocationPreservesMeaning(env: Env, tramp: int, transit: int, k: nat)
    requires env.Valid() && Prepare(env).Ok? && Prepare(env).value.size != 0
    requires var p := Prepare(env).value;
      && SlotsInBuffer(p) && PageAvail(env.mode, env.func, transit, tramp, p.disp0, p.copy.disp)
      && k < |p.copy.units| && p.copy.units[k].kind.Copied?
    requires var i := env.InsnAt(Prepare(env).value.copy.units[k].src);
      i.Some? && i.value.Relative().size != 0 ==> i.value.Relative().addr != 0
    ensures var p := Prepare(env).value; var u, b := p.copy.units[k], Fixed(p, tramp);
      && env.InsnAt(u.src).Some? && u.dst <= |b| && FoundAt(env, u, tramp, b).Some?
      && var i, j := env.InsnAt(u.src).value, FoundAt(env, u, tramp, b).value;
      && SameShape(i, j) && u.src <= |env.code| && SameOpcode(i, env.code[u.src..], b[u.dst..])
        && i.Relative().size in {0, 32} && j.Relative().addr == i.Relative().addr
  {
    hide Prepare, Tiled, Trusted, Fixed, Within32BitRelative, SlotsInBuffer;
    PlacedWhenPrepared(env);
    var p := Prepare(env).value;
    var u, b := p.copy.units[k], Fixed(p, tramp);
    FixedIsFixed(env, p, tramp);
    UnitIsCopiedInsn(env, p, k);
    var i := env.InsnAt(u.src).value;
    FoundHasShape(env, p, tramp, u, i, b);
    OpcodeSurvives(env, p, tramp, u, i, b);
    var j := FoundAt(env, u, tramp, b).value;
    if i.Relative().size == 32 {
      FoundHasTarget(env, p, tramp, u, i, j, b);
    } else {
      NoTarget(i, j, env.code[u.src..], env.func + u.src, b[u.dst..], tramp + u.dst, env.mode);
    }
  }

  lemma NoTarget(i: Insn, j: Insn, code: seq<byte>, at: int, code': seq<byte>, at': int, mode: Mode)
    requires WellFormed(i, code, at, Space(mode)) && WellFormed(j, code', at', Space(mode)) && SameShape(i, j)
    requires i.Relative().size == 0
    ensures j.Relative().addr == i.Relative().addr
  {}

  /** The jump behind the copy leads to the first byte behind the patch. */
  lemma ReturnJumpIsRight(env: Env, tramp: int, transit: int)
    requires env.Valid() && Prepare(env).Ok? && Prepare(env).value.size != 0
    requires var p := Prepare(env).value;
      SlotsInBuffer(p) && PageAvail(env.mode, env.func, transit, tramp, p.disp0, p.copy.disp)
    ensures var p := Prepare(env).value; var at, b := |p.copy.dst|, Fixed(p, tramp);
      && at + 5 <= |b| && b[at] == JMP
      && (tramp + at + 5 + Signed32(Get32(b, at + 1))) % Space(env.mode) == env.func + p.copy.src
  {
    hide Prepare, Tiled, Trusted, Fixed, Within32BitRelative, SlotsInBuffer;
    PlacedWhenPrepared(env);
    var p := Prepare(env).value;
    FixedIsFixed(env, p, tramp);
    TiledBounds(env, p.copy);
    SameTarget(env.mode, tramp + |p.copy.dst| + 5, env.func + p.copy.src);
  }

  /** A rewritten idiom is still a mov of the original's next address. */
  lemma RewrittenSurvives(env: Env, tramp: int, k: nat)
    requires env.Valid() && Prepare(env).Ok? && Prepare(env).value.size != 0 && SlotsInBuffer(Prepare(env).value)
    requires k < |Prepare(env).value.copy.units| && Prepare(env).value.copy.units[k].kind.GetPc?
    ensures var p := Prepare(env).value; var u, b := p.copy.units[k], Fixed(p, tramp);
      && u.dst + 5 == |p.copy.dst| <= |b|
      && b[u.dst..u.dst + 5] == [u.kind.opcode] + Le32(env.func + u.src + 5)
  {
    hide Prepare, Trusted, Fixed, SlotsInBuffer;
    PlacedWhenPrepared(env);
    var p := Prepare(env).value;
    var c, u, b := p.copy, p.copy.units[k], Fixed(p, tramp);
    FixedIsFixed(env, p, tramp);
    assert UnitIsRight(env, c, k);
    hide Tiled, Le32, GetPcAt;
    assert b[u.dst..u.dst + 5] == c.dst[u.dst..];
  }

  /** A relative operand that refers to address zero is the exception: it looks like no record, is left alone, and
      keeps its target only if the trampoline lies where the original does. */
  lemma NullTargetMoves(env: Env, tramp: int, k: nat)
    requires env.Valid() && Prepare(env).Ok? && Prepare(env).value.size != 0 && SlotsInBuffer(Prepare(env).value)
    requires k < |Prepare(env).value.copy.units| && Prepare(env).value.copy.units[k].kind.Copied?
    requires var i := env.InsnAt(Prepare(env).value.copy.units[k].src);
      i.Some? && i.value.Relative().size == 32 && i.value.Relative().addr == 0
    ensures var p := Prepare(env).value; var u, b := p.copy.units[k], Fixed(p, tramp);
      && u.dst <= |b| && FoundAt(env, u, tramp, b).Some?
      && (FoundAt(env, u, tramp, b).value.Relative().addr == 0
          <==> (tramp + u.dst) % Space(env.mode) == (env.func + u.src) % Space(env.mode))
  {
    hide Prepare, Tiled, Trusted, Fixed, SlotsInBuffer;
    PlacedWhenPrepared(env);
    var p := Prepare(env).value;
    var u, b := p.copy.units[k], Fixed(p, tramp);
    FixedIsFixed(env, p, tramp);
    UnitIsCopiedInsn(env, p, k);
    var i := env.InsnAt(u.src).value;
    FoundHasShape(env, p, tramp, u, i, b);
    OpcodeSurvives(env, p, tramp, u, i, b);
    FoundNull(env, p, tramp, u, i, FoundAt(env, u, tramp, b).value, b);
  }

  lemma NullMoves(i: Insn, code: seq<byte>, at: int, j: Insn, code': seq<byte>, at': int, mode: Mode)
    requires WellFormed(i, code, at, Space(mode)) && WellFormed(j, code', at', Space(mode))
    requires SameShape(i, j) && i.Relative().size == 32 && i.Relative().addr == 0
    requires 0 <= i.Relative().offset && i.Relative().offset + 4 <= |code| && i.Relative().offset + 4 <= |code'|
    requires Get32(code, i.Relative().offset) == Get32(code', i.Relative().offset)
    ensures j.Relative().addr == 0 <==> at' % Space(mode) == at % Space(mode)
  {
    hide WellFormed, Get32, Signed32, Space;
    TargetFromField(i, code, at, mode);
    TargetFromField(j, code', at', mode);
    ShiftMod(mode, at', at, i.size + Signed32(Get32(code, i.Relative().offset)));
  }

  lemma FoundNull(env: Env, p: Prepared, tramp: int, u: Unit, i: Insn, j: Insn, b: seq<byte>)
    requires CopiedInsn(env, p, u, i) && i.Relative().size == 32 && i.Relative().addr == 0
    requires u.dst <= |b| && SameShape(i, j) && WellFormed(j, b[u.dst..], tramp + u.dst, Space(env.mode))
    requires forall t :: 0 <= t < i.size ==> b[u.dst..][t] == env.code[u.src..][t]
    ensures j.Relative().addr == 0 <==>
      (tramp + u.dst) % Space(env.mode) == (env.func + u.src) % Space(env.mode)
  {
    assert u.src <= |env.code| && WellFormed(i, env.code[u.src..], env.func + u.src, Space(env.mode));
    TargetFromField(i, env.code[u.src..], env.func + u.src, env.mode);
    TargetFromField(j, b[u.dst..], tramp + u.dst, env.mode);
    hide WellFormed, Get32, Signed32, CopiedInsn, Space;
    SameField(b[u.dst..], env.code[u.src..], i.Relative().offset);
    NullMoves(i, env.code[u.src..], env.func + u.src, j, b[u.dst..], tramp + u.dst, env.mode);
  }

  lemma ShiftMod(mode: Mode, a: int, b: int, d: int)
    requires (b + d) % Space(mode) == 0
    ensures (a + d) % Space(mode) == 0 <==> a % Space(mode) == b % Space(mode)
  {
    if mode == X64 { ShiftMod64(a, b, d); } else { ShiftMod32(a, b, d); }
  }

  lemma ShiftMod64(a: int, b: int, d: int)
    requires (b + d) % TWO64 == 0
    ensures (a + d) % TWO64 == 0 <==> a % TWO64 == b % TWO64
  {}

  lemma ShiftMod32(a: int, b: int, d: int)
    requires (b + d) % TWO32 == 0
    ensures (a + d) % TWO32 == 0 <==> a % TWO32 == b % TWO32
  {}
}
