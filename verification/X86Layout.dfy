/** What the copy loop leaves behind: consecutive units that tile the prefix, at most one of them with a relative
    operand, and everything within the bounds of the entry's buffers. */
module X86Layout {
  import opened Common
  import opened X86Code
  import opened X86Relocator

  /** Where unit `k` ends, in the source and in the copy. */
  function SrcEnd(c: Copy, k: nat): nat
    requires k < |c.units|
  {
    if k + 1 < |c.units| then c.units[k + 1].src else c.src
  }

  function DstEnd(c: Copy, k: nat): nat
    requires k < |c.units|
  {
    if k + 1 < |c.units| then c.units[k + 1].dst else |c.dst|
  }

  predicate CopiedRightly(env: Env, c: Copy, k: nat)
    requires k < |c.units|
  {
    var u, i := c.units[k], env.InsnAt(c.units[k].src);
    && i.Some?
    && SrcEnd(c, k) == u.src + i.value.size <= |env.code| && DstEnd(c, k) == u.dst + i.value.size <= |c.dst|
    && c.dst[u.dst..u.dst + i.value.size] == env.code[u.src..u.src + i.value.size]
    && i.value.Relative().size in {0, 32}
    && (i.value.Relative().size == 32 ==>
      k + 1 == |c.units| &&
      c.disp == Disp(i.value.Relative().addr, u.dst + i.value.size, u.dst + i.value.Relative().offset))
  }

  predicate RewrittenRightly(env: Env, c: Copy, k: nat)
    requires k < |c.units| && c.units[k].kind.GetPc?
  {
    var u, i := c.units[k], env.InsnAt(c.units[k].src);
    && env.mode == I386 && k + 1 == |c.units| && c.disp == NoDisp
    && i.Some? && u.src + 6 <= |env.code|
    && GetPcAt(env, u.src, i.value) == Some((u.kind.opcode, c.src - u.src))
    && u.dst + 5 == |c.dst| && c.dst[u.dst..] == [u.kind.opcode] + Le32(env.func + u.src + 5)
  }

  predicate UnitIsRight(env: Env, c: Copy, k: nat)
    requires k < |c.units|
  {
    var u := c.units[k];
    && u.src < REL2G_JUMP_SIZE && u.dst <= u.src < SrcEnd(c, k)
    && (if u.kind.Copied? then CopiedRightly(env, c, k) else RewrittenRightly(env, c, k))
  }

  /** The units tile source and copy without gaps, each is right, and disp[1] belongs to the last one. */
  predicate Tiled(env: Env, c: Copy) {
    && (if |c.units| == 0 then c.src == 0 && c.dst == [] else c.units[0].src == 0 && c.units[0].dst == 0)
    && (forall k :: 0 <= k < |c.units| ==> UnitIsRight(env, c, k))
    && |c.dst| <= c.src <= REL2G_JUMP_SIZE - 1 + MAX_INSN_LEN - 1
    && (c.disp != NoDisp ==>
      |c.units| > 0 && c.units[|c.units| - 1].kind.Copied?
      && env.InsnAt(c.units[|c.units| - 1].src).Some?
      && env.InsnAt(c.units[|c.units| - 1].src).value.Relative().size == 32)
  }

  /** While fewer than five bytes are covered, nothing has been recorded: an instruction with a 32-bit relative
      field has at least five bytes, and so have the rewritten idioms. */
  lemma NothingRecordedYet(env: Env, c: Copy)
    requires env.Valid() && Tiled(env, c) && c.src < REL2G_JUMP_SIZE
    ensures c.disp == NoDisp
    ensures forall k :: 0 <= k < |c.units| ==>
      c.units[k].kind.Copied? && env.InsnAt(c.units[k].src).Some?
        && env.InsnAt(c.units[k].src).value.Relative().size == 0
  {
    forall k | 0 <= k < |c.units|
      ensures c.units[k].kind.Copied? && env.InsnAt(c.units[k].src).Some?
        && env.InsnAt(c.units[k].src).value.Relative().size == 0
    {
      assert UnitIsRight(env, c, k);
      SrcEndBound(env, c, k);
    }
  }

  lemma SrcEndBound(env: Env, c: Copy, k: nat)
    requires Tiled(env, c) && k < |c.units|
    ensures SrcEnd(c, k) <= c.src
    decreases |c.units| - k
  {
    if k + 1 < |c.units| {
      assert UnitIsRight(env, c, k + 1);
      SrcEndBound(env, c, k + 1);
    }
  }

  /** A unit without a relative operand stays right when something is appended. */
  lemma OldUnitStaysRight(env: Env, c: Copy, d: Copy, k: nat)
    requires k < |c.units| && |d.units| == |c.units| + 1 && d.units[..|c.units|] == c.units
    requires |c.dst| <= |d.dst| && d.dst[..|c.dst|] == c.dst
    requires d.units[|c.units|].src == c.src && d.units[|c.units|].dst == |c.dst|
    requires UnitIsRight(env, c, k) && c.units[k].kind.Copied?
    requires env.InsnAt(c.units[k].src).Some? && env.InsnAt(c.units[k].src).value.Relative().size == 0
    ensures UnitIsRight(env, d, k)
  {
    var u, size := c.units[k], env.InsnAt(c.units[k].src).value.size;
    assert d.units[k] == u && SrcEnd(d, k) == SrcEnd(c, k) && DstEnd(d, k) == DstEnd(c, k);
    assert d.dst[u.dst..u.dst + size] == d.dst[..|c.dst|][u.dst..u.dst + size];
  }

  lemma OldUnitsStayRight(env: Env, c: Copy, d: Copy)
    requires env.Valid() && Tiled(env, c) && c.src < REL2G_JUMP_SIZE
    requires |d.units| == |c.units| + 1 && d.units[..|c.units|] == c.units
    requires |c.dst| <= |d.dst| && d.dst[..|c.dst|] == c.dst
    requires d.units[|c.units|].src == c.src && d.units[|c.units|].dst == |c.dst|
    ensures forall k :: 0 <= k < |c.units| ==> UnitIsRight(env, d, k)
    ensures d.units[0].src == 0 && d.units[0].dst == 0
  {
    NothingRecordedYet(env, c);
    forall k | 0 <= k < |c.units| ensures UnitIsRight(env, d, k) {
      assert UnitIsRight(env, c, k);
      hide UnitIsRight;
      OldUnitStaysRight(env, c, d, k);
    }
    hide UnitIsRight;
    if |c.units| > 0 { assert d.units[0] == c.units[0]; }
  }

  /** What a successful call of handle_rip_relative for both operands amounts to. */
  lemma CopyRecords(env: Env, c: Copy, insn: Insn)
    requires env.Valid() && c.src + insn.size <= |env.code| && c.disp == NoDisp
    requires env.InsnAt(c.src) == Some(insn) && CopyInsn(env, c, insn).Ok?
    ensures var d, rel := CopyInsn(env, c, insn).value, insn.Relative();
      && rel.size in {0, 32}
      && d.disp == if rel.size == 32 then Disp(rel.addr, |c.dst| + insn.size, |c.dst| + rel.offset) else NoDisp
  {
    hide Get32;
  }

  /** The state after a round, with one more unit. */
  ghost predicate Appends(c: Copy, d: Copy, kind: Kind) {
    && d.units == c.units + [Unit(c.src, |c.dst|, kind)]
    && |c.dst| <= |d.dst| && d.dst[..|c.dst|] == c.dst
  }

  lemma AppendTiles(env: Env, c: Copy, d: Copy, kind: Kind)
    requires env.Valid() && Tiled(env, c) && c.src < REL2G_JUMP_SIZE && Appends(c, d, kind)
    requires UnitIsRight(env, d, |c.units|) && |d.dst| <= d.src <= 19
    requires d.disp != NoDisp ==>
      kind.Copied? && env.InsnAt(c.src).Some? && env.InsnAt(c.src).value.Relative().size == 32
    ensures Tiled(env, d)
  {
    hide UnitIsRight;
    assert d.units[..|c.units|] == c.units;
    OldUnitsStayRight(env, c, d);
  }

  lemma CopiedUnitIsRight(env: Env, c: Copy, insn: Insn)
    requires env.Valid() && c.src < REL2G_JUMP_SIZE && c.disp == NoDisp && |c.dst| <= c.src
    requires env.InsnAt(c.src) == Some(insn) && CopyInsn(env, c, insn).Ok?
    ensures var d := CopyInsn(env, c, insn).value;
      && Appends(c, d, Copied) && UnitIsRight(env, d, |c.units|)
      && d.src == c.src + insn.size && |d.dst| == |c.dst| + insn.size && insn.size <= 15
      && (d.disp != NoDisp ==> insn.Relative().size == 32)
  {
    CopyRecords(env, c, insn);
    hide HandleRelative, RewrittenRightly;
    var d, n := CopyInsn(env, c, insn).value, |c.units|;
    assert d.dst[|c.dst|..|c.dst| + insn.size] == env.code[c.src..c.src + insn.size];
    assert d.units[n] == Unit(c.src, |c.dst|, Copied);
  }

  lemma CopyTiles(env: Env, c: Copy, insn: Insn)
    requires env.Valid() && Tiled(env, c) && c.src < REL2G_JUMP_SIZE
    requires env.InsnAt(c.src) == Some(insn) && CopyInsn(env, c, insn).Ok?
    ensures Tiled(env, CopyInsn(env, c, insn).value)
  {
    NothingRecordedYet(env, c);
    CopiedUnitIsRight(env, c, insn);
    hide CopyInsn, UnitIsRight;
    AppendTiles(env, c, CopyInsn(env, c, insn).value, Copied);
  }

  lemma RewrittenUnitIsRight(env: Env, c: Copy, insn: Insn)
    requires env.Valid() && c.src < REL2G_JUMP_SIZE && c.disp == NoDisp && |c.dst| <= c.src == c.pos
    requires env.InsnAt(c.src) == Some(insn) && GetPcAt(env, c.src, insn).Some?
    ensures var pc := GetPcAt(env, c.src, insn).value; var d := RewriteGetPc(env, c, insn, pc.0, pc.1);
      && Appends(c, d, GetPc(pc.0)) && UnitIsRight(env, d, |c.units|)
      && d.src == c.src + pc.1 && |d.dst| == |c.dst| + 5 && 5 <= pc.1 <= 6 && d.disp == NoDisp
  {
    var pc := GetPcAt(env, c.src, insn).value;
    assert env.mode == I386 && pc.1 in {5, 6};
    hide GetPcAt, CopiedRightly;
    var d, n := RewriteGetPc(env, c, insn, pc.0, pc.1), |c.units|;
    assert d.dst[|c.dst|..] == [pc.0] + Le32(env.func + c.src + 5);
    hide Le32;
    assert d.units[n] == Unit(c.src, |c.dst|, GetPc(pc.0));
  }

  lemma RewriteTiles(env: Env, c: Copy, insn: Insn)
    requires env.Valid() && Tiled(env, c) && c.src < REL2G_JUMP_SIZE && c.pos == c.src
    requires env.InsnAt(c.src) == Some(insn) && GetPcAt(env, c.src, insn).Some?
    ensures var pc := GetPcAt(env, c.src, insn).value; Tiled(env, RewriteGetPc(env, c, insn, pc.0, pc.1))
  {
    NothingRecordedYet(env, c);
    RewrittenUnitIsRight(env, c, insn);
    hide RewriteGetPc, UnitIsRight, GetPcAt;
    var pc := GetPcAt(env, c.src, insn).value;
    AppendTiles(env, c, RewriteGetPc(env, c, insn, pc.0, pc.1), GetPc(pc.0));
  }

  /** A rewritten idiom covers the patch, so it ends the loop. */
  lemma RewriteEnds(env: Env, c: Copy, insn: Insn)
    requires c.src + 6 <= |env.code| && GetPcAt(env, c.src, insn).Some?
    ensures var pc := GetPcAt(env, c.src, insn).value; RewriteGetPc(env, c, insn, pc.0, pc.1).src >= REL2G_JUMP_SIZE
  {}

  lemma CopyKeepsPace(env: Env, c: Copy, insn: Insn)
    requires c.src + insn.size <= |env.code| && c.pos == c.src && CopyInsn(env, c, insn).Ok?
    ensures CopyInsn(env, c, insn).value.pos == CopyInsn(env, c, insn).value.src
  {}

  /** The loop keeps the tiling. */
  lemma {:induction false} LoopTiles(env: Env, c: Copy)
    requires env.Valid() && c.pos == c.src && Tiled(env, c) && CopyLoop(env, c).Ok?
    ensures Tiled(env, CopyLoop(env, c).value)
    decreases REL2G_JUMP_SIZE - c.src
  {
    hide Tiled, GetPcAt, CopyInsn, RewriteGetPc;
    if c.src < REL2G_JUMP_SIZE && env.InsnAt(c.pos).Some? {
      var insn := env.InsnAt(c.pos).value;
      if GetPcAt(env, c.src, insn).Some? {
        RewriteTiles(env, c, insn);
        RewriteEnds(env, c, insn);
      } else {
        CopyTiles(env, c, insn);
        RoundProgress(env, c, insn);
        CopyKeepsPace(env, c, insn);
        var d := Round(env, c, insn).value;
        if d.src < REL2G_JUMP_SIZE { LoopTiles(env, d); }
      }
    }
  }

  lemma BeginIsTiled(env: Env)
    ensures Tiled(env, Begin())
  {}

  /** Every success leaves a tiled prefix, within the buffers of the entry. */
  lemma PreparedIsTiled(env: Env)
    requires env.Valid() && Prepare(env).Ok?
    ensures var p := Prepare(env).value;
      && Tiled(env, p.copy)
      && p.copy.src <= REL2G_JUMP_SIZE - 1 + MAX_INSN_LEN - 1
      && (p.size != 0 ==>
        && REL2G_JUMP_SIZE <= p.copy.src <= MAX_PATCH_CODE_SIZE
        && p.size == |p.copy.dst| + REL2G_JUMP_SIZE <= TRAMPOLINE_SIZE
        && p.disp0 == Disp(env.func + p.copy.src, p.size, p.size - 4))
      && (p.size == 0 ==> p.disp0 == NoDisp)
      && |Buffer(p)| == TRAMPOLINE_SIZE
  {
    hide CopyLoop, Tiled, FindsBackJump, PaddedWithNops;
    BeginIsTiled(env);
    LoopTiles(env, Begin());
    TiledBounds(env, CopyLoop(env, Begin()).value);
  }

  lemma TiledBounds(env: Env, c: Copy)
    requires Tiled(env, c)
    ensures |c.dst| <= c.src <= 19
  {}

  /** One relocation slot suffices: only the last unit can have a relative operand, so none that was recorded has
      been overwritten. */
  lemma OneSlotSuffices(env: Env, c: Copy, k: nat)
    requires Tiled(env, c) && k < |c.units| && c.units[k].kind.Copied?
    ensures var i := env.InsnAt(c.units[k].src);
      && i.Some? && i.value.Relative().size in {0, 32}
      && (i.value.Relative().size == 32 ==>
        k == |c.units| - 1
        && c.disp == Disp(i.value.Relative().addr, DstEnd(c, k), c.units[k].dst + i.value.Relative().offset))
      && (i.value.Relative().size == 0 && k == |c.units| - 1 ==> c.disp == NoDisp)
  {
    assert UnitIsRight(env, c, k);
  }

  /** In 64-bit mode the copy is verbatim. */
  lemma {:induction false} LoopIsVerbatim(env: Env, c: Copy)
    requires env.Valid() && env.mode == X64 && c.pos == c.src && CopyLoop(env, c).Ok?
    requires c.src <= |env.code| && c.dst == env.code[..c.src]
    ensures var d := CopyLoop(env, c).value; d.src <= |env.code| && d.dst == env.code[..d.src] && d.pos == d.src
    decreases REL2G_JUMP_SIZE - c.src
  {
    if c.src < REL2G_JUMP_SIZE && env.InsnAt(c.pos).Some? {
      var insn := env.InsnAt(c.pos).value;
      RoundProgress(env, c, insn);
      CopyIsVerbatim(env, c, insn);
      var d := Round(env, c, insn).value;
      if d.src < REL2G_JUMP_SIZE { LoopIsVerbatim(env, d); }
    }
  }

  lemma CopyIsVerbatim(env: Env, c: Copy, insn: Insn)
    requires c.src + insn.size <= |env.code| && c.dst == env.code[..c.src] && CopyInsn(env, c, insn).Ok?
    ensures var d := CopyInsn(env, c, insn).value; d.src == c.src + insn.size && d.dst == env.code[..d.src]
  {}

  // ---- the test for back jumps ----

  /** The instruction at `q` is one the scan behind the prefix looks at. */
  predicate Scanned(env: Env, pos: nat, q: nat)
    requires env.Valid()
    decreases |env.code| - pos
  {
    var insn := env.InsnAt(pos);
    insn.Some? && (q == pos || Scanned(env, pos + insn.value.size, q))
  }

  lemma {:induction false} ScanIsComplete(env: Env, pos: nat, q: nat)
    requires env.Valid() && !FindsBackJump(env, pos) && Scanned(env, pos, q)
    ensures env.InsnAt(q).Some? && !InsidePatchedJump(env, env.InsnAt(q).value.imm.addr)
    decreases |env.code| - pos
  {
    if q != pos { ScanIsComplete(env, pos + env.InsnAt(pos).value.size, q); }
  }

  /** Testing five bytes is enough, though more are overwritten: after a success no scanned branch leads to an
      instruction of the prefix other than its first. */
  lemma BackJumpTestSuffices(env: Env, q: nat, k: nat)
    requires env.Valid() && Prepare(env).Ok? && Prepare(env).value.size != 0
    requires Scanned(env, Prepare(env).value.copy.pos, q)
    requires 0 < k < |Prepare(env).value.copy.units|
    ensures env.InsnAt(q).Some?
    ensures env.InsnAt(q).value.imm.addr != env.func + Prepare(env).value.copy.units[k].src
  {
    var c := Prepare(env).value.copy;
    PreparedIsTiled(env);
    ScanIsComplete(env, c.pos, q);
    assert UnitIsRight(env, c, k) && UnitIsRight(env, c, 0);
    UnitsAdvance(env, c, k);
  }

  lemma UnitsAdvance(env: Env, c: Copy, k: nat)
    requires Tiled(env, c) && 0 < k < |c.units|
    ensures 0 < c.units[k].src < REL2G_JUMP_SIZE
  {
    assert UnitIsRight(env, c, k - 1) && UnitIsRight(env, c, k);
  }
}
