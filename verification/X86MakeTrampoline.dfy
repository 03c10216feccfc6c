/** The loops of funchook_make_trampoline over its buffer, proved against the relocation function. */
module X86MakeTrampoline {
  import opened Common
  import opened X86Code
  import opened X86Relocator
  import opened X86Layout

  /** memcpy into the trampoline. */
  method Store(out: array<byte>, at: nat, bytes: seq<byte>)
    requires at + |bytes| <= out.Length
    modifies out
    ensures out[..] == old(out[..at]) + bytes + old(out[at + |bytes|..])
  {
    for k := 0 to |bytes|
      invariant out[..] == old(out[..at]) + bytes[..k] + old(out[at + k..])
    {
      out[at + k] := bytes[k];
    }
  }

  /** The scan for back jumps. */
  method ScanBackJumps(env: Env, start: nat) returns (found: bool)
    requires env.Valid()
    ensures found == FindsBackJump(env, start)
  {
    hide Trusted;
    var pos := start;
    var insn := env.InsnAt(pos);
    while insn.Some?
      invariant insn == env.InsnAt(pos)
      invariant FindsBackJump(env, start) == FindsBackJump(env, pos)
      decreases |env.code| - pos
    {
      if InsidePatchedJump(env, insn.value.imm.addr) { return true; }
      InsnIsBounded(env, pos);
      pos := pos + insn.value.size;
      insn := env.InsnAt(pos);
    }
    return false;
  }

  /** The NOPs that may follow a short function. */
  method SkipNops(env: Env, start: nat) returns (ok: bool)
    requires env.Valid() && start < REL2G_JUMP_SIZE
    ensures ok == PaddedWithNops(env, start)
  {
    var src := start;
    while src < REL2G_JUMP_SIZE
      invariant start <= src <= REL2G_JUMP_SIZE
      invariant forall k :: start <= k < src ==> env.code[k] == NOP
    {
      if env.code[src] != NOP { return false; }
      src := src + 1;
    }
    return true;
  }

  /** NOPs behind what has been copied. */
  function Filled(dst: seq<byte>): seq<byte>
    requires |dst| <= TRAMPOLINE_SIZE
  {
    dst + seq(TRAMPOLINE_SIZE - |dst|, _ => NOP)
  }

  /** memcpy behind what has been copied. */
  method Append(out: array<byte>, ghost dst: seq<byte>, at: nat, bytes: seq<byte>)
    requires out.Length == TRAMPOLINE_SIZE && at == |dst| && at + |bytes| <= TRAMPOLINE_SIZE && out[..] == Filled(dst)
    modifies out
    ensures out[..] == Filled(dst + bytes)
  {
    Store(out, at, bytes);
  }

  /** One round of the loop: the two idioms, or the instruction as it is. */
  method CopyRound(env: Env, out: array<byte>, c: Copy, insn: Insn) returns (rv: int, c': Copy)
    requires env.Valid() && c.src < REL2G_JUMP_SIZE && |c.dst| <= c.src && insn.size <= 15
    requires out.Length == TRAMPOLINE_SIZE && out[..] == Filled(c.dst)
    modifies out
    ensures var r := Round(env, c, insn);
      if r.Err? then rv == r.code && rv != SUCCESS else rv == SUCCESS && c' == r.value && out[..] == Filled(c'.dst)
  {
    hide Trusted, ThunkOpcode, PopOpcode, Filled, Get32, Le32;
    rv, c' := SUCCESS, c;
    var src, dst, after := c.src, |c.dst|, c.pos + insn.size;
    if env.mode != X64 && env.code[src] == CALL {
      var eip := env.func + c.pos + 5;
      var thunk := ThunkOpcode(env.load32(insn.imm.addr));
      if thunk.Some? {
        var mov := [thunk.value] + Le32(eip);
        Append(out, c.dst, dst, mov);
        assert c.dst + mov == c.dst + [thunk.value] + Le32(eip);
        c' := Copy(src + 5, after, c.dst + mov, c.disp, c.units + [Unit(src, dst, GetPc(thunk.value))]);
        return;
      }
      var pop := PopOpcode(env.code[src + 5]);
      if Get32(env.code, src + 1) == 0 && pop.Some? {
        var mov := [pop.value] + Le32(eip);
        Append(out, c.dst, dst, mov);
        assert c.dst + mov == c.dst + [pop.value] + Le32(eip);
        var next := env.InsnAt(after);
        if next.Some? { after := after + next.value.size; }
        c' := Copy(src + 6, after, c.dst + mov, c.disp, c.units + [Unit(src, dst, GetPc(pop.value))]);
        return;
      }
    }
    var bytes := env.code[src..src + insn.size];
    Append(out, c.dst, dst, bytes);
    var disp := HandleRelative(c.disp, insn.disp, bytes, dst);
    if disp.Err? { return disp.code, c; }
    disp := HandleRelative(disp.value, insn.imm, bytes, dst);
    if disp.Err? { return disp.code, c; }
    c' := Copy(src + insn.size, after, c.dst + bytes, disp.value, c.units + [Unit(src, dst, Copied)]);
  }

  /** The copy loop. */
  method CopyPrefix(env: Env, out: array<byte>) returns (rv: int, c: Copy)
    requires env.Valid() && out.Length == TRAMPOLINE_SIZE && out[..] == Filled([])
    modifies out
    ensures var r := CopyLoop(env, Begin());
      if r.Err? then rv == r.code && rv != SUCCESS
      else rv == SUCCESS && r == Ok(c) && Tiled(env, c) && |c.dst| <= c.src <= 19 && out[..] == Filled(c.dst)
  {
    hide Tiled, GetPcAt, RewriteGetPc, HandleRelative;
    BeginIsTiled(env);
    c := Begin();
    var insn := env.InsnAt(0);
    while insn.Some? && c.src < REL2G_JUMP_SIZE
      invariant insn == env.InsnAt(c.pos) && Tiled(env, c) && |c.dst| <= c.src <= 19
      invariant c.src < REL2G_JUMP_SIZE ==> c.pos == c.src && CopyLoop(env, Begin()) == CopyLoop(env, c)
      invariant c.src >= REL2G_JUMP_SIZE ==> CopyLoop(env, Begin()) == Ok(c)
      invariant out[..] == Filled(c.dst)
      decreases REL2G_JUMP_SIZE - c.src
    {
      InsnIsBounded(env, c.pos);
      if Round(env, c, insn.value).Ok? {
        RoundProgress(env, c, insn.value);
        RoundAppends(env, c, insn.value);
      }
      rv, c := CopyRound(env, out, c, insn.value);
      if rv != SUCCESS { return; }
      insn := env.InsnAt(c.pos);
    }
    rv := SUCCESS;
  }

  /** The result, the buffer and the displacements to be fixed. */
  method MakeTrampoline(env: Env, out: array<byte>) returns (rv: int, disp0: Disp, disp1: Disp, size: nat)
    requires env.Valid() && out.Length == TRAMPOLINE_SIZE
    modifies out
    ensures rv == if Prepare(env).Ok? then SUCCESS else Prepare(env).code
    ensures rv == SUCCESS <==> Prepare(env).Ok?
    ensures Prepare(env).Ok? ==>
      var p := Prepare(env).value;
      out[..] == Buffer(p) && disp0 == p.disp0 && disp1 == p.copy.disp && size == p.size
  {
    hide Tiled, FindsBackJump, PaddedWithNops, CopyLoop;
    for k := 0 to TRAMPOLINE_SIZE
      invariant forall i :: 0 <= i < k ==> out[i] == NOP
    {
      out[k] := NOP;
    }
    disp0, disp1, size := NoDisp, NoDisp, 0;
    var insn := env.InsnAt(0);
    if insn.None? { return DISASSEMBLY, disp0, disp1, size; }
    var c;
    rv, c := CopyPrefix(env, out);
    if rv != SUCCESS { return; }
    disp1 := c.disp;
    if c.src >= REL2G_JUMP_SIZE {
      out[|c.dst|] := JMP;
      disp0 := Disp(env.func + c.src, |c.dst| + 5, |c.dst| + 1);
      size := |c.dst| + 5;
      assert out[..] == Buffer(Prepared(c, size, disp0));
      var found := ScanBackJumps(env, c.pos);
      rv := if found then FOUND_BACK_JUMP else SUCCESS;
    } else {
      var nops := SkipNops(env, c.src);
      assert out[..] == Buffer(Prepared(c, 0, NoDisp));
      rv := if nops then SUCCESS else TOO_SHORT_INSTRUCTIONS;
    }
  }

  lemma RoundAppends(env: Env, c: Copy, insn: Insn)
    requires env.Valid() && Tiled(env, c) && c.src < REL2G_JUMP_SIZE && c.pos == c.src
    requires env.InsnAt(c.src) == Some(insn) && Round(env, c, insn).Ok?
    ensures var d := Round(env, c, insn).value;
      && Tiled(env, d) && |c.dst| <= |d.dst| <= d.src <= 19 && d.dst[..|c.dst|] == c.dst
      && (d.src < REL2G_JUMP_SIZE ==> d.pos == d.src)
  {
    if GetPcAt(env, c.src, insn).Some? {
      RewriteTiles(env, c, insn);
      RewriteEnds(env, c, insn);
    } else {
      CopyTiles(env, c, insn);
      CopyKeepsPace(env, c, insn);
    }
    hide GetPcAt, HandleRelative;
  }
}
