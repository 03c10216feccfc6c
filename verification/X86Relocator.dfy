/** funchook_make_trampoline of src/arch_x86.c: whole instructions are copied until five bytes are covered. */
module X86Relocator {
  import opened Common
  import opened X86Code

  const MAX_INSN_LEN := 16
  const MAX_INSN_CHECK_SIZE := 256
  const REL2G_JUMP_SIZE := 5
  const TRAMPOLINE_SIZE := REL2G_JUMP_SIZE + (MAX_INSN_LEN - 1) + REL2G_JUMP_SIZE
  const MAX_PATCH_CODE_SIZE := REL2G_JUMP_SIZE + MAX_INSN_LEN - 1

  /** The function to hook: its address, the window of bytes given to the disassembler, where the disassembler stops,
      and the 32-bit words of memory elsewhere, where the target of a call may be looked at. A disassembler may stop
      in front of bytes it could decode, such as those behind a return. */
  datatype Env = Env(mode: Mode, dec: Decoder, func: int, code: seq<byte>, stop: nat, load32: int -> int) {
    ghost predicate Valid() {
      Trusted(dec, mode) && |code| == MAX_INSN_CHECK_SIZE && 0 < func && func + MAX_INSN_CHECK_SIZE <= Space(mode)
    }

    function InsnAt(pos: nat): Option<Insn> {
      if pos < stop && pos <= |code| then dec(code[pos..], func + pos) else None
    }
  }

  lemma InsnIsBounded(env: Env, pos: nat)
    requires env.Valid() && env.InsnAt(pos).Some?
    ensures 1 <= env.InsnAt(pos).value.size <= 15 && pos + env.InsnAt(pos).value.size <= |env.code|
  {}

  /** ip_displacement_entry_t; all zero when nothing has been recorded. */
  datatype Disp = Disp(dst: int, srcOffset: int, posOffset: int)

  const NoDisp := Disp(0, 0, 0)

  /** What one round of the loop has turned some source bytes into. The opcode is that of mov imm32,reg. */
  datatype Kind = Copied | GetPc(opcode: byte)

  datatype Unit = Unit(src: nat, dst: nat, kind: Kind)

  /** The state of the copy loop: how far source and disassembler are, what has been emitted, disp[1]. */
  datatype Copy = Copy(src: nat, pos: nat, dst: seq<byte>, disp: Disp, units: seq<Unit>)

  function Begin(): Copy { Copy(0, 0, [], NoDisp, []) }

  // ---- the get-pc idioms of position-independent i386 code ----

  /** mov (%esp),%reg; ret, as the four bytes a call may lead to. */
  function ThunkOpcode(first4: int): Option<byte> {
    if first4 == 0xC324_048B then Some(0xB8)
    else if first4 == 0xC324_1C8B then Some(0xBB)
    else if first4 == 0xC324_0C8B then Some(0xB9)
    else if first4 == 0xC324_148B then Some(0xBA)
    else if first4 == 0xC324_348B then Some(0xBE)
    else if first4 == 0xC324_3C8B then Some(0xBF)
    else if first4 == 0xC324_2C8B then Some(0xBD)
    else None
  }

  /** pop %reg. */
  function PopOpcode(b: byte): Option<byte> {
    if b == 0x58 then Some(0xB8)
    else if b == 0x5B then Some(0xBB)
    else if b == 0x59 then Some(0xB9)
    else if b == 0x5A then Some(0xBA)
    else if b == 0x5E then Some(0xBE)
    else if b == 0x5F then Some(0xBF)
    else if b == 0x5D then Some(0xBD)
    else None
  }

  /** The rewriting that applies to the call at `src`: its mov opcode and the number of source bytes replaced. */
  function GetPcAt(env: Env, src: nat, insn: Insn): Option<(byte, nat)>
    requires src + 6 <= |env.code|
  {
    if env.mode == X64 || env.code[src] != CALL then None
    else if ThunkOpcode(env.load32(insn.imm.addr)).Some? then Some((ThunkOpcode(env.load32(insn.imm.addr)).value, 5))
    else if Get32(env.code, src + 1) == 0 && PopOpcode(env.code[src + 5]).Some? then
      Some((PopOpcode(env.code[src + 5]).value, 6))
    else None
  }

  // ---- one round ----

  /** handle_rip_relative, for the instruction bytes `bytes` copied to `at`. */
  function HandleRelative(d: Disp, rel: Rel, bytes: seq<byte>, at: nat): Result<Disp> {
    if rel.size == 32 then
      if rel.offset < 0 || rel.offset + 4 > |bytes| || Get32(bytes, rel.offset) != rel.raddr % TWO32
      then Err(IP_RELATIVE_OFFSET)
      else Ok(Disp(rel.addr, at + |bytes|, at + rel.offset))
    else if rel.size != 0 then Err(CANNOT_FIX_IP_RELATIVE)
    else Ok(d)
  }

  function CopyInsn(env: Env, c: Copy, insn: Insn): Result<Copy>
    requires c.src + insn.size <= |env.code|
  {
    var bytes := env.code[c.src..c.src + insn.size];
    var d := HandleRelative(c.disp, insn.disp, bytes, |c.dst|);
    if d.Err? then Err(d.code)
    else
      var d' := HandleRelative(d.value, insn.imm, bytes, |c.dst|);
      if d'.Err? then Err(d'.code)
      else
        Ok(Copy(c.src + insn.size, c.pos + insn.size, c.dst + bytes, d'.value,
                c.units + [Unit(c.src, |c.dst|, Copied)]))
  }

  /** mov $eip,%reg instead of the idiom; after a call and pop, the disassembler also steps over the pop. */
  function RewriteGetPc(env: Env, c: Copy, insn: Insn, opcode: byte, replaced: nat): Copy {
    var eip := env.func + c.pos + 5;
    var after := c.pos + insn.size;
    var pop := env.InsnAt(after);
    Copy(c.src + replaced, if replaced == 6 && pop.Some? then after + pop.value.size else after,
         c.dst + [opcode] + Le32(eip), c.disp, c.units + [Unit(c.src, |c.dst|, GetPc(opcode))])
  }

  function Round(env: Env, c: Copy, insn: Insn): (r: Result<Copy>)
    requires c.src < REL2G_JUMP_SIZE && |env.code| == MAX_INSN_CHECK_SIZE && insn.size <= 15
  {
    var pc := GetPcAt(env, c.src, insn);
    if pc.Some? then Ok(RewriteGetPc(env, c, insn, pc.value.0, pc.value.1)) else CopyInsn(env, c, insn)
  }

  lemma RoundProgress(env: Env, c: Copy, insn: Insn)
    requires c.src < REL2G_JUMP_SIZE && |env.code| == MAX_INSN_CHECK_SIZE && 1 <= insn.size <= 15
    requires Round(env, c, insn).Ok?
    ensures c.src < Round(env, c, insn).value.src
  {}

  /** The loop, from any state: it ends when five bytes are covered or no instruction follows. */
  function CopyLoop(env: Env, c: Copy): Result<Copy>
    requires env.Valid() && c.pos == c.src
    decreases REL2G_JUMP_SIZE - c.src
  {
    if c.src >= REL2G_JUMP_SIZE then Ok(c)
    else
      var insn := env.InsnAt(c.pos);
      if insn.None? then Ok(c)
      else
        var r := Round(env, c, insn.value);
        if r.Err? then r
        else
          RoundProgress(env, c, insn.value);
          if r.value.src >= REL2G_JUMP_SIZE then r else CopyLoop(env, r.value)
  }

  predicate InsidePatchedJump(env: Env, addr: int) { env.func < addr < env.func + REL2G_JUMP_SIZE }

  /** The scan behind the prefix for branches into the first five bytes. */
  function FindsBackJump(env: Env, pos: nat): bool
    requires env.Valid()
    decreases |env.code| - pos
  {
    var insn := env.InsnAt(pos);
    insn.Some? && (InsidePatchedJump(env, insn.value.imm.addr) || FindsBackJump(env, pos + insn.value.size))
  }

  /** A finished translation: the loop's result, the size of the trampoline and disp[0], both zero when the
      function ended before five bytes were covered. */
  datatype Prepared = Prepared(copy: Copy, size: nat, disp0: Disp)

  predicate PaddedWithNops(env: Env, src: nat) {
    |env.code| >= REL2G_JUMP_SIZE && forall k :: src <= k < REL2G_JUMP_SIZE ==> env.code[k] == NOP
  }

  function Prepare(env: Env): Result<Prepared>
    requires env.Valid()
  {
    if env.InsnAt(0).None? then Err(DISASSEMBLY)
    else
      var r := CopyLoop(env, Begin());
      if r.Err? then Err(r.code)
      else
        var c := r.value;
        if c.src >= REL2G_JUMP_SIZE then
          if FindsBackJump(env, c.pos) then Err(FOUND_BACK_JUMP)
          else Ok(Prepared(c, |c.dst| + 5, Disp(env.func + c.src, |c.dst| + 5, |c.dst| + 1)))
        else if PaddedWithNops(env, c.src) then Ok(Prepared(c, 0, NoDisp))
        else Err(TOO_SHORT_INSTRUCTIONS)
  }

  /** The trampoline buffer: the copy, the opcode of the jump back, NOPs. */
  function Buffer(p: Prepared): seq<byte> {
    var used := p.copy.dst + if p.size != 0 then [JMP] else [];
    used + if |used| <= TRAMPOLINE_SIZE then seq(TRAMPOLINE_SIZE - |used|, _ => NOP) else []
  }
}
