/** What the x86 translator answers: for every function, success and each result code by conditions on the
    instructions the disassembler reports, and exactly which get-pc idioms are rewritten. */
module X86Outcomes {
  import opened Common
  import opened X86Code
  import opened X86Relocator
  import opened X86Layout

  // ---- the get-pc idioms ----

  predicate IsRegister(reg: int) { 0 <= reg < 8 && reg != ESP }

  /** mov (%esp),%reg; ret, as a 32-bit word. */
  function ThunkWord(reg: int): int { 0xC324_048B + 0x800 * reg }

  lemma ThunkWordIsThunk(reg: int, code: seq<byte>)
    requires IsRegister(reg) && |code| == 4
    ensures Get32(code, 0) == ThunkWord(reg) <==> code == [0x8B, 4 + 8 * reg, 0x24, 0xC3]
  {
    var b0: int, b1: int, b2: int, b3: int := code[0], code[1], code[2], code[3];
    assert Get32(code, 0) == b0 + 256 * b1 + 0x1_0000 * b2 + 0x100_0000 * b3;
    assert ThunkWord(reg) == 0x8B + 256 * (4 + 8 * reg) + 0x1_0000 * 0x24 + 0x100_0000 * 0xC3;
  }

  /** The table has every thunk, for every register but the stack pointer, and nothing else. */
  lemma EveryThunkIsKnown(first4: int, opcode: byte)
    ensures ThunkOpcode(first4) == Some(opcode)
      <==> IsRegister(opcode - 0xB8) && first4 == ThunkWord(opcode - 0xB8)
  {}

  /** The same for the pops. */
  lemma EveryPopIsKnown(b: byte, opcode: byte)
    ensures PopOpcode(b) == Some(opcode) <==> IsRegister(opcode - 0xB8) && b == 0x58 + (opcode - 0xB8)
  {}

  /** A call of a thunk that moves the return address to the register. */
  predicate CallsThunk(env: Env, src: nat, insn: Insn, reg: int)
    requires src < |env.code|
  {
    env.mode == I386 && env.code[src] == 0xE8 && IsRegister(reg) && env.load32(insn.imm.addr) == ThunkWord(reg)
  }

  /** A call of the next instruction, which pops the return address into the register. */
  predicate CallsAndPops(env: Env, src: nat, reg: int)
    requires src + 6 <= |env.code|
  {
    && env.mode == I386 && env.code[src] == 0xE8 && env.code[src + 1..src + 5] == [0, 0, 0, 0]
    && IsRegister(reg) && env.code[src + 5] == 0x58 + reg
  }

  lemma ZeroField(code: seq<byte>, off: nat)
    requires off + 4 <= |code|
    ensures Get32(code, off) == 0 <==> code[off..off + 4] == [0, 0, 0, 0]
  {
    assert code[off..off + 4] == [code[off], code[off + 1], code[off + 2], code[off + 3]];
  }

  /** The rewriting replaces `n` bytes by a mov to this register. */
  predicate RewritesTo(pc: Option<(byte, nat)>, reg: int, n: nat) {
    pc.Some? && pc.value.0 == 0xB8 + reg && pc.value.1 == n
  }

  /** Which calls are rewritten, into a mov to which register, and how many bytes are replaced. */
  lemma GetPcExactly(env: Env, src: nat, insn: Insn, reg: int)
    requires src + 6 <= |env.code| && IsRegister(reg)
    ensures var pc := GetPcAt(env, src, insn);
      && (RewritesTo(pc, reg, 5) <==> CallsThunk(env, src, insn, reg))
      && (RewritesTo(pc, reg, 6) <==> CallsAndPops(env, src, reg) && forall r :: !CallsThunk(env, src, insn, r))
      && (pc.Some? ==> exists r :: IsRegister(r) && (RewritesTo(pc, r, 5) || RewritesTo(pc, r, 6)))
  {
    ZeroField(env.code, src + 1);
    var first4, b := env.load32(insn.imm.addr), env.code[src + 5];
    var pc := GetPcAt(env, src, insn);
    EveryThunkIsKnown(first4, 0xB8 + reg);
    EveryPopIsKnown(b, 0xB8 + reg);
    if ThunkOpcode(first4).Some? {
      EveryThunkIsKnown(first4, ThunkOpcode(first4).value);
    } else {
      forall r | IsRegister(r) ensures first4 != ThunkWord(r) { EveryThunkIsKnown(first4, 0xB8 + r); }
    }
    if PopOpcode(b).Some? { EveryPopIsKnown(b, PopOpcode(b).value); }
    hide ThunkOpcode, PopOpcode, ThunkWord, Get32;
    if pc.Some? { assert IsRegister(pc.value.0 - 0xB8) && RewritesTo(pc, pc.value.0 - 0xB8, pc.value.1); }
    if env.mode == I386 && env.code[src] == 0xE8 && ThunkOpcode(first4).Some? {
      assert CallsThunk(env, src, insn, ThunkOpcode(first4).value - 0xB8);
    }
  }

  // ---- the instructions of the prefix ----

  /** The instruction at `p` is the call of one of the idioms. */
  ghost predicate IsGetPc(env: Env, p: nat)
    requires p + 6 <= |env.code| && env.InsnAt(p).Some?
  {
    exists reg :: CallsThunk(env, p, env.InsnAt(p).value, reg) || CallsAndPops(env, p, reg)
  }

  lemma GetPcIffIdiom(env: Env, p: nat)
    requires p + 6 <= |env.code| && env.InsnAt(p).Some?
    ensures GetPcAt(env, p, env.InsnAt(p).value).Some? <==> IsGetPc(env, p)
  {
    var insn := env.InsnAt(p).value;
    hide GetPcAt;
    if GetPcAt(env, p, insn).Some? {
      GetPcExactly(env, p, insn, 0);
      var pc := GetPcAt(env, p, insn);
      var r :| IsRegister(r) && (RewritesTo(pc, r, 5) || RewritesTo(pc, r, 6));
      GetPcExactly(env, p, insn, r);
    }
    if IsGetPc(env, p) {
      var reg :| CallsThunk(env, p, insn, reg) || CallsAndPops(env, p, reg);
      GetPcExactly(env, p, insn, reg);
      if r :| CallsThunk(env, p, insn, r) { GetPcExactly(env, p, insn, r); }
    }
  }

  /** Copied units are no idioms. */
  ghost predicate NoIdiomCopied(env: Env, c: Copy) {
    forall k :: 0 <= k < |c.units| && c.units[k].kind.Copied? ==>
      c.units[k].src + 6 <= |env.code| && (env.InsnAt(c.units[k].src).Some? ==> !IsGetPc(env, c.units[k].src))
  }

  lemma {:induction false} LoopCopiesNoIdiom(env: Env, c: Copy)
    requires env.Valid() && c.pos == c.src && CopyLoop(env, c).Ok? && NoIdiomCopied(env, c)
    ensures NoIdiomCopied(env, CopyLoop(env, c).value)
    decreases REL2G_JUMP_SIZE - c.src
  {
    hide Trusted, HandleRelative, IsGetPc, ThunkOpcode, PopOpcode;
    if c.src < REL2G_JUMP_SIZE && env.InsnAt(c.pos).Some? {
      var insn := env.InsnAt(c.pos).value;
      InsnIsBounded(env, c.pos);
      RoundProgress(env, c, insn);
      GetPcIffIdiom(env, c.pos);
      if Round(env, c, insn).Ok? && Round(env, c, insn).value.src < REL2G_JUMP_SIZE {
        LoopCopiesNoIdiom(env, Round(env, c, insn).value);
      }
    }
  }

  /** In every success, every call of a known thunk and every call of a pop behind it has been rewritten. */
  lemma IdiomsAreRewritten(env: Env, k: nat)
    requires env.Valid() && Prepare(env).Ok? && k < |Prepare(env).value.copy.units|
    ensures var u := Prepare(env).value.copy.units[k];
      u.src + 6 <= |env.code| && env.InsnAt(u.src).Some? && (u.kind.Copied? ==> !IsGetPc(env, u.src))
  {
    var c := Prepare(env).value.copy;
    PreparedIsTiled(env);
    assert UnitIsRight(env, c, k);
    LoopCopiesNoIdiom(env, Begin());
  }

  /** An instruction with a relative operand that is not 32 bits wide. */
  predicate CannotBeMoved(i: Insn) { i.disp.size !in {0, 32} || i.imm.size !in {0, 32} }

  /** The translation does not go on behind the instruction at `p`: there is none, it cannot be moved, it is part of
      an idiom, or it ends behind the first five bytes. */
  ghost predicate IsLast(env: Env, p: nat)
    requires env.Valid() && p < REL2G_JUMP_SIZE
  {
    var insn := env.InsnAt(p);
    insn.None? || IsGetPc(env, p) || CannotBeMoved(insn.value) || p + insn.value.size >= REL2G_JUMP_SIZE
  }

  /** Where the `n`-th instruction of the prefix is. */
  ghost function Boundary(env: Env, n: nat): (p: Option<nat>)
    requires env.Valid()
    ensures p.Some? ==> n <= p.value < REL2G_JUMP_SIZE
  {
    if n == 0 then Some(0)
    else
      var p := Boundary(env, n - 1);
      if p.None? || IsLast(env, p.value) then None
      else
        InsnIsBounded(env, p.value);
        Some(p.value + env.InsnAt(p.value).value.size)
  }

  /** The prefix ends with the instruction, or without one, at `p`. */
  ghost predicate EndsAt(env: Env, p: nat)
    requires env.Valid()
  {
    exists n: nat :: Boundary(env, n) == Some(p) && IsLast(env, p)
  }

  lemma {:induction false} NothingBehind(env: Env, n: nat, m: nat)
    requires env.Valid() && Boundary(env, n).None? && n <= m
    ensures Boundary(env, m).None?
    decreases m
  {
    if n < m { NothingBehind(env, n, m - 1); }
  }

  lemma LastHasNoNext(env: Env, n: nat)
    requires env.Valid() && Boundary(env, n).Some? && IsLast(env, Boundary(env, n).value)
    ensures Boundary(env, n + 1).None?
  {
    hide IsLast, Trusted;
  }

  lemma NothingBehindLast(env: Env, n: nat, m: nat)
    requires env.Valid() && Boundary(env, n).Some? && IsLast(env, Boundary(env, n).value)
    ensures n < m ==> Boundary(env, m).None?
  {
    hide IsLast, Trusted, Boundary;
    LastHasNoNext(env, n);
    if n < m { NothingBehind(env, n + 1, m); }
  }

  lemma OneLast(env: Env, n: nat, m: nat)
    requires env.Valid() && Boundary(env, n).Some? && Boundary(env, m).Some?
    requires IsLast(env, Boundary(env, n).value) && IsLast(env, Boundary(env, m).value)
    ensures n == m
  {
    hide IsLast, Trusted, Boundary;
    NothingBehindLast(env, n, m);
    NothingBehindLast(env, m, n);
  }

  lemma OneEnd(env: Env, p: nat, q: nat)
    requires env.Valid() && EndsAt(env, p) && EndsAt(env, q)
    ensures p == q
  {
    hide IsLast, Trusted, Boundary;
    var n: nat :| Boundary(env, n) == Some(p) && IsLast(env, p);
    var m: nat :| Boundary(env, m) == Some(q) && IsLast(env, q);
    OneLast(env, n, m);
  }

  // ---- how it ends ----

  /** No instruction is reported at `p`. */
  ghost predicate EndsShort(env: Env, p: nat)
    requires env.Valid()
  {
    EndsAt(env, p) && env.InsnAt(p).None?
  }

  ghost predicate EndsBadly(env: Env, p: nat)
    requires env.Valid()
  {
    EndsAt(env, p) && env.InsnAt(p).Some? && !IsGetPc(env, p) && CannotBeMoved(env.InsnAt(p).value)
  }

  /** Five bytes are covered, and the disassembler is at `pos`: behind the last instruction; behind a pop as well. */
  ghost predicate CoversUpTo(env: Env, p: nat, pos: nat)
    requires env.Valid()
  {
    EndsAt(env, p) && env.InsnAt(p).Some? && (IsGetPc(env, p) || !CannotBeMoved(env.InsnAt(p).value)) &&
    var next := p + env.InsnAt(p).value.size;
    var pops := IsGetPc(env, p) && forall r :: !CallsThunk(env, p, env.InsnAt(p).value, r);
    pos == if pops && env.InsnAt(next).Some? then next + env.InsnAt(next).value.size else next
  }

  /** The scan from `pos` on meets an instruction that refers to the inside of the first five bytes. */
  ghost predicate RefersBack(env: Env, pos: nat)
    requires env.Valid()
  {
    exists q: nat :: Scanned(env, pos, q) && env.InsnAt(q).Some?
      && env.func < env.InsnAt(q).value.imm.addr < env.func + 5
  }

  lemma {:induction false} ScanExactly(env: Env, pos: nat)
    requires env.Valid()
    ensures FindsBackJump(env, pos) <==> RefersBack(env, pos)
    decreases |env.code| - pos
  {
    hide Trusted;
    var insn := env.InsnAt(pos);
    if insn.Some? {
      InsnIsBounded(env, pos);
      var next := pos + insn.value.size;
      ScanExactly(env, next);
      if InsidePatchedJump(env, insn.value.imm.addr) { assert Scanned(env, pos, pos); }
      if RefersBack(env, next) {
        var q: nat :| Scanned(env, next, q) && env.InsnAt(q).Some?
          && env.func < env.InsnAt(q).value.imm.addr < env.func + 5;
        assert Scanned(env, pos, q);
      }
      if RefersBack(env, pos) {
        var q: nat :| Scanned(env, pos, q) && env.InsnAt(q).Some?
          && env.func < env.InsnAt(q).value.imm.addr < env.func + 5;
        assert q == pos || Scanned(env, next, q);
      }
    }
  }

  // ---- one instruction ----

  lemma RelativeExactly(d: Disp, rel: Rel, size: nat, code: seq<byte>, at: int, space: int, dst: nat)
    requires size <= |code| && space > 0 && WellFormedRel(rel, size, code, at, space)
    ensures var r := HandleRelative(d, rel, code[..size], dst);
      if rel.size in {0, 32} then r.Ok? else r == Err(CANNOT_FIX_IP_RELATIVE)
  {
    if rel.size == 32 { SliceField(code, size, rel.offset); }
    hide Get32;
  }

  lemma SliceField(code: seq<byte>, size: nat, off: nat)
    requires off + 4 <= size <= |code|
    ensures Get32(code[..size], off) == Get32(code, off)
  {}

  lemma CopyExactly(env: Env, c: Copy)
    requires env.Valid() && c.pos == c.src < REL2G_JUMP_SIZE && env.InsnAt(c.pos).Some?
    ensures var insn := env.InsnAt(c.pos).value;
      && c.src + insn.size <= |env.code|
      && var r := CopyInsn(env, c, insn);
        if CannotBeMoved(insn) then r == Err(CANNOT_FIX_IP_RELATIVE)
        else r.Ok? && r.value.src == r.value.pos == c.src + insn.size
  {
    InsnIsBounded(env, c.pos);
    var insn := env.InsnAt(c.pos).value;
    var code := env.code[c.pos..];
    var at := env.func + c.pos;
    assert WellFormed(insn, code, at, Space(env.mode));
    assert code[..insn.size] == env.code[c.src..c.src + insn.size];
    hide Trusted, Get32, HandleRelative, WellFormedRel;
    RelativeExactly(c.disp, insn.disp, insn.size, code, at, Space(env.mode), |c.dst|);
    var d := HandleRelative(c.disp, insn.disp, code[..insn.size], |c.dst|);
    if d.Ok? { RelativeExactly(d.value, insn.imm, insn.size, code, at, Space(env.mode), |c.dst|); }
  }

  // ---- the loop and the whole translation ----

  /** What the copy loop answers, from the `n`-th instruction on. */
  ghost predicate LoopIsRight(env: Env, r: Result<Copy>)
    requires env.Valid()
  {
    if r.Err? then r.code == CANNOT_FIX_IP_RELATIVE && exists p: nat :: EndsBadly(env, p)
    else if r.value.src < REL2G_JUMP_SIZE then EndsShort(env, r.value.src)
    else exists p: nat :: CoversUpTo(env, p, r.value.pos)
  }

  lemma {:induction false} LoopExactly(env: Env, c: Copy, n: nat)
    requires env.Valid() && c.pos == c.src && Boundary(env, n) == Some(c.src)
    ensures LoopIsRight(env, CopyLoop(env, c))
    decreases REL2G_JUMP_SIZE - c.src
  {
    hide Trusted, IsGetPc, GetPcAt, CannotBeMoved, CallsThunk, CallsAndPops;
    var p := c.src;
    if env.InsnAt(p).None? {
      assert EndsAt(env, p);
    } else {
      var insn := env.InsnAt(p).value;
      InsnIsBounded(env, p);
      GetPcIffIdiom(env, p);
      CopyExactly(env, c);
      if IsGetPc(env, p) {
        assert EndsAt(env, p);
        RewrittenCovers(env, c);
      } else if CannotBeMoved(insn) {
        assert EndsAt(env, p) && EndsBadly(env, p);
      } else if p + insn.size >= REL2G_JUMP_SIZE {
        assert EndsAt(env, p) && CoversUpTo(env, p, p + insn.size);
      } else {
        assert Boundary(env, n + 1) == Some(p + insn.size);
        LoopExactly(env, CopyInsn(env, c, insn).value, n + 1);
      }
    }
  }

  lemma RewrittenCovers(env: Env, c: Copy)
    requires env.Valid() && c.pos == c.src && EndsAt(env, c.src) && env.InsnAt(c.src).Some?
    requires c.src < REL2G_JUMP_SIZE && IsGetPc(env, c.src)
    ensures var r := Round(env, c, env.InsnAt(c.src).value);
      r.Ok? && r.value.src >= REL2G_JUMP_SIZE && CoversUpTo(env, c.src, r.value.pos)
  {
    hide Trusted, GetPcAt, CannotBeMoved, EndsAt, Le32;
    var insn := env.InsnAt(c.src).value;
    GetPcIffIdiom(env, c.src);
    var pc := GetPcAt(env, c.src, insn);
    GetPcExactly(env, c.src, insn, 0);
    var r :| IsRegister(r) && (RewritesTo(pc, r, 5) || RewritesTo(pc, r, 6));
    GetPcExactly(env, c.src, insn, r);
    if q :| CallsThunk(env, c.src, insn, q) { GetPcExactly(env, c.src, insn, q); }
  }

  /** Every answer of the translator, for every function: when it is a success, with and without a recorded end of the
      patch, and when it is which error. A 32-bit field is never out of place, with a disassembler that keeps its
      contract. */
  lemma PrepareExactly(env: Env)
    requires env.Valid()
    ensures var r := Prepare(env);
      && (r == Err(DISASSEMBLY) <==> env.InsnAt(0).None?)
      && (r == Err(CANNOT_FIX_IP_RELATIVE) <==> exists p: nat :: EndsBadly(env, p))
      && r != Err(IP_RELATIVE_OFFSET)
      && (r == Err(FOUND_BACK_JUMP) <==> exists p: nat, pos: nat :: CoversUpTo(env, p, pos) && RefersBack(env, pos))
      && (r == Err(TOO_SHORT_INSTRUCTIONS)
        <==> exists p: nat :: 0 < p && EndsShort(env, p) && exists k :: p <= k < 5 && env.code[k] != 0x90)
      && (r.Ok? && r.value.size != 0
        <==> exists p: nat, pos: nat :: CoversUpTo(env, p, pos) && !RefersBack(env, pos))
      && (r.Ok? && r.value.size == 0
        <==> exists p: nat :: 0 < p && EndsShort(env, p) && forall k :: p <= k < 5 ==> env.code[k] == 0x90)
  {
    hide Trusted, CopyLoop, IsGetPc, CannotBeMoved, RefersBack, FindsBackJump;
    LoopExactly(env, Begin(), 0);
    var r := CopyLoop(env, Begin());
    forall p: nat, q: nat | EndsAt(env, p) && EndsAt(env, q) ensures p == q { OneEnd(env, p, q); }
    if r.Ok? && r.value.src >= REL2G_JUMP_SIZE { ScanExactly(env, r.value.pos); }
    if env.InsnAt(0).None? { assert Boundary(env, 0) == Some(0) && EndsAt(env, 0); }
  }
}
