/** funchook_make_trampoline of src/arch_arm64.c: the prefix of a function re-emitted at another address. */
module Arm64Translator {
  import opened Common
  import opened A64Machine

  /** funchook_arm64_insn_id_t. */
  datatype InsnId =
    | ID_OTHER | ID_ADR | ID_ADRP | ID_B | ID_BL | ID_BCOND | ID_CBNZ | ID_CBZ
    | ID_LDR | ID_LDRSW | ID_PRFM | ID_TBNZ | ID_TBZ

  /** What the disassembler reports of one word: its class and the registers among x9-x15 it mentions. The
      register masks of the source, one bit a register, are sets here. */
  datatype Info = Info(id: InsnId, regs: set<Reg>)

  const CORRUPTIBLE_REGS: set<Reg> := {9, 10, 11, 12, 13, 14, 15}
  const MAX_INSN_CHECK_SIZE := 64
  const REL4G_JUMP_SIZE := 2
  const LITERAL_POOL_OFFSET := 3 * REL4G_JUMP_SIZE + 2
  const LITERAL_POOL_NUM := REL4G_JUMP_SIZE + 1
  const TRAMPOLINE_SIZE := LITERAL_POOL_OFFSET + 2 * LITERAL_POOL_NUM

  // ---- the bit-field macros ----

  // Each macro is written out: the left shift, the cast to int32_t and int64_t, the arithmetic right shift.

  function Imm26Offset(ins: Word): bv64 {
    if (ins << 6) & 0x8000_0000 != 0
    then ((((ins << 6) as bv64) | 0xFFFF_FFFF_0000_0000) >> 4) | 0xF000_0000_0000_0000
    else ((ins << 6) as bv64) >> 4
  }

  function Imm19Offset(ins: Word): bv64 {
    if (ins << 8) & 0x8000_0000 != 0
    then (((((ins << 8) as bv64) | 0xFFFF_FFFF_0000_0000) >> 11) | 0xFFE0_0000_0000_0000) & 0xFFFF_FFFF_FFFF_FFFC
    else (((ins << 8) as bv64) >> 11) & 0xFFFF_FFFF_FFFF_FFFC
  }

  function Imm14Offset(ins: Word): bv64 {
    if (ins << 13) & 0x8000_0000 != 0
    then (((((ins << 13) as bv64) | 0xFFFF_FFFF_0000_0000) >> 16) | 0xFFFF_0000_0000_0000) & 0xFFFF_FFFF_FFFF_FFFC
    else (((ins << 13) as bv64) >> 16) & 0xFFFF_FFFF_FFFF_FFFC
  }

  function ImmAdrOffset(ins: Word): bv64 {
    if (ins << 8) & 0x8000_0000 != 0
    then ((((((ins << 8) as bv64) | 0xFFFF_FFFF_0000_0000) >> 11) | 0xFFE0_0000_0000_0000) & 0xFFFF_FFFF_FFFF_FFFC)
      | (((ins >> 29) & 3) as bv64)
    else ((((ins << 8) as bv64) >> 11) & 0xFFFF_FFFF_FFFF_FFFC) | (((ins >> 29) & 3) as bv64)
  }

  // The macros compute the manual's sign-extended immediates.

  lemma Imm26Macro(w: Word)
    ensures Imm26Offset(w) == Imm26(w)
  {}

  lemma Imm19Macro(w: Word)
    ensures Imm19Offset(w) == Imm19(w)
  {}

  lemma Imm14Macro(w: Word)
    ensures Imm14Offset(w) == Imm14(w)
  {}

  lemma ImmAdrMacro(w: Word)
    ensures ImmAdrOffset(w) == ImmAdr(w)
  {}

  // ---- emission ----

  /** The words emitted so far, the literals used so far and the scratch registers still free. */
  datatype Emit = Emit(dst: seq<Word>, pool: seq<Addr>, avail: set<Reg>)

  function Blank(): Emit { Emit([], [], CORRUPTIBLE_REGS) }

  function ToRegno(avail: set<Reg>): Result<Reg> {
    if 9 in avail then Ok(9)
    else if 10 in avail then Ok(10)
    else if 11 in avail then Ok(11)
    else if 12 in avail then Ok(12)
    else if 13 in avail then Ok(13)
    else if 14 in avail then Ok(14)
    else if 15 in avail then Ok(15)
    else Err(NO_AVAILABLE_REGISTERS)
  }

  /** A word offset, 0 to 14, as a machine word; and in bytes. */
  function AsBits(n: int): bv32 {
    match n
    case 0 => 0 case 1 => 1 case 2 => 2 case 3 => 3 case 4 => 4 case 5 => 5 case 6 => 6 case 7 => 7
    case 8 => 8 case 9 => 9 case 10 => 10 case 11 => 11 case 12 => 12 case 13 => 13
    case _ => 14
  }

  function AsBytes(n: int): bv64 {
    match n
    case 0 => 0 case 1 => 4 case 2 => 8 case 3 => 12 case 4 => 16 case 5 => 20 case 6 => 24 case 7 => 28
    case 8 => 32 case 9 => 36 case 10 => 40 case 11 => 44 case 12 => 48 case 13 => 52
    case _ => 56
  }

  /** How far, in words, the next literal lies behind the next code word. */
  function PoolDistance(e: Emit): int { LITERAL_POOL_OFFSET + 2 * |e.pool| - |e.dst| }

  function LdrWord(distance: bv32, regno: Reg): Word { 0x5800_0000 | (distance << 5) | (regno as bv32) }

  function BranchWord(regno: Reg): Word { 0xD61F_0000 | ((regno as bv32) << 5) }

  function LinkableBranchWord(ins: Word, regno: Reg): Word {
    0xD61F_0000 | ((ins & 0x8000_0000) >> 10) | ((regno as bv32) << 5)
  }

  // The inverted conditions: the condition bit is reset and inverted, the offset reset and set to 3 words.

  function SkipUnlessCond(ins: Word): Word { ((ins & !1) & !0x00FF_FFE0) | (3 << 5) | ((ins & 1) ^ 1) }

  function SkipUnlessCb(ins: Word): Word {
    ((ins & !0x0100_0000) & !0x00FF_FFE0) | ((ins & 0x0100_0000) ^ 0x0100_0000) | (3 << 5)
  }

  function SkipUnlessTb(ins: Word): Word {
    ((ins & !0x0100_0000) & !0x0007_FFE0) | ((ins & 0x0100_0000) ^ 0x0100_0000) | (3 << 5)
  }

  function BaseLoadOpcode(ins: Word): Option<Word> {
    match ins >> 24
    case 0x18 => Some(0xB940_0000)
    case 0x58 => Some(0xF940_0000)
    case 0x98 => Some(0xB980_0000)
    case 0x1C => Some(0xBD40_0000)
    case 0x5C => Some(0xFD40_0000)
    case 0x9C => Some(0x3DC0_0000)
    case 0xD8 => Some(0xF980_0000)
    case _ => None
  }

  function BaseLoadWord(opcode: Word, ins: Word, regno: Reg): Word {
    opcode | ((regno as bv32) << 5) | (ins & 0x1F)
  }

  function Put(e: Emit, w: Word): Emit { e.(dst := e.dst + [w]) }

  /** ldr xN, =addr: one word of code and one literal. */
  function LdrAddr(e: Emit, regno: Reg, addr: Addr): Emit {
    Put(e, LdrWord(AsBits(PoolDistance(e)), regno)).(pool := e.pool + [addr])
  }

  /** What one round of the loop emits: the word itself, a load of an address the word computes, or an optional
      skip over two words, a load of an absolute address into a scratch register and one word that uses it. */
  datatype Plan =
    | Copy(w: Word)
    | Materialize(d: Reg, addr: Addr)
    | Through(skip: Option<Word>, scratch: Reg, addr: Addr, last: Word)

  function Assemble(e: Emit, p: Plan): Emit {
    match p
    case Copy(w) => Put(e, w)
    case Materialize(d, addr) => LdrAddr(e, d, addr)
    case Through(skip, scratch, addr, last) =>
      Put(LdrAddr(if skip.Some? then Put(e, skip.value) else e, scratch, addr), last)
  }

  /** One round of the switch, for the word `ins` at `src` while the registers `avail` are free. */
  function PlanInsn(avail: set<Reg>, src: Addr, ins: Word, id: InsnId): Result<Plan> {
    var scratch := ToRegno(avail);
    match id
    case ID_OTHER => Ok(Copy(ins))
    case ID_ADR => Ok(Materialize(Rd(ins), Plus(src, ImmAdrOffset(ins))))
    case ID_ADRP => Ok(Materialize(Rd(ins), PagePlus(src, ImmAdrOffset(ins) << 12)))
    case ID_BCOND =>
      if scratch.Err? then Err(scratch.code)
      else
        var skip := if ins & 0x0F != 0x0E then Some(SkipUnlessCond(ins)) else None;
        Ok(Through(skip, scratch.value, Plus(src, Imm19Offset(ins)), BranchWord(scratch.value)))
    case ID_B | ID_BL =>
      if scratch.Err? then Err(scratch.code)
      else Ok(Through(None, scratch.value, Plus(src, Imm26Offset(ins)), LinkableBranchWord(ins, scratch.value)))
    case ID_CBNZ | ID_CBZ =>
      if scratch.Err? then Err(scratch.code)
      else
        Ok(Through(Some(SkipUnlessCb(ins)), scratch.value, Plus(src, Imm19Offset(ins)), BranchWord(scratch.value)))
    case ID_LDR | ID_LDRSW | ID_PRFM =>
      if ins & 0x2000_0000 != 0 then Ok(Copy(ins))
      else if scratch.Err? then Err(scratch.code)
      else if BaseLoadOpcode(ins).None? then Err(INTERNAL_ERROR)
      else
        var last := BaseLoadWord(BaseLoadOpcode(ins).value, ins, scratch.value);
        Ok(Through(None, scratch.value, Plus(src, Imm19Offset(ins)), last))
    case ID_TBNZ | ID_TBZ =>
      if scratch.Err? then Err(scratch.code)
      else
        Ok(Through(Some(SkipUnlessTb(ins)), scratch.value, Plus(src, Imm14Offset(ins)), BranchWord(scratch.value)))
  }

  function EmitInsn(e: Emit, src: Addr, ins: Word, info: Info): Result<Emit> {
    var avail := e.avail - info.regs;
    var p := PlanInsn(avail, src, ins, info.id);
    if p.Err? then Err(p.code) else Ok(Assemble(e.(avail := avail), p.value))
  }

  function TargetAddr(addr: Addr, ins: Word, id: InsnId): Addr {
    match id
    case ID_ADR => Plus(addr, ImmAdrOffset(ins))
    case ID_ADRP => PagePlus(addr, ImmAdrOffset(ins) << 12)
    case ID_B | ID_BL => Plus(addr, Imm26Offset(ins))
    case ID_LDR | ID_LDRSW | ID_PRFM => if ins & 0x2000_0000 != 0 then 0 else Plus(addr, Imm19Offset(ins))
    case ID_BCOND | ID_CBNZ | ID_CBZ => Plus(addr, Imm19Offset(ins))
    case ID_TBNZ | ID_TBZ => Plus(addr, Imm14Offset(ins))
    case ID_OTHER => 0
  }

  /** The prefix is B followed by UDF: the second word is never reached and not translated. */
  predicate BranchThenUndefined(code: seq<Word>)
    requires |code| >= 2
  {
    code[0] & 0xFC00_0000 == 0x1400_0000 && code[1] & 0xFFFF_0000 == 0
  }

  /** The number of source words the loop translates before it emits the closing jump. */
  function PrefixLength(code: seq<Word>): nat
    requires |code| >= 2
  {
    if BranchThenUndefined(code) then 1 else REL4G_JUMP_SIZE
  }

  function At(func: Addr, i: nat): Addr
    requires i <= 2
  {
    if i == 0 then func else if i == 1 then Plus(func, 4) else Plus(func, 8)
  }

  /** The translation of the first `n` words. */
  function EmitPrefix(func: Addr, code: seq<Word>, infos: seq<Info>, n: nat): Result<Emit>
    requires n <= REL4G_JUMP_SIZE && n <= |code| && n <= |infos|
  {
    if n == 0 then Ok(Blank())
    else
      var r := EmitPrefix(func, code, infos, n - 1);
      if r.Err? then r else EmitInsn(r.value, At(func, n - 1), code[n - 1], infos[n - 1])
  }

  /** The jump back behind the patch. */
  function EmitReturn(e: Emit, func: Addr): Result<Emit> {
    var scratch := ToRegno(e.avail);
    if scratch.Err? then Err(scratch.code)
    else Ok(Assemble(e, Through(None, scratch.value, At(func, REL4G_JUMP_SIZE), BranchWord(scratch.value))))
  }

  /** The scan for jumps back into the patch. Every round looks at the same word, the first one behind the
      patch, and only the class comes from the instruction the disassembler has reached. */
  predicate InsidePatch(func: Addr, target: Addr) { func < target < At(func, REL4G_JUMP_SIZE) }

  predicate FindsBackJump(func: Addr, code: seq<Word>, rest: seq<Info>)
    requires |code| > 2
  {
    exists k :: 0 <= k < |rest| && InsidePatch(func, TargetAddr(At(func, 2), code[2], rest[k].id))
  }

  function Translate(func: Addr, code: seq<Word>, infos: seq<Info>): Result<Emit>
    requires |code| == MAX_INSN_CHECK_SIZE
  {
    var n := PrefixLength(code);
    if |infos| == 0 then Err(DISASSEMBLY)
    else if |infos| < n then
      var r := EmitPrefix(func, code, infos, |infos|);
      if r.Err? then r else Err(TOO_SHORT_INSTRUCTIONS)
    else
      var r := EmitPrefix(func, code, infos, n);
      if r.Err? then r
      else
        var e := EmitReturn(r.value, func);
        if e.Err? then e
        else if FindsBackJump(func, code, infos[n..]) then Err(FOUND_BACK_JUMP)
        else e
  }

  // ---- the buffer ----

  function Low(a: Addr): Word { (a & 0xFFFF_FFFF) as bv32 }

  function High(a: Addr): Word { (a >> 32) as bv32 }

  function PoolWord(e: Emit, i: nat): Word {
    if i / 2 < |e.pool| then (if i % 2 == 0 then Low(e.pool[i / 2]) else High(e.pool[i / 2])) else 0
  }

  function LayoutWord(e: Emit, i: nat): Word {
    if i < LITERAL_POOL_OFFSET then (if i < |e.dst| then e.dst[i] else 0) else PoolWord(e, i - LITERAL_POOL_OFFSET)
  }

  /** Code words from 0, literals from LITERAL_POOL_OFFSET, zero elsewhere. */
  function Layout(e: Emit): (words: seq<Word>)
    ensures |words| == TRAMPOLINE_SIZE
    ensures forall i :: 0 <= i < TRAMPOLINE_SIZE ==> words[i] == LayoutWord(e, i)
  {
    seq(TRAMPOLINE_SIZE, i requires 0 <= i => LayoutWord(e, i))
  }

  /** Three words and one literal per translated instruction, two words and one literal for the closing jump. */
  ghost predicate Fits(e: Emit, n: nat) { n <= |e.dst| <= 3 * n && |e.pool| <= n }

  lemma AssembleFits(e: Emit, p: Plan, n: nat)
    requires Fits(e, n)
    ensures Fits(Assemble(e, p), n + 1)
  {
    hide LdrWord, AsBits;
  }

  lemma EmitInsnFits(e: Emit, src: Addr, ins: Word, info: Info, n: nat)
    requires Fits(e, n) && EmitInsn(e, src, ins, info).Ok?
    ensures Fits(EmitInsn(e, src, ins, info).value, n + 1)
  {
    hide PlanInsn, Assemble;
    var avail := e.avail - info.regs;
    AssembleFits(e.(avail := avail), PlanInsn(avail, src, ins, info.id).value, n);
  }

  lemma {:induction false} EmitPrefixFits(func: Addr, code: seq<Word>, infos: seq<Info>, n: nat)
    requires n <= REL4G_JUMP_SIZE && n <= |code| && n <= |infos|
    requires EmitPrefix(func, code, infos, n).Ok?
    ensures Fits(EmitPrefix(func, code, infos, n).value, n)
  {
    hide EmitInsn;
    if n > 0 {
      EmitPrefixFits(func, code, infos, n - 1);
      EmitInsnFits(EmitPrefix(func, code, infos, n - 1).value, At(func, n - 1), code[n - 1], infos[n - 1], n - 1);
    }
  }

  /** Capacity: code stays below the pool and the pool below the end of the buffer. */
  lemma TrampolineCapacity(func: Addr, code: seq<Word>, infos: seq<Info>)
    requires |code| == MAX_INSN_CHECK_SIZE
    requires Translate(func, code, infos).Ok?
    ensures var e := Translate(func, code, infos).value;
      2 < |e.dst| <= LITERAL_POOL_OFFSET && 1 <= |e.pool| <= LITERAL_POOL_NUM
  {
    hide EmitPrefix, LdrWord, BranchWord, ToRegno, FindsBackJump;
    EmitPrefixFits(func, code, infos, PrefixLength(code));
  }

  /** Every failure has a result code of its own, never success. */
  lemma {:induction false} PrefixErrors(func: Addr, code: seq<Word>, infos: seq<Info>, n: nat)
    requires n <= REL4G_JUMP_SIZE && n <= |code| && n <= |infos|
    requires EmitPrefix(func, code, infos, n).Err?
    ensures EmitPrefix(func, code, infos, n).code in {NO_AVAILABLE_REGISTERS, INTERNAL_ERROR}
  {
    hide Assemble, At;
    if n > 0 && EmitPrefix(func, code, infos, n - 1).Err? { PrefixErrors(func, code, infos, n - 1); }
  }

  lemma TranslateErrors(func: Addr, code: seq<Word>, infos: seq<Info>)
    requires |code| == MAX_INSN_CHECK_SIZE && Translate(func, code, infos).Err?
    ensures Translate(func, code, infos).code in
      {DISASSEMBLY, TOO_SHORT_INSTRUCTIONS, NO_AVAILABLE_REGISTERS, INTERNAL_ERROR, FOUND_BACK_JUMP}
  {
    hide EmitPrefix, Assemble, FindsBackJump, At;
    if 0 < |infos| < PrefixLength(code) && EmitPrefix(func, code, infos, |infos|).Err? {
      PrefixErrors(func, code, infos, |infos|);
    } else if |infos| >= PrefixLength(code) && EmitPrefix(func, code, infos, PrefixLength(code)).Err? {
      PrefixErrors(func, code, infos, PrefixLength(code));
    }
  }
}
