/** Every plan the translator makes means the instruction it was made for. */
module Arm64Plans {
  import opened Common
  import opened A64Machine
  import opened Arm64Translator
  import opened Arm64Words

  // ---- what the disassembler is trusted with ----

  predicate IsCopied(insn: Insn) { insn.LdrBase? || insn.Br? || insn.Blr? || insn.Other? }

  predicate IsLink(w: Word) { Decode(w).Bl? || Decode(w).Blr? }

  /** The class is the one the manual gives the word. Words that do not use the program counter are unclassified,
      or loads with bit 29 set. */
  predicate FaithfulId(w: Word, id: InsnId) {
    match Decode(w)
    case Adr(_, _) => id == ID_ADR
    case Adrp(_, _) => id == ID_ADRP
    case B(_) => id == ID_B
    case Bl(_) => id == ID_BL
    case BCond(_, _) => id == ID_BCOND
    case Cb(_, nonzero, _, _) => id == if nonzero then ID_CBNZ else ID_CBZ
    case Tb(nonzero, _, _, _) => id == if nonzero then ID_TBNZ else ID_TBZ
    case LdrLit(access, _, _) =>
      id == if access == LoadSW then ID_LDRSW else if access == Prefetch then ID_PRFM else ID_LDR
    case _ => id == ID_OTHER || (id in {ID_LDR, ID_LDRSW, ID_PRFM} && w & 0x2000_0000 != 0)
  }

  ghost predicate Faithful(cpu: Cpu, w: Word, info: Info) {
    && FaithfulId(w, info.id)
    && (Reads(cpu, w) + Writes(cpu, w)) * CORRUPTIBLE_REGS <= info.regs
  }

  // ---- what a plan means ----

  /** The plan's words decode to instructions that together have the effect of the word `w` at `src`. */
  predicate PlanMeans(src: Addr, w: Word, p: Plan) {
    match Decode(w)
    case Adr(d, imm) => p == Materialize(d, Plus(src, imm))
    case Adrp(d, imm) => p == Materialize(d, PagePlus(src, imm))
    case B(off) => p.Through? && p.skip.None? && p.addr == Plus(src, off) && Decode(p.last) == Br(p.scratch)
    case Bl(off) => p.Through? && p.skip.None? && p.addr == Plus(src, off) && Decode(p.last) == Blr(p.scratch)
    case BCond(cond, off) =>
      && p.Through? && p.addr == Plus(src, off) && Decode(p.last) == Br(p.scratch)
      && (if cond == 14 then p.skip.None? else p.skip.Some? && Decode(p.skip.value) == BCond(cond ^ 1, 12))
    case Cb(sf, nonzero, t, off) =>
      && p.Through? && p.addr == Plus(src, off) && Decode(p.last) == Br(p.scratch)
      && p.skip.Some? && Decode(p.skip.value) == Cb(sf, !nonzero, t, 12)
    case Tb(nonzero, bit, t, off) =>
      && p.Through? && p.addr == Plus(src, off) && Decode(p.last) == Br(p.scratch)
      && p.skip.Some? && Decode(p.skip.value) == Tb(!nonzero, bit, t, 12)
    case LdrLit(access, t, off) =>
      p.Through? && p.skip.None? && p.addr == Plus(src, off) && Decode(p.last) == LdrBase(access, t, p.scratch)
    case _ => p == Copy(w)
  }

  lemma SourceAdr(w: Word)
    requires Decode(w).Adr?
    ensures Decode(w) == Adr(Rd(w), ImmAdr(w))
  {
    hide Imm26, Imm19, Imm14, ImmAdr, Rd, TbBit;
  }

  lemma SourceAdrp(w: Word)
    requires Decode(w).Adrp?
    ensures Decode(w) == Adrp(Rd(w), ImmAdr(w) << 12)
  {
    hide Imm26, Imm19, Imm14, ImmAdr, Rd, TbBit;
  }

  lemma SourceB(w: Word)
    requires Decode(w).B?
    ensures w & 0xFC00_0000 == 0x1400_0000 && Decode(w) == B(Imm26(w))
  {
    hide Imm26, Imm19, Imm14, ImmAdr, Rd, TbBit;
  }

  lemma SourceBl(w: Word)
    requires Decode(w).Bl?
    ensures w & 0xFC00_0000 == 0x9400_0000 && Decode(w) == Bl(Imm26(w))
  {
    hide Imm26, Imm19, Imm14, ImmAdr, Rd, TbBit;
  }

  lemma SourceBCond(w: Word)
    requires Decode(w).BCond?
    ensures w & 0xFF00_0010 == 0x5400_0000 && Decode(w) == BCond((w & 0xF) as bv4, Imm19(w))
  {
    hide Imm26, Imm19, Imm14, ImmAdr, Rd, TbBit;
  }

  lemma SourceCb(w: Word)
    requires Decode(w).Cb?
    ensures w & 0x7E00_0000 == 0x3400_0000
      && Decode(w) == Cb(w & 0x8000_0000 != 0, w & 0x0100_0000 != 0, Rd(w), Imm19(w))
  {
    hide Imm26, Imm19, Imm14, ImmAdr, Rd, TbBit;
  }

  lemma SourceTb(w: Word)
    requires Decode(w).Tb?
    ensures w & 0x7E00_0000 == 0x3600_0000 && Decode(w) == Tb(w & 0x0100_0000 != 0, TbBit(w), Rd(w), Imm14(w))
  {
    hide Imm26, Imm19, Imm14, ImmAdr, Rd, TbBit;
  }

  lemma SourceLdrLit(w: Word)
    requires Decode(w).LdrLit?
    ensures LiteralAccess(w).Some? && Decode(w) == LdrLit(LiteralAccess(w).value, Rd(w), Imm19(w))
  {
    hide Imm26, Imm19, Imm14, ImmAdr, Rd, TbBit;
  }

  lemma LiteralHasNoBit29(w: Word)
    requires LiteralAccess(w).Some?
    ensures w & 0x2000_0000 == 0
  {}

  lemma BranchMasks(w: Word)
    requires w & 0xFC00_0000 == 0x1400_0000
    ensures w & 0xFC00_0000 != 0x9400_0000
  {}

  lemma CondNibble(w: Word)
    ensures (w & 0x0F == 0x0E) <==> ((w & 0xF) as bv4 == 14)
  {}

  /** The plan the translator makes is the right one for the word. */
  ghost predicate Planned(avail: set<Reg>, src: Addr, w: Word, id: InsnId) {
    PlanInsn(avail, src, w, id).Ok? ==>
      var p := PlanInsn(avail, src, w, id).value;
      PlanMeans(src, w, p) && (p.Through? ==> ToRegno(avail) == Ok(p.scratch))
  }

  lemma PlanAdr(avail: set<Reg>, src: Addr, w: Word, id: InsnId)
    requires Decode(w).Adr? && FaithfulId(w, id)
    ensures Planned(avail, src, w, id)
  {
    hide Decode, Plus, PagePlus, PageOf, Imm26, Imm19, Imm14, ImmAdr, Imm26Offset, Imm19Offset, Imm14Offset,
         ImmAdrOffset, Rd, TbBit;
    hide LiteralAccess, BaseLoadOpcode, BranchWord, LinkableBranchWord, BaseLoadWord, OpcodeOf;
    hide SkipUnlessCond, SkipUnlessCb, SkipUnlessTb, ToRegno;
    SourceAdr(w);
    ImmAdrMacro(w);
  }

  lemma PlanAdrp(avail: set<Reg>, src: Addr, w: Word, id: InsnId)
    requires Decode(w).Adrp? && FaithfulId(w, id)
    ensures Planned(avail, src, w, id)
  {
    hide Decode, Plus, PagePlus, PageOf, Imm26, Imm19, Imm14, ImmAdr, Imm26Offset, Imm19Offset, Imm14Offset,
         ImmAdrOffset, Rd, TbBit;
    hide LiteralAccess, BaseLoadOpcode, BranchWord, LinkableBranchWord, BaseLoadWord, OpcodeOf;
    hide SkipUnlessCond, SkipUnlessCb, SkipUnlessTb, ToRegno;
    SourceAdrp(w);
    ImmAdrMacro(w);
  }

  lemma PlanB(avail: set<Reg>, src: Addr, w: Word, id: InsnId)
    requires Decode(w).B? && FaithfulId(w, id)
    ensures Planned(avail, src, w, id)
  {
    hide Decode, Plus, PagePlus, PageOf, Imm26, Imm19, Imm14, ImmAdr, Imm26Offset, Imm19Offset, Imm14Offset,
         ImmAdrOffset, Rd, TbBit;
    hide LiteralAccess, BaseLoadOpcode, BranchWord, LinkableBranchWord, BaseLoadWord, OpcodeOf;
    hide SkipUnlessCond, SkipUnlessCb, SkipUnlessTb, ToRegno;
    SourceB(w);
    Imm26Macro(w);
    BranchMasks(w);
    var scratch := ToRegno(avail);
    if scratch.Ok? {
      LinkableBranchWordMeans(w, scratch.value);
    }
  }

  lemma PlanBl(avail: set<Reg>, src: Addr, w: Word, id: InsnId)
    requires Decode(w).Bl? && FaithfulId(w, id)
    ensures Planned(avail, src, w, id)
  {
    hide Decode, Plus, PagePlus, PageOf, Imm26, Imm19, Imm14, ImmAdr, Imm26Offset, Imm19Offset, Imm14Offset,
         ImmAdrOffset, Rd, TbBit;
    hide LiteralAccess, BaseLoadOpcode, BranchWord, LinkableBranchWord, BaseLoadWord, OpcodeOf;
    hide SkipUnlessCond, SkipUnlessCb, SkipUnlessTb, ToRegno;
    SourceBl(w);
    Imm26Macro(w);
    var scratch := ToRegno(avail);
    if scratch.Ok? {
      LinkableBranchWordMeans(w, scratch.value);
    }
  }

  lemma PlanBCond(avail: set<Reg>, src: Addr, w: Word, id: InsnId)
    requires Decode(w).BCond? && FaithfulId(w, id)
    ensures Planned(avail, src, w, id)
  {
    hide Decode, Plus, PagePlus, PageOf, Imm26, Imm19, Imm14, ImmAdr, Imm26Offset, Imm19Offset, Imm14Offset,
         ImmAdrOffset, Rd, TbBit;
    hide LiteralAccess, BaseLoadOpcode, BranchWord, LinkableBranchWord, BaseLoadWord, OpcodeOf;
    hide SkipUnlessCond, SkipUnlessCb, SkipUnlessTb, ToRegno;
    SourceBCond(w);
    Imm19Macro(w);
    CondNibble(w);
    SkipUnlessCondMeans(w);
    var scratch := ToRegno(avail);
    if scratch.Ok? {
      BranchWordMeans(scratch.value);
    }
  }

  lemma PlanCb(avail: set<Reg>, src: Addr, w: Word, id: InsnId)
    requires Decode(w).Cb? && FaithfulId(w, id)
    ensures Planned(avail, src, w, id)
  {
    hide Decode, Plus, PagePlus, PageOf, Imm26, Imm19, Imm14, ImmAdr, Imm26Offset, Imm19Offset, Imm14Offset,
         ImmAdrOffset, Rd, TbBit;
    hide LiteralAccess, BaseLoadOpcode, BranchWord, LinkableBranchWord, BaseLoadWord, OpcodeOf;
    hide SkipUnlessCond, SkipUnlessCb, SkipUnlessTb, ToRegno;
    SourceCb(w);
    Imm19Macro(w);
    SkipUnlessCbMeans(w);
    var scratch := ToRegno(avail);
    if scratch.Ok? {
      BranchWordMeans(scratch.value);
    }
  }

  lemma PlanTb(avail: set<Reg>, src: Addr, w: Word, id: InsnId)
    requires Decode(w).Tb? && FaithfulId(w, id)
    ensures Planned(avail, src, w, id)
  {
    hide Decode, Plus, PagePlus, PageOf, Imm26, Imm19, Imm14, ImmAdr, Imm26Offset, Imm19Offset, Imm14Offset,
         ImmAdrOffset, Rd, TbBit;
    hide LiteralAccess, BaseLoadOpcode, BranchWord, LinkableBranchWord, BaseLoadWord, OpcodeOf;
    hide SkipUnlessCond, SkipUnlessCb, SkipUnlessTb, ToRegno;
    SourceTb(w);
    Imm14Macro(w);
    SkipUnlessTbMeans(w);
    var scratch := ToRegno(avail);
    if scratch.Ok? {
      BranchWordMeans(scratch.value);
    }
  }

  lemma PlanLdrLit(avail: set<Reg>, src: Addr, w: Word, id: InsnId)
    requires Decode(w).LdrLit? && FaithfulId(w, id)
    ensures Planned(avail, src, w, id)
  {
    hide Decode, Plus, PagePlus, PageOf, Imm26, Imm19, Imm14, ImmAdr, Imm26Offset, Imm19Offset, Imm14Offset,
         ImmAdrOffset, Rd, TbBit;
    hide LiteralAccess, BaseLoadOpcode, BranchWord, LinkableBranchWord, BaseLoadWord, OpcodeOf;
    hide SkipUnlessCond, SkipUnlessCb, SkipUnlessTb, ToRegno;
    SourceLdrLit(w);
    Imm19Macro(w);
    LiteralHasNoBit29(w);
    var scratch := ToRegno(avail);
    if scratch.Ok? {
      BaseLoadWordMeans(w, scratch.value);
    }
  }

  /** The translator's choice for one word is right, whatever registers are free. */
  lemma PlanInsnMeans(avail: set<Reg>, src: Addr, w: Word, id: InsnId)
    requires FaithfulId(w, id)
    ensures Planned(avail, src, w, id)
  {
    if IsCopied(Decode(w)) {
      hide Decode;
    } else {
      hide Planned, Decode, FaithfulId;
      match Decode(w) {
        case Adr(_, _) => PlanAdr(avail, src, w, id);
        case Adrp(_, _) => PlanAdrp(avail, src, w, id);
        case B(_) => PlanB(avail, src, w, id);
        case Bl(_) => PlanBl(avail, src, w, id);
        case BCond(_, _) => PlanBCond(avail, src, w, id);
        case Cb(_, _, _, _) => PlanCb(avail, src, w, id);
        case Tb(_, _, _, _) => PlanTb(avail, src, w, id);
        case LdrLit(_, _, _) => PlanLdrLit(avail, src, w, id);
      }
    }
  }
}
