/** How the words the translator emits decode. The lemmas over plain words are decided by bit-blasting;
    they take the emitted word as a parameter so that no function of the model is expanded in them. */
module Arm64Words {
  import opened Common
  import opened A64Machine
  import opened Arm64Translator

  // ---- one word of each class ----

  lemma DecodeBCond(e: Word)
    requires e & 0xFF00_0010 == 0x5400_0000
    ensures Decode(e) == BCond((e & 0xF) as bv4, Imm19(e))
  {
    hide Imm19;
  }

  lemma DecodeCb(e: Word)
    requires e & 0x7E00_0000 == 0x3400_0000
    ensures Decode(e) == Cb(e & 0x8000_0000 != 0, e & 0x0100_0000 != 0, Rd(e), Imm19(e))
  {
    hide Imm19, Rd;
  }

  lemma DecodeTb(e: Word)
    requires e & 0x7E00_0000 == 0x3600_0000
    ensures Decode(e) == Tb(e & 0x0100_0000 != 0, TbBit(e), Rd(e), Imm14(e))
  {
    hide Imm14, Rd, TbBit;
  }

  lemma DecodeLdr(e: Word)
    requires e >> 24 == 0x58
    ensures Decode(e) == LdrLit(LoadX, Rd(e), Imm19(e))
  {
    hide Imm19, Rd;
  }

  lemma DecodeBr(e: Word)
    requires e & 0xFFFF_FC1F == 0xD61F_0000
    ensures Decode(e) == Br(Rn(e))
  {
    hide Rn;
  }

  lemma DecodeBlr(e: Word)
    requires e & 0xFFFF_FC1F == 0xD63F_0000
    ensures Decode(e) == Blr(Rn(e))
  {
    hide Rn;
  }

  lemma DecodeBase(e: Word)
    requires e >> 10 in {0x2E_5000, 0x3E_5000, 0x2E_6000, 0x3E_6000, 0x2F_5000, 0x3F_5000, 0x0F_7000}
    ensures BaseAccess(e).Some? && Decode(e) == LdrBase(BaseAccess(e).value, Rd(e), Rn(e))
  {
    hide Rd, Rn;
  }

  lemma ShortImm19(e: Word)
    requires (e >> 5) & 0x7_FFFF < 16
    ensures Imm19(e) == (((e >> 5) & 0x7_FFFF) as bv64) << 2
  {}

  lemma ShortImm14(e: Word)
    requires (e >> 5) & 0x3FFF == 3
    ensures Imm14(e) == 12
  {}

  // ---- the bits of the emitted words ----

  lemma LdrBits(distance: bv32, r: Reg, e: Word)
    requires distance < 16 && e == 0x5800_0000 | (distance << 5) | (r as bv32)
    ensures e >> 24 == 0x58 && (e >> 5) & 0x7_FFFF == distance && (e & 0x1F) as bv5 == r
  {}

  lemma BranchBits(r: Reg, e: Word)
    requires e == 0xD61F_0000 | ((r as bv32) << 5)
    ensures e & 0xFFFF_FC1F == 0xD61F_0000 && ((e >> 5) & 0x1F) as bv5 == r
  {}

  lemma UnlinkedBits(w: Word, r: Reg, e: Word)
    requires w & 0xFC00_0000 == 0x1400_0000
    requires e == 0xD61F_0000 | ((w & 0x8000_0000) >> 10) | ((r as bv32) << 5)
    ensures e & 0xFFFF_FC1F == 0xD61F_0000 && ((e >> 5) & 0x1F) as bv5 == r
  {}

  lemma LinkedBits(w: Word, r: Reg, e: Word)
    requires w & 0xFC00_0000 == 0x9400_0000
    requires e == 0xD61F_0000 | ((w & 0x8000_0000) >> 10) | ((r as bv32) << 5)
    ensures e & 0xFFFF_FC1F == 0xD63F_0000 && ((e >> 5) & 0x1F) as bv5 == r
  {}

  lemma SkipCondBits(w: Word, e: Word)
    requires w & 0xFF00_0010 == 0x5400_0000
    requires e == ((w & !1) & !0x00FF_FFE0) | (3 << 5) | ((w & 1) ^ 1)
    ensures e & 0xFF00_0010 == 0x5400_0000 && (e >> 5) & 0x7_FFFF == 3
    ensures (e & 0xF) as bv4 == ((w & 0xF) as bv4) ^ 1
  {}

  lemma SkipCbBits(w: Word, e: Word)
    requires w & 0x7E00_0000 == 0x3400_0000
    requires e == ((w & !0x0100_0000) & !0x00FF_FFE0) | ((w & 0x0100_0000) ^ 0x0100_0000) | (3 << 5)
    ensures e & 0x7E00_0000 == 0x3400_0000 && (e >> 5) & 0x7_FFFF == 3 && e & 0x8000_0000 == w & 0x8000_0000
    ensures (e & 0x0100_0000 != 0) == (w & 0x0100_0000 == 0) && (e & 0x1F) as bv5 == (w & 0x1F) as bv5
  {}

  lemma SkipTbBits(w: Word, e: Word)
    requires w & 0x7E00_0000 == 0x3600_0000
    requires e == ((w & !0x0100_0000) & !0x0007_FFE0) | ((w & 0x0100_0000) ^ 0x0100_0000) | (3 << 5)
    ensures e & 0x7E00_0000 == 0x3600_0000 && (e >> 5) & 0x3FFF == 3
    ensures (e & 0x0100_0000 != 0) == (w & 0x0100_0000 == 0) && (e & 0x1F) as bv5 == (w & 0x1F) as bv5
    ensures ((e >> 26) & 0x20) | ((e >> 19) & 0x1F) == ((w >> 26) & 0x20) | ((w >> 19) & 0x1F)
  {}

  lemma BaseLoadBits(opcode: Word, w: Word, r: Reg, e: Word)
    requires opcode & 0x3FF == 0 && e == opcode | ((r as bv32) << 5) | (w & 0x1F)
    ensures e >> 10 == opcode >> 10 && ((e >> 5) & 0x1F) as bv5 == r && (e & 0x1F) as bv5 == (w & 0x1F) as bv5
  {}

  // ---- what the emitted words mean ----

  lemma LdrWordMeans(distance: bv32, r: Reg)
    requires distance < 16
    ensures Decode(LdrWord(distance, r)) == LdrLit(LoadX, r, (distance as bv64) << 2)
  {
    hide Decode, Imm19;
    var e := LdrWord(distance, r);
    LdrBits(distance, r, e);
    DecodeLdr(e);
    ShortImm19(e);
  }

  lemma BranchWordMeans(r: Reg)
    ensures Decode(BranchWord(r)) == Br(r)
  {
    hide Decode;
    BranchBits(r, BranchWord(r));
    DecodeBr(BranchWord(r));
  }

  lemma LinkableBranchWordMeans(w: Word, r: Reg)
    requires w & 0xFC00_0000 == 0x1400_0000 || w & 0xFC00_0000 == 0x9400_0000
    ensures Decode(LinkableBranchWord(w, r)) == if w & 0xFC00_0000 == 0x9400_0000 then Blr(r) else Br(r)
  {
    hide Decode;
    var e := LinkableBranchWord(w, r);
    if w & 0xFC00_0000 == 0x9400_0000 {
      LinkedBits(w, r, e);
      DecodeBlr(e);
    } else {
      UnlinkedBits(w, r, e);
      DecodeBr(e);
    }
  }

  lemma SkipUnlessCondMeans(w: Word)
    requires w & 0xFF00_0010 == 0x5400_0000
    ensures Decode(SkipUnlessCond(w)) == BCond(((w & 0xF) as bv4) ^ 1, 12)
  {
    hide Decode, Imm19;
    var e := SkipUnlessCond(w);
    SkipCondBits(w, e);
    DecodeBCond(e);
    ShortImm19(e);
  }

  lemma SkipUnlessCbMeans(w: Word)
    requires w & 0x7E00_0000 == 0x3400_0000
    ensures Decode(SkipUnlessCb(w)) == Cb(w & 0x8000_0000 != 0, w & 0x0100_0000 == 0, Rd(w), 12)
  {
    hide Decode, Imm19;
    var e := SkipUnlessCb(w);
    SkipCbBits(w, e);
    DecodeCb(e);
    ShortImm19(e);
  }

  lemma SkipUnlessTbMeans(w: Word)
    requires w & 0x7E00_0000 == 0x3600_0000
    ensures Decode(SkipUnlessTb(w)) == Tb(w & 0x0100_0000 == 0, TbBit(w), Rd(w), 12)
  {
    hide Decode, Imm14;
    var e := SkipUnlessTb(w);
    SkipTbBits(w, e);
    DecodeTb(e);
    ShortImm14(e);
  }

  function OpcodeOf(access: Access): Word {
    match access
    case LoadW => 0xB940_0000
    case LoadX => 0xF940_0000
    case LoadSW => 0xB980_0000
    case LoadS => 0xBD40_0000
    case LoadD => 0xFD40_0000
    case LoadQ => 0x3DC0_0000
    case Prefetch => 0xF980_0000
  }

  /** A word of this opcode, apart from its registers; and an opcode that leaves the registers free. */
  predicate HasOpcode(e: Word, opcode: Word) { e >> 10 == opcode >> 10 }

  predicate IsOpcode(opcode: Word) { opcode & 0x3FF == 0 }

  lemma BaseOpcodeMeans(access: Access, e: Word)
    requires HasOpcode(e, OpcodeOf(access))
    ensures Decode(e) == LdrBase(access, Rd(e), Rn(e))
  {
    hide Decode, Rd, Rn;
    match access {
      case LoadW => DecodeBase(e);
      case LoadX => DecodeBase(e);
      case LoadSW => DecodeBase(e);
      case LoadS => DecodeBase(e);
      case LoadD => DecodeBase(e);
      case LoadQ => DecodeBase(e);
      case Prefetch => DecodeBase(e);
    }
  }

  lemma BaseOpcodeAligned(access: Access)
    ensures IsOpcode(OpcodeOf(access))
  {}

  lemma OpcodeOfAccess(w: Word)
    requires LiteralAccess(w).Some?
    ensures BaseLoadOpcode(w) == Some(OpcodeOf(LiteralAccess(w).value))
  {}

  lemma BaseLoadFields(opcode: Word, w: Word, r: Reg)
    requires IsOpcode(opcode)
    ensures var e := BaseLoadWord(opcode, w, r); HasOpcode(e, opcode) && Rn(e) == r && Rd(e) == Rd(w)
  {
    BaseLoadBits(opcode, w, r, BaseLoadWord(opcode, w, r));
  }

  lemma BaseLoadOf(access: Access, w: Word, r: Reg)
    ensures Decode(BaseLoadWord(OpcodeOf(access), w, r)) == LdrBase(access, Rd(w), r)
  {
    hide Decode, OpcodeOf, BaseLoadWord, Rd, Rn, HasOpcode, IsOpcode;
    BaseOpcodeAligned(access);
    BaseLoadFields(OpcodeOf(access), w, r);
    BaseOpcodeMeans(access, BaseLoadWord(OpcodeOf(access), w, r));
  }

  lemma BaseLoadWordMeans(w: Word, r: Reg)
    requires LiteralAccess(w).Some?
    ensures BaseLoadOpcode(w) == Some(OpcodeOf(LiteralAccess(w).value))
    ensures Decode(BaseLoadWord(BaseLoadOpcode(w).value, w, r)) == LdrBase(LiteralAccess(w).value, Rd(w), r)
  {
    hide Decode, OpcodeOf, BaseLoadWord, BaseLoadOpcode, LiteralAccess, Rd;
    OpcodeOfAccess(w);
    BaseLoadOf(LiteralAccess(w).value, w, r);
  }
}
