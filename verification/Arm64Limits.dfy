/** Where the translator does less than it means to, each with the exact line between right and wrong. */
module Arm64Limits {
  import opened Common
  import opened A64Machine
  import opened Arm64Translator
  import opened Arm64Plans
  import opened Arm64Blocks
  import opened Arm64Simulation

  /** B.NV always branches, but inverting its condition bit gives AL: the skip is always taken. */
  lemma NeverConditionFallsThrough(cpu: Cpu, base: Addr, e: Emit, w: Word, src: Addr, p: Plan, f: Emit, s: State)
    requires Decode(w).BCond? && Decode(w).cond == 15 && PlanMeans(src, w, p)
    requires Holds(s.mem, base, f) && Extends(Assemble(e, p), f)
    ensures Step(cpu, w, src, s) == (s, Some(p.addr))
    ensures Run(cpu, 1, Start(base, e, s)) == Config(WordAt(base, |Assemble(e, p).dst|), s)
  {
    hide Decode, Load32, Load64, WordAt, Plus, AsBits, LdrWord;
    var g := Assemble(e, p);
    assert |g.dst| == |e.dst| + 3 && g.dst[|e.dst|] == p.skip.value;
    HoldsPart(s.mem, base, g, f);
    RunWord(cpu, base, g, |e.dst|, s, BCond(14, 12));
    SkipTarget(base, |e.dst|);
  }

  /** In every accepted prefix: the original leaves it at the target of the B.NV, while one step of the trampoline
      leads, in the same state, to the block of the next word. */
  lemma NeverConditionIsLost(cpu: Cpu, x: Prefix, base: Addr, i: nat, s: State)
    requires x.Accepted() && i < x.Length() && i < |x.infos| && FaithfulId(x.code[i], x.infos[i].id)
    requires Decode(x.code[i]).BCond? && Decode(x.code[i]).cond == 15 && Loaded(s.mem, base, Layout(x.Final()))
    ensures Original(cpu, x, i, s) == Exit(s, Plus(At(x.func, i), Decode(x.code[i]).off), i)
    ensures Run(cpu, 1, Config(BlockAt(x, base, i), s)) == Config(BlockAt(x, base, i + 1), s)
  {
    hide Translate, EmitPrefix, Decode, WordAt, Layout, Loaded, Run, PlanInsn, Holds, Extends, Assemble, At, Plus,
         FaithfulId, ConditionHolds;
    var w, p := x.code[i], x.PlanOf(i);
    PlanInsnMeans(x.Ready(i).avail, At(x.func, i), w, x.infos[i].id);
    BeforeNext(x, i);
    BeforeExtends(x, i + 1);
    FinalIsBounded(x);
    LayoutHolds(s.mem, base, x.Final());
    NeverConditionFallsThrough(cpu, base, x.Ready(i), w, At(x.func, i), p, x.Final(), s);
  }

  // ---- an accepted function with B.NV ----

  /** b.nv .+64, and nothing but NOPs. */
  function StartingWithNever(): Prefix {
    Prefix(0x1000, [0x5400_020F] + seq(MAX_INSN_CHECK_SIZE - 1, _ => NOP),
           [Info(ID_BCOND, {})] + seq(MAX_INSN_CHECK_SIZE - 1, _ => Info(ID_OTHER, {})))
  }

  lemma NeverDecodes()
    ensures Decode(0x5400_020F) == BCond(15, 64)
  {}

  lemma NeverInsn(func: Addr)
    ensures var r := EmitInsn(Blank(), At(func, 0), 0x5400_020F, Info(ID_BCOND, {}));
      r.Ok? && r.value.avail == CORRUPTIBLE_REGS
  {
    hide Plus, LdrWord, AsBits, Imm19Offset, BranchWord;
    assert CORRUPTIBLE_REGS - {} == CORRUPTIBLE_REGS;
  }

  /** It is accepted and reported rightly. */
  lemma NeverIsAccepted()
    ensures var x := StartingWithNever();
      x.Accepted() && x.Length() == 2 && FaithfulId(x.code[0], x.infos[0].id) && Decode(x.code[0]) == BCond(15, 64)
  {
    var x := StartingWithNever();
    NeverDecodes();
    assert x.code[0] == 0x5400_020F && x.infos[0] == Info(ID_BCOND, {});
    assert x.code[1] == NOP && x.infos[1] == Info(ID_OTHER, {});
    NeverLength();
    OthersAreNotFound(x);
    hide Decode, At, FindsBackJump, Translate;
    assert AcceptsPrefix(x.func, x.code[..2], x.infos) by {
      NeverInsn(x.func);
      NeverPrefix(x);
    }
    AcceptedUnlessFound(x.func, x.code, x.code[..2], x.infos);
  }

  lemma NeverLength()
    ensures PrefixLength(StartingWithNever().code) == PrefixLength(StartingWithNever().code[..2]) == 2
  {}

  lemma OthersAreNotFound(x: Prefix)
    requires x == StartingWithNever()
    ensures !FindsBackJump(x.func, x.code, x.infos[2..])
  {
    assert forall k :: 0 <= k < |x.infos[2..]| ==> x.infos[2..][k] == Info(ID_OTHER, {});
    assert TargetAddr(At(x.func, 2), x.code[2], ID_OTHER) == 0 && !InsidePatch(x.func, 0);
  }

  lemma NeverPrefix(x: Prefix)
    requires x == StartingWithNever() && PrefixLength(x.code[..2]) == 2
    requires var r := EmitInsn(Blank(), At(x.func, 0), 0x5400_020F, Info(ID_BCOND, {}));
      r.Ok? && r.value.avail == CORRUPTIBLE_REGS
    ensures AcceptsPrefix(x.func, x.code[..2], x.infos)
  {
    hide At, LdrAddr, BranchWord, PrefixLength;
    var prefix := x.code[..2];
    var e := EmitInsn(Blank(), At(x.func, 0), 0x5400_020F, Info(ID_BCOND, {})).value;
    assert CORRUPTIBLE_REGS - {} == CORRUPTIBLE_REGS;
    assert EmitInsn(e, At(x.func, 1), NOP, Info(ID_OTHER, {})) == Ok(Put(e, NOP));
    assert EmitPrefix(x.func, prefix, x.infos, 0) == Ok(Blank());
    assert EmitPrefix(x.func, prefix, x.infos, 1) == Ok(e);
    assert EmitPrefix(x.func, prefix, x.infos, 2) == Ok(Put(e, NOP));
  }

  // ---- success and refusal, once the prefix is accepted ----

  /** The prefix is translated without an error. */
  predicate AcceptsPrefix(func: Addr, prefix: seq<Word>, infos: seq<Info>)
    requires |prefix| == REL4G_JUMP_SIZE
  {
    var n := PrefixLength(prefix);
    && n <= |infos|
    && EmitPrefix(func, prefix, infos, n).Ok?
    && EmitReturn(EmitPrefix(func, prefix, infos, n).value, func).Ok?
  }

  lemma AcceptedUnlessFound(func: Addr, code: seq<Word>, prefix: seq<Word>, infos: seq<Info>)
    requires |prefix| == REL4G_JUMP_SIZE && |code| == MAX_INSN_CHECK_SIZE && prefix <= code
    requires AcceptsPrefix(func, prefix, infos) && !FindsBackJump(func, code, infos[PrefixLength(code)..])
    ensures Translate(func, code, infos).Ok?
  {
    hide EmitInsn, EmitReturn, FindsBackJump, At;
    assert code[0] == prefix[0] && code[1] == prefix[1];
    assert EmitPrefix(func, code, infos, 0) == EmitPrefix(func, prefix, infos, 0);
    assert EmitPrefix(func, code, infos, 1) == EmitPrefix(func, prefix, infos, 1);
  }

  lemma RefusedIfFound(func: Addr, code: seq<Word>, infos: seq<Info>)
    requires |code| == MAX_INSN_CHECK_SIZE && AcceptsPrefix(func, code[..2], infos)
    requires FindsBackJump(func, code, infos[PrefixLength(code)..])
    ensures Translate(func, code, infos) == Err(FOUND_BACK_JUMP)
  {
    hide EmitInsn, EmitReturn, FindsBackJump, At;
    var prefix := code[..2];
    assert EmitPrefix(func, code, infos, 0) == EmitPrefix(func, prefix, infos, 0);
    assert EmitPrefix(func, code, infos, 1) == EmitPrefix(func, prefix, infos, 1);
  }

  // ---- branches back ----

  /** How far a direct branch goes. */
  function BranchOffset(w: Word): Option<bv64> {
    match Decode(w)
    case B(off) => Some(off)
    case Bl(off) => Some(off)
    case BCond(_, off) => Some(off)
    case Cb(_, _, _, off) => Some(off)
    case Tb(_, _, _, off) => Some(off)
    case _ => None
  }

  /** The word at `src` is a direct branch into the patch. */
  predicate BranchesTo(func: Addr, w: Word, src: Addr) {
    BranchOffset(w).Some? && InsidePatch(func, Plus(src, BranchOffset(w).value))
  }

  const BRANCHES: set<InsnId> := {ID_B, ID_BL, ID_BCOND, ID_CBNZ, ID_CBZ, ID_TBNZ, ID_TBZ}

  /** target_addr gives the place the branch goes to. */
  predicate HasTarget(addr: Addr, w: Word, id: InsnId) {
    BranchOffset(w).Some? ==> id in BRANCHES && TargetAddr(addr, w, id) == Plus(addr, BranchOffset(w).value)
  }

  lemma TargetOfLong(addr: Addr, w: Word, id: InsnId)
    requires FaithfulId(w, id) && (Decode(w).B? || Decode(w).Bl?)
    ensures HasTarget(addr, w, id)
  {
    hide Decode, Plus, PagePlus, Imm26, Imm19, Imm14, ImmAdr, Imm26Offset, Imm19Offset, Imm14Offset, ImmAdrOffset;
    hide Rd, TbBit, LiteralAccess;
    if Decode(w).B? { SourceB(w); } else { SourceBl(w); }
    Imm26Macro(w);
  }

  lemma TargetOfBCond(addr: Addr, w: Word, id: InsnId)
    requires FaithfulId(w, id) && Decode(w).BCond?
    ensures HasTarget(addr, w, id)
  {
    hide Decode, Plus, PagePlus, Imm26, Imm19, Imm14, ImmAdr, Imm26Offset, Imm19Offset, Imm14Offset, ImmAdrOffset;
    hide Rd, TbBit, LiteralAccess;
    SourceBCond(w);
    Imm19Macro(w);
  }

  lemma TargetOfCb(addr: Addr, w: Word, id: InsnId)
    requires FaithfulId(w, id) && Decode(w).Cb?
    ensures HasTarget(addr, w, id)
  {
    hide Decode, Plus, PagePlus, Imm26, Imm19, Imm14, ImmAdr, Imm26Offset, Imm19Offset, Imm14Offset, ImmAdrOffset;
    hide Rd, TbBit, LiteralAccess;
    SourceCb(w);
    Imm19Macro(w);
  }

  lemma TargetOfTb(addr: Addr, w: Word, id: InsnId)
    requires FaithfulId(w, id) && Decode(w).Tb?
    ensures HasTarget(addr, w, id)
  {
    hide Decode, Plus, PagePlus, Imm26, Imm19, Imm14, ImmAdr, Imm26Offset, Imm19Offset, Imm14Offset, ImmAdrOffset;
    hide Rd, TbBit, LiteralAccess;
    SourceTb(w);
    Imm14Macro(w);
  }

  /** For a direct branch that is classified as one, target_addr gives the place it goes to. */
  lemma TargetOfBranch(addr: Addr, w: Word, id: InsnId)
    requires FaithfulId(w, id) && BranchOffset(w).Some?
    ensures id in BRANCHES && TargetAddr(addr, w, id) == Plus(addr, BranchOffset(w).value)
  {
    hide Decode, Plus, TargetAddr, FaithfulId;
    match Decode(w) {
      case B(_) => TargetOfLong(addr, w, id);
      case Bl(_) => TargetOfLong(addr, w, id);
      case BCond(_, _) => TargetOfBCond(addr, w, id);
      case Cb(_, _, _, _) => TargetOfCb(addr, w, id);
      case Tb(_, _, _, _) => TargetOfTb(addr, w, id);
    }
  }

  /** A branch into the patch from the first word behind it is found, whichever report is the one of this word. */
  lemma FirstBackJumpIsFound(func: Addr, code: seq<Word>, rest: seq<Info>, k: nat)
    requires |code| > 2 && k < |rest| && FaithfulId(code[2], rest[k].id)
    requires BranchesTo(func, code[2], At(func, 2))
    ensures FindsBackJump(func, code, rest)
  {
    hide FaithfulId, BranchOffset, TargetAddr, InsidePatch, At, Plus;
    TargetOfBranch(At(func, 2), code[2], rest[k].id);
    assert InsidePatch(func, TargetAddr(At(func, 2), code[2], rest[k].id));
  }
}
