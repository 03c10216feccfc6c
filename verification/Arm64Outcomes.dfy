/** What the arm64 translator answers: for every function and every list of reports, success and each result code by
    conditions on the words, the registers and the number of reports alone. */
module Arm64Outcomes {
  import opened Common
  import opened A64Machine
  import opened Arm64Translator
  import opened Arm64Words
  import opened Arm64Plans

  // ---- scratch registers ----

  /** The scratch register is the lowest of x9-x15 that is available, if any is. */
  lemma ScratchIsLowest(avail: set<Reg>)
    ensures ToRegno(avail).Ok? <==> exists r: Reg :: 9 <= r <= 15 && r in avail
    ensures ToRegno(avail).Ok? ==>
      var r := ToRegno(avail).value; 9 <= r <= 15 && r in avail && forall q: Reg :: 9 <= q && q in avail ==> r <= q
    ensures ToRegno(avail).Err? ==> ToRegno(avail).code == NO_AVAILABLE_REGISTERS
  {
    if r: Reg :| 9 <= r <= 15 && r in avail { OneOfSeven(r); }
  }

  lemma OneOfSeven(r: Reg)
    requires 9 <= r <= 15
    ensures r == 9 || r == 10 || r == 11 || r == 12 || r == 13 || r == 14 || r == 15
  {}

  /** One of x9-x15 is mentioned by none of the first `n` words. */
  ghost predicate SomeRegisterLeft(infos: seq<Info>, n: nat)
    requires n <= |infos|
  {
    exists r: Reg :: 9 <= r <= 15 && IsLeft(infos, n, r)
  }

  ghost predicate IsLeft(infos: seq<Info>, n: nat, r: Reg)
    requires n <= |infos|
  {
    forall j :: 0 <= j < n ==> r !in infos[j].regs
  }

  lemma SevenRegisters(r: Reg)
    ensures r in CORRUPTIBLE_REGS <==> 9 <= r <= 15
  {}

  lemma {:induction false} AvailableIsLeft(func: Addr, code: seq<Word>, infos: seq<Info>, n: nat, r: Reg)
    requires n <= REL4G_JUMP_SIZE && n <= |code| && n <= |infos| && EmitPrefix(func, code, infos, n).Ok?
    ensures r in EmitPrefix(func, code, infos, n).value.avail <==> 9 <= r <= 15 && IsLeft(infos, n, r)
    decreases n
  {
    hide PlanInsn, Assemble, At;
    if n == 0 {
      SevenRegisters(r);
    } else {
      AvailableIsLeft(func, code, infos, n - 1, r);
      AssembledAvail(func, code, infos, n);
    }
  }

  lemma AssembledAvail(func: Addr, code: seq<Word>, infos: seq<Info>, n: nat)
    requires 0 < n <= REL4G_JUMP_SIZE && n <= |code| && n <= |infos| && EmitPrefix(func, code, infos, n).Ok?
    ensures EmitPrefix(func, code, infos, n - 1).Ok?
    ensures EmitPrefix(func, code, infos, n).value.avail
      == EmitPrefix(func, code, infos, n - 1).value.avail - infos[n - 1].regs
  {
    hide PlanInsn, At, LdrWord, AsBits;
  }

  // ---- one word ----

  const LOADS: set<InsnId> := {ID_LDR, ID_LDRSW, ID_PRFM}
  const COPIES: set<InsnId> := {ID_OTHER, ID_ADR, ID_ADRP}

  /** A word, as it is reported, for which a scratch register is needed. */
  predicate AsksForRegister(w: Word, id: InsnId) { id !in COPIES && (id in LOADS ==> w & 0x2000_0000 == 0) }

  /** A word that is reported as a literal load and is none. */
  predicate IsStrange(w: Word, id: InsnId) { id in LOADS && w & 0x2000_0000 == 0 && LiteralAccess(w).None? }

  lemma KnownLoads(w: Word)
    ensures BaseLoadOpcode(w).Some? <==> LiteralAccess(w).Some?
  {}

  /** When a word can be translated, for any report. */
  lemma PlanExists(avail: set<Reg>, src: Addr, w: Word, id: InsnId)
    ensures var p := PlanInsn(avail, src, w, id);
      var starved := AsksForRegister(w, id) && !exists r: Reg :: 9 <= r <= 15 && r in avail;
      && (p.Ok? <==> !starved && !IsStrange(w, id))
      && (p == Err(NO_AVAILABLE_REGISTERS) <==> starved)
      && (p == Err(INTERNAL_ERROR) <==> !starved && IsStrange(w, id))
  {
    ScratchIsLowest(avail);
    KnownLoads(w);
    hide ToRegno, BaseLoadOpcode, LiteralAccess, Plus, PagePlus, ImmAdrOffset, Imm26Offset, Imm19Offset, Imm14Offset;
    hide SkipUnlessCond, SkipUnlessCb, SkipUnlessTb, BranchWord, LinkableBranchWord, BaseLoadWord, Rd;
  }

  /** The words that use the program counter for something a literal alone cannot replace. */
  predicate NeedsRegister(w: Word) {
    match Decode(w)
    case B(_) => true
    case Bl(_) => true
    case BCond(_, _) => true
    case Cb(_, _, _, _) => true
    case Tb(_, _, _, _) => true
    case LdrLit(_, _, _) => true
    case _ => false
  }

  lemma ReportedNeeds(w: Word, id: InsnId)
    requires FaithfulId(w, id)
    ensures AsksForRegister(w, id) <==> NeedsRegister(w)
    ensures !IsStrange(w, id)
  {
    hide Decode, LiteralAccess;
    if Decode(w).LdrLit? {
      SourceLdrLit(w);
      LiteralHasNoBit29(w);
    }
  }

  /** A word that is reported rightly can be translated if and only if it needs no scratch register or one is
      available; there is no other error. */
  lemma ReportedPlanExists(avail: set<Reg>, src: Addr, w: Word, id: InsnId)
    requires FaithfulId(w, id)
    ensures var p := PlanInsn(avail, src, w, id);
      var possible := NeedsRegister(w) ==> exists r: Reg :: 9 <= r <= 15 && r in avail;
      if possible then p.Ok? else p == Err(NO_AVAILABLE_REGISTERS)
  {
    hide PlanInsn, FaithfulId, NeedsRegister, AsksForRegister, IsStrange;
    PlanExists(avail, src, w, id);
    ReportedNeeds(w, id);
  }

  // ---- the scan ----

  /** What a word at the address refers to when it is read as an instruction of a class, 0 if to nothing. */
  function ReadAs(addr: Addr, w: Word, id: InsnId): Addr {
    match id
    case ID_ADR => Plus(addr, ImmAdr(w))
    case ID_ADRP => PagePlus(addr, ImmAdr(w) << 12)
    case ID_B | ID_BL => Plus(addr, Imm26(w))
    case ID_BCOND | ID_CBNZ | ID_CBZ => Plus(addr, Imm19(w))
    case ID_TBNZ | ID_TBZ => Plus(addr, Imm14(w))
    case ID_LDR | ID_LDRSW | ID_PRFM => if w & 0x2000_0000 != 0 then 0 else Plus(addr, Imm19(w))
    case ID_OTHER => 0
  }

  lemma TargetIsReading(addr: Addr, w: Word, id: InsnId)
    ensures TargetAddr(addr, w, id) == ReadAs(addr, w, id)
  {
    hide Plus, PagePlus, Imm26, Imm19, Imm14, ImmAdr, Imm26Offset, Imm19Offset, Imm14Offset, ImmAdrOffset;
    Imm26Macro(w);
    Imm19Macro(w);
    Imm14Macro(w);
    ImmAdrMacro(w);
  }

  predicate StrictlyBetween(low: Addr, a: Addr, high: Addr) { low < a < high }

  /** Behind the first byte of the function and in front of its third word. */
  predicate StrictlyInside(func: Addr, a: Addr) { StrictlyBetween(func, a, Plus(func, 8)) }

  /** Some report from number `n` on makes the third word look like a reference into the patch. */
  ghost predicate LooksBack(func: Addr, code: seq<Word>, infos: seq<Info>, n: nat)
    requires |code| > 2
  {
    exists k :: n <= k < |infos| && StrictlyInside(func, ReadAs(Plus(func, 8), code[2], infos[k].id))
  }

  lemma ThirdAddress(func: Addr)
    ensures At(func, 2) == Plus(func, 8)
  {
    hide Plus;
  }

  lemma PatchIsBetween(func: Addr, a: Addr)
    ensures InsidePatch(func, a) <==> StrictlyBetween(func, a, At(func, 2))
  {
    hide Plus, At;
  }

  lemma InsideExactly(func: Addr, a: Addr)
    ensures InsidePatch(func, a) <==> StrictlyInside(func, a)
  {
    hide Plus, At, StrictlyBetween, InsidePatch;
    ThirdAddress(func);
    PatchIsBetween(func, a);
  }

  lemma ScanExactly(func: Addr, code: seq<Word>, infos: seq<Info>, n: nat)
    requires |code| > 2 && n <= |infos|
    ensures FindsBackJump(func, code, infos[n..]) <==> LooksBack(func, code, infos, n)
  {
    hide TargetAddr, ReadAs, Plus, InsidePatch, At, StrictlyInside;
    var rest := infos[n..];
    ThirdAddress(func);
    forall k | 0 <= k < |rest|
      ensures InsidePatch(func, TargetAddr(At(func, 2), code[2], rest[k].id))
        <==> StrictlyInside(func, ReadAs(Plus(func, 8), code[2], infos[n + k].id))
    {
      TargetIsReading(At(func, 2), code[2], rest[k].id);
      InsideExactly(func, TargetAddr(At(func, 2), code[2], rest[k].id));
    }
    if FindsBackJump(func, code, rest) {
      var k :| 0 <= k < |rest| && InsidePatch(func, TargetAddr(At(func, 2), code[2], rest[k].id));
      assert StrictlyInside(func, ReadAs(Plus(func, 8), code[2], infos[n + k].id));
    }
    if LooksBack(func, code, infos, n) {
      var k :| n <= k < |infos| && StrictlyInside(func, ReadAs(Plus(func, 8), code[2], infos[k].id));
      assert infos[n + (k - n)] == infos[k];
      assert InsidePatch(func, TargetAddr(At(func, 2), code[2], rest[k - n].id));
    }
  }

  // ---- the whole translation ----

  /** How many words are translated: a B in front of UDF is a prefix of its own. */
  function WordsCovered(code: seq<Word>): nat
    requires |code| >= 2
  {
    if Decode(code[0]).B? && IsUndefined(code[1]) then 1 else 2
  }

  predicate HasBranchBits(w: Word) { w & 0xFC00_0000 == 0x1400_0000 }

  predicate HasNoUpperHalf(w: Word) { w & 0xFFFF_0000 == 0 }

  predicate IsUndefined(w: Word) { w < 0x1_0000 }

  lemma UndefinedWord(w: Word)
    ensures HasNoUpperHalf(w) <==> IsUndefined(w)
  {}

  lemma BranchWordIsB(w: Word)
    ensures Decode(w).B? <==> HasBranchBits(w)
  {
    if Decode(w).B? { SourceB(w); } else if HasBranchBits(w) { NotAdr(w); }
    hide Imm26, Imm19, Imm14, ImmAdr, LiteralAccess, BaseAccess, TbBit, Rd, Rn;
  }

  lemma NotAdr(w: Word)
    requires HasBranchBits(w)
    ensures w & 0x9F00_0000 != 0x1000_0000 && w & 0x9F00_0000 != 0x9000_0000
  {}

  lemma BitsOfPrefix(code: seq<Word>)
    requires |code| >= 2
    ensures BranchThenUndefined(code) <==> HasBranchBits(code[0]) && HasNoUpperHalf(code[1])
  {}

  lemma LengthIsCovered(code: seq<Word>)
    requires |code| >= 2
    ensures PrefixLength(code) == WordsCovered(code)
  {
    hide Decode, BranchThenUndefined, HasBranchBits, HasNoUpperHalf, IsUndefined;
    BitsOfPrefix(code);
    BranchWordIsB(code[0]);
    UndefinedWord(code[1]);
  }

  /** A reported word for which no scratch register is left. */
  ghost predicate IsStarved(code: seq<Word>, infos: seq<Info>, i: nat)
    requires i < |code| && i < |infos|
  {
    AsksForRegister(code[i], infos[i].id) && !SomeRegisterLeft(infos, i + 1)
  }

  ghost predicate IsTranslatable(code: seq<Word>, infos: seq<Info>, i: nat)
    requires i < |code| && i < |infos|
  {
    !IsStarved(code, infos, i) && !IsStrange(code[i], infos[i].id)
  }

  /** The first `n` words can be translated. */
  ghost predicate AllTranslatable(code: seq<Word>, infos: seq<Info>, n: nat)
    requires n <= |code| && n <= |infos|
  {
    forall i :: 0 <= i < n ==> IsTranslatable(code, infos, i)
  }

  /** Behind words that can be translated, among the first `n`, there is one that lacks a register, or a strange one. */
  ghost predicate FirstIsStarved(code: seq<Word>, infos: seq<Info>, n: nat)
    requires n <= |code| && n <= |infos|
  {
    exists i :: 0 <= i < n && AllTranslatable(code, infos, i) && IsStarved(code, infos, i)
  }

  ghost predicate FirstIsStrange(code: seq<Word>, infos: seq<Info>, n: nat)
    requires n <= |code| && n <= |infos|
  {
    exists i :: 0 <= i < n && AllTranslatable(code, infos, i)
      && !IsStarved(code, infos, i) && IsStrange(code[i], infos[i].id)
  }

  lemma EmitExactly(func: Addr, code: seq<Word>, infos: seq<Info>, n: nat)
    requires 0 < n <= REL4G_JUMP_SIZE && n <= |code| && n <= |infos| && EmitPrefix(func, code, infos, n - 1).Ok?
    ensures var r := EmitPrefix(func, code, infos, n);
      && (r.Ok? <==> IsTranslatable(code, infos, n - 1))
      && (r == Err(NO_AVAILABLE_REGISTERS) <==> IsStarved(code, infos, n - 1))
      && (r == Err(INTERNAL_ERROR) <==> !IsStarved(code, infos, n - 1) && IsStrange(code[n - 1], infos[n - 1].id))
  {
    var e := EmitPrefix(func, code, infos, n - 1).value;
    var avail := e.avail - infos[n - 1].regs;
    forall r: Reg ensures r in avail <==> 9 <= r <= 15 && IsLeft(infos, n, r) {
      AvailableIsLeft(func, code, infos, n - 1, r);
    }
    PlanExists(avail, At(func, n - 1), code[n - 1], infos[n - 1].id);
    hide PlanInsn, Assemble, At, AsksForRegister, IsStrange, IsLeft;
    assert (exists r: Reg :: 9 <= r <= 15 && r in avail) <==> SomeRegisterLeft(infos, n);
  }

  lemma {:induction false} PrefixExactly(func: Addr, code: seq<Word>, infos: seq<Info>, n: nat)
    requires n <= REL4G_JUMP_SIZE && n <= |code| && n <= |infos|
    ensures var r := EmitPrefix(func, code, infos, n);
      && (r.Ok? <==> AllTranslatable(code, infos, n))
      && (r == Err(NO_AVAILABLE_REGISTERS) <==> FirstIsStarved(code, infos, n))
      && (r == Err(INTERNAL_ERROR) <==> FirstIsStrange(code, infos, n))
    decreases n
  {
    hide EmitInsn, IsStrange, IsStarved;
    if n > 0 {
      PrefixExactly(func, code, infos, n - 1);
      if EmitPrefix(func, code, infos, n - 1).Ok? { EmitExactly(func, code, infos, n); }
    }
  }

  lemma ReturnExactly(func: Addr, code: seq<Word>, infos: seq<Info>, n: nat)
    requires n <= REL4G_JUMP_SIZE && n <= |code| && n <= |infos| && EmitPrefix(func, code, infos, n).Ok?
    ensures var r := EmitReturn(EmitPrefix(func, code, infos, n).value, func);
      if SomeRegisterLeft(infos, n) then r.Ok? else r == Err(NO_AVAILABLE_REGISTERS)
  {
    var avail := EmitPrefix(func, code, infos, n).value.avail;
    forall r: Reg ensures r in avail <==> 9 <= r <= 15 && IsLeft(infos, n, r) {
      AvailableIsLeft(func, code, infos, n, r);
    }
    ScratchIsLowest(avail);
    hide ToRegno, Assemble, At, EmitPrefix, BranchWord, IsLeft;
    assert (exists r: Reg :: 9 <= r <= 15 && r in avail) <==> SomeRegisterLeft(infos, n);
  }

  /** Every answer of the translator, for every function and every list of reports: when it is a success, and when
      it is which error. */
  lemma TranslateExactly(func: Addr, code: seq<Word>, infos: seq<Info>)
    requires |code| == MAX_INSN_CHECK_SIZE
    ensures var r, n := Translate(func, code, infos), WordsCovered(code);
      var m := if |infos| < n then |infos| else n;
      var prefix := m == n && AllTranslatable(code, infos, n);
      && (r.Ok? <==> prefix && SomeRegisterLeft(infos, n) && !LooksBack(func, code, infos, n))
      && (r == Err(FOUND_BACK_JUMP) <==> prefix && SomeRegisterLeft(infos, n) && LooksBack(func, code, infos, n))
      && (r == Err(NO_AVAILABLE_REGISTERS)
        <==> FirstIsStarved(code, infos, m) || (prefix && !SomeRegisterLeft(infos, n)))
      && (r == Err(INTERNAL_ERROR) <==> FirstIsStrange(code, infos, m))
      && (r == Err(TOO_SHORT_INSTRUCTIONS) <==> 0 < |infos| < n && AllTranslatable(code, infos, |infos|))
      && (r == Err(DISASSEMBLY) <==> |infos| == 0)
  {
    hide EmitPrefix, EmitReturn, FindsBackJump, LooksBack, SomeRegisterLeft, IsTranslatable, WordsCovered, PrefixLength;
    LengthIsCovered(code);
    LengthIsSmall(code);
    var n := WordsCovered(code);
    var m := if |infos| < n then |infos| else n;
    PrefixExactly(func, code, infos, m);
    if EmitPrefix(func, code, infos, m).Err? { PrefixErrors(func, code, infos, m); }
    OneFirst(code, infos, m);
    if m == n && |infos| > 0 {
      ScanExactly(func, code, infos, n);
      if EmitPrefix(func, code, infos, n).Ok? { ReturnExactly(func, code, infos, n); }
    }
  }

  lemma LengthIsSmall(code: seq<Word>)
    requires |code| >= 2
    ensures 1 <= PrefixLength(code) <= 2
  {}

  /** A prefix with a word that cannot be translated is not translatable, and no word is the first bad one twice. */
  lemma OneFirst(code: seq<Word>, infos: seq<Info>, n: nat)
    requires n <= |code| && n <= |infos|
    ensures FirstIsStarved(code, infos, n) ==> !AllTranslatable(code, infos, n)
    ensures FirstIsStrange(code, infos, n) ==> !AllTranslatable(code, infos, n)
  {
    hide IsStarved, IsStrange;
    if FirstIsStarved(code, infos, n) {
      var i :| 0 <= i < n && AllTranslatable(code, infos, i) && IsStarved(code, infos, i);
      assert !IsTranslatable(code, infos, i);
    }
    if FirstIsStrange(code, infos, n) {
      var i :| 0 <= i < n && AllTranslatable(code, infos, i) && IsStrange(code[i], infos[i].id);
      assert !IsTranslatable(code, infos, i);
    }
  }

  /** For words that are reported rightly: a success if and only if all of them are reported, every one that needs a
      scratch register finds one, so does the jump back, and the third word does not look like a reference back;
      otherwise one of four codes. */
  lemma ReportedTranslateExactly(func: Addr, code: seq<Word>, infos: seq<Info>)
    requires |code| == MAX_INSN_CHECK_SIZE
    requires forall i :: 0 <= i < WordsCovered(code) && i < |infos| ==> FaithfulId(code[i], infos[i].id)
    ensures var r, n := Translate(func, code, infos), WordsCovered(code);
      var m := if |infos| < n then |infos| else n;
      var served := forall i :: 0 <= i < m ==> NeedsRegister(code[i]) ==> SomeRegisterLeft(infos, i + 1);
      && (r == Err(DISASSEMBLY) <==> |infos| == 0)
      && (r == Err(TOO_SHORT_INSTRUCTIONS) <==> 0 < |infos| < n && served)
      && (r == Err(NO_AVAILABLE_REGISTERS) <==> !served || (m == n && !SomeRegisterLeft(infos, n)))
      && (r == Err(FOUND_BACK_JUMP)
        <==> m == n && served && SomeRegisterLeft(infos, n) && LooksBack(func, code, infos, n))
      && (r.Ok? <==> m == n && served && SomeRegisterLeft(infos, n) && !LooksBack(func, code, infos, n))
  {
    hide Translate, FaithfulId, NeedsRegister, AsksForRegister, IsStrange, SomeRegisterLeft, LooksBack, WordsCovered;
    LengthIsCovered(code);
    LengthIsSmall(code);
    TranslateExactly(func, code, infos);
    var n := WordsCovered(code);
    var m := if |infos| < n then |infos| else n;
    forall i | 0 <= i < m
      ensures IsTranslatable(code, infos, i) <==> (NeedsRegister(code[i]) ==> SomeRegisterLeft(infos, i + 1))
      ensures IsStarved(code, infos, i) <==> !IsTranslatable(code, infos, i)
    {
      ReportedNeeds(code[i], infos[i].id);
    }
    SomeFirst(code, infos, m);
  }

  /** Where starvation is the only failure, some word is the first to starve unless all can be translated. */
  lemma {:induction false} SomeFirst(code: seq<Word>, infos: seq<Info>, n: nat)
    requires n <= |code| && n <= |infos|
    requires forall i :: 0 <= i < n ==> (IsStarved(code, infos, i) <==> !IsTranslatable(code, infos, i))
    ensures FirstIsStarved(code, infos, n) <==> !AllTranslatable(code, infos, n)
    decreases n
  {
    hide IsStarved, IsTranslatable;
    if n > 0 { SomeFirst(code, infos, n - 1); }
  }
}
