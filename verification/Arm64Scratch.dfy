/** Prefixes that use the scratch register of an earlier block: exactly which they are, and what happens then. */
module Arm64Scratch {
  import opened Common
  import opened A64Machine
  import opened Arm64Translator
  import opened Arm64Words
  import opened Arm64Plans
  import opened Arm64Blocks
  import opened Arm64Simulation

  /** Reported rightly, and no B.NV. */
  ghost predicate Reported(cpu: Cpu, x: Prefix, i: nat)
    requires x.Accepted() && i < x.Length() && i < |x.infos|
  {
    Faithful(cpu, x.code[i], x.infos[i]) && (Decode(x.code[i]).BCond? ==> Decode(x.code[i]).cond != 15)
  }

  ghost predicate AllReported(cpu: Cpu, x: Prefix)
    requires x.Accepted()
  {
    forall i :: 0 <= i < x.Length() && i < |x.infos| ==> Reported(cpu, x, i)
  }

  predicate IsLiteral(w: Word) { Decode(w).LdrLit? }

  /** The lowest of x9-x15 that a report leaves free. */
  function LowestFree(info: Info): Result<Reg> { ToRegno(CORRUPTIBLE_REGS - info.regs) }

  /** The first word is a literal load and the second one reads the lowest register that the report of the first one
      leaves free: something to be seen in the words and reports alone. */
  ghost predicate ReadsScratch(cpu: Cpu, x: Prefix)
    requires x.Accepted()
  {
    && x.Length() == 2 && |x.infos| > 0 && IsLiteral(x.code[0])
    && LowestFree(x.infos[0]).Ok? && LowestFree(x.infos[0]).value in Reads(cpu, x.code[1])
  }

  lemma FirstPlan(cpu: Cpu, x: Prefix)
    requires x.Accepted() && |x.infos| > 0 && Reported(cpu, x, 0)
    ensures PlanMeans(x.func, x.code[0], x.PlanOf(0))
    ensures x.PlanOf(0).Through? ==> LowestFree(x.infos[0]) == Ok(x.PlanOf(0).scratch)
    ensures x.Ready(0).dst == [] && x.Ready(0).pool == [] && x.Before(0).dst == []
  {
    hide PlanInsn, Decode, FaithfulId, PlanMeans, ToRegno, EmitReturn;
    EmittedSoFar(x, 1);
    PlanInsnMeans(x.Ready(0).avail, At(x.func, 0), x.code[0], x.infos[0].id);
    BeforeNext(x, 0);
  }

  lemma DirtAfterFirst(cpu: Cpu, x: Prefix)
    requires x.Accepted() && |x.infos| > 0 && Reported(cpu, x, 0)
    ensures IsLiteral(x.code[0]) ==> x.PlanOf(0).Through? && DirtAt(cpu, x, Entry, 1) == {x.PlanOf(0).scratch}
    ensures !IsLiteral(x.code[0]) ==> DirtAt(cpu, x, Entry, 1) == {}
  {
    hide PlanInsn, Decode, FaithfulId, ToRegno, Translate, Writes, Reads;
    FirstPlan(cpu, x);
    NoDirtAtEntry(cpu, x);
    assert DirtAt(cpu, x, Entry, 1) == Dirt(cpu, x.code[0], x.PlanOf(0), {}, false);
  }

  /** The assumption of TrampolinePreservesMeaning, spelled out: exactly the prefixes in which the second word reads the
      scratch register of a literal load are excluded. */
  lemma WellBehavedExactly(cpu: Cpu, x: Prefix)
    requires x.Accepted()
    ensures WellBehaved(cpu, x, Entry)
      <==> AllReported(cpu, x) && !ReadsScratch(cpu, x)
  {
    hide Translate, PlanInsn, Decode, Faithful, ToRegno, Reads, Writes, DirtAt, IsLiteral, PlanMeans, PrefixLength;
    EmittedSoFar(x, x.Length());
    LengthIsShort(x);
    if AllReported(cpu, x) {
      assert Reported(cpu, x, 0);
      DirtAfterFirst(cpu, x);
      FirstPlan(cpu, x);
      NoDirtAtEntry(cpu, x);
      assert Reads(cpu, x.code[0]) !! DirtAt(cpu, x, Entry, 0);
      if x.Length() == 2 {
        assert Reported(cpu, x, 1);
        assert Reads(cpu, x.code[1]) !! DirtAt(cpu, x, Entry, 1) <==> !ReadsScratch(cpu, x);
      }
    } else {
      var i :| 0 <= i < x.Length() && i < |x.infos| && !Reported(cpu, x, i);
      assert !Faithful(cpu, x.code[i], x.infos[i]) || (Decode(x.code[i]).BCond? && Decode(x.code[i]).cond == 15);
    }
  }

  lemma LengthIsShort(x: Prefix)
    requires x.Accepted()
    ensures 1 <= x.Length() <= 2
  {}

  /** The state behind a literal load in the trampoline: the original's, with the literal's address in the scratch. */
  function LeftBehind(cpu: Cpu, x: Prefix, s: State): State
    requires x.Accepted() && x.PlanOf(0).Through?
  {
    SetX(Step(cpu, x.code[0], x.func, s).0, x.PlanOf(0).scratch, x.PlanOf(0).addr)
  }

  /** The block of the literal load: its last word runs with the address in the scratch register. */
  lemma FirstBlockRuns(cpu: Cpu, x: Prefix, base: Addr, s: State)
    requires x.Accepted() && x.Length() == 2 && |x.infos| > 0 && x.PlanOf(0).Through? && x.PlanOf(0).skip.None?
    requires Decode(x.PlanOf(0).last).LdrBase? && x.PlanOf(0).scratch != XZR && Loaded(s.mem, base, Layout(x.Final()))
    ensures var p := x.PlanOf(0); var LdrBase(access, r, n) := Decode(p.last);
      var t := SetX(s, p.scratch, p.addr);
      Run(cpu, 2, Config(base, s)) == Config(BlockAt(x, base, 1), Load(access, r, Base(t, n), t))
  {
    hide Translate, EmitInsn, Decode, WordAt, Layout, Loaded, Run, PlanInsn, Holds, Extends, Assemble, SetX, Load;
    var p := x.PlanOf(0);
    FinalIsBounded(x);
    LayoutHolds(s.mem, base, x.Final());
    BeforeNext(x, 0);
    BeforeExtends(x, 1);
    assert x.Before(0).dst == [];
    assert Start(base, x.Ready(0), s) == Config(base, s) by { PlusZero(base); WordZeroAt(base); }
    RunThrough(cpu, base, x.Ready(0), p, x.Final(), s);
  }

  lemma FirstBlock(cpu: Cpu, x: Prefix, base: Addr, s: State)
    requires x.Accepted() && x.Length() == 2 && |x.infos| > 0 && Reported(cpu, x, 0) && IsLiteral(x.code[0])
    requires Loaded(s.mem, base, Layout(x.Final()))
    ensures x.PlanOf(0).Through? && Step(cpu, x.code[0], x.func, s).1.None?
    ensures var c := Run(cpu, 2, Config(base, s));
      c.pc == BlockAt(x, base, 1) && Agree(LeftBehind(cpu, x, s), c.s, {})
  {
    hide Translate, Decode, Layout, Loaded, Run, PlanInsn, Reads, Writes, FaithfulId, Agree, Load, SetX, Base,
         PlanMeans, Step, BlockAt, ToRegno;
    FirstPlan(cpu, x);
    DirtAfterFirst(cpu, x);
    var p := x.PlanOf(0);
    PlanScratch1(cpu, x);
    SourceLiteral(cpu, x.code[0], x.func, p, s);
    FirstBlockRuns(cpu, x, base, s);
    var LdrLit(access, r, off) := Decode(x.code[0]);
    SameLoad(access, r, p.scratch, p.addr, s);
  }

  lemma WordZeroAt(base: Addr)
    ensures WordAt(base, 0) == Plus(base, 0)
  {}

  lemma PlanScratch1(cpu: Cpu, x: Prefix)
    requires x.Accepted() && |x.infos| > 0 && Reported(cpu, x, 0) && x.PlanOf(0).Through?
    ensures x.PlanOf(0).scratch in CORRUPTIBLE_REGS - Writes(cpu, x.code[0]) && x.PlanOf(0).scratch != XZR
  {
    hide PlanInsn, PlanMeans, Translate, Decode, Reads, Writes, FaithfulId, ToRegno;
    FirstPlan(cpu, x);
    ScratchIsFree(CORRUPTIBLE_REGS - x.infos[0].regs, x.PlanOf(0).scratch);
  }

  lemma SameLoad(access: Access, r: Reg, scratch: Reg, a: Addr, s: State)
    requires scratch in CORRUPTIBLE_REGS && scratch !in AccessWrites(access, r)
    ensures Base(SetX(s, scratch, a), scratch) == a
    ensures Agree(SetX(Load(access, r, a, s), scratch, a), Load(access, r, a, SetX(s, scratch, a)), {})
  {
    hide GeneralValue, VectorValue;
  }

  /** What the trampoline does in every such case, whatever the second word is: it goes where the original would go if
      the scratch register held the literal's address behind the first word. */
  lemma LiteralIsLeftBehind(cpu: Cpu, x: Prefix, base: Addr, s: State) returns (n: nat)
    requires Sound(cpu) && x.Accepted() && x.Length() == 2 && |x.infos| > 1
    requires Reported(cpu, x, 0) && Reported(cpu, x, 1) && IsLiteral(x.code[0])
    requires Loaded(s.mem, base, Layout(x.Final())) && x.PlanOf(0).Through?
    requires KeepsTrampoline(cpu, x, base, 1, LeftBehind(cpu, x, s))
    ensures SameOutcome(cpu, x, Origin(1, {}), base, Original(cpu, x, 1, LeftBehind(cpu, x, s)),
      Run(cpu, n, Config(base, s)))
    ensures n <= 7
  {
    hide Translate, Decode, Layout, Loaded, Run, Sound, Step, PlanInsn, SameOutcome, Original, LeftBehind, BlockAt,
         KeepsTrampoline, Reads, Writes, FaithfulId, Agree;
    FirstBlock(cpu, x, base, s);
    var c := Run(cpu, 2, Config(base, s));
    var k := SimulatesFrom(cpu, x, Origin(1, {}), base, 1, LeftBehind(cpu, x, s), c.s);
    RunCompose(cpu, 2, k, Config(base, s));
    n := 2 + k;
  }

  // ---- the outcome changes ----

  /** The words whose next address depends on a register. */
  predicate Steers(w: Word) {
    match Decode(w)
    case Cb(_, _, _, off) => off != 4
    case Tb(_, _, _, off) => off != 4
    case Br(_) => true
    case Blr(_) => true
    case _ => false
  }

  /** A value of the register that makes such a word go elsewhere than `addr` does. */
  function OtherValue(w: Word, addr: bv64): bv64 {
    match Decode(w)
    case Cb(sf, _, _, _) => if CbTest(sf, addr) then 1 else 0
    case Tb(_, bit, _, _) => if TbTest(bit, addr) then 0 else 0xFFFF_FFFF_FFFF_FFFF
    case _ => if addr == 0 then 1 else 0
  }

  lemma BitIsSet(w: Word)
    ensures TbBit(w) != 0
  {}

  lemma TbDecodes(w: Word)
    requires Decode(w).Tb?
    ensures Decode(w).bit == TbBit(w)
  {
    hide TbBit, Imm26, Imm19, Imm14, ImmAdr, LiteralAccess, BaseAccess;
  }

  lemma CbApart(sf: bool, v: bv64)
    ensures CbTest(sf, if CbTest(sf, v) then 1 else 0) != CbTest(sf, v)
  {}

  lemma TbApart(bit: bv64, v: bv64)
    requires bit != 0
    ensures TbTest(bit, if TbTest(bit, v) then 0 else 0xFFFF_FFFF_FFFF_FFFF) != TbTest(bit, v)
  {}

  /** Where a steering word goes. */
  function SteeredTo(w: Word, at: Addr, next: Addr, s: State): Addr {
    match Decode(w)
    case Cb(sf, nonzero, t, off) => if CbTest(sf, X(s, t)) != nonzero then Plus(at, off) else next
    case Tb(nonzero, bit, t, off) => if TbTest(bit, X(s, t)) == nonzero then Plus(at, off) else next
    case Br(n) => X(s, n)
    case Blr(n) => X(s, n)
    case _ => next
  }

  lemma OriginalIsSteered(cpu: Cpu, x: Prefix, s: State)
    requires x.Accepted() && x.Length() == 2 && Steers(x.code[1])
    ensures Original(cpu, x, 1, s).pc == SteeredTo(x.code[1], At(x.func, 1), At(x.func, 2), s)
  {
    var w := x.code[1];
    hide Decode, CbTest, TbTest, Plus, Translate, At;
    var (s', taken) := Step(cpu, w, At(x.func, 1), s);
    assert taken.None? ==> Original(cpu, x, 1, s) == Original(cpu, x, 2, s');
  }

  lemma SteeredApart(w: Word, func: Addr, r: Reg, addr: bv64, s: State, t: State)
    requires Steers(w) && SteersBy(w) == r != XZR && s.x(r) == OtherValue(w, addr) && t.x(r) == addr
    ensures SteeredTo(w, At(func, 1), At(func, 2), s) != SteeredTo(w, At(func, 1), At(func, 2), t)
  {
    hide Decode, CbTest, TbTest, Plus, At, TbBit;
    if Decode(w).Tb? {
      TbDecodes(w);
      BitIsSet(w);
      TbApart(Decode(w).bit, addr);
      TakenIsElsewhere(func, Decode(w).off);
    } else if Decode(w).Cb? {
      CbApart(Decode(w).sf, addr);
      TakenIsElsewhere(func, Decode(w).off);
    }
  }

  function SteersBy(w: Word): Reg
    requires Steers(w)
  {
    match Decode(w)
    case Cb(_, _, t, _) => t
    case Tb(_, _, t, _) => t
    case Br(n) => n
    case Blr(n) => n
  }

  lemma SteersByRead(cpu: Cpu, w: Word, r: Reg)
    requires Steers(w) && r in Reads(cpu, w)
    ensures SteersBy(w) == r
  {
    hide Decode;
  }

  lemma TakenIsElsewhere(func: Addr, off: bv64)
    ensures off != 4 ==> Plus(At(func, 1), off) != At(func, 2)
  {}

  /** For every accepted prefix whose first word is a literal load and whose second word steers by the scratch register,
      there is a value of this register with which the trampoline ends up at another address than the original. */
  lemma ScratchReadChangesOutcome(cpu: Cpu, x: Prefix, base: Addr, s: State) returns (s2: State, n: nat)
    requires Sound(cpu) && x.Accepted() && ReadsScratch(cpu, x) && Steers(x.code[1])
    requires |x.infos| > 1 && Reported(cpu, x, 0) && Reported(cpu, x, 1)
    requires Loaded(s.mem, base, Layout(x.Final()))
    ensures x.PlanOf(0).Through? && s2 == SetX(s, x.PlanOf(0).scratch, s2.x(x.PlanOf(0).scratch))
    ensures var there := Original(cpu, x, 1, LeftBehind(cpu, x, s2)); var c := Run(cpu, n, Config(base, s2));
      SameOutcome(cpu, x, Origin(1, {}), base, there, c) && c.pc == there.pc != Original(cpu, x, 0, s2).pc
    ensures n <= 7
  {
    hide Translate, Layout, Loaded, Run, Sound, PlanInsn, Decode, Reads, Writes, FaithfulId, ToRegno;
    FirstPlan(cpu, x);
    DirtAfterFirst(cpu, x);
    PlanScratch1(cpu, x);
    var p := x.PlanOf(0);
    hide OtherValue, Steers;
    s2 := SetX(s, p.scratch, OtherValue(x.code[1], p.addr));
    FirstBlock(cpu, x, base, s2);
    FirstStep(cpu, x, s2);
    StaysLoaded(cpu, x, base, s2);
    n := LiteralIsLeftBehind(cpu, x, base, s2);
    var s', t := Step(cpu, x.code[0], x.func, s2).0, LeftBehind(cpu, x, s2);
    SteersByRead(cpu, x.code[1], p.scratch);
    OriginalIsSteered(cpu, x, s');
    OriginalIsSteered(cpu, x, t);
    SteeredApart(x.code[1], x.func, p.scratch, p.addr, s', t);
    OriginalSecond(cpu, x, s2);
  }

  lemma OriginalSecond(cpu: Cpu, x: Prefix, s: State)
    requires x.Accepted() && x.Length() == 2 && Step(cpu, x.code[0], x.func, s).1.None?
    ensures Original(cpu, x, 0, s) == Original(cpu, x, 1, Step(cpu, x.code[0], x.func, s).0)
  {
    hide Step, Translate;
  }

  /** The first word itself touches neither the scratch register nor memory. */
  lemma FirstStep(cpu: Cpu, x: Prefix, s: State)
    requires x.Accepted() && |x.infos| > 0 && Reported(cpu, x, 0) && IsLiteral(x.code[0]) && x.PlanOf(0).Through?
    ensures var s' := Step(cpu, x.code[0], x.func, s).0;
      s'.x(x.PlanOf(0).scratch) == s.x(x.PlanOf(0).scratch) && s'.mem == s.mem
    ensures LeftBehind(cpu, x, s).x(x.PlanOf(0).scratch) == x.PlanOf(0).addr && LeftBehind(cpu, x, s).mem == s.mem
  {
    hide Translate, Decode, PlanInsn, Reads, FaithfulId, GeneralValue, VectorValue, ToRegno, Plus, Step, Writes,
         PlanMeans;
    FirstPlan(cpu, x);
    PlanScratch1(cpu, x);
    SourceLiteral(cpu, x.code[0], x.func, x.PlanOf(0), s);
  }

  lemma StaysLoaded(cpu: Cpu, x: Prefix, base: Addr, s: State)
    requires x.Accepted() && x.Length() == 2 && x.PlanOf(0).Through? && Steers(x.code[1])
    requires Loaded(s.mem, base, Layout(x.Final())) && LeftBehind(cpu, x, s).mem == s.mem
    ensures KeepsTrampoline(cpu, x, base, 1, LeftBehind(cpu, x, s))
  {
    var t := LeftBehind(cpu, x, s);
    SteeringKeepsMemory(cpu, x.code[1], At(x.func, 1), t);
    hide Translate, Decode, Layout, Loaded, LeftBehind, Step, Steers;
  }

  lemma SteeringKeepsMemory(cpu: Cpu, w: Word, pc: Addr, s: State)
    requires Steers(w)
    ensures Step(cpu, w, pc, s).0.mem == s.mem
  {
    hide Decode, CbTest, TbTest, Plus;
  }

  // ---- a second word that loads through the scratch register ----

  /** A load whose result can be seen. */
  predicate Fetches(w: Word) {
    match Decode(w)
    case LdrBase(access, t, _) => access != Prefetch && (LoadsGeneral(access) ==> t != XZR)
    case _ => false
  }

  /** What a load puts into its register. */
  datatype Fetched = General(v: bv64) | Vector(q: bv128)

  function Fetch(access: Access, mem: Memory, a: Addr): Fetched {
    if LoadsGeneral(access) then General(GeneralValue(access, mem, a)) else Vector(VectorValue(access, mem, a))
  }

  function Register(access: Access, t: Reg, s: State): Fetched {
    if LoadsGeneral(access) then General(s.x(t)) else Vector(s.q(t))
  }

  function Low32(v: bv64): bv32 { (v & 0xFFFF_FFFF) as bv32 }

  function LowOfVector(q: bv128): bv32 { (q & 0xFFFF_FFFF) as bv32 }

  function LowOf(f: Fetched): bv32 {
    match f
    case General(v) => Low32(v)
    case Vector(q) => LowOfVector(q)
  }

  lemma LowOfJoin(low: bv32, high: bv32)
    ensures Low32(Join(low, high)) == low
  {}

  lemma LowOfWord(v: bv32)
    ensures Low32(v as bv64) == v
  {}

  lemma RawLowOfNegative(v: bv32, d: bv64)
    requires d == (v as bv64) | 0xFFFF_FFFF_0000_0000
    ensures (d & 0xFFFF_FFFF) as bv32 == v
  {}

  lemma LowOfSigned(v: bv32)
    ensures Low32(SignExtend32(v)) == v
  {
    LowOfWord(v);
    RawLowOfNegative(v, (v as bv64) | 0xFFFF_FFFF_0000_0000);
  }

  lemma LowOfSingle(v: bv32)
    ensures LowOfVector(v as bv128) == v
  {}

  lemma LowOfDouble(d: bv64)
    ensures LowOfVector(d as bv128) == Low32(d)
  {}

  lemma LowOfQuad(d: bv64, e: bv64)
    ensures LowOfVector(JoinQuad(d, e)) == Low32(d)
  {}

  lemma LowOfLoad64(mem: Memory, a: Addr)
    ensures Low32(Load64(mem, a)) == Load32(mem, a)
  {
    hide Load32, Join, Low32, Plus;
    LowOfJoin(Load32(mem, a), Load32(mem, Plus(a, 4)));
  }

  lemma LowOfGeneral(access: Access, mem: Memory, a: Addr)
    requires LoadsGeneral(access)
    ensures Low32(GeneralValue(access, mem, a)) == Load32(mem, a)
  {
    hide Load32, Load64, Low32, SignExtend32;
    match access {
      case LoadW => LowOfWord(Load32(mem, a));
      case LoadX => LowOfLoad64(mem, a);
      case LoadSW => LowOfSigned(Load32(mem, a));
    }
  }

  lemma LowOfSingleLoad(mem: Memory, a: Addr)
    ensures LowOfVector(VectorValue(LoadS, mem, a)) == Load32(mem, a)
  {
    hide Load32, Load64, LowOfVector;
    LowOfSingle(Load32(mem, a));
  }

  lemma LowOfDoubleLoad(mem: Memory, a: Addr, access: Access)
    requires access == LoadD || access == Prefetch
    ensures LowOfVector(VectorValue(access, mem, a)) == Load32(mem, a)
  {
    hide Load32, Load64, Low32, LowOfVector;
    LowOfLoad64(mem, a);
    LowOfDouble(Load64(mem, a));
  }

  lemma LowOfQuadWord(mem: Memory, a: Addr)
    ensures LowOfVector(QuadWord(mem, a)) == Low32(Load64(mem, a))
  {
    hide Load64, Low32, LowOfVector, Plus, JoinQuad;
    LowOfQuad(Load64(mem, a), Load64(mem, Plus(a, 8)));
  }

  lemma LowOfQuadLoad(mem: Memory, a: Addr)
    ensures LowOfVector(VectorValue(LoadQ, mem, a)) == Load32(mem, a)
  {
    hide Load32, Load64, Low32, LowOfVector, QuadWord;
    LowOfLoad64(mem, a);
    LowOfQuadWord(mem, a);
  }

  /** The lower 32 bits of what a load of any width gets are the word at its address. */
  lemma LowOfFetch(access: Access, mem: Memory, a: Addr)
    ensures LowOf(Fetch(access, mem, a)) == Load32(mem, a)
  {
    hide Load32, Low32, LowOfVector, GeneralValue, VectorValue;
    if LoadsGeneral(access) {
      LowOfGeneral(access, mem, a);
    } else {
      LowOfSingleLoad(mem, a);
      LowOfQuadLoad(mem, a);
      if access == LoadD || access == Prefetch { LowOfDoubleLoad(mem, a, access); }
    }
  }

  /** The first two words of the trampoline are different, ... */
  lemma WordsDiffer(cpu: Cpu, x: Prefix, mem: Memory, base: Addr)
    requires x.Accepted() && x.Length() == 2 && |x.infos| > 0 && Reported(cpu, x, 0) && IsLiteral(x.code[0])
    requires x.PlanOf(0).Through? && Loaded(mem, base, Layout(x.Final()))
    ensures Load32(mem, WordAt(base, 0)) != Load32(mem, WordAt(base, 1))
  {
    hide Translate, EmitInsn, Decode, WordAt, Layout, Loaded, PlanInsn, PlanMeans, FaithfulId, Load32, Load64,
         Extends, Reads, Writes, ToRegno, LdrWord, AsBits, Low, High, PoolWord;
    var p := x.PlanOf(0);
    FirstPlan(cpu, x);
    LastIsBaseLoad(x.func, x.code[0], p);
    BeforeNext(x, 0);
    BeforeExtends(x, 1);
    FinalIsBounded(x);
    LayoutHolds(mem, base, x.Final());
    HoldsPart(mem, base, x.Before(1), x.Final());
    BytesOfBits(LITERAL_POOL_OFFSET);
    LdrWordMeans(AsBits(LITERAL_POOL_OFFSET), p.scratch);
  }

  lemma LastIsBaseLoad(src: Addr, w: Word, p: Plan)
    requires PlanMeans(src, w, p) && IsLiteral(w)
    ensures p.Through? && p.skip.None? && Decode(p.last).LdrBase?
  {
    hide Decode, Plus;
  }

  /** An address in the trampoline at which a load gets something else than at `a`. */
  function OtherAddress(access: Access, mem: Memory, base: Addr, a: Addr): Addr {
    if Fetch(access, mem, WordAt(base, 0)) != Fetch(access, mem, a) then WordAt(base, 0) else WordAt(base, 1)
  }

  lemma OtherAddressDiffers(cpu: Cpu, x: Prefix, access: Access, mem: Memory, base: Addr, a: Addr)
    requires x.Accepted() && x.Length() == 2 && |x.infos| > 0 && Reported(cpu, x, 0) && IsLiteral(x.code[0])
    requires x.PlanOf(0).Through? && Loaded(mem, base, Layout(x.Final()))
    ensures Fetch(access, mem, OtherAddress(access, mem, base, a)) != Fetch(access, mem, a)
  {
    hide Translate, Layout, Loaded, Load32, Fetch, Reported, WordAt, PlanInsn;
    WordsDiffer(cpu, x, mem, base);
    LowOfFetch(access, mem, WordAt(base, 0));
    LowOfFetch(access, mem, WordAt(base, 1));
  }

  lemma LoadFetches(access: Access, t: Reg, a: Addr, s: State)
    requires access != Prefetch && (LoadsGeneral(access) ==> t != XZR)
    ensures Register(access, t, Load(access, t, a, s)) == Fetch(access, s.mem, a)
  {
    hide GeneralValue, VectorValue;
  }

  /** The original from its second word on. */
  lemma SecondFetches(cpu: Cpu, x: Prefix, s: State)
    requires x.Accepted() && x.Length() == 2 && Fetches(x.code[1]) && !(31 in Reads(cpu, x.code[1]))
    ensures var LdrBase(access, t, n) := Decode(x.code[1]); var exit := Original(cpu, x, 1, s);
      && exit.pc == At(x.func, 2) && exit.last == 2 && n in Reads(cpu, x.code[1])
      && Register(access, t, exit.s) == Fetch(access, s.mem, s.x(n))
    ensures Step(cpu, x.code[1], At(x.func, 1), s).0.mem == s.mem && Step(cpu, x.code[1], At(x.func, 1), s).1.None?
  {
    hide Decode, Translate, At, GeneralValue, VectorValue, Fetch, Register;
    var LdrBase(access, t, n) := Decode(x.code[1]);
    LoadFetches(access, t, s.x(n), s);
    var s' := Step(cpu, x.code[1], At(x.func, 1), s).0;
    assert Original(cpu, x, 1, s) == Original(cpu, x, 2, s');
  }

  /** The register the second word loads is none of those in which trampoline and original may differ. */
  lemma SameRegister(cpu: Cpu, x: Prefix, base: Addr, exit: Exit, c: Config)
    requires x.Accepted() && x.Length() == 2 && |x.infos| > 1 && Reported(cpu, x, 1) && Fetches(x.code[1])
    requires exit.last == 2 && SameOutcome(cpu, x, Origin(1, {}), base, exit, c)
    ensures var LdrBase(access, t, _) := Decode(x.code[1]); Register(access, t, exit.s) == Register(access, t, c.s)
  {
    hide Translate, Decode, PlanInsn, FaithfulId, DirtOut, DirtAt, Reads;
    assert DirtAt(cpu, x, Origin(1, {}), 1) == {} by { NoDirtAtOrigin(cpu, x); }
    DirtOutIsUnwritten(cpu, x, Origin(1, {}), 2);
    assert DirtOut(cpu, x, Origin(1, {}), 2) !! Writes(cpu, x.code[1]);
  }

  lemma NoDirtAtOrigin(cpu: Cpu, x: Prefix)
    requires x.Accepted() && x.Length() == 2
    ensures DirtAt(cpu, x, Origin(1, {}), 1) == {}
  {}

  /** If the second word loads through the scratch register, there is a value of this register with which the loaded
      register ends up different in trampoline and original. */
  lemma ScratchReadChangesLoad(cpu: Cpu, x: Prefix, base: Addr, s: State) returns (s2: State, n: nat)
    requires Sound(cpu) && x.Accepted() && ReadsScratch(cpu, x) && Fetches(x.code[1])
    requires |x.infos| > 1 && Reported(cpu, x, 0) && Reported(cpu, x, 1)
    requires Loaded(s.mem, base, Layout(x.Final()))
    ensures x.PlanOf(0).Through? && s2 == SetX(s, x.PlanOf(0).scratch, s2.x(x.PlanOf(0).scratch))
    ensures var LdrBase(access, t, _) := Decode(x.code[1]);
      var original := Original(cpu, x, 0, s2);
      var c := Run(cpu, n, Config(base, s2));
      c.pc == original.pc && Register(access, t, c.s) != Register(access, t, original.s)
    ensures n <= 7
  {
    hide Translate, Layout, Loaded, Run, Sound, PlanInsn, Decode, Reads, Writes, FaithfulId, ToRegno, Fetch, Register,
         OtherAddress, Step, LeftBehind, SameOutcome, KeepsTrampoline, Original;
    FirstPlan(cpu, x);
    DirtAfterFirst(cpu, x);
    PlanScratch1(cpu, x);
    var p := x.PlanOf(0);
    OneRead(cpu, x.code[1], p.scratch);
    var LdrBase(access, t, r) := Decode(x.code[1]);
    s2 := SetX(s, p.scratch, OtherAddress(access, s.mem, base, p.addr));
    FirstBlock(cpu, x, base, s2);
    FirstStep(cpu, x, s2);
    var s', t' := Step(cpu, x.code[0], x.func, s2).0, LeftBehind(cpu, x, s2);
    SecondFetches(cpu, x, s');
    SecondFetches(cpu, x, t');
    LoadedStays(cpu, x, base, t');
    n := LiteralIsLeftBehind(cpu, x, base, s2);
    OriginalSecond(cpu, x, s2);
    OtherAddressDiffers(cpu, x, access, s.mem, base, p.addr);
    OutcomeFollows(cpu, x, base, Original(cpu, x, 1, t'), Run(cpu, n, Config(base, s2)));
  }

  lemma OutcomeFollows(cpu: Cpu, x: Prefix, base: Addr, exit: Exit, c: Config)
    requires x.Accepted() && x.Length() == 2 && |x.infos| > 1 && Reported(cpu, x, 1) && Fetches(x.code[1])
    requires exit.last == 2 && SameOutcome(cpu, x, Origin(1, {}), base, exit, c)
    ensures c.pc == exit.pc
    ensures var LdrBase(access, t, _) := Decode(x.code[1]); Register(access, t, exit.s) == Register(access, t, c.s)
  {
    SameRegister(cpu, x, base, exit, c);
    hide Translate, Decode, PlanInsn, DirtOut, Register, Agree, BlockAt;
  }

  lemma OneRead(cpu: Cpu, w: Word, r: Reg)
    requires Fetches(w) && r in Reads(cpu, w)
    ensures Decode(w).n == r && Reads(cpu, w) == {r}
  {
    hide Decode;
  }

  lemma LoadedStays(cpu: Cpu, x: Prefix, base: Addr, s: State)
    requires x.Accepted() && x.Length() == 2 && Loaded(s.mem, base, Layout(x.Final()))
    requires Step(cpu, x.code[1], At(x.func, 1), s).0.mem == s.mem
    ensures KeepsTrampoline(cpu, x, base, 1, s)
  {
    hide Translate, Layout, Loaded, Step, At;
    var (s', taken) := Step(cpu, x.code[1], At(x.func, 1), s);
    if taken.None? { assert KeepsTrampoline(cpu, x, base, 2, s'); }
  }

  // ---- an accepted function ----

  /** ldr x0, +8; br x9; and nothing but NOPs. */
  function ReadingScratch(): Prefix {
    Prefix(0x1000, [0x5800_0040, 0xD61F_0120] + seq(MAX_INSN_CHECK_SIZE - 2, _ => NOP),
           [Info(ID_LDR, {}), Info(ID_OTHER, {9})] + seq(MAX_INSN_CHECK_SIZE - 2, _ => Info(ID_OTHER, {})))
  }

  lemma TheseDecode()
    ensures Decode(0x5800_0040) == LdrLit(LoadX, 0, 8) && Decode(0xD61F_0120) == Br(9)
  {}

  /** It is accepted and reported rightly, and its second word reads the scratch register of its first. */
  lemma AcceptedButReadsScratch(cpu: Cpu)
    ensures var x := ReadingScratch();
      x.Accepted() && x.Length() == 2 && Reported(cpu, x, 0) && Reported(cpu, x, 1) && ReadsScratch(cpu, x)
        && Steers(x.code[1])
  {
    hide Decode, Translate, ToRegno;
    var x := ReadingScratch();
    TheseDecode();
    assert x.code[0] == 0x5800_0040 && x.code[1] == 0xD61F_0120;
    assert x.infos[0] == Info(ID_LDR, {}) && x.infos[1] == Info(ID_OTHER, {9});
    Accepts(x);
    NotBranch();
    assert x.Length() == 2;
    NineIsLowest();
  }

  lemma NineIsLowest()
    ensures LowestFree(Info(ID_LDR, {})) == Ok(9)
  {}

  lemma NotBranch()
    ensures (0x5800_0040 as bv32) & 0xFC00_0000 != 0x1400_0000
  {}

  lemma Accepts(x: Prefix)
    requires x == ReadingScratch()
    ensures x.Accepted()
  {
    var code, infos := x.code, x.infos;
    NotBranch();
    assert PrefixLength(code) == 2;
    assert forall k :: 0 <= k < |infos[2..]| ==> infos[2..][k] == Info(ID_OTHER, {});
    assert TargetAddr(At(x.func, 2), code[2], ID_OTHER) == 0 && !InsidePatch(x.func, 0);
    assert !FindsBackJump(x.func, code, infos[2..]);
    hide FindsBackJump, At, Assemble;
    assert CORRUPTIBLE_REGS - {} == CORRUPTIBLE_REGS;
    assert EmitPrefix(x.func, code, infos, 0) == Ok(Blank());
    FirstInsn(x.func, code[0]);
    var first := EmitPrefix(x.func, code, infos, 1);
    assert first.Ok? && first.value.avail == CORRUPTIBLE_REGS;
    var second := EmitPrefix(x.func, code, infos, 2);
    assert second.Ok? && 10 in second.value.avail;
    assert EmitReturn(second.value, x.func).Ok?;
  }

  lemma FirstInsn(func: Addr, w: Word)
    requires w == 0x5800_0040
    ensures var r := EmitInsn(Blank(), At(func, 0), w, Info(ID_LDR, {}));
      r.Ok? && r.value.avail == CORRUPTIBLE_REGS
  {
    assert CORRUPTIBLE_REGS - {} == CORRUPTIBLE_REGS;
    assert w & 0x2000_0000 == 0 && w >> 24 == 0x58;
    hide Plus, BaseLoadWord, LdrWord, AsBits, Imm19Offset;
  }
}
