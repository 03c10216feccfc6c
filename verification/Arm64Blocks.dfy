/** Block simulation: the words emitted for one instruction, run from memory, do what the instruction did. */
module Arm64Blocks {
  import opened Common
  import opened A64Machine
  import opened A64Sums
  import opened Arm64Translator
  import opened Arm64Words
  import opened Arm64Plans

  // ---- word addresses ----

  lemma NextBytes(k: nat)
    requires k < 14
    ensures AsBytes(k + 1) == Plus(AsBytes(k), 4)
  {}

  lemma BytesOfBits(k: nat)
    requires k <= 14
    ensures AsBytes(k) == (AsBits(k) as bv64) << 2 && AsBits(k) < 16
  {}

  lemma PlusNext(a: Addr, n: nat)
    requires n < 14
    ensures Plus(Plus(a, AsBytes(n)), 4) == Plus(a, AsBytes(n + 1))
  {
    hide AsBytes, Plus;
    NextBytes(n);
    PlusAssociates(a, AsBytes(n), 4);
  }

  lemma PlusZero(a: Addr)
    ensures Plus(a, AsBytes(0)) == a
  {}

  /** The address of word `k` of a trampoline at `base`. */
  function WordAt(base: Addr, k: nat): Addr { Plus(base, AsBytes(k)) }

  lemma {:induction false} WordPlus(base: Addr, k: nat, n: nat)
    requires k + n <= 14
    ensures Plus(WordAt(base, k), AsBytes(n)) == WordAt(base, k + n)
  {
    hide Plus, AsBytes;
    if n == 0 {
      PlusZero(WordAt(base, k));
    } else {
      WordPlus(base, k, n - 1);
      PlusNext(WordAt(base, k), n - 1);
      PlusNext(base, k + n - 1);
    }
  }

  // ---- the trampoline in memory ----

  ghost predicate Loaded(mem: Memory, base: Addr, words: seq<Word>) {
    |words| == TRAMPOLINE_SIZE && forall k :: 0 <= k < TRAMPOLINE_SIZE ==> Load32(mem, WordAt(base, k)) == words[k]
  }

  ghost predicate Bounded(e: Emit) { |e.dst| <= LITERAL_POOL_OFFSET && |e.pool| <= LITERAL_POOL_NUM }

  function Slot(j: nat): nat { LITERAL_POOL_OFFSET + 2 * j }

  /** The code words and the literals of `e` are in memory. */
  ghost predicate Holds(mem: Memory, base: Addr, e: Emit) {
    && Bounded(e)
    && (forall k :: 0 <= k < |e.dst| ==> Load32(mem, WordAt(base, k)) == e.dst[k])
    && (forall j :: 0 <= j < |e.pool| ==> Load64(mem, WordAt(base, Slot(j))) == e.pool[j])
  }

  ghost predicate Extends(e: Emit, f: Emit) { e.dst <= f.dst && e.pool <= f.pool }

  lemma HoldsPart(mem: Memory, base: Addr, e: Emit, f: Emit)
    requires Holds(mem, base, f) && Extends(e, f)
    ensures Holds(mem, base, e)
  {
    hide Load32, Load64, WordAt;
  }

  lemma RawJoin(a: Addr, low: bv32, high: bv32)
    requires low == (a & 0xFFFF_FFFF) as bv32 && high == (a >> 32) as bv32
    ensures (low as bv64) | ((high as bv64) << 32) == a
  {}

  lemma LayoutLiteral(e: Emit, j: nat)
    requires j < |e.pool| <= LITERAL_POOL_NUM
    ensures Layout(e)[Slot(j)] == Low(e.pool[j]) && Layout(e)[Slot(j) + 1] == High(e.pool[j])
  {
    hide Low, High;
    assert Layout(e)[Slot(j)] == PoolWord(e, 2 * j) && Layout(e)[Slot(j) + 1] == PoolWord(e, 2 * j + 1);
  }

  lemma SplitLiteral(a: Addr)
    ensures Join(Low(a), High(a)) == a
  {
    RawJoin(a, Low(a), High(a));
  }

  /** Both halves of a literal are where a 64-bit load of its slot finds them. */
  lemma LiteralLoaded(mem: Memory, base: Addr, e: Emit, j: nat)
    requires Loaded(mem, base, Layout(e)) && j < |e.pool| <= LITERAL_POOL_NUM
    ensures Load64(mem, WordAt(base, Slot(j))) == e.pool[j]
  {
    hide Load32, Low, High, Layout, Join, Plus;
    WordPlus(base, Slot(j), 1);
    assert AsBytes(1) == 4;
    LayoutLiteral(e, j);
    SplitLiteral(e.pool[j]);
  }

  lemma LayoutHolds(mem: Memory, base: Addr, e: Emit)
    requires Bounded(e) && Loaded(mem, base, Layout(e))
    ensures Holds(mem, base, e)
  {
    hide Load32, Load64, WordAt, Low, High;
    forall j | 0 <= j < |e.pool| ensures Load64(mem, WordAt(base, Slot(j))) == e.pool[j] {
      LiteralLoaded(mem, base, e, j);
    }
  }

  /** The offset the translator puts into a literal load reaches the literal's slot. */
  lemma PoolTarget(base: Addr, e: Emit)
    requires |e.dst| < LITERAL_POOL_OFFSET && |e.pool| < LITERAL_POOL_NUM
    ensures AsBits(PoolDistance(e)) < 16
    ensures Plus(WordAt(base, |e.dst|), (AsBits(PoolDistance(e)) as bv64) << 2) == WordAt(base, Slot(|e.pool|))
  {
    hide AsBits, Plus, WordAt, AsBytes;
    BytesOfBits(PoolDistance(e));
    WordPlus(base, |e.dst|, PoolDistance(e));
  }

  // ---- running emitted words ----

  function Start(base: Addr, e: Emit, s: State): Config { Config(WordAt(base, |e.dst|), s) }

  /** One step on word `k`, which falls through to word `k + 1` unless it branches. */
  lemma RunWord(cpu: Cpu, base: Addr, e: Emit, k: nat, s: State, insn: Insn)
    requires Holds(s.mem, base, e) && k < |e.dst| && Decode(e.dst[k]) == insn
    ensures var (s', taken) := Execute(cpu, insn, WordAt(base, k), s);
      Run(cpu, 1, Config(WordAt(base, k), s)) == Config(if taken.Some? then taken.value else WordAt(base, k + 1), s')
  {
    hide Decode, Execute, Load32, Load64, WordAt, Plus;
    NextWord(base, k);
    var (s', taken) := Execute(cpu, insn, WordAt(base, k), s);
    var c := Config(Next(WordAt(base, k), taken), s');
    assert Run(cpu, 0, c) == c;
  }

  lemma NextWord(base: Addr, k: nat)
    requires k < 14
    ensures Plus(WordAt(base, k), 4) == WordAt(base, k + 1)
  {
    hide Plus;
    PlusNext(base, k);
  }

  lemma SkipTarget(base: Addr, k: nat)
    requires k + 3 <= 14
    ensures Plus(WordAt(base, k), 12) == WordAt(base, k + 3)
  {
    hide Plus, WordAt;
    WordPlus(base, k, 3);
  }

  /** The emitted literal load puts the address into the register. */
  lemma RunLdrAddr(cpu: Cpu, base: Addr, e: Emit, d: Reg, addr: Addr, f: Emit, s: State)
    requires Holds(s.mem, base, f) && Extends(LdrAddr(e, d, addr), f)
    ensures Run(cpu, 1, Start(base, e, s)) == Start(base, LdrAddr(e, d, addr), SetX(s, d, addr))
  {
    hide Decode, Load32, Load64, WordAt, Plus, LdrWord, AsBits, SetX;
    var g := LdrAddr(e, d, addr);
    HoldsPart(s.mem, base, g, f);
    PoolTarget(base, e);
    var distance := AsBits(PoolDistance(e));
    LdrWordMeans(distance, d);
    assert g.dst[|e.dst|] == LdrWord(distance, d);
    assert g.pool[|e.pool|] == addr;
    RunWord(cpu, base, g, |e.dst|, s, LdrLit(LoadX, d, (distance as bv64) << 2));
  }

  // ---- states that agree ----

  lemma SetXAgrees(s: State, t: State, d: set<Reg>, r: Reg, v: bv64)
    requires Agree(s, t, d) && XZR !in d
    ensures Agree(SetX(s, r, v), SetX(t, r, v), d - {r})
  {}

  lemma SetQAgrees(s: State, t: State, d: set<Reg>, r: Reg, v: bv128)
    requires Agree(s, t, d)
    ensures Agree(SetQ(s, r, v), SetQ(t, r, v), d)
  {}

  lemma ScratchAgrees(s: State, t: State, d: set<Reg>, r: Reg, v: bv64)
    requires Agree(s, t, d)
    ensures Agree(s, SetX(t, r, v), d + {r})
  {}

  lemma LoadAgrees(access: Access, r: Reg, a: Addr, s: State, t: State, d: set<Reg>)
    requires Agree(s, t, d) && XZR !in d
    ensures Agree(Load(access, r, a, s), Load(access, r, a, t), d - AccessWrites(access, r))
  {
    hide Agree, SetX, SetQ, GeneralValue, VectorValue;
    AgreeMemory(s, t, d);
    assert d - {} == d;
    SetXAgrees(s, t, d, r, GeneralValue(access, s.mem, a));
    SetQAgrees(s, t, d, r, VectorValue(access, s.mem, a));
  }

  lemma AgreeMemory(s: State, t: State, d: set<Reg>)
    requires Agree(s, t, d)
    ensures s.mem == t.mem
  {}

  // ---- one block ----

  /** Registers that may differ after the block: those that already did and were not rewritten, and the scratch, when
      the block has jumped through it or loaded through it. A conditional branch that is not taken skips the jump and
      leaves the scratch alone. */
  function Dirt(cpu: Cpu, w: Word, p: Plan, d: set<Reg>, taken: bool): set<Reg> {
    d - Writes(cpu, w) + if p.Through? && (taken || Decode(w).LdrLit?) then {p.scratch} else {}
  }

  /** Where the trampoline stands, and with what, when the source has executed `w` at `src`. A link register set
      by the source holds the next source address, the trampoline's holds its own next word. */
  ghost predicate Matches(cpu: Cpu, w: Word, src: Addr, s: State, next: Addr, p: Plan, d: set<Reg>, c: Config) {
    var (s', taken) := Step(cpu, w, src, s);
    var after := Dirt(cpu, w, p, d, taken.Some?);
    && c.pc == (if taken.Some? then taken.value else next)
    && (if IsLink(w)
        then s'.x(LR) == Plus(src, 4) && c.s.x(LR) == next && Agree(s', c.s, after + {LR})
        else Agree(s', c.s, after))
  }

  /** The results of one copied instruction at two places. */
  ghost predicate SameEffect(link: bool, src: Addr, pc: Addr, d: set<Reg>, r: (State, Option<Addr>),
                             r': (State, Option<Addr>)) {
    && r'.1 == r.1
    && (if link then r.0.x(LR) == Plus(src, 4) && r'.0.x(LR) == Plus(pc, 4) && Agree(r.0, r'.0, d + {LR})
        else Agree(r.0, r'.0, d))
  }

  lemma CopiedLoad(cpu: Cpu, access: Access, r: Reg, n: Reg, src: Addr, pc: Addr, s: State, t: State, d: set<Reg>)
    requires Agree(s, t, d) && XZR !in d && n !in d
    ensures var insn := LdrBase(access, r, n);
      SameEffect(false, src, pc, d - AccessWrites(access, r), Execute(cpu, insn, src, s), Execute(cpu, insn, pc, t))
  {
    hide Load, Plus;
    assert Base(s, n) == Base(t, n);
    LoadAgrees(access, r, Base(s, n), s, t, d);
  }

  lemma CopiedBr(cpu: Cpu, n: Reg, src: Addr, pc: Addr, s: State, t: State, d: set<Reg>)
    requires Agree(s, t, d) && n !in d
    ensures SameEffect(false, src, pc, d, Execute(cpu, Br(n), src, s), Execute(cpu, Br(n), pc, t))
  {
    hide Load, Plus;
  }

  lemma CopiedBlr(cpu: Cpu, n: Reg, src: Addr, pc: Addr, s: State, t: State, d: set<Reg>)
    requires Agree(s, t, d) && n !in d
    ensures SameEffect(true, src, pc, d - {LR}, Execute(cpu, Blr(n), src, s), Execute(cpu, Blr(n), pc, t))
  {
    hide Load, Plus;
  }

  lemma CopiedAgrees(cpu: Cpu, w: Word, src: Addr, pc: Addr, s: State, t: State, d: set<Reg>)
    requires Sound(cpu) && IsCopied(Decode(w)) && Agree(s, t, d) && XZR !in d && Reads(cpu, w) !! d
    ensures SameEffect(IsLink(w), src, pc, d - Writes(cpu, w), Execute(cpu, Decode(w), src, s),
      Execute(cpu, Decode(w), pc, t))
  {
    hide Decode, Load, Plus;
    match Decode(w) {
      case LdrBase(access, r, n) =>
        hide Agree, SameEffect, Execute;
        assert n in Reads(cpu, w);
        CopiedLoad(cpu, access, r, n, src, pc, s, t, d);
      case Br(n) =>
        hide Agree, SameEffect, Execute;
        assert n in Reads(cpu, w) && d - {} == d;
        CopiedBr(cpu, n, src, pc, s, t, d);
      case Blr(n) =>
        hide Agree, SameEffect, Execute;
        assert n in Reads(cpu, w);
        CopiedBlr(cpu, n, src, pc, s, t, d);
      case Other(o) =>
        hide Agree;
    }
  }

  function Skipped(e: Emit, p: Plan): Emit
    requires p.Through?
  {
    if p.skip.Some? then Put(e, p.skip.value) else e
  }

  lemma BlockCopy(cpu: Cpu, base: Addr, e: Emit, w: Word, src: Addr, f: Emit, s: State, t: State, d: set<Reg>)
    requires Sound(cpu) && Agree(s, t, d) && XZR !in d && Reads(cpu, w) !! d
    requires IsCopied(Decode(w)) && Holds(t.mem, base, f) && Extends(Assemble(e, Copy(w)), f)
    ensures Matches(cpu, w, src, s, WordAt(base, |Assemble(e, Copy(w)).dst|), Copy(w), d,
                    Run(cpu, 1, Start(base, e, t)))
  {
    hide Decode, Execute, Load32, Load64, WordAt, Plus, Agree, Sound;
    var k := |e.dst|;
    HoldsPart(t.mem, base, Assemble(e, Copy(w)), f);
    RunWord(cpu, base, Put(e, w), k, t, Decode(w));
    CopiedAgrees(cpu, w, src, WordAt(base, k), s, t, d);
    NextWord(base, k);
    assert d - Writes(cpu, w) + {} == d - Writes(cpu, w);
  }

  lemma BlockMaterialize(cpu: Cpu, base: Addr, e: Emit, w: Word, src: Addr, p: Plan, f: Emit, s: State, t: State,
                         d: set<Reg>)
    requires Agree(s, t, d) && XZR !in d && p.Materialize? && PlanMeans(src, w, p)
    requires Decode(w).Adr? || Decode(w).Adrp?
    requires Holds(t.mem, base, f) && Extends(Assemble(e, p), f)
    ensures Matches(cpu, w, src, s, WordAt(base, |Assemble(e, p).dst|), p, d, Run(cpu, 1, Start(base, e, t)))
  {
    hide Decode, Load32, Load64, WordAt, Plus, PagePlus, Agree, SetX, Holds;
    RunLdrAddr(cpu, base, e, p.d, p.addr, f, t);
    SetXAgrees(s, t, d, p.d, p.addr);
    assert d - Writes(cpu, w) + {} == d - Writes(cpu, w);
  }

  /** The literal load and the word behind it. */
  lemma RunThrough(cpu: Cpu, base: Addr, e: Emit, p: Plan, f: Emit, t: State)
    requires p.Through? && Holds(t.mem, base, f) && Extends(Assemble(e, p), f) && p.scratch != XZR
    ensures var (t', taken) := Execute(cpu, Decode(p.last), WordAt(base, |Skipped(e, p).dst| + 1),
      SetX(t, p.scratch, p.addr));
      Run(cpu, 2, Start(base, Skipped(e, p), t))
      == Config(if taken.Some? then taken.value else WordAt(base, |Assemble(e, p).dst|), t')
  {
    hide Decode, Execute, Load32, Load64, WordAt, Plus, LdrWord, AsBits, PoolDistance, SetX, Run;
    var e1 := Skipped(e, p);
    var e2 := LdrAddr(e1, p.scratch, p.addr);
    var g := Assemble(e, p);
    assert g == Put(e2, p.last) && Extends(e2, f);
    HoldsPart(t.mem, base, g, f);
    RunLdrAddr(cpu, base, e1, p.scratch, p.addr, f, t);
    var t1 := SetX(t, p.scratch, p.addr);
    assert t1.mem == t.mem by { SetXMemory(t, p.scratch, p.addr); }
    RunWord(cpu, base, g, |e2.dst|, t1, Decode(p.last));
    RunCompose(cpu, 1, 1, Start(base, e1, t));
  }

  lemma SetXMemory(t: State, r: Reg, v: bv64)
    ensures SetX(t, r, v).mem == t.mem
  {}

  lemma InvertedCondition(cond: bv4, f: Flags)
    requires cond != 14 && cond != 15
    ensures ConditionHolds(cond ^ 1, f) == !ConditionHolds(cond, f)
  {}

  /** A plan without a skip whose last word branches: the target is reached with only the scratch changed. */
  lemma RunJump(cpu: Cpu, base: Addr, e: Emit, p: Plan, f: Emit, t: State)
    requires p.Through? && Decode(p.last) == Br(p.scratch) && p.scratch != XZR
    requires Holds(t.mem, base, f) && Extends(Assemble(e, p), f)
    ensures Run(cpu, 2, Start(base, Skipped(e, p), t)) == Config(p.addr, SetX(t, p.scratch, p.addr))
  {
    hide Decode, Load32, Load64, WordAt, Plus, LdrWord, AsBits, Holds, Extends, Run;
    RunThrough(cpu, base, e, p, f, t);
  }

  lemma BlockJump(cpu: Cpu, base: Addr, e: Emit, w: Word, src: Addr, p: Plan, f: Emit, s: State, t: State, d: set<Reg>)
    requires Agree(s, t, d) && PlanMeans(src, w, p) && p.Through? && p.scratch != XZR && p.skip.None?
    requires Decode(w).B? || (Decode(w).BCond? && Decode(w).cond == 14)
    requires Holds(t.mem, base, f) && Extends(Assemble(e, p), f)
    ensures Matches(cpu, w, src, s, WordAt(base, |Assemble(e, p).dst|), p, d, Run(cpu, 2, Start(base, e, t)))
  {
    hide Decode, Load32, Load64, WordAt, Plus, Agree, SetX, Holds, Extends, Assemble, Run;
    RunJump(cpu, base, e, p, f, t);
    ScratchAgrees(s, t, d, p.scratch, p.addr);
    assert d - {} == d;
  }

  lemma SourceCall(cpu: Cpu, w: Word, src: Addr, p: Plan, s: State)
    requires PlanMeans(src, w, p) && Decode(w).Bl?
    ensures Step(cpu, w, src, s) == (SetX(s, LR, Plus(src, 4)), Some(p.addr))
    ensures IsLink(w) && Writes(cpu, w) == {LR} && p.Through? && p.skip.None? && Decode(p.last) == Blr(p.scratch)
  {
    hide Decode, Plus, SetX;
  }

  lemma LinkAgrees(s: State, t: State, d: set<Reg>, r: Reg, addr: Addr, ret: Addr, ret': Addr)
    requires Agree(s, t, d) && r in CORRUPTIBLE_REGS
    ensures var t1 := SetX(t, r, addr);
      && X(t1, r) == addr
      && SetX(s, LR, ret).x(LR) == ret && SetX(t1, LR, ret').x(LR) == ret'
      && Agree(SetX(s, LR, ret), SetX(t1, LR, ret'), d - {LR} + {r} + {LR})
  {}

  lemma RunCall(cpu: Cpu, base: Addr, e: Emit, p: Plan, f: Emit, t: State)
    requires p.Through? && p.skip.None? && Decode(p.last) == Blr(p.scratch) && p.scratch != XZR
    requires Holds(t.mem, base, f) && Extends(Assemble(e, p), f)
    ensures var t1 := SetX(t, p.scratch, p.addr);
      Run(cpu, 2, Start(base, e, t)) == Config(X(t1, p.scratch), SetX(t1, LR, WordAt(base, |Assemble(e, p).dst|)))
  {
    hide Decode, Load32, Load64, WordAt, Plus, LdrWord, AsBits, Run, SetX, X;
    RunThrough(cpu, base, e, p, f, t);
    assert |Assemble(e, p).dst| == |e.dst| + 2 <= LITERAL_POOL_OFFSET;
    hide Holds, Extends, Assemble;
    NextWord(base, |e.dst| + 1);
  }

  lemma BlockCall(cpu: Cpu, base: Addr, e: Emit, w: Word, src: Addr, p: Plan, f: Emit, s: State, t: State, d: set<Reg>)
    requires Agree(s, t, d) && PlanMeans(src, w, p) && p.Through? && p.scratch in CORRUPTIBLE_REGS
    requires Decode(w).Bl?
    requires Holds(t.mem, base, f) && Extends(Assemble(e, p), f)
    ensures Matches(cpu, w, src, s, WordAt(base, |Assemble(e, p).dst|), p, d, Run(cpu, 2, Start(base, e, t)))
  {
    hide Decode, WordAt, Plus, Run, Step, Agree, SetX, X, PlanMeans, IsLink, Holds, Extends, Assemble, Writes;
    SourceCall(cpu, w, src, p, s);
    RunCall(cpu, base, e, p, f, t);
    LinkAgrees(s, t, d, p.scratch, p.addr, Plus(src, 4), WordAt(base, |Assemble(e, p).dst|));
  }

  lemma SourceLiteral(cpu: Cpu, w: Word, src: Addr, p: Plan, s: State)
    requires PlanMeans(src, w, p) && Decode(w).LdrLit?
    ensures var LdrLit(access, r, off) := Decode(w);
      && Step(cpu, w, src, s) == (Load(access, r, p.addr, s), None)
      && !IsLink(w) && Writes(cpu, w) == AccessWrites(access, r)
      && p.Through? && p.skip.None? && Decode(p.last) == LdrBase(access, r, p.scratch)
  {
    hide Decode, Plus, Load;
  }

  lemma LiteralAgrees(access: Access, r: Reg, scratch: Reg, a: Addr, s: State, t: State, d: set<Reg>)
    requires Agree(s, t, d) && XZR !in d && scratch in CORRUPTIBLE_REGS && scratch !in AccessWrites(access, r)
    ensures var t1 := SetX(t, scratch, a);
      Base(t1, scratch) == a
        && Agree(Load(access, r, a, s), Load(access, r, a, t1), d - AccessWrites(access, r) + {scratch})
  {
    ScratchAgrees(s, t, d, scratch, a);
    var t1 := SetX(t, scratch, a);
    assert Base(t1, scratch) == a;
    hide Agree, SetX, Load, Base;
    LoadAgrees(access, r, a, s, t1, d + {scratch});
    assert d + {scratch} - AccessWrites(access, r) == d - AccessWrites(access, r) + {scratch};
  }

  lemma BlockLiteral(cpu: Cpu, base: Addr, e: Emit, w: Word, src: Addr, p: Plan, f: Emit, s: State, t: State,
                     d: set<Reg>)
    requires Agree(s, t, d) && PlanMeans(src, w, p) && p.Through? && p.scratch in CORRUPTIBLE_REGS && XZR !in d
    requires Decode(w).LdrLit? && p.scratch !in Writes(cpu, w)
    requires Holds(t.mem, base, f) && Extends(Assemble(e, p), f)
    ensures Matches(cpu, w, src, s, WordAt(base, |Assemble(e, p).dst|), p, d, Run(cpu, 2, Start(base, e, t)))
  {
    hide Decode, Load, WordAt, Plus, Run, Agree, Step, PlanMeans, IsLink, Writes, SetX, Base;
    SourceLiteral(cpu, w, src, p, s);
    RunThrough(cpu, base, e, p, f, t);
    hide Holds, Extends, Assemble;
    var LdrLit(access, r, off) := Decode(w);
    LiteralAgrees(access, r, p.scratch, p.addr, s, t, d);
  }

  /** The source's decision, for the three conditional branches. */
  predicate Decides(insn: Insn, s: State)
    requires insn.BCond? || insn.Cb? || insn.Tb?
  {
    match insn
    case BCond(cond, _) => ConditionHolds(cond, s.flags)
    case Cb(sf, nonzero, t, _) => CbTest(sf, X(s, t)) != nonzero
    case Tb(nonzero, bit, t, _) => TbTest(bit, X(s, t)) == nonzero
  }

  /** The emitted skip branches over the jump exactly when the source does not branch. */
  ghost predicate SkipsRightly(cpu: Cpu, w: Word, src: Addr, p: Plan, pc: Addr, s: State, t: State)
    requires p.Through? && p.skip.Some?
    requires Decode(w).BCond? || Decode(w).Cb? || Decode(w).Tb?
  {
    var decision := Decides(Decode(w), s);
    && Step(cpu, w, src, s) == (s, BranchIf(decision, p.addr))
    && Execute(cpu, Decode(p.skip.value), pc, t) == (t, BranchIf(!decision, Plus(pc, 12)))
    && Decode(p.last) == Br(p.scratch) && !IsLink(w) && Writes(cpu, w) == {}
  }

  lemma SkipCond(cpu: Cpu, w: Word, src: Addr, p: Plan, pc: Addr, s: State, t: State, d: set<Reg>)
    requires Agree(s, t, d) && PlanMeans(src, w, p) && Decode(w).BCond? && Decode(w).cond != 14 && Decode(w).cond != 15
    ensures p.Through? && p.skip.Some? && SkipsRightly(cpu, w, src, p, pc, s, t)
  {
    hide Decode, ConditionHolds, Plus;
    InvertedCondition(Decode(w).cond, s.flags);
  }

  lemma SkipCb(cpu: Cpu, w: Word, src: Addr, p: Plan, pc: Addr, s: State, t: State, d: set<Reg>)
    requires Agree(s, t, d) && PlanMeans(src, w, p) && Decode(w).Cb? && Decode(w).t !in d
    ensures p.Through? && p.skip.Some? && SkipsRightly(cpu, w, src, p, pc, s, t)
  {
    hide Decode, CbTest, Plus;
    assert X(s, Decode(w).t) == X(t, Decode(w).t);
  }

  lemma SkipTb(cpu: Cpu, w: Word, src: Addr, p: Plan, pc: Addr, s: State, t: State, d: set<Reg>)
    requires Agree(s, t, d) && PlanMeans(src, w, p) && Decode(w).Tb? && Decode(w).t !in d
    ensures p.Through? && p.skip.Some? && SkipsRightly(cpu, w, src, p, pc, s, t)
  {
    hide Decode, TbTest, Plus;
    assert X(s, Decode(w).t) == X(t, Decode(w).t);
  }

  lemma BlockBranch(cpu: Cpu, base: Addr, e: Emit, w: Word, src: Addr, p: Plan, f: Emit, s: State, t: State,
                    d: set<Reg>)
    returns (n: nat)
    requires Agree(s, t, d) && p.Through? && p.skip.Some? && p.scratch in CORRUPTIBLE_REGS
    requires Decode(w).BCond? || Decode(w).Cb? || Decode(w).Tb?
    requires SkipsRightly(cpu, w, src, p, WordAt(base, |e.dst|), s, t)
    requires Holds(t.mem, base, f) && Extends(Assemble(e, p), f)
    ensures n <= 3
    ensures Matches(cpu, w, src, s, WordAt(base, |Assemble(e, p).dst|), p, d, Run(cpu, n, Start(base, e, t)))
  {
    hide Decode, Decides, Execute, Load32, Load64, WordAt, Plus, Agree, SetX, AsBits, LdrWord, Step, IsLink, Writes,
         Matches, BranchIf;
    var decision := Decides(Decode(w), s);
    var k := |e.dst|;
    var g := Assemble(e, p);
    assert |g.dst| == k + 3 && g.dst[k] == p.skip.value;
    HoldsPart(t.mem, base, g, f);
    RunWord(cpu, base, g, k, t, Decode(p.skip.value));
    BranchIfMeans(decision, p.addr);
    BranchIfMeans(!decision, Plus(WordAt(base, k), 12));
    if decision {
      RunJump(cpu, base, e, p, f, t);
      hide Holds, Extends, Assemble, Run;
      RunCompose(cpu, 1, 2, Start(base, e, t));
      ScratchAgrees(s, t, d, p.scratch, p.addr);
      BranchMatches(cpu, w, src, s, WordAt(base, k + 3), p, d, Run(cpu, 3, Start(base, e, t)));
      n := 3;
    } else {
      hide Holds, Extends, Assemble, Run;
      SkipTarget(base, k);
      BranchMatches(cpu, w, src, s, WordAt(base, k + 3), p, d, Run(cpu, 1, Start(base, e, t)));
      n := 1;
    }
  }

  lemma BranchIfMeans(c: bool, target: Addr)
    ensures BranchIf(c, target) == if c then Some(target) else None
  {}

  /** A taken branch leaves its scratch changed, an untaken one nothing. */
  lemma BranchMatches(cpu: Cpu, w: Word, src: Addr, s: State, next: Addr, p: Plan, d: set<Reg>, c: Config)
    requires p.Through? && !IsLink(w) && Writes(cpu, w) == {} && !Decode(w).LdrLit? && Step(cpu, w, src, s).0 == s
    requires var taken := Step(cpu, w, src, s).1;
      if taken.Some? then c.pc == taken.value && Agree(s, c.s, d + {p.scratch}) else c.pc == next && Agree(s, c.s, d)
    ensures Matches(cpu, w, src, s, next, p, d, c)
  {
    hide Decode, Step, Agree, IsLink, Writes;
    assert d - {} == d && d + {} == d;
  }

  // ---- any block ----

  lemma ScratchIsFree(avail: set<Reg>, r: Reg)
    requires ToRegno(avail) == Ok(r)
    ensures r in avail && r in CORRUPTIBLE_REGS
  {}

  lemma BlockConditional(cpu: Cpu, base: Addr, e: Emit, w: Word, src: Addr, p: Plan, f: Emit, s: State, t: State,
                         d: set<Reg>)
    returns (n: nat)
    requires Agree(s, t, d) && PlanMeans(src, w, p) && p.Through? && p.scratch in CORRUPTIBLE_REGS
    requires Decode(w).BCond? || Decode(w).Cb? || Decode(w).Tb?
    requires Decode(w).BCond? ==> Decode(w).cond != 15
    requires Reads(cpu, w) !! d
    requires Holds(t.mem, base, f) && Extends(Assemble(e, p), f)
    ensures Matches(cpu, w, src, s, WordAt(base, |Assemble(e, p).dst|), p, d, Run(cpu, n, Start(base, e, t)))
    ensures n <= 3
  {
    hide Decode, Agree, Holds, Extends, Matches, Run, WordAt, SkipsRightly, Dirt, Assemble;
    var pc := WordAt(base, |e.dst|);
    match Decode(w) {
      case BCond(cond, _) =>
        if cond == 14 {
          BlockJump(cpu, base, e, w, src, p, f, s, t, d);
          n := 2;
          return;
        }
        SkipCond(cpu, w, src, p, pc, s, t, d);
      case Cb(_, _, r, _) =>
        assert r in Reads(cpu, w);
        SkipCb(cpu, w, src, p, pc, s, t, d);
      case Tb(_, _, r, _) =>
        assert r in Reads(cpu, w);
        SkipTb(cpu, w, src, p, pc, s, t, d);
    }
    n := BlockBranch(cpu, base, e, w, src, p, f, s, t, d);
  }

  /** Every translated word is simulated by its block, in at most three steps. */
  lemma BlockSimulates(cpu: Cpu, base: Addr, e: Emit, w: Word, src: Addr, p: Plan, f: Emit, s: State, t: State,
                       d: set<Reg>)
    returns (n: nat)
    requires Sound(cpu) && Agree(s, t, d) && XZR !in d && Reads(cpu, w) !! d
    requires PlanMeans(src, w, p) && (p.Through? ==> p.scratch in CORRUPTIBLE_REGS - Writes(cpu, w))
    requires Decode(w).BCond? ==> Decode(w).cond != 15
    requires Holds(t.mem, base, f) && Extends(Assemble(e, p), f)
    ensures Matches(cpu, w, src, s, WordAt(base, |Assemble(e, p).dst|), p, d, Run(cpu, n, Start(base, e, t)))
    ensures n <= 3
  {
    hide Decode, Sound, Agree, Holds, Extends, Assemble, Matches, Run, WordAt, Writes, Dirt, Reads, Plus, PagePlus;
    match Decode(w) {
      case Adr(_, _) => BlockMaterialize(cpu, base, e, w, src, p, f, s, t, d); n := 1;
      case Adrp(_, _) => BlockMaterialize(cpu, base, e, w, src, p, f, s, t, d); n := 1;
      case B(_) => BlockJump(cpu, base, e, w, src, p, f, s, t, d); n := 2;
      case Bl(_) => BlockCall(cpu, base, e, w, src, p, f, s, t, d); n := 2;
      case BCond(_, _) => n := BlockConditional(cpu, base, e, w, src, p, f, s, t, d);
      case Cb(_, _, _, _) => n := BlockConditional(cpu, base, e, w, src, p, f, s, t, d);
      case Tb(_, _, _, _) => n := BlockConditional(cpu, base, e, w, src, p, f, s, t, d);
      case LdrLit(_, _, _) => BlockLiteral(cpu, base, e, w, src, p, f, s, t, d); n := 2;
      case _ => BlockCopy(cpu, base, e, w, src, f, s, t, d); n := 1;
    }
  }
}
