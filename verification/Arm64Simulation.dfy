/** The trampoline does what the prefix did: from the start of any block, running the emitted code in memory gives
    the outcome of the original instructions. */
module Arm64Simulation {
  import opened Common
  import opened A64Machine
  import opened Arm64Translator
  import opened Arm64Plans
  import opened Arm64Blocks

  /** One translation that succeeded: the function's address, its first words, and what the disassembler said. */
  datatype Prefix = Prefix(func: Addr, code: seq<Word>, infos: seq<Info>) {
    ghost predicate Accepted() {
      |code| == MAX_INSN_CHECK_SIZE && Translate(func, code, infos).Ok?
    }

    function Length(): nat
      requires |code| >= 2
    {
      PrefixLength(code)
    }

    /** What has been emitted before word `i`. */
    function Before(i: nat): Emit
      requires Accepted() && i <= Length()
    {
      EmittedSoFar(this, i);
      EmitPrefix(func, code, infos, i).value
    }

    /** The same, when the registers the word mentions are taken away. */
    function Ready(i: nat): Emit
      requires Accepted() && i < Length()
    {
      Before(i).(avail := Before(i).avail - infos[i].regs)
    }

    function PlanOf(i: nat): Plan
      requires Accepted() && i < Length()
    {
      EmittedSoFar(this, i + 1);
      PlanInsn(Ready(i).avail, At(func, i), code[i], infos[i].id).value
    }

    function ReturnPlan(): Plan
      requires Accepted()
    {
      var scratch := ToRegno(Before(Length()).avail).value;
      Through(None, scratch, At(func, REL4G_JUMP_SIZE), BranchWord(scratch))
    }

    function Final(): Emit
      requires Accepted()
    {
      Translate(func, code, infos).value
    }
  }

  lemma {:induction false} EmittedSoFar(x: Prefix, i: nat)
    requires x.Accepted() && i <= x.Length()
    ensures i <= |x.infos| && EmitPrefix(x.func, x.code, x.infos, i).Ok?
    decreases x.Length() - i
  {
    hide EmitInsn, EmitReturn, FindsBackJump;
    if i < x.Length() { EmittedSoFar(x, i + 1); }
  }

  lemma BeforeNext(x: Prefix, i: nat)
    requires x.Accepted() && i < x.Length()
    ensures PlanInsn(x.Ready(i).avail, At(x.func, i), x.code[i], x.infos[i].id) == Ok(x.PlanOf(i))
    ensures x.Before(i + 1) == Assemble(x.Ready(i), x.PlanOf(i))
  {
    hide PlanInsn, Assemble, Translate;
    EmittedSoFar(x, i);
    EmittedSoFar(x, i + 1);
  }

  lemma FinalIs(x: Prefix)
    requires x.Accepted()
    ensures ToRegno(x.Before(x.Length()).avail) == Ok(x.ReturnPlan().scratch)
    ensures x.Final() == Assemble(x.Before(x.Length()), x.ReturnPlan())
  {
    hide EmitPrefix, Assemble, ToRegno, FindsBackJump, BranchWord;
  }

  lemma AssembleExtends(e: Emit, p: Plan)
    ensures Extends(e, Assemble(e, p))
  {
    hide LdrWord, AsBits, PoolDistance;
  }

  /** What was emitted at any point is still there at the end. */
  lemma {:induction false} BeforeExtends(x: Prefix, i: nat)
    requires x.Accepted() && i <= x.Length()
    ensures Extends(x.Before(i), x.Final())
    decreases x.Length() - i
  {
    hide Assemble, EmitPrefix, Translate, ToRegno;
    if i == x.Length() {
      FinalIs(x);
      AssembleExtends(x.Before(i), x.ReturnPlan());
    } else {
      BeforeNext(x, i);
      AssembleExtends(x.Ready(i), x.PlanOf(i));
      BeforeExtends(x, i + 1);
    }
  }

  // ---- the registers that may differ ----

  /** The word at which original and trampoline start, and the registers that may differ there. */
  datatype Origin = Origin(at: nat, dirt: set<Reg>)

  /** A call of the trampoline instead of the function. */
  const Entry := Origin(0, {})

  /** The registers that may differ before word `i`, when everything before it has fallen through. */
  function DirtAt(cpu: Cpu, x: Prefix, o: Origin, i: nat): set<Reg>
    requires x.Accepted() && o.at <= i <= x.Length()
  {
    if i == o.at then o.dirt else Dirt(cpu, x.code[i - 1], x.PlanOf(i - 1), DirtAt(cpu, x, o, i - 1), false)
  }

  /** And when the prefix has been left from word `last`, by a branch or, behind its end, by the jump back. */
  function DirtOut(cpu: Cpu, x: Prefix, o: Origin, last: nat): set<Reg>
    requires x.Accepted() && o.at <= last <= x.Length()
  {
    if last == x.Length() then DirtAt(cpu, x, o, last) + {x.ReturnPlan().scratch}
    else Dirt(cpu, x.code[last], x.PlanOf(last), DirtAt(cpu, x, o, last), true)
  }

  /** What is assumed of the prefix: the disassembler reports its words faithfully, none is B.NV, and none reads a
      register that an earlier block has clobbered. */
  ghost predicate WellBehaved(cpu: Cpu, x: Prefix, o: Origin)
    requires x.Accepted()
  {
    o.at <= x.Length() && XZR !in o.dirt &&
    forall i :: o.at <= i < x.Length() && i < |x.infos| ==>
      && Faithful(cpu, x.code[i], x.infos[i])
      && (Decode(x.code[i]).BCond? ==> Decode(x.code[i]).cond != 15)
      && Reads(cpu, x.code[i]) !! DirtAt(cpu, x, o, i)
  }

  /** Free registers are not among those any earlier word mentions. */
  lemma {:induction false} FreeRegisters(cpu: Cpu, x: Prefix, i: nat)
    requires x.Accepted() && i <= x.Length()
    ensures i <= |x.infos| && forall j :: 0 <= j < i ==> x.Before(i).avail !! x.infos[j].regs
  {
    hide PlanInsn, Translate;
    EmittedSoFar(x, i);
    if i > 0 {
      EmittedSoFar(x, i - 1);
      FreeRegisters(cpu, x, i - 1);
      BeforeNext(x, i - 1);
    }
  }

  lemma PlanScratch(cpu: Cpu, x: Prefix, o: Origin, i: nat)
    requires x.Accepted() && WellBehaved(cpu, x, o) && o.at <= i < x.Length()
    ensures i < |x.infos| && PlanMeans(At(x.func, i), x.code[i], x.PlanOf(i))
    ensures x.PlanOf(i).Through? ==>
      x.PlanOf(i).scratch in x.Ready(i).avail && x.PlanOf(i).scratch in CORRUPTIBLE_REGS - Writes(cpu, x.code[i])
  {
    hide PlanInsn, PlanMeans, Translate, Decode, Reads, Writes, ToRegno, FaithfulId, DirtAt, At;
    EmittedSoFar(x, i + 1);
    PlanInsnMeans(x.Ready(i).avail, At(x.func, i), x.code[i], x.infos[i].id);
    BeforeNext(x, i);
    if x.PlanOf(i).Through? { ScratchIsFree(x.Ready(i).avail, x.PlanOf(i).scratch); }
  }

  lemma DirtBound(cpu: Cpu, w: Word, p: Plan, d: set<Reg>, taken: bool)
    ensures Dirt(cpu, w, p, d, taken) <= d - Writes(cpu, w) + if p.Through? then {p.scratch} else {}
  {
    hide Decode, Writes;
  }

  /** Only x9-x15 can differ, and none of them that the prefix has written. */
  lemma {:induction false} DirtIsUnwritten(cpu: Cpu, x: Prefix, o: Origin, i: nat)
    requires x.Accepted() && WellBehaved(cpu, x, o) && o.at <= i <= x.Length()
    ensures DirtAt(cpu, x, o, i) <= CORRUPTIBLE_REGS + o.dirt
    ensures forall j :: o.at <= j < i && j < x.Length() ==> DirtAt(cpu, x, o, i) !! Writes(cpu, x.code[j])
  {
    hide PlanInsn, PlanMeans, Translate, Decode, Reads, Writes, ToRegno, FaithfulId, At, EmitPrefix, Assemble, Dirt;
    if o.at < i {
      DirtIsUnwritten(cpu, x, o, i - 1);
      DirtBound(cpu, x.code[i - 1], x.PlanOf(i - 1), DirtAt(cpu, x, o, i - 1), false);
      PlanScratch(cpu, x, o, i - 1);
      FreeRegisters(cpu, x, i - 1);
    }
  }

  /** The same for what differs when the prefix has been left. */
  lemma DirtOutIsUnwritten(cpu: Cpu, x: Prefix, o: Origin, last: nat)
    requires x.Accepted() && WellBehaved(cpu, x, o) && o.at <= last <= x.Length()
    ensures DirtOut(cpu, x, o, last) <= CORRUPTIBLE_REGS + o.dirt
    ensures forall j :: o.at <= j <= last && j < x.Length() ==> DirtOut(cpu, x, o, last) !! Writes(cpu, x.code[j])
  {
    hide PlanInsn, PlanMeans, Translate, Decode, Reads, Writes, ToRegno, FaithfulId, At, EmitPrefix, Assemble, DirtAt,
         Dirt;
    DirtIsUnwritten(cpu, x, o, last);
    FreeRegisters(cpu, x, last);
    if last < x.Length() {
      DirtBound(cpu, x.code[last], x.PlanOf(last), DirtAt(cpu, x, o, last), true);
      PlanScratch(cpu, x, o, last);
    } else {
      FinalIs(x);
      ScratchIsFree(x.Before(last).avail, x.ReturnPlan().scratch);
    }
  }

  // ---- the whole trampoline ----

  /** How the original leaves its prefix: the state, the address it continues at, and the word it left from, which
      is one past the prefix when it fell through. */
  datatype Exit = Exit(s: State, pc: Addr, last: nat)

  function Original(cpu: Cpu, x: Prefix, i: nat, s: State): Exit
    requires x.Accepted() && i <= x.Length()
    decreases x.Length() - i
  {
    if i == x.Length() then Exit(s, At(x.func, REL4G_JUMP_SIZE), i)
    else
      var (s', taken) := Step(cpu, x.code[i], At(x.func, i), s);
      if taken.Some? then Exit(s', taken.value, i) else Original(cpu, x, i + 1, s')
  }

  /** Where the block of word `i` starts; for `i` one past the prefix, the jump back. */
  function BlockAt(x: Prefix, base: Addr, i: nat): Addr
    requires x.Accepted() && i <= x.Length()
  {
    WordAt(base, |x.Before(i).dst|)
  }

  /** The trampoline stands where the original does, with the same memory, flags and registers, except the
      clobbered ones and a link register, which points at the block of the original's return address. */
  ghost predicate SameOutcome(cpu: Cpu, x: Prefix, o: Origin, base: Addr, exit: Exit, c: Config)
    requires x.Accepted()
  {
    o.at <= exit.last <= x.Length() &&
    var d := DirtOut(cpu, x, o, exit.last);
    && c.pc == exit.pc
    && (if exit.last < x.Length() && IsLink(x.code[exit.last])
        then
          && exit.s.x(LR) == Plus(At(x.func, exit.last), 4)
          && c.s.x(LR) == BlockAt(x, base, exit.last + 1)
          && Agree(exit.s, c.s, d + {LR})
        else Agree(exit.s, c.s, d))
  }

  /** The original prefix, run from word `i`, does not overwrite the trampoline. */
  ghost predicate KeepsTrampoline(cpu: Cpu, x: Prefix, base: Addr, i: nat, s: State)
    requires x.Accepted() && i <= x.Length()
    decreases x.Length() - i
  {
    Loaded(s.mem, base, Layout(x.Final())) &&
    (i < x.Length() ==>
      var (s', taken) := Step(cpu, x.code[i], At(x.func, i), s);
      taken.None? ==> KeepsTrampoline(cpu, x, base, i + 1, s'))
  }

  lemma FinalIsBounded(x: Prefix)
    requires x.Accepted()
    ensures Bounded(x.Final())
  {
    hide Translate;
    TrampolineCapacity(x.func, x.code, x.infos);
  }

  /** The jump back lands behind the patch with one more register clobbered. */
  lemma ReturnSimulates(cpu: Cpu, x: Prefix, o: Origin, base: Addr, s: State, t: State)
    requires x.Accepted() && o.at <= x.Length() && Loaded(t.mem, base, Layout(x.Final()))
    requires Agree(s, t, DirtAt(cpu, x, o, x.Length()))
    ensures SameOutcome(cpu, x, o, base, Original(cpu, x, x.Length(), s),
      Run(cpu, 2, Config(BlockAt(x, base, x.Length()), t)))
  {
    hide Translate, EmitPrefix, Decode, Agree, WordAt, Layout, Loaded, Holds, Extends, Assemble, Run, ToRegno, SetX,
         BranchWord;
    var n, p := x.Length(), x.ReturnPlan();
    FinalIs(x);
    FinalIsBounded(x);
    LayoutHolds(t.mem, base, x.Final());
    ScratchIsFree(x.Before(n).avail, p.scratch);
    Arm64Words.BranchWordMeans(p.scratch);
    ExtendsItself(x.Final());
    RunJump(cpu, base, x.Before(n), p, x.Final(), t);
    ScratchAgrees(s, t, DirtAt(cpu, x, o, n), p.scratch, p.addr);
  }

  lemma ExtendsItself(e: Emit)
    ensures Extends(e, e)
  {}

  /** The block of word `i` does what word `i` does. */
  lemma PrefixBlock(cpu: Cpu, x: Prefix, o: Origin, base: Addr, i: nat, s: State, t: State)
    returns (n: nat)
    requires Sound(cpu) && x.Accepted() && WellBehaved(cpu, x, o) && o.at <= i < x.Length()
    requires Loaded(t.mem, base, Layout(x.Final())) && Agree(s, t, DirtAt(cpu, x, o, i))
    ensures n <= 3
    ensures Matches(cpu, x.code[i], At(x.func, i), s, BlockAt(x, base, i + 1), x.PlanOf(i), DirtAt(cpu, x, o, i),
                    Run(cpu, n, Config(BlockAt(x, base, i), t)))
  {
    hide Translate, EmitPrefix, Decode, Agree, WordAt, Layout, Loaded, Holds, Assemble, Run, PlanInsn;
    hide Matches, PlanMeans, Sound, Dirt, Reads, Writes, Faithful;
    EmittedSoFar(x, i + 1);
    BeforeNext(x, i);
    PlanScratch(cpu, x, o, i);
    DirtIsUnwritten(cpu, x, o, i);
    FinalIsBounded(x);
    LayoutHolds(t.mem, base, x.Final());
    BeforeExtends(x, i + 1);
    n := BlockSimulates(cpu, base, x.Ready(i), x.code[i], At(x.func, i), x.PlanOf(i), x.Final(), s, t,
      DirtAt(cpu, x, o, i));
  }

  /** From the start of any block, the trampoline reaches the outcome of the original in at most eight steps. */
  lemma {:induction false} SimulatesFrom(cpu: Cpu, x: Prefix, o: Origin, base: Addr, i: nat, s: State, t: State)
    returns (n: nat)
    requires Sound(cpu) && x.Accepted() && WellBehaved(cpu, x, o) && o.at <= i <= x.Length()
    requires KeepsTrampoline(cpu, x, base, i, s) && Agree(s, t, DirtAt(cpu, x, o, i))
    ensures n <= 3 * (x.Length() - i) + 2
    ensures SameOutcome(cpu, x, o, base, Original(cpu, x, i, s), Run(cpu, n, Config(BlockAt(x, base, i), t)))
    decreases x.Length() - i
  {
    hide Translate, EmitPrefix, Decode, Agree, WordAt, Layout, Loaded, Run, WellBehaved, Sound, Step, BlockAt, At,
         IsLink, Dirt;
    AgreeMemory(s, t, DirtAt(cpu, x, o, i));
    if i == x.Length() {
      ReturnSimulates(cpu, x, o, base, s, t);
      n := 2;
      return;
    }
    var c := Config(BlockAt(x, base, i), t);
    var m := PrefixBlock(cpu, x, o, base, i, s, t);
    var (s', taken) := Step(cpu, x.code[i], At(x.func, i), s);
    if taken.Some? {
      n := m;
    } else {
      var c' := Run(cpu, m, c);
      FallThroughIsNoLink(cpu, x.code[i], At(x.func, i), s);
      var k := SimulatesFrom(cpu, x, o, base, i + 1, s', c'.s);
      RunCompose(cpu, m, k, c);
      n := m + k;
    }
  }

  lemma FallThroughIsNoLink(cpu: Cpu, w: Word, pc: Addr, s: State)
    requires Step(cpu, w, pc, s).1.None?
    ensures !IsLink(w)
  {
    hide Decode;
  }

  /** Meaning is preserved: called instead of the function, the trampoline leaves with the same memory, flags, stack
      pointer and vector registers, at the same address, and with the same general registers, except those of
      x9-x15 the executed instructions did not write, and a link register that names the matching place. */
  lemma TrampolinePreservesMeaning(cpu: Cpu, x: Prefix, base: Addr, s: State)
    returns (n: nat)
    requires Sound(cpu) && x.Accepted() && WellBehaved(cpu, x, Entry) && KeepsTrampoline(cpu, x, base, 0, s)
    ensures var exit := Original(cpu, x, 0, s);
      && SameOutcome(cpu, x, Entry, base, exit, Run(cpu, n, Config(base, s)))
      && DirtOut(cpu, x, Entry, exit.last) <= CORRUPTIBLE_REGS
      && (forall j ::
        0 <= j <= exit.last && j < x.Length() ==> DirtOut(cpu, x, Entry, exit.last) !! Writes(cpu, x.code[j]))
    ensures n <= 8
  {
    hide Translate, Decode, Layout, Loaded, Run, Sound, Step, PlanInsn, Writes, WellBehaved, SameOutcome, DirtAt,
         DirtOut, Original, KeepsTrampoline;
    var exit := Original(cpu, x, 0, s);
    assert BlockAt(x, base, 0) == base by { PlusZero(base); }
    assert DirtAt(cpu, x, Entry, 0) == {} by { NoDirtAtEntry(cpu, x); }
    n := SimulatesFrom(cpu, x, Entry, base, 0, s, s);
    OriginalLast(cpu, x, 0, s);
    DirtOutIsUnwritten(cpu, x, Entry, exit.last);
  }

  lemma NoDirtAtEntry(cpu: Cpu, x: Prefix)
    requires x.Accepted()
    ensures DirtAt(cpu, x, Entry, 0) == {}
  {}

  /** Behind a call made by word `i`: the registers that tell the two returns apart are the link register and those
      that differed when the callee was entered. */
  function AfterCall(cpu: Cpu, x: Prefix, i: nat): Origin
    requires x.Accepted() && i < x.Length()
  {
    Origin(i + 1, DirtOut(cpu, x, Entry, i) + {LR})
  }

  /** A callee that any word of the prefix has called returns, in the trampoline, to the block behind this word. From
      whatever state `t` it returns with, the rest of the trampoline does what the rest of the prefix does from the
      same memory, flags and registers, the link register and unwritten ones of x9-x15 apart, provided the rest does
      not look at those. A callee that has stored its return address has left another one in the dead part of its
      stack than the original would have; `s` then stands for the original with that same dead stack. */
  lemma ReturnFromCallPreservesMeaning(cpu: Cpu, x: Prefix, base: Addr, i: nat, s: State, t: State)
    returns (n: nat)
    requires Sound(cpu) && x.Accepted() && i < x.Length() && IsLink(x.code[i])
    requires WellBehaved(cpu, x, AfterCall(cpu, x, i)) && Agree(s, t, AfterCall(cpu, x, i).dirt)
    requires KeepsTrampoline(cpu, x, base, i + 1, s)
    ensures SameOutcome(cpu, x, AfterCall(cpu, x, i), base, Original(cpu, x, i + 1, s),
                        Run(cpu, n, Config(BlockAt(x, base, i + 1), t)))
    ensures n <= 5
  {
    hide Translate, Decode, Layout, Loaded, Run, Sound, Step, PlanInsn, WellBehaved, SameOutcome, Agree, Original,
         DirtOut, KeepsTrampoline;
    n := SimulatesFrom(cpu, x, AfterCall(cpu, x, i), base, i + 1, s, t);
  }

  lemma OriginalLast(cpu: Cpu, x: Prefix, i: nat, s: State)
    requires x.Accepted() && i <= x.Length()
    ensures i <= Original(cpu, x, i, s).last <= x.Length()
    decreases x.Length() - i
  {
    hide Step, Translate;
    if i < x.Length() {
      var (s', taken) := Step(cpu, x.code[i], At(x.func, i), s);
      if taken.None? { OriginalLast(cpu, x, i + 1, s'); }
    }
  }
}
