/** The two get-pc idioms of position-independent i386 code, on a machine with the instructions they consist of:
    the mov that replaces them leaves the same registers and the same stack pointer. */
module I386GetPc {
  import opened Common
  import opened X86Code
  import opened X86Relocator

  /** Eight general registers in the order of their encoding. */
  type Registers = r: seq<int> | |r| == 8 witness [0, 0, 0, 0, 0, 0, 0, 0]

  datatype Cpu = Cpu(regs: Registers, eip: int, mem: Memory)

  ghost predicate ValidCpu(s: Cpu) {
    (forall r :: 0 <= r < 8 ==> 0 <= s.regs[r] < TWO32) && 4 <= s.regs[ESP] && 0 <= s.eip < TWO32
  }

  function Write32(mem: Memory, a: int, v: int): Memory {
    (x: int) => if a <= x < a + 4 then Le32(v)[x - a] else mem(x)
  }

  /** The register of a mov (%esp),%reg, from its ModR/M byte, and of the short forms of pop and mov. */
  function ModRmReg(b: byte): int { (b - 4) / 8 }

  function Step(s: Cpu): Option<Cpu> {
    var a, sp := s.eip, s.regs[ESP];
    var op := s.mem(a);
    if op == 0xE8 then
      Some(Cpu(s.regs[ESP := sp - 4], (a + 5 + Signed32(Read32(s.mem, a + 1))) % TWO32,
               Write32(s.mem, sp - 4, (a + 5) % TWO32)))
    else if op == 0x8B && s.mem(a + 1) % 8 == 4 && s.mem(a + 1) < 0x40 && s.mem(a + 2) == 0x24 then
      Some(s.(regs := s.regs[ModRmReg(s.mem(a + 1)) := Read32(s.mem, sp)], eip := (a + 3) % TWO32))
    else if op == 0xC3 then
      Some(s.(regs := s.regs[ESP := sp + 4], eip := Read32(s.mem, sp)))
    else if 0x58 <= op < 0x60 then
      Some(s.(regs := s.regs[ESP := sp + 4][op - 0x58 := Read32(s.mem, sp)], eip := (a + 1) % TWO32))
    else if 0xB8 <= op < 0xC0 then
      Some(s.(regs := s.regs[op - 0xB8 := Read32(s.mem, a + 1)], eip := (a + 5) % TWO32))
    else None
  }

  function Steps(s: Cpu, n: nat): Option<Cpu>
    decreases n
  {
    if n == 0 then Some(s)
    else
      var s' := Step(s);
      if s'.None? then None else Steps(s'.value, n - 1)
  }

  /** Equal registers; memory equal but for the four bytes below the stack pointer. */
  ghost predicate SameButBelowStack(s: Cpu, t: Cpu) {
    t.regs == s.regs && forall x :: !(s.regs[ESP] - 4 <= x < s.regs[ESP]) ==> t.mem(x) == s.mem(x)
  }

  lemma ReadWritten(mem: Memory, a: int, v: int)
    requires 0 <= v < TWO32
    ensures Read32(Write32(mem, a, v), a) == v
  {
    var m := Write32(mem, a, v);
    assert Four(m, a) == Le32(v);
    Le32Value(v);
  }

  lemma MovFromStackRuns(s: Cpu, reg: nat)
    requires ValidCpu(s) && reg < 8 && s.eip + 3 < TWO32
    requires s.mem(s.eip) == 0x8B && s.mem(s.eip + 1) == 4 + 8 * reg && s.mem(s.eip + 2) == 0x24
    ensures Step(s) == Some(s.(regs := s.regs[reg := Read32(s.mem, s.regs[ESP])], eip := s.eip + 3))
  {
    hide Read32, Write32;
    assert (4 + 8 * reg - 4) / 8 == reg;
  }

  lemma RetRuns(s: Cpu)
    requires ValidCpu(s) && s.mem(s.eip) == 0xC3
    ensures Step(s) == Some(s.(regs := s.regs[ESP := s.regs[ESP] + 4], eip := Read32(s.mem, s.regs[ESP])))
  {
    hide Read32, Write32;
  }

  lemma PopRuns(s: Cpu, reg: nat)
    requires ValidCpu(s) && reg < 8 && s.eip + 1 < TWO32 && s.mem(s.eip) == 0x58 + reg
    ensures var regs := s.regs[ESP := s.regs[ESP] + 4][reg := Read32(s.mem, s.regs[ESP])];
      Step(s) == Some(s.(regs := regs, eip := s.eip + 1))
  {
    hide Read32, Write32;
  }

  /** The first step of both idioms. */
  lemma CallRuns(s: Cpu, target: int)
    requires ValidCpu(s) && s.regs[ESP] >= 8 && s.mem(s.eip) == 0xE8 && s.eip + 5 < TWO32
    requires (s.eip + 5 + Signed32(Read32(s.mem, s.eip + 1))) % TWO32 == target
    ensures var s1 := Cpu(s.regs[ESP := s.regs[ESP] - 4], target, Write32(s.mem, s.regs[ESP] - 4, s.eip + 5));
      Step(s) == Some(s1) && ValidCpu(s1) && Read32(s1.mem, s1.regs[ESP]) == s.eip + 5
  {
    hide Read32, Write32, Signed32;
    ReadWritten(s.mem, s.regs[ESP] - 4, s.eip + 5);
  }

  lemma WrittenElsewhere(mem: Memory, a: int, v: int, at: int, n: nat)
    requires at + n <= a || a + 4 <= at
    ensures forall x :: at <= x < at + n ==> Write32(mem, a, v)(x) == mem(x)
  {}

  lemma TwoSteps(s: Cpu, s1: Cpu, s2: Cpu)
    requires Step(s) == Some(s1) && Step(s1) == Some(s2)
    ensures Steps(s, 2) == Some(s2)
  {
    hide Step;
    assert Steps(s2, 0) == Some(s2) && Steps(s1, 1) == Some(s2);
  }

  /** The state behind a call to the address. */
  function Called(s: Cpu, target: int): Cpu {
    Cpu(s.regs[ESP := s.regs[ESP] - 4], target, Write32(s.mem, s.regs[ESP] - 4, s.eip + 5))
  }

  lemma StaysValid(s: Cpu, reg: nat)
    requires ValidCpu(s) && reg < 8 && reg != ESP && s.eip + 3 < TWO32
    ensures ValidCpu(s.(regs := s.regs[reg := Read32(s.mem, s.regs[ESP])], eip := s.eip + 3))
  {}

  /** mov (%esp),%reg; ret. */
  lemma ThunkRuns(s: Cpu, reg: nat)
    requires ValidCpu(s) && reg < 8 && reg != ESP && s.eip + 4 < TWO32
    requires s.mem(s.eip) == 0x8B && s.mem(s.eip + 1) == 4 + 8 * reg && s.mem(s.eip + 2) == 0x24
      && s.mem(s.eip + 3) == 0xC3
    ensures var pc := Read32(s.mem, s.regs[ESP]);
      Steps(s, 2) == Some(s.(regs := s.regs[reg := pc][ESP := s.regs[ESP] + 4], eip := pc))
  {
    hide Read32, Write32, Step, Steps;
    MovFromStackRuns(s, reg);
    var pc := Read32(s.mem, s.regs[ESP]);
    var s1 := s.(regs := s.regs[reg := pc], eip := s.eip + 3);
    StaysValid(s, reg);
    RetRuns(s1);
    TwoSteps(s, s1, s1.(regs := s1.regs[ESP := s.regs[ESP] + 4], eip := pc));
  }

  /** call thunk; mov (%esp),%reg; ret: in three steps control is behind the call, the register holds that address,
      and nothing else has changed, apart from memory below the stack pointer. The pushed return address must not
      fall on the thunk. */
  lemma ThunkIdiom(s: Cpu, thunk: int, reg: nat)
    requires ValidCpu(s) && s.regs[ESP] >= 8 && reg < 8 && reg != ESP
    requires s.mem(s.eip) == 0xE8 && s.eip + 5 < TWO32
    requires (s.eip + 5 + Signed32(Read32(s.mem, s.eip + 1))) % TWO32 == thunk && thunk + 4 < TWO32
    requires s.mem(thunk) == 0x8B && s.mem(thunk + 1) == 4 + 8 * reg && s.mem(thunk + 2) == 0x24
      && s.mem(thunk + 3) == 0xC3
    requires thunk + 4 <= s.regs[ESP] - 4 || s.regs[ESP] <= thunk
    ensures var t := Steps(s, 3);
      t.Some? && t.value.eip == s.eip + 5 && SameButBelowStack(s.(regs := s.regs[reg := s.eip + 5]), t.value)
  {
    hide Read32, Write32, Signed32, Step;
    var sp := s.regs[ESP];
    CallRuns(s, thunk);
    WrittenElsewhere(s.mem, sp - 4, s.eip + 5, thunk, 4);
    var s1 := Called(s, thunk);
    ThunkRuns(s1, reg);
    BelowStackOnly(s.mem, sp - 4, s.eip + 5);
    assert s1.regs[reg := s.eip + 5][ESP := sp] == s.regs[reg := s.eip + 5];
  }

  lemma BelowStackOnly(mem: Memory, a: int, v: int)
    ensures forall x :: !(a <= x < a + 4) ==> Write32(mem, a, v)(x) == mem(x)
  {}

  lemma CallToNext(s: Cpu)
    requires ValidCpu(s) && s.regs[ESP] >= 8 && s.mem(s.eip) == 0xE8 && s.eip + 5 < TWO32
    requires Read32(s.mem, s.eip + 1) == 0
    ensures Step(s) == Some(Called(s, s.eip + 5)) && ValidCpu(Called(s, s.eip + 5))
    ensures Read32(Called(s, s.eip + 5).mem, s.regs[ESP] - 4) == s.eip + 5
  {
    hide Read32, Write32, Step, Signed32;
    NextAddress(s.eip + 5);
    CallRuns(s, s.eip + 5);
  }

  /** call +0; pop %reg: the same, in two steps, with control behind the pop. */
  lemma CallPopIdiom(s: Cpu, reg: nat)
    requires ValidCpu(s) && s.regs[ESP] >= 8 && reg < 8 && reg != ESP
    requires s.mem(s.eip) == 0xE8 && s.eip + 6 < TWO32 && Read32(s.mem, s.eip + 1) == 0
    requires s.mem(s.eip + 5) == 0x58 + reg
    requires s.eip + 6 <= s.regs[ESP] - 4 || s.regs[ESP] <= s.eip + 5
    ensures var t := Steps(s, 2);
      t.Some? && t.value.eip == s.eip + 6 && SameButBelowStack(s.(regs := s.regs[reg := s.eip + 5]), t.value)
  {
    hide Read32, Write32, Step, Steps;
    var sp := s.regs[ESP];
    CallToNext(s);
    WrittenElsewhere(s.mem, sp - 4, s.eip + 5, s.eip + 5, 1);
    var s1 := Called(s, s.eip + 5);
    PopRuns(s1, reg);
    var s2 := s1.(regs := s1.regs[ESP := sp][reg := s.eip + 5], eip := s.eip + 6);
    TwoSteps(s, s1, s2);
    BelowStackOnly(s.mem, sp - 4, s.eip + 5);
    assert s2.regs == s.regs[reg := s.eip + 5];
  }

  lemma NextAddress(a: int)
    requires 0 <= a < TWO32
    ensures (a + Signed32(0)) % TWO32 == a
  {}

  /** The emitted mov: one step, at any address. */
  lemma MovRuns(s: Cpu, opcode: byte, v: int)
    requires ValidCpu(s) && 0xB8 <= opcode < 0xC0 && s.eip + 5 < TWO32 && 0 <= v < TWO32
    requires s.mem(s.eip) == opcode && Four(s.mem, s.eip + 1) == Le32(v)
    ensures Step(s) == Some(s.(regs := s.regs[opcode - 0xB8 := v], eip := s.eip + 5))
  {
    Le32Value(v);
    assert Read32(s.mem, s.eip + 1) == v;
    hide Read32, Write32;
  }

  // ---- the translator's tables ----

  lemma ThunkTable(first4: int, code: seq<byte>)
    requires ThunkOpcode(first4).Some? && |code| == 4 && Get32(code, 0) == first4
    ensures var opcode := ThunkOpcode(first4).value;
      && 0xB8 <= opcode < 0xC0 && opcode != 0xB8 + ESP
      && code == [0x8B, 4 + 8 * (opcode - 0xB8), 0x24, 0xC3]
  {
    var b0: int, b1: int, b2: int, b3: int := code[0], code[1], code[2], code[3];
    assert first4 == b0 + 256 * b1 + 0x1_0000 * b2 + 0x100_0000 * b3;
  }

  lemma PopTable(b: byte)
    requires PopOpcode(b).Some?
    ensures var opcode := PopOpcode(b).value;
      0xB8 <= opcode < 0xC0 && opcode != 0xB8 + ESP && b == 0x58 + (opcode - 0xB8)
  {}

  /** The original idiom is in memory at its own address, with its call reported rightly. */
  ghost predicate Original(env: Env, src: nat, insn: Insn, s: Cpu) {
    && env.mode == I386 && |env.code| == MAX_INSN_CHECK_SIZE && src < REL2G_JUMP_SIZE
    && ValidCpu(s) && s.regs[ESP] >= 8 && s.eip == env.func + src && s.eip + 6 < TWO32
    && (forall k :: 0 <= k < |env.code| ==> s.mem(env.func + k) == env.code[k])
    && insn.imm.addr == (s.eip + 5 + Signed32(Get32(env.code, src + 1))) % TWO32
    && env.load32(insn.imm.addr) == Read32(s.mem, insn.imm.addr)
  }

  /** The stack slot the idiom uses and the code it executes do not meet. */
  ghost predicate StackApart(s: Cpu, code: int, n: nat) {
    code + n < TWO32 && (code + n <= s.regs[ESP] - 4 || s.regs[ESP] <= code)
  }

  lemma CodeField(env: Env, src: nat, insn: Insn, s: Cpu)
    requires Original(env, src, insn, s)
    ensures Read32(s.mem, s.eip + 1) == Get32(env.code, src + 1)
    ensures s.mem(s.eip) == env.code[src] && s.mem(s.eip + 5) == env.code[src + 5]
  {
    assert s.mem(env.func + (src + 1)) == env.code[src + 1] && s.mem(env.func + (src + 2)) == env.code[src + 2];
    assert s.mem(env.func + (src + 3)) == env.code[src + 3] && s.mem(env.func + (src + 4)) == env.code[src + 4];
    assert s.mem(env.func + (src + 5)) == env.code[src + 5] && s.mem(env.func + src) == env.code[src];
  }

  /** The idiom at its own address leaves the next address in the register, and nothing else. */
  ghost predicate Gets(s: Cpu, t: Option<Cpu>, opcode: byte, replaced: nat) {
    && 0xB8 <= opcode < 0xC0
    && t.Some? && t.value.eip == s.eip + replaced
    && SameButBelowStack(s.(regs := s.regs[opcode - 0xB8 := s.eip + 5]), t.value)
  }

  lemma ThunkBytes(mem: Memory, a: int, reg: nat)
    requires reg < 8 && Four(mem, a) == [0x8B, 4 + 8 * reg, 0x24, 0xC3]
    ensures mem(a) == 0x8B && mem(a + 1) == 4 + 8 * reg && mem(a + 2) == 0x24 && mem(a + 3) == 0xC3
  {
    var f := Four(mem, a);
    assert mem(a) == f[0] && mem(a + 1) == f[1] && mem(a + 2) == f[2] && mem(a + 3) == f[3];
  }

  /** What Original says of the call itself. */
  lemma OriginalCall(env: Env, src: nat, insn: Insn, s: Cpu)
    requires Original(env, src, insn, s) && env.code[src] == CALL
    ensures s.mem(s.eip) == CALL && s.mem(s.eip + 5) == env.code[src + 5]
    ensures Read32(s.mem, s.eip + 1) == Get32(env.code, src + 1)
    ensures (s.eip + 5 + Signed32(Read32(s.mem, s.eip + 1))) % TWO32 == insn.imm.addr
  {
    hide Read32, Get32, Signed32;
    CodeField(env, src, insn, s);
  }

  /** The table of thunks read in memory. */
  lemma ThunkInMemory(mem: Memory, thunk: int, first4: int, opcode: byte)
    requires first4 == Read32(mem, thunk) && ThunkOpcode(first4) == Some(opcode)
    ensures 0xB8 <= opcode < 0xC0 && opcode != 0xB8 + ESP
    ensures mem(thunk) == 0x8B && mem(thunk + 1) == 4 + 8 * (opcode - 0xB8) && mem(thunk + 2) == 0x24
      && mem(thunk + 3) == 0xC3
  {
    hide Get32, ThunkOpcode;
    ThunkTable(first4, Four(mem, thunk));
    ThunkBytes(mem, thunk, opcode - 0xB8);
  }

  lemma OriginalThunk(env: Env, src: nat, insn: Insn, s: Cpu, opcode: byte)
    requires Original(env, src, insn, s) && env.code[src] == CALL && StackApart(s, insn.imm.addr, 4)
    requires ThunkOpcode(env.load32(insn.imm.addr)) == Some(opcode)
    ensures Gets(s, Steps(s, 3), opcode, 5)
  {
    hide Read32, Write32, Signed32, Step, Four, Steps, ThunkOpcode, SameButBelowStack, Get32, Le32;
    var thunk := insn.imm.addr;
    OriginalCall(env, src, insn, s);
    ThunkInMemory(s.mem, thunk, env.load32(thunk), opcode);
    assert 0 <= thunk;
    ThunkIdiom(s, thunk, opcode - 0xB8);
  }

  lemma OriginalPop(env: Env, src: nat, insn: Insn, s: Cpu, opcode: byte)
    requires Original(env, src, insn, s) && env.code[src] == CALL && StackApart(s, s.eip + 5, 1)
    requires Get32(env.code, src + 1) == 0 && PopOpcode(env.code[src + 5]) == Some(opcode)
    ensures Gets(s, Steps(s, 2), opcode, 6)
  {
    hide Read32, Write32, Signed32, Step, Four, Steps, SameButBelowStack, Get32, Le32;
    OriginalCall(env, src, insn, s);
    PopTable(env.code[src + 5]);
    CallPopIdiom(s, opcode - 0xB8);
  }

  /** Rewriting preserves meaning: where the translator puts a mov for an idiom, the idiom at its own address and
      the mov at any address lead from the same registers to the same registers, and control goes on behind what
      was replaced. */
  lemma RewritingPreservesMeaning(env: Env, src: nat, insn: Insn, s: Cpu, tramp: int)
    requires Original(env, src, insn, s) && GetPcAt(env, src, insn).Some?
    requires StackApart(s, insn.imm.addr, 4) && StackApart(s, s.eip + 5, 1)
    requires 0 <= tramp && tramp + 5 < TWO32
    requires var opcode := GetPcAt(env, src, insn).value.0;
      s.mem(tramp) == opcode && Four(s.mem, tramp + 1) == Le32(s.eip + 5)
    ensures var pc := GetPcAt(env, src, insn).value;
      var t, u := Steps(s, if pc.1 == 5 then 3 else 2), Step(s.(eip := tramp));
      && t.Some? && u.Some? && SameButBelowStack(u.value, t.value)
      && t.value.eip == s.eip + pc.1 && u.value.eip == tramp + 5
  {
    hide Step, Steps, Four, Le32, ThunkOpcode, PopOpcode, Get32;
    var pc := GetPcAt(env, src, insn).value;
    if ThunkOpcode(env.load32(insn.imm.addr)).Some? {
      OriginalThunk(env, src, insn, s, pc.0);
    } else {
      OriginalPop(env, src, insn, s, pc.0);
    }
    MovRuns(s.(eip := tramp), pc.0, s.eip + 5);
  }
}
