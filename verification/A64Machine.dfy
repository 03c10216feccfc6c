/** A small A64 machine, following section C6.2 of the Arm Architecture Reference Manual (DDI 0487).
    Instruction words are `bv32`, addresses and general registers `bv64`; wrap-around is the machine's own.
    The program counter is not part of `State`: a step returns the taken branch target, or None when
    execution falls through to the next word. */
module A64Machine {
  import opened Common

  type Word = bv32
  type Addr = bv64
  type Reg = bv5

  type Memory = Addr -> bv8

  const XZR: Reg := 31
  const LR: Reg := 30
  const NOP: Word := 0xD503_201F

  datatype Flags = Flags(n: bool, z: bool, c: bool, v: bool)

  datatype State = State(x: Reg -> bv64, q: Reg -> bv128, sp: bv64, flags: Flags, mem: Memory)

  /** The access width and destination of a load, and the prefetch hint, which has no visible effect. */
  datatype Access = LoadW | LoadX | LoadSW | LoadS | LoadD | LoadQ | Prefetch

  datatype Insn =
    | Adr(d: Reg, imm: bv64)
    | Adrp(d: Reg, imm: bv64)
    | B(off: bv64)
    | Bl(off: bv64)
    | BCond(cond: bv4, off: bv64)
    | Cb(sf: bool, nonzero: bool, t: Reg, off: bv64)
    | Tb(nonzero: bool, bit: bv64, t: Reg, off: bv64)
    | LdrLit(access: Access, t: Reg, off: bv64)
    | LdrBase(access: Access, t: Reg, n: Reg)
    | Br(n: Reg)
    | Blr(n: Reg)
    | Other(w: Word)

  /** Instructions this machine does not spell out: an effect that does not mention the program counter,
      with the sets of general registers each word reads and always writes. */
  datatype Cpu = Cpu(
    effect: (Word, State) -> (State, Option<Addr>),
    reads_: Word -> set<Reg>,
    writes: Word -> set<Reg>)

  // ---- bit fields ----

  function SignExtend32(v: bv32): bv64 {
    if v & 0x8000_0000 != 0 then (v as bv64) | 0xFFFF_FFFF_0000_0000 else v as bv64
  }

  function Rd(w: Word): Reg { (w & 0x1F) as bv5 }

  function Rn(w: Word): Reg { ((w >> 5) & 0x1F) as bv5 }

  /** SignExtend(imm26:'00'). */
  function Imm26(w: Word): bv64 {
    if w & 0x0200_0000 != 0 then (((w & 0x03FF_FFFF) as bv64) << 2) | 0xFFFF_FFFF_F000_0000
    else ((w & 0x03FF_FFFF) as bv64) << 2
  }

  /** SignExtend(imm19:'00'). */
  function Imm19(w: Word): bv64 {
    if w & 0x0080_0000 != 0 then ((((w >> 5) & 0x7_FFFF) as bv64) << 2) | 0xFFFF_FFFF_FFE0_0000
    else (((w >> 5) & 0x7_FFFF) as bv64) << 2
  }

  /** SignExtend(imm14:'00'). */
  function Imm14(w: Word): bv64 {
    if w & 0x0004_0000 != 0 then ((((w >> 5) & 0x3FFF) as bv64) << 2) | 0xFFFF_FFFF_FFFF_0000
    else (((w >> 5) & 0x3FFF) as bv64) << 2
  }

  /** SignExtend(immhi:immlo). */
  function ImmAdr(w: Word): bv64 {
    if w & 0x0080_0000 != 0 then
      ((((w >> 5) & 0x7_FFFF) as bv64) << 2) | (((w >> 29) & 3) as bv64) | 0xFFFF_FFFF_FFE0_0000
    else ((((w >> 5) & 0x7_FFFF) as bv64) << 2) | (((w >> 29) & 3) as bv64)
  }

  /** b5:b40, as a mask. */
  function TbBit(w: Word): bv64 { 1 << ((((w >> 26) & 0x20) | ((w >> 19) & 0x1F)) as bv6) }

  function LiteralAccess(w: Word): Option<Access> {
    match w >> 24
    case 0x18 => Some(LoadW)
    case 0x58 => Some(LoadX)
    case 0x98 => Some(LoadSW)
    case 0xD8 => Some(Prefetch)
    case 0x1C => Some(LoadS)
    case 0x5C => Some(LoadD)
    case 0x9C => Some(LoadQ)
    case _ => None
  }

  /** The unsigned-offset loads, restricted to offset 0. */
  function BaseAccess(w: Word): Option<Access> {
    match w >> 10
    case 0x2E_5000 => Some(LoadW)
    case 0x3E_5000 => Some(LoadX)
    case 0x2E_6000 => Some(LoadSW)
    case 0x3E_6000 => Some(Prefetch)
    case 0x2F_5000 => Some(LoadS)
    case 0x3F_5000 => Some(LoadD)
    case 0x0F_7000 => Some(LoadQ)
    case _ => None
  }

  function Decode(w: Word): Insn {
    if w & 0x9F00_0000 == 0x1000_0000 then Adr(Rd(w), ImmAdr(w))
    else if w & 0x9F00_0000 == 0x9000_0000 then Adrp(Rd(w), ImmAdr(w) << 12)
    else if w & 0xFC00_0000 == 0x1400_0000 then B(Imm26(w))
    else if w & 0xFC00_0000 == 0x9400_0000 then Bl(Imm26(w))
    else if w & 0xFF00_0010 == 0x5400_0000 then BCond((w & 0xF) as bv4, Imm19(w))
    else if w & 0x7E00_0000 == 0x3400_0000 then
      Cb(w & 0x8000_0000 != 0, w & 0x0100_0000 != 0, Rd(w), Imm19(w))
    else if w & 0x7E00_0000 == 0x3600_0000 then
      Tb(w & 0x0100_0000 != 0, TbBit(w), Rd(w), Imm14(w))
    else if LiteralAccess(w).Some? then LdrLit(LiteralAccess(w).value, Rd(w), Imm19(w))
    else if BaseAccess(w).Some? then LdrBase(BaseAccess(w).value, Rd(w), Rn(w))
    else if w & 0xFFFF_FC1F == 0xD61F_0000 then Br(Rn(w))
    else if w & 0xFFFF_FC1F == 0xD63F_0000 then Blr(Rn(w))
    else Other(w)
  }

  // ---- registers and memory ----

  function X(s: State, r: Reg): bv64 { if r == XZR then 0 else s.x(r) }

  function Base(s: State, r: Reg): bv64 { if r == 31 then s.sp else s.x(r) }

  function SetX(s: State, r: Reg, v: bv64): State {
    if r == XZR then s else s.(x := (k: Reg) => if k == r then v else s.x(k))
  }

  function SetQ(s: State, r: Reg, v: bv128): State {
    s.(q := (k: Reg) => if k == r then v else s.q(k))
  }

  function Load32(mem: Memory, a: Addr): bv32 {
    (mem(a) as bv32) | ((mem(a + 1) as bv32) << 8) | ((mem(a + 2) as bv32) << 16) | ((mem(a + 3) as bv32) << 24)
  }

  function Join(low: bv32, high: bv32): bv64 { (low as bv64) | ((high as bv64) << 32) }

  function Load64(mem: Memory, a: Addr): bv64 { Join(Load32(mem, a), Load32(mem, Plus(a, 4))) }

  function JoinQuad(low: bv64, high: bv64): bv128 { (low as bv128) | ((high as bv128) << 64) }

  function QuadWord(mem: Memory, a: Addr): bv128 { JoinQuad(Load64(mem, a), Load64(mem, Plus(a, 8))) }

  predicate LoadsGeneral(access: Access) { access in {LoadW, LoadX, LoadSW} }

  function GeneralValue(access: Access, mem: Memory, a: Addr): bv64 {
    match access
    case LoadX => Load64(mem, a)
    case LoadSW => SignExtend32(Load32(mem, a))
    case _ => Load32(mem, a) as bv64
  }

  function VectorValue(access: Access, mem: Memory, a: Addr): bv128 {
    match access
    case LoadS => Load32(mem, a) as bv128
    case LoadQ => QuadWord(mem, a)
    case _ => Load64(mem, a) as bv128
  }

  function Load(access: Access, t: Reg, a: Addr, s: State): State {
    if LoadsGeneral(access) then SetX(s, t, GeneralValue(access, s.mem, a))
    else if access == Prefetch then s
    else SetQ(s, t, VectorValue(access, s.mem, a))
  }

  /** ConditionHolds of the manual: bits 3:1 choose the test, bit 0 negates it except for 1111. */
  function ConditionHolds(cond: bv4, f: Flags): bool {
    var base :=
      match cond >> 1
      case 0 => f.z
      case 1 => f.c
      case 2 => f.n
      case 3 => f.v
      case 4 => f.c && !f.z
      case 5 => f.n == f.v
      case 6 => f.n == f.v && !f.z
      case _ => true;
    if cond & 1 == 1 && cond != 15 then !base else base
  }

  function CbTest(sf: bool, v: bv64): bool {
    if sf then v == 0 else v & 0xFFFF_FFFF == 0
  }

  function TbTest(bit: bv64, v: bv64): bool { v & bit != 0 }

  // ---- execution ----

  /** Address arithmetic, wrapping at 2^64; and relative to the 4KB page. */
  function Plus(a: Addr, off: bv64): Addr { a + off }

  function PageOf(a: Addr): Addr { a & 0xFFFF_FFFF_FFFF_F000 }

  function PagePlus(a: Addr, off: bv64): Addr { Plus(PageOf(a), off) }

  function BranchIf(c: bool, target: Addr): Option<Addr> { if c then Some(target) else None }

  function Execute(cpu: Cpu, insn: Insn, pc: Addr, s: State): (State, Option<Addr>) {
    match insn
    case Adr(d, imm) => (SetX(s, d, Plus(pc, imm)), None)
    case Adrp(d, imm) => (SetX(s, d, PagePlus(pc, imm)), None)
    case B(off) => (s, Some(Plus(pc, off)))
    case Bl(off) => (SetX(s, LR, Plus(pc, 4)), Some(Plus(pc, off)))
    case BCond(cond, off) => (s, BranchIf(ConditionHolds(cond, s.flags), Plus(pc, off)))
    case Cb(sf, nonzero, t, off) => (s, BranchIf(CbTest(sf, X(s, t)) != nonzero, Plus(pc, off)))
    case Tb(nonzero, bit, t, off) => (s, BranchIf(TbTest(bit, X(s, t)) == nonzero, Plus(pc, off)))
    case LdrLit(access, t, off) => (Load(access, t, Plus(pc, off), s), None)
    case LdrBase(access, t, n) => (Load(access, t, Base(s, n), s), None)
    case Br(n) => (s, Some(X(s, n)))
    case Blr(n) => (SetX(s, LR, Plus(pc, 4)), Some(X(s, n)))
    case Other(w) => cpu.effect(w, s)
  }

  function Step(cpu: Cpu, w: Word, pc: Addr, s: State): (State, Option<Addr>) {
    Execute(cpu, Decode(w), pc, s)
  }

  function Next(pc: Addr, taken: Option<Addr>): Addr {
    if taken.Some? then taken.value else Plus(pc, 4)
  }

  datatype Config = Config(pc: Addr, s: State)

  /** `n` steps of a program that lives in the machine's own memory. */
  function Run(cpu: Cpu, n: nat, c: Config): Config
    decreases n
  {
    if n == 0 then c
    else
      var (s', taken) := Step(cpu, Load32(c.s.mem, c.pc), c.pc, c.s);
      Run(cpu, n - 1, Config(Next(c.pc, taken), s'))
  }

  lemma {:induction false} RunCompose(cpu: Cpu, m: nat, n: nat, c: Config)
    ensures Run(cpu, m + n, c) == Run(cpu, n, Run(cpu, m, c))
    decreases m
  {
    hide Step;
    if m != 0 {
      var (s', taken) := Step(cpu, Load32(c.s.mem, c.pc), c.pc, c.s);
      RunCompose(cpu, m - 1, n, Config(Next(c.pc, taken), s'));
    }
  }

  // ---- registers an instruction reads and always writes ----

  function AccessWrites(access: Access, t: Reg): set<Reg> {
    if LoadsGeneral(access) then {t} else {}
  }

  function Reads(cpu: Cpu, w: Word): set<Reg> {
    match Decode(w)
    case Cb(_, _, t, _) => {t}
    case Tb(_, _, t, _) => {t}
    case LdrBase(_, _, n) => {n}
    case Br(n) => {n}
    case Blr(n) => {n}
    case Other(o) => cpu.reads_(o)
    case _ => {}
  }

  function Writes(cpu: Cpu, w: Word): set<Reg> {
    match Decode(w)
    case Adr(d, _) => {d}
    case Adrp(d, _) => {d}
    case Bl(_) => {LR}
    case Blr(_) => {LR}
    case LdrLit(access, t, _) => AccessWrites(access, t)
    case LdrBase(access, t, _) => AccessWrites(access, t)
    case Other(o) => cpu.writes(o)
    case _ => {}
  }

  /** Equal states, except that the general registers in `except` may differ. */
  ghost predicate Agree(s: State, t: State, except: set<Reg>) {
    && (forall r: Reg :: r !in except ==> s.x(r) == t.x(r))
    && (forall r: Reg :: s.q(r) == t.q(r))
    && s.sp == t.sp && s.flags == t.flags && s.mem == t.mem
  }

  /** What is assumed of the instructions left abstract: registers outside their read set do not influence them. */
  ghost predicate Sound(cpu: Cpu) {
    forall w: Word, s: State, t: State, d: set<Reg> ::
      Agree(s, t, d) && cpu.reads_(w) !! d ==>
        && cpu.effect(w, s).1 == cpu.effect(w, t).1
        && Agree(cpu.effect(w, s).0, cpu.effect(w, t).0, d - cpu.writes(w))
  }
}
