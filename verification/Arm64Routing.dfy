/** funchook_fix_code of src/arch_arm64.c and the code it writes: a patched function reaches its hook. */
module Arm64Routing {
  import opened Common
  import opened A64Machine
  import opened A64Sums
  import opened Arm64Translator
  import opened Arm64Blocks
  import opened HookCaller

  const TRANSIT_CODE_SIZE := 6
  const TRANSIT_HOOK_CALLER_ADDR := 4

  /** The distance between the pages of two addresses. */
  function PageDistance(src: Addr, dst: Addr): bv64 { Minus(PageOf(dst), PageOf(src)) }

  function ImmLo(imm: bv64): bv32 { ((imm >> 12) & 3) as bv32 }

  function ImmHi(imm: bv64): bv32 { ((imm >> 14) & 0x7_FFFF) as bv32 }

  function AdrpBits(hi: bv32, lo: bv32): Word { 0x9000_0009 | (lo << 29) | (hi << 5) }

  function AdrpWord(imm: bv64): Word { AdrpBits(ImmHi(imm), ImmLo(imm)) }

  const BR_X9: Word := 0xD61F_0120

  function NewCode(target: Addr, transit: Addr): seq<Word> { [AdrpWord(PageDistance(target, transit)), BR_X9] }

  function AbsoluteJump(dst: Addr): seq<Word> { [0x5800_0049, BR_X9, Low(dst), High(dst)] }

  function PrehookTransit(caller: Addr): seq<Word> {
    [0x1000_000A, 0x5800_0069, BR_X9, 0xD503_201F, Low(caller), High(caller)]
  }

  method FixCode(e: Entry<Addr>, transitAddr: Addr, caller: Addr, newCode: array<Word>, transit: array<Word>)
    requires newCode.Length == REL4G_JUMP_SIZE && transit.Length == TRANSIT_CODE_SIZE && newCode != transit
    modifies newCode, transit
    ensures newCode[..] == NewCode(e.target, transitAddr)
    ensures e.hasPrehook ==> transit[..] == PrehookTransit(caller)
    ensures !e.hasPrehook ==> transit[..4] == AbsoluteJump(Destination(e)) && transit[4..] == old(transit[4..])
  {
    hide AdrpWord, PageDistance, Low, High;
    newCode[0] := AdrpWord(PageDistance(e.target, transitAddr));
    newCode[1] := BR_X9;
    if e.hasPrehook {
      transit[0], transit[1], transit[2] := 0x1000_000A, 0x5800_0069, BR_X9;
      transit[3], transit[4], transit[5] := 0xD503_201F, 0xD503_201F, 0xD503_201F;
      transit[TRANSIT_HOOK_CALLER_ADDR] := Low(caller);
      transit[TRANSIT_HOOK_CALLER_ADDR + 1] := High(caller);
    } else {
      transit[0] := 0x5800_0049;
      transit[1] := BR_X9;
      transit[2] := Low(Destination(e));
      transit[3] := High(Destination(e));
    }
  }

  // ---- reach of ADRP ----

  /** A page distance that ADRP can express: 33 bits, sign extended. */
  predicate FitsAdrp(imm: bv64) { imm >> 32 == 0 || imm >> 32 == 0xFFFF_FFFF }

  lemma RawAdrpWord(hi: bv32, lo: bv32, w: Word)
    requires hi < 0x8_0000 && lo < 4 && w == 0x9000_0009 | (lo << 29) | (hi << 5)
    ensures w & 0x9F00_0000 == 0x9000_0000 && (w & 0x1F) as bv5 == 9
    ensures (w >> 5) & 0x7_FFFF == hi && (w >> 29) & 3 == lo
  {}

  lemma RawHalves(imm: bv64, hi: bv32, lo: bv32)
    requires hi == ((imm >> 14) & 0x7_FFFF) as bv32 && lo == ((imm >> 12) & 3) as bv32
    ensures hi < 0x8_0000 && lo < 4
  {}

  /** The immediate of a word with the given fields. */
  function Immediate(hi: bv32, lo: bv32): bv64 {
    if hi & 0x4_0000 != 0 then ((hi as bv64) << 2) | (lo as bv64) | 0xFFFF_FFFF_FFE0_0000
    else ((hi as bv64) << 2) | (lo as bv64)
  }

  lemma ImmAdrOfFields(w: Word)
    ensures ImmAdr(w) == Immediate((w >> 5) & 0x7_FFFF, (w >> 29) & 3)
  {}

  function Pages(off: bv64): bv64 { off << 12 }

  function IsPageMultiple(imm: bv64): bool { imm & 0xFFF == 0 }

  predicate IsNegative(hi: bv32) { hi & 0x4_0000 != 0 }

  lemma PositiveExact(imm: bv64)
    requires IsPageMultiple(imm) && !IsNegative(ImmHi(imm))
    ensures (Pages(Immediate(ImmHi(imm), ImmLo(imm))) == imm) == FitsAdrp(imm)
  {}

  lemma NegativeExact(imm: bv64)
    requires IsPageMultiple(imm) && IsNegative(ImmHi(imm))
    ensures (Pages(Immediate(ImmHi(imm), ImmLo(imm))) == imm) == FitsAdrp(imm)
  {}

  lemma ImmediateExact(imm: bv64, off: bv64)
    requires IsPageMultiple(imm) && off == Immediate(ImmHi(imm), ImmLo(imm))
    ensures (Pages(off) == imm) == FitsAdrp(imm)
  {
    hide Pages, FitsAdrp, IsPageMultiple, ImmHi, ImmLo, Immediate, IsNegative;
    if IsNegative(ImmHi(imm)) { NegativeExact(imm); } else { PositiveExact(imm); }
  }

  lemma AdrpDecodes(w: Word)
    requires w & 0x9F00_0000 == 0x9000_0000
    ensures Decode(w) == Adrp(Rd(w), Pages(ImmAdr(w)))
  {
    hide ImmAdr, Rd;
  }

  lemma HalvesAreSmall(imm: bv64)
    ensures ImmHi(imm) < 0x8_0000 && ImmLo(imm) < 4
  {
    RawHalves(imm, ImmHi(imm), ImmLo(imm));
  }

  lemma AdrpBitsDecode(hi: bv32, lo: bv32)
    requires hi < 0x8_0000 && lo < 4
    ensures var w := AdrpBits(hi, lo);
      Decode(w) == Adrp(9, Pages(ImmAdr(w))) && ImmAdr(w) == Immediate(hi, lo)
  {
    hide Decode, ImmAdr, Pages, Immediate;
    var w := AdrpBits(hi, lo);
    RawAdrpWord(hi, lo, w);
    AdrpDecodes(w);
    ImmAdrOfFields(w);
  }

  /** The emitted ADRP decodes to the distance it was made for exactly when the distance fits. */
  lemma AdrpOffsetExact(imm: bv64)
    requires IsPageMultiple(imm)
    ensures Decode(AdrpWord(imm)) == Adrp(9, Pages(ImmAdr(AdrpWord(imm))))
    ensures Pages(ImmAdr(AdrpWord(imm))) == imm <==> FitsAdrp(imm)
  {
    hide Decode, AdrpBits, ImmAdr, Immediate, ImmHi, ImmLo, Pages, FitsAdrp, IsPageMultiple;
    HalvesAreSmall(imm);
    AdrpBitsDecode(ImmHi(imm), ImmLo(imm));
    ImmediateExact(imm, ImmAdr(AdrpWord(imm)));
  }

  lemma RawMultiple(a: bv64, b: bv64, c: bv64)
    requires a & 0xFFF == 0 && b & 0xFFF == 0 && c == a - b
    ensures c & 0xFFF == 0
  {}

  lemma MinusMultiple(a: bv64, b: bv64)
    requires IsPageMultiple(a) && IsPageMultiple(b)
    ensures IsPageMultiple(Minus(a, b))
  {
    RawMultiple(a, b, Minus(a, b));
  }

  lemma PageIsMultiple(a: Addr)
    ensures IsPageMultiple(PageOf(a))
  {}

  lemma DistanceIsPageMultiple(src: Addr, dst: Addr)
    ensures IsPageMultiple(PageDistance(src, dst))
  {
    hide IsPageMultiple, PageOf, Minus;
    PageIsMultiple(src);
    PageIsMultiple(dst);
    MinusMultiple(PageOf(dst), PageOf(src));
  }

  /** Decoding the emitted ADRP at `src` with target_addr, and executing it there, gives the page of `dst` exactly
      when the distance of the pages is within 4GB either way. */
  lemma AdrpReachesExactly(cpu: Cpu, src: Addr, dst: Addr, s: State)
    ensures var w := AdrpWord(PageDistance(src, dst));
      && Step(cpu, w, src, s) == (SetX(s, 9, TargetAddr(src, w, ID_ADRP)), None)
      && (TargetAddr(src, w, ID_ADRP) == PageOf(dst) <==> FitsAdrp(PageDistance(src, dst)))
  {
    var distance := PageDistance(src, dst);
    var w := AdrpWord(distance);
    DistanceIsPageMultiple(src, dst);
    AdrpOffsetExact(distance);
    AdrpTarget(src, w);
    hide AdrpWord, Decode, FitsAdrp, TargetAddr, Pages, PageOf, Minus, Plus, SetX, ImmAdr;
    var off := Pages(ImmAdr(w));
    MinusPlus(PageOf(dst), PageOf(src));
    PlusCancels(PageOf(src), off, distance);
  }

  lemma AdrpTarget(src: Addr, w: Word)
    ensures TargetAddr(src, w, ID_ADRP) == PagePlus(src, Pages(ImmAdr(w)))
  {
    ImmAdrMacro(w);
    hide PagePlus, ImmAdr, ImmAdrOffset;
  }

  // ---- reach guaranteed by the allocator ----

  const INT32_MAX: bv64 := 0x7FFF_FFFF

  /** SAFE_JUMP_DISTANCE of src/os_unix.c. */
  predicate SafeJumpDistance(x: Addr, y: Addr, pageSize: bv64) {
    Below(Minus(x, y), SafeLimit(pageSize))
  }

  predicate Below(a: bv64, b: bv64) { a < b }

  /** The page sizes for which the limit does not wrap. */
  predicate IsPageSize(pageSize: bv64) { pageSize <= INT32_MAX }


  lemma RawNearBelow(low: bv64, imm: bv64, d: bv64, limit: bv64)
    requires low < 4096 && limit <= 0x7FFF_FFFF && d == low - imm && d < limit
    ensures imm >> 32 == 0 || imm >> 32 == 0xFFFF_FFFF
  {}

  lemma RawNearAbove(low: bv64, imm: bv64, d: bv64, limit: bv64)
    requires low < 4096 && limit <= 0x7FFF_FFFF && d == imm - low && d < limit
    ensures imm >> 32 == 0 || imm >> 32 == 0xFFFF_FFFF
  {}

  lemma RawSplit(a: bv64)
    ensures (a & 0xFFFF_FFFF_FFFF_F000) + (a & 0xFFF) == a
  {}

  lemma RawLow(a: bv64)
    ensures a & 0xFFF < 4096
  {}

  function Low12(a: Addr): bv64 { a & 0xFFF }

  lemma PageAndLow(a: Addr)
    ensures IsSum(PageOf(a), Low12(a), a)
  {
    RawSplit(a);
  }

  /** The difference of two addresses through the page distance and the offset in the page. */
  lemma RawThroughPages(hi: bv64, low: bv64, page: bv64, func: bv64)
    requires func == hi + low
    ensures Minus(func, page) == Minus(low, Minus(page, hi))
    ensures Minus(page, func) == Minus(Minus(page, hi), low)
  {
    SplitMinus(hi, low, page);
  }

  lemma SplitMinus(hi: bv64, low: bv64, page: bv64)
    ensures Minus(hi + low, page) == Minus(low, Minus(page, hi))
    ensures Minus(page, hi + low) == Minus(Minus(page, hi), low)
  {}

  lemma MinusThroughPages(func: Addr, page: Addr)
    ensures Minus(func, page) == Minus(Low12(func), Minus(page, PageOf(func)))
    ensures Minus(page, func) == Minus(Minus(page, PageOf(func)), Low12(func))
  {
    PageAndLow(func);
    hide PageOf, Low12, Minus;
    RawThroughPages(PageOf(func), Low12(func), page, func);
  }

  lemma PageOfPage(a: Addr)
    requires IsPageMultiple(a)
    ensures PageOf(a) == a
  {}

  lemma LowIsSmall(a: Addr)
    ensures Below(Low12(a), 4096)
  {
    RawLow(a);
  }

  lemma NearBelowFits(low: bv64, imm: bv64, limit: bv64)
    requires Below(low, 4096) && IsLimit(limit) && Below(Minus(low, imm), limit)
    ensures FitsAdrp(imm)
  {
    RawNearBelow(low, imm, Minus(low, imm), limit);
  }

  lemma NearAboveFits(low: bv64, imm: bv64, limit: bv64)
    requires Below(low, 4096) && IsLimit(limit) && Below(Minus(imm, low), limit)
    ensures FitsAdrp(imm)
  {
    RawNearAbove(low, imm, Minus(imm, low), limit);
  }

  function SafeLimit(pageSize: bv64): bv64 { INT32_MAX - pageSize }

  predicate IsLimit(a: bv64) { a <= 0x7FFF_FFFF }

  lemma SafeLimitIsSmall(pageSize: bv64)
    requires IsPageSize(pageSize)
    ensures IsLimit(SafeLimit(pageSize))
  {}

  /** Every page the Unix allocator returns for `func` can be reached from `func` by the emitted ADRP. The transit
      code of an entry is the first thing in its page. */
  lemma NearPageIsReached(cpu: Cpu, func: Addr, page: Addr, pageSize: bv64, s: State)
    requires IsPageMultiple(page) && IsPageSize(pageSize)
    requires SafeJumpDistance(func, page, pageSize) || SafeJumpDistance(page, func, pageSize)
    ensures Step(cpu, AdrpWord(PageDistance(func, page)), func, s) == (SetX(s, 9, page), None)
  {
    hide IsPageMultiple, IsPageSize, IsLimit, Below, AdrpWord, FitsAdrp, PageOf, Minus, Low12, SafeLimit, Step, SetX,
         TargetAddr;
    PageOfPage(page);
    LowIsSmall(func);
    SafeLimitIsSmall(pageSize);
    MinusThroughPages(func, page);
    if SafeJumpDistance(func, page, pageSize) {
      NearBelowFits(Low12(func), PageDistance(func, page), SafeLimit(pageSize));
    } else {
      NearAboveFits(Low12(func), PageDistance(func, page), SafeLimit(pageSize));
    }
    AdrpReachesExactly(cpu, func, page, s);
  }

  // ---- from the patched function to the hook ----

  ghost predicate WordsAt(mem: Memory, a: Addr, words: seq<Word>) {
    forall k :: 0 <= k < |words| ==> Load32(mem, WordAt(a, k)) == words[k]
  }

  /** One step on word `k` of a piece of code. */
  lemma RunAt(cpu: Cpu, a: Addr, words: seq<Word>, k: nat, s: State, insn: Insn)
    requires WordsAt(s.mem, a, words) && k < |words| && k < 14 && Decode(words[k]) == insn
    ensures var (s', taken) := Execute(cpu, insn, WordAt(a, k), s);
      Run(cpu, 1, Config(WordAt(a, k), s)) == Config(if taken.Some? then taken.value else WordAt(a, k + 1), s')
  {
    hide Decode, Execute, Load32, WordAt, Plus;
    NextWord(a, k);
    var (s', taken) := Execute(cpu, insn, WordAt(a, k), s);
    var c := Config(Next(WordAt(a, k), taken), s');
    assert Run(cpu, 0, c) == c;
  }

  lemma TemplateDecodes()
    ensures Decode(BR_X9) == Br(9)
    ensures Decode(0x5800_0049) == LdrLit(LoadX, 9, 8)
    ensures Decode(0x1000_000A) == Adr(10, 0)
    ensures Decode(0x5800_0069) == LdrLit(LoadX, 9, 12)
  {}

  lemma LiteralAt(mem: Memory, a: Addr, words: seq<Word>, k: nat, n: nat, dst: Addr)
    requires WordsAt(mem, a, words) && k + n + 1 < |words| && k + n + 1 <= 14
    requires words[k + n] == Low(dst) && words[k + n + 1] == High(dst)
    ensures Load64(mem, Plus(WordAt(a, k), AsBytes(n))) == dst
  {
    hide WordAt, Low, High, Plus, AsBytes, Load32, Join;
    WordPlus(a, k, n);
    NextWord(a, k + n);
    SplitLiteral(dst);
  }

  lemma ByteConstants()
    ensures AsBytes(2) == 8 && AsBytes(3) == 12
  {}

  lemma WordZero(a: Addr)
    ensures WordAt(a, 0) == a && Plus(a, 0) == a
  {}

  /** The patch: the transit code is reached with only x9 changed. */
  lemma PatchReachesTransit(cpu: Cpu, target: Addr, transit: Addr, pageSize: bv64, s: State)
    requires IsPageMultiple(transit) && IsPageSize(pageSize)
    requires SafeJumpDistance(target, transit, pageSize) || SafeJumpDistance(transit, target, pageSize)
    requires WordsAt(s.mem, target, NewCode(target, transit))
    ensures Run(cpu, 2, Config(target, s)) == Config(transit, SetX(s, 9, transit))
  {
    hide IsPageMultiple, IsPageSize, SafeJumpDistance, AdrpBits, Decode, WordAt, Load32, Run, Plus, ImmAdr, Pages;
    var w := AdrpWord(PageDistance(target, transit));
    NearPageIsReached(cpu, target, transit, pageSize, s);
    WordZero(target);
    assert Execute(cpu, Decode(w), target, s) == (SetX(s, 9, transit), None);
    TemplateDecodes();
    hide Execute;
    RunAt(cpu, target, NewCode(target, transit), 0, s, Decode(w));
    RunBranch(cpu, target, NewCode(target, transit), 1, SetX(s, 9, transit));
    RunCompose(cpu, 1, 1, Config(target, s));
  }

  lemma RunBranch(cpu: Cpu, a: Addr, words: seq<Word>, k: nat, s: State)
    requires WordsAt(s.mem, a, words) && k < |words| && k < 14 && words[k] == BR_X9
    ensures Run(cpu, 1, Config(WordAt(a, k), s)) == Config(s.x(9), s)
  {
    hide Decode, WordAt, Load32, Run, Plus;
    TemplateDecodes();
    RunAt(cpu, a, words, k, s, Br(9));
  }

  /** A literal load into x9 of the doubleword `n` words ahead. */
  lemma RunLiteral(cpu: Cpu, a: Addr, words: seq<Word>, k: nat, n: nat, s: State, dst: Addr)
    requires WordsAt(s.mem, a, words) && k < |words| && k + n + 1 < |words| <= 14
    requires Decode(words[k]) == LdrLit(LoadX, 9, AsBytes(n))
    requires words[k + n] == Low(dst) && words[k + n + 1] == High(dst)
    ensures Run(cpu, 1, Config(WordAt(a, k), s)) == Config(WordAt(a, k + 1), SetX(s, 9, dst))
  {
    hide Decode, WordAt, Load64, Load32, Run, Plus, AsBytes, SetX, Low, High;
    LiteralAt(s.mem, a, words, k, n, dst);
    RunAt(cpu, a, words, k, s, LdrLit(LoadX, 9, AsBytes(n)));
  }

  /** Without a prehook, a call of the patched function arrives at the hook, or at the trampoline when there is no
      hook, with only x9 changed. */
  lemma PatchedCallReachesHook(cpu: Cpu, e: Entry<Addr>, transit: Addr, pageSize: bv64, s: State)
    requires IsPageMultiple(transit) && IsPageSize(pageSize)
    requires SafeJumpDistance(e.target, transit, pageSize) || SafeJumpDistance(transit, e.target, pageSize)
    requires WordsAt(s.mem, e.target, NewCode(e.target, transit))
    requires WordsAt(s.mem, transit, AbsoluteJump(Destination(e)))
    ensures var c := Run(cpu, 4, Config(e.target, s));
      c.pc == Destination(e) && c.s.x(9) == c.pc && Agree(s, c.s, {9})
  {
    hide IsPageMultiple, IsPageSize, SafeJumpDistance, AdrpBits, Decode, WordAt, Load32, Run, Plus, ImmAdr, Pages,
         Low, High, NewCode;
    var dst := Destination(e);
    var words := AbsoluteJump(dst);
    PatchReachesTransit(cpu, e.target, transit, pageSize, s);
    WordZero(transit);
    TemplateDecodes();
    ByteConstants();
    var s1 := SetX(s, 9, transit);
    RunLiteral(cpu, transit, words, 0, 2, s1, dst);
    RunBranch(cpu, transit, words, 1, SetX(s1, 9, dst));
    RunCompose(cpu, 1, 1, Config(transit, s1));
    RunCompose(cpu, 2, 2, Config(e.target, s));
  }

  lemma TransitReachesStub(cpu: Cpu, transit: Addr, caller: Addr, s: State)
    requires WordsAt(s.mem, transit, PrehookTransit(caller))
    ensures Run(cpu, 3, Config(transit, s)) == Config(caller, SetX(SetX(s, 10, transit), 9, caller))
  {
    hide Decode, WordAt, Load32, Run, Plus, Low, High;
    var words := PrehookTransit(caller);
    WordZero(transit);
    TemplateDecodes();
    ByteConstants();
    var s2 := SetX(s, 10, transit);
    RunAt(cpu, transit, words, 0, s, Adr(10, 0));
    RunLiteral(cpu, transit, words, 1, 3, s2, caller);
    RunBranch(cpu, transit, words, 2, SetX(s2, 9, caller));
    hide SetX, WordsAt;
    RunCompose(cpu, 1, 1, Config(WordAt(transit, 1), s2));
    RunCompose(cpu, 1, 2, Config(transit, s));
  }

  /** With a prehook, it arrives at the caller stub with the transit address in x10 and only x9 and x10 changed. */
  lemma PatchedCallReachesStub(cpu: Cpu, e: Entry<Addr>, transit: Addr, caller: Addr, pageSize: bv64, s: State)
    requires IsPageMultiple(transit) && IsPageSize(pageSize)
    requires SafeJumpDistance(e.target, transit, pageSize) || SafeJumpDistance(transit, e.target, pageSize)
    requires WordsAt(s.mem, e.target, NewCode(e.target, transit))
    requires WordsAt(s.mem, transit, PrehookTransit(caller))
    ensures var c := Run(cpu, 5, Config(e.target, s));
      c.pc == caller && c.s.x(10) == transit && Agree(s, c.s, {9, 10})
  {
    hide IsPageMultiple, IsPageSize, SafeJumpDistance, Run, NewCode, PrehookTransit, Load32, WordAt;
    PatchReachesTransit(cpu, e.target, transit, pageSize, s);
    TransitReachesStub(cpu, transit, caller, SetX(s, 9, transit));
    RunCompose(cpu, 2, 3, Config(e.target, s));
  }

  // ---- from the caller stub to the prehook's choice ----

  /** A page holds one entry, at its beginning, with the transit code first. */
  datatype HookPage = HookPage(base: Addr, entry: Entry<Addr>)

  ghost predicate DistinctPages(pages: seq<HookPage>) {
    forall p, q :: 0 <= p < q < |pages| ==> pages[p].base != pages[q].base
  }

  /** The entry at an address, as funchook_hook_caller reads it. */
  function EntryAt(pages: seq<HookPage>, a: Addr): Option<Entry<Addr>> {
    if pages == [] then None
    else if pages[0].base == a then Some(pages[0].entry)
    else EntryAt(pages[1..], a)
  }

  lemma {:induction false} EntryIsRecovered(pages: seq<HookPage>, p: nat)
    requires DistinctPages(pages) && p < |pages|
    ensures EntryAt(pages, pages[p].base) == Some(pages[p].entry)
  {
    if p > 0 {
      assert pages[1..][p - 1] == pages[p];
      EntryIsRecovered(pages[1..], p - 1);
    }
  }

  /** The stub as one step: it passes x10 to funchook_hook_caller, restores the registers and jumps to the result. */
  function StubStep(pages: seq<HookPage>, prehook: Prehook<Addr>, c: Config): Option<Config> {
    var e := EntryAt(pages, c.s.x(10));
    if e.None? then None else Some(Config(Call(e.value, prehook), c.s))
  }

  /** With a prehook, the call arrives at the stub, which recovers the entry of the page it came through among those
      of the handle, gives the prehook its fields, and goes on at the prehook's choice, or at the trampoline of this
      entry. */
  lemma PatchedCallReachesChoice(cpu: Cpu, pages: seq<HookPage>, p: nat, caller: Addr, pageSize: bv64,
                                 prehook: Prehook<Addr>, s: State)
    requires DistinctPages(pages) && p < |pages| && pages[p].entry.hasPrehook
    requires IsPageMultiple(pages[p].base) && IsPageSize(pageSize)
    requires var target, transit := pages[p].entry.target, pages[p].base;
      && (SafeJumpDistance(target, transit, pageSize) || SafeJumpDistance(transit, target, pageSize))
      && WordsAt(s.mem, target, NewCode(target, transit))
      && WordsAt(s.mem, transit, PrehookTransit(caller))
    ensures var e := pages[p].entry;
      var choice := prehook(HookCaller.Info(e.originalTarget, e.target, e.trampoline, e.hook, e.userData,
        e.flags)).hook;
      var stub := Run(cpu, 5, Config(e.target, s));
      var there := StubStep(pages, prehook, stub);
      && stub.pc == caller && there.Some? && Agree(s, there.value.s, {9, 10})
      && there.value.pc == if choice.Some? then choice.value else e.trampoline
  {
    hide IsPageMultiple, IsPageSize, SafeJumpDistance, Run, NewCode, WordsAt, PrehookTransit;
    PatchedCallReachesStub(cpu, pages[p].entry, pages[p].base, caller, pageSize, s);
    EntryIsRecovered(pages, p);
  }
}
