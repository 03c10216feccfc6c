/** The scan for branches back into the patch, which looks at the first word behind it again and again: exactly when
    a success of the translator excludes every such branch, and when it refuses a function without one. */
module Arm64BackJumps {
  import opened Common
  import opened A64Machine
  import opened A64Sums
  import opened Arm64Translator
  import opened Arm64Plans
  import opened Arm64Blocks
  import opened Arm64Limits

  // ---- the words behind the prefix ----

  /** The index of a word as a machine word. */
  function Index(j: nat): bv32 { if j == 0 then 0 else Sum(Index(j - 1), 1) }

  function Sum(a: bv32, b: bv32): bv32 { a + b }

  function Offset(j: nat): bv64 { (Index(j) as bv64) << 2 }

  /** The address of word `j`. */
  function WordOf(func: Addr, j: nat): Addr { Plus(func, Offset(j)) }

  lemma SumAssociates(a: bv32, b: bv32, c: bv32)
    ensures Sum(a, Sum(b, c)) == Sum(Sum(a, b), c) && Sum(a, 0) == a
  {}

  lemma {:induction false} IndexOfSum(i: nat, j: nat)
    ensures Index(i + j) == Sum(Index(i), Index(j))
    decreases j
  {
    hide Sum;
    SumAssociates(Index(i), 0, 0);
    if j > 0 {
      IndexOfSum(i, j - 1);
      assert Index(i + j) == Sum(Index(i + (j - 1)), 1);
      SumAssociates(Index(i), Index(j - 1), 1);
    }
  }

  lemma FirstIndices()
    ensures Index(0) == 0 && Index(1) == 1 && Index(2) == 2 && Index(3) == 3 && Index(4) == 4
    ensures Index(5) == 5 && Index(6) == 6 && Index(7) == 7 && Index(8) == 8
  {
    assert Index(1) == 1 && Index(2) == 2;
    assert Index(3) == 3 && Index(4) == 4;
    assert Index(5) == 5 && Index(6) == 6;
    assert Index(7) == 7 && Index(8) == 8;
  }

  lemma Eights()
    ensures Index(0) == 0 && Index(8) == 8 && Index(16) == 16 && Index(24) == 24 && Index(32) == 32 && Index(40) == 40
    ensures Index(48) == 48 && Index(56) == 56
  {
    FirstIndices();
    IndexOfSum(8, 8);
    IndexOfSum(16, 8);
    IndexOfSum(24, 8);
    IndexOfSum(32, 8);
    IndexOfSum(40, 8);
    IndexOfSum(48, 8);
  }

  predicate IsSmallIndex(i: bv32) { i & 0x3F == i }

  predicate IsEight(i: bv32) { i & 0x38 == i }

  predicate IsUnit(i: bv32) { i & 7 == i }

  lemma SmallSum(a: bv32, b: bv32)
    requires IsEight(a) && IsUnit(b)
    ensures IsSmallIndex(Sum(a, b))
  {}

  lemma EightIsEight(k: nat)
    requires k < 8
    ensures IsEight(Index(8 * k))
  {
    Eights();
    hide Index;
    assert k == 0 || k == 1 || k == 2 || k == 3 || k == 4 || k == 5 || k == 6 || k == 7;
  }

  lemma UnitIsUnit(k: nat)
    requires k < 8
    ensures IsUnit(Index(k))
  {
    FirstIndices();
    hide Index;
    assert k == 0 || k == 1 || k == 2 || k == 3 || k == 4 || k == 5 || k == 6 || k == 7;
  }

  lemma IndexIsSmall(j: nat)
    requires j < 64
    ensures IsSmallIndex(Index(j))
  {
    hide Index, IsEight, IsUnit, IsSmallIndex, Sum;
    EightIsEight(j / 8);
    UnitIsUnit(j % 8);
    IndexOfSum(8 * (j / 8), j % 8);
    SmallSum(Index(8 * (j / 8)), Index(j % 8));
  }

  // ---- words of every class ----

  /** A word of each class that points far away, whatever class it is read as, and takes no part in a branch. */
  function Innocent(id: InsnId): Word {
    match id
    case ID_ADR => 0x1040_0000
    case ID_ADRP => 0x9040_0000
    case ID_B => 0x1440_0000
    case ID_BL => 0x9440_0000
    case ID_BCOND => 0x5440_0000
    case ID_CBZ => 0x3440_0000
    case ID_CBNZ => 0x3540_0000
    case ID_TBZ => 0x3640_0000
    case ID_TBNZ => 0x3740_0000
    case ID_LDR => 0x5840_0000
    case ID_LDRSW => 0x9840_0000
    case ID_PRFM => 0xD840_0000
    case ID_OTHER => 0x8B40_0000
  }

  /** A word of each branch class that goes from word `i` to word `k` of the function. */
  function Back(id: InsnId, i: bv32, k: bv32): Word {
    match id
    case ID_B => 0x1400_0000 | ((k - i) & 0x03FF_FFFF)
    case ID_BL => 0x9400_0000 | ((k - i) & 0x03FF_FFFF)
    case ID_BCOND => 0x5400_0000 | (((k - i) & 0x7_FFFF) << 5)
    case ID_CBZ => 0x3400_0000 | (((k - i) & 0x7_FFFF) << 5)
    case ID_CBNZ => 0x3500_0000 | (((k - i) & 0x7_FFFF) << 5)
    case ID_TBZ => 0x3600_0000 | (((k - i) & 0x3FFF) << 5)
    case _ => 0x3700_0000 | (((k - i) & 0x3FFF) << 5)
  }

  lemma InnocentIsFaithful(id: InsnId)
    ensures FaithfulId(Innocent(id), id)
  {
    hide Imm26, Imm19, Imm14, ImmAdr, TbBit, Rd, Rn;
  }

  /** The offsets of these words, read as each class; and those of ADRP, from the beginning of the page. */
  predicate Far(off: bv64) {
    || off == 0 || off == 0x8_0000 || off == 0x8_0001 || off == 0x8_0002 || off == 0x8_0003
    || off == 0x100_0000 || off == 0x500_0000 || off == 0xFFFF_FFFF_F900_0000 || off == 0xFFFF_FFFF_FD00_0000
  }

  predicate FarPages(off: bv64) {
    off == 0x8000_0000 || off == 0x8000_1000 || off == 0x8000_2000 || off == 0x8000_3000
  }

  lemma Away0(func: Addr)
    ensures !InsidePatch(func, Plus(At(func, 2), 0))
  {}

  lemma Away1(func: Addr)
    ensures !InsidePatch(func, Plus(At(func, 2), 0x8_0000))
  {}

  lemma Away2(func: Addr)
    ensures !InsidePatch(func, Plus(At(func, 2), 0x8_0001))
  {}

  lemma Away3(func: Addr)
    ensures !InsidePatch(func, Plus(At(func, 2), 0x8_0002))
  {}

  lemma Away4(func: Addr)
    ensures !InsidePatch(func, Plus(At(func, 2), 0x8_0003))
  {}

  lemma Away5(func: Addr)
    ensures !InsidePatch(func, Plus(At(func, 2), 0x100_0000))
  {}

  lemma Away6(func: Addr)
    ensures !InsidePatch(func, Plus(At(func, 2), 0x500_0000))
  {}

  lemma Away7(func: Addr)
    ensures !InsidePatch(func, Plus(At(func, 2), 0xFFFF_FFFF_F900_0000))
  {}

  lemma Away8(func: Addr)
    ensures !InsidePatch(func, Plus(At(func, 2), 0xFFFF_FFFF_FD00_0000))
  {}

  lemma AwayPage0(func: Addr)
    ensures !InsidePatch(func, PagePlus(At(func, 2), 0x8000_0000))
  {}

  lemma AwayPage1(func: Addr)
    ensures !InsidePatch(func, PagePlus(At(func, 2), 0x8000_1000))
  {}

  lemma AwayPage2(func: Addr)
    ensures !InsidePatch(func, PagePlus(At(func, 2), 0x8000_2000))
  {}

  lemma AwayPage3(func: Addr)
    ensures !InsidePatch(func, PagePlus(At(func, 2), 0x8000_3000))
  {}

  lemma FarIsAway(func: Addr, off: bv64)
    requires Far(off)
    ensures !InsidePatch(func, Plus(At(func, 2), off))
  {
    hide InsidePatch, Plus, At;
    Away0(func);
    Away1(func);
    Away2(func);
    Away3(func);
    Away4(func);
    Away5(func);
    Away6(func);
    Away7(func);
    Away8(func);
  }

  lemma FarPagesAreAway(func: Addr, off: bv64)
    requires FarPages(off)
    ensures !InsidePatch(func, PagePlus(At(func, 2), off))
  {
    hide InsidePatch, PagePlus, At;
    AwayPage0(func);
    AwayPage1(func);
    AwayPage2(func);
    AwayPage3(func);
  }

  lemma NullIsAway(func: Addr)
    ensures !InsidePatch(func, 0)
  {}

  lemma InnocentIsFar(id: InsnId)
    ensures Far(Imm26Offset(Innocent(id))) && Far(Imm19Offset(Innocent(id))) && Far(Imm14Offset(Innocent(id)))
    ensures Far(ImmAdrOffset(Innocent(id))) && FarPages(ImmAdrOffset(Innocent(id)) << 12)
  {}

  /** Read as any class behind the patch, an innocent word does not point into it. */
  lemma InnocentPointsAway(func: Addr, id: InsnId, other: InsnId)
    ensures !InsidePatch(func, TargetAddr(At(func, 2), Innocent(id), other))
  {
    InnocentIsFar(id);
    hide Innocent, Imm26Offset, Imm19Offset, Imm14Offset, ImmAdrOffset, Far, FarPages, InsidePatch, Plus, PagePlus,
         At;
    var w := Innocent(id);
    FarIsAway(func, Imm26Offset(w));
    FarIsAway(func, Imm19Offset(w));
    FarIsAway(func, Imm14Offset(w));
    FarIsAway(func, ImmAdrOffset(w));
    FarPagesAreAway(func, ImmAdrOffset(w) << 12);
    NullIsAway(func);
  }

  // ---- words that go back ----

  /** The distance from word `i` to word `k`, the second or the third one. */
  function BackOffset(i: bv32, k: bv32): bv64 { Minus((k as bv64) << 2, (i as bv64) << 2) }

  predicate SecondOrThird(k: bv32) { k == 1 || k == 2 }

  lemma Back26(i: bv32, k: bv32)
    requires IsSmallIndex(i) && SecondOrThird(k)
    ensures Imm26(Back(ID_B, i, k)) == BackOffset(i, k) && Imm26(Back(ID_BL, i, k)) == BackOffset(i, k)
  {}

  lemma Back19(i: bv32, k: bv32)
    requires IsSmallIndex(i) && SecondOrThird(k)
    ensures Imm19(Back(ID_BCOND, i, k)) == BackOffset(i, k)
    ensures Imm19(Back(ID_CBZ, i, k)) == BackOffset(i, k) && Imm19(Back(ID_CBNZ, i, k)) == BackOffset(i, k)
  {}

  lemma SecondBy14(i: bv32)
    requires IsSmallIndex(i)
    ensures Imm14(Back(ID_TBZ, i, 1)) == BackOffset(i, 1) && Imm14(Back(ID_TBNZ, i, 1)) == BackOffset(i, 1)
  {}

  lemma ThirdBy14(i: bv32)
    requires IsSmallIndex(i)
    ensures Imm14(Back(ID_TBZ, i, 2)) == BackOffset(i, 2) && Imm14(Back(ID_TBNZ, i, 2)) == BackOffset(i, 2)
  {}

  lemma Back14(i: bv32, k: bv32)
    requires IsSmallIndex(i) && SecondOrThird(k)
    ensures Imm14(Back(ID_TBZ, i, k)) == BackOffset(i, k) && Imm14(Back(ID_TBNZ, i, k)) == BackOffset(i, k)
  {
    hide Imm14, Back, BackOffset, IsSmallIndex;
    SecondBy14(i);
    ThirdBy14(i);
  }

  lemma BackDecodes26(i: bv32, k: bv32)
    ensures var b, l := Back(ID_B, i, k), Back(ID_BL, i, k);
      Decode(b) == B(Imm26(b)) && Decode(l) == Bl(Imm26(l))
  {
    hide Imm26, Imm19, Imm14, ImmAdr, LiteralAccess, BaseAccess, TbBit, Rd, Rn;
  }

  lemma BackDecodes19(i: bv32, k: bv32)
    ensures var c, z, n := Back(ID_BCOND, i, k), Back(ID_CBZ, i, k), Back(ID_CBNZ, i, k);
      && Decode(c) == BCond(0, Imm19(c)) && Decode(z) == Cb(false, false, Rd(z), Imm19(z))
      && Decode(n) == Cb(false, true, Rd(n), Imm19(n))
  {
    hide Imm26, Imm19, Imm14, ImmAdr, LiteralAccess, BaseAccess, TbBit, Rd, Rn;
  }

  lemma BackDecodes14(i: bv32, k: bv32)
    ensures var z, n := Back(ID_TBZ, i, k), Back(ID_TBNZ, i, k);
      Decode(z) == Tb(false, TbBit(z), Rd(z), Imm14(z)) && Decode(n) == Tb(true, TbBit(n), Rd(n), Imm14(n))
  {
    hide Imm26, Imm19, Imm14, ImmAdr, LiteralAccess, BaseAccess, TbBit, Rd, Rn;
  }

  /** A word of this class that branches by this distance. */
  predicate IsBranch(w: Word, id: InsnId, off: bv64) { FaithfulId(w, id) && BranchOffset(w) == Some(off) }

  lemma BackIsBranch26(i: bv32, k: bv32)
    requires IsSmallIndex(i) && SecondOrThird(k)
    ensures IsBranch(Back(ID_B, i, k), ID_B, BackOffset(i, k))
    ensures IsBranch(Back(ID_BL, i, k), ID_BL, BackOffset(i, k))
  {
    hide Decode, Imm26, Back, BackOffset;
    BackDecodes26(i, k);
    Back26(i, k);
  }

  lemma BackIsBranch19(i: bv32, k: bv32)
    requires IsSmallIndex(i) && SecondOrThird(k)
    ensures IsBranch(Back(ID_BCOND, i, k), ID_BCOND, BackOffset(i, k))
    ensures IsBranch(Back(ID_CBZ, i, k), ID_CBZ, BackOffset(i, k))
    ensures IsBranch(Back(ID_CBNZ, i, k), ID_CBNZ, BackOffset(i, k))
  {
    hide Decode, Imm19, Rd, Back, BackOffset;
    BackDecodes19(i, k);
    Back19(i, k);
  }

  lemma BackIsBranch14(i: bv32, k: bv32)
    requires IsSmallIndex(i) && SecondOrThird(k)
    ensures IsBranch(Back(ID_TBZ, i, k), ID_TBZ, BackOffset(i, k))
    ensures IsBranch(Back(ID_TBNZ, i, k), ID_TBNZ, BackOffset(i, k))
  {
    hide Decode, Imm14, Rd, TbBit, Back, BackOffset;
    BackDecodes14(i, k);
    Back14(i, k);
  }

  lemma BackIsBranch(id: InsnId, j: nat, k: bv32)
    requires id in BRANCHES && j < 64 && SecondOrThird(k)
    ensures IsBranch(Back(id, Index(j), k), id, BackOffset(Index(j), k))
  {
    hide IsBranch, IsSmallIndex, Index, BackOffset, Back, SecondOrThird;
    IndexIsSmall(j);
    BackIsBranch26(Index(j), k);
    BackIsBranch19(Index(j), k);
    BackIsBranch14(Index(j), k);
  }

  lemma BackTarget(func: Addr, j: nat, k: bv32)
    ensures Plus(WordOf(func, j), BackOffset(Index(j), k)) == Plus(func, (k as bv64) << 2)
  {
    hide Plus, Minus, Index;
    PlusMinus(func, Offset(j), (k as bv64) << 2);
  }

  lemma SecondIsInside(func: Addr)
    requires func <= 0xFFFF_FFFF_FFFF_FF00
    ensures InsidePatch(func, Plus(func, 4))
  {}

  /** Such a word is of its class and branches into the patch. */
  lemma BackBranches(func: Addr, id: InsnId, j: nat)
    requires id in BRANCHES && j < 64 && func <= 0xFFFF_FFFF_FFFF_FF00
    ensures FaithfulId(Back(id, Index(j), 1), id) && BranchesTo(func, Back(id, Index(j), 1), WordOf(func, j))
  {
    hide FaithfulId, BranchOffset, InsidePatch, Plus, Index, WordOf, BackOffset, Back;
    BackIsBranch(id, j, 1);
    BackTarget(func, j, 1);
    SecondIsInside(func);
    assert IsBranch(Back(id, Index(j), 1), id, BackOffset(Index(j), 1));
  }

  // ---- the scan ----

  /** Every report gives the class of its word. */
  ghost predicate FaithfulWords(code: seq<Word>, infos: seq<Info>) {
    forall j :: 0 <= j < |code| && j < |infos| ==> FaithfulId(code[j], infos[j].id)
  }

  /** One of the `n` words goes from behind the prefix into the patch. */
  ghost predicate BranchesBack(func: Addr, code: seq<Word>, n: nat)
    requires n <= |code|
  {
    exists j :: REL4G_JUMP_SIZE <= j < n && BranchesTo(func, code[j], WordOf(func, j))
  }

  /** What a caller can look at: a class behind the first word that is not overwritten is a branch. */
  ghost predicate HasLateBranch(infos: seq<Info>) {
    exists b :: REL4G_JUMP_SIZE < b < |infos| && infos[b].id in BRANCHES
  }

  lemma ThirdWord(func: Addr)
    ensures WordOf(func, 2) == At(func, 2)
  {
    FirstIndices();
    hide Index;
  }

  /** Without such a class a success excludes every branch into the patch. */
  lemma SuccessExcludesBranches(func: Addr, code: seq<Word>, infos: seq<Info>)
    requires |code| == MAX_INSN_CHECK_SIZE && |infos| <= |code| && FaithfulWords(code, infos)
    requires Translate(func, code, infos).Ok? && !HasLateBranch(infos)
    ensures !BranchesBack(func, code, |infos|)
  {
    hide FaithfulId, BranchesTo, EmitPrefix, EmitReturn, WordOf, At, FindsBackJump;
    if BranchesBack(func, code, |infos|) {
      var j :| REL4G_JUMP_SIZE <= j < |infos| && BranchesTo(func, code[j], WordOf(func, j));
      ClassOfBranch(func, code[j], infos[j].id, WordOf(func, j));
      var n := PrefixLength(code);
      ThirdWord(func);
      FirstBackJumpIsFound(func, code, infos[n..], 2 - n);
    }
  }

  lemma ClassOfBranch(func: Addr, w: Word, id: InsnId, src: Addr)
    requires FaithfulId(w, id) && BranchesTo(func, w, src)
    ensures id in BRANCHES
  {
    hide FaithfulId, BranchOffset, TargetAddr, InsidePatch, Plus;
    TargetOfBranch(src, w, id);
  }

  /** The 64 words the disassembler looks at: this prefix, and behind it words of these classes. */
  ghost predicate Completes(code: seq<Word>, prefix: seq<Word>, infos: seq<Info>) {
    |code| == MAX_INSN_CHECK_SIZE && prefix <= code && FaithfulWords(code, infos)
  }

  /** Innocent words, but for word `b`, which goes back. */
  function WordsWith(prefix: seq<Word>, infos: seq<Info>, b: nat): seq<Word>
    requires |prefix| == REL4G_JUMP_SIZE < b < |infos| <= MAX_INSN_CHECK_SIZE
  {
    seq(MAX_INSN_CHECK_SIZE, j requires 0 <= j =>
      if j < REL4G_JUMP_SIZE then prefix[j]
      else if j == b then Back(infos[b].id, Index(b), 1)
      else if j < |infos| then Innocent(infos[j].id)
      else 0)
  }

  lemma WordsWithComplete(func: Addr, prefix: seq<Word>, infos: seq<Info>, b: nat)
    requires |prefix| == REL4G_JUMP_SIZE < b < |infos| <= MAX_INSN_CHECK_SIZE && FaithfulWords(prefix, infos)
    requires infos[b].id in BRANCHES && func <= 0xFFFF_FFFF_FFFF_FF00
    ensures Completes(WordsWith(prefix, infos, b), prefix, infos)
    ensures BranchesBack(func, WordsWith(prefix, infos, b), |infos|)
  {
    hide FaithfulId, BranchesTo, WordOf, Index, Back, Innocent;
    var code := WordsWith(prefix, infos, b);
    BackBranches(func, infos[b].id, b);
    forall j | 0 <= j < |infos|
      ensures FaithfulId(code[j], infos[j].id)
    {
      if j >= REL4G_JUMP_SIZE && j != b { InnocentIsFaithful(infos[j].id); }
    }
    assert BranchesTo(func, code[b], WordOf(func, b));
  }

  lemma WordsWithAreNotFound(func: Addr, prefix: seq<Word>, infos: seq<Info>, b: nat, rest: seq<Info>)
    requires |prefix| == REL4G_JUMP_SIZE < b < |infos| <= MAX_INSN_CHECK_SIZE
    ensures !FindsBackJump(func, WordsWith(prefix, infos, b), rest)
  {
    hide InsidePatch, TargetAddr, At, Index, Back, Innocent;
    forall k | 0 <= k < |rest|
      ensures !InsidePatch(func, TargetAddr(At(func, 2), WordsWith(prefix, infos, b)[2], rest[k].id))
    {
      InnocentPointsAway(func, infos[2].id, rest[k].id);
    }
  }

  /** With such a class there are words of the reported classes that are accepted and branch into the patch. */
  lemma LateBranchIsMissed(func: Addr, prefix: seq<Word>, infos: seq<Info>) returns (code: seq<Word>)
    requires |prefix| == REL4G_JUMP_SIZE && |infos| <= MAX_INSN_CHECK_SIZE && FaithfulWords(prefix, infos)
    requires AcceptsPrefix(func, prefix, infos) && func <= 0xFFFF_FFFF_FFFF_FF00
    requires HasLateBranch(infos)
    ensures Completes(code, prefix, infos) && Translate(func, code, infos).Ok?
    ensures BranchesBack(func, code, |infos|)
  {
    hide AcceptsPrefix, FaithfulWords, BranchesBack, Translate, FindsBackJump, WordsWith;
    var b :| REL4G_JUMP_SIZE < b < |infos| && infos[b].id in BRANCHES;
    code := WordsWith(prefix, infos, b);
    WordsWithComplete(func, prefix, infos, b);
    WordsWithAreNotFound(func, prefix, infos, b, infos[PrefixLength(code)..]);
    AcceptedUnlessFound(func, code, prefix, infos);
  }

  /** For an accepted prefix and a list of classes: a success excludes every branch into the patch, whatever the
      words behind the prefix are, exactly when no class from the fourth word on is a branch. The function, of 64
      words, is not at the very end of the address space. */
  lemma BackJumpsExcludedExactly(func: Addr, prefix: seq<Word>, infos: seq<Info>)
    requires |prefix| == REL4G_JUMP_SIZE && |infos| <= MAX_INSN_CHECK_SIZE && FaithfulWords(prefix, infos)
    requires AcceptsPrefix(func, prefix, infos) && func <= 0xFFFF_FFFF_FFFF_FF00
    ensures !HasLateBranch(infos) <==>
      forall code :: Completes(code, prefix, infos) && Translate(func, code, infos).Ok?
        ==> !BranchesBack(func, code, |infos|)
  {
    hide AcceptsPrefix, FaithfulWords, BranchesBack, Translate, HasLateBranch;
    if HasLateBranch(infos) {
      var code := LateBranchIsMissed(func, prefix, infos);
    } else {
      forall code | Completes(code, prefix, infos) && Translate(func, code, infos).Ok?
        ensures !BranchesBack(func, code, |infos|)
      {
        SuccessExcludesBranches(func, code, infos);
      }
    }
  }

  // ---- false alarms ----

  lemma BeforeThird(func: Addr)
    requires func <= 0xFFFF_FFFF_FFFF_FF00
    ensures InsidePatch(func, TargetAddr(At(func, 2), 0x10FF_FFE0, ID_ADR))
  {}

  lemma ClassOfAdr(id: InsnId)
    requires FaithfulId(0x10FF_FFE0, id)
    ensures id == ID_ADR
  {}

  /** A word of each class that does not branch into the patch: a branch goes to the third word. */
  function Harmless(id: InsnId, j: nat): Word { if id in BRANCHES then Back(id, Index(j), 2) else Innocent(id) }

  lemma ThirdIsOutside(func: Addr)
    ensures !InsidePatch(func, Plus(func, 8))
  {}

  lemma HarmlessDoesNotBranch(func: Addr, id: InsnId, j: nat)
    requires j < 64
    ensures FaithfulId(Harmless(id, j), id) && !BranchesTo(func, Harmless(id, j), WordOf(func, j))
  {
    hide FaithfulId, BranchOffset, InsidePatch, Plus, Index, BackOffset, Back, Innocent, WordOf;
    if id in BRANCHES {
      BackIsBranch(id, j, 2);
      BackTarget(func, j, 2);
      ThirdIsOutside(func);
      assert IsBranch(Harmless(id, j), id, BackOffset(Index(j), 2));
    } else {
      InnocentIsFaithful(id);
      if BranchOffset(Innocent(id)).Some? { TargetOfBranch(func, Innocent(id), id); }
    }
  }

  /** The three words, and behind them words of the reported classes that stay away from the patch. */
  function HarmlessWords(head: seq<Word>, infos: seq<Info>): seq<Word>
    requires |head| == 3
  {
    seq(MAX_INSN_CHECK_SIZE, j requires 0 <= j =>
      if j < 3 then head[j] else if j < |infos| then Harmless(infos[j].id, j) else 0)
  }

  lemma HarmlessWordsComplete(func: Addr, head: seq<Word>, infos: seq<Info>)
    requires |head| == 3 && 3 <= |infos| <= MAX_INSN_CHECK_SIZE && FaithfulWords(head, infos)
    requires func <= 0xFFFF_FFFF_FFFF_FF00 && !BranchesTo(func, head[2], WordOf(func, 2))
    ensures Completes(HarmlessWords(head, infos), head, infos)
    ensures !BranchesBack(func, HarmlessWords(head, infos), |infos|)
  {
    hide FaithfulId, BranchesTo, WordOf, Harmless;
    var code := HarmlessWords(head, infos);
    forall j | 0 <= j < |infos|
      ensures FaithfulId(code[j], infos[j].id) && (j >= 2 ==> !BranchesTo(func, code[j], WordOf(func, j)))
    {
      if j >= 3 { HarmlessDoesNotBranch(func, infos[j].id, j); }
    }
  }

  /** The scan finds a branch back, and the one word it looks at is none. */
  predicate IsFalseAlarm(func: Addr, head: seq<Word>, infos: seq<Info>)
    requires |head| == 3 && 3 <= |infos|
  {
    FindsBackJump(func, head, infos[PrefixLength(head)..]) && !BranchesTo(func, head[2], WordOf(func, 2))
  }

  /** For an accepted prefix, the word behind it and a list of classes: a refusal means that there is a branch into
      the patch, whatever the words from the fourth one on are, exactly when this is no false alarm. */
  lemma RefusalsJustifiedExactly(func: Addr, head: seq<Word>, infos: seq<Info>)
    requires |head| == 3 && 3 <= |infos| <= MAX_INSN_CHECK_SIZE && FaithfulWords(head, infos)
    requires AcceptsPrefix(func, head[..2], infos) && func <= 0xFFFF_FFFF_FFFF_FF00
    ensures !IsFalseAlarm(func, head, infos) <==>
      forall code :: Completes(code, head, infos) && Translate(func, code, infos) == Err(FOUND_BACK_JUMP)
        ==> BranchesBack(func, code, |infos|)
  {
    hide AcceptsPrefix, FaithfulWords, BranchesTo, Translate, FindsBackJump, WordOf, HarmlessWords;
    if IsFalseAlarm(func, head, infos) {
      var code := HarmlessWords(head, infos);
      HarmlessWordsComplete(func, head, infos);
      SameHead(func, code, head, infos);
      RefusedIfFound(func, code, infos);
    } else {
      forall code | Completes(code, head, infos) && Translate(func, code, infos) == Err(FOUND_BACK_JUMP)
        ensures BranchesBack(func, code, |infos|)
      {
        SameHead(func, code, head, infos);
        if !FindsBackJump(func, code, infos[PrefixLength(code)..]) {
          AcceptedUnlessFound(func, code, head[..2], infos);
        }
        assert BranchesTo(func, code[2], WordOf(func, 2));
      }
    }
  }

  lemma SameLength(code: seq<Word>, head: seq<Word>)
    requires |code| >= 2 && |head| >= 2 && code[0] == head[0] && code[1] == head[1]
    ensures PrefixLength(code) == PrefixLength(head)
  {}

  lemma SameHead(func: Addr, code: seq<Word>, head: seq<Word>, infos: seq<Info>)
    requires |head| == 3 <= |infos| && head <= code
    ensures PrefixLength(code) == PrefixLength(head) && code[2] == head[2]
    ensures code[..2] == head[..2] && head[..2] <= code
    ensures FindsBackJump(func, code, infos[PrefixLength(code)..])
      <==> FindsBackJump(func, head, infos[PrefixLength(head)..])
  {
    hide InsidePatch, TargetAddr, At, PrefixLength;
    assert code[0] == head[0] && code[1] == head[1] && code[2] == head[2];
    SameLength(code, head);
  }

  /** Any reference to the patch is taken for a branch: a function is refused whose third word is ADR of the
      address just before it, whatever the others are. */
  lemma ReferenceIsRefused(func: Addr, code: seq<Word>, infos: seq<Info>)
    requires |code| == MAX_INSN_CHECK_SIZE && |infos| > 2 && FaithfulWords(code, infos)
    requires AcceptsPrefix(func, code[..2], infos) && func <= 0xFFFF_FFFF_FFFF_FF00
    requires code[2] == 0x10FF_FFE0
    ensures Translate(func, code, infos) == Err(FOUND_BACK_JUMP)
  {
    hide AcceptsPrefix, Translate, FaithfulId, InsidePatch, TargetAddr, At;
    var n := PrefixLength(code);
    ClassOfAdr(infos[2].id);
    BeforeThird(func);
    assert infos[n..][2 - n].id == ID_ADR;
    assert FindsBackJump(func, code, infos[n..]);
    RefusedIfFound(func, code, infos);
  }

  /** Among them are functions without any branch, here NOPs with a report for each of the 64 words. */
  lemma RefusedWithoutBranch(func: Addr) returns (code: seq<Word>, infos: seq<Info>)
    requires func <= 0xFFFF_FFFF_FFFF_FF00
    ensures |code| == |infos| == MAX_INSN_CHECK_SIZE && FaithfulWords(code, infos)
    ensures Translate(func, code, infos) == Err(FOUND_BACK_JUMP) && !BranchesBack(func, code, |code|)
  {
    code := seq(MAX_INSN_CHECK_SIZE, j => if j == 2 then 0x10FF_FFE0 else NOP);
    infos := seq(MAX_INSN_CHECK_SIZE, j => Info(if j == 2 then ID_ADR else ID_OTHER, {}));
    NopsAreAccepted(func, code, infos);
    hide AcceptsPrefix, Translate;
    NopIsOther();
    hide FaithfulId, BranchOffset, InsidePatch, Plus, WordOf, AcceptsPrefix;
    assert !BranchesBack(func, code, |code|);
    ReferenceIsRefused(func, code, infos);
  }

  lemma NopIsOther()
    ensures FaithfulId(NOP, ID_OTHER) && BranchOffset(NOP).None?
    ensures FaithfulId(0x10FF_FFE0, ID_ADR) && BranchOffset(0x10FF_FFE0).None?
  {}

  lemma NopsAreAccepted(func: Addr, code: seq<Word>, infos: seq<Info>)
    requires |code| >= 2 && code[0] == code[1] == NOP
    requires |infos| >= 2 && infos[0] == infos[1] == Info(ID_OTHER, {})
    ensures AcceptsPrefix(func, code[..2], infos)
  {
    hide At, LdrAddr, BranchWord;
    var prefix := code[..2];
    assert CORRUPTIBLE_REGS - {} == CORRUPTIBLE_REGS;
    var e := Put(Blank(), NOP);
    assert EmitInsn(Blank(), At(func, 0), NOP, infos[0]) == Ok(e);
    assert EmitInsn(e, At(func, 1), NOP, infos[1]) == Ok(Put(e, NOP));
    assert EmitPrefix(func, prefix, infos, 0) == Ok(Blank());
    assert EmitPrefix(func, prefix, infos, 1) == Ok(e);
    assert EmitPrefix(func, prefix, infos, 2) == Ok(Put(e, NOP));
  }
}
