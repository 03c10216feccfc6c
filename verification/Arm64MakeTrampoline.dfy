/** The loop of funchook_make_trampoline over its buffer, proved against the translation function. */
module Arm64MakeTrampoline {
  import opened Common
  import opened A64Machine
  import opened Arm64Translator

  lemma LayoutPut(e: Emit, w: Word)
    requires |e.dst| < LITERAL_POOL_OFFSET
    ensures Layout(Put(e, w)) == Layout(e)[|e.dst| := w]
  {
    hide PoolWord;
    forall i | 0 <= i < TRAMPOLINE_SIZE ensures Layout(Put(e, w))[i] == Layout(e)[|e.dst| := w][i] {
      if i >= LITERAL_POOL_OFFSET { SamePool(e, Put(e, w), i - LITERAL_POOL_OFFSET); }
    }
  }

  lemma SamePool(e: Emit, f: Emit, i: nat)
    requires e.pool == f.pool
    ensures PoolWord(e, i) == PoolWord(f, i)
  {
    hide Low, High;
  }

  lemma LayoutLiteral(e: Emit, addr: Addr)
    requires |e.pool| < LITERAL_POOL_NUM
    ensures var slot := LITERAL_POOL_OFFSET + 2 * |e.pool|;
      Layout(e.(pool := e.pool + [addr])) == Layout(e)[slot := Low(addr)][slot + 1 := High(addr)]
  {
    hide Low, High;
    var f, slot := e.(pool := e.pool + [addr]), LITERAL_POOL_OFFSET + 2 * |e.pool|;
    forall i | 0 <= i < TRAMPOLINE_SIZE
      ensures Layout(f)[i] == Layout(e)[slot := Low(addr)][slot + 1 := High(addr)][i]
    {
      var k := i - LITERAL_POOL_OFFSET;
      assert k >= 0 ==> k / 2 < |e.pool| || k / 2 == |e.pool| || k / 2 > |e.pool|;
    }
  }

  /** The cursors into the buffer, and what has been written so far. */
  method PutWord(out: array<Word>, ghost e: Emit, k: nat, w: Word) returns (k': nat)
    requires out.Length == TRAMPOLINE_SIZE && out[..] == Layout(e)
    requires k == |e.dst| < LITERAL_POOL_OFFSET
    modifies out
    ensures out[..] == Layout(Put(e, w)) && k' == |Put(e, w).dst|
  {
    hide Layout;
    LayoutPut(e, w);
    out[k] := w;
    k' := k + 1;
  }

  method PutLdrAddr(out: array<Word>, ghost e: Emit, k: nat, j: nat, d: Reg, addr: Addr) returns (k': nat, j': nat)
    requires out.Length == TRAMPOLINE_SIZE && out[..] == Layout(e)
    requires k == |e.dst| < LITERAL_POOL_OFFSET && j == |e.pool| < LITERAL_POOL_NUM
    modifies out
    ensures out[..] == Layout(LdrAddr(e, d, addr))
    ensures k' == |LdrAddr(e, d, addr).dst| && j' == |LdrAddr(e, d, addr).pool|
  {
    hide Layout, LdrWord, AsBits;
    var slot := LITERAL_POOL_OFFSET + 2 * j;
    var w := LdrWord(AsBits(LITERAL_POOL_OFFSET + 2 * j - k), d);
    LayoutLiteral(e, addr);
    ghost var f := e.(pool := e.pool + [addr]);
    out[slot] := Low(addr);
    out[slot + 1] := High(addr);
    j' := j + 1;
    LayoutPut(f, w);
    assert Put(f, w) == LdrAddr(e, d, addr);
    out[k] := w;
    k' := k + 1;
  }

  /** The buffer holds what has been emitted and has room for one more block. */
  ghost predicate Cursors(out: array<Word>, e: Emit, k: nat, j: nat)
    reads out
  {
    && out.Length == TRAMPOLINE_SIZE && out[..] == Layout(e)
    && k == |e.dst| && j == |e.pool|
  }

  ghost predicate HasRoom(e: Emit, n: nat) { |e.dst| + n <= LITERAL_POOL_OFFSET && |e.pool| < LITERAL_POOL_NUM }

  method PutCopy(out: array<Word>, ghost e: Emit, k: nat, j: nat, w: Word) returns (k': nat)
    requires Cursors(out, e, k, j) && HasRoom(e, 1)
    modifies out
    ensures Cursors(out, Assemble(e, Copy(w)), k', j)
  {
    k' := PutWord(out, e, k, w);
  }

  method PutMaterialize(out: array<Word>, ghost e: Emit, k: nat, j: nat, d: Reg, addr: Addr) returns (k': nat, j': nat)
    requires Cursors(out, e, k, j) && HasRoom(e, 1)
    modifies out
    ensures Cursors(out, Assemble(e, Materialize(d, addr)), k', j')
  {
    k', j' := PutLdrAddr(out, e, k, j, d, addr);
  }

  /** A load of an address, perhaps behind a skip, and the word that uses it. */
  method PutThrough(out: array<Word>, ghost e: Emit, k: nat, j: nat, skip: Option<Word>, r: Reg, addr: Addr, last: Word)
    returns (k': nat, j': nat)
    requires Cursors(out, e, k, j) && HasRoom(e, if skip.Some? then 3 else 2)
    modifies out
    ensures Cursors(out, Assemble(e, Through(skip, r, addr, last)), k', j')
  {
    hide Layout, LdrWord, AsBits;
    k' := k;
    ghost var f := e;
    if skip.Some? {
      k' := PutWord(out, e, k', skip.value);
      f := Put(e, skip.value);
    }
    k', j' := PutLdrAddr(out, f, k', j, r, addr);
    k' := PutWord(out, LdrAddr(f, r, addr), k', last);
  }

  /** The switch over the opcodes of a literal load. */
  method FindBaseLoad(ins: Word) returns (opcode: Option<Word>)
    ensures opcode == BaseLoadOpcode(ins)
  {
    var top := ins >> 24;
    if top == 0x18 { return Some(0xB940_0000); }
    if top == 0x58 { return Some(0xF940_0000); }
    if top == 0x98 { return Some(0xB980_0000); }
    if top == 0x1C { return Some(0xBD40_0000); }
    if top == 0x5C { return Some(0xFD40_0000); }
    if top == 0x9C { return Some(0x3DC0_0000); }
    if top == 0xD8 { return Some(0xF980_0000); }
    return None;
  }

  /** A literal load: the address first, then the load of its opcode through the same register. */
  method PutLoad(out: array<Word>, ghost e: Emit, k: nat, j: nat, avail: set<Reg>, src: Addr, ins: Word, id: InsnId)
    returns (rv: int, k': nat, j': nat)
    requires Cursors(out, e, k, j) && HasRoom(e, 2) && id in {ID_LDR, ID_LDRSW, ID_PRFM}
    modifies out
    ensures Outcome(out, e, PlanInsn(avail, src, ins, id), rv, k', j')
  {
    hide Layout, LdrWord, AsBits, Imm19Offset, Plus, BaseLoadWord, BaseLoadOpcode;
    rv, k', j' := SUCCESS, k, j;
    if ins & 0x2000_0000 != 0 {
      k' := PutCopy(out, e, k, j, ins);
    } else {
      var regno := ToRegno(avail);
      if regno.Err? { return regno.code, k', j'; }
      var addr := Plus(src, Imm19Offset(ins));
      k', j' := PutLdrAddr(out, e, k, j, regno.value, addr);
      var opcode := FindBaseLoad(ins);
      if opcode.None? { return INTERNAL_ERROR, k', j'; }
      k' := PutWord(out, LdrAddr(e, regno.value, addr), k', BaseLoadWord(opcode.value, ins, regno.value));
    }
  }

  /** The result code, and on success what is in the buffer. */
  ghost predicate Outcome(out: array<Word>, e: Emit, p: Result<Plan>, rv: int, k: nat, j: nat)
    reads out
  {
    if p.Err? then rv == p.code && rv != SUCCESS else rv == SUCCESS && Cursors(out, Assemble(e, p.value), k, j)
  }

  /** The switch over the classes. */
  method PutInsn(out: array<Word>, ghost e: Emit, k: nat, j: nat, avail: set<Reg>, src: Addr, ins: Word, id: InsnId)
    returns (rv: int, k': nat, j': nat)
    requires Cursors(out, e, k, j) && HasRoom(e, 3)
    modifies out
    ensures Outcome(out, e, PlanInsn(avail, src, ins, id), rv, k', j')
  {
    hide Cursors, Assemble, ImmAdrOffset, Imm26Offset, Imm19Offset, Imm14Offset, Plus, PagePlus, Rd;
    hide SkipUnlessCond, SkipUnlessCb, SkipUnlessTb, BranchWord, LinkableBranchWord;
    rv, k', j' := SUCCESS, k, j;
    match id {
      case ID_OTHER =>
        k' := PutCopy(out, e, k, j, ins);
      case ID_ADR =>
        k', j' := PutMaterialize(out, e, k, j, Rd(ins), Plus(src, ImmAdrOffset(ins)));
      case ID_ADRP =>
        k', j' := PutMaterialize(out, e, k, j, Rd(ins), PagePlus(src, ImmAdrOffset(ins) << 12));
      case ID_BCOND =>
        var r := ToRegno(avail);
        if r.Err? { return r.code, k', j'; }
        var skip := if ins & 0x0F != 0x0E then Some(SkipUnlessCond(ins)) else None;
        k', j' := PutThrough(out, e, k, j, skip, r.value, Plus(src, Imm19Offset(ins)), BranchWord(r.value));
      case ID_B | ID_BL =>
        var r := ToRegno(avail);
        if r.Err? { return r.code, k', j'; }
        var last := LinkableBranchWord(ins, r.value);
        k', j' := PutThrough(out, e, k, j, None, r.value, Plus(src, Imm26Offset(ins)), last);
      case ID_CBNZ | ID_CBZ =>
        var r := ToRegno(avail);
        if r.Err? { return r.code, k', j'; }
        var skip := Some(SkipUnlessCb(ins));
        k', j' := PutThrough(out, e, k, j, skip, r.value, Plus(src, Imm19Offset(ins)), BranchWord(r.value));
      case ID_LDR | ID_LDRSW | ID_PRFM =>
        rv, k', j' := PutLoad(out, e, k, j, avail, src, ins, id);
      case ID_TBNZ | ID_TBZ =>
        var r := ToRegno(avail);
        if r.Err? { return r.code, k', j'; }
        var skip := Some(SkipUnlessTb(ins));
        k', j' := PutThrough(out, e, k, j, skip, r.value, Plus(src, Imm14Offset(ins)), BranchWord(r.value));
    }
  }

  /** The scan behind the prefix. */
  method ScanBackJumps(func: Addr, code: seq<Word>, rest: seq<Info>) returns (found: bool)
    requires |code| > 2
    ensures found == FindsBackJump(func, code, rest)
  {
    hide TargetAddr, At, InsidePatch;
    for k := 0 to |rest|
      invariant forall i :: 0 <= i < k ==> !InsidePatch(func, TargetAddr(At(func, 2), code[2], rest[i].id))
    {
      var target := TargetAddr(At(func, 2), code[2], rest[k].id);
      if InsidePatch(func, target) { return true; }
    }
    return false;
  }

  lemma PrefixStep(func: Addr, code: seq<Word>, infos: seq<Info>, i: nat)
    requires i < REL4G_JUMP_SIZE && i < |code| && i < |infos| && EmitPrefix(func, code, infos, i).Ok?
    ensures EmitPrefix(func, code, infos, i + 1)
      == EmitInsn(EmitPrefix(func, code, infos, i).value, At(func, i), code[i], infos[i])
  {
    hide EmitInsn, At;
  }

  method MakeTrampoline(func: Addr, code: seq<Word>, infos: seq<Info>, out: array<Word>) returns (rv: int, size: nat)
    requires |code| == MAX_INSN_CHECK_SIZE && out.Length == TRAMPOLINE_SIZE
    modifies out
    ensures rv == if Translate(func, code, infos).Ok? then SUCCESS else Translate(func, code, infos).code
    ensures rv == SUCCESS <==> Translate(func, code, infos).Ok?
    ensures Translate(func, code, infos).Ok? ==>
      out[..] == Layout(Translate(func, code, infos).value) && size == |Translate(func, code, infos).value.dst|
  {
    hide Assemble, ToRegno, BranchWord, Layout, PlanInsn, FindsBackJump, At;
    for i := 0 to TRAMPOLINE_SIZE
      invariant forall k :: 0 <= k < i ==> out[k] == 0
    {
      out[i] := 0;
    }
    if Translate(func, code, infos).Err? { TranslateErrors(func, code, infos); }
    size := 0;
    if |infos| == 0 { return DISASSEMBLY, 0; }
    ghost var e := Blank();
    BlankLayout();
    var avail, k, j, i, src := CORRUPTIBLE_REGS, 0, 0, 0, 0;
    while i < |infos|
      invariant i == src <= 1 && i <= |infos| && i < PrefixLength(code)
      invariant EmitPrefix(func, code, infos, i) == Ok(e) && Fits(e, i)
      invariant avail == e.avail && Cursors(out, e, k, j)
      invariant size == 0
      decreases 2 - i
    {
      avail := avail - infos[i].regs;
      PrefixStep(func, code, infos, i);
      SameLayout(e, avail);
      e := e.(avail := avail);
      rv, k, j := PutInsn(out, e, k, j, avail, At(func, src), code[src], infos[i].id);
      if rv != SUCCESS { return rv, 0; }
      ghost var plan := PlanInsn(avail, At(func, src), code[src], infos[i].id).value;
      AssembleFits(e, plan, i);
      AssembleAvail(e, plan);
      e := Assemble(e, plan);
      i, src := i + 1, src + 1;
      if BranchThenUndefined(code) { src := 2; }
      if src >= REL4G_JUMP_SIZE {
        var scratch := ToRegno(avail);
        if scratch.Err? { return scratch.code, 0; }
        k, j := PutThrough(out, e, k, j, None, scratch.value, At(func, src), BranchWord(scratch.value));
        size := k;
        var found := ScanBackJumps(func, code, infos[i..]);
        return if found then FOUND_BACK_JUMP else SUCCESS, size;
      }
    }
    return TOO_SHORT_INSTRUCTIONS, 0;
  }

  lemma BlankLayout()
    ensures forall i :: 0 <= i < TRAMPOLINE_SIZE ==> Layout(Blank())[i] == 0
  {}

  lemma SameLayout(e: Emit, avail: set<Reg>)
    ensures Layout(e.(avail := avail)) == Layout(e)
  {
    hide Low, High;
    forall i | 0 <= i < TRAMPOLINE_SIZE ensures Layout(e.(avail := avail))[i] == Layout(e)[i] {
      assert LayoutWord(e.(avail := avail), i) == LayoutWord(e, i);
    }
  }

  lemma AssembleAvail(e: Emit, p: Plan)
    ensures Assemble(e, p).avail == e.avail
  {
    hide LdrWord;
  }
}
