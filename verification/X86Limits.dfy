/** The path for short functions: where the translator succeeds without recording where the patch ends. */
module X86Limits {
  import opened Common
  import opened X86Code
  import opened X86Relocator
  import opened X86Layout

  /** What fix_code stores as the size of the patch. */
  function PatchSize(p: Prepared, func: int): int { (p.disp0.dst - func) % TWO32 }

  /** A success that covered five bytes stores the number of bytes covered, which the buffers of the entry hold;
      any other stores the negated function address. */
  lemma PatchSizeIsRight(env: Env)
    requires env.Valid() && Prepare(env).Ok?
    ensures var p := Prepare(env).value;
      if p.size != 0 then REL2G_JUMP_SIZE <= PatchSize(p, env.func) == p.copy.src <= MAX_PATCH_CODE_SIZE
      else PatchSize(p, env.func) == (-env.func) % TWO32
  {
    hide Prepare, Tiled, Trusted, Buffer;
    PreparedIsTiled(env);
    var p := Prepare(env).value;
    assert p.size != 0 ==> p.disp0.dst - env.func == p.copy.src;
  }

  /** Where the loop stops. */
  lemma {:induction false} LoopStops(env: Env, c: Copy)
    requires env.Valid() && c.pos == c.src && CopyLoop(env, c).Ok?
    ensures var d := CopyLoop(env, c).value;
      d.src < REL2G_JUMP_SIZE ==> d.pos == d.src && env.InsnAt(d.src).None?
    decreases REL2G_JUMP_SIZE - c.src
  {
    hide Trusted, HandleRelative;
    if c.src < REL2G_JUMP_SIZE && env.InsnAt(c.pos).Some? {
      var insn := env.InsnAt(c.pos).value;
      InsnIsBounded(env, c.pos);
      RoundProgress(env, c, insn);
      if Round(env, c, insn).Ok? && Round(env, c, insn).value.src < REL2G_JUMP_SIZE {
        LoopStops(env, Round(env, c, insn).value);
      }
    }
  }

  /** The short path succeeds exactly when the disassembler stops early in front of nothing but NOPs. */
  lemma ShortPathExactly(env: Env)
    requires env.Valid() && env.InsnAt(0).Some? && CopyLoop(env, Begin()).Ok?
    ensures var c := CopyLoop(env, Begin()).value;
      Prepare(env).Ok? && Prepare(env).value.size == 0 <==>
        c.src < REL2G_JUMP_SIZE && env.InsnAt(c.src).None? && PaddedWithNops(env, c.src)
  {
    LoopStops(env, Begin());
    hide CopyLoop, PaddedWithNops, FindsBackJump;
  }

  /** The decoder knows the one-byte NOP. */
  ghost predicate KnowsNops(env: Env) {
    forall code: seq<byte>, at: int :: |code| > 0 && code[0] == NOP ==> env.dec(code, at).Some?
  }

  /** Where the loop has stopped early, with such a decoder: at the stop of the disassembler, or in front of bytes that
      are no instruction and no NOP. */
  lemma StoppedEarly(env: Env)
    requires env.Valid() && KnowsNops(env) && CopyLoop(env, Begin()).Ok?
    ensures var c := CopyLoop(env, Begin()).value;
      c.src < REL2G_JUMP_SIZE ==> env.InsnAt(c.src).None? && (env.stop <= c.src || env.code[c.src] != NOP)
  {
    LoopStops(env, Begin());
    hide CopyLoop;
    NopIsReported(env, CopyLoop(env, Begin()).value.src);
  }

  lemma NopIsReported(env: Env, pos: nat)
    requires KnowsNops(env)
    ensures pos < env.stop && pos < |env.code| && env.code[pos] == NOP ==> env.InsnAt(pos).Some?
  {
    if pos < env.stop && pos < |env.code| && env.code[pos] == NOP { assert env.code[pos..][0] == NOP; }
  }

  /** So the short path is taken exactly when the disassembler stops within the first five bytes, in front of nothing
      but NOPs and at an instruction boundary that the copy loop has reached without an error. */
  lemma ShortPathNeedsStop(env: Env)
    requires env.Valid() && KnowsNops(env) && env.InsnAt(0).Some?
    ensures Prepare(env).Ok? && Prepare(env).value.size == 0 <==>
      CopyLoop(env, Begin()).Ok? &&
      var c := CopyLoop(env, Begin()).value;
      env.stop <= c.src < REL2G_JUMP_SIZE && PaddedWithNops(env, c.src)
  {
    if CopyLoop(env, Begin()).Ok? {
      ShortPathExactly(env);
      StoppedEarly(env);
      hide CopyLoop, FindsBackJump, PaddedWithNops;
      var c := CopyLoop(env, Begin()).value;
      if c.src < REL2G_JUMP_SIZE && PaddedWithNops(env, c.src) {
        assert env.code[c.src] == NOP by { FirstIsNop(env, c.src); }
      }
    } else {
      hide CopyLoop, FindsBackJump, PaddedWithNops;
    }
  }

  lemma FirstIsNop(env: Env, src: nat)
    requires src < REL2G_JUMP_SIZE && PaddedWithNops(env, src)
    ensures src < |env.code| && env.code[src] == NOP
  {}

  /** One that decodes the whole window never takes it. */
  lemma NopsLeaveNoShortPath(env: Env)
    requires env.Valid() && KnowsNops(env) && Prepare(env).Ok? && env.stop >= REL2G_JUMP_SIZE
    ensures Prepare(env).value.size != 0
  {
    hide CopyLoop, FindsBackJump, PaddedWithNops;
    ShortPathNeedsStop(env);
  }

  /** One that stops behind a return does, at every function that is a lone return in front of NOPs. */
  lemma LoneReturnSlipsThrough(env: Env)
    requires env.Valid() && KnowsNops(env) && env.mode == X64
    requires env.InsnAt(0) == Some(Insn(1, NoRel, NoRel)) && env.stop == 1 && PaddedWithNops(env, 1)
    ensures Prepare(env).Ok? && Prepare(env).value.size == 0 && Prepare(env).value.disp0 == NoDisp
  {
    var c := Begin();
    var d := Copy(1, 1, [] + env.code[0..1], NoDisp, [] + [Unit(0, 0, Copied)]);
    assert CopyInsn(env, c, Insn(1, NoRel, NoRel)) == Ok(d);
    assert CopyLoop(env, d) == Ok(d);
  }
}
