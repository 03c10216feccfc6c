/** The error codes of rust/lib.rs and the methods of its Funchook, as one thread runs them under the lock. */
module RustHandle {
  import opened Common
  import opened HookState
  import opened HookRuns
  import opened HookHandle

  datatype Error =
    | InternalError | OutOfMemory | AlreadyInstalled | Disassembly | IpRelativeOffset | CannotFixIpRelative
    | FoundBackJump | TooShortInstructions | MemoryAllocation | MemoryFunction | NotInstalled | NoAvailableRegisters
    | NoSpaceNearTargetAddress | Unknown(code: int)
  {
    static function FromCode(code: int): Option<Error> {
      if code == SUCCESS then None
      else if code == INTERNAL_ERROR then Some(InternalError)
      else if code == OUT_OF_MEMORY then Some(OutOfMemory)
      else if code == ALREADY_INSTALLED then Some(AlreadyInstalled)
      else if code == DISASSEMBLY then Some(Error.Disassembly)
      else if code == IP_RELATIVE_OFFSET then Some(IpRelativeOffset)
      else if code == CANNOT_FIX_IP_RELATIVE then Some(CannotFixIpRelative)
      else if code == FOUND_BACK_JUMP then Some(FoundBackJump)
      else if code == TOO_SHORT_INSTRUCTIONS then Some(TooShortInstructions)
      else if code == MEMORY_ALLOCATION then Some(MemoryAllocation)
      else if code == MEMORY_FUNCTION then Some(MemoryFunction)
      else if code == NOT_INSTALLED then Some(NotInstalled)
      else if code == NO_AVAILABLE_REGISTERS then Some(NoAvailableRegisters)
      else if code == NO_SPACE_NEAR_TARGET_ADDR then Some(NoSpaceNearTargetAddress)
      else Some(Unknown(code))
    }

    function Code(): int {
      match this
      case InternalError => INTERNAL_ERROR
      case OutOfMemory => OUT_OF_MEMORY
      case AlreadyInstalled => ALREADY_INSTALLED
      case Disassembly => DISASSEMBLY
      case IpRelativeOffset => IP_RELATIVE_OFFSET
      case CannotFixIpRelative => CANNOT_FIX_IP_RELATIVE
      case FoundBackJump => FOUND_BACK_JUMP
      case TooShortInstructions => TOO_SHORT_INSTRUCTIONS
      case MemoryAllocation => MEMORY_ALLOCATION
      case MemoryFunction => MEMORY_FUNCTION
      case NotInstalled => NOT_INSTALLED
      case NoAvailableRegisters => NO_AVAILABLE_REGISTERS
      case NoSpaceNearTargetAddress => NO_SPACE_NEAR_TARGET_ADDR
      case Unknown(code) => code
    }
  }

  /** Codes survive the way to an error and back. */
  lemma CodeRoundTrip(code: int)
    ensures Error.FromCode(code).None? <==> code == SUCCESS
    ensures code != SUCCESS ==> Error.FromCode(code).value.Code() == code
  {}

  /** Errors survive the way to a code and back exactly when they are not an unknown error with a known code. */
  lemma ErrorRoundTripExactly(e: Error)
    ensures Error.FromCode(e.Code()) == Some(e)
      <==> !(e.Unknown? && INTERNAL_ERROR <= e.code <= NO_SPACE_NEAR_TARGET_ADDR)
  {}

  /** The owning handle: the native one and the flag beside it. */
  class OwnedHandle {
    const raw: Funchook
    var installed: bool

    ghost predicate Valid()
      reads this, raw, raw.process
    {
      PagesInOrder(raw.Value()) && raw.layout.capacity >= 1 && (raw.live ==> installed == raw.installed)
    }

    constructor (layout: Layout, process: Process)
      requires layout.capacity >= 1 && process.shielded == {}
      ensures Valid() && raw.live && !installed && fresh(raw)
        && raw.Value() == Fresh(layout, process.mem, process.mapped)
    {
      var f := new Funchook(layout, process);
      raw, installed := f, false;
      new;
      assert Bases([]) == {};
    }

    method Prepare(r: Request) returns (result: Option<Error>)
      requires Valid() && raw.live && ValidRequest(raw.layout, r)
      modifies raw, raw.process
      ensures Valid() && installed == old(installed)
      ensures raw.Value() == HookState.Prepare(old(raw.Value()), r).state
      ensures result == Error.FromCode(HookState.Prepare(old(raw.Value()), r).rv)
    {
      hide PagesInOrder, ValidRequest, HookState.Prepare;
      PrepareKeepsOrder(raw.Value(), r);
      var rv, slot := raw.Prepare(r);
      result := Error.FromCode(rv);
    }

    /** The flag is set only when the native call has succeeded. */
    method Install(answers: Answers) returns (result: Option<Error>)
      requires Valid() && raw.live
      modifies this, raw, raw.process
      ensures Valid() && installed == (old(installed) || result.None?)
      ensures (raw.Value(), result)
        == (Switch(old(raw.Value()), true, answers).0, Error.FromCode(Switch(old(raw.Value()), true, answers).1))
    {
      SwitchKeepsOrder(raw.Value(), true, answers);
      hide PagesInOrder, Perform, Actions;
      var rv := raw.Install(answers);
      result := Error.FromCode(rv);
      if result.None? { installed := true; }
    }

    method Uninstall(answers: Answers) returns (result: Option<Error>)
      requires Valid() && raw.live
      modifies this, raw, raw.process
      ensures Valid() && installed == (old(installed) && result.Some?)
      ensures (raw.Value(), result)
        == (Switch(old(raw.Value()), false, answers).0, Error.FromCode(Switch(old(raw.Value()), false, answers).1))
    {
      SwitchKeepsOrder(raw.Value(), false, answers);
      hide PagesInOrder, Perform, Actions;
      var rv := raw.Uninstall(answers);
      result := Error.FromCode(rv);
      if result.None? { installed := false; }
    }

    /** The native handle is destroyed exactly when nothing is installed; otherwise it is kept as it is. */
    method Drop()
      requires Valid() && raw.live
      modifies raw, raw.process
      ensures raw.Value() == if old(raw.installed) then old(raw.Value()) else HookState.Destroy(old(raw.Value())).0
      ensures raw.live <==> old(raw.installed)
    {
      if installed { return; }
      var rv := raw.Destroy();
    }
  }

  lemma PrepareKeepsOrder(s: State, r: Request)
    requires PagesInOrder(s) && ValidRequest(s.layout, r) && s.layout.capacity >= 1
    ensures var t := HookState.Prepare(s, r).state; PagesInOrder(t) && t.installed == s.installed && t.live == s.live
  {
    PrepareKeepsPages(s, r);
  }

  lemma SwitchKeepsOrder(s: State, install: bool, answers: Answers)
    requires PagesInOrder(s)
    ensures PagesInOrder(Switch(s, install, answers).0)
  {
    hide Perform, Actions, Bases;
    SwitchShieldsOwnPages(s, install, answers);
  }
}
