/** funchook_hook_caller of src/funchook.c: from the transit address a stub was entered with to the address the
    stub jumps to. Addresses are of any type, so that both machines can use it. */
module HookCaller {
  import opened Common

  /** The fields of funchook_entry_t the routing depends on; a null pointer is None. */
  datatype Entry<A> = Entry(
    originalTarget: A, target: A, hook: Option<A>, hasPrehook: bool, userData: A, flags: int, trampoline: A)

  /** The record a prehook receives and may change. */
  datatype Info<A> = Info(originalTarget: A, target: A, trampoline: A, hook: Option<A>, userData: A, flags: int)

  type Prehook<!A> = Info<A> -> Info<A>

  function InfoOf<A>(e: Entry<A>): Info<A> {
    Info(e.originalTarget, e.target, e.trampoline, e.hook, e.userData, e.flags)
  }

  /** Where calls go when no prehook intervenes. */
  function Destination<A>(e: Entry<A>): A { if e.hook.Some? then e.hook.value else e.trampoline }

  /** `e` is the entry whose first field, the transit code, the stub was entered through. */
  function Call<A>(e: Entry<A>, prehook: Prehook<A>): A {
    var info := prehook(InfoOf(e));
    if info.hook.Some? then info.hook.value else e.trampoline
  }
}
