/** The life cycle of one handle as a state machine over code memory: prepare, install, uninstall and destroy of
    src/funchook.c, with every answer the operating system can give. */
module HookState {
  import opened Common

  type Memory = int -> byte

  /** What the caller of a prepare gives, as it is kept in the entry. A null hook is None. */
  datatype Params = Params(hook: Option<int>, hasPrehook: bool, userData: int, flags: int)

  /** funchook_entry_t; `size` is patch_code_size. */
  datatype Entry = Entry(
    original: int, target: int, params: Params, transit: seq<byte>, trampoline: seq<byte>,
    size: nat, oldCode: seq<byte>, newCode: seq<byte>)

  /** A page and its used entries. */
  datatype Page = Page(base: int, entries: seq<Entry>)

  /** num_entries_in_page and MAX_PATCH_CODE_SIZE in bytes. */
  datatype Layout = Layout(capacity: nat, patchMax: nat)

  /** The handle, the code memory outside its pages, the pages the allocator has handed out to any handle, and those
      of this handle that are write-protected. The page list is in list order, the newest page first. */
  datatype State = State(
    layout: Layout, live: bool, installed: bool, pages: seq<Page>,
    mem: Memory, mapped: set<int>, shielded: set<int>)

  /** What fix_code leaves in an entry: new_code, patch_code_size, transit and trampoline. */
  datatype Patch = Patch(code: seq<byte>, size: nat, transit: seq<byte>, trampoline: seq<byte>)

  /** What funchook_prepare depends on: *target_func as given and as resolved, the parameters, the result of the
      translation, page_avail for a page and slot, what page_alloc answers when certain pages are handed out, and
      what fix_code computes for a slot. */
  datatype Request = Request(
    original: int, target: int, params: Params, translation: int, avail: (int, nat) -> bool,
    alloc: set<int> -> Result<int>, fix: (int, nat) -> Patch)

  /** Answers of the operating system to the calls of one install or uninstall, by number; 0 is success. */
  type Answers = nat -> int

  /** A new handle, beside the pages of others. */
  function Fresh(layout: Layout, mem: Memory, mapped: set<int>): State {
    State(layout, true, false, [], mem, mapped, {})
  }

  // ---- prepare ----

  function Snapshot(mem: Memory, at: int, n: nat): (s: seq<byte>)
    ensures |s| == n && forall k :: 0 <= k < n ==> s[k] == mem(at + k)
  {
    seq(n, k requires 0 <= k < n => mem(at + k))
  }

  function NewEntry(s: State, r: Request, base: int, idx: nat): Entry {
    var patch := r.fix(base, idx);
    Entry(r.original, r.target, r.params, patch.transit, patch.trampoline,
          patch.size, Snapshot(s.mem, r.target, s.layout.patchMax), patch.code)
  }

  predicate HasRoom(layout: Layout, page: Page, r: Request) {
    |page.entries| < layout.capacity && r.avail(page.base, |page.entries|)
  }

  /** The scan of get_page. */
  function FindPage(layout: Layout, pages: seq<Page>, r: Request): (p: Option<nat>)
    ensures p.Some? ==> p.value < |pages| && HasRoom(layout, pages[p.value], r)
    ensures forall q :: 0 <= q < (if p.Some? then p.value else |pages|) ==> !HasRoom(layout, pages[q], r)
  {
    if pages == [] then None
    else if HasRoom(layout, pages[0], r) then Some(0)
    else
      var rest := FindPage(layout, pages[1..], r);
      assert forall q :: 1 <= q < |pages| ==> pages[q] == pages[1..][q - 1];
      if rest.Some? then Some(rest.value + 1) else None
  }

  /** The slot is the one whose trampoline *target_func points to afterwards. */
  datatype Prepared = Prepared(state: State, rv: int, slot: Option<(int, nat)>)

  function Prepare(s: State, r: Request): Prepared {
    if s.installed then Prepared(s, ALREADY_INSTALLED, None)
    else if r.translation != SUCCESS then Prepared(s, r.translation, None)
    else
      var found := FindPage(s.layout, s.pages, r);
      if found.Some? then
        var page := s.pages[found.value];
        var idx := |page.entries|;
        var grown := page.(entries := page.entries + [NewEntry(s, r, page.base, idx)]);
        Prepared(s.(pages := s.pages[found.value := grown]), SUCCESS, Some((page.base, idx)))
      else if r.alloc(s.mapped).Err? then Prepared(s, r.alloc(s.mapped).code, None)
      else
        var base := r.alloc(s.mapped).value;
        if !r.avail(base, 0) then Prepared(s, NO_SPACE_NEAR_TARGET_ADDR, None)
        else
          var page := Page(base, [NewEntry(s, r, base, 0)]);
          Prepared(s.(pages := [page] + s.pages, mapped := s.mapped + {base}), SUCCESS, Some((base, 0)))
  }

  // ---- install and uninstall ----

  function Write(mem: Memory, at: int, code: seq<byte>): Memory {
    (x: int) => if at <= x < at + |code| then code[x - at] else mem(x)
  }

  /** One step of the nested loops of install or uninstall. */
  datatype Action = Protect(base: int) | Unprotect(base: int) | Store(at: int, code: seq<byte>)

  predicate ValidEntry(e: Entry, layout: Layout) {
    e.size <= |e.oldCode| && |e.oldCode| == |e.newCode| == layout.patchMax
  }

  predicate ValidEntries(es: seq<Entry>, layout: Layout) { forall i :: 0 <= i < |es| ==> ValidEntry(es[i], layout) }

  predicate ValidPages(pages: seq<Page>, layout: Layout) {
    forall p :: 0 <= p < |pages| ==> ValidEntries(pages[p].entries, layout)
  }

  function StoreOf(e: Entry, install: bool): Action
    requires e.size <= |e.oldCode| == |e.newCode|
  {
    Store(e.target, if install then e.newCode[..e.size] else e.oldCode[..e.size])
  }

  function Stores(es: seq<Entry>, install: bool, layout: Layout): seq<Action>
    requires ValidEntries(es, layout)
  {
    if es == [] then [] else [StoreOf(es[0], install)] + Stores(es[1..], install, layout)
  }

  function Actions(pages: seq<Page>, install: bool, layout: Layout): seq<Action>
    requires ValidPages(pages, layout)
  {
    if pages == [] then []
    else
      (if install then [Protect(pages[0].base)] else [])
      + Stores(pages[0].entries, install, layout)
      + (if install then [] else [Unprotect(pages[0].base)])
      + Actions(pages[1..], install, layout)
  }

  datatype World = World(mem: Memory, shielded: set<int>, rv: int)

  /** Carries out actions until a call fails. A store is made between the two calls that lift and restore the
      protection of the code; the result of lifting the protection of a page is not looked at. */
  function Perform(mem: Memory, shielded: set<int>, actions: seq<Action>, answers: Answers, call: nat): World
    decreases |actions|
  {
    if actions == [] then World(mem, shielded, SUCCESS)
    else
      match actions[0]
      case Protect(base) =>
        if answers(call) != 0 then World(mem, shielded, answers(call))
        else Perform(mem, shielded + {base}, actions[1..], answers, call + 1)
      case Unprotect(base) =>
        Perform(mem, shielded - {base}, actions[1..], answers, call + 1)
      case Store(at, code) =>
        if answers(call) != 0 then World(mem, shielded, answers(call))
        else
          var written := Write(mem, at, code);
          if answers(call + 1) != 0 then World(written, shielded, answers(call + 1))
          else Perform(written, shielded, actions[1..], answers, call + 2)
  }

  function Switch(s: State, install: bool, answers: Answers): (State, int)
    requires ValidPages(s.pages, s.layout)
  {
    if s.installed == install then (s, if install then ALREADY_INSTALLED else NOT_INSTALLED)
    else
      var w := Perform(s.mem, s.shielded, Actions(s.pages, install, s.layout), answers, 0);
      (s.(mem := w.mem, shielded := w.shielded, installed := if w.rv == SUCCESS then install else s.installed), w.rv)
  }

  // ---- destroy ----

  function Bases(pages: seq<Page>): set<int> { set p | 0 <= p < |pages| :: pages[p].base }

  function Destroy(s: State): (State, int) {
    if s.installed then (s, ALREADY_INSTALLED)
    else (s.(live := false, pages := [], mapped := s.mapped - Bases(s.pages), shielded := s.shielded - Bases(s.pages)),
      SUCCESS)
  }
}
