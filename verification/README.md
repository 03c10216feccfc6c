# A verified model of funchook

funchook redirects a function by overwriting its first bytes with a jump. The overwritten instructions are moved into
a *trampoline*, so that the original function can still be called. This project models the parts of the library on
which the correctness of that rests, in the form they have in the source, and proves what callers rely on.

| part | files |
|---|---|
| arm64 relocation | `A64Machine` (the machine), `A64Sums` (its sums), `Arm64Translator` (the translation), `Arm64MakeTrampoline` (the loops over the buffer), `Arm64Words`, `Arm64Plans`, `Arm64Blocks` (what is emitted means), `Arm64Simulation` (the whole trampoline), `Arm64Outcomes` (every answer), `Arm64Scratch`, `Arm64BackJumps`, `Arm64Limits` (what the translator does not cover) |
| arm64 routing | `Arm64Routing`, `Arm64Numbers`, `Arm64Bytes` (between numbers and bytes and the processor's words), `Arm64EndToEnd` (with translator and life cycle) |
| x86 relocation | `X86Code`, `X86Relocator` (the copy loop), `X86MakeTrampoline` (the loops over the buffer), `X86Layout`, `X86Fix`, `X86Relocation`, `X86Outcomes` (every answer), `X86Limits`, `I386GetPc` |
| x86-64 routing | `X86Routing`, `X86EndToEnd` (with translator and life cycle) |
| what a caller stub calls | `HookCaller`, for both processors |
| life cycle of a handle | `HookState` (the state machine), `HookHandle` (the class that updates in place), `HookRuns`, `HookSafety` (all runs), `HookOrigins` (what entries come from), `HookOutcomes` (every answer), `HookStops` (half-finished calls) |
| near pages on Unix | `UnixPages`, `UnixOutcomes` (every answer) |
| near pages on Windows | `WindowsPages` (on values), `WindowsRing` (the linked list in place), `WindowsRuns` (all runs), `WindowsOutcomes` (every answer) |
| several handles | `NativeLibrary` (calls of any handles on the code and pages they share) |
| Rust wrapper | `RustWrapper` (threads and the spin lock), `RustOutcomes` (what calls lead to), `RustHandle` (one handle, error codes) |
| shared | `Common` |

Where the source works by updating a buffer, a list or fields, the model is a method or a class that does the same,
proved equal to a function of its inputs or its old state; the theorems are about this function.

## What is proved

**Answers.** For each operation there is a theorem, in a module whose name ends in `Outcomes`, that gives success and every
error code by if-and-only-if conditions on its inputs and the answers of the system, so that a refusal is characterised as
well as a success: both translators, prepare, install, uninstall, destroy, both page allocators, and the calls of the Rust
wrapper from the moment they begin to wait for the lock. When an install or uninstall fails, `HookStops` says which code it
leaves, whichever call it was.

**arm64.** A small A64 machine (registers, flags, memory, literal loads, branches) follows section C6.2 of the Arm
Architecture Reference Manual (DDI 0487). Instruction words are 32-bit vectors and addresses 64-bit vectors, so that the
shifts and masks of the source are part of the proofs. Instructions the machine does not spell out are an arbitrary
effect that does not mention the program counter. For every accepted prefix, running the emitted words from any state
leads to the place the original leads to, with the same memory, flags and registers, except for those of x9-x15 that the
prefix has not written, and for a link register that names the block of the return address. The same holds behind a call
made by any word of the prefix, from memories that are the same: a callee that has stored its return address leaves
another one in the dead part of its stack than it would have left for the original, and the comparison is then with the
original on this stack. The assumptions are that the disassembler classifies the words as the manual does, that none is
B.NV, that the second word does not read the scratch register of a literal load in front of it, that the words of the
prefix, in the states the original goes through, do not overwrite the trampoline, and that nobody branches into the
middle of the patch.

**x86.** The disassembler is a function with a contract: sizes are 1 to 15, a 32-bit relative field lies in the
instruction, there is at most one relative operand, and neither the address nor the bytes of a relative field nor the
bytes behind an instruction change what it is. RIP-relative addressing is that of section 2.2.1.6 of the Intel SDM,
volume 2A. Copy loop and fixer are proved to give, at the final address, the same instructions with the same absolute
targets and a jump behind the patch. The reach test is exact: a displacement lands where it should if and only if the
test accepts it. Results about a prepared function are for runs that covered five bytes; the path for short functions is
treated separately.

**End to end.** For a whole run of prepares, installs and uninstalls that ends in a finished install, a call of every
prepared function whose patch no other entry overlaps arrives where its prepare asked for, on both processors:
`X86EndToEnd` and `Arm64EndToEnd` derive patch, transit code, trampoline and page of each entry from the prepare that has
filled it, and let the caller stub find the entry by its transit address among all those of the handle. The function a
prepare translates is read from the code memory as it is then, which is the original code unless a prepare has succeeded
behind a half-failed install. On x86-64 the trampoline consists of the instructions of this function and a jump behind the
patch; on arm64 it is the translation that the arm64 theorem is about. The memory of the processor shows the code of the
process, and the transit codes and trampolines in the pages.

**Life cycle.** A run is any sequence of prepares, installs, uninstalls and a destroy, where every call into the operating
system may fail at any point. Code memory is original whenever the handle is not installed, with one exception that is
characterised exactly. Entries may overlap or repeat a target.

**Page allocators.** The Unix search finds the lowest free page above and the highest one below a function, each exactly
unless too far. The Windows list stays a well-formed ring in which the marked pages are those handed out.

**Rust wrapper.** Any number of threads run the wrapper under its spin lock. A native call begins with a look at the
code and the pages, which all handles share, and ends with one write of what it makes of them, any number of steps later.
Because of the lock no other call comes between: the shared state is always that of the calls made one after the other
in lock order. From this follow pages with one owner and original code behind a handle that is not installed; and since a
handle has one owner, its two installed flags agree and a drop is safe, in every interleaving.

## Where the code does less than intended

Each of these is a lemma, with the exact condition:

- B.NV always branches, but its translation never does, in every accepted prefix that has one
  (`Arm64Limits.NeverConditionIsLost`); there are such prefixes (`NeverIsAccepted`).
- The scratch register of a block is one that the words so far do not mention; the second word may still read it. The
  assumption of the main theorem fails, for words that are reported rightly, exactly if the first word is a literal load
  and the second word reads the lowest of x9-x15 that the report of the first one leaves free
  (`Arm64Scratch.WellBehavedExactly`). Then the trampoline does what the original would do with an address in this
  register (`LiteralIsLeftBehind`), and if the second word branches by it or loads through it, some state tells the two
  apart (`ScratchReadChangesOutcome`, `ScratchReadChangesLoad`). There are such prefixes that the translator accepts
  (`AcceptedButReadsScratch`).
- The arm64 scan for back jumps applies every class that is reported to the first word behind the prefix. A success
  excludes branches into the patch if and only if no report from the fourth word on has a branch class
  (`Arm64BackJumps.BackJumpsExcludedExactly`). A refusal means that there is a branch into the patch if and only if the
  first word behind the prefix is one, or no reported class makes it look like one (`RefusalsJustifiedExactly`); functions
  without any branch are refused (`RefusedWithoutBranch`).
- A relative operand that refers to address zero is not fixed (`X86Relocation.NullTargetMoves`).
- A short function can succeed without a recorded end of the patch; the size of the patch is then the negated function
  address. With a disassembler that knows NOPs, it happens exactly when the disassembler stops within the first five
  bytes in front of nothing but NOPs, as one does that stops behind a return (`X86Limits.ShortPathNeedsStop`,
  `LoneReturnSlipsThrough`, `PatchSizeIsRight`).
- A function at the very start of its region misses the free page just below (`UnixPages.BelowIsNearestExactly`).
- A failing mmap is taken for a success for functions in the lowest or highest 2 GB (`UnixPages.FailedMappingExactly`).
- A half-failed install leaves patches in that an uninstall refuses to remove and a destroy leaves pointing at freed
  pages (`HookSafety.HalfFailedInstall`).

## Model

| member | source | states |
|---|---|---|
| `Arm64Translator.Imm26Macro` | src/arch_arm64.c:43-45 | shifting and masking gives the manual's SignExtend(imm26:'00'), for every word |
| `Arm64Translator.Imm19Macro` | src/arch_arm64.c:47-49 | the same for imm19 |
| `Arm64Translator.Imm14Macro` | src/arch_arm64.c:56-58 | the same for imm14 |
| `Arm64Translator.ImmAdrMacro` | src/arch_arm64.c:53-54 | the same for immhi:immlo of ADR and ADRP |
| `Arm64Translator.TrampolineCapacity` | src/arch_arm64.c:185-194 | a successful translation never passes LITERAL_POOL_OFFSET words of code nor LITERAL_POOL_NUM literals, so code and pool never overlap |
| `Arm64Translator.TranslateErrors` | src/arch_arm64.c:369-380 | a failing translation returns one of five error codes, never success; which one is the subject of `Arm64Outcomes.TranslateExactly` |
| `Arm64Outcomes.ScratchIsLowest` | src/arch_arm64.c:83-104 | the scratch register is the lowest of x9-x15 that is available; there is none, and the code is NO_AVAILABLE_REGISTERS, exactly when none of the seven is |
| `Arm64Outcomes.PlanExists` | src/arch_arm64.c:217-335 | for any report: a word can be translated if and only if it asks for no scratch register or one is available, and it is not a word reported as a literal load that is none; the code of each failure |
| `Arm64Outcomes.ReportedPlanExists` | src/arch_arm64.c:217-335 | for a word that is reported rightly: it can be translated if and only if it is no branch and no literal load, or one of x9-x15 is available; otherwise the code is NO_AVAILABLE_REGISTERS, never another |
| `Arm64Outcomes.TranslateExactly` | src/arch_arm64.c:178-381 | for every function and list of reports, success and each of the five codes by exact conditions on the number of reports, the registers they leave, strange words and the scan |
| `Arm64Outcomes.ReportedTranslateExactly` | src/arch_arm64.c:178-381 | for a prefix that is reported rightly: success if and only if it is reported as a whole, each word that needs a scratch register and the jump back find one, and the third word is not read as a reference into the patch; the four other answers likewise |
| `Arm64Outcomes.TargetIsReading` | src/arch_arm64.c:150-176 | for every class and word, target_addr is the address the manual gives for the word read as an instruction of the class |
| `Arm64Outcomes.ScanExactly` | src/arch_arm64.c:355-365 | the scan finds a back jump if and only if some report behind the prefix makes the third word a reference to strictly inside the patch |
| `Arm64MakeTrampoline.MakeTrampoline` | src/arch_arm64.c:178-381 | the loop over the buffer with its two cursors writes exactly the words and literals of the translation function, with its result code and size, all errors included |
| `Arm64MakeTrampoline.PutLdrAddr` | src/arch_arm64.c:187-191 | the literal goes to the next pool slot and the load to the next code word, nothing else in the buffer changes |
| `Arm64MakeTrampoline.PutInsn` | src/arch_arm64.c:217-335 | the switch over the classes: each case writes the words and the literal of the translation of its word, in order, or returns its error |
| `Arm64MakeTrampoline.PutThrough` | src/arch_arm64.c:237-244 | an optional skip, a load of an address and the word that uses it are appended, with one literal |
| `Arm64MakeTrampoline.ScanBackJumps` | src/arch_arm64.c:355-365 | the scan answers whether any report behind the prefix, applied to the first word there, gives a target inside the patch |
| `Arm64Words.LdrWordMeans` | src/arch_arm64.c:187-191 | the emitted load decodes to a literal load of the chosen register at the distance of the slot |
| `Arm64Words.LinkableBranchWordMeans` | src/arch_arm64.c:256 | the emitted branch decodes to BR for B and to BLR for BL, of the scratch register |
| `Arm64Words.SkipUnlessCondMeans` | src/arch_arm64.c:237-240 | the first emitted word decodes to the branch on the condition with its lowest bit inverted, over three words |
| `Arm64Words.SkipUnlessCbMeans` | src/arch_arm64.c:265-266 | the same for CBZ and CBNZ: the opposite test of the same register and width |
| `Arm64Words.SkipUnlessTbMeans` | src/arch_arm64.c:328-329 | the same for TBZ and TBNZ: the opposite test of the same bit |
| `Arm64Words.BaseLoadWordMeans` | src/arch_arm64.c:285-318 | each of the seven literal loads becomes the load of the same width, extension and destination through the scratch register |
| `Arm64Plans.PlanInsnMeans` | src/arch_arm64.c:217-335 | for every word, free registers and address, what is chosen decodes to instructions that together mean the word; when something can be chosen is `Arm64Outcomes.PlanExists` |
| `Arm64Blocks.LiteralLoaded` | src/arch_arm64.c:185-191 | in memory at any base, an emitted load reads from the pool exactly the address stored for it |
| `Arm64Blocks.BlockSimulates` | src/arch_arm64.c:217-335 | run from memory, the block of a word has in at most three steps the effect and the taken target of the word at its own address |
| `Arm64Simulation.TrampolinePreservesMeaning` | src/arch_arm64.c:209-353 | the main theorem for arm64: from any state the trampoline reaches in at most eight steps the outcome of the original prefix; the registers that may differ are in x9-x15 and not written by the executed prefix |
| `Arm64Simulation.ReturnFromCallPreservesMeaning` | src/arch_arm64.c:246-257 | when a callee of any word of the prefix returns, the rest of the trampoline does what the rest of the prefix does from the same memory, flags and registers, link register and clobbered ones apart |
| `Arm64Simulation.DirtOutIsUnwritten` | src/arch_arm64.c:216 | no register that the executed part of the prefix has written is ever clobbered by a block, taken or not, or by the jump back; only x9-x15 are |
| `Arm64Limits.NeverConditionIsLost` | src/arch_arm64.c:237-240 | in every accepted prefix: the original leaves it at the target of a B.NV, the trampoline goes on at the block of the next word in the same state |
| `Arm64Limits.NeverIsAccepted` | src/arch_arm64.c:237-240 | a prefix with B.NV is accepted |
| `Arm64Scratch.WellBehavedExactly` | src/arch_arm64.c:216 | the assumption of the main theorem holds if and only if all words are reported rightly, none is B.NV, and the second one does not read the lowest register that the report of a literal load before it leaves free |
| `Arm64Scratch.LiteralIsLeftBehind` | src/arch_arm64.c:275-284 | otherwise the trampoline does what the original would do if this register held the address of the literal |
| `Arm64Scratch.ScratchReadChangesOutcome` | src/arch_arm64.c:275-284 | and if the second word is CBZ, CBNZ, TBZ, TBNZ, BR or BLR by this register, some value of it takes trampoline and original to different addresses |
| `Arm64Scratch.ScratchReadChangesLoad` | src/arch_arm64.c:275-284 | and if it loads through this register, with any width, some value of it leaves different values in the loaded register |
| `Arm64Scratch.AcceptedButReadsScratch` | src/arch_arm64.c:275-284 | such a prefix is accepted: ldr x0, +8; br x9 |
| `Arm64Limits.TargetOfBranch` | src/arch_arm64.c:150-176 | for every branch that is reported with its class, target_addr gives the address the branch goes to |
| `Arm64Limits.FirstBackJumpIsFound` | src/arch_arm64.c:355-364 | a branch into the patch from the first word behind the prefix is found, whichever report is the one of this word |
| `Arm64BackJumps.SuccessExcludesBranches` | src/arch_arm64.c:355-365 | when no report from the fourth word on has a branch class, a success excludes every branch into the patch |
| `Arm64BackJumps.LateBranchIsMissed` | src/arch_arm64.c:355-365 | when one has, there are words of the reported classes that are accepted and branch into the patch |
| `Arm64BackJumps.BackJumpsExcludedExactly` | src/arch_arm64.c:355-365 | for every accepted prefix and list of classes: a success excludes branches into the patch, whatever the words behind the prefix are, if and only if no class from the fourth word on is a branch |
| `Arm64BackJumps.RefusalsJustifiedExactly` | src/arch_arm64.c:355-365 | for every accepted prefix, third word and list of classes: a refusal means a branch into the patch, whatever the words from the fourth one on are, if and only if the third word is such a branch or the scan does not take it for one |
| `Arm64BackJumps.ReferenceIsRefused` | src/arch_arm64.c:355-365 | a function whose third word is ADR of the address before it is refused as if it branched back, whatever the other words are |
| `Arm64BackJumps.RefusedWithoutBranch` | src/arch_arm64.c:355-365 | one of them has no branch at all, and a report for each of its 64 words |
| `Arm64Routing.FixCode` | src/arch_arm64.c:383-396 | the patch and the transit code written into the entry, with and without a prehook |
| `Arm64Routing.AdrpReachesExactly` | src/arch_arm64.c:106-119 | executing the emitted ADRP, and decoding it with target_addr, gives the page of the destination if and only if the pages are within 4 GB |
| `Arm64Routing.NearPageIsReached` | src/os_unix.c:247 | every page that passes the allocator's distance test is reached exactly by the emitted ADRP |
| `Arm64Numbers.SameDistanceTest` | src/os_unix.c:247 | on 64-bit vectors and on integers with the difference taken modulo 2^64, the distance test is the same |
| `Arm64EndToEnd.AllocatedPageIsReached` | src/os_unix.c:275-279 | an aligned page that the Unix allocator returns for a function is reached from it by the emitted ADRP |
| `Arm64Routing.PatchedCallReachesHook` | src/arch_arm64.c:387-394 | a call of the patched function arrives at the hook, or at the trampoline without one, with only x9 changed |
| `Arm64Routing.PatchedCallReachesStub` | src/arch_arm64.c:139-148 | with a prehook it arrives at the caller stub with the transit address in x10 and only x9 and x10 changed |
| `Arm64Routing.EntryIsRecovered` | src/funchook.c:197 | among the pages of a handle the address of the transit code belongs to one entry, the one the stub was entered through |
| `Arm64Routing.PatchedCallReachesChoice` | src/funchook.c:195-212 | so with a prehook the call goes from the target over the stub to the prehook's choice, which has seen the fields of this entry, or to its trampoline, with only x9 and x10 changed |
| `Arm64EndToEnd.InstalledCallReachesHook` | src/funchook.c:284-415 | in every run that ends in a finished install, a call of a function whose patch prevails arrives at the hook its prepare asked for, or its trampoline, in four steps that change nothing but x9; patch, page and transit code come from the prepare |
| `Arm64EndToEnd.InstalledCallReachesChoice` | src/funchook.c:195-212 | the same with a prehook, over the stub, which recovers the entry from the list of the handle |
| `Arm64EndToEnd.TrampolineIsTranslation` | src/funchook.c:299-325 | in every run, the trampoline in each page is, in memory, the translation of the function its prepare was made for, whose words are original code in every careful run |
| `X86Code.GetPut32` | src/arch_x86.c:63 | a stored 32-bit field reads back as the value modulo 2^32 |
| `X86MakeTrampoline.CopyPrefix` | src/arch_x86.c:130-175 | the copy loop fills the buffer with the copy and NOPs, keeps the write cursor at or below the read cursor, and stops or fails as the relocation function does |
| `X86MakeTrampoline.MakeTrampoline` | src/arch_x86.c:109-192 | buffer, displacements, size and result code are those of the relocation function, all errors included |
| `X86MakeTrampoline.ScanBackJumps` | src/arch_x86.c:163-172 | the scan finds a branch into the first five bytes exactly as specified |
| `X86MakeTrampoline.SkipNops` | src/arch_x86.c:181-188 | the path for short functions succeeds exactly when only NOPs follow |
| `X86Outcomes.ScanExactly` | src/arch_x86.c:163-172 | the scan finds a back jump if and only if some instruction it meets has an immediate that refers to an address strictly between the function and its sixth byte |
| `X86Outcomes.PrepareExactly` | src/arch_x86.c:109-192 | for every function, success, with and without a recorded end of the patch, and each error code by exact conditions on the instructions at the boundaries of the prefix and behind it; IP_RELATIVE_OFFSET never |
| `X86Layout.PreparedIsTiled` | src/arch_x86.c:157-162 | every success consists of instructions that tile prefix and copy without gaps; at most 20 bytes are covered and the trampoline with its jump fits its buffer |
| `X86Layout.OneSlotSuffices` | src/arch_x86.c:332-334 | at most the last copied instruction has a relative operand, so disp[1] is never overwritten and holds exactly this operand |
| `X86Layout.NothingRecordedYet` | src/arch_x86.c:142-157 | while fewer than five bytes are covered no displacement has been recorded |
| `X86Layout.LoopIsVerbatim` | src/arch_x86.c:143-155 | in 64-bit mode the copy is byte for byte the prefix |
| `X86Layout.ScanIsComplete` | src/arch_x86.c:163-172 | after a success no instruction the scan has looked at branches into the first five bytes; both directions are `X86Outcomes.ScanExactly` |
| `X86Layout.BackJumpTestSuffices` | src/arch_x86.c:166 | though up to 20 bytes are overwritten, no scanned branch leads to an instruction boundary strictly inside them |
| `X86Fix.LandsIffFits` | src/arch_x86.c:96-105 | a stored displacement, sign-extended and added to the next address, gives the target if and only if the reach test accepts it |
| `X86Fix.SlotsAreInBuffer` | src/arch_x86.c:364-371 | both displacements are written inside the trampoline buffer |
| `X86Relocation.RelocationPreservesMeaning` | src/arch_x86.c:320-340 | the main theorem for x86: each copied instruction, decoded at its final place, has the same size, bytes outside the field and absolute target; its relative operand was 32 bits wide |
| `X86Relocation.ReturnJumpIsRight` | src/arch_x86.c:363-366 | the jump behind the copy leads to the first byte behind the patch |
| `X86Relocation.RewrittenSurvives` | src/arch_x86.c:136-141 | a rewritten get-pc idiom is untouched by the fixer |
| `X86Relocation.NullTargetMoves` | src/arch_x86.c:367 | an operand that refers to address zero is not fixed and keeps its target if and only if the code has not moved |
| `X86Limits.PatchSizeIsRight` | src/arch_x86.c:349 | the recorded patch size is the number of bytes covered, 5 to 20, or, on the path for short functions, the negated address |
| `X86Limits.ShortPathExactly` | src/arch_x86.c:176-188 | that path succeeds exactly when the disassembler stops early in front of nothing but NOPs |
| `X86Limits.ShortPathNeedsStop` | src/arch_x86.c:176-188 | with a disassembler that decodes NOPs, if and only if it stops within the first five bytes, at a boundary the copy loop reaches, in front of nothing but NOPs |
| `X86Limits.NopsLeaveNoShortPath` | src/arch_x86.c:180-188 | one that decodes the whole window never takes it |
| `X86Limits.LoneReturnSlipsThrough` | src/disasm_distorm.c:51 | one that stops behind a return does, at every lone return in front of NOPs |
| `X86Routing.FixCode` | src/arch_x86.c:342-373 | new code with its NOP tail, transit code in its three forms, both displacements and the patch size, written in place |
| `X86Routing.PatchedCallReachesHook` | src/arch_x86.c:354-361 | without a prehook a call of the patched function arrives at its hook or trampoline: in one step exactly when the displacement the patch has room for leads there, otherwise in two through the transit code |
| `X86Routing.PatchedCallReachesStub` | src/template.inc:7-16 | with a prehook it arrives at the caller stub in three instructions, with the transit address in r11 and nothing else changed |
| `X86EndToEnd.TransitIsUnique` | src/funchook.c:197 | a transit address belongs to one slot of one page of the list only |
| `X86EndToEnd.SlotIsRecovered` | src/funchook.c:197 | so the stub, which has nothing but this address, finds the slot it was entered through |
| `X86EndToEnd.InstalledCallReachesHook` | src/funchook.c:284-415 | in every run of prepares, installs and uninstalls that ends in a finished install, a call of a function whose patch prevails arrives at the hook its prepare asked for, or its trampoline, in at most two instructions; reach, patch and transit code come from the prepare |
| `X86EndToEnd.InstalledCallReachesChoice` | src/funchook.c:195-212 | the same with a prehook: the call arrives at the stub, and the stub goes on at the prehook's choice, which has seen what the prepare asked for, or at this function's trampoline |
| `X86EndToEnd.TrampolineMeansOriginal` | src/funchook.c:299-325 | in every run, the trampoline in each used slot consists of the instructions of the function its prepare was made for, each with its absolute target unless that is address zero, and a jump behind the patch; the function is the original code in every careful run |
| `X86EndToEnd.AllocatedPageServes` | src/funchook.c:472-498 | a page that the Unix allocator returns for a function is accepted for its first entry if and only if the relative operand of the function, if any, is within reach from there |
| `X86Routing.EntriesFitInPage` | src/funchook.c:268 | entries up to num_entries_in_page lie inside the page |
| `X86Routing.NearPageFailsOnlyForOperand` | src/arch_x86.c:376-401 | the first slot of a page the Unix allocator accepts is refused if and only if the function's relative operand is out of reach |
| `X86Routing.PageIsAcceptedExactly` | src/arch_x86.c:376-401 | a page and slot are accepted if and only if the displacements to the transit code, to the function and, if there is one, to the operand lead where they are to lead |
| `I386GetPc.ThunkIdiom` | src/arch_x86.c:194-198 | call, mov (%esp), ret: three steps to the next address in the register, everything else unchanged but memory below the stack |
| `I386GetPc.CallPopIdiom` | src/arch_x86.c:265-303 | call +0, pop: the same in two steps |
| `I386GetPc.ThunkTable` | src/arch_x86.c:208-244 | every listed thunk is the mov and ret of the register whose mov is emitted; that none is missing is `X86Outcomes.EveryThunkIsKnown` |
| `X86Outcomes.EveryThunkIsKnown` | src/arch_x86.c:208-244 | the table has the thunk of every register but the stack pointer, with the mov to this register, and nothing else |
| `X86Outcomes.EveryPopIsKnown` | src/arch_x86.c:265-303 | the same for the pops |
| `X86Outcomes.GetPcExactly` | src/arch_x86.c:199-303 | a call is rewritten into a mov to a register if and only if it calls the thunk of this register, or calls the next instruction, which pops into it; the number of bytes replaced |
| `X86Outcomes.IdiomsAreRewritten` | src/arch_x86.c:136-142 | in every success no copied unit is a call of such a thunk nor a call of the next instruction followed by such a pop |
| `I386GetPc.RewritingPreservesMeaning` | src/arch_x86.c:199-314 | wherever the translator puts a mov for an idiom, idiom and mov lead from the same registers to the same registers |
| `HookHandle.Funchook.GetPage` | src/funchook.c:472-498 | the first page on the list with a near enough slot, else a new page in front, else an error with the refused page given back |
| `HookHandle.Funchook.Prepare` | src/funchook.c:284-343 | one prepare of the state machine, on the fields: errors in order, the slot, and every field of the new entry |
| `HookHandle.Funchook.Install` | src/funchook.c:370-416 | the nested loops, stopping at whichever call fails, leave the code, protection and flag of the state machine |
| `HookHandle.Funchook.Uninstall` | src/funchook.c:418-449 | the same for uninstall |
| `HookHandle.Funchook.Destroy` | src/funchook.c:451-470 | refused while installed, else every page freed, each while it is still mapped |
| `HookRuns.PerformedToTheEnd` | src/funchook.c:378-413 | a finished pass leaves at each address the last byte stored there, and the old byte elsewhere |
| `HookRuns.PerformedElsewhere` | src/funchook.c:378-413 | a pass that stops anywhere changes no address outside its stores |
| `HookRuns.UninstallRestores` | src/funchook.c:426-448 | from original snapshots a finished uninstall restores everything, whatever the order and overlap of entries and whatever was there |
| `HookRuns.PrepareAllOrNothing` | src/funchook.c:284-343 | a failing prepare changes nothing; a successful one fills exactly the first unused slot of one page, with a snapshot of the code, and adds a page only if none has room; when it succeeds is `HookOutcomes.PrepareExactly` |
| `HookOutcomes.PrepareExactly` | src/funchook.c:284-343 | a prepare succeeds if and only if the handle is not installed, the function was translated, and some page has an unused slot that is near enough or a new page is allocated whose first slot is; the code of every other case, in which nothing changes; it takes the first unused slot of the first page on the list that has one near enough, and a new page in front of the list exactly when none has |
| `HookRuns.EveryEntryHasOrigin` | src/funchook.c:309-343 | every entry of every run was filled in, in all its fields, by a prepare of the run, for the slot it is in, on a page that had passed the reach test, and is still what it was |
| `HookOrigins.PreparesSeeOriginal` | src/funchook.c:320 | in every run in which no prepare has succeeded behind a half-failed install, each successful prepare has read and copied original code |
| `HookOrigins.PatchIsInPlace` | src/funchook.c:378-415 | in every run that ends in a finished install, each byte of a prevailing patch is in the code |
| `HookRuns.EveryRunKeepsInvariant` | src/funchook.c:284-498 | snapshots, page list, protection and code stay consistent in every run |
| `HookSafety.NotInstalledIsOriginal` | src/funchook.c:414 | after any run with no prepare behind a half-failed install, not installed means original code and writable pages |
| `HookSafety.OnlyWindowsChange` | src/funchook.c:395 | in every run only bytes inside patches of prepared entries can differ from the original |
| `HookSafety.PagesAreConserved` | src/funchook.c:494-496 | in every run the mapped pages are those on the list, each once, never empty nor over-full; none is left after a destroy |
| `HookSafety.RetriedUninstallRestores` | src/funchook.c:434-441 | an uninstall repeated after a failed one restores all code |
| `HookSafety.RetriedInstallIsUndone` | src/funchook.c:391-399 | an install repeated after a failed one, and the uninstall after it, restore all code |
| `HookSafety.UninstallRestoresExactly` | src/funchook.c:438 | in general a finished uninstall restores all code if and only if the last snapshot covering each address is of the original |
| `HookSafety.FinishedInstallPatches` | src/funchook.c:378-415 | after a finished install each patched byte is the new code of the last entry, in list order, that covers it, and every page is write-protected |
| `HookSafety.HalfFailedInstall` | src/funchook.c:382-399 | after a failed install the code is original if and only if one of the first two calls failed; uninstall then refuses, destroy succeeds, and both leave the code as it is |
| `HookOutcomes.SwitchExactly` | src/funchook.c:370-449 | install of an installed handle answers ALREADY_INSTALLED, uninstall of one that is not answers NOT_INSTALLED, and nothing changes; otherwise success if and only if every answer that is looked at, one for each page protected and two for each entry, is 0, and a failing result is the first that is not; the flag changes by a success alone |
| `HookOutcomes.DestroyExactly` | src/funchook.c:451-470 | refused with ALREADY_INSTALLED while installed; otherwise a page is unmapped if and only if it is on the list, and the code stays as it is |
| `HookStops.StoppedExactly` | src/funchook.c:378-441 | whichever call of an install or uninstall fails: the code is what a finished one of a part of the entries would leave |
| `HookStops.BegunExactly` | src/funchook.c:378-441 | and this part consists of exactly the entries whose first call comes before the failing one |
| `HookSafety.DestroyLeavesNothing` | src/funchook.c:451-470 | in every run a destroy succeeds exactly while nothing is installed, otherwise changes nothing, and leaves no page behind and, without a half-failed install, original code |
| `NativeLibrary.AllCallsKeepOrder` | src/funchook.c:284-498 | calls of any number of handles on the code and pages they share, one after the other: each handle stays in order, as if it were alone, while the targets of different handles are apart |
| `NativeLibrary.PagesHaveOneOwner` | src/funchook.c:472-498 | no page is ever on the lists of two handles, nor on one without being mapped |
| `UnixPages.GetFreeAddress` | src/os_unix.c:195-245 | the scan over the process map computes the search function |
| `UnixPages.AboveIsNearest` | src/os_unix.c:213-240 | for any function inside a region the address above is the lowest free page above it, or null exactly when that is too far |
| `UnixPages.BelowIsNearestExactly` | src/os_unix.c:206-212 | the address below is the highest free page below other than page 0, or null exactly when too far or absent, if and only if the function is not the first byte of a region behind a free page |
| `UnixPages.FoundIsFree` | src/os_unix.c:205-221 | wherever the function lies, no address returned overlaps a region, and both are within reach on their side |
| `UnixPages.FoundIsAligned` | src/os_unix.c:207 | addresses found in a page-aligned map are page-aligned |
| `UnixPages.FailsExactly` | src/os_unix.c:242-244 | the search fails exactly when no region ends above the function |
| `UnixPages.PageAlloc` | src/os_unix.c:251-304 | on 64 bits three rounds, the address above before the one below, on 32 bits any page; of all pages mapped only the one returned stays mapped |
| `UnixPages.SucceedsIffSomeTryIsNear` | src/os_unix.c:262-293 | while mmap gives pages, the allocation succeeds if and only if one of the two tries of one of the three rounds is within reach |
| `UnixPages.AllocatedIsNear` | src/os_unix.c:275-279 | a returned page passes the distance test |
| `UnixPages.FailedMappingExactly` | src/os_unix.c:262-287 | in any round and behind any rejected pages, a failing mmap ends the allocation and is reported as success exactly for functions in the lowest or highest 2 GB, and nothing else gives the value of a failed mapping |
| `UnixPages.AllocatedIsMapped` | src/os_unix.c:275-287 | elsewhere a success is a mapped page |
| `UnixPages.NearestPageIsTaken` | src/os_unix.c:267-279 | with a system that maps free pages where asked, the lowest free page above the function is returned when in reach |
| `UnixOutcomes.NearExactly` | src/os_unix.c:247 | the distance test accepts exactly the pages whose distance from the function, either way round the address space, is below the limit |
| `UnixOutcomes.AllocateExactly` | src/os_unix.c:251-296 | for every behaviour of the system: the first of nine steps that ends the allocation decides its answer, success by a near page or one of two codes; without one it fails |
| `UnixPages.UnprotectedIsLeastCover` | src/os_unix.c:355-364 | the range whose protection is lifted is the least page-aligned one that covers the code |
| `WindowsPages.PageIsRecovered` | src/os_windows.c:213-214 | masking and dividing the address of a page gives back the unit and index it was allocated at, and no page is a control page |
| `WindowsPages.PagesAreDistinct` | src/os_windows.c:174 | pages of different slots have different addresses |
| `WindowsPages.FindIsFirst` | src/os_windows.c:170-181 | no free page that is near enough comes before the one found, and a new unit is asked for only when there is none |
| `WindowsRing.InsertBehind` | src/os_windows.c:152-155 | four assignments put a control page right behind the head of the ring |
| `WindowsRing.Unlink` | src/os_windows.c:235-236 | two assignments take a node out of the ring, wherever it is |
| `WindowsRing.PageList.Search` | src/os_windows.c:170-181 | the nested loops find the first free page near enough, in list order |
| `WindowsRing.PageList.PageAlloc` | src/os_windows.c:163-206 | ring, flags, counters and result are those of the allocation function, with every call failing or not |
| `WindowsRing.PageList.PageFree` | src/os_windows.c:211-250 | the same for the release |
| `WindowsRing.CountIsZero` | src/os_windows.c:230-233 | the counter is zero exactly when no flag is set |
| `WindowsRuns.AllocatedPageIsNew` | src/os_windows.c:163-206 | a page handed out was not in use, is no control page, lies in a reserved unit, and no other page changes |
| `WindowsRuns.FreedPageIsGone` | src/os_windows.c:211-250 | exactly the freed page leaves use, and its unit leaves the list exactly when it was the last one |
| `WindowsRuns.EveryRunKeepsInvariant` | src/os_windows.c:163-250 | in every run the marked pages are exactly those handed out, and with all calls succeeding no unit is kept or reserved without a page in use |
| `WindowsRuns.NeverHandedOutTwice` | src/os_windows.c:163-206 | in no run is a page handed out that somebody still has |
| `WindowsRuns.NothingIsLeftBehind` | src/os_windows.c:229-237 | when all pages are given back nothing stays reserved |
| `WindowsRuns.AllocThenFree` | src/os_windows.c:163-250 | allocating and freeing is the identity if and only if the page did not come from a unit a failed commit had left empty |
| `WindowsOutcomes.AllocExactly` | src/os_windows.c:163-206 | which page is handed out, the first in list order that is unused and near enough or the first of a new unit, when an allocation succeeds, and with which code it fails |
| `WindowsOutcomes.FreeExactly` | src/os_windows.c:211-250 | when a release succeeds, when the unit is taken off the list, and when its addresses are given back |
| `RustHandle.CodeRoundTrip` | rust/lib.rs:147-189 | every code but success becomes an error with this code |
| `RustHandle.ErrorRoundTripExactly` | rust/lib.rs:147-189 | every error is recovered from its code if and only if it is not an unknown error with a known code |
| `RustHandle.OwnedHandle.Install` | rust/lib.rs:297-302 | the flag is set exactly when the native call succeeded, and stays equal to the native one |
| `RustHandle.OwnedHandle.Uninstall` | rust/lib.rs:311-316 | the flag is cleared exactly when the native call succeeded |
| `RustHandle.OwnedHandle.Drop` | rust/lib.rs:340-351 | the native handle is destroyed exactly when it is not installed |
| `RustWrapper.MutualExclusion` | rust/lib.rs:487-509 | in every interleaving at most one thread holds the guard, and the lock is free exactly when none does |
| `RustWrapper.CallsAreSerial` | rust/lib.rs:487-509 | in every interleaving the shared code and pages are those of the native calls made one after the other in the order in which the lock was taken, though each call works on what it saw when it began |
| `RustWrapper.PagesHaveOneOwner` | rust/lib.rs:487-509 | so in every interleaving no page is on the lists of two handles, and the mapped pages are exactly those on some list |
| `RustWrapper.FlagTellsInstalled` | rust/lib.rs:297-316 | in every interleaving the wrapper's flag is the native one, except between a successful native call and the next statement of its owner |
| `RustWrapper.DropNeverDestroysInstalled` | rust/lib.rs:340-351 | in every interleaving no installed handle is destroyed, and a drop that gets to the native call succeeds and gives all pages of the handle back |
| `RustWrapper.NotInstalledIsOriginal` | rust/lib.rs:335-337 | when the wrapper says that a handle is not installed, the code at its targets, in the memory all handles share, is as the handle found it, under the condition of the life cycle |
| `RustWrapper.WaitingThreadCanEnter` | rust/lib.rs:492-502 | from every state of every run, at most four steps of the holder alone and then two of a waiting thread alone let it in |
| `RustOutcomes.BeginningExactly` | rust/lib.rs:340-348 | a drop with the flag set takes the object away and does nothing else; with the flag clear its thread goes to wait for the lock, as for every other call |
| `RustOutcomes.NativeCallExactly` | rust/lib.rs:287-316 | a native call by itself is the call of the life cycle on its handle and the shared code and pages; the creation of a handle succeeds exactly when the system lets it |
| `RustOutcomes.WaitingCallCompletes` | rust/lib.rs:487-509 | in every run, from every waiting state: at most four steps of the holder alone and six of the waiting thread alone make its native call, bring its flags up to date, give the lock back and leave it idle |
| `RustOutcomes.DropCompletes` | rust/lib.rs:340-351 | so a drop that waits ends with its handle destroyed, the pages of the handle and no others unmapped, and the code unchanged |

## Left out

- Disassemblers (Capstone, Zydis, distorm): foreign code; their reports are inputs with a stated contract.
- `funchook_resolve_func`, the reading of /proc/self/maps and of mach regions, and the VirtualQuery scan of
  `alloc_page_info`: driven by the operating system; the resolved target, the process map and the reserved unit are inputs.
- Logging, error texts and the debug file: input and output only.
- Cache flushing, and the register save and restore of the caller stubs in assembly: the stub is its call of
  `funchook_hook_caller` and a jump to the result.
- Argument access for prehooks, the parameter builder and the other straight-line getters: nothing hard to prove.
- i386 routing: the jump is the same as on x86-64 without a reach test; `X86Fix.LandsIffFits` covers its displacement.
- arm64 instructions with pointer authentication, such as BLRAA: they belong to the abstract instructions, which leave
  the program counter out, so a prefix with one of them is not covered.
- Arm64Simulation.TrampolinePreservesMeaning: assumes that no branch of the prefix or of foreign code leads into the
  patch, since the code does not test this.
- Arm64Simulation.ReturnFromCallPreservesMeaning: compares with the original from the memory the callee has left in the
  trampoline's run. A callee that has stored its return address leaves another value in dead stack than the original's;
  that nobody reads dead stack is not part of the model, so the two runs of such a callee are not compared themselves.
- Arm64Scratch.ScratchReadChangesOutcome: is, with `ScratchReadChangesLoad`, about second words that branch by the register
  or load through it. For abstract instructions that read it, `Arm64Scratch.LiteralIsLeftBehind` says what the trampoline
  does; whether that can be seen depends on the word.
- Arm64BackJumps.BackJumpsExcludedExactly: is for functions whose 64 words do not run over the end of the address space,
  and for branches with an immediate; a branch by register may lead anywhere.
- Arm64EndToEnd.InstalledCallReachesHook: takes from page_alloc that a page it returns is aligned and passes the distance
  test of `UnixPages`; the memory in which the call runs holds the code, the transit codes and the trampolines of the
  handle.
- X86EndToEnd.InstalledCallReachesHook: is for 64-bit functions of at least five bytes and slots no other entry of the
  list overlaps later; the memory in which the call runs holds the code and the transit codes of the handle.
- X86Layout.BackJumpTestSuffices: is about branches behind the prefix; branches inside the prefix are not tested by the
  code. For the i386 call-and-pop idiom the boundary between its two instructions is inside one unit and is not
  protected by the test.
- I386GetPc.RewritingPreservesMeaning: assumes that the return address pushed by the idiom does not overwrite the idiom
  or its thunk.
- HookSafety.NotInstalledIsOriginal: is about one handle; several of them are the subject of `NativeLibrary`, where the
  targets of different handles are apart. Hooks of two handles on overlapping code are not modelled.
  `funchook_page_unprotect` and the release of a page, whose results the code does not look at, are taken to succeed, and
  patches have the size the translator records on its regular path.
- RustWrapper.PagesHaveOneOwner: as all results about several handles, for handles whose targets are apart.
- HookHandle.Funchook.Prepare: translator, reach test and fixer are parts of the request; `X86EndToEnd` and
  `Arm64EndToEnd` put in those of each processor. A prepare that would write to a page still protected by a half-failed
  install is modelled as a write, not as a fault; careful runs have none.
- WindowsRing.PageList.PageAlloc: a control page is found at its address through a map, which stands for the cast of a
  masked address to a pointer.
- RustWrapper.MutualExclusion: steps are interleaved one at a time; the acquire and release orderings are what justifies
  this and are not modelled themselves.
- RustWrapper.WaitingThreadCanEnter: shows that a schedule lets the thread in; the lock is not fair, and no schedule is
  forced.
