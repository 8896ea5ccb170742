# Verified models of a software-breakpoint debugger, of setjmp/longjmp, and of an ELF symbol decoder

The repository holds four course projects. These files model the parts of two of them where
correctness is least obvious, and prove what those parts are for.

**The debugger (`proj4`).** A debugger plants a breakpoint by saving the 8-byte word at an address
and writing 0xCC into its low byte; it lifts one by writing all 8 saved bytes back. `si` lifts,
single-steps and re-plants; `cont` is `si` followed by a resume; after every stop rip is rolled
back by one if that lands on a breakpoint; breakpoints move with the load base.

* `Words`, `Memory`: 64-bit words, little-endian bytes, bitwise operators by recursion on bits;
  peeking and poking words of partly mapped memory. A peek or poke fails when a byte of its word is
  unmapped, or when there is no child.
* `Child`: the traced process. The instruction set is a parameter (when enough bytes have been
  decoded, and what one instruction does), so a step depends only on the bytes of the instruction
  at rip. INT3 traps with rip one past the 0xCC byte (Intel SDM Vol. 3A, section 6.15). The child
  does not read or write its own text.
* `Commands`: the debugger as a state machine on values, with the outcomes back at the prompt,
  `exit`, a NULL dereference, and a `waitpid` that has not returned.
* `Debugger`: the class with the debugger's fields and its heap-linked list, whose methods carry out
  exactly those transitions; `Session` is the main loop, so what is proved of command
  sequences holds of the object.
* `MemoryInvariant`, `MemorySafety`: what the child's text looks like, over all command sequences that set
  breakpoints a word apart, or close ones in ascending order.
* `AnySpacing`, `LiftSafety`: the same with no condition on where and in which order breakpoints are set.
* `CloseBreakpoints`: which breakpoints a new one saves, and which ones lifting another one loses.
* `Transparency`: the patched child against a run of the unpatched program.
* `Outcomes`: each command by what it changes, field by field, from any well-formed state.
* `Lifecycle`, `Undo`, `Disassembly`: life cycle, list, relocation, loading; undo of breakpoints;
  what the disassembler is shown.

The code is right only under conditions it does not check, and the model says which:

* Breakpoints less than 8 bytes apart interfere: the word saved for one may hold the 0xCC of another
  (`BreakCleanExactlyWhen` says when). That does no harm while the other one is set. The text is free of stray 0xCC
  bytes, through a whole session, if and only if every word that `si`, `cont` or `delete` writes back holds
  original bytes and 0xCC of breakpoints then set (`AlwaysCleanExactlyWhen`). For that it is
  enough never to delete a breakpoint whose 0xCC another one has saved (`NoStrayAtAnySpacing`), which is also the exact
  condition for all others to stay liftable (`DeleteSoundExactlyWhen`). Ascending order ensures
  it (`AscendingAllFit`); `DescendingLeavesInt3` shows a session that violates it.
* Lifting a breakpoint, as `delete` and `si` do, leaves the others planted if and only if its saved word holds
  the 0xCC of each of them in it (`DeleteArmedExactlyWhen`, `SiArmedExactlyWhen`). `AscendingDisarms` shows one
  being lost, and then `cont` does not stop on it (`ContMissesLost`). With all planted, `cont` can skip none if
  and only if that condition holds at rip (`ContStopsAtFirst`, `SkipsNoneExactlyWhen`).
* The rollback also happens after a single step. A step is exact if and only if the byte before
  the next instruction holds no breakpoint (`SiExactlyWhen`). If that breakpoint is planted, `cont`
  stops on it at once (`ContRollsBack`). On a one-byte instruction, `cont` runs it
  again and again and never leaves it (`ContNeverLeaves`).
* Transparency (`Transparent`, `TransparentFromLaunch`, `TransparentAtAnySpacing`) holds at any spacing, if the words
  written back are as above. It asks of the instructions that the child executes, with the breakpoints set at
  the time: no breakpoint inside one past its first byte; no INT3 of the program's own; no single step, alone
  or as the first part of `cont`, that stops one byte past a breakpoint; and no fault there of a resumed child.
  Given the first two, the third is also necessary (`SiFollowsExactlyWhen`), and so is the fourth
  (`ContinueFollowsExactlyWhen`). A resumed child may run over one-byte instructions at will.
* If the step inside `cont` ends the child, the debugger itself exits (`ContQuitsExactlyWhen`). A child that exits
  takes the debugger back to LOADED, but one that is killed by a signal leaves it RUNNING without a child
  (`ChildOutcome`), and then `si`, `cont` and `run` end it (`NoChildOutcome`).
* The disassembly follows a NULL pointer exactly when the program has a 0xCC of its own in the
  window that carries no breakpoint; otherwise it is right exactly when the eight bytes from each such 0xCC on
  are mapped (`ViewIsOriginal`).
* The command that a key finds is independent of the link order if and only if the key is not empty
  (`BuiltinsOrderFree`).

**setjmp and longjmp (`proj3`).** `JumpMachine` has the assembly routines, one assignment per instruction,
with calls and returns through stack memory; `JumpSpec` says what each does to registers, memory and
signal mask, and that the pair returns where ISO C11 section 7.13.2.1 says, with the registers that the
System V AMD64 ABI (section 3.2.1) has callees preserve. The system call loses rcx and r11 (section A.2.1).
`Signals` has the signal set macros and the kernel's use of a mask. `val` is taken as already
extended to 64 bits, because `longjmp` compares all of rsi.

**ELF tables and dispatch (`proj4`).** `Elf` and `ElfTool` have the string table list and the searches of
`load`; `SymbolTable` decodes symbol records in place, raw records in the tail of the buffer that
receives the decoded ones (System V gABI chapter 4, "Symbol Table"); `Registry` has the command list.
Section header 0, which the loader never fills in, is taken to be SHT_NULL, and the string
table pointer of a fresh symbol table, which it never clears, to be NULL.

## Model

| member | source | states |
|---|---|---|
| Memory.Int3WordBytes | proj4/src/debugger/debugger.c:138-139 | for each of the 2^64 words, masking and or-ing with 0xcc yields the word with its low byte 0xCC and the other seven bytes unchanged |
| Memory.PatchOneByte | proj4/src/debugger/debugger.c:136-144 | peek, mask, or and poke change exactly the byte at the target, through the little-endian word |
| Memory.UnpatchPatch | proj4/src/debugger/debugger.c:136-151 | writing back the word that a patch returned restores memory byte for byte |
| Child.StepDependsOnInsn | proj4/src/debugger/si.c:16-21 | two texts that agree on the bytes of the instruction at rip make the child step alike |
| MemoryInvariant.ExactIsPlanted | proj4/src/debugger/debugger.c:136-151 | for spaced breakpoints: clean and armed, if and only if the text is the original with 0xCC at exactly the live, writable addresses and all saved words are original |
| MemoryInvariant.SavesOriginal | proj4/src/debugger/debugger.c:136-144 | the word saved at an address is the original one if and only if all eight bytes there are original |
| MemoryInvariant.CleanStart | proj4/src/debugger/start.c:54-59 | relocating and patching an ascending list in list order leaves no stray 0xCC, saves only original words and arms every breakpoint |
| MemoryInvariant.ExactUnpatch | proj4/src/debugger/delete.c:35-37 | at a spacing of 8, lifting one breakpoint leaves exactly the others planted |
| MemoryInvariant.ExactRepatch | proj4/src/debugger/si.c:16-25 | at a spacing of 8, lifting and re-planting a breakpoint gives back the same text |
| MemorySafety.ExecKeeps | proj4/src/sdb.c:24-35 | both memory invariants survive every command sequence, restarts and reloads included, whose breaks keep the spacing or the ascending order |
| MemorySafety.TextIsPlanted | proj4/src/debugger/debugger.c:136-151 | from the initial state, breakpoints a word apart: the text of a traced child is its original image with 0xCC at exactly the live addresses, each saved word original |
| MemorySafety.NoStrayInt3 | proj4/src/debugger/debugger.c:136-151 | from the initial state, close breakpoints set in ascending order: every byte is original or a live 0xCC, every saved word original |
| AnySpacing.UnpatchTrackedExactlyWhen | proj4/src/debugger/debugger.c:146-151 | lifting a breakpoint for good leaves each byte original or a live 0xCC if and only if its saved word is so, byte for byte |
| AnySpacing.RepatchTrackedExactlyWhen | proj4/src/debugger/si.c:16-25 | the same of lifting and re-planting |
| AnySpacing.TrackedStart | proj4/src/debugger/start.c:54-59 | relocating and patching any list of distinct addresses leaves no stray 0xCC, and every breakpoint can be lifted |
| LiftSafety.AlwaysCleanExactlyWhen | proj4/src/sdb.c:24-35 | from the initial state, for every command sequence: no state has a stray 0xCC if and only if each word that a command writes back, when the child outlives it, holds only original bytes and live 0xCC |
| LiftSafety.DeleteSoundExactlyWhen | proj4/src/debugger/delete.c:35-37 | after `delete`, all remaining breakpoints can be lifted cleanly if and only if none of them has saved the 0xCC of the deleted one |
| LiftSafety.NoStrayAtAnySpacing | proj4/src/sdb.c:24-35 | from the initial state, breakpoints anywhere and in any order: no stray 0xCC ever, under that condition on the deletes alone |
| LiftSafety.AscendingAllFit | proj4/src/debugger/break.c:30-42 | a session that sets close breakpoints in ascending order meets that condition, whatever it deletes |
| CloseBreakpoints.BreakCleanExactlyWhen | proj4/src/debugger/break.c:30-42 | a new breakpoint saves an original word, so that all saved words stay original, if and only if no armed one lies within the seven bytes above it (but for native 0xCC bytes) |
| CloseBreakpoints.UnpatchArmedExactlyWhen | proj4/src/debugger/debugger.c:146-151 | on any list of planted breakpoints, lifting one leaves all others planted if and only if its saved word, if it can be written, holds the 0xCC of each other plantable one in it |
| CloseBreakpoints.RepatchArmedExactlyWhen | proj4/src/debugger/si.c:16-25 | the same condition decides whether all are planted after lifting and re-planting one |
| CloseBreakpoints.DeleteArmedExactlyWhen | proj4/src/debugger/delete.c:35-37 | `delete` leaves every remaining breakpoint planted if and only if the deleted one, if there is one, meets that condition |
| CloseBreakpoints.SiArmedExactlyWhen | proj4/src/debugger/si.c:16-25 | `si`, if the child lives, leaves every breakpoint planted if and only if the one at rip, if there is one, meets that condition |
| CloseBreakpoints.LiftsAloneExactlyWhen | proj4/src/debugger/debugger.c:136-151 | with original words saved, that condition says that no other plantable breakpoint lies in the word (but for native 0xCC bytes) |
| CloseBreakpoints.DescendingLeavesInt3 | proj4/src/debugger/break.c:30-42 | for any state and close pair: set downwards and deleted in that order, the four commands restore all but the id counter and a 0xCC at the higher address |
| CloseBreakpoints.AscendingDisarms | proj4/src/debugger/si.c:16-25 | for any state and close pair set upwards: after `si` at the lower one, the higher one is on the list but not in the text |
| Transparency.SiMatchesOriginal | proj4/src/debugger/si.c:11-27 | over a whole instruction, with an allowed word written back, `si` does what the original instruction at rip does, then rolls rip back; exits and deaths included |
| Transparency.SiExactlyWhen | proj4/src/debugger/debugger.c:173-189 | a non-ending step leaves the original next state if and only if the byte before the next rip holds no breakpoint; otherwise rip is exactly one lower and nothing else differs |
| Transparency.SiFollowsExactlyWhen | proj4/src/debugger/si.c:11-27 | over a whole instruction, `si` leaves the child following the original run if and only if its stop is not one byte past a breakpoint; faults, exits and deaths included |
| Transparency.ResumeMatches | proj4/src/debugger/debugger.c:114-134 | a resumed child follows the original run up to the first planted INT3 and stops, faults or ends where that run does, or has gone as far as it was watched |
| Transparency.ContinueFollowsExactlyWhen | proj4/src/debugger/debugger.c:114-189 | a resume followed by the rollback leaves the child on the original run if and only if it does not fault one byte past a breakpoint |
| Transparency.Transparent | proj4/src/debugger/debugger.c:114-189 | any sequence of tracing commands, breakpoints at any spacing, keeps the child's registers and data, or its end, those of the original run some instructions further on, never fewer; conditions only on what is executed and on the words written back |
| Transparency.TransparentFromLaunch | proj4/src/debugger/run.c:6-24 | the same from `start` or `run` on, against the run of the freshly loaded image |
| Transparency.TransparentAtAnySpacing | proj4/src/debugger/start.c:54-59 | in particular if no breakpoint is deleted whose 0xCC another one has saved |
| Transparency.ContStopsAtFirst | proj4/src/debugger/cont.c:11-21 | a trap ends `cont` on the first breakpoint, of those that its inner step leaves planted, that the original run reaches after at least one instruction (or at once, if the first one faults), before that instruction runs |
| Transparency.SkipsNoneExactlyWhen | proj4/src/debugger/si.c:16-25 | of a list all planted, the inner step leaves all planted if and only if the word saved at rip, if any, holds the 0xCC of each in it |
| Transparency.ContMissesLost | proj4/src/debugger/cont.c:11-21 | a breakpoint in the word at rip whose 0xCC was not saved in it does not stop `cont` |
| Transparency.ContQuitsExactlyWhen | proj4/src/debugger/cont.c:16-20 | `cont` makes the debugger exit if and only if its inner step ends the child |
| Transparency.ContRollsBack | proj4/src/debugger/debugger.c:173-181 | if the byte before the next instruction holds a breakpoint that the step leaves planted, `cont` makes one step and traps with rip on that byte, everything else as the step left it |
| Transparency.ContReturns | proj4/src/debugger/debugger.c:173-181 | from a breakpoint on a one-byte instruction, `cont` runs the instruction and stops on the same breakpoint again |
| Transparency.ContNeverLeaves | proj4/src/debugger/cont.c:11-21 | no number of `cont`s gets past a breakpoint on a one-byte instruction |
| Lifecycle.AlwaysWellFormed | proj4/src/debugger/debugger.c:45-89 | no command sequence leaves the well-formed states: INIT is blank, LOADED has base 0 and a text section with the entry point, ids strictly increase below the counter, addresses are distinct and in the section relative to the base, no child outside RUNNING, and RUNNING has a stopped child, or none after a killing signal |
| Lifecycle.ReachableWellFormed | proj4/src/debugger/debugger.c:29-43 | so every state reached from a fresh debugger is well formed |
| Lifecycle.LoadOutcome | proj4/src/debugger/load.c:8-67 | `load` with a path ends LOADED, afresh, on exactly the usable files, with the first loaded segment whose flag bits say readable and executable and the first such section around the entry point; and in the blank INIT state on all others, whatever was going on before |
| Outcomes.ChildOutcome | proj4/src/debugger/debugger.c:114-134 | a `si`, `cont` or `run` that comes back after the child exited leaves the debugger LOADED, with no child, base 0 and each breakpoint at its distance from the old base; after a killing signal everything stays but the child; after a stop everything but the child's state |
| Outcomes.NoChildOutcome | proj4/src/debugger/cont.c:11-21 | without a child they change nothing, and end the debugger if it is RUNNING |
| Outcomes.StartOutcome | proj4/src/debugger/start.c:8-70 | a successful `start` moves base and every breakpoint by where the image of a position-independent program begins, by 0 for others, and the text is the image with 0xCC at exactly those addresses that can be written; each failure leaves the list alone |
| Outcomes.RunOutcome | proj4/src/debugger/run.c:6-24 | `run` of a loaded program is `start` then `cont`, or `start` alone with a breakpoint at the entry point; the debugger exits if the child does not come up |
| Outcomes.RunAgainOutcome | proj4/src/debugger/run.c:16-23 | `run` with a running child is `cont`, or nothing on a breakpoint |
| Outcomes.RunStopsAtFirst | proj4/src/debugger/run.c:6-24 | a trap ends `run` on the first breakpoint that the image's own run reaches, at any spacing, before that instruction runs |
| Outcomes.BreakOutcome | proj4/src/debugger/break.c:10-43 | on exactly the free addresses in range, `break` appends the next number and, with a child, plants one 0xCC and saves the eight bytes that were there; otherwise it changes nothing |
| Outcomes.DeleteOutcome | proj4/src/debugger/delete.c:9-43 | `delete` writes back the eight bytes saved with the one breakpoint it removes, and changes nothing else |
| Outcomes.DisasmOutcome | proj4/src/debugger/disasm.c:24-53 | `disasm` of a running child crashes without a view, and otherwise remembers the address behind what it showed |
| Outcomes.DisasmGoesOn | proj4/src/debugger/disasm.c:10-24 | a bare `disasm` goes on there, unless that address is 0 |
| Outcomes.OtherOutcomes | proj4/src/debugger/exit.c:6-10 | `exit` ends the debugger with everything gone; commands without their argument do nothing |
| ElfTool.SegmentFound | proj4/src/debugger/load.c:34-42 | the segment search yields the first header of type 1 with flag bits 0 and 2, and nothing if and only if there is none |
| ElfTool.SectionFound | proj4/src/debugger/load.c:44-53 | the section search yields the first section of type 1 with flag bits 1 and 2 around the entry point, and nothing if and only if there is none |
| ElfTool.StrTabsReadable | proj4/src/debugger/elftool.c:171-191 | the list is built if and only if each string table can be read |
| ElfTool.StrTabLookup | proj4/src/debugger/elftool.c:171-191 | looking up a section index in the loaded list succeeds if and only if that section is a string table, and yields its data |
| ElfTool.StrTabsDescend | proj4/src/debugger/elftool.c:187-188 | the list is in strictly descending order of section index, so it holds each once |
| Lifecycle.StartStopRestores | proj4/src/debugger/start.c:50-59 | starting and then stopping puts every breakpoint back at its address |
| Lifecycle.RelocationConserves | proj4/src/debugger/debugger.c:51-57 | while a program stays loaded, no command sequence moves a breakpoint relative to the load base modulo 2^64, or reuses an id |
| Lifecycle.RangeCheckExactlyWhen | proj4/src/debugger/break.c:19-25 | the wrapping range check accepts exactly the addresses in the text section or at its end, and none when that end wraps |
| Lifecycle.DeleteRemovesExactly | proj4/src/debugger/delete.c:14-33 | `delete n` removes exactly the breakpoint numbered n, or none, and keeps the order of the rest |
| Undo.DeleteUndoesBreak | proj4/src/debugger/delete.c:35-37 | deleting the newest breakpoint restores everything but the id counter |
| Undo.LastInFirstOutRestores | proj4/src/debugger/debugger.c:136-151 | any breaks, at any spacing, accepted or refused, and then deletes newest first: memory and list are as before |
| Disassembly.ViewIsOriginal | proj4/src/debugger/disasm.c:38-50 | no NULL dereference if and only if each native 0xCC in the window carries a breakpoint; and then the 160 bytes shown are those of the unpatched child if and only if the eight bytes from each of those on are mapped |
| Debugger.Debugger.constructor | proj4/src/debugger/debugger.c:29-43 | a fresh debugger is in the blank INIT state |
| Debugger.Debugger.BpPatch | proj4/src/debugger/debugger.c:136-144 | plants 0xCC at the target and returns the word read, or changes nothing and returns 0 |
| Debugger.Debugger.BpUnpatch | proj4/src/debugger/debugger.c:146-151 | writes all eight saved bytes back, if it can |
| Debugger.Debugger.BpFindByAddr | proj4/src/debugger/debugger.c:153-162 | the first node with the address, NULL if there is none; the walk ends |
| Debugger.Debugger.BpCheck | proj4/src/debugger/debugger.c:164-171 | the breakpoint at rip; fails when there is no child |
| Debugger.Debugger.ResetRip | proj4/src/debugger/debugger.c:173-189 | rip moves one back if and only if a breakpoint is there |
| Debugger.Debugger.UnrelocateAll | proj4/src/debugger/debugger.c:52-56 | the in-place loop moves every node down by the base, and nothing else |
| Debugger.Debugger.StopDebugger | proj4/src/debugger/debugger.c:45-63 | the new state of a stop, every address moved down by the base of a position-independent program |
| Debugger.Debugger.ResetDebugger | proj4/src/debugger/debugger.c:65-84 | the blank state; each node is freed once, in list order |
| Debugger.Debugger.FreeNodes | proj4/src/debugger/debugger.c:66-71 | the freeing walk ends and frees the nodes of the list in order, each link read before its node is freed |
| Debugger.Debugger.Cmd | proj4/src/debugger/debugger.c:114-134 | the new state for each wait status, and the exit when waitpid fails |
| Debugger.Debugger.Si | proj4/src/debugger/si.c:11-27 | the new state of a single step |
| Debugger.Debugger.Cont | proj4/src/debugger/cont.c:11-21 | the new state of `cont` |
| Debugger.Debugger.RelocateAll | proj4/src/debugger/start.c:54-59 | the in-place loop moves and patches every node, in list order |
| Debugger.Debugger.Start | proj4/src/debugger/start.c:14-70 | the new state of `start`, for each way that forking and executing can go, and the breakpoint at the entry point that it reports |
| Debugger.Debugger.Run | proj4/src/debugger/run.c:6-24 | the new state of `run` |
| Debugger.Debugger.Break | proj4/src/debugger/break.c:10-43 | the new state of `break`: a numbered node appended, or nothing changed |
| Debugger.Debugger.Append | proj4/src/debugger/break.c:30-42 | the walk to the tail ends, and the new node becomes the last of an acyclic chain |
| Debugger.Debugger.Delete | proj4/src/debugger/delete.c:9-43 | the new state of `delete`, and the node that it frees, which is no longer in the list |
| Debugger.Debugger.Unlink | proj4/src/debugger/delete.c:15-33 | the two-pointer loop takes exactly the first node with the id out of the chain and keeps it acyclic |
| Debugger.Debugger.ReadCode | proj4/src/debugger/disasm.c:38-50 | the buffer after peeking and masking, and when the masking meets a NULL |
| Debugger.Debugger.Disasm | proj4/src/debugger/disasm.c:10-54 | the new state of `disasm` |
| Debugger.Debugger.Load | proj4/src/debugger/load.c:8-67 | the new state of `load` |
| Debugger.Debugger.Session | proj4/src/sdb.c:24-35 | running a command sequence on the object is running it on the state machine |
| ElfTool.LoadStrTab | proj4/src/debugger/elftool.c:171-197 | the loop that prepends one node per string table section, or fails on a short read |
| ElfTool.StrTabsFail | proj4/src/debugger/elftool.c:192-196 | one unreadable string table makes the load fail |
| SymbolTable.RawAt | proj4/src/debugger/elftool.c:237-247 | bind and type make up info again, and every field fits its width |
| SymbolTable.DecodesEntry | proj4/src/debugger/elftool.c:237-247 | for both classes and all field values in width: the bytes of an Elf32_Sym or Elf64_Sym decode to its own name, info, other, section, value and size, with bind, type and visibility out of info and other |
| SymbolTable.DecodedLayout | proj4/src/debugger/elftool.h:38-48 | the decoded record is elf_symbol_t, field by field, whatever its gaps hold |
| SymbolTable.AssignSym | proj4/src/debugger/elftool.c:237-247 | one record decoded into its place, and nothing outside it written |
| SymbolTable.DecodeAll | proj4/src/debugger/elftool.c:249-255 | in place and for both classes, decoded record i is the decoding of the raw record i first read, and the raw tail is untouched |
| SymbolTable.LoadSymTab | proj4/src/debugger/elftool.c:210-264 | fails without the linked string table or a full read; otherwise every record of the section, decoded |
| SymbolTable.LoadedTable | proj4/src/debugger/elftool.c:210-264 | a section that is a concatenation of such records is loaded as that many symbols, symbol i with the fields of record i |
| SymbolTable.LoadFirst | proj4/src/debugger/elftool.c:266-292 | the symbol table of the first section of the type, or none |
| Registry.Dispatch | proj4/src/debugger/debugger.c:99-112 | registration by prepending, and the search by name or nickname |
| Registry.OrderDoesNotMatter | proj4/src/debugger/debugger.h:9-26 | every order of registration gives the same command, or none, for a non-empty key |
| Registry.BuiltinsUnambiguous | proj4/src/debugger/debugger.h:9-26 | the sixteen commands' names and nicknames are pairwise distinct |
| Registry.BuiltinFound | proj4/src/debugger/debugger.c:99-112 | each command is found by its name and by its nickname, whatever the link order |
| Registry.OrderFreeExactlyWhen | proj4/src/debugger/debugger.c:99-112 | for any commands and key: every order of registration finds the same if and only if no two different commands answer to the key |
| Registry.BuiltinsOrderFree | proj4/src/debugger/debugger.c:99-112 | the debugger's own sixteen commands are found independently of link order by every key but the empty one, and not by that |
| Signals.MacrosAreSetOperations | proj3/src/libmini.h:214-225 | on signals 1 to 31 the macros add, delete and test one signal; the full set is signals 1 to 28 |
| Signals.AddDeleteBits | proj3/src/libmini.h:220-223 | for every signal, which bits adding and deleting change: signal 32 takes all higher bits with it |
| Signals.NewMaskBits | proj3/src/libmini.h:151-153 | what blocking, unblocking and setting do to each bit of the mask; signals 9 and 19 are never blocked |
| JumpSpec.SetJmpFills | proj3/src/libmini.asm:115-133 | the nine words that setjmp leaves in the buffer, its pushes and the kernel's write notwithstanding |
| JumpSpec.LongJmpReturns | proj3/src/libmini.asm:139-168 | longjmp comes back at setjmp's return address with its callee-saved registers, stack pointer and mask, and val or 1, whatever happened to the stack |
| JumpSpec.LongJmpKeepsBuffer | proj3/src/libmini.asm:139-168 | longjmp and its system call write nothing to the buffer |
| JumpSpec.SetJmpKeepsRest | proj3/src/libmini.asm:115-136 | setjmp writes nothing but its buffer and its stack words, and keeps r10, rcx and the flags |
| JumpSpec.LongJmpKeepsRest | proj3/src/libmini.asm:139-168 | longjmp writes nothing but five stack words, and keeps r10 and rcx |
| JumpSpec.BufferIsReusable | proj3/src/libmini.asm:139-168 | any number of longjmps through one buffer, with anything in between that keeps it, each come back to the same place |
| JumpMachine.SysRtSigprocmask | proj3/src/libmini.asm:4-11 | the stub preserves r10, returns to its caller, and leaves what the kernel call leaves |
| JumpMachine.SetJmp | proj3/src/libmini.asm:115-136 | the whole state that the instructions of setjmp end in |
| JumpMachine.LongJmp | proj3/src/libmini.asm:139-168 | the whole state that the instructions of longjmp end in |
| JumpSpec.ComparedFlags | proj3/src/libmini.asm:163-164 | the flags after comparing the value with 0, bit by bit, of which the jump reads the zero flag |

## Left out

- proj1 and proj2: scanning of /proc, formatting, and wrappers around library calls that are not part of this model.
- The C wrappers, errno mapping, `alarm`, `sleep` and `sigrestore` of proj3: single branches, or kernel behaviour.
- `get`, `set`, `getregs`, `list`, `help`, `vmmap` and `dump`: table lookups and printing; `set` changes the child's registers at will.
- Printing, argument parsing and the disassembler: commands come with parsed arguments and with the number of bytes disassembled.
- Debugger.Debugger.Disasm: takes the number of bytes shown as an argument; for a loaded, not running program the file read is part of that argument.
- Asynchronous signals: a signal stop is modelled only where an instruction raises it, and the debugger then suppresses it.
- The instruction set: a parameter, deterministic, that neither reads nor writes the text.
- Time: a resumed child is watched for a given number of steps, and `waitpid` is then still waiting; every statement is for all such numbers.
- Debugger.Debugger.Break: does not model the overflow of the int breakpoint counter.
- Pokes across the end of a mapping: modelled as changing nothing; a kernel may write the mapped bytes of the word before it reports the failure.
- Process ids: a dead child's id is taken never to name another process.
- Debugger.Debugger.ResetDebugger: a freed node is one handed back in `freed`, as by `Delete`; the C heap itself is not modelled.
- SymbolTable.LoadSymTab: does not model failing allocations or a symbol count beyond int.
- ELF program and section header copying, and `ldump`, which only `dump` uses.
- The stack and buffer of setjmp and longjmp overlapping or unmapped: the ABI and ISO C rule both out, and the routines require so.
