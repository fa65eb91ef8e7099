# What this project proves about melonDS

A model, in Dafny, of the parts of the emulator whose correctness rests on an invariant or on a whole run,
with proofs about every input, every run and every reachable state.

- **RegisterCache.dfy** - the register cache of the recompiler as a class over the guest and native register
  arrays. A block run through it ends in the guest registers of direct execution, where an instruction is executed
  exactly if its condition holds; it never gets stuck, and it evicts a least-ranked register only for want of room.
- **FlagElimination.dfy** - dead-flag elimination by backward flooding. `SetFlags` is exactly liveness over
  paths, and computing no other flag changes nothing that is ever read: all flags are right before interpreted
  instructions, at followed branches and at the end.
- **IdleLoop.dfy** - idle-loop detection. What it accepts changes nothing on a second iteration if no instruction
  but the final branch is conditional and its flags are settled: no register, no flag, no memory. In general a body is idle, whatever its
  instructions compute, exactly if none of them leaves anything that may differ (`IdleLoop.IdleIff`).
- **CodeBlocks.dfy, CodeIndex.dfy** - the words a block is compiled from, its ranges and masks, and the four-way
  index of blocks as a class, in ARM and THUMB state. Self-modifying code leaves no stale block behind as long as
  the way of a block depends on nothing but the words in it. With branch optimisations it can: a restored
  candidate is compared by instruction words, chunks and start address only, not by the addresses of its
  instructions. The model keeps the code as it is, gives such a run, states the exact condition under which
  restoring is sound, and proves every run that meets it. A literal that is stored to is not compiled in again
  before the next reset.
- **ArmState.dfy, BankedRegisters.dfy, NestedExceptions.dfy, ArmLaws.dfy** - modes, banks and exceptions. The reference is a
  register file in which a mode change moves nothing (DDI 0100, sections A2.3 to A2.6); the code, which swaps
  registers with bank arrays, is a class proved against it. Properly nested
  exceptions leave no trace but what their handlers write and the link registers and saved statuses of the
  modes entered. The laws say in numbers what the reference does: the bytes that MSR writes, the rotation of its
  immediate, the table of exceptions, jumps, and which modes share which registers.
- **BlockTransfer.dfy, BlockLaws.dfy** - LDM, STM, PUSH and POP in all addressing modes (DDI 0100, sections A5.4.1 to
  A5.4.4), loads that undo stores, and the state in which a loaded program counter is run.
- **CheatEngine.dfy, CheatLaws.dfy, CheatBlocks.dfy, CheatMemory.dfy** - the Action Replay machine. The interpreter over raw words
  terminates and refines a machine over parsed lines that counts conditions. IF and ENDIF behave as blocks
  exactly if no false IF contains another IF and no more than 32 conditions are open at once. The payload opcode
  is exact exactly for aligned destinations or less than a word; the copying opcode exactly if source and
  destination are the same, or the copy does not run into what it has yet to read and both are aligned or less
  than a word is copied. The laws are about short cheats: what every IF compares, and what every data opcode makes
  of a word.
- **CheatFile.dfy, CheatFileLaws.dfy** - the cheat code file. Loading what was saved gives the finalized list,
  character by character through models of `scanf` and the line reader. The laws are about lines that the printer
  does not write: comments, small letters, old categories, signs and prefixes, and what is malformed.
- **PacketStore.dfy** - netplay packets on a 16-bit wrapping clock: which ticks a push evicts, a bound on the store
  in steady runs that is reached, and a lookup by least cyclic age.
- **MultiWord.dfy** - chains of ADDS/ADCS and SUBS/SBCS over numbers of any length, with the limbs in memory or in
  registers.
- **InputSpans.dfy** - compression of predicted inputs into spans, and uniqueness of the result.

State that the source updates in place is a class with `modifies` clauses. Every state-changing method states its
whole new state, mostly as equal to a specification function of the old one, and the lemmas are about those
functions. Hashes are the hashed sequences themselves, so they are injective. Bit sets are sets.

Findings, where the code does not do what its comments or its purpose suggest:

- `CompileBlock` can restore a stale block with branch optimisations on (`CodeBlocks.BranchRestoreIsStale`,
  `CodeIndex.StaleRun`; the exact condition is `CodeBlocks.RestoreIsSoundIff`).
- `InvalidateByAddr` drops every block of the touched 512-byte range, because the inner `mask` hides the outer one
  (src/ARMJIT.cpp:988 and 996). The model does so, too.
- `IsIdleLoop` accepts bodies with conditional instructions before the branch that are not idle
  (`IdleLoop.ConditionalBodyIsNotIdle`; the exact condition is `IdleLoop.IdleIff`).
- An ENDIF under a false IF that contains another IF closes too much (`CheatBlocks.NestedFalseIf`), and a 33rd open
  condition is lost (`CheatBlocks.ThirtyThreeIfs`). The exact condition for both is
  `CheatBlocks.BlocksRestoreIff`.
- The payload opcode writes to bytes before an unaligned destination (`CheatMemory.PasteExactIff`), and the copying
  opcode puts words in the wrong place between unaligned addresses and repeats bytes when it copies to a little
  above its source (`CheatMemory.CopyExactIff`).
- Packets of the last turn of the 16-bit clock stay in the store until the clock is back at them
  (`PacketStore.AheadStays`), and the lookup does not reduce its tick modulo 65536 (`PacketStore.ExactTick`).

## Model

| member | source | states |
|---|---|---|
| RegisterCaching.RegisterCache.RunBlock | src/ARMJIT_x64/ARMJIT_Compiler.cpp:776-906 | a block of any instructions, run through the cache up to any exit, leaves guest registers 0 to 14 in memory and the rest of the world as direct execution does, which executes an instruction exactly if its condition holds; those of THUMB state and of condition codes from 0xE on always are executed |
| RegisterCaching.RegisterCache.Prepare | src/ARMJIT_RegisterCache.h:122-200 | never gets stuck; afterwards every necessary register is loaded, those not strictly needed are as far as there is room, and every destination that is loaded is dirty; guest registers are kept but those overwritten unseen; evicts only unneeded, least-ranked registers, and only if they do not all fit |
| RegisterCaching.RegisterCache.MakeRoom | src/ARMJIT_RegisterCache.h:152-174 | the eviction loop ends with room for the missing registers, drops no necessary register and no guest value |
| RegisterCaching.RegisterCache.PickVictim | src/ARMJIT_RegisterCache.h:159-170 | finds a register that is loaded, not necessary and of least rank among those, given that there is one |
| RegisterCaching.VictimExists | src/ARMJIT_RegisterCache.h:155-170 | while the missing registers do not fit, some loaded register is not necessary, if the necessary ones alone fit |
| RegisterCaching.RanksBounded | src/ARMJIT_RegisterCache.h:134-144 | in blocks of at most 32 instructions every rank is below the 1000 the search starts from |
| RegisterCaching.FutureUses | src/ARMJIT_RegisterCache.h:133-144 | a register is needed in future exactly if this or a later instruction reads it (unless it is register 15) or writes it |
| RegisterCaching.RankCounts | src/ARMJIT_RegisterCache.h:134-144 | the rank of a register is the number of those instructions that strictly need it |
| RegisterCaching.SkippedIsSeen | src/ARMJIT_RegisterCache.h:176-180 | an instruction that may be skipped is never taken for one that overwrites its destinations unseen |
| RegisterCaching.OverwrittenIff | src/ARMJIT_RegisterCache.h:176-181 | the registers that are loaded without their value are exactly those that no behaviour of an instruction with these registers and this condition code depends on, where instructions of THUMB state and condition codes from 0xE on always execute |
| RegisterCaching.RegisterCache.LoadRegister | src/ARMJIT_RegisterCache.h:68-89 | takes the first free native register in allocation order; the abort is never reached while fewer registers are loaded than there are |
| RegisterCaching.FreeNativeRegister | src/ARMJIT_RegisterCache.h:71-88 | if fewer guest registers are loaded than native registers exist, one of those is free |
| RegisterCaching.UsedIsImage | src/ARMJIT_RegisterCache.h:55-66 | the used native registers are exactly the image of the injective mapping |
| RegisterCaching.RegisterCache.UnloadRegister | src/ARMJIT_RegisterCache.h:55-66 | the state after is that of the specification of unloading |
| RegisterCaching.UnloadKeepsGuest | src/ARMJIT_RegisterCache.h:55-66 | unloading writes a dirty value back first, so no guest register changes |
| RegisterCaching.LoadKeepsGuest | src/ARMJIT_RegisterCache.h:68-83 | loading changes no guest register; without its value the register is pending until it is written |
| RegisterCaching.MarkDirtyKeepsGuest | src/ARMJIT_RegisterCache.h:199-199 | marking coherent registers dirty keeps what is guest-visible |
| RegisterCaching.RegisterCache.RankFutureUses | src/ARMJIT_RegisterCache.h:133-144 | the ranking counts the strict future uses of each register, the set has all future uses |
| RegisterCaching.RegisterCache.DropUnused | src/ARMJIT_RegisterCache.h:126-149 | drops register 15, overwritten literals and exactly the registers never used again |
| RegisterCaching.RegisterCache.Execute | src/ARMJIT_x64/ARMJIT_Compiler.cpp:829-900 | an instruction on the cached registers does what it does on the guest registers, whether its condition holds or not, and finds every register that it strictly needs in a native one |
| RegisterCaching.RegisterCache.PrepareExit | src/ARMJIT_RegisterCache.h:107-112 | brings all guest registers into memory |
| RegisterCaching.RegisterCache.Flush | src/ARMJIT_RegisterCache.h:114-120 | brings all guest registers into memory and empties the cache |
| RegisterCaching.RegisterCache.PutLiteral | src/ARMJIT_RegisterCache.h:91-95 | literals marked loaded keep equal to the guest value |
| RegisterCaching.ConstantsHold | src/ARMJIT_RegisterCache.h:91-105 | the constants an unconditional instruction announces are the values it leaves |
| FlagElimination.FloodFillSetFlags | src/ARMJIT.cpp:292-308 | one flood adds to every instruction exactly the flags it sets that are still wanted there |
| FlagElimination.WantedIsKept | src/ARMJIT.cpp:292-308 | a flag is still wanted somewhere exactly if no instruction between there and the reader surely overwrites it |
| FlagElimination.EliminateDeadFlags | src/ARMJIT.cpp:863-867 | after the floods of a block, `SetFlags` has exactly the flags an instruction may set and some path reads |
| FlagElimination.StepIs | src/ARMJIT_x64/ARMJIT_ALU.cpp:408-417 | the instruction sees the flags it reads, all of them if it is interpreted or a followed branch, sets and clears exactly the flags it writes, and compiled code keeps those outside `SetFlags` |
| FlagElimination.ElisionKeepsLive | src/ARMJIT.cpp:863-867 | computing only `SetFlags` keeps all other state and every live flag at every point |
| FlagElimination.ElisionPreservesMeaning | src/ARMJIT.cpp:861-867 | after every instruction the state, the flags that the next one reads and, before an interpreted instruction, at a followed branch and at the end, all flags are those of full execution |
| IdleLoop.IsIdleLoop | src/ARMJIT.cpp:398-427 | accepts exactly the harmless bodies in which no register that carries a value into an iteration is written after being read |
| IdleLoop.AcceptedIsIdle | src/ARMJIT.cpp:398-427 | an accepted body of unconditional instructions and a final, possibly conditional, branch changes no register and no flag on a second iteration, if every flag it reads is set before in it or not set from there on |
| IdleLoop.AcceptedRunsThrough | src/ARMJIT.cpp:398-427 | an accepted body of any instructions runs from its first to its last instruction without a jump and leaves memory, modes and coprocessors as they are |
| IdleLoop.AcceptedLoopIsIdle | src/ARMJIT.cpp:398-427 | so, under the same conditions, a second iteration that sees memory changes nothing at all |
| IdleLoop.IdleIff | src/ARMJIT.cpp:405-426 | a second iteration changes nothing, for all that the instructions may compute and all states, exactly if no location is stirred at the end: written by an instruction that may read something else than in the first iteration, and not certainly rewritten by one that may not |
| IdleLoop.SecondIteration | src/ARMJIT.cpp:405-426 | before every instruction the two iterations agree on what has been written and its values, outside the stirred locations |
| IdleLoop.SelfContainedIsIdle | src/ARMJIT.cpp:405-425 | a body that rewrites nothing it reads from before is idempotent |
| IdleLoop.ConditionalBodyIsNotIdle | src/ARMJIT.cpp:405-426 | an accepted body of a conditional move and a loop-closing BEQ whose second iteration does change a register while the branch is taken |
| CodeBlocks.BuildIsExact | src/ARMJIT.cpp:661-680 | ranges and masks of a block have exactly the chunks of the words it was compiled from |
| CodeBlocks.RangesAreExact | src/ARMJIT.cpp:661-680 | a block lists exactly the ranges it has words in |
| CodeBlocks.ChunksAre | src/ARMJIT.cpp:660-680 | a chunk is 16 bytes of memory and a range 512 bytes of 32 chunks |
| CodeBlocks.HalvesAreWord | src/ARMJIT.cpp:682-705 | the halves that THUMB fetches see make up the word |
| CodeBlocks.RecordFetch | src/ARMJIT.cpp:661-680 | the range of a fetched instruction is moved to the end or appended, and its chunk marked there |
| CodeBlocks.RecordLiteral | src/ARMJIT.cpp:758-771 | the range of a literal is found or appended, and its chunk marked there |
| CodeBlocks.AccessesDetermined | src/ARMJIT.cpp:889-919 | for instructions at given addresses, the hashed instruction and literal words determine everything that was read |
| CodeBlocks.PathDetermined | src/ARMJIT.cpp:641-655 | where the way of a block depends on its words alone, blocks of the same start and words are at the same addresses |
| CodeBlocks.StraightIsPath | src/ARMJIT.cpp:641-655 | without branch optimisations every block is such a way, with instructions four bytes apart in ARM and two in THUMB state |
| CodeBlocks.PathRestoreIsSound | src/ARMJIT.cpp:892-920 | a restored candidate whose way depends on its words alone was compiled from what is now in memory, in ARM and THUMB state |
| CodeBlocks.RestoreIsSoundIff | src/ARMJIT.cpp:892-920 | a restored candidate is right in all memories exactly if what it was compiled from follows, word by word, from what the new fetch has read |
| CodeBlocks.WithinWords | src/ARMJIT.cpp:892-920 | in ARM state this is that the new fetch has read every word the candidate was compiled from |
| CodeBlocks.BranchRestoreIsStale | src/ARMJIT.cpp:892-920 | with branch optimisations all tests for restoring pass for a block that memory contradicts |
| CodeIndex.ARMJIT.CompileBlock | src/ARMJIT.cpp:577-980 | the four indexes stay consistent; the block of the address is the live one, a restored candidate or a new one, and reachable |
| CodeIndex.ARMJIT.Fetch | src/ARMJIT.cpp:645-771 | the accesses of the block, its hashes, literals, ranges and masks are those of the words in memory |
| CodeIndex.ARMJIT.ChooseBlock | src/ARMJIT.cpp:892-953 | the candidate with the hash is taken out, and restored or deleted |
| CodeIndex.ARMJIT.ListEverywhere | src/ARMJIT.cpp:955-970 | the block is listed once more in exactly its ranges, their bitmaps grow by its masks, their pages are protected |
| CodeIndex.ARMJIT.InvalidateByAddr | src/ARMJIT.cpp:982-1074 | exactly the blocks with the touched range are dropped, retired or deleted; the address becomes an invalid literal exactly if one of them has loaded it; all indexes stay consistent |
| CodeIndex.ARMJIT.DropBlock | src/ARMJIT.cpp:1014-1072 | one block leaves the map, its ranges, the fast table and the protection; if it has loaded the literal at the address it is deleted and the literal becomes invalid, else it is retired |
| CodeIndex.ARMJIT.CheckAndInvalidate | src/ARMJIT.h:63-69 | invalidates exactly if the chunk is marked, and leaves it unmarked |
| CodeIndex.ARMJIT.GuardedWrite | src/ARMJIT.h:63-69 | a guarded store leaves no live block that memory contradicts; it takes out every block with a word in the same 16 bytes and none without one in the same 512 bytes |
| CodeIndex.StoreTakesOut | src/ARMJIT.cpp:982-1012 | what a store takes out, by the addresses of the words that blocks were compiled from |
| CodeIndex.StoredLiteralIsNotLoaded | src/ARMJIT.cpp:755-771 | after a store to a literal of a live block, nothing read on an arrival before the next reset has that literal |
| CodeIndex.StoredLiteralIsNotLive | src/ARMJIT.cpp:1020-1034 | in a run along ways that depend on the words alone, neither does any block that could be run |
| CodeIndex.InvalidWasStored | src/ARMJIT.cpp:1020-1034 | only such stores make a literal invalid |
| CodeIndex.ARMJIT.RetireJitBlock | src/ARMJIT.cpp:526-538 | the block becomes the candidate of its hash and the one before is deleted |
| CodeIndex.ARMJIT.LookUpBlock | src/ARMJIT.cpp:1110-1116 | what the fast table gives is the live block of that address |
| CodeIndex.ARMJIT.ResetBlockCache | src/ARMJIT.cpp:1157-1202 | every index is empty and every block is freed |
| CodeIndex.ARMJIT.PageContainsCode | src/ARMJIT_Internal.h:88-96 | true exactly if some range of the page lists a block |
| CodeIndex.ARMJIT.SetCodeProtection | src/ARMJIT_Memory.cpp:499-521 | changes the protection of one page; the assertion that it was the opposite before never fails in compiling, invalidating or resetting |
| CodeIndex.WordsAreMarked | src/ARMJIT.cpp:962-969 | the chunk of every word of a live block is marked in the bitmap of its range |
| CodeIndex.UnmarkedWriteKeepsFresh | src/ARMJIT.h:63-69 | a store to an unmarked chunk contradicts no live block |
| CodeIndex.ARMJIT.Dispatch | src/ARMJIT.cpp:577-980 | with any instructions, what is run is what memory holds if what the candidate restored for it was compiled from follows from what was just read |
| CodeIndex.ARMJIT.DispatchOnPath | src/ARMJIT.cpp:577-980 | along a way that depends on the words alone, what is run is always what memory holds |
| CodeIndex.ARMJIT.Run | src/ARMJIT.cpp:577-1202 | arrivals with any instructions, stores and resets are a run of the index; if every restore in it follows from what was just read, or every arrival compiles along a way that depends on the words alone, then all that is dispatched and all that could be is what memory holds |
| CodeIndex.SafeRunIsFresh | src/ARMJIT.cpp:577-1202 | in every run whose restores follow from what was just read, all blocks that could be run are at all times what memory holds |
| CodeIndex.RunAlongPathsIsSafe | src/ARMJIT.cpp:577-1202 | in every run along ways that depend on the words alone, all restores follow from what was just read |
| CodeIndex.StraightRunIsAlongPaths | src/ARMJIT.cpp:641-655 | all runs without branch optimisations are of that kind |
| CodeIndex.StaleRun | src/ARMJIT.cpp:892-979 | a run with branch optimisations that ends with a stale block in the fast table |
| BankedRegisters.SwapKeepsFile | src/ARM.cpp:3486-3550 | exchanging the registers of a bank moves nothing in the architected register file |
| BankedRegisters.CurrentIsInR | src/ARM.cpp:3482-3559 | `R` holds the registers of the current mode: reading and writing there is reading and writing the architected file |
| BankedRegisters.ARM.UpdateMode | src/ARM.cpp:3482-3559 | the register file and saved statuses are unchanged by a mode switch; on the ARM9 the user map is in use exactly in mode 0x10 |
| BankedRegisters.ARM.RestoreCPSR | src/ARM.cpp:3440-3480 | the status becomes the saved one of the mode, with bit 4 set; the file is unchanged |
| BankedRegisters.ARM.JumpTo | src/ARM.cpp:3281-3438 | a jump lands aligned and in the right state, or ends in a prefetch abort if nothing may be fetched there |
| ArmLaws.JumpIs | src/ARM.cpp:3350-3394 | bit 0 of the address selects the state, the program counter is one instruction ahead of the aligned address |
| BankedRegisters.ARM.PrefetchAbort | src/ARM.cpp:3584-3627 | status and return address are saved in abort mode, unless the vectors may not be fetched |
| ArmLaws.PrefetchAbortIs | src/ARM.cpp:3584-3627 | abort mode, vector 0x0C, link and saved status, in numbers |
| BankedRegisters.ARM.TriggerIRQ | src/ARM.cpp:3561-3573 | entry to IRQ mode as the architecture says; nothing while masked |
| ArmLaws.InterruptIs | src/ARM.cpp:3561-3573 | masked by bit 7; else IRQ mode with both interrupts masked, vector 0x18, link and saved status, in numbers |
| BankedRegisters.ARM.DataAbort | src/ARM.cpp:3742-3750 | entry to abort mode as the architecture says |
| ArmLaws.DataAbortIs | src/ARM.cpp:3742-3750 | abort mode, vector 0x10, link and saved status, in numbers |
| BankedRegisters.ARM.A_SVC | src/ARMInterpreter.cpp:267-277 | entry to supervisor mode from ARM state |
| BankedRegisters.ARM.T_SVC | src/ARMInterpreter.cpp:279-289 | entry to supervisor mode from THUMB state |
| ArmLaws.SoftwareInterruptIs | src/ARMInterpreter.cpp:267-289 | supervisor mode, vector 0x08, link and saved status, in numbers, from both states |
| BankedRegisters.ARM.A_UNK | src/ARMInterpreter.cpp:37-53 | entry to undefined mode from ARM state |
| BankedRegisters.ARM.T_UNK | src/ARMInterpreter.cpp:55-70 | entry to undefined mode from THUMB state |
| ArmLaws.UndefinedIs | src/ARMInterpreter.cpp:37-70 | undefined mode, vector 0x04, link and saved status, in numbers, from both states |
| BankedRegisters.ARM.WriteStatus | src/ARMInterpreter.cpp:74-178 | MSR writes the permitted bits, with bit 4 set, of the status (which may change the mode) or of the saved one |
| ArmLaws.MsrWritesStatus | src/ARMInterpreter.cpp:98-119 | MSR to CPSR: for each of the four field bits, the byte of the value or the old byte; bit 4 forced and bit 5 kept in the low byte, which user mode does not write; nothing else changes |
| ArmLaws.MsrWritesSaved | src/ARMInterpreter.cpp:77-119 | MSR to a saved status: the same bytes of the status of the mode, with bit 4 forced, and nothing else; lost where there is none |
| ArmLaws.RotationMovesBits | src/ARMInterpreter.cpp:113-113 | the immediate is rotated to the right: the low bits go to the top, the others to the bottom |
| ArmLaws.ImmediateRotation | src/ARMInterpreter.cpp:113-113 | by twice the number in bits 8 to 11 |
| ArmLaws.WrittenIsSeen | src/ARM.cpp:3482-3559 | what is written to a register in one mode is seen in exactly the modes that share it |
| ArmLaws.SamePlace | src/ARM.cpp:3482-3550 | what counts as one register in the statements on nested exceptions is one register in fact: registers of two modes are the same place exactly if those modes share it |
| BankedRegisters.ARM.A_MSR_IMM | src/ARMInterpreter.cpp:74-125 | MSR of a rotated immediate |
| BankedRegisters.ARM.A_MSR_REG | src/ARMInterpreter.cpp:127-178 | MSR of a register |
| BankedRegisters.ARM.Reset | src/ARM.cpp:3143-3196 | establishes the invariant: supervisor mode, bit 4 in every status register, and a jump to the first vector |
| BankedRegisters.ARM.ReturnFromException | src/ARMInterpreter_ALU.cpp:325-340 | SUBS pc, lr: the flags it sets are overwritten by the saved status, then it jumps |
| ArmLaws.FlagsAreTop | src/ARM.h:110-117 | flags are the top four bits of the status |
| BankedRegisters.ARM.Execute | src/ARM.cpp:3281-3627 | every program of MSR, register writes, branches and exceptions with handlers keeps the invariant and does what the architected state does |
| NestedExceptions.ExceptionsRestore | src/ARM.cpp:3281-3573 | any properly nested exceptions, with `Fetchable` (every instruction of the run may be fetched), give back mode, registers and saved statuses but the registers written by handlers and LR and SPSR of the modes entered, and the exception itself CPSR and program counter, in ARM and THUMB state |
| NestedExceptions.ProgramsRestore | src/ARM.cpp:3281-3573 | the same for every sequence of steps in a handler, with the same hypothesis |
| NestedExceptions.EntryIs | src/ARMInterpreter.cpp:37-70 | an entry saves the status and the link in the bank of the mode and changes nothing else of the file |
| NestedExceptions.ReturnIs | src/ARM.cpp:3440-3480 | the matching return brings status and program counter back and moves nothing else |
| NestedExceptions.AbortedJumpCompletes | src/ARM.cpp:3390-3394 | a jump that aborted is completed by SUBS pc, lr, #4 once its target may be fetched |
| NestedExceptions.MsrKeeps | src/ARMInterpreter.cpp:95-124 | an MSR to CPSR never changes the state bit, bit 4 stays set, and the mode stays exactly if the low byte is not written, the mode is user mode, or the value names the same mode |
| BlockTransfer.A_STM | src/ARMInterpreter_LoadStore.cpp:469-528 | memory and registers after STM in all four modes, with the user bank and a listed base; an S-bit store leaves every bank as it was but for the written-back base |
| BlockTransfer.A_LDM | src/ARMInterpreter_LoadStore.cpp:393-467 | registers after LDM in all four modes, with the user bank, a listed base, and the program counter |
| BlockTransfer.T_PUSH | src/ARMInterpreter_LoadStore.cpp:694-721 | PUSH is STMDB r13! of the same list with r14 |
| BlockTransfer.T_POP | src/ARMInterpreter_LoadStore.cpp:723-751 | POP is LDMIA r13! of the same list, with a jump before the stack pointer is written back |
| BlockTransfer.StoredWords | src/ARMInterpreter_LoadStore.cpp:499-520 | the k-th lowest listed register is in the word 4k after the start address and no other word changes |
| BlockTransfer.LoadRegister | src/ARMInterpreter_LoadStore.cpp:417-459 | each register of the bank has the written-back base, the word 4k after the start for the k-th lowest listed one, or its old value |
| BlockTransfer.WordsDiffer | src/ARMInterpreter_LoadStore.cpp:499-520 | the words of one transfer are different, across a wraparound of the address, too |
| BlockTransfer.RoundTrip | src/ARMInterpreter_LoadStore.cpp:393-528 | LDM in the mirrored mode after STM restores the listed registers and the base, whatever ran in between and kept the base and the block |
| BlockTransfer.PushPopReturns | src/ARMInterpreter_LoadStore.cpp:694-751 | POP after PUSH restores the listed registers and the stack pointer and jumps to the pushed return address |
| BlockLaws.Fields | src/ARMInterpreter_LoadStore.cpp:395-414 | the bits of the instruction for write-back, user bank, direction and order, the base register and the list |
| BlockLaws.BaseAfterLoad | src/ARMInterpreter_LoadStore.cpp:441-458 | a loaded base is written back if it is not in the list; else on the ARM9 alone, if it is the whole list or some register above it is in the list |
| BlockLaws.BankedBase | src/ARMInterpreter_LoadStore.cpp:487-495 | an S-bit store finds its base in another bank exactly if the mode has a register of its own there, or is a reserved one |
| BlockLaws.LoadedPcRuns | src/ARMInterpreter_LoadStore.cpp:429-464 | bit 0 of a loaded program counter selects the state on the ARM9; the ARM7 stays in ARM state |
| BlockLaws.PoppedPcRuns | src/ARMInterpreter_LoadStore.cpp:739-745 | bit 0 of a popped program counter selects the state on the ARM9; the ARM7 stays in THUMB state |
| CheatEngine.RunCheat | src/AREngine.cpp:42-418 | terminates on every cheat of whole lines, by words after the loop start, loop count and words after the position, and leaves the memory of the reference machine |
| CheatEngine.Execute | src/AREngine.cpp:65-82 | one turn of the interpreter is one step of the reference machine; a skipped payload line moves the position as far as one that runs |
| CheatEngine.Step | src/AREngine.cpp:59-417 | every step of the reference machine keeps its invariant and decreases the termination measure |
| CheatEngine.PushOne | src/AREngine.cpp:98-110 | shifting a one into the packed stack counts one up and saturates at 32 |
| CheatEngine.PopOne | src/AREngine.cpp:251-254 | the bit shifted out of the packed stack says whether the count was positive, and counts one down |
| CheatEngine.Paste | src/AREngine.cpp:358-387 | writing two words at a time and then a leftover is writing the payload word by word |
| CheatEngine.SkipPayload | src/AREngine.cpp:75-79 | skips exactly the words that running would consume |
| CheatLaws.IfStores | src/AREngine.cpp:98-208 | IF, store, ENDIF: the word is stored exactly if the comparison of the opcode holds between `b` and the word, or the halfword without the bits of the mask, at the address or the offset |
| CheatLaws.DataCheat | src/AREngine.cpp:288-330 | load, data opcode, store: the word in memory is what the opcode stands for, in numbers or bit by bit |
| CheatLaws.WholeLines | src/AREngine.cpp:58-80 | any lines with complete payloads, `b` bytes filled up to a multiple of eight for the opcodes 0xE0 to 0xEF and none for other ones, are a cheat that the interpreter accepts and takes for just these lines |
| CheatLaws.LogicOnBits | src/AREngine.cpp:292-294 | AND, OR and XOR on every bit |
| CheatLaws.ShiftArithmeticIs | src/AREngine.cpp:309-313 | the arithmetic shift divides the signed number, rounding down |
| CheatLaws.RotateBack | src/AREngine.cpp:306-308 | rotating on by what is left to a full turn gives the word back |
| CheatLaws.MaskedHalfword | src/AREngine.cpp:155-161 | the mask takes the bits of the high half of `b` out of the halfword |
| CheatLaws.Store16 | src/AREngine.cpp:90-92 | a stored halfword is read back, and no other one changes |
| CheatLaws.Store32 | src/AREngine.cpp:86-88 | a stored word is read back, and no other one changes |
| CheatLaws.ReadIsBytes | src/AREngine.cpp:342-352 | words and halfwords are bytes in memory, the lowest first |
| CheatLaws.FalseConditionSkips | src/AREngine.cpp:70-82 | under a false condition only 0xC5, which counts, and 0xD0 to 0xD2 do anything |
| CheatMemory.PasteExactIff | src/AREngine.cpp:358-387 | the payload arrives byte for byte and nothing else changes, for all payloads and memories, exactly if the destination is aligned or no whole word is written |
| CheatMemory.CopyExactIff | src/AREngine.cpp:389-411 | every byte arrives and nothing else changes, for all memories, exactly if source and destination are the same, or the destination is not above the source within its range and both are aligned or no whole word is copied |
| CheatMemory.FirstWord | src/AREngine.cpp:393-401 | wherever the two start, the first word goes from the word of the source to the word of the destination and stays there |
| CheatBlocks.BlocksRestoreIff | src/AREngine.cpp:65-82 | from every state under a true condition, matched IFs and ENDIFs give back condition and depth exactly if no false IF contains another and the depth plus the conditions really opened is at most 32, and then the cheat runs on what the blocks mean |
| CheatBlocks.LevelFalls | src/AREngine.cpp:251-254 | blocks never raise the level of open conditions, and one with conditions that starts closed lowers it |
| CheatBlocks.NestedFalseIf | src/AREngine.cpp:70-82 | a store that runs though its condition is false |
| CheatBlocks.SaturatedIf | src/AREngine.cpp:98-110 | a true IF at depth 32 and its ENDIF lose a condition |
| CheatBlocks.NestPast | src/AREngine.cpp:98-110 | where any number of nested true IFs and their ENDIFs leave condition and depth |
| CheatBlocks.ThirtyThreeIfs | src/AREngine.cpp:98-110 | a cheat of 33 nested true IFs whose following store is skipped |
| CheatFile.LoadOfSave | src/ARCodeFile.cpp:70-293 | loading the printed text of a well-formed list gives the finalized list |
| CheatFile.LoadOfSaveAgain | src/ARCodeFile.cpp:70-293 | a finalized list comes back as it is |
| CheatFile.ARCodeFile.Load | src/ARCodeFile.cpp:70-234 | a file is parsed line by line into the specified list or, if malformed, into what precedes the bad line |
| CheatFile.ARCodeFile.Save | src/ARCodeFile.cpp:236-293 | the text is the specified one |
| CheatFile.ARCodeFile.FinalizeList | src/ARCodeFile.cpp:373-398 | the list is the specified one |
| CheatFile.OnlyFirstStays | src/ARCodeFile.cpp:386-396 | exactly the first enabled code stays enabled, nothing else changes |
| CheatFile.FinalizedTwice | src/ARCodeFile.cpp:373-398 | finalizing is idempotent |
| CheatFile.FinalizedCategories | src/ARCodeFile.cpp:373-398 | at most one code is enabled in each category that allows one |
| CheatFile.TextIsLines | src/ARCodeFile.cpp:86-95 | feeding a text in buffers of 1023 characters is feeding it line by line if its lines fit |
| CheatFile.HexIsScanned | src/ARCodeFile.cpp:208-210 | what is printed with eight hexadecimal digits is scanned as the same word |
| CheatFileLaws.OldCategory | src/ARCodeFile.cpp:120-126 | a CAT line without a number is a category in which any number of codes may be enabled |
| CheatFileLaws.SmallKeywords | src/ARCodeFile.cpp:110-193 | CAT and CODE in small letters are malformed, DESC in small letters is ignored |
| CheatFileLaws.RootInAnyLetters | src/ARCodeFile.cpp:102-109 | ROOT in any letters goes back to the root |
| CheatFileLaws.CodeWithNumber | src/ARCodeFile.cpp:151-184 | any number but zero enables a code; a code before the first category is an error |
| CheatFileLaws.CodeWithoutNumber | src/ARCodeFile.cpp:155-163 | a CODE line without a number is malformed |
| CheatFileLaws.DescriptionGoes | src/ARCodeFile.cpp:186-204 | a description goes to the last code or category, is an error after ROOT, and is ignored without text |
| CheatFileLaws.DataInAnyLetters | src/ARCodeFile.cpp:206-227 | two hexadecimal numbers in any letters are added to the code, and are an error outside one |
| CheatFileLaws.SignedHexIsScanned | src/ARCodeFile.cpp:208-209 | signs and prefixes count among the eight characters of a number; a minus sign negates it modulo 2^32 |
| CheatFileLaws.OneWordAlone | src/ARCodeFile.cpp:211-216 | a data line of one word is malformed |
| CheatFileLaws.StartsOutside | src/ARCodeFile.cpp:79-85 | before the first category, codes, descriptions and data are errors |
| CheatFileLaws.CommentIsSkipped | src/ARCodeFile.cpp:99-100 | comments and empty lines change nothing |
| CheatFileLaws.BlanksAreSkipped | src/ARCodeFile.cpp:95-97 | neither do blanks in front of a line |
| CheatFileLaws.LineIsCut | src/ARCodeFile.cpp:87-93 | a line is read up to its line break or 1023 characters of it |
| PacketStore.LivePackets.Push | src/ARM.cpp:1075-1092 | the store after a push, with eviction |
| PacketStore.PushEvicts | src/ARM.cpp:1087-1091 | exactly which ticks a push evicts |
| PacketStore.RecentStays | src/ARM.cpp:1087-1091 | no push, in any order, evicts a tick of cyclic age up to 256 |
| PacketStore.AheadStays | src/ARM.cpp:1087-1091 | no push evicts a tick above its own |
| PacketStore.PushStores | src/ARM.cpp:1080-1085 | the pushed packet is there, the other player's packet of the tick is kept |
| PacketStore.TickBytes | src/ARM.cpp:1080-1080 | the first two bytes of a packet are its tick, the lower one first |
| PacketStore.SteadyRunIsSmall | src/ARM.cpp:1075-1092 | with ticks that stay or advance by one modulo 65536, the store never holds more than 769 ticks |
| PacketStore.BoundIsReached | src/ARM.cpp:1075-1092 | a steady run across a wraparound that fills it with 769 |
| PacketStore.LivePackets.Find | src/ARM.cpp:1118-1206 | the packet of the tick or else the valid one of least cyclic age within the window, in both modes |
| PacketStore.LivePackets.Scan | src/ARM.cpp:1146-1165 | the scan for the minimum age finds what the probe tick by tick finds |
| PacketStore.LivePackets.Has | src/ARM.cpp:1095-1109 | whether the player has a valid packet at the tick modulo 65536 |
| PacketStore.ModesAgree | src/ARM.cpp:1146-1206 | the modes agree for windows of 1 to 4096, and beyond exactly if there is a packet of age up to 4096 or none in the window at all |
| PacketStore.ExactTick | src/ARM.cpp:1132-1137 | the exact packet wins for 16-bit ticks and is passed over for larger ones |
| MultiWord.ChainIsExact | src/ARMInterpreter_ALU.cpp:471-541 | ADDS and ADCS (SUBS and SBCS) over two numbers of the same number of limbs, however many, leave the exact sum (difference), with C its carry (not borrow); only C goes from limb to limb |
| MultiWord.ChainOverflows | src/ARMInterpreter_ALU.cpp:471-541 | the last V is the signed overflow of the whole number, the last N its sign |
| MultiWord.AdcsIsExact | src/ARMInterpreter_ALU.cpp:26-60 | one limb of a sum: carry, overflow, sign and zero |
| MultiWord.SbcsIsExact | src/ARMInterpreter_ALU.cpp:26-60 | one limb of a difference: borrow, overflow, sign and zero |
| MultiWord.CPU.A_ADC_S | src/ARMInterpreter_ALU.cpp:489-506 | writes result and flags of a limb |
| MultiWord.CPU.A_SBC_S | src/ARMInterpreter_ALU.cpp:524-541 | writes result and flags of a limb |
| MultiWord.CPU.A_ADD_S | src/ARMInterpreter_ALU.cpp:456-471 | writes result and flags of a lowest limb |
| MultiWord.CPU.A_SUB_S | src/ARMInterpreter_ALU.cpp:390-405 | writes result and flags of a lowest limb |
| MultiWord.CPU.ChainWords | src/ARMInterpreter_ALU.cpp:390-541 | the instructions, one limb after the other through two registers, compute the chain over numbers of any length |
| MultiWord.CPU.ChainRegisters | src/ARMInterpreter_ALU.cpp:390-541 | the instructions over limbs in registers compute the chain over the words that were there, and change no other register |
| InputSpans.CompressPredictions | scripts/nsmb_mvl_ai_predict_input_script.py:155-177 | for increasing frames: ordered, disjoint spans, no two touching ones alike, that hold at every frame the mask of the prediction that reaches it and cover no other frame |
| InputSpans.HoldsIsLatest | scripts/nsmb_mvl_ai_predict_input_script.py:160-171 | the prediction that reaches a frame is the latest at or before it |
| InputSpans.NormalFormIsUnique | scripts/nsmb_mvl_ai_predict_input_script.py:173-176 | the compression is the only list in normal form that holds these masks |

## Left out

- RegisterCaching.RegisterCache.Execute: does not model the emitted machine code; an instruction is any function of its source registers that writes its destination registers, all or none of them if it is conditional.
- The flush in front of the closing branch of a self loop, which touches no register, and condition code 0xF, which the decoder makes a no-op.
- Register 15 inside the register cache: it is loaded for each instruction that needs it and never dirty; the emitters handle it.
- `ARMInstrInfo::Decode` is not part of this model; that registers not strictly needed are among the read and written ones is a hypothesis on its result.
- BL_LONG merging in the block compiler; it changes neither hashes nor addresses.
- An address that is executed in both ARM and THUMB state, where blocks are kept by address alone.
- The remap path of `CompileBlock` (src/ARMJIT.cpp:608-610) is unreachable under the fixed mapping that is modelled.
- Restoring across the two CPUs, stores into the block being compiled (src/ARMJIT.cpp:869-887), hash collisions and array capacities.
- CodeIndex.ARMJIT.Run: promises fresh code with branch optimisations only where restores follow from what was read, because otherwise the property is false; `RestoreIsSoundIff` and `StaleRun` say why.
- IdleLoop.AcceptedIsIdle: leaves out conditional instructions before the branch and flags carried over from the iteration before, because with them the property is false; `IdleIff` covers them.
- BankedRegisters.ARM.JumpTo: does not model pipeline refills, cycles or memory regions.
- A change of the exception base or of the protection unit during a run: both are constants of a CPU; `AbortedJumpCompletes` takes the protection after the handler as a parameter.
- NestedExceptions.ExceptionsRestore: requires `Fetchable`, that nothing in the run is fetched from where it may not be, because a prefetch abort runs a handler that is not in the program; `AbortedJumpCompletes` covers one abort. A handler that writes its own link register and loads it back is left to `BlockTransfer.RoundTrip`.
- FIQ entry: the code has none.
- BlockTransfer.A_LDM: does not model data aborts and memory protection; memory is flat.
- Memory-mapped registers in cheat memory: it is a flat array of bytes.
- CheatEngine.RunCheat: requires whole lines, because otherwise the code reads past the end of the cheat.
- `Import` and `GetCodes` of the code file, and the binary cheat database.
- CheatMemory.CopyExactIff, CheatMemory.PasteExactIff: blocks that run past the end of the address space are left out.
- CheatFile.LoadOfSave: requires names of 1 to 127 and descriptions of up to 255 characters without line breaks, end of string or leading blanks, because the format has no way to keep others.
- The map from emulator instances to packet stores, locks, and the local packet bridge.
- MultiWord.ChainIsExact: the Z flag of a chain is that of its highest limb alone, in the code as on the processor.
- Savestates, the GDB stub, cycle counting, logging and tracing.
