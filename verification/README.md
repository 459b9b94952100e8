# A model of DamnOS

DamnOS is a small kernel in the JOS tradition with user-level fork, pipes and a file server. This
project models its six hard cores in Dafny and proves what each of them is for.

| core | modules |
|---|---|
| everywhere | `Words` (32-bit arithmetic), `Masks` (shifts and masks) |
| physical pages, page tables, address spaces | `Paging`, `PagingLemmas`, `PagingOps`, `PagingEnv`, `PagingTheorems`, `PmapImpl` |
| copy-on-write fork; user page-fault upcalls | `Cow`, `CowProofs`, `CowTheorems`; `Upcall` |
| environments, scheduler, messages, ids | `Envs`, `EnvTheorems`, `EnvHistory`, `EnvIpc`, `IpcPages`, `EnvKernel`; `OpenFiles` |
| pipes | `Pipe`, `PipeClose`, `PipeEof` |
| file blocks and block cache | `Bitmap`, `FileBlocks`, `FileTheorems`, `BlockCache`, `DamnFs` |
| argument image; number printing and parsing | `StackImage`; `Numbers` |

Each core has a value-level model with its invariants and theorems. Where the source updates state in
place there is also a class (`PmapImpl.Pmap`, `EnvKernel.EnvTable`, `DamnFs.Server`, `CowTheorems.Machine`,
`Upcall.Processor`, `Pipe.Ring`, `PipeEof.Table`, `OpenFiles.OpenTable`) or a method with loops whose
postconditions tie the new state to that model. `dafny verify dfyconfig.toml` checks everything.

## How the parts are modelled

- **Pages.** A table word is a page number with twelve flag bits. A counted reference is an environment's
  directory pointer, a directory entry below UTOP, or a page-table entry below UTOP. The invariant says that
  every frame other than 0 has a count equal to its boot count plus its references, that counts fit 16 bits,
  that the free list is duplicate-free and holds only unreferenced frames, and that directories and page tables
  are private. `Translate` is the flat map that the two-level tables stand for.
- **Fork.** Environments interleave at the granularity of one system call, one store, and one copied byte. The
  eager machine copies a page at fork and has no copy-on-write at all; the abstraction hides PFTEMP and a child
  page that its parent can still write. A page that the parent could write is copied, in the eager machine's
  view, at the moment the parent's own mapping becomes read-only.
- **Upcalls.** Registers and memory are 32-bit words and bytes; the handler is an arbitrary finite script of
  register changes, byte stores and further faults. The upcall's own store to the trap-time stack may fault too.
- **Environments.** One step is a whole trap: the handler's effect on `envs[]`, then the tail of `trap` or
  `sched_yield`. Whether memory is available is a parameter of the trap. The page argument of a send is judged as
  src/trap.c:679-706 does, from the address, the permissions and what the page tables hold; `IpcPages` reads those
  off the model of the tables. The saved eax of a receive is part of the state; `EnvIpc.IpcRecv` is what the library
  makes of it.
- **Pipes.** Check, copy and increment are separate steps of reader and writer. For closing, every environment has a
  position in `dup`, `close`, the copy loop of `fork` and `spawn`, or the sweep of `env_free`; each system call is a
  step, and the running environment may change between any two.
- **Files.** Block 0 is the super block with the bitmap, block 1 the inode table, the others are bytes. A cached
  page is dirty from the first store through its mapping until `flush_block`.

## What the code does not do

Promises that turned out false of the code, each with the exact condition under which the code meets it.

- `page_remove` of an address with a page table but an empty entry is not the no-op that src/pmap.c:425 promises:
  it decrements `pages[0]`, because `page_lookup` never returns NULL for an empty entry. `fd_close` does this on
  every close of a pipe, whose device has already unmapped the descriptor page (src/fd.c:120, src/pipe.c:188).
  From boot the 65536-th such removal, and no earlier one, puts frame 0 on the free list, whatever else is done in
  between (`PagingTheorems.FatalRemovalIff`).
- For the same reason `sys_page_map` of an empty entry maps frame 0 (src/trap.c:593-602). And `page_insert` of a frame
  with 65535 references wraps its 16-bit count, so that the frame can be freed while it is mapped. `page_insert`
  keeps the counts exact if and only if it does neither (`PagingTheorems.InsertExactIff`); these insertions and the
  removal above are the only ways to break them (`PagingTheorems.RunKeepsInv`).
- A fault taken with the stack pointer exactly at UXSTACKTOP never resumes correctly: the return address is stored
  over the saved stack pointer (`Upcall.ResumeIff`).
- Round-robin is not fair. An environment that set its own status to RUNNABLE keeps the CPU at every `sched_yield`
  (`EnvTheorems.YieldStays`). And when curenv exits the search starts over at slot 0 (`EnvTheorems.YieldFromNull`), so
  a parent in slot 0 that keeps forking short-lived children into slot 1 starves slot 2
  (`EnvHistory.StarvationRun`). A RUNNABLE environment gets the CPU within NENV-1 yields if neither happens; each
  exit of a curenv costs slot j at most j+1 more (`EnvHistory.WaitIsBounded`).
- A send whose page argument is refused has already cleared the receiver's flag (src/trap.c:677). The receiver then
  sleeps, deaf to all later sends, until some other environment sets its status or destroys it
  (`EnvIpc.SendWakesIff`, `EnvIpc.StrandedStays`).
- A receiver that is set to RUNNABLE, and gets the CPU before a message comes, does not return: its saved eax is still
  the number of the system call, and the wrapper panics (src/syscall.c:32; `EnvIpc.WokenReceiverPanics`).
- `ipc_recv` with a page address below UTOP that is not aligned does not return the error that src/ipc.c:13-14 promises:
  it falls through and returns the last message a second time (`EnvIpc.ReceivedTwice`). Messages are received exactly
  once and in order if and only if no such call is made (`EnvIpc.ExactlyOnceIff`), whatever is done to statuses.
- `devpipe_read` can report end of file while bytes are in the pipe (`Pipe.EofCanHideBytes`): its answer is final if
  and only if nothing was published between its look at the pipe and its answer (`Pipe.EofIsFinalIff`). Positions
  are signed 32-bit numbers, so subscripts go negative after 2^31 bytes (`Pipe.SubscriptIff`).
- `fork` and `copy_shared_pages` map a child's descriptor page before its pipe page. A reader that looks in between is
  told that a live writer is gone (`PipeEof.AscendingCopyBreaks`); a true answer is right if and only if as many
  child descriptors are half made as dups and closes are half done (`PipeEof.RightAnswerIff`).
- A successful `file_write` can be read back if and only if it ends inside the thirteen direct blocks; beginning at
  2^28 the 16-bit block index goes round and the bytes land in the wrong place (`FileTheorems.WriteReadsBackIff`,
  `FileTheorems.WriteGoesRound`).
- `init_stack` accepts argument lists that do not fit when the 32-bit subtraction goes round
  (`StackImage.AcceptedIff`, `StackImage.HugeIsAccepted`); its first store is then outside the page
  (`StackImage.OverrunMissesPage`).
- A file id looks like an error code to the caller of `openfile_alloc` once its slot has been given out 2^21 times
  (`OpenFiles.IssueLooksFailedIff`).
- `printnum` pads with minus signs when the format asks for left justification (`Numbers.DashPaddingIff`). `strtol`
  goes round at 2^31 where section 7.22.1.4 of ISO/IEC 9899:2011 asks for saturation (`Numbers.PrintThenRead`).

## Model

| member | source | states |
|---|---|---|
| `PagingLemmas.AllocKeeps` | src/pmap.c:258-272 | page_alloc hands out the first frame of the free list, which nothing refers to, and keeps all counts exact |
| `PagingTheorems.AllocWrites` | src/pmap.c:258-272 | page_alloc clears the frame it hands out exactly when asked to, and writes no other |
| `PagingLemmas.DecrefPays` | src/pmap.c:293-298 | page_decref gives up exactly one outstanding reference, and puts the frame on the free list exactly when it was the last |
| `PagingOps.TranslateIsRef` | src/pmap.c:412-421 | a page is translated exactly when its entry is a counted reference; a translated page is present and not frame 0 |
| `PagingOps.RemoveMapped` | src/pmap.c:436-447 | removing a mapped page deletes exactly its reference and keeps counts exact; page_free is reached only for a frame that is on no list |
| `PagingOps.WalkCreateKeeps` | src/pmap.c:312-337 | creating a page table fails exactly when it is missing and memory is out; otherwise it adds at most the reference of the new table |
| `PagingOps.InsertSame` | src/pmap.c:373-377 | re-inserting a frame where it already is leaves its count unchanged and rewrites the entry |
| `PagingOps.InsertKeeps` | src/pmap.c:383-401 | a successful page_insert changes the references to the old ones, a possible new table and the new entry, with exact counts |
| `PagingTheorems.InsertRefinesFlatMap` | src/pmap.c:383-401 | page_insert is a one-point update of the flat map of all address spaces; failing, which it does exactly when no page table can be had, it changes no translation |
| `PagingTheorems.InsertWrites` | src/pmap.c:383-401 | page_insert writes one page table and one directory entry; every other page keeps its contents |
| `PagingTheorems.PermissionBits` | src/pmap.c:398 | the inserted entry has PTE_P and exactly the caller's other permission bits |
| `PagingTheorems.InsertExactIff` | src/pmap.c:383-401 | page_insert keeps every count exact if and only if the frame is not frame 0 and its 16-bit count has room or the frame is already in that slot |
| `PagingTheorems.InsertsZero` | src/trap.c:593-602 | what page_lookup finds behind an empty entry can be inserted, and is then translated to frame 0 |
| `PagingTheorems.HeldInsertable` | src/trap.c:532-562 | a frame that was just allocated meets the preconditions of page_insert |
| `PagingTheorems.MappedInsertable` | src/trap.c:593-602 | so does the frame behind any mapped address, if its count has room |
| `PagingTheorems.RemoveUnmapped` | src/pmap.c:436-447 | removing an unmapped page is a no-op exactly when there is no page table; otherwise frame 0 loses a count, and the invariant survives exactly when that count was not 1 |
| `PagingTheorems.RemovalsOfEmpty` | src/pmap.c:436-447 | repeated removal of one empty entry, the shortest way there: each takes one unit off frame 0's count and nothing else, until one brings it to zero and frees frame 0 |
| `PagingTheorems.RemovalsKeepIff` | src/pmap.c:436-447 | the bookkeeping survives n removals in a row if and only if n is below the count, or below 65536 when the count is 0 |
| `PagingTheorems.RemoveRefinesFlatMap` | src/pmap.c:436-447 | removing a mapped page deletes exactly one pair of the flat map of all address spaces |
| `PagingEnv.SetupKeeps` | src/env.c:161-193 | env_setup_vm adds exactly the reference of a new, empty directory |
| `PagingTheorems.SetupCopiesKernel` | src/env.c:185-190 | the new directory has kern_pgdir's entry at every place from UTOP up but UVPT, itself at UVPT for users to read and not to write, and nothing below |
| `PagingTheorems.StepKeepsKernelHalf` | src/pmap.c:252-447 | no safe operation changes the kernel's half of a live directory |
| `PagingTheorems.KernelHalfOverRun` | src/env.c:161-193 | over every run of safe operations a live directory's kernel half is what kern_pgdir held when it was set up |
| `PagingEnv.FreeSlotsDrops` | src/env.c:426-430 | clearing a page table removes exactly the references of that table's slots |
| `PagingEnv.FreeTablesDrops` | src/env.c:415-435 | the two nested loops remove exactly the references below the directory |
| `PagingEnv.EnvFreeDropsExactly` | src/env.c:399-446 | after env_free the references are those of the other address spaces, word for word, counts are exact, and no frame is lost |
| `PagingEnv.EnvFreeCounts` | src/env.c:399-446 | every count has fallen by exactly the dead environment's references, and a frame that reached zero is on the free list once |
| `PagingTheorems.EnvFreeKeepsOthers` | src/env.c:399-446 | every other environment's translations are unchanged by env_free |
| `PagingTheorems.StepKeepsInv` | src/pmap.c:252-447 | every alloc, free, insert, remove, set-up, exit and kernel page table that the kernel can ask for keeps counts exact, the free list sound and tables private, if and only if it is neither an insertion of frame 0 or of a full count nor the fatal removal of an empty entry |
| `PagingTheorems.KernTableKeeps` | src/pmap.c:349-359 | the page tables that boot_map_region makes for the kernel keep the invariant and change no reference |
| `PagingTheorems.RunKeepsInv` | src/pmap.c:252-447 | over every run all states are sound if and only if all steps are safe in that sense |
| `PagingTheorems.FrameZeroOverRun` | src/pmap.c:252-447 | over every run of safe steps the count of frame 0 is its first value less the number of empty removals so far, modulo 65536 |
| `PagingTheorems.FatalRemovalIff` | src/pmap.c:436-447 | in any such run the next removal of an empty entry breaks the bookkeeping if and only if it is the one that brings that count to zero, from boot the 65536-th |
| `PmapImpl.BootInv` | src/pmap.c:220-250 | the state page_init leaves satisfies the invariant and holds no frame back |
| `PmapImpl.BootListExact` | src/pmap.c:225-242 | free at boot are exactly the frames but 0 that are neither in the I/O hole nor in the kernel image and boot memory, less the one that a mistaken shift of the size of base memory names |
| `PmapImpl.Pmap.constructor` | src/pmap.c:220-250 | page_init builds exactly the list of boot-free frames in ascending order, in the invariant |
| `PmapImpl.Pmap.PageInit` | src/pmap.c:220-250 | the loop from the last frame down leaves that list and the boot counts |
| `PmapImpl.Pmap.PageAlloc` | src/pmap.c:258-272 | takes the first frame off the linked list, or answers NULL and changes nothing |
| `PmapImpl.Pmap.PageFree` | src/pmap.c:278-287 | puts the frame at the head of the linked list; the two panics are its preconditions |
| `PmapImpl.Pmap.PageDecref` | src/pmap.c:293-298 | 16-bit decrement, and page_free at zero |
| `PmapImpl.Pmap.PgdirWalk` | src/pmap.c:312-337 | finds or creates the table, with its reference counted |
| `PmapImpl.Pmap.PageRemove` | src/pmap.c:436-447 | in-place form of the value model's removal, frame 0 case included |
| `PmapImpl.Pmap.PageInsert` | src/pmap.c:383-401 | in-place form of the value model's insertion; neither panic of page_free is reached |
| `PmapImpl.Pmap.EnvSetupVm` | src/env.c:161-193 | in-place form of the value model's set-up, whose contents SetupCopiesKernel states |
| `PmapImpl.Pmap.FreeAllSlots` | src/env.c:426-430 | the inner loop of env_free, in place |
| `PmapImpl.Pmap.EnvFree` | src/env.c:399-446 | the outer loop and the directory, in place; no panic is reached |
| `CowProofs.StepKeepsInv` | src/fork.c:14-138 | every system call, store and copied byte of fork and pgfault, by any environment, keeps the sharing invariant |
| `CowProofs.StepSimulates` | src/fork.c:14-138 | every such step does to what programs see exactly what the eager machine's step does |
| `CowTheorems.CowRefinesEager` | src/fork.c:14-138 | over every interleaved run, programs see what eager copying computes |
| `CowTheorems.CowFromRest` | src/fork.c:14-138 | so from any system at rest whose pages have frames of their own, with no further assumption |
| `CowTheorems.WritableFrameMappedOnce` | src/fork.c:51-78 | a frame mapped writable and not PTE_SHARE has exactly one mapping outside the middle of an operation |
| `CowTheorems.StoreChangesOnly` | src/fork.c:51-78 | a store changes the storing page, the pages of the same PTE_SHARE object, and nothing else anywhere |
| `CowTheorems.FaultIsInvisible` | src/fork.c:14-38 | no step of the fault handler changes what any program sees |
| `CowTheorems.Machine.Pgfault` | src/fork.c:14-38 | afterwards the page is a private writable copy in the new frame, stores to it succeed, and nothing visible has changed |
| `CowTheorems.Machine.Duppage` | src/fork.c:51-78 | its one or two map calls copy the page to the child, as the eager machine would, with the same frame and the permissions of the page's kind for child and parent |
| `CowTheorems.Machine.Fork` | src/fork.c:96-138 | the child gets the parent's page at every address below USTACKTOP and a fresh exception stack; everyone else's memory is as it was |
| `Upcall.PushedFrame` | src/trap.c:346-368 | after the kernel's push the frame holds fault address, error, registers, eip, eflags and esp |
| `Upcall.HandlerFinds` | src/pfentry.S:33-37 | the handler's argument is the address of the frame, where it finds fault address and error code; it runs at the handler's address and returns behind the call |
| `Upcall.PopRestores` | src/pfentry.S:38-87 | with the frame intact the upcall's tail restores everything and stores only to the word below the trap-time stack and the frame's own esp word |
| `Upcall.ReturnWord` | src/pfentry.S:57-71 | the return address goes to the blank word the kernel reserved, or outside the exception stack |
| `Upcall.ResumeIsIdentity` | src/pfentry.S:33-87 | push, handler and pop together are the identity on registers, flags, eip and esp and on the live part of the exception stack, whatever nested faults the handler takes, and however often the upcall's own store to the trap-time stack faults |
| `Upcall.HandlerExit` | src/pfentry.S:67-71 | faults of that store overwrite the two dead words of its own frame and leave the rest, and everything above, in place |
| `Upcall.ExecKeeps` | src/pfentry.S:33-87 | nested faults leave everything above the handler's own frame alone |
| `Upcall.EmptyExceptionStackBreaks` | src/trap.c:350-354 | at esp equal to UXSTACKTOP the resumed state is always wrong |
| `Upcall.ResumeIff` | src/trap.c:346-368 | resumption is the identity if and only if the trap-time esp is not UXSTACKTOP |
| `Upcall.Processor.PageFaultHandler` | src/trap.c:346-368 | the field-by-field stores build the frame of the model and redirect eip and esp |
| `Upcall.Processor.FaultAndResume` | src/pfentry.S:33-87 | run in place, push, upcall, handler and tail, with nested faults in both, leave all registers and the live part of the exception stack as they were |
| `EnvTheorems.IdDecodes` | src/env.h:9-28 | an id is positive, fits 31 bits and decodes to its slot |
| `EnvTheorems.NextIdOk` | src/env.c:223-226 | env_alloc's arithmetic moves to the next of 2^19-1 generations, going round past the sign bit |
| `EnvTheorems.AllocKeeps` | src/env.c:208-270 | env_alloc keeps the table sound and hands out a slot that is not curenv |
| `EnvTheorems.FreeKeeps` | src/env.c:442-446 | freeing puts the slot on the list once and keeps the table sound |
| `EnvTheorems.RunKeeps` | src/env.c:495-532 | env_run leaves exactly the new environment current and at most one RUNNING |
| `EnvTheorems.YieldRuns` | src/sched.c:28-44 | the scheduler picks the first RUNNABLE slot from curenv on, else stays, else ends in the monitor |
| `EnvTheorems.YieldKeeps` | src/sched.c:28-67 | it keeps the table sound and never enters the halt loop |
| `EnvTheorems.YieldHaltsIff` | src/sched.c:49-67 | in any table at all the CPU would halt if and only if nobody can run, curenv does not, and some environment is RUNNING or DYING |
| `EnvTheorems.HandleKeepsInv` | src/trap.c:257-298 | after every trap at most one environment is RUNNING and it is curenv, none is DYING, the free list is exact, ids are sound |
| `EnvTheorems.RunKeepsInv` | src/trap.c:257-298 | the same in every state of every run |
| `EnvTheorems.EnvInitOk` | src/env.c:113-128 | env_init makes a sound table whatever memory held |
| `EnvTheorems.YieldApproaches` | src/sched.c:28-44 | a yield by an environment that is not RUNNABLE comes strictly closer to every RUNNABLE slot and jumps over none |
| `EnvTheorems.YieldFromNull` | src/sched.c:28-44 | after the death of curenv the lowest RUNNABLE slot runs, and the distance to slot j is what it is from there |
| `EnvTheorems.YieldStays` | src/sched.c:28-44 | a yield by an environment that is itself RUNNABLE goes back to it |
| `EnvTheorems.BoundedWaiting` | src/sched.c:28-44 | of NENV-1 yields between which curenv does not die, NENV if the first comes from such a death, one dispatches a slot that stays RUNNABLE, whatever happens to the table in between |
| `EnvHistory.StepApproaches` | src/trap.c:257-298 | a trap that enters the scheduler brings it closer to a waiting slot and no other trap moves it away, unless curenv exits and the search starts over |
| `EnvHistory.WaitIsBounded` | src/sched.c:28-44 | over runs of arbitrary traps, exits included, a slot j that stays RUNNABLE has the CPU by the yield NENV-1 plus j+1 for every exit of a curenv, if nobody who yields is itself RUNNABLE |
| `EnvHistory.StarvationRun` | src/sched.c:28-44 | for every n a run with n short-lived children and 2n entries into the scheduler in which slot 2 stays RUNNABLE and never runs |
| `EnvHistory.StarvingState` | src/env.c:208-270 | such runs start in a state that three allocations and an exit lead to |
| `EnvHistory.StepId` | src/env.c:223-226 | only sys_exofork of a slot changes its id, to the next generation |
| `EnvHistory.StepRuns` | src/env.c:515-528 | env_runs of an environment rises, by one, exactly when it gets the CPU from another one |
| `EnvHistory.IdsAdvance` | src/env.c:223-226 | after c allocations a slot's id is c generations on, modulo 2^19-1 |
| `EnvHistory.StaleIdIff` | src/env.c:71-105 | envid2env accepts an id a slot once had if and only if the slot is in use and has been given out a multiple of 2^19-1 times since |
| `EnvTheorems.LookupIff` | src/env.c:71-105 | exactly which slot an id names: the caller for 0, else the slot of the id if in use under this very id and, under the permission check, the caller or a child of the caller |
| `EnvIpc.StrangersUntouched` | src/trap.c:407-473 | sys_env_destroy and sys_env_set_status leave every environment that is neither the caller nor its child as it was, but that it may get the CPU |
| `EnvIpc.ServeSlot` | src/trap.c:407-741 | what every trap does to every field of every slot |
| `EnvHistory.IdsDistinct` | src/env.c:71-105 | no two slots have the same id |
| `EnvIpc.FieldsChange` | src/trap.c:668-741 | value and sender change only by a successful send, which needs a receiving target and ends its receiving |
| `EnvIpc.SendsMatchReceives` | src/trap.c:668-741 | in every run successful sends plus the one awaited never exceed the receives made |
| `EnvIpc.StepKeepsMail` | src/trap.c:668-741 | every trap except a refused receive keeps message history and fields in step, whatever is done to the receiver's status |
| `EnvIpc.RefusedReturns` | src/ipc.c:29-40 | a refused receive returns what the fields hold, one message more than was sent |
| `EnvIpc.WokenReceiverPanics` | src/syscall.c:32-33 | a receiver that gets the CPU without a message panics in the wrapper, with the number of the call in eax, and returns nothing |
| `EnvIpc.StepInOrderIff` | src/ipc.c:22-43 | one trap keeps reception once and in order if and only if it is not a refused receive |
| `EnvIpc.ExactlyOnce` | src/ipc.c:22-66 | in every run in which slot e makes no refused receive, whatever is done to its status, the messages its receives returned are those sent, in order, but for at most one, which is in the fields unless the receiver has panicked |
| `EnvIpc.ExactlyOnceIff` | src/ipc.c:22-66 | over every run, reception is once and in order throughout if and only if slot e never calls ipc_recv with an unaligned page address below UTOP |
| `EnvIpc.ReceivedTwice` | src/ipc.c:29-40 | a run in which the one message that is sent is returned twice |
| `EnvIpc.TwoReadyState` | src/env.c:208-270 | that run starts in a state that two allocations lead to |
| `EnvIpc.WakingPanics` | src/trap.c:460-473 | a parent that sets a sleeping receiver to RUNNABLE and is preempted makes it panic |
| `EnvIpc.SendWakesIff` | src/trap.c:668-722 | a send wakes a blocked receiver if and only if it offers no page, or an aligned page with proper permissions, a page table behind it, write permission of its own where asked for, and room at the receiver's address |
| `IpcPages.RoomIff` | src/trap.c:698-705 | the room a send needs is exactly what page_insert needs to succeed |
| `IpcPages.PageMoves` | src/trap.c:679-706 | a send that moves a page maps the sender's frame at the receiver's address with the message's permissions and changes no other translation |
| `EnvIpc.MovedIff` | src/trap.c:679-706 | exactly when a send moves a page, and exactly when it goes without one |
| `EnvIpc.StrandedStays` | src/trap.c:668-722 | a stranded receiver stays blocked and gets no message until someone sets its status or destroys it |
| `EnvKernel.EnvTable.constructor` | src/env.c:113-128 | env_init links all slots in ascending order and leaves a sound table |
| `EnvKernel.EnvTable.LookupEnv` | src/env.c:71-105 | envid2env on the array, tied to the lookup that LookupIff states |
| `EnvKernel.EnvTable.Alloc` | src/env.c:208-270 | pops the linked free list and renews the slot; without a slot or memory nothing changes |
| `EnvKernel.EnvTable.Release` | src/env.c:442-446 | marks the slot free and pushes it on the linked list |
| `EnvKernel.EnvTable.Switch` | src/env.c:495-532 | env_run up to the return to user mode |
| `EnvKernel.EnvTable.Search` | src/sched.c:28-38 | the circular search stops at the first RUNNABLE slot |
| `EnvKernel.EnvTable.SchedYield` | src/sched.c:28-44 | the whole scheduler, tied to the model's outcome |
| `EnvKernel.EnvTable.SchedHalt` | src/sched.c:49-67 | monitor if nothing is alive, else the halt loop with curenv cleared |
| `EnvKernel.EnvTable.Destroy` | src/env.c:451-465 | env_destroy up to its call of sched_yield |
| `EnvKernel.EnvTable.TrySendTo` | src/trap.c:675-722 | sys_ipc_try_send on the looked-up receiver |
| `EnvKernel.EnvTable.Dispatch` | src/trap.c:407-473 | the system calls on environments, tied to the model |
| `EnvKernel.EnvTable.HandleTrap` | src/trap.c:257-298 | a whole trap: never halted, and a sound table with curenv set when user mode is entered |
| `OpenFiles.NextKeeps` | src/serv.c:70-91 | file ids stay 32-bit and decode to their slot; a slot is given out only when no client maps its Fd page |
| `OpenFiles.StaleIdIff` | src/serv.c:94-104 | openfile_lookup accepts an id a slot once had if and only if a client maps the slot and it was given out a multiple of 2^22 times since |
| `OpenFiles.HeldIsNeverReissued` | src/serv.c:70-104 | while some client keeps the Fd page mapped the slot is not given out and its id stays valid |
| `OpenFiles.AllocAnswers` | src/serv.c:70-91 | exactly when openfile_alloc answers which error, changing nothing; otherwise the first slot no client maps gets the next id, which is the answer, and no other slot changes |
| `OpenFiles.IdsDistinct` | src/serv.c:94-104 | no two slots share an id, so an accepted one names one open file |
| `OpenFiles.IssueLooksFailedIff` | src/serv.c:83-87 | the returned id is negative if and only if the slot is in the second half of its 2^22 issues |
| `OpenFiles.OpenTable.constructor` | src/serv.c:57-67 | serve_init gives slot i the id i |
| `OpenFiles.OpenTable.Alloc` | src/serv.c:70-91 | the loop takes the first slot no client maps, or reports why not |
| `OpenFiles.OpenTable.Lookup` | src/serv.c:94-104 | refuses an unmapped slot and a stale id |
| `Pipe.StepKeepsInv` | src/pipe.c:104-172 | every single check, copy and increment of reader or writer keeps the ring consistent |
| `Pipe.PipeIsFifo` | src/pipe.c:104-172 | under every interleaving bytes taken are a prefix of bytes stored, and the positions are at most 32 apart |
| `Pipe.WritePutsItsData` | src/pipe.c:139-172 | in every run a call of write has stored a prefix of its caller's data and nothing else; when it returns it has stored all and says so, or the readers are gone |
| `Pipe.TakenIsWritten` | src/pipe.c:104-172 | under every interleaving the bytes taken are a prefix of the data of all calls of write, one after the other; while the reader is there nothing is missing but what the current call has still to write |
| `Pipe.ReadReturnsNextBytes` | src/pipe.c:104-137 | when a call of read returns in any run, it returns at most what was asked for, namely the bytes put right after those taken before the call, and none only if none were asked for or the writer is gone |
| `Pipe.EofIsFinalIff` | src/pipe.c:118-125 | over every run, a reported end of file is final if and only if no byte was published between the reader's look at the pipe and its answer |
| `Pipe.ClosedBeforeIsFinal` | src/pipe.c:118-125 | it is final when the writer was gone before the reader looked |
| `Pipe.NothingAfterClose` | src/pipe.c:139-172 | nothing is put after the writer is gone |
| `Pipe.EofCanHideBytes` | src/pipe.c:118-125 | a run in which it reports end of file with a byte in the pipe |
| `Pipe.SubscriptIff` | src/pipe.c:133-167 | the computed subscript is the model's below 2^31 and negative afterwards except at multiples of 32 |
| `Pipe.Ring.Write` | src/pipe.c:152-169 | undisturbed, as many bytes as fit are appended to the pipe's contents |
| `Pipe.Ring.Read` | src/pipe.c:117-136 | undisturbed, as many bytes as asked for or available come off the front |
| `PipeClose.StepKeepsInv` | src/fd.c:103-203 | every single system call of dup, close, fork and teardown, by any environment at any position of the others, keeps the invariant that only a half-copied child has an Fd page without the pipe page |
| `PipeClose.JustMadeInv` | src/pipe.c:28-63 | it holds when pipe returns |
| `PipeEof.RunKeepsInv` | src/fd.c:103-203 | hence in every state of every interleaved run |
| `PipeEof.PipeOutnumbersEnds` | src/pipe.c:75-89 | the pipe page lacks references, against both ends together, only for half-made child descriptors |
| `PipeEof.TrueAnswerIff` | src/pipe.c:75-89 | in any state equal counts mean that the other end is gone if and only if as many descriptors lack the pipe page as pipe pages lack a descriptor |
| `PipeEof.RunsGrow` | src/env.c:515-528 | env_runs never falls |
| `PipeEof.ComingBackCounts` | src/env.c:515-528 | another environment's run in between shows in env_runs |
| `PipeEof.EqualRunsMeansAlone` | src/pipe.c:80-85 | equal 32-bit readings of env_runs, fewer than 2^32 dispatches apart, mean that nobody else ran |
| `PipeEof.NoFalseEof` | src/pipe.c:75-89 | at any time of any interleaved run, a true answer of _pipeisclosed means that the other end has no references, unless a child is half made |
| `PipeEof.RightAnswerIff` | src/pipe.c:75-89 | in such a run a true answer is right if and only if as many child descriptors are half made as dups and closes are half done |
| `PipeEof.AscendingCopyBreaks` | src/fork.c:115-121 | a run in which a reader is told that the writer is gone while another environment, inside fork, has the write end open |
| `PipeEof.Table.Close` | src/fd.c:103-122 | undisturbed, close unmaps both pages of the descriptor, the Fd page twice |
| `PipeEof.Table.Dup` | src/fd.c:176-203 | undisturbed, dup makes the target a descriptor of the same end |
| `PipeEof.Table.DupFails` | src/fd.c:199-202 | when one of its map calls fails, dup leaves the target closed |
| `PipeEof.Table.Fork` | src/fork.c:115-121 | undisturbed, the copy loop gives the child exactly its parent's descriptors |
| `PipeEof.Table.CloseAll` | src/fd.c:163-169 | closes exactly this environment's descriptors |
| `PipeEof.Table.Teardown` | src/env.c:415-435 | process teardown unmaps exactly this environment's pages, descriptor pages first, invariant kept after each call |
| `Bitmap.BitmapPoint` | src/damnfs.c:34-53 | the word-level OR and AND NOT with a shifted mask change that block's bit and no other |
| `Masks.AndTests` | src/damnfs.c:39 | masking with a shifted one tests that bit |
| `Masks.OrBit` | src/damnfs.c:96 | OR sets the union of the bits |
| `Masks.NotBit` | src/damnfs.c:51 | the 32-bit complement flips every bit |
| `FileBlocks.FirstFree` | src/damnfs.c:85-102 | the search finds the first block not in use, or none exists |
| `FileBlocks.GetBlockOwned` | src/damnfs.c:192-209 | on success the slot owns the block, all other ownership is as before, on failure nothing changes |
| `FileTheorems.GetBlockErrors` | src/damnfs.c:171-209 | -E_INVAL exactly past the thirteenth slot, -E_NO_DISK exactly when the slot is empty and every block is in use |
| `FileBlocks.FreeBlockOwned` | src/damnfs.c:499-513 | exactly this slot's ownership ends |
| `FileBlocks.PatchKeeps` | src/damnfs.c:485-489 | storing into one slot's block changes exactly the bytes of that piece of that file |
| `FileTheorems.WriteFromEffect` | src/damnfs.c:484-491 | the write loop puts exactly the buffer in the range and keeps every other existing byte of every file, also when it runs out of space |
| `FileTheorems.ReadFromEffect` | src/damnfs.c:453-460 | the read loop returns the file's bytes and keeps every existing byte |
| `FileTheorems.FreeBlocksOwned` | src/damnfs.c:525-539 | truncation gives back exactly the blocks of the slots between the two sizes |
| `FileTheorems.SetSizeOwned` | src/damnfs.c:542-553 | any new size: blocks above it are given back, ownership stays exact, growing keeps every byte |
| `FileTheorems.BlocksHold` | src/damnfs.c:534-535 | the number of blocks of a size is the least that holds it |
| `FileTheorems.ShrinkKeepsBytes` | src/damnfs.c:525-553 | resizing gives back exactly the blocks that begin at or after the new size and before the old, and keeps every other byte |
| `FileTheorems.FileWriteCorrect` | src/damnfs.c:470-495 | a successful write holds the buffer, sets the size, and leaves all other bytes of all files alone |
| `FileTheorems.FileReadCorrect` | src/damnfs.c:437-463 | a successful read answers no byte at or past the end of file, otherwise as many as were asked for or are there, and they are the file's; ownership, sizes and bytes are kept |
| `FileTheorems.WriteThenRead` | src/damnfs.c:437-495 | a successful write inside the thirteen blocks reads back, and reading changes nothing |
| `FileTheorems.WriteTooFar` | src/damnfs.c:171-182 | a write past the thirteenth block fails unless it starts at 2^28 or above |
| `FileTheorems.WriteReadsBackIff` | src/damnfs.c:437-495 | a successful non-empty write reads back if and only if it ends inside the thirteen blocks |
| `FileTheorems.WriteGoesRound` | src/damnfs.c:470-495 | a byte written at 2^28 is accepted, lands at offset 0, and reads back as nothing |
| `FileTheorems.FileWriteOwned` | src/damnfs.c:470-495 | a write at any offset, successful or not, conserves block ownership |
| `FileTheorems.StepOwned` | src/damnfs.c:192-553 | get, store, resize, read, write and inode changes conserve block ownership, failures included |
| `FileTheorems.RunOwned` | src/damnfs.c:192-553 | in every state of every run no block is lost, shared or used unmarked |
| `FileTheorems.BitsAreCounted` | src/damnfs.c:34-53 | the number of set bits is the number of reserved blocks plus the number of used slots |
| `BlockCache.TouchKeeps` | src/damnfs.c:617-658 | loading a block keeps cache and disk coherent and changes nothing the server sees |
| `BlockCache.FlushWritesBack` | src/damnfs.c:667-685 | flush_block writes that block, no other disk block, and changes nothing the server sees |
| `BlockCache.ModifyKeeps` | src/damnfs.c:609-613 | a store through the mapping changes that block of the volume and leaves the disk alone |
| `DamnFs.CleanIsDurable` | src/damnfs.c:559-579 | when a file's blocks, the inode table, the bitmap and the entry's block are clean, the disk alone holds them all as the server sees them |
| `DamnFs.Server.Pgfault` | src/damnfs.c:617-658 | in-place loading of a block |
| `DamnFs.Server.FlushBlock` | src/damnfs.c:667-685 | in-place write-back |
| `DamnFs.Server.AllocBlock` | src/damnfs.c:85-102 | the bitmap search and its immediate write-back |
| `DamnFs.Server.FileGetBlock` | src/damnfs.c:192-209 | the slot's block, allocated if need be, with the inode table written back |
| `DamnFs.Server.FileFreeBlock` | src/damnfs.c:499-513 | clears the bit and the slot |
| `DamnFs.Server.FileTruncateBlocks` | src/damnfs.c:525-539 | the loop over the slots |
| `DamnFs.Server.FileSetSize` | src/damnfs.c:542-553 | truncation and the new size; only the directory entry's block is flushed |
| `DamnFs.Server.FileFlush` | src/damnfs.c:559-579 | afterwards the file's blocks, the inode table and the entry's block are clean |
| `DamnFs.Server.WriteLoop` | src/damnfs.c:484-491 | the block-split copy loop |
| `DamnFs.Server.FileWrite` | src/damnfs.c:470-495 | the whole write; on success the disk alone holds the file's bytes, its inode, its directory entry's block and the bitmap as they are in the cache |
| `DamnFs.Server.FileRead` | src/damnfs.c:437-463 | the whole read in place, tied to the read that FileReadCorrect states |
| `StackImage.LayoutOk` | src/spawn.c:195-207 | header words, pointers and strings follow each other in the page without overlap and end with it |
| `StackImage.RegistersWrap` | src/spawn.c:195-212 | the 32-bit address computation is the unbounded one, cut once at the end |
| `StackImage.AcceptedIff` | src/spawn.c:208-212 | a list that fits is accepted; one below 4 GB that does not fit is accepted exactly when its block would start below address 0 |
| `StackImage.HugeIsAccepted` | src/spawn.c:208-212 | an argument of 4 MB and 4 KB passes the check |
| `StackImage.OverrunMissesPage` | src/spawn.c:235-240 | for such a list the first store is outside the page |
| `StackImage.StoredInPlace` | src/spawn.c:235-239 | after i rounds of the loop every earlier pointer and string is in place |
| `StackImage.ImageRoundTrip` | src/spawn.c:185-259 | reading argc and argv at child addresses gives back exactly the argument list |
| `StackImage.InitStack` | src/spawn.c:185-259 | a refused list touches nothing; a fitting one is read back by the child from an aligned stack pointer in the page; any other accepted one overruns |
| `StackImage.StringSize` | src/spawn.c:193-197 | the counting loop, in 32 bits |
| `StackImage.FillPage` | src/spawn.c:235-239 | the loop that stores pointers and copies strings |
| `Numbers.Numeral` | src/stdio.c:233-248 | the digits have the number as their value and no leading zero |
| `Numbers.Printed` | src/stdio.c:233-248 | the output is as long as the wider of field and numeral |
| `Numbers.PrintedIs` | src/stdio.c:233-248 | the numeral is at the right end and all that is left of it is padding |
| `Numbers.Printnum` | src/stdio.c:233-248 | the recursion with narrowing fields is padding followed by the numeral |
| `Numbers.WrapDigit` | src/string.c:256-272 | cutting the accumulator to 32 bits at every digit is cutting the value once |
| `Numbers.Strtol` | src/string.c:232-277 | blanks, sign, prefix, longest digit run: its value cut to 32 bits, and its end |
| `Numbers.ReadsSubject` | src/string.c:232-277 | a numeral as the standard describes it, with blanks, sign, prefix and anything that is no digit after it, is read as its signed value cut to 32 bits, up to the end of its digits |
| `Numbers.DigitOfExact` | src/string.c:259-266 | the digits are 0-9 and the letters of either case, and nothing else is one |
| `Numbers.ReadDigits` | src/string.c:256-272 | the digit loop |
| `Numbers.PrintThenRead` | src/string.c:232-277 | for every base from 2 to 16, any width and either padding, all of the output is read and gives the number back, exactly when it is below 2^31 |
| `Numbers.DashPaddingIff` | src/stdio.c:286-289 | with minus padding the number comes back if and only if there is no padding or it is zero with one minus |

## Left out

- Device I/O, boot code, the monitor, the shell and the user programs; the thin system-call wrappers.
- src/damn_operate.c, directory contents and growth, and inode reclamation.
- The read-only rule of sys_page_map (src/trap.c:599 tests the pointer, not the entry), and page_free of NULL in sys_page_alloc.
- region_alloc, load_icode and map_segment: program loading.
- The panics of fork and pgfault when memory runs out; the fork model always finds a page.
- PTE_SHARE mappings without PTE_W: no caller in the repository makes one (src/pipe.c:37-48, src/serv.c:187, src/uconsole.c:71).
- Exception-stack overflow: the source has no check, so "the frame fits in the page" is assumed by the upcall theorems.
- Privileged flag bits: popfl is modelled as restoring all of eflags, which it does not do in user mode.
- User stores into page tables and the TLB: a translation is what the tables say.
- blk_used is carried but no claim is made about it, since src/damnfs.c:268 counts a new directory block twice.
- File offsets are non-negative and unbounded; the 32-bit wrap of `offset + count` is not modelled.
- sys_env_set_trapframe, with which a parent could change a sleeping receiver's eax; receivers that call sys_ipc_recv without ipc_recv; and what a panicked receiver does beyond not receiving again.
- env_ipc_perm, which the source does not reset when no page moves.
- The retry loop of ipc_send and the name lookup of ipc_find_env: repetition of calls that are modelled.
- The making of a pipe: runs begin when pipe returns.
- PipeEof.NoFalseEof: says nothing while a child is half made, where the code can be wrong (`PipeEof.AscendingCopyBreaks`).
- StackImage.InitStack: what the stores of a wrongly accepted list hit is not modelled, only that they leave the page; nor are its exits when the finished page cannot be mapped.
- Field widths of printnum are unbounded integers.
