# A verified model of the OSLab kernel and its file server

The repository is a small AArch64 kernel (four-level page tables, environments, a round-robin
scheduler, IPC) with a user-level file server and its client library.  This project models its
core in Dafny and proves properties of it that span functions and whole runs.

How the model is laid out:

* State that the C code updates in place is a class (`PhysicalMemory`, `EnvironmentTable`, `Machine`,
  `BootMemory`, `FileServer`, `FileClient`, `OpenFiles`, `IntrusiveList`).  Each class has an abstract
  value (`State()`), and each method is proved to take that value through a specification function or
  to a stated result, with the loops of the source and their invariants.
* The theorems are lemmas about the specification functions: invariants over all runs, refinement of
  flat maps, round trips, and "exactly when" statements where the code does less than it seems to.

| files | subject |
|---|---|
| `Mmu`, `IntrusiveList`, `PageTable`, `FrameState`, `PageMap`, `Pmap`, `PageRuns`, `Spaces` | page tables and the frame allocator |
| `EnvTable`, `EnvRuns`, `Scheduling`, `EnvEffects`, `Mailbox`, `Environments` | environments, scheduler, mailboxes |
| `EnvSetup`, `Fork`, `Kernel`, `MemAlloc` | address spaces of environments, `sys_fork`, memory system calls |
| `Bytes`, `Elf`, `ElfFormat`, `Icode`, `Boot` | copying bytes, ELF loading and the layout it reads, `load_icode`, boot-time mapping |
| `Rpc`, `OpenTable`, `FsService` | the request and reply protocol, file identifiers, `serve_open` as a handler of the protocol |
| `FsBlocks`, `FsServer`, `FsSpace`, `FsDir`, `FsLookup`, `FsPath`, `FsTree`, `FsRoundTrip` | the file system |
| `FileWindow`, `FileClient` | the client's file windows |
| `PrintNum` | number formatting |
| `Option`, `Sets` | helpers |

## What the proofs found

* `page_insert` keeps the frame invariant exactly when the frame is neither free nor a table and its count does
  not wrap around 16 bits (`EnvSetup.InsertKeepsInvIff`).  The loop of `env_setup_vm` over UPAGES takes its base
  from UENVS: for the first environment after boot every frame it maps is still on the free list, and its first
  turn breaks the invariant (`EnvSetup.PagesWindowFramesFree`, `Kernel.PagesWindowBreaksInv`).  So that loop is
  not part of `Machine.EnvSetupVm`.
* `page_init` leaves every count exact but those of the kernel image, which are one too high from the start
  (`PageRuns.BootExact`).  In a run from there the counts of the frames above the image stay exact if and only if
  the run never maps over such a frame and never counts one on its own (`PageRuns.CountsExactIff`,
  `PageMap.ExactAfterInsertIff`).  A frame mapped over is free in no later state
  (`PageRuns.OverwrittenFrameNeverFreed`).  `load_icode_mapper` does count on its own before it maps, so no page it
  loads is ever freed (`Elf.LoadedPageNeverFreed`).
* Permissions with bits above bit 11 can change the frame an entry names; `Mmu.LeafEntryNamesFrame` says when.
* `serve_open` goes on after a failed call.  When the file could not be opened it reads the file through a null
  pointer, which stops the machine or leads to one more reply; either way the server never returns to receive
  (`FsService.MissingFileStopsServer`).  When `open_alloc` failed and the file is there, the pointer to the table
  entry was never set and nothing is claimed.  In all other cases the server returns to receive if and only if
  the file was opened (`FsService.ServerReturnsIffOpened`).  The replies that clients consume match throughout
  (`Rpc.ReplyMatching`).
* Environment identifiers start over after 2^21 allocations (`EnvRuns.IdsRepeat`).
* `open_lookup` accepts identifiers that were never issued, for slots never used (`OpenTable.AcceptsUnissuedIff`).
* Freed disk blocks stay mapped, and `alloc_block` clears a block only when it maps it.  So a block of file data,
  freed by `file_truncate` and reused as a pointer table, brings its former data with it as pointers.  Block
  ownership survives `file_map_block` if and only if no table is made, or the words of its block are all zero or
  name allocated blocks nobody else points to (`FsBlocks.MapBlockOwnedIff`); reading, truncating and growing one
  file is enough to break it (`FsBlocks.StaleTableBreaksOwnership`).
* `file_truncate` keeps a block that starts where the new file ends, and past both ends there are blocks it does
  not look at; `FsBlocks.TruncateExact` says in bytes which blocks it keeps, unmaps and leaves.
* `file_truncate` drops the pointer table of a file before it frees the blocks behind it, and never frees the table.
  Those blocks are lost: not free, and named by nothing (`FsSpace.TruncateAccountedIff`, `FsSpace.RemoveAccountedIff`).
  Over any run the blocks in use stay the ones that pointers name if and only if no truncation drops a table
  (`FsSpace.AccountedIffNeverLoses`).
* A `file_create` that finds its directory and the disk full leaves the directory a block longer, with a hole at its
  end; in all other cases it leaves the file system well kept (`FsRoundTrip.CreateAnswers`).
* A refused `ftruncate`, a refused `close`, and an `open` whose mapping is refused half way leave window and size
  apart; `FileWindow.RefusedTruncateAgreesIff`, `FileWindow.CloseAgreesIff` and `FileWindow.OpenAgreesIff` say when.
* A `file_read` returns the bytes of the file, cut at its end, if and only if it starts past the end or its range does
  not wrap around 32 bits (`FileWindow.ReadsFileIff`).
* A `file_write` that reaches its copy succeeds and sets exactly its bytes if and only if `offset + n` does not
  wrap around 32 bits (`FileWindow.WriteMeansIff`); two bytes at `0xFFFFFFFF` fault (`FileWindow.WrappingWriteFaults`).

## Model

| member | source | states |
|---|---|---|
| Mmu.VpnIsItsIndices | OS/include/mmu.h:15-23 | the 28-bit VPN is the four table indices read as one mixed-radix number |
| Mmu.SamePathIffSamePage | OS/include/mmu.h:15-23 | two addresses take the same path through the four levels exactly when they have the same VPN |
| Mmu.TableEntryNamesTable | OS/mm/pmap.c:81-81 | the entry written for a new table is its address and 3, is valid, and `PTE_ADDR` of it is that table |
| Mmu.LeafEntryNamesFrame | OS/mm/pmap.c:112-117 | a leaf entry is valid, and names the inserted frame exactly when the bits of `perm` above bit 11 lie within the frame number |
| Mmu.BitOrIsBitwise | OS/mm/pmap.c:112-117 | the OR that assembles entries sets each bit exactly if it is set in one of the two words |
| Mmu.PresentIff | OS/mm/pmap.c:131-131 | an entry counts as present exactly if bit 0 or bit 1 is set |
| Mmu.LeafEntryFields | OS/mm/pmap.c:112-117 | every bit of a leaf entry for any frame and perm: from bit 12 up the frame or'ed with perm's bits, below it perm's bits or'ed with 0x703 |
| Mmu.UserEntries | OS/include/mmu.h:42-49 | a page inserted with `ATTRIB_AP_RO_ALL` gets its frame address and 0x7C3, with `ATTRIB_AP_RW_ALL` its frame address and 0x743 |
| Lists.IntrusiveList.InsertHead | OS/include/queue.h:135-140 | rewriting the head, `le_next` and `le_prev` pushes the element in front of the list |
| Lists.IntrusiveList.Remove | OS/include/queue.h:148-153 | unlinking through the back pointer removes exactly that element from the list |
| Lists.UnlinkThreads | OS/include/queue.h:148-153 | after the pointer splice, the pointers thread the sequence without that element |
| PageTable.AddressSpaceAt | OS/mm/pmap.c:68-107 | the flat map of a directory holds at the VPN of va what the four-level walk of va finds |
| PageTable.WalksAreInjective | OS/mm/pmap.c:68-107 | two walks end in the same slot only for the same directory and the same VPN |
| PageTable.StoreLeaf | OS/mm/pmap.c:117-117 | writing one leaf slot changes the leaf of one path of one directory and of no other |
| FrameState.WalkInv | OS/mm/pmap.c:68-107 | a creating walk keeps the frame invariant, ends in the table of its path, disturbs no address space, and fails only when fewer than three frames are free |
| FrameState.AllocInv | OS/mm/pmap.c:45-57 | the allocated frame was free, is zeroed, is no table and is named by no entry |
| PageMap.InsertRefinesFlatMap | OS/mm/pmap.c:109-122 | for every frame and every 32-bit perm, `page_insert` sets va's entry in exactly one directory's flat map, to the frame or'ed with perm's bits from bit 12 up and perm's bits or'ed with 0x703 below; a lookup then finds the inserted frame if and only if the bits of perm above bit 11 lie within the frame number |
| PageMap.InsertMapsFrame | OS/mm/pmap.c:109-122 | for a frame that holds data and flags below bit 12 the frame invariant is kept as well, the entry is the frame address with perm or'ed with 0x703, and a lookup finds the frame; it fails only when fewer than three frames are free |
| PageMap.InsertTakes | OS/mm/pmap.c:68-122 | an insertion takes at most three frames, from the front of the free list, and fails only for want of them |
| PageMap.LookupReadsFlatMap | OS/mm/pmap.c:124-139 | `page_lookup` returns the frame the flat map holds, and null exactly where it holds none |
| PageMap.RemoveRefinesFlatMap | OS/mm/pmap.c:147-161 | `page_remove` deletes exactly va's entry from exactly one flat map and keeps the invariant |
| PageMap.RemoveGivesBack | OS/mm/pmap.c:147-161 | the frame unmapped loses one count and goes to the head of the free list exactly when that was its last, no other count, list or data frame changes; where nothing is mapped nothing happens |
| PageMap.FreedIffUnnamed | OS/mm/pmap.c:153-157 | while counts are exact, unmapping a frame above the kernel image frees it exactly when no entry names it any more |
| PageMap.ClearFreesUnreferenced | OS/mm/pmap.c:154-158 | a frame whose count drops to zero is named by no other leaf entry |
| PageMap.OverwriteOvercounts | OS/mm/pmap.c:114-120 | mapping over a mapped page, with the same frame or another, leaves the frame that was there counted more often than it is named |
| PageMap.ExactAfterInsertIff | OS/mm/pmap.c:109-122 | counts of the frames above the kernel image that equal the number of naming entries still do after `page_insert` if and only if no such frame was mapped at va |
| PageMap.ExactAfterCountUpIff | OS/lib/env.c:106-106 | `pp_ref++` on its own keeps the invariant, and keeps those counts exact if and only if the frame belongs to the kernel image |
| PageMap.NewDirectoryIsEmpty | OS/lib/env.c:54-58 | the frame taken as a page directory is the head of the free list, is counted once, has an empty address space and leaves all others alone |
| PageRuns.FrameSafety | OS/mm/pmap.c:45-161 | after every run the free list has no duplicates, holds no table and no mapped frame, and every other frame's count is at least its number of leaf references |
| PageRuns.OverwrittenFrameNeverFreed | OS/mm/pmap.c:109-161 | after a mapping over frame q, q is free in no later state of any run |
| PageRuns.BootExact | OS/mm/pmap.c:6-17 | after `page_init` the counts are exact above the kernel image, and each frame of the image is counted above its references |
| PageRuns.CountsExactIff | OS/mm/pmap.c:6-161 | in every run from the state `page_init` builds, the counts above the kernel image are exact at the end if and only if no operation mapped over a frame above the image or counted one without mapping it |
| PageRuns.TablesCountedOnce | OS/mm/pmap.c:6-161 | in every run from boot each page table, directories included, has count 1 |
| Pmap.InitInv | OS/mm/pmap.c:6-17 | the state `page_init` builds satisfies the frame invariant |
| Pmap.BootListCountsDown | OS/mm/pmap.c:6-17 | the list `page_init` builds counts down from the last frame to the first above the kernel image |
| Pmap.PhysicalMemory.constructor | OS/mm/pmap.c:6-17 | `page_init`: frames below KTOP have count 1, the rest are on the free list in descending order |
| Pmap.PhysicalMemory.ZeroPage | OS/mm/pmap.c:19-28 | the `bzero` loop on a page clears that page and nothing else |
| Pmap.PhysicalMemory.PageAlloc | OS/mm/pmap.c:45-57 | pops the head of the free list, zeroes the frame and its count; fails exactly on an empty list |
| Pmap.PhysicalMemory.PageFree | OS/mm/pmap.c:59-66 | puts the frame back in front of the free list only if its count is zero |
| Pmap.PhysicalMemory.PgdirWalk | OS/mm/pmap.c:68-107 | returns the slot of the walk; without `create` nothing changes, with it the missing tables are made |
| Pmap.PhysicalMemory.PageInsert | OS/mm/pmap.c:109-122 | the in-place `page_insert`, performing the transition that `InsertRefinesFlatMap` and `InsertMapsFrame` are about |
| Pmap.PhysicalMemory.PageLookup | OS/mm/pmap.c:124-139 | reads the mapping and its slot and changes nothing |
| Pmap.PhysicalMemory.PageRemove | OS/mm/pmap.c:147-161 | the in-place `page_remove`, performing the transition that `RemoveRefinesFlatMap`, `RemoveGivesBack` and `FreedIffUnnamed` are about |
| Spaces.MappedFrameIsData | OS/mm/pmap.c:109-139 | a frame that an address space names is neither free nor a table |
| Spaces.InsertBeside | OS/mm/pmap.c:109-122 | an insertion leaves every other address space and the content of every data frame as it was |
| Spaces.SharedFrame | OS/lib/syscall_all.c:176-181 | mapping the frame of srcva at dstva makes both addresses name the same frame if and only if the bits of perm above bit 11 lie within the frame number |
| EnvSetup.InsertKeepsInvIff | OS/lib/env.c:60-67 | inserting a frame keeps the frame invariant if and only if it is neither free nor a table and its count is below 0xFFFF |
| EnvSetup.PagesWindowFramesFree | OS/lib/env.c:65-67 | after any allocation of up to 0xE000 frames from the boot list, every frame the UPAGES loop maps is still free, and is not the page array's |
| Kernel.PagesWindowBreaksInv | OS/lib/env.c:65-67 | in the state `env_setup_vm` has reached for the first environment after boot, the first turn of the UPAGES loop succeeds and breaks the frame invariant |
| EnvSetup.EnvsWindowStep | OS/lib/env.c:61-63 | one turn of the UENVS loop maps the next frame of the environment table and nothing else |
| Kernel.Machine.EnvSetupVm | OS/lib/env.c:51-63 | a new directory appears that maps exactly the environment table, every other space is unchanged, and at most 1 + 3 * 96 frames are taken; it fails only when fewer were free |
| Kernel.Machine.EnvAllocate | OS/lib/env.c:72-93 | the first free environment leaves the list with a directory of its own, a new id and the parent's id; a panic means no free environment or too few frames for an address space |
| Kernel.Machine.SysEnvAllocate | OS/lib/syscall_all.c:121-134 | the child gets the parent's trapframe from the time stack with `regs[0]` 0 and is not runnable; panics only as `env_alloc` does |
| Fork.CopyPageEffect | OS/lib/syscall_all.c:214-219 | copying one page maps a frame that was free, with the parent's bytes and the flags 0x743, and touches nothing else |
| Fork.CopyStep | OS/lib/syscall_all.c:213-220 | one more turn of the loop extends the copied prefix by one page and keeps what was copied |
| Fork.CopyPageTakes | OS/lib/syscall_all.c:214-219 | a turn takes at most four frames, none where the parent maps nothing, and fails only with fewer than four free |
| Fork.MappedBelowCounts | OS/lib/syscall_all.c:213-217 | the budget of the copy loop counts the pages that the parent maps |
| Kernel.CopyUserPages | OS/lib/syscall_all.c:213-220 | the loop in place: every page below USTACKTOP is copied within four frames a page, or fewer frames were free than that |
| Kernel.Machine.SysFork | OS/lib/syscall_all.c:204-223 | below USTACKTOP the child is mapped where the parent is, with equal bytes in fresh frames; above, it maps the environment table and nothing else; every earlier space is unchanged, and the trapframe is the parent's but for `regs[0]`; a panic means no free environment or fewer free frames than a new space and four for each of the parent's pages |
| Kernel.ForkIsPrivate | OS/lib/syscall_all.c:213-220 | no other page of any address space, the child's own included, names the frame of a copied page |
| Kernel.SpawnedIdResolves | OS/lib/syscall_all.c:211-212 | the id `sys_env_alloc` returns resolves to the new environment |
| MemAlloc.SysMemAlloc | OS/lib/syscall_all.c:49-76 | fails exactly for va above UTOP or a bad id, panics only with fewer than four frames free, and on success maps a zeroed frame at va and nothing else |
| MemAlloc.GivenPageIsPrivate | OS/lib/syscall_all.c:62-68 | no other page of any address space names the frame `sys_mem_alloc` hands out |
| MemAlloc.AllocatedEntry | OS/lib/syscall_all.c:68-68 | the entry of an allocated page is its frame address and perm or'ed with 0x743 |
| Kernel.Machine.SysMemMap | OS/lib/syscall_all.c:78-107 | unless the source frame's count is about to wrap: fails exactly for a bad id or an unmapped source and changes nothing then; panics only with fewer than three frames free; else dstva names the frame of srcva |
| Kernel.Machine.SysMemUnmap | OS/lib/syscall_all.c:109-119 | a refused id changes nothing; else the page leaves that environment's space only, and its frame loses a count and is free again with its last |
| Kernel.Machine.SysIpcSend | OS/lib/syscall_all.c:164-188 | delivers the message, and shares the sender's frame when both sides name an address; panics only with fewer than three frames free |
| EnvRuns.IssuedIdsDistinct | OS/lib/env.c:15-19 | in every run from boot all ids issued are different from each other and from 0 |
| EnvRuns.IdsRepeat | OS/lib/env.c:15-19 | 2^21 allocations later a slot gets the same id again |
| EnvRuns.LiveIdResolves | OS/lib/env.c:21-38 | in every run from boot the id of an environment that is not free resolves to precisely its slot |
| EnvRuns.IdResolvesIff | OS/lib/env.c:21-38 | in every run from boot an id, issued or not, leads to a slot if and only if the slot is live and carries it; 0 leads to the current environment |
| EnvRuns.DeadIdRejectedForever | OS/lib/env.c:21-38 | an id whose slot was freed or reissued is rejected in every later state of every run |
| EnvRuns.DestroyedIdRejectedForever | OS/lib/env.c:153-166 | once `sys_env_destroy` freed an environment, its id is rejected in every later state of every run |
| EnvRuns.RunsKeepIdentities | OS/lib/env.c:72-166 | every run keeps the free list duplicate-free with only free slots, curenv off it, and ids fitting their slots |
| EnvRuns.PermittedIdIff | OS/lib/env.c:21-38 | under `checkperm` the slot must besides be the current environment or its child |
| Environments.EnvironmentTable.Alloc | OS/lib/env.c:72-93 | the in-place `env_alloc` is the transition the run theorems are about |
| Environments.EnvironmentTable.Destroy | OS/lib/env.c:159-166 | the in-place `env_destroy`, which schedules when it destroys the current environment |
| Environments.EnvironmentTable.Run | OS/lib/env.c:170-181 | saves the time stack into the old environment, loads the new one's and installs its directory |
| Environments.EnvironmentTable.SysEnvDestroy | OS/lib/syscall_all.c:28-36 | the in-place `sys_env_destroy`, which fails exactly on an id that `envid2env` refuses |
| Environments.EnvironmentTable.SysSetEnvStatus | OS/lib/syscall_all.c:136-147 | refuses codes other than 0, 1 and 2, then ids that `envid2env` refuses, changing nothing; otherwise stores the status |
| Environments.EnvironmentTable.SysIpcRecv | OS/lib/syscall_all.c:157-162 | the in-place opening of the mailbox, followed by the switch to another environment |
| EnvEffects.CreatedEntry | OS/lib/env.c:72-93 | `env_alloc` takes the head of the free list and makes it runnable, with the id of the next generation, spsr 0 and sp 0x01000000, its other registers and mailbox as they were |
| EnvEffects.SpawnedEntry | OS/lib/syscall_all.c:121-134 | the child of `sys_env_alloc` is not runnable, its mailbox closed, its registers the parent's but for `regs[0]`, which is 0 |
| EnvEffects.DestroyedEntry | OS/lib/env.c:153-166 | `env_destroy` frees the slot, at the front of the list; if it was running, the first runnable environment after the last pick runs instead, else nothing on the CPU changes |
| EnvEffects.ReceiverWaits | OS/lib/syscall_all.c:157-162 | `sys_ipc_recv` leaves the caller not runnable with its mailbox open for dstva and its registers saved, and runs the first runnable environment after the last pick |
| EnvEffects.SendEffect | OS/lib/syscall_all.c:164-188 | a send succeeds exactly for an accepted id with an open mailbox; it leaves value, sender and, with a page, permissions there, closes it and wakes the receiver; with BAD_ENV or IPC_NOT_RECV nothing changes |
| EnvEffects.StatusStored | OS/lib/syscall_all.c:136-147 | codes 0, 1 and 2 are stored as free, runnable and not runnable in the one slot named |
| Scheduling.SwitchesKeepTrapframes | OS/lib/env.c:170-181 | any sequence of `env_run` steps preserves every environment's logical trapframe |
| Scheduling.RunsKeepDirectory | OS/lib/env.c:175-177 | in every run the installed page directory is the current environment's |
| Scheduling.StepKeepsTrapframe | OS/lib/env.c:170-181 | no operation but an environment's own code changes what it will resume with |
| Environments.EnvironmentTable.AdvancePick | OS/lib/sched.c:6-13 | the loop ends whenever some environment is runnable, at the first runnable slot after the last pick |
| Scheduling.PickIsFirst | OS/lib/sched.c:6-13 | no runnable environment is nearer in cyclic order than the picked one |
| Scheduling.PickComesCloser | OS/lib/sched.c:6-13 | a waiting runnable environment is picked or its cyclic distance strictly decreases |
| Scheduling.YieldRunsFirst | OS/lib/sched.c:3-14 | `sched_yield` makes the cyclically first runnable environment after the last pick current and the last pick, with its registers and directory, saves the old one's registers and changes nothing else in the table |
| Scheduling.PickedWithinNenv | OS/lib/sched.c:3-14 | however the table changes between calls, an environment that stays runnable is made current by one of NENV successive calls of `sched_yield` |
| Scheduling.WaitIsBounded | OS/lib/sched.c:3-14 | in every run of the environment operations, an environment that stays runnable and is not run has waited for fewer reschedules, by yield, receive or destroy, than its distance from the pick, at most NENV |
| Mailbox.MessageStable | OS/lib/syscall_all.c:157-188 | once delivered, value and sender stay unchanged in every run until the receiver's next `sys_ipc_recv` |
| Mailbox.DeliveryFillsMailbox | OS/lib/syscall_all.c:183-187 | a successful send leaves the sender's value and id in a closed mailbox |
| Mailbox.DeliveriesMatchReceives | OS/lib/syscall_all.c:157-188 | in every run the deliveries number the receives, less the one still waiting |
| Bytes.Bcopy | OS/mm/pmap.c:30-43 | the copy loops, four bytes at a time and then one by one, copy exactly the given bytes |
| Bytes.BcopyOntoZeroPage | OS/mm/pmap.c:30-43 | `bcopy` onto a zeroed page leaves the page that the loader model copies by words: the bytes, then zeros |
| Elf.LoadIcodeMapper | OS/lib/env.c:95-126 | every page of the segment is mapped to file bytes followed by zeros, pages outside it keep their content; a panic means fewer than four free frames for each of its pages |
| Elf.LoadElf | OS/lib/kernel_elfloader.c:16-55 | a file without the magic is refused unchanged; otherwise all loadable segments are in memory, every page outside them is mapped as it was with the content it had, and the entry point is returned, unless fewer than four frames for each page of the image were free |
| Elf.LoadedPageNeverFreed | OS/lib/env.c:101-112 | a page loaded by `load_icode_mapper` is counted twice for its one entry, so its frame is free in no later state of any run |
| Icode.LoadIcode | OS/lib/env.c:128-146 | after `load_icode` the segments are in memory and, unless a segment covers it, the page below USTACKTOP holds zeros; a panic means fewer free frames than four for that page and for each page of the image |
| Elf.MemoryImage | OS/lib/kernel_elfloader.c:39-51 | after a load, byte k of each segment is the file's byte below p_filesz and zero from there to p_memsz |
| Elf.PagesOfIff | OS/lib/env.c:95-126 | the pages made for a segment are the ones its bytes lie in, and no more |
| Elf.ImagePagesCount | OS/lib/kernel_elfloader.c:39-51 | the price of an image counts each page of each loadable segment once |
| ElfFormat.FileHeaderRoundTrip | OS/include/kerelf.h:19-35 | a file header laid out field after field is read back: magic, entry point, and the table of program headers |
| ElfFormat.MagicIff | OS/lib/kernel_elfloader.c:3-14 | `is_elf_format` accepts exactly the files that begin with the four bytes of the magic |
| ElfFormat.HeaderRoundTrip | OS/include/kerelf.h:43-53 | a program header laid out field after field is read back |
| Elf.SegmentSurvives | OS/lib/kernel_elfloader.c:39-51 | loading a page-disjoint segment keeps a loaded one |
| Boot.BootEntryNamesPage | OS/boot/vm.c:63-63 | a boot entry is valid and names the physical page it was made for |
| Boot.BootEntryFields | OS/boot/vm.c:63-63 | for an attribute below bit 12 it is the page address, the attribute or'ed with 0x703, and bit 54 |
| Boot.GigabyteEntries | OS/boot/vm.c:67-77 | as numbers: page address, bit 54 and 0x703 for normal memory, 0x707 for device memory |
| Boot.BootTableEntryNamesTable | OS/boot/vm.c:38-54 | the entry of a boot table is its kernel address and 3, and names the table |
| Boot.MapPageInv | OS/boot/vm.c:28-65 | mapping one page keeps the boot tables zeroed-and-disjoint invariant and changes one leaf |
| Boot.BootMemory.BootAlloc | OS/boot/vm.c:16-25 | hands out the next page, cleared, and moves `freemem` past it |
| Boot.BootMemory.BootMapSegment | OS/boot/vm.c:58-65 | each page of the range translates to the matching physical page with the attribute, all other translations stay; failure means less room than three tables for each page |
| Boot.BootMemory.VmInit | OS/boot/vm.c:67-77 | the first gigabyte maps to itself in two halves of attributes, with 515 pages used, below KERNEL_PAGES |
| Boot.InOrderRoom | OS/boot/vm.c:67-77 | mapping the gigabyte in order cannot run out of the pages counted for it |
| Rpc.ReplyMatching | OS/user/serv.c:243-282 | in every interleaving the k-th reply a client consumes is the handler's answer to its k-th request |
| Rpc.DeliveredReplyIsFirst | OS/user/ipc.c:10-20 | a reply is delivered only as the first answer to a request |
| Rpc.StuckForever | OS/user/ipc.c:10-20 | a server that still has a second reply to send, or whose handler does not return, stays as it is in every continuation: that reply is never delivered and no further request is handled |
| Rpc.ReturnsToReceiveIffOneReply | OS/user/serv.c:247-281 | after the first reply the server can return to receive if and only if that was the only one and the handler returns |
| Rpc.StepIsSystemCall | OS/lib/syscall_all.c:157-188 | each step of the protocol does to the environments what `sys_ipc_can_send` or the opening of `sys_ipc_recv` does for the environment that takes it |
| FsService.AnswersOnceIffOpened | OS/user/serv.c:130-161 | `serve_open`, built from `open_alloc` and `file_open`, sends one reply and returns exactly when both succeed, the case of an unset table pointer aside |
| FsService.OpenedReply | OS/user/serv.c:130-161 | when both succeed the one reply is 0, and exactly one id was issued |
| FsService.FailedOpenReply | OS/user/serv.c:142-161 | when the file was not opened its error goes out as an unsigned 64-bit number, 2^64 - 9 for NOT_FOUND and so on, after the 2^64 - 8 of a full table if it was full; with a slot one more reply, 0, follows if address 0 can be read, and the handler does not return if it cannot |
| FsService.OpenKeepsDisk | OS/user/serv.c:146-146 | on a well-kept disk a request to open changes only which pages are mapped |
| FsService.PathInMeans | OS/user/serv.c:139-141 | the path in a request ends at 1023 characters, at the end of the request or at its first NUL |
| FsService.ServerReturnsIffOpened | OS/user/serv.c:130-161 | in every run, once the first reply to a request to open is out, the server can return to receive if and only if the file was opened, the case of an unset table pointer aside |
| FsService.MissingFileStopsServer | OS/user/serv.c:130-161 | in every run, once the first reply to a request for a file that cannot be opened is out, the server never receives again |
| OpenTable.RunSound | OS/user/serv.c:99-117 | however page counts change, no file id is issued twice and each id names its slot |
| OpenTable.RunCountsUses | OS/user/serv.c:99-117 | in every run the id of slot i is i and 1024 for each time the slot was given out |
| OpenTable.AcceptsIssuedIff | OS/user/serv.c:119-128 | an issued id is accepted exactly while it is its slot's last one and the page count is not 1 |
| OpenTable.AcceptsUnissuedIff | OS/user/serv.c:119-128 | an id never issued is accepted exactly for a slot never used whose number it is |
| OpenTable.OpenFiles.OpenAlloc | OS/user/serv.c:99-117 | takes the first slot whose page count is at most 1 and adds MAXOPEN to its id |
| OpenTable.OpenFiles.OpenLookup | OS/user/serv.c:119-128 | returns the slot of an accepted id |
| FsServer.FileServer.BlockIsFree | OS/user/fs.c:96-104 | reads the bit of the block in the bitmap words |
| FsServer.FileServer.ReadBlockPage | OS/user/fs.c:57-81 | `read_block` maps the block, and panics exactly on a block outside the disk or free |
| FsServer.FileServer.AllocBlockNum | OS/user/fs.c:112-122 | returns the first free block from 3 on and clears just its bit |
| FsServer.FileServer.FileMapBlock | OS/user/fs.c:201-218 | the in-place `file_map_block`, which keeps block ownership and never panics while new tables arrive empty |
| FsServer.FileServer.FileTruncate | OS/user/fs.c:383-401 | the in-place `file_truncate`, performing the transition that `FsBlocks.TruncateExact` and `FsSpace.TruncateFrees` are about, and keeping block ownership |
| FsBlocks.AllocKeepsOwned | OS/user/fs.c:112-135 | an allocated block is in range and no pointer names it |
| FsBlocks.MapBlockOwned | OS/user/fs.c:174-218 | while new tables arrive empty, block mapping keeps every pointer on its own allocated block, cannot reach the free-block panic of `read_block`, and changes only the asked file block |
| FsBlocks.MapBlockOwnedIff | OS/user/fs.c:174-218 | a successful `file_map_block` keeps block ownership if and only if it makes no table, or the block it makes it in is harmless on arrival |
| FsBlocks.TableMadeOwnedIff | OS/user/fs.c:178-192 | making a pointer table keeps ownership if and only if its block was unmapped, or each word of the table's part is 0 or names an allocated block that no pointer and no other word names |
| FsBlocks.MapBlockReads | OS/user/fs.c:201-218 | without `alloc` the answer is the block map: the block, NOT_FOUND or INVAL |
| FsBlocks.ClearBlockOwned | OS/user/fs.c:220-231 | clearing unmaps exactly that file block and keeps ownership |
| FsBlocks.TruncateOwned | OS/user/fs.c:383-401 | truncation keeps ownership and leaves every other file's pointers alone |
| FsBlocks.TruncateExact | OS/user/fs.c:383-401 | in bytes: a block that starts at or below a new size above 0 keeps its map; every other block that starts at or below the old size, or lies behind the table of a file cut below NDIRECT blocks, reads NOT_FOUND; the rest keep theirs; so all blocks not kept are unmapped if and only if none was mapped that the code does not reach |
| FsBlocks.TruncateKeepsBytes | OS/user/fs.c:383-401 | every byte below the new size is found in the block it was in |
| FsSpace.AllocTakesFirst | OS/user/fs.c:112-135 | `alloc_block` takes the first free block from 3 on, clears just its bit, and fails exactly when there is none |
| FsSpace.MapBlockAnswers | OS/user/fs.c:174-218 | with `alloc`, while new tables arrive empty, the answer is INVAL past the table, and else NO_DISK if and only if fewer data blocks are free than the call needs: 2 with a table to make, 1 for an unmapped block, 0 for a mapped one |
| FsSpace.MapBlockSpace | OS/user/fs.c:174-218 | block mapping keeps the blocks in use the ones that pointers name, and finds no lost block again |
| FsSpace.ClearBlockFrees | OS/user/fs.c:220-231 | clearing gives back the block it unmaps |
| FsSpace.TruncateFrees | OS/user/fs.c:383-401 | the blocks truncation frees are the ones mapped at blocks that are not kept and start at or below the old size, those behind a dropped table excepted |
| FsSpace.TruncateAccountedIff | OS/user/fs.c:383-401 | truncation keeps the blocks in use the ones that pointers name if and only if the file has no pointer table or is not cut below NDIRECT blocks |
| FsSpace.RemoveAccountedIff | OS/user/fs.c:446-459 | `file_remove` does so if and only if the file has no pointer table |
| FsSpace.RemovedIsEmpty | OS/user/fs.c:446-459 | the removed slot has no name and no bytes, and no block that a file of its size has |
| FsSpace.LostForever | OS/user/fs.c:174-401 | a block that is neither free nor named stays so in every run |
| FsSpace.AccountedIffNeverLoses | OS/user/fs.c:174-401 | in every run of mapping, truncating and reading from a disk whose blocks in use are the ones that pointers name, that is so at the end if and only if no truncation dropped a pointer table |
| FsSpace.OneFileDiskAccounted | OS/user/fs.c:127-139 | the concrete disk with one file is such a disk |
| FsBlocks.TableAllocSafeIff | OS/user/fs.c:127-139 | making a pointer table maps nothing by accident if and only if its block was unmapped or holds zeros |
| FsBlocks.StaleTableBreaksOwnership | OS/user/fs.c:127-139 | reading a one-block file, truncating it and growing it past its direct blocks takes an owned disk to one where two pointers name one block |
| FsTree.OneFileDiskOk | OS/user/fs.c:127-139 | that disk is a well-kept file system: unique names, and a root directory with all its slots |
| FsDir.FindMeans | OS/user/fs.c:256-277 | the search finds an entry with the name exactly when there is one |
| FsDir.FindIsFirst | OS/user/fs.c:256-277 | the entry found is the first with the name, in the order of blocks and slots |
| FsDir.DirLookupFinds | OS/user/fs.c:256-277 | on a well-kept directory `dir_lookup` returns what the directory holds and changes only which pages are mapped |
| FsLookup.LookupName | OS/user/fs.c:256-277 | the loops of `dir_lookup` compute that search |
| FsLookup.AllocSlot | OS/user/fs.c:279-304 | the loops of `dir_alloc_file` return the first empty slot, or the first slot of a new block |
| FsPath.NamesAtSlash | OS/user/fs.c:306-332 | a slash separates the names of a path and means nothing else |
| FsPath.ExtraSlashes | OS/user/fs.c:306-311 | slashes at the front, at the end or doubled never change the names |
| FsPath.SkipSlash | OS/user/fs.c:306-311 | skips to the next character that is no slash, keeping the names |
| FsPath.WalkPath | OS/user/fs.c:313-359 | the pointer loop equals splitting the path, dropping empty pieces and folding lookups from the root, with all codes, `pdir` and `lastelem` |
| FsPath.FilledInIffOnlyLastMissing | OS/user/fs.c:341-351 | on failure `pdir` and `lastelem` are filled in exactly when only the final name is missing |
| FsTree.ResolveLocates | OS/user/fs.c:313-363 | in a well-kept file system a walk changes nothing and leads where the directories say |
| FsTree.ResolveIff | OS/user/fs.c:313-359 | in a well-kept file system `walk_path` returns the file at the end of the names' trail of directories from the root, BAD_PATH exactly where a trail meets a name of 128 characters or more, and else NOT_FOUND |
| FsTree.LocateWithout | OS/user/fs.c:313-363 | taking away one slot that is no directory makes its paths NOT_FOUND and no other |
| FsRoundTrip.DirAllocFindsRoom | OS/user/fs.c:279-304 | `dir_alloc_file` returns an unused slot of the directory and disturbs no named entry |
| FsRoundTrip.PathUnique | OS/user/fs.c:313-363 | in a well-kept file system two lists of names that lead to the same file are equal |
| FsRoundTrip.CreateThenOpen | OS/user/fs.c:365-381 | after `file_create(path)`, `file_open(q)` returns the new slot if and only if q has the names of path, which opened nothing before; every other path opens the file it did, and names stay unique |
| FsRoundTrip.CreateAnswers | OS/user/fs.c:365-381 | `file_create` answers FILE_EXISTS exactly for a path that opens, BAD_PATH exactly for one that opens so, NOT_FOUND exactly when more than the last name is missing or its full directory cannot grow, and leaves the file system well kept if and only if not the latter |
| FsRoundTrip.RemoveThenOpen | OS/user/fs.c:446-459 | after `file_remove(path)` of a regular file, every path with the names of path is NOT_FOUND, no path opens the removed slot, and every other path opens the file it did |
| FsRoundTrip.RemoveFails | OS/user/fs.c:446-451 | of a path that opens nothing it answers the path's own error and changes nothing |
| FileWindow.WindowsDisjoint | OS/user/fd.c:4-9 | pages of different windows, and of windows and descriptors, never coincide |
| FileWindow.StaysInWindowIff | OS/user/fd.c:4-9 | a file's pages stay clear of the next window exactly when its size is at most MAXFILESIZE |
| FileWindow.TruncateAgrees | OS/user/file.c:143-177 | after a successful `ftruncate`, whatever frames the server answered with, page i of the window is mapped iff i is below the rounded-up size, and kept pages keep their frames |
| FileWindow.TruncateShowsAnswers | OS/user/file.c:163-168 | the pages it adds show the frames the server answered with |
| FileWindow.TruncateCode | OS/user/file.c:143-177 | NO_DISK exactly above 4 MB, INVAL exactly for an unknown descriptor, both without effect; success exactly when the server agrees and answers for every new page |
| FileWindow.TruncateOnlyWindow | OS/user/file.c:143-177 | whatever comes of it, `ftruncate` changes no page outside its own window |
| FileWindow.TruncateKeepsFiles | OS/user/file.c:143-177 | whatever comes of it, `ftruncate` leaves size and bytes of every other file as they were |
| FileWindow.RefusedTruncateAgreesIff | OS/user/file.c:160-170 | after a refusal the window agrees with the stored size exactly when both sizes need equally many pages |
| FileWindow.OpenAgreesIff | OS/user/file.c:23-49 | after `open` the windows agree if and only if it changed nothing, or succeeded on a file of at most MAXFILESIZE bytes; a mapping refused half way leaves the descriptor behind |
| FileWindow.OpenTakes | OS/user/file.c:23-49 | a successful `open` takes a descriptor that was not in use and gives it the file |
| FileWindow.OpenCode | OS/user/file.c:23-49 | MAX_OPEN exactly when all 31 descriptors are in use, success exactly when the server opens the file and answers for every page |
| FileWindow.OpenKeepsFiles | OS/user/file.c:23-49 | opening a file of legal size leaves the open files as they were, whatever comes of it |
| FileWindow.CloseAgreesIff | OS/user/file.c:51-77 | after `close` the windows agree exactly if the server agreed or the file was empty, and then the window is empty |
| FileWindow.CloseKeepsFiles | OS/user/file.c:51-77 | closing leaves every other file as it was, whether the server agreed or not |
| FileWindow.WriteNeverFaults | OS/user/file.c:116-132 | a write whose end does not wrap never touches an unmapped page |
| FileWindow.WriteMeans | OS/user/file.c:116-132 | a successful write sets exactly the given bytes and keeps the other bytes of the file |
| FileWindow.WriteCode | OS/user/file.c:116-132 | NO_DISK exactly when the range ends above 4 MB, without effect; success exactly when it ends within the file or the file could be made longer |
| FileWindow.WriteKeepsFiles | OS/user/file.c:116-132 | a successful write leaves size and bytes of every other file as they were, if its window shares no frame with the window written to |
| FileWindow.ReadsFileIff | OS/user/file.c:79-94 | `file_read` returns the bytes of the file from the offset on, as many as were asked for and are there, if and only if it starts past the end or its range does not wrap around 32 bits |
| FileWindow.WriteThenRead | OS/user/file.c:79-132 | `file_read` at the same offset returns the written bytes |
| FileWindow.WriteMeansIff | OS/user/file.c:116-132 | a write that reaches its copy succeeds and sets exactly its bytes if and only if its end does not wrap around 32 bits |
| FileWindow.WrappingWriteFaults | OS/user/file.c:121-131 | writing two bytes at 0xFFFFFFFF to a one-byte file passes the size check and touches an unmapped page |
| FileWindow.WriteAgrees | OS/user/file.c:116-132 | any write, wrapping or not, keeps windows and sizes in agreement unless the server refuses |
| FileWindow.RunAgrees | OS/user/file.c:23-177 | after any run of successful calls every window agrees with its file's size |
| FileWindow.RunApart | OS/user/file.c:23-177 | if the server answers each mapping with a frame of its own, the pages of a window stay different frames over any run of successful calls |
| FileClients.FileClient.OpenPath | OS/user/file.c:23-49 | the loop of `open` in place |
| FileClients.FileClient.Ftruncate | OS/user/file.c:143-177 | the loops of `ftruncate` in place |
| FileClients.FileClient.FileWrite | OS/user/file.c:116-132 | `file_write` in place, with `user_bcopy` into the window |
| FileClients.FileClient.FileRead | OS/user/file.c:79-94 | `file_read` in place, performing what `ReadsFileIff` is about |
| FileClients.FileClient.CloseFd | OS/user/fd.c:74-85 | `close` in place, with the unmapping loop of `file_close` |
| FileClients.FileClient.FdAlloc | OS/user/fd.c:29-41 | returns the first descriptor whose page is not mapped |
| PrintNum.PrintNum | OS/lib/print.c:294-377 | the buffer ends up holding sign, padding and numeral in their order, and nothing beyond is written |
| PrintNum.PutDigits | OS/lib/print.c:312-324 | the digit loop writes the numeral backwards |
| PrintNum.DigitChar | OS/lib/print.c:315-321 | a digit stands for its value, and above 9 is a capital letter exactly if asked for |
| PrintNum.ReverseFront | OS/lib/print.c:356-373 | the swapping loop reverses the front part of the buffer in place |
| PrintNum.ValueOfNumeral | OS/lib/print.c:312-324 | reading the digits back gives the number, in every base from 2 to 36 |
| PrintNum.NoLeadingZero | OS/lib/print.c:312-324 | only the numeral of 0 starts with a zero |
| PrintNum.LayoutLength | OS/lib/print.c:330-335 | the length is the larger of the width and the digits plus sign |
| PrintNum.PrintReadRoundTrip | OS/lib/print.c:294-377 | for every number, base, sign, width, adjustment and padding, stripping the padding and parsing gives back the signed value, if and only if the text, when right-adjusted, does not begin with its own padding character (zeros and the number 0 excepted) |

## Left out

- `page_alloc` and `env_alloc` on exhaustion: a panic in the source, here an outcome (`None`, `Halted`) whose cause is proved and after which nothing more is claimed.
- TLB maintenance, `usleep`, and the assembly trap path, which writes `regs[0]` after a possible switch; context switching is stated for `env_run`.
- `map_segment` and `page_decref`: nothing calls the second, and the first only repeats `page_insert` over a range.
- The UPAGES loop of `env_setup_vm`: it maps free frames (see above), so it cannot be part of a model that keeps the frame invariant.
- Physical memory before `page_init`: taken to hold zero counts.
- The byte loops of `bzero` and `bcopy` on pages: pages are copied and cleared by 64-bit words; `Bytes.Bcopy` models the loops of `bcopy` on byte buffers.
- FsSpace.MapBlockSpace, FsSpace.MapBlockAnswers and FsSpace.AccountedIffNeverLoses: for tables that arrive empty, and in runs for calls of `file_map_block` that succeed.
- Operations on frames whose count is about to wrap around 16 bits (`WindowCountsFit`, `CountFits`; `EnvSetup.InsertKeepsInvIff` shows the wrap breaks the frame invariant), more than 2^21 environment ids, file ids that wrap around 32 bits: excluded by preconditions or by unbounded numbers.
- Kernel.Machine.SysIpcSend: assumes that a named srcva is mapped; the source counts and inserts a null page pointer otherwise, which is no frame.
- MemAlloc.SysMemAlloc, Kernel.Machine.SysMemMap and Kernel.Machine.SysIpcSend take permissions below bit 12; `PageMap.InsertRefinesFlatMap` and `Spaces.SharedFrame` treat the others.
- Stale `env_ipc_perm` after a send without a page, and `sys_set_env_status` on a waiting receiver.
- `load_icode_mapper` with an unaligned address, which copies past the frame; sizes above 32 bits, which `load_elf` truncates.
- `boot_alloc` of anything but whole aligned pages: only pages are asked for.
- Boot.BootMemory.BootMapSegment: for sizes up to 0x7FFFF000; beyond, the `int` counter of the source overflows.
- The content of requests in the protocol model: but for `serve_open` handlers are arbitrary functions of the server's state; a client's id is taken to stay live during a call.
- FsService.AnswersOnceIffOpened and FsService.ServerReturnsIffOpened: claim nothing for a full table with the file present, where the source uses an uninitialised pointer.
- `syscall_mem_alloc` failing inside `open_alloc`, and the file page that the reply of `serve_open` carries.
- `write_block`, dirty tracking, `file_flush` and `fs_sync`: disabled in the source.
- `map_block` failing in `alloc_block`, and the partial state after an allocation fails inside `file_map_block`: only the error code is modelled.
- Blocks as raw memory: a block is seen as a pointer table or as directory slots, not both; a reused directory block is taken to arrive zeroed, which `FsRoundTrip.GrowthFresh` states.
- FsRoundTrip.CreateThenOpen: assumes well-kept directories (no holes, unique names, unused slots regular) and zeroed growth blocks; the source never checks them.
- FsRoundTrip.RemoveThenOpen: for files that are neither directories nor the root; the source lets those be removed and leaves their blocks behind.
- FsBlocks.MapBlockOwned and FsServer.FileServer.FileMapBlock: for tables that arrive empty; `FsBlocks.MapBlockOwnedIff` is the exact condition.
- FsDir.DirLookupFinds, FsLookup.LookupName, FsLookup.AllocSlot, FsTree.ResolveLocates and FsRoundTrip.DirAllocFindsRoom: for directories without holes; in a hole `dir_lookup` allocates a block, which the source takes for slots as it is.
- FileWindow.WriteMeans, FileWindow.WriteThenRead and FileWindow.RunApart: trust the server to answer different blocks with different frames; with one frame behind two pages a write shows twice.
- The cached `f_dir` pointer, which only `file_flush` uses.
- FsPath.WalkPath: threads the server's state as a local value, as do the functions for `file_create` and `file_remove`.
- Descriptor offsets, open modes, `read`, `readn`, `seek` and `stat`; the store of a trailing NUL in `read` can overwrite data just read.
- `PrintChar`, `PrintString`, `lp_Print` and its varargs: they add no property beyond padding.
- Drivers (EMMC, UART, timer), console, build files.
