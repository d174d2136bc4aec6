# PandaOS kernel model

A Dafny model of the parts of the PandaOS kernel whose correctness can only be settled over whole runs, with
proofs. Each part has a specification on values (states, steps, runs and their invariants) and, where the kernel
updates things in place, classes and methods whose contracts tie every call to a step of that specification.

- **Copy-on-write memory** (`Bitmap`, `Regions`, `FrameAllocator`, `CowSpec`, `PageTables`, `PageOrder`,
  `PageEntry`, `MmuSteps`, `Mmu`, `MmuClient`).
  The reference-counting frame allocator down to the bits of its bitmap, the four-level page tables, fork by
  sharing, the two fault handlers and teardown. The main results: every run shows all processes exactly what they
  would see if fork copied every page (`CowSpec.RunRefines`), the table code takes the steps of that machine
  (`Mmus.Mmu.*`) and fails only when no frame is available, and clone followed by teardown of the child restores the
  allocator exactly (`Mmus.Mmu.CloneThenFree`). `MmuClients.ForkThenStore` uses the calls together from bare memory.
- **Scheduler** (`Process`, `SchedulerSpec`, `Scheduler`). Bounded waiting under any interleaving of the other calls,
  the run invariant and conservation of processes over runs.
- **Pipes and descriptors** (`Pipe`, `DescriptorSpec`, `Descriptors`). First in, first out over a slot's whole
  history; no live descriptor dangles or aliases over any run.
- **tmpfs** (`TmpFsSpec`, `TmpFs`). Ownership over all runs; rename moves a subtree; exactly when rename keeps the
  graph a tree.
- **Program images** (`StackLayout`, `ExecStack`, `ElfSpec`, `ElfFormat`, `ElfLoader`). The stack of a new program,
  byte for byte, and its round trip through the vector parser; ELF files written field by field, what parsing makes of
  them, and loading on top of the paging model.
- **HomeFS block layer** (`HomeFsSpec`, `HomeFs`, `HomeFsRun`). Bitmaps, counters, inodes and sectors agree over any
  run, and files behave as byte sequences, answers included (`HomeFsRuns.Run`, `HomeFsSpec.ReadsLastWrite`).
- **IPv4 header** (`Ipv4`). One's-complement checksum and the build/parse round trip.

`Wrappers` and `LittleEndian` hold the shared result types and number encodings.

`dafny verify dfyconfig.toml` checks the whole project.

## Modelling decisions

- An address space is named by the frame of its root table. A user page is named by its four table indices;
  `PageEntry` relates them to virtual addresses.
- `hide` statements in proofs only limit what the verifier unfolds.
- Panics are results (`false`, `Remapped`, `Clash`, ...), and so are out-of-memory outcomes. Each out-of-memory
  result states `Mmu.Exhausted`: every managed frame is reserved or allocated.
- HomeFS calls name files by inode number, and a run uses the numbers it was given: by the caller at the start or by
  a creation. Directory lookup, which hands out numbers in the kernel, is not part of the model.
- The reference count saturates at 65535. `CowSpec` takes "fewer sharers than that" as a hypothesis of fork, and
  `CowSpec.ForkExactIff` shows that it is exactly the condition under which counts stay exact.
- A clone that runs out of memory leaves what it shared so far. It is modelled as a fork of fewer pages, which
  keeps every invariant; "everything is shared" is claimed for the success result.

## Where the code departs from its documentation or from what one would expect

The model follows the code.

- SIGCONT is described as resuming a stopped process. Signals are delivered only to the process leaving the
  processor, so a stopped process in the queue stays stopped (`SchedulerSpec.StoppedStays`,
  `SchedulerSpec.StoppedStaysExample`).
- A frame allocator whose start lies above its end can be built. Its size is a subtraction that underflows: a build
  with overflow checks panics at the first use, one without hands out the start frame again and again
  (`FrameAllocators.FrameAllocator.AllocateInverted`, `FrameAllocators.SameFrameTwice`).
- A page that the ELF loader or the demand-paging handler cannot map leaves the frame taken for it with nobody to give
  it back (`Mmus.Mmu.Lose`).
- The stack builder is described as matching the ABI's layout. It aligns the stack pointer after writing argc, so
  argc is at the stack pointer only when a parity of lengths and counts is even, and 8 bytes above it otherwise
  (`StackLayout.ArgcAtStackPointerIff`).
- `dup2` of a pipe descriptor onto itself closes it first, which loses the last open end
  (`DescriptorSpec.SelfDuplicate`, `DescriptorSpec.SelfDuplicateExample`).
- Rename accepts a new parent inside what moves, and the subtree is then cut off from the root
  (`TmpFsSpec.RenameTreeIff`, `TmpFsSpec.RenameIntoItselfExample`).
- HomeFS counts 989 data blocks but looks for free ones only in whole bytes of the bitmap, 984 blocks, so allocation
  fails with five blocks counted as free (`HomeFsSpec.LastBlocksNeverFound`). Inode number 0 is counted as free and
  never given out (`HomeFsSpec.LastInodeNeverFound`).
- A HomeFS write that needs at most eight blocks and runs out of them keeps those it has taken, and no file uses
  them: every block that can be found is then lost (`HomeFilesystem.HomeFs.WriteFile`, `HomeFsRuns.LostBlocks`).
- The superblock record is said to fit one sector. As declared it has twelve words and 468 bytes of padding, 516
  bytes; the model writes the 512 bytes of the sector (`HomeFsSpec.SuperRecordOverhang`).
- An IPv4 header length below five words is accepted when that shorter header verifies (`Ipv4.StandardIff`,
  `Ipv4.ShortHeaderExample`).

## Model

| member | source | states |
|---|---|---|
| `Bitmaps.SetBit` | hal/src/bitmap.rs:40 | or-ing a byte with a bit's mask sets that bit and no other |
| `Bitmaps.ClearBit` | hal/src/bitmap.rs:48 | and-ing with the complement clears that bit and no other |
| `Bitmaps.UpdateBit` | hal/src/bitmap.rs:37-50 | a byte that differs in one bit changes that one bit of the packed sequence |
| `Bitmaps.OnesUpdate` | hal/src/bitmap.rs:74-82 | one bit changed changes the number of set bits by exactly that bit |
| `Bitmaps.Bitmap.constructor` | hal/src/bitmap.rs:19-34 | a bitmap of the given size with every bit clear |
| `Bitmaps.Bitmap.Set` | hal/src/bitmap.rs:37-42 | the bit sequence with that one bit set; an index past the size is a panic |
| `Bitmaps.Bitmap.Clear` | hal/src/bitmap.rs:45-50 | the bit sequence with that one bit cleared |
| `Bitmaps.Bitmap.IsSet` | hal/src/bitmap.rs:53-58 | reads the bit of that index |
| `Bitmaps.Bitmap.FindAndSet` | hal/src/bitmap.rs:63-71 | takes the lowest clear bit; fails exactly when every bit is set |
| `Bitmaps.Bitmap.CountSet` | hal/src/bitmap.rs:74-82 | the number of set bits of the whole sequence |
| `Regions.MergeIsUnion` | hal/src/memory.rs:61-76 | merging two regions gives exactly the union of their frames, and is refused exactly when they neither overlap nor touch; the reason is the first region's |
| `Regions.AbsorbKeepsUnion` | hal/src/memory.rs:210-239 | one merge of the consolidation covers the same frames with one region less |
| `Regions.ReservesUnion` | hal/src/memory.rs:169-207 | after any sequence of reservations the list covers exactly the union of the requests |
| `Regions.TotalSizeCountsFrames` | hal/src/memory.rs:287-289 | in canonical form (pairwise disjoint and not touching) the sum of the sizes is the number of covered frames |
| `FrameAllocators.FrameAllocator.constructor` | hal/src/memory.rs:113-125 | no frame allocated, none reserved, no counts; a start above the end is accepted and gives an allocator that is not valid |
| `FrameAllocators.FrameAllocator.SetRefcountStorage` | hal/src/memory.rs:136-151 | every count starts at 0; counts and bitmap agree exactly when nothing was allocated before |
| `FrameAllocators.FrameAllocator.ReserveRange` | hal/src/memory.rs:169-207 | adds exactly the range to the reserved frames and keeps the list canonical; the panic happens exactly on a thirty-third region apart from all others |
| `FrameAllocators.FrameAllocator.Consolidate` | hal/src/memory.rs:210-239 | merges until the list is canonical, covering the same frames; ends because each merge shortens the list |
| `FrameAllocators.FrameAllocator.IsReserved` | hal/src/memory.rs:242-251 | membership in the union of the regions |
| `FrameAllocators.FrameAllocator.ReservedFrames` | hal/src/memory.rs:287-289 | the number of reserved frames |
| `FrameAllocators.FrameAllocator.IsAllocated` | hal/src/memory.rs:263-265 | the frame is managed and its bit is set |
| `FrameAllocators.FrameAllocator.FindAvailable` | hal/src/memory.rs:301-346 | the wrap-around scan finds an available frame if there is one anywhere |
| `FrameAllocators.FrameAllocator.AllocateFrame` | hal/src/memory.rs:301-346 | None exactly when every managed frame is reserved or allocated; otherwise an available frame, one bit set, one reference |
| `FrameAllocators.FrameAllocator.AllocateInverted` | hal/src/memory.rs:301-346 | with the start above the end and the size subtraction wrapping around, the call hands out the start frame whenever it is not reserved, and marks nothing |
| `FrameAllocators.FrameAllocator.DeallocateFrame` | hal/src/memory.rs:354-376 | clears the bit and the count of an allocated, unreserved frame and nothing else |
| `FrameAllocators.FrameAllocator.IncRefcount` | hal/src/memory.rs:408-419 | adds one to a positive count, saturating at 65535; 0 stays 0 |
| `FrameAllocators.FrameAllocator.DecRefcount` | hal/src/memory.rs:426-447 | takes one away; the bit is cleared exactly when the count reaches 0 |
| `FrameAllocators.FrameAllocator.CountsGiveBits` | hal/src/memory.rs:301-447 | with counting on, a bit is set exactly when its count is positive, so equal counts mean equal bitmaps |
| `FrameAllocators.GrantedOnce` | hal/src/memory.rs:301-376 | over any run of the allocator, a frame handed out twice was given back in between |
| `FrameAllocators.Serve` | hal/src/memory.rs:301-447 | each allocator call is one event on the set of frames handed out |
| `FrameAllocators.ServeAll` | hal/src/memory.rs:301-447 | over any list of real calls, a frame answered twice was given back by a call in between |
| `FrameAllocators.SameFrameTwice` | hal/src/memory.rs:113-346 | an allocator with its start above its end that hands out one frame twice |
| `CowSpec.MappedIsCounted` | kernel/src/paging.rs:1073-1112 | in every state of the machine a mapped frame has a positive count |
| `CowSpec.FreeIsUnused` | hal/src/memory.rs:301-346 | a frame with count 0 is mapped by no entry of any space and held for nothing |
| `CowSpec.WritableIsPrivate` | kernel/src/interrupts.rs:260-298 | a frame mapped writable anywhere has exactly that one mapping |
| `CowSpec.ForkKeepsInv` | kernel/src/paging.rs:963-1125 | fork keeps: each count equals the number of entries mapping the frame, writable means private, no two pages of a space share a frame |
| `CowSpec.ForkExactIff` | hal/src/memory.rs:408-419 | with the saturating counter, counts stay exact over a fork if and only if no shared frame already stands at 65535 |
| `CowSpec.DemandKeepsInv` | kernel/src/interrupts.rs:142-218 | the demand-paging step keeps the invariant |
| `CowSpec.CowKeepsInv` | kernel/src/interrupts.rs:221-307 | the copy-on-write step keeps the invariant |
| `CowSpec.StoreKeepsInv` | kernel/src/interrupts.rs:67-139 | a user store through a writable entry keeps the invariant |
| `CowSpec.ExitKeepsInv` | kernel/src/paging.rs:805-897 | tearing a space down keeps the invariant |
| `CowSpec.StepKeepsInv` | kernel/src/paging.rs:805-1125 | every step of the machine keeps the invariant |
| `CowSpec.ForkRefines` | kernel/src/paging.rs:963-1125 | sharing shows every process what copying all pages would show |
| `CowSpec.DemandRefines` | kernel/src/interrupts.rs:142-218 | demand paging adds one page of zeros to one process and changes no other view |
| `CowSpec.CowRefines` | kernel/src/interrupts.rs:221-307 | the private copy changes nothing any process sees |
| `CowSpec.StoreRefines` | kernel/src/interrupts.rs:67-139 | a store changes one byte of one page of one process, for that process only |
| `CowSpec.StepRefines` | kernel/src/interrupts.rs:67-307 | each step of the sharing machine is the same step of the machine in which fork copies every page |
| `CowSpec.RunRefines` | kernel/src/paging.rs:963-1125 | over every run of create, fork, load, store, copy-on-write fault, demand fault and exit, all processes see exactly the bytes of the copying machine |
| `CowSpec.RunIsolates` | kernel/src/interrupts.rs:221-307 | whatever the others do, forking from it included, a process that does nothing sees no byte change |
| `PageTables.LeafTablePlace` | kernel/src/paging.rs:611-654 | an L1 table lies on the walk of exactly the pages of its place |
| `PageTables.LeafWriteSpaces` | kernel/src/paging.rs:489-537 | writing one L1 entry changes one page of one space of the flat map |
| `PageTables.LinkSpaces` | kernel/src/paging.rs:424-475 | hanging a new empty table under an absent entry changes no page of the flat map |
| `PageTables.UnlinkSpaces` | kernel/src/paging.rs:859-880 | taking a bare table out changes no page of the flat map |
| `PageTables.NewRoot` | kernel/src/paging.rs:360-392 | a new root with an empty user half adds one empty space |
| `PageTables.BareRootIsAlone` | kernel/src/paging.rs:886-894 | a root whose user half is empty is the only table left of its space |
| `PageTables.DropRoot` | kernel/src/paging.rs:886-894 | dropping a bare root removes exactly its space |
| `PageTables.FreeNotMapped` | hal/src/memory.rs:301-346 | a free frame is no table and stands under no entry of any table |
| `PageOrder.NumOrder` | kernel/src/paging.rs:194-211 | the four indices order pages as the page number does, and the number is injective |
| `PageOrder.ForkSharePage` | kernel/src/paging.rs:1074-1111 | sharing one page more: two entries written, one reference added |
| `PageOrder.ForkTakeTable` | kernel/src/paging.rs:983-998 | one table frame more taken for the child |
| `PageOrder.ExitDropPage` | kernel/src/paging.rs:844-856 | unmapping one page more: one entry and one reference less |
| `PageOrder.ExitGiveTable` | kernel/src/paging.rs:859-864 | one table frame given back |
| `PageEntry.SetRoundTrip` | kernel/src/paging.rs:93-107 | address and low twelve flag bits of an entry are what set was given; higher flag bits do not come back |
| `PageEntry.EntryBits` | kernel/src/paging.rs:22-43 | which bits of a 64-bit word are present, writable, user, copy-on-write and frame |
| `PageEntry.SharedWordDecodes` | kernel/src/paging.rs:1081-1105 | the bit operations of fork on a 64-bit entry decode to the sharing step on the decoded entry, same frame |
| `PageEntry.CopiedWordDecodes` | kernel/src/interrupts.rs:279-286 | the bit operations of the fault handler decode to a present, writable entry that is not copy-on-write, at the new frame |
| `PageEntry.MappedWordDecodes` | kernel/src/paging.rs:489-537 | the word map_page writes for a frame and its flags decodes to the entry the tables hold |
| `PageEntry.PointerWordDecodes` | kernel/src/paging.rs:424-475 | the word that links a new table decodes to a pointer to that table |
| `PageEntry.IndicesOfAddress` | kernel/src/paging.rs:194-211 | the four 9-bit indices of a user address are the digits of its page number |
| `PageEntry.IndicesInjective` | kernel/src/paging.rs:194-211 | two user addresses have the same indices exactly when they are in the same page |
| `PageEntry.AddressOfPage` | kernel/src/paging.rs:194-211 | each page has an address whose indices are the page again |
| `Mmus.Mmu.constructor` | kernel/src/paging.rs:360-392 | tables and memory before any address space, with the frames already given out held |
| `Mmus.Mmu.TakeFrame` | hal/src/memory.rs:301-346 | a free frame of the machine, now with one reference; None means that no frame is available |
| `Mmus.Mmu.AddReference` | hal/src/memory.rs:408-419 | one reference more, below the limit |
| `Mmus.Mmu.DropReference` | hal/src/memory.rs:426-447 | one reference less |
| `Mmus.Mmu.ReturnFrame` | hal/src/memory.rs:354-376 | the count goes to 0 |
| `Mmus.Mmu.AddTable` | kernel/src/paging.rs:424-441 | a new empty table under an absent entry; the flat map is unchanged; fails only when no frame is available |
| `Mmus.Mmu.ChildTable` | kernel/src/paging.rs:983-1066 | the child's table under an entry of the parent, made if absent; fails only when no frame is available |
| `Mmus.Mmu.SharePage` | kernel/src/paging.rs:1074-1111 | the innermost step of the clone: one page of the parent shared with the child |
| `Mmus.Mmu.CloneL1` | kernel/src/paging.rs:1072-1112 | shares every page under one L1 table |
| `Mmus.Mmu.CloneL2` | kernel/src/paging.rs:1035-1113 | clones everything under one L2 table; stops only when no frame is available |
| `Mmus.Mmu.CloneL3` | kernel/src/paging.rs:1004-1114 | clones everything under one L3 table; stops only when no frame is available |
| `Mmus.Mmu.CloneL4` | kernel/src/paging.rs:973-1115 | clones the user half of a root; stops only when no frame is available |
| `Mmus.Mmu.CreateUserPageTable` | kernel/src/paging.rs:360-392 | a new root with an empty user half and the given upper half, which in the kernel is that of the table in CR3; None means that no frame is available |
| `Mmus.Mmu.CloneUserAddressSpace` | kernel/src/paging.rs:963-1125 | the four nested loops are one fork step of the machine; on success every page of the parent is shared, and failure means that no frame is available |
| `Mmus.Mmu.DropPage` | kernel/src/paging.rs:844-856 | clears one L1 entry and drops its reference |
| `Mmus.Mmu.FreeL1` | kernel/src/paging.rs:843-857 | unmaps every page under one L1 table |
| `Mmus.Mmu.FreeL2` | kernel/src/paging.rs:830-865 | frees everything under one L2 table |
| `Mmus.Mmu.FreeL3` | kernel/src/paging.rs:821-873 | frees everything under one L3 table |
| `Mmus.Mmu.FreeL4` | kernel/src/paging.rs:812-881 | frees the user half of a root |
| `Mmus.Mmu.DropTable` | kernel/src/paging.rs:859-864 | a bare table goes back and its entry is cleared |
| `Mmus.Mmu.FreeProcessAddressSpace` | kernel/src/paging.rs:805-897 | the teardown is one exit step of the machine: each page loses one reference, each table frame is freed |
| `Mmus.Mmu.CloneThenFree` | kernel/src/paging.rs:805-1125 | a clone followed by the teardown of the child restores every count, every bitmap bit, the set of table frames and what every process sees; only a lack of frames prevents the clone |
| `Mmus.Mmu.WalkPageTable` | kernel/src/paging.rs:611-654 | the walk gives the flat map's answer |
| `Mmus.Mmu.GetOrCreate` | kernel/src/paging.rs:424-475 | the table under an entry, made if absent, without changing the flat map; fails only when no frame is available |
| `Mmus.Mmu.SetLeaf` | kernel/src/paging.rs:489-537 | maps, or refuses a page that is mapped to another frame |
| `Mmus.Mmu.ReplaceLeaf` | kernel/src/interrupts.rs:279-286 | overwrites one leaf entry: one page of one space changes |
| `Mmus.Mmu.MapPage` | kernel/src/paging.rs:405-537 | changes exactly one page of one space, besides taking fresh table frames; same frame again only sets flags; another frame panics; out of memory means that no frame is available |
| `Mmus.Mmu.UnmapPage` | kernel/src/paging.rs:546-600 | removes exactly one page and returns its frame |
| `Mmus.Mmu.MapFresh` | kernel/src/interrupts.rs:181-207 | a fresh frame mapped and zeroed is one demand step of the machine; out of memory only when no frame is available; whenever the page is not mapped the invariant and every page are kept, and at most the frame taken for it is lost |
| `Mmus.Mmu.Lose` | kernel/src/elf.rs:297-307 | a frame taken and not mapped is held from then on, with the invariant and every page kept |
| `Mmus.Mmu.HandleDemandPaging` | kernel/src/interrupts.rs:142-218 | the demand-paging handler is one demand step of the machine; it panics only when no frame is available |
| `Mmus.Mmu.HandleCowFault` | kernel/src/interrupts.rs:221-307 | the copy-on-write handler is one copy step of the machine; which of the error outcomes happens is decided by the entry, and NoMemory means that no frame is available |
| `Mmus.Mmu.HandlePageFault` | kernel/src/interrupts.rs:67-139 | the case split of the fault handler takes a demand step for an absent page and a copy step for a user write to a copy-on-write page; it panics only for a present page in any other case or when no frame is available; a page it adds is as writable as the first region that holds its address, and writable if none does |
| `Mmus.Mmu.ResolveStoreFaults` | kernel/src/interrupts.rs:67-307 | the faults a user store takes end with a private writable page; the kernel panics only when no frame is available or the page is read-only to its process |
| `Mmus.Mmu.UserStore` | kernel/src/interrupts.rs:67-307 | a user store, faults included, changes one byte of one page of one process and nothing else any process sees; it fails only when no frame is available or the page is read-only to its process; a store to an absent page whose first region is read-only never succeeds |
| `MmuSteps.StoreSetsOne` | kernel/src/interrupts.rs:67-307 | the view after a store that succeeds: that byte of that page of that process, its other bytes as before or zero on a new page, every other page and process as before |
| `MmuSteps.RegionDecides` | kernel/src/interrupts.rs:152-179 | the write permission of a demanded page is that of the first region holding its address, and granted where no region does |
| `MmuSteps.ReadOnlyRegion` | kernel/src/interrupts.rs:152-179 | an absent page whose first region is read-only does not become writable to its process |
| `MmuClients.Boot` | hal/src/memory.rs:113-151 | an allocator with counting on and no address space is a valid start |
| `MmuClients.ForkShowsCopy` | kernel/src/paging.rs:963-1125 | a full clone shows the child exactly what the parent shows |
| `MmuClients.FirstStore` | kernel/src/interrupts.rs:67-218 | the first store of the first process faults its page in and shows its byte |
| `MmuClients.ForkedStore` | kernel/src/interrupts.rs:221-307 | after a fork the child's store shows in the child and leaves the parent as it was |
| `MmuClients.ForkThenStore` | kernel/src/paging.rs:360-1125 | from bare memory: create a root, store, fork, store in the child; each process sees its own byte, and only running out of frames prevents it |
| `SchedulerSpec.StepKeepsInv` | kernel/src/scheduler.rs:63-409 | every scheduler call keeps: queued processes are Ready or Stopped with distinct PIDs, only the current one can be Running |
| `SchedulerSpec.RunKeepsInv` | kernel/src/scheduler.rs:63-409 | the invariant holds over every run |
| `SchedulerSpec.ScheduleAdvances` | kernel/src/scheduler.rs:90-140 | schedule_next runs a waiting process or brings it one place nearer the front |
| `SchedulerSpec.OtherStepsKeepWaiting` | kernel/src/scheduler.rs:63-409 | no other call moves a waiting process back, takes it out or makes it unrunnable |
| `SchedulerSpec.BoundedWaiting` | kernel/src/scheduler.rs:90-140 | a runnable process at index k is current within k+1 calls of schedule_next, whatever other calls are interleaved |
| `SchedulerSpec.Conservation` | kernel/src/scheduler.rs:63-273 | processes arrive only by being added and leave only after exit, by reaping, or at a switch with SIGINT pending and neither SIGCONT nor SIGTSTP |
| `SchedulerSpec.InterruptEnds` | kernel/src/process.rs:517-540 | a running process with SIGINT pending, and neither SIGCONT nor SIGTSTP, is in no list after the next switch |
| `SchedulerSpec.RequeuedLeft` | kernel/src/scheduler.rs:90-118 | by its pending signals alone, the process leaving the processor is queued Ready without SIGCONT, or queued Stopped without SIGTSTP with its waiters woken, or dropped for SIGINT, or queued Ready as it was |
| `SchedulerSpec.PickedRuns` | kernel/src/scheduler.rs:120-140 | the first process neither waiting nor stopped gets the processor, those behind it follow and those before it go to the back; there is none exactly when nothing can run |
| `SchedulerSpec.AliveExact` | kernel/src/scheduler.rs:193-209 | removing the exited processes keeps exactly the others, in order |
| `SchedulerSpec.RunConservation` | kernel/src/scheduler.rs:63-273 | over any run, a process gone at the end left at some call by exit, reaping or SIGINT, and one that is new was added at some call |
| `SchedulerSpec.EmptyIsOk` | kernel/src/scheduler.rs:47-49 | the empty scheduler satisfies the invariant |
| `SchedulerSpec.StoppedStays` | kernel/src/process.rs:517-540 | over any run a stopped process in the queue stays stopped, SIGCONT or not |
| `SchedulerSpec.StoppedStaysExample` | kernel/src/process.rs:517-540 | a run from the empty scheduler in which a stopped process is sent SIGCONT and is still stopped, the signal pending |
| `Schedulers.Scheduler.constructor` | kernel/src/scheduler.rs:47-49 | an empty scheduler |
| `Schedulers.Scheduler.AddProcess` | kernel/src/scheduler.rs:63-71 | appends a Ready process; any other is a panic |
| `Schedulers.Scheduler.WakeWaitersForChild` | kernel/src/scheduler.rs:332-346 | every process waiting for any child or for this one stops waiting, and nothing else of any process changes |
| `Schedulers.Scheduler.SignalProcessGroup` | kernel/src/scheduler.rs:385-409 | the signal is pending for exactly the processes of the group, current one included, nothing else changes, and they are counted |
| `Schedulers.Scheduler.ExitCurrentProcess` | kernel/src/scheduler.rs:175-182 | the current process gets the exit code and nothing else changes |
| `Schedulers.Scheduler.RemoveExitedProcesses` | kernel/src/scheduler.rs:193-209 | drops exactly the exited processes and counts them |
| `Schedulers.Scheduler.FindZombieChild` | kernel/src/scheduler.rs:251-267 | takes out exactly one zombie child, the current process first, then the first in the queue, and fails exactly when there is none |
| `Schedulers.Scheduler.YieldCurrent` | kernel/src/scheduler.rs:235-243 | one schedule_next if there is a current process, nothing otherwise |
| `Schedulers.Scheduler.RequeueCurrent` | kernel/src/scheduler.rs:90-118 | the queue left behind is the one the pending signals of the current process call for: SIGCONT, then SIGTSTP, then SIGINT, then none |
| `Schedulers.Scheduler.ScheduleNext` | kernel/src/scheduler.rs:90-140 | that queue, with the first process neither waiting nor stopped taken out to run and the rest rotated; None exactly when nothing can run |
| `Pipes.Pipe.constructor` | kernel/src/pipe.rs:43-52 | an empty ring with both ends closed |
| `Pipes.Pipe.Write` | kernel/src/pipe.rs:93-115 | EPIPE, EAGAIN or as many bytes as fit appended to the unread bytes; over the slot's whole history accepted bytes equal returned bytes followed by the ring |
| `Pipes.Pipe.Read` | kernel/src/pipe.rs:121-142 | EOF, EAGAIN or a prefix of the unread bytes, which leave the ring; the same history equation |
| `Pipes.RingDrop` | kernel/src/pipe.rs:121-142 | advancing the read position modulo 4096 drops bytes from the front only |
| `DescriptorSpec.CloseKeepsInv` | kernel/src/fs.rs:339-371 | close keeps: each pipe end is counted at least as often as descriptors name it |
| `DescriptorSpec.DuplicateKeepsInv` | kernel/src/fs.rs:657-714 | dup2 keeps the invariant, the overwritten standard descriptors included |
| `DescriptorSpec.CloseExact` | kernel/src/fs.rs:339-371 | a close that succeeds empties that slot and no other and takes one from the count of the end it held |
| `DescriptorSpec.DuplicateExact` | kernel/src/fs.rs:657-714 | a dup2 that succeeds puts the old descriptor in the new slot and changes no other, adds one to the count of its end and takes one from that of the descriptor closed for it |
| `DescriptorSpec.DuplicateSucceedsIff` | kernel/src/fs.rs:657-714 | in every reachable state dup2 succeeds if and only if the numbers are in range, the old slot is filled, and it is not the last open end duplicated onto itself |
| `DescriptorSpec.PipeExact` | kernel/src/fs.rs:315-326 | the pair answered is the reading end and the writing end, in that order, in the two lowest free slots, of a pipe nobody had open, each counted once |
| `DescriptorSpec.PipeFails` | kernel/src/fs.rs:315-326 | pipe fails with EMFILE, and only without a free pipe or without two free descriptors |
| `DescriptorSpec.ForkExact` | kernel/src/fs.rs:718-746 | fork adds to the count of each end the number of slots that hold it |
| `DescriptorSpec.PipeKeepsInv` | kernel/src/fs.rs:315-326 | pipe creation keeps the invariant |
| `DescriptorSpec.ForkKeepsInv` | kernel/src/fs.rs:718-746 | fork_copy never fails and the child's descriptors are all counted |
| `DescriptorSpec.FreshPipe` | kernel/src/pipe.rs:168-178 | the slot allocate takes is named by no descriptor of any table |
| `DescriptorSpec.StepKeepsInv` | kernel/src/fs.rs:315-746 | every step over any number of tables keeps the invariant |
| `DescriptorSpec.NoDanglingDescriptor` | kernel/src/fs.rs:315-746 | over every run no descriptor names a free slot, allocate never takes a named slot, and a count of 0 writers or readers (EOF, EPIPE) means no live descriptor for that end |
| `DescriptorSpec.SelfDuplicate` | kernel/src/fs.rs:657-714 | dup2 of a pipe descriptor onto itself changes nothing if and only if it is not the last open end of its pipe; otherwise it closes it and fails |
| `DescriptorSpec.SelfDuplicateExample` | kernel/src/fs.rs:657-714 | a run from no process and free pipes to a state in which dup2 of a descriptor onto itself loses it |
| `DescriptorSpec.EmptyIsOk` | kernel/src/pipe.rs:163-165 | sixteen free pipes and no tables satisfy the invariant |
| `Descriptors.PipePool.constructor` | kernel/src/pipe.rs:163-165 | sixteen free pipes |
| `Descriptors.PipePool.Allocate` | kernel/src/pipe.rs:168-178 | opens both ends of the first free pipe, the ring left as it is |
| `Descriptors.PipePool.Open` | kernel/src/pipe.rs:191-202 | one more end of a pipe in use, EBADF otherwise |
| `Descriptors.PipePool.Close` | kernel/src/pipe.rs:205-216 | one end less of a pipe in use, EBADF otherwise |
| `Descriptors.FdTable.constructor` | kernel/src/fs.rs:238-241 | an empty table |
| `Descriptors.FdTable.AllocateFd` | kernel/src/fs.rs:243-250 | the lowest free descriptor from 3 up |
| `Descriptors.FdTable.CreatePipe` | kernel/src/fs.rs:315-326 | on success the reading and the writing end of a pipe nobody had open, in the two lowest free slots; pool and table after every error path too |
| `Descriptors.FdTable.CloseDescriptor` | kernel/src/fs.rs:339-371 | on success that slot is empty, no other changed, and its end counted once less; pool and table after every error path too |
| `Descriptors.FdTable.DuplicateTo` | kernel/src/fs.rs:657-714 | on success the new slot holds the old descriptor, no other changed, its end is counted once more and the one closed once less; pool and table after every error path too |
| `Descriptors.FdTable.ForkCopy` | kernel/src/fs.rs:718-746 | the same entries, with each end counted once more for every slot that holds it, or the error |
| `TmpFsSpec.ResolveJoin` | kernel/src/tmpfs.rs:97-123 | following a path is following its parts |
| `TmpFsSpec.ResolveWalks` | kernel/src/tmpfs.rs:97-123 | a path resolves to an inode exactly when it is a walk along directory entries that ends there |
| `TmpFsSpec.CreateKeepsInv` | kernel/src/tmpfs.rs:128-177 | create keeps ownership |
| `TmpFsSpec.UnlinkKeepsInv` | kernel/src/tmpfs.rs:180-223 | unlink keeps ownership |
| `TmpFsSpec.RenameKeepsInv` | kernel/src/tmpfs.rs:336-401 | rename of any kind keeps ownership |
| `TmpFsSpec.StepKeepsInv` | kernel/src/tmpfs.rs:128-401 | every call keeps: each entry names an existing inode, each non-root inode is named exactly once, the root never, numbers are below next_inode; a failing call changes nothing |
| `TmpFsSpec.RunKeepsInv` | kernel/src/tmpfs.rs:128-401 | ownership holds over every run, renames unrestricted |
| `TmpFsSpec.UniquePath` | kernel/src/tmpfs.rs:97-123 | two paths from the root to one inode are the same path |
| `TmpFsSpec.NoCycle` | kernel/src/tmpfs.rs:97-123 | in a tree no directory contains itself |
| `TmpFsSpec.RenameMovesSubtree` | kernel/src/tmpfs.rs:336-401 | in a tree, with the new parent not inside what moves, every path below the old name resolves as before below the new name, errors included, and the old name is gone |
| `TmpFsSpec.RenameMovesRootPaths` | kernel/src/tmpfs.rs:336-401 | in a tree, with the new parent not inside what moves, every absolute path through the old name resolves as before through the new name, and the old absolute path is gone |
| `TmpFsSpec.RenameExact` | kernel/src/tmpfs.rs:336-401 | rename succeeds exactly for good names, an old entry, a new directory and a new name not in it; then the entries are the old ones less the old name, plus the new name leading to the same inode, and no inode or file byte changes; a failure changes nothing and its code says which condition failed |
| `TmpFsSpec.RenamedPaths` | kernel/src/tmpfs.rs:336-401 | after a call of rename in a tree, absolute paths through the new name resolve as those through the old name did, and those through the old name fail |
| `TmpFsSpec.CreateExact` | kernel/src/tmpfs.rs:128-177 | create succeeds exactly for a good name not yet in a directory; then one inode is new, an empty file or an empty directory as asked, under that one entry, and no other entry or file changes |
| `TmpFsSpec.UnlinkExact` | kernel/src/tmpfs.rs:180-223 | unlink succeeds exactly for a good name of a file or of a directory without entries; then that entry and that inode are gone and nothing else |
| `TmpFsSpec.WriteExact` | kernel/src/tmpfs.rs:245-272 | a write succeeds exactly on a file; then its bytes are the data at the offset, the old bytes elsewhere and zeros in a gap, and no other node changes |
| `TmpFsSpec.RenameKeepsOthers` | kernel/src/tmpfs.rs:336-401 | a path that resolves without the old entry resolves to the same inode after the rename, and one that fails without trying the old or the new name fails in the same way |
| `TmpFsSpec.CutOff` | kernel/src/tmpfs.rs:336-401 | after a rename into its own subtree no path from the root enters the subtree |
| `TmpFsSpec.RenameTreeIff` | kernel/src/tmpfs.rs:336-401 | rename keeps a tree a tree if and only if the new parent is not inside what moves |
| `TmpFsSpec.RenameIntoItselfExample` | kernel/src/tmpfs.rs:336-401 | a tree that the code accepts a rename on and that is no tree afterwards |
| `TmpFsSpec.CreateKeepsPaths` | kernel/src/tmpfs.rs:128-177 | create changes no path that resolves |
| `TmpFsSpec.CreateKeepsTree` | kernel/src/tmpfs.rs:128-177 | create keeps a tree a tree and the new name leads to the new inode |
| `TmpFsSpec.UnlinkKeepsPaths` | kernel/src/tmpfs.rs:180-223 | unlink changes no path that avoids the entry it takes |
| `TmpFsSpec.UnlinkKeepsTree` | kernel/src/tmpfs.rs:180-223 | unlink keeps a tree a tree |
| `TmpFsSpec.StepKeepsTree` | kernel/src/tmpfs.rs:128-401 | every call but a rename into its own subtree keeps a tree a tree |
| `TmpFsSpec.RunKeepsTree` | kernel/src/tmpfs.rs:128-401 | every run without such a rename leaves one tree |
| `TmpFsSpec.NewFsIsTree` | kernel/src/tmpfs.rs:72-81 | a new filesystem is owned and a tree |
| `TmpFsSpec.FileKept` | kernel/src/tmpfs.rs:128-401 | only a write, a truncation or an unlink that names it touches the bytes of a file |
| `TmpFsSpec.ReadAfterWrite` | kernel/src/tmpfs.rs:226-272 | a read of the written range gives the data, a read wholly before or after it what was there |
| `TmpFsSpec.PiecesAreNames` | kernel/src/tmpfs.rs:103 | the components of a path string are names that create accepts |
| `TmpFsSpec.ComponentsOfJoin` | kernel/src/tmpfs.rs:103 | splitting a joined path gives its names back |
| `TmpFilesystem.TmpFs.constructor` | kernel/src/tmpfs.rs:72-81 | one empty root directory |
| `TmpFilesystem.TmpFs.Lookup` | kernel/src/tmpfs.rs:97-123 | the loop resolves the components of the path from the base, with the first error on the way |
| `TmpFilesystem.TmpFs.Create` | kernel/src/tmpfs.rs:128-177 | one new inode, a file or a directory as asked and empty, found under its name; every other entry and file as before; error codes of the value model |
| `TmpFilesystem.TmpFs.Unlink` | kernel/src/tmpfs.rs:180-223 | exactly the entry and the inode it led to are gone, or the error |
| `TmpFilesystem.TmpFs.Read` | kernel/src/tmpfs.rs:226-242 | fills the front of the buffer with the bytes at the offset, as many as asked for or left, and leaves the rest of it |
| `TmpFilesystem.TmpFs.Resize` | kernel/src/tmpfs.rs:252-254 | pads with zeros up to a length |
| `TmpFilesystem.TmpFs.Overwrite` | kernel/src/tmpfs.rs:250-267 | extension, append and overwrite branches give the same bytes: data in place, zeros in a gap, the rest as it was |
| `TmpFilesystem.TmpFs.Write` | kernel/src/tmpfs.rs:245-272 | data at the offset, old bytes elsewhere, zeros in a gap, no other node changed, or the error |
| `TmpFilesystem.TmpFs.Truncate` | kernel/src/tmpfs.rs:275-285 | the file is empty and no other node changed, or the error, exactly when the inode is no file |
| `TmpFilesystem.TmpFs.Rename` | kernel/src/tmpfs.rs:336-401 | the entries are the old ones less the old name, plus the new name leading to the same inode, with every inode and every file byte as before, or the error; a tree stays a tree exactly when the new parent is not inside what moves |
| `Ipv4.FoldKeepsResidue` | kernel/src/net/ipv4.rs:136-139 | carry folding keeps the sum modulo 65535, ends in 16 bits and never sends a positive sum to 0 |
| `Ipv4.ComplementZero` | kernel/src/net/ipv4.rs:136-142 | the folded sum is 65535 exactly for positive multiples of 65535 |
| `Ipv4.CalculateChecksum` | kernel/src/net/ipv4.rs:123-143 | the complement of the folded word sum, for every header whose word sum fits the 32-bit accumulator; zero exactly for positive multiples of 65535 |
| `Ipv4.VerifyChecksum` | kernel/src/net/ipv4.rs:146-148 | holds exactly when the word sum is positive and divisible by 65535 |
| `Ipv4.Parse` | kernel/src/net/ipv4.rs:58-119 | accepts exactly version 4, enough bytes and a verifying header, and gives every field and the payload |
| `Ipv4.FieldsOfWire` | kernel/src/net/ipv4.rs:58-119 | for every packet written out as section 3.1 of RFC 791 lays it out, options included, parsing reads every field back |
| `Ipv4.StandardIff` | kernel/src/net/ipv4.rs:58-119 | an accepted packet has a header of at least five words, as section 3.1 of RFC 791 asks, if and only if its length field is not one to four |
| `Ipv4.ShortHeaderExample` | kernel/src/net/ipv4.rs:58-119 | an accepted packet with a header of fewer than five words |
| `Ipv4.ComplementVerifies` | kernel/src/net/ipv4.rs:194-197 | a header with the complement of its own folded sum in the checksum field verifies |
| `Ipv4.BuildPacket` | kernel/src/net/ipv4.rs:151-203 | refuses exactly what exceeds 65535 bytes; otherwise appends a packet the parser accepts, with the given addresses, protocol and payload |
| `Ipv4.BuildThenParse` | kernel/src/net/ipv4.rs:58-203 | parsing a built packet gives the same addresses, protocol and payload |
| `StackLayout.PointersInBlock` | kernel/src/exec_stack.rs:257-281 | each pointer of a vector leads to its own string and NUL |
| `StackLayout.SizeIsExact` | kernel/src/exec_stack.rs:210-251 | with an aligned top the precomputed size is exactly what lies between the returned stack pointer and the top, 16 more without a phdr entry |
| `StackLayout.SizeIsEnough` | kernel/src/exec_stack.rs:210-251 | whatever the top, argc lies within the precomputed size and 7 bytes of rounding below it |
| `StackLayout.StaysInStack` | kernel/src/exec_stack.rs:250-431 | all writes lie in the 16 KiB below the top |
| `StackLayout.ImageIsLocal` | kernel/src/exec_stack.rs:250-431 | no byte outside those 16 KiB changes |
| `StackLayout.ArgcAtStackPointerIff` | kernel/src/exec_stack.rs:422-431 | argc is at the returned stack pointer, where the ABI wants it, if and only if a parity of lengths and counts is even; otherwise it is 8 bytes above |
| `StackLayout.ArgcMissedExample` | kernel/src/exec_stack.rs:422-431 | a program whose argc is not at its stack pointer |
| `StackLayout.ImageBlocks` | kernel/src/exec_stack.rs:255-303 | argument strings, environment strings, path and random bytes stand where the vectors say, undamaged by later writes |
| `StackLayout.ImageHoldsVectors` | kernel/src/exec_stack.rs:257-427 | in the finished image the words at argc, argv and envp list the original arguments and environment |
| `StackLayout.ImageTellsAuxv` | kernel/src/exec_stack.rs:308-394 | looked up in the finished image, the auxiliary vector gives page size, program header size, count and address (no entry without one), entry point, user and group, and addresses at which the random bytes and the path stand |
| `ExecStack.UserMemory.WriteUserMemory` | kernel/src/exec_stack.rs:450-470 | replaces the bytes at the address; address 0 is EFAULT |
| `ExecStack.UserMemory.PushStrings` | kernel/src/exec_stack.rs:257-281 | writes strings downwards and returns their addresses, everything above kept |
| `ExecStack.UserMemory.PushPointers` | kernel/src/exec_stack.rs:396-420 | a NULL and the pointers, everything above kept |
| `ExecStack.UserMemory.PushAuxv` | kernel/src/exec_stack.rs:308-394 | the auxiliary vector in order, the phdr entry only when there is one |
| `ExecStack.UserMemory.WriteStrings` | kernel/src/exec_stack.rs:255-303 | the string area of the image |
| `ExecStack.UserMemory.WriteWords` | kernel/src/exec_stack.rs:305-427 | the word area of the image |
| `ExecStack.UserMemory.ComputeSize` | kernel/src/exec_stack.rs:210-244 | the size precomputation |
| `ExecStack.UserMemory.SetupUserStack` | kernel/src/exec_stack.rs:197-432 | E2BIG exactly when the size exceeds 16384, memory untouched; otherwise memory is the image, and with an aligned top the result is the top minus the size (plus 16 without phdr); the auxiliary vector in memory tells the program what was passed |
| `ExecStack.UserMemory.ReadUserString` | kernel/src/exec_stack.rs:160-180 | the NUL-terminated string at the address if it has fewer than 256 bytes, EFAULT for 0, E2BIG otherwise |
| `ExecStack.UserMemory.ParseVector` | kernel/src/exec_stack.rs:62-147 | exactly the strings a vector of at most 63 pointers lists within 32 KiB; E2BIG if there is no such list; parse_argv and parse_envp are the same loop |
| `ExecStack.UserMemory.SetupThenParse` | kernel/src/exec_stack.rs:62-432 | argv and envp survive being written and parsed, for NUL-free strings of at most 255 bytes and at most 63 entries |
| `ElfSpec.LoadsInFile` | kernel/src/elf.rs:196-230 | every accepted segment has filesz at most memsz and lies in the file; at most one per header |
| `ElfSpec.ImageOfPage` | kernel/src/elf.rs:266-349 | with disjoint pages each page of each segment holds that segment's image |
| `ElfSpec.UntouchedPage` | kernel/src/elf.rs:266-349 | a page no segment touches is as it was |
| `ElfSpec.ImageOfByte` | kernel/src/elf.rs:311-345 | byte by byte: file bytes where the file has them, zero on the rest of the segment's pages |
| `ElfSpec.SegmentCovered` | kernel/src/elf.rs:276-280 | every address of a segment is on one of its pages |
| `ElfFormat.FieldReads` | kernel/src/elf.rs:42-71 | a little-endian field holds a number that fits exactly when the number is read from it |
| `ElfFormat.PhdrReads` | kernel/src/elf.rs:62-71 | the 56 bytes are a program header of given type, flags, offset, addresses, sizes and alignment exactly when those are the values read |
| `ElfFormat.HeaderReads` | kernel/src/elf.rs:42-59 | the 64 bytes are a file header with given entry, program header offset and count exactly when it is marked as a little-endian x86-64 executable and those are the values read |
| `ElfFormat.WrittenParses` | kernel/src/elf.rs:143-252 | for every executable written out field by field: it is accepted exactly when it has at most eight program headers and what they load lies in the file; then it gives the entry point and, in order, one segment per loadable header with its addresses and sizes, writable exactly when the PF_W bit is set |
| `ElfFormat.ParsesIff` | kernel/src/elf.rs:143-252 | a file is accepted if and only if it is such an executable |
| `ElfLoader.ParseElf` | kernel/src/elf.rs:143-252 | accepts exactly the written executables whose loads lie in the file, and reports entry point, header count and address, and one segment per loadable header, writable by its PF_W bit; reports the first fault otherwise |
| `ElfLoader.CalculateHeapStart` | kernel/src/elf.rs:357-371 | page-aligned, past every page of every segment, and no further than the last one needs |
| `ElfLoader.BuildPage` | kernel/src/elf.rs:314-344 | zeroing and copying give the segment's image of the page; no slice leaves the file |
| `ElfLoader.FilledView` | kernel/src/elf.rs:293-344 | filling a fresh frame shows in its one page and nowhere else |
| `ElfLoader.LoadPage` | kernel/src/elf.rs:293-344 | one page loaded: one page of one process more, nothing else changed, the paging invariant kept; otherwise every view is kept and at most one frame is lost; NoMemory means that no frame is available |
| `ElfLoader.LoadSegment` | kernel/src/elf.rs:273-346 | one segment loaded page by page; a clash means one of its pages was mapped, NoMemory that no frame is available; in every case the invariant, every other process and every page that was there are kept, and at most one frame is lost |
| `ElfLoader.LoadElfSegments` | kernel/src/elf.rs:266-349 | on success the process shows the specified image, every other process what it showed, and the segments touch disjoint unmapped pages; the panic means they do not, NoMemory that no frame is available; a load that fails keeps the invariant, every other process and every page that was there, and loses at most one frame |
| `ElfLoader.ShownAfterLoad` | kernel/src/elf.rs:266-371 | after the load every address of a segment shows the file's byte or zero, and the segment ends below the heap, on pages as writable as the segment |
| `ElfLoader.ShownAsAsked` | kernel/src/elf.rs:266-371 | what a program header asks for is in memory: the bytes of the file, then zeros, each address writable exactly when the PF_W bit of the header is set |
| `ElfLoader.LoadProgram` | kernel/src/elf.rs:143-371 | parse, load and find the heap: refused exactly when the file is no executable the loader takes, with nothing changed; started, every loadable program header has its file bytes and zeros at its addresses, writable exactly when its PF_W bit is set, below the page-aligned heap start |
| `LittleEndian.LeRoundTrip` | kernel/src/exec_stack.rs:305-427 | a number that fits its bytes is read back from them |
| `LittleEndian.LePositions` | kernel/src/exec_stack.rs:305-427 | each byte of a number counts 256 times as much as the one before it |
| `HomeFsSpec.InodeRoundTrip` | kernel/src/homefs.rs:281-328 | an inode record decodes to what was encoded |
| `HomeFsSpec.InodeLayout` | kernel/src/homefs.rs:69-80 | each field of an inode stands at its offset in the 64-byte record |
| `HomeFsSpec.ByteValue` | kernel/src/homefs.rs:411-437 | bit k of a bitmap byte is worth two to the k |
| `HomeFsSpec.PackAt` | kernel/src/homefs.rs:411-421 | byte i of the bitmap holds bits 8i to 8i+7 |
| `HomeFsSpec.PackInjective` | kernel/src/homefs.rs:406-465 | the bitmap sector determines the bitmap |
| `HomeFsSpec.SuperRoundTrip` | kernel/src/homefs.rs:256-278 | the superblock words are read back from sector 0 |
| `HomeFsSpec.SuperLayout` | kernel/src/homefs.rs:50-64 | each field of the superblock stands at its offset in sector 0 |
| `HomeFsSpec.SuperRecordOverhang` | kernel/src/homefs.rs:266-278 | the record has 516 bytes; the four that do not fit the sector are padding |
| `HomeFsSpec.InodeTable` | kernel/src/homefs.rs:281-296 | the inode table starts at sector 3 and inode n stands 64 (n - 1) bytes into it |
| `HomeFsSpec.FileIsBlocks` | kernel/src/homefs.rs:781-826 | the bytes of a file are its blocks one after the other, block b at sector 35 + b |
| `HomeFsSpec.WithInodeAt` | kernel/src/homefs.rs:304-328 | writing an inode changes that inode and no other |
| `HomeFsSpec.AllocKeepsFiles` | kernel/src/homefs.rs:406-440 | marking a free block keeps all files sound, apart and in step with sectors 0 to 2, and no file uses the block |
| `HomeFsSpec.MarkInodeKeepsFiles` | kernel/src/homefs.rs:344-378 | taking an inode number keeps all that and changes no inode |
| `HomeFsSpec.FreeKeepsFiles` | kernel/src/homefs.rs:443-465 | freeing a block no file uses keeps all that |
| `HomeFsSpec.WriteInodeKeeps` | kernel/src/homefs.rs:304-328 | writing a prepared inode makes it the file and changes no other file |
| `HomeFsSpec.DataKeeps` | kernel/src/homefs.rs:855-885 | writing one of a file's own blocks changes no other file |
| `HomeFsSpec.LastBlocksNeverFound` | kernel/src/homefs.rs:406-414 | in every state at least five blocks are counted as free, and exactly when five are left allocation finds none |
| `HomeFsSpec.LastInodeNeverFound` | kernel/src/homefs.rs:344-378 | in every state at least one inode is counted as free, and exactly when one is left allocation finds none |
| `HomeFsSpec.NoSpaceExample` | kernel/src/homefs.rs:406-414 | a bitmap with five blocks counted as free and none to be found |
| `HomeFsSpec.NewFileKeeps` | kernel/src/homefs.rs:663-681 | writing the inode of a new file adds an empty file and changes no other |
| `HomeFsSpec.ReadsLastWrite` | kernel/src/homefs.rs:781-895 | in every run a read of what a successful write wrote gives that data, if no later write or truncation named the file |
| `HomeFilesystem.HomeFs.constructor` | kernel/src/homefs.rs:141-231 | a formatted device satisfies the invariant with no file; superblock, root inode, its block and both bitmaps have the values of a new filesystem |
| `HomeFilesystem.HomeFs.FindFreeBlock` | kernel/src/homefs.rs:411-437 | the least clear bit below 984, None exactly when there is none |
| `HomeFilesystem.HomeFs.AllocateBlock` | kernel/src/homefs.rs:406-440 | NoSpace exactly when five blocks are counted as free; otherwise the first clear bit is taken, count and sectors 0 and 2 in step |
| `HomeFilesystem.HomeFs.FreeBlock` | kernel/src/homefs.rs:443-465 | refuses a block out of range or already free; otherwise clears its bit, count and sectors in step |
| `HomeFilesystem.HomeFs.FindFreeInode` | kernel/src/homefs.rs:349-375 | the least clear bit from 1 to 255, None exactly when there is none |
| `HomeFilesystem.HomeFs.AllocateInode` | kernel/src/homefs.rs:344-378 | NoSpace exactly when one inode is counted as free; otherwise the first clear number is taken, count and sectors 0 and 1 in step, no inode changed |
| `HomeFilesystem.HomeFs.CreateFileInode` | kernel/src/homefs.rs:663-681 | adds one empty file under a number no file has and changes no other; NoSpace exactly when one inode is counted as free; the new inode has the given mode, owner and group 0 and one link |
| `HomeFilesystem.HomeFs.ReadInode` | kernel/src/homefs.rs:281-296 | the inode of a number in 1..256 |
| `HomeFilesystem.HomeFs.WriteInode` | kernel/src/homefs.rs:304-328 | replaces one record of one sector |
| `HomeFilesystem.HomeFs.ReadFile` | kernel/src/homefs.rs:781-826 | the bytes of the file from the offset, as many as asked for or left; the rest of the buffer is untouched |
| `HomeFilesystem.HomeFs.GrowInode` | kernel/src/homefs.rs:848-853 | takes missing blocks; succeeds exactly when the blocks counted as free, less five, suffice; a failure has taken all that can be found; no file changes; kind, mode, owner, group and links are kept |
| `HomeFilesystem.HomeFs.WriteChunk` | kernel/src/homefs.rs:855-885 | replaces a piece of one block: those bytes of the file and no other file |
| `HomeFilesystem.HomeFs.WriteBlocks` | kernel/src/homefs.rs:855-885 | copies the data through the block list, byte by byte; no other file changes |
| `HomeFilesystem.HomeFs.FinishWrite` | kernel/src/homefs.rs:855-894 | with every block at hand the data is written and then the inode, with kind, mode, owner, group and links as they were |
| `HomeFilesystem.HomeFs.WriteFile` | kernel/src/homefs.rs:829-895 | succeeds exactly when eight blocks suffice and the missing ones can be found; then the file has the data at the offset and its old bytes elsewhere, and the free count falls by the blocks taken; every other file, and on failure this one too, keeps its bytes; a failure for want of blocks leaves none to be found; kind, mode, owner, group and links survive |
| `HomeFilesystem.HomeFs.FreeBlocks` | kernel/src/homefs.rs:1120-1127 | gives back exactly the blocks of the inode |
| `HomeFilesystem.HomeFs.Truncate` | kernel/src/homefs.rs:1112-1138 | empties the file, frees exactly its blocks, changes no other file; kind, mode, owner, group and links survive |
| `HomeFsRuns.Create` | kernel/src/homefs.rs:663-681 | a creation as an operation on files as byte sequences |
| `HomeFsRuns.Write` | kernel/src/homefs.rs:829-895 | a write, its answer and the free count as an operation on files as byte sequences |
| `HomeFsRuns.Truncate` | kernel/src/homefs.rs:1112-1138 | a truncation as an operation on files as byte sequences |
| `HomeFsRuns.Read` | kernel/src/homefs.rs:781-826 | a read answers the slice of the byte sequence |
| `HomeFsRuns.Step` | kernel/src/homefs.rs:663-1138 | any of the four, with its answer |
| `HomeFsRuns.Run` | kernel/src/homefs.rs:663-1138 | any run of creations, writes, truncations and reads on any files, those created on the way included: each answer and each change is the one the byte sequences call for, and a write fails exactly for want of room |
| `HomeFsRuns.FirstWrite` | kernel/src/homefs.rs:829-895 | a first write of at most eight blocks with as many to be found succeeds and the file is the data |
| `HomeFsRuns.TwoFiles` | kernel/src/homefs.rs:141-895 | format, create two files, write both, read the first: it holds its own data |
| `HomeFsRuns.LostBlocks` | kernel/src/homefs.rs:829-895 | a run from a formatted device in which a write fails and seven blocks are lost: no file uses them and they are no longer counted as free |

## Left out

- The kernel half of page tables, kernel stacks, CR3 and TLB: the upper-half entries that CR3 leads to are a parameter, copied as values and never followed.
- The NO_EXECUTE flag and other flag bits above the low twelve: an entry does not give them back (`PageEntry.SetRoundTrip`).
- Huge pages: nothing creates a huge entry in the user half, so that branch of the walk has no state to run in.
- Kernel-mode stores into user pages and brk shrinking: the isolation results are about user-mode stores, faults, fork and exit.
- Demand-paging regions: the list of regions is a parameter that decides whether a page is writable; heap growth is not modelled.
- The page-table tracker and logging: counters with no effect on the tables.
- Refcount storage, region storage and the file byte vectors are sequences that are reassigned; bounds of static buffers are preconditions.
- Waking for stopped children, job-control queries and waitpid as a system call: easier copies of what is here.
- Descriptors.PipePool.Open: counts are unbounded, so saturation of a count at the largest machine word is not modelled.
- Descriptors.FdTable.CloseDescriptor: file offsets and standard streams other than their slots are not modelled.
- TmpFilesystem.TmpFs.Create: inode numbers are unbounded, so 32-bit wrap-around of `next_inode` is not modelled, nor are mode bits, stat, chmod and directory listing.
- TmpFilesystem.TmpFs.Write: 64-bit overflow of offset plus length is not modelled.
- ElfLoader.ParseElf: 64-bit overflow of the program header offset, and of the header address added to the first segment, is not modelled.
- Mmus.Mmu.HandlePageFault: stated for addresses of the user half; a fault of user code at an upper-half address would go to demand paging in the kernel half, which is not modelled.
- FrameAllocators.FrameAllocator.constructor: an allocator whose start lies above its end is followed into allocation only (`AllocateInverted`); the other operations are stated for a valid one.
- ElfLoader.LoadProgram: the same bound on the segments as `ElfLoader.LoadElfSegments`.
- ElfLoader.LoadElfSegments: segments are required to lie in the user half; the code does not check it.
- ElfLoader.CalculateHeapStart: 64-bit overflow of a segment's end is not modelled.
- ExecStack.UserMemory.SetupUserStack: the stack area, 16 KiB below the top and at most 7 bytes of rounding, lies above address 0; lower tops, where the code's subtraction would wrap around, are not modelled.
- ExecStack.UserMemory.ParseVector: reads of unmapped memory are undefined in the code; here they give 0.
- Ipv4.CalculateChecksum: stated for every header whose word sum fits the 32-bit accumulator; for others the code's addition overflows.
- Ipv4.VerifyChecksum: the same bound on the word sum.
- HomeFilesystem.HomeFs.WriteFile: bytes in a gap made by writing past the end are whatever the blocks held; device errors are left out, the device being a total array of sectors.
- HomeFS directories, unlink, freeing of inodes and mounting: the root inode stores a sector where lookups add the first data block, so its block cannot be kept apart from file blocks.
- Drivers, assembly, DNS, UDP, ARP, FAT32, mount routing, permissions, system call dispatch: plumbing, or easier copies of properties above.
