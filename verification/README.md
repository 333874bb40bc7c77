# OpenAgentOS kernel: verified model

A Dafny model of the stateful core of the OpenAgentOS kernel (the RISC-V build) with proofs of what that core
keeps over every run: address spaces and the agent loader, the multi-hart scheduler, mailboxes, the RAM file
system and its disk image, the audit log, the package catalog, and the Internet checksums.

Each part has two layers. The first is a set of functions on values, one per kernel operation, with the
theorems about them. The second is the kernel's own form: classes and methods with arrays, loops and in-place
updates, each proved equal to the function that specifies it, so that the theorems hold of the loops as well.
`dafny verify dfyconfig.toml` checks everything. Nothing was executed.

| part | values and theorems | the running form |
|---|---|---|
| page tables | PageTable, TableRuns | PageTableMachine |
| allocator | KernelHeap | KernelHeap.Allocator |
| address spaces, copy-on-write, set-up, loader | AddressSpaces, CowProofs, SharedPages, CowSteps, SpaceSetup, BootMap, EagerCopy, CopyMachine, SpaceExact, Loader, NodeNeed, ElfImage, ElfLoads, ElfSample | VmMachine |
| scheduler and agent life cycle | Sched, SchedProofs, SchedRuns, SchedWaiting, SchedProgress, SchedHalt, SchedUnsafe | SchedMachine |
| mailboxes | Mailbox, MailboxRuns | MailboxMachine |
| RAM file system and disk image | Ramfs, Persist, PersistProofs, PersistRuns, ByteBits, CrcProofs, PersistExact, PersistDamage | RamfsMachine, PersistMachine |
| audit log | Files, Audit, AuditRuns | FilesMachine, AuditMachine |
| package catalog | Catalog, CatalogUndo, CatalogExact | CatalogMachine |
| checksums | Checksum | Checksum |

## Main results

- **Copy-on-write.** Every run of agent creation, heap mapping, aliasing, faulting, storing and loading reads
  exactly like a machine without frames, which copies at once, step by step (`CowRefinesEagerCopy`) and as a run of
  that machine on its own state (`RunPerforms`). Stacks and heaps are private: such a page reads as its own stores
  left it (`PageReadsItsOwnStores`), and from boot on no other visible page is on the frame of a writable private
  page (`CowSafety`). Programs lie under the kernel's own root slot and are shared by construction: a program page
  keeps its place and its frame in every table that shows it, and changes only by stores through program pages on
  that frame (`CommonReadsItsStores`). Every operation has its exact condition of success, by the room in heap and
  pool and by what is mapped (`HeapMapExactly`, `CowBreakExactly`, `AliasExactly`, `SetupExactly`): a fault is resolved
  exactly when it should and can be (`HeapFaultExactly`).
- **Isolation.** Agents' roots share the kernel's lower nodes, yet over every run of table creations and user
  mappings under root slots the kernel leaves empty, each table translates as if it had been alone
  (`IsolationOverRuns`). Under a shared slot this is false, and `SharedSlotCollides` shows it.
- **Loader.** After a successful load every byte of every loadable segment whose page-rounded end does not wrap
  is what the ELF file says, and no translation of any table, the kernel's included, has changed
  (`LoaderCorrect`, `LoadDisturbsNone`). For an image given by the values of its header fields the entry point, the
  bytes and the permissions are those the fields say (`LoadedByFields`), and it is loaded exactly when its header is
  valid, its segments lie in the file, and their pages are unmapped, distinct and find room (`LoadsExactly`).
- **Scheduler.** Over all interleavings of up to four harts in which a slot changes its home hart only when the
  old one has let go of it, a condition proved exact (`CreateKeepsExactly`): no agent current on two harts, running agents at home, runnable
  agents queued (`SafetyOverRuns`); frames handed out are the agent's own last ones (`ContextIntegrity`);
  waiting is bounded (`BoundedWaiting`); no agent is lost (`OrdinaryOverRuns`, `ActiveUntilEnded`), and one that yields
  runs again within twelve decisions of its hart (`RunsAgain`); the kernel halts exactly when no agent is left (`DoneExactly`) and
  nothing could run afterwards (`DoneIsFinal`).
- **Mailboxes.** FIFO delivery over every run, with gaps exactly where compactions summed messages up
  (`FifoOverRuns`, `GapsAreSummedUp`), and conservation (`ConservedOverRuns`); the printed summary is never
  cut and reads back (`SummaryNeverTruncated`, `SummaryReadsBack`).
- **Persistence.** Sync, restart and load restore the user files exactly when none of them is empty (`RoundTrip`);
  old images migrate to new ones that load to the same user files (`MigrationPreserves`). The whole file map comes
  back exactly when it has no system file but the two seeded ones (`WholeMapExactly`). An image is loaded exactly when
  its files stand on the disk with their CRCs and checksum and find room (`LoadExactly`); a change of any one byte of
  any file is refused (`OneByteRefused`).
- **Audit.** Over every run each log records a suffix of its agent's calls, no new call is ever lost, and the
  log stays within one byte of its quota (`LogsOverRuns`, `CallNeverLost`).
- **Catalog.** Install then rollback is an undo for the active package (`InstallThenRollback`), with the exact
  result for a package that is not active (`InactiveThenRollback`) and for one catalogued at the rollback file
  (`UndoneOverRollbackExactly`). `InstallExactly` says when an install succeeds and everything it writes.
- **Checksums.** Stored checksums verify, odd lengths included, without overflow (`SelfVerifies`), and the TCP checksum
  is the one over the pseudo-header of RFC 9293 (`TcpCsumIsPseudoHeader`).

## Where the obvious claim fails

- "Running exactly when current" is false: a notification turns an executing agent back to runnable
  (`NotifiedWhileExecuting`). The invariant that does hold is `SchedProofs.Inv`.
- A slot created again while a hart still records it as current gets a frame that is not its own: from a hart that
  waits on it (`RecreatedWhileWaiting`), or from the next trap of the destroyed agent that still executes
  (`RecreatedWhileExecuting`). `ContextKeptExactly` says what such a creation leaves of the invariant.
- A slot created with another home hart while the old one still records or queues it breaks the invariant
  (`CreateKeepsExactly`), and in either case some continuation is unsafe (`UnsafeCreationBreaks`,
  `ChangedHomeRunsTwice`). The run theorems carry the condition on homes, and context integrity the one on frames as
  well. Homes do change: the first agent has home 0 whatever its slot, `agent_create` uses the slot number modulo the
  number of harts online, and `agent_load_from_path` and `agent_start_service` leave the home a slot had. Runs whose
  creations all come from `agent_create` with a steady number of harts meet the condition, the first agent's own
  slot apart (`SteadyRunsAreSafe`).
- Waiting is not bounded while other agents of the hart have mail: they come first (`MailFirst`).
- A system file other than the two seeded ones is not saved: it is gone after a restart (`SystemFileForgotten`), and
  one of an old image is gone after the load that follows its migration (`OldSystemFileForgotten`).
- A package that is not the active one records no rollback point, so rollback fails or follows a stale record
  (`InactiveThenRollback`, `NeverActiveInput`).
- `ramfs_write` has no defined result exactly when the end of the data wraps at 2^64 to less than the size limit
  (`WriteRefines`).
- A rejected oversized `ramfs_write` leaves an empty file (`WriteRefines`), and an image with an empty file
  does not load (`RoundTrip`).
- A path of 64 bytes or more is stored cut short and never found again (`LongPathDuplicates`).
- A receive whose copy-out faults puts the message back only if no arrival filled the ring meanwhile
  (`FaultingRecvConserves`, `ArrivalDisplaces`).
- Allocation sizes that wrap break disjointness (`KallocSafeExactly`, `WrappingSizeReuses`), and an allocation
  between an agent's spare page and its stack can push the rounded stack out of its block
  (`InterleavedStackOverlaps`).
- `vm_user_check` never accepts a range that reaches into the last page of the 64-bit space: the page address
  wraps to 0 and the check goes on until a page no table can have mapped (`UserCheck`, `UnmappablePage`).
- `catalog_rollback` means to clear the rollback point by writing an empty file, but empty writes are refused,
  so the point stays and a second rollback succeeds again (`RollbackRepeats`).
- The loader maps every segment readable: it grants what the flags ask for exactly when they ask for reading
  (`GrantedExactly`, `ExecuteOnlyIsReadable`).
- A segment whose page-rounded end wraps at 2^64 is not fully mapped, yet the load succeeds; one that starts on a
  page is not mapped at all (`CoveredExactly`, `WrappingSegmentSkipped`, `TopPageSkipped`).
- A package catalogued at the rollback file is undone exactly when its own bytes hold a record line that names a
  file with the previous bytes (`UndoneOverRollbackExactly`).
- The audit log can hold 513 bytes although its quota is 512: `OneByteOver` gives a run, and `OverQuotaExactly`
  says when a compaction ends above the quota.

## Modelling decisions

- A region under a lock is one atomic step; page-table writes take effect at once; a step by any hart may come
  at any time.
- In the file system, persistence, audit and catalog parts a `char` stands for one byte, and a C string is a
  sequence without `'\0'`. What an uninitialised buffer holds is a parameter (`junk`, `buf`).
- Unsigned 64-bit sums are taken modulo 2^64 wherever the source's sums can wrap. Where the loader then reads
  outside its buffer the outcome is `Undefined`, and no theorem applies.
- Where `ramfs_write` would write outside its buffer the outcome is `None`.
- Page-table nodes are named by their physical page number, as the entries name them.
- Unreachable guards are left out where a proof shows them redundant: the file-size test in `audit_write`, the
  negative size in `persist_sync`, the truncated line in `tool_audit_log`.
- Package verification and parsing are inputs of `Install`; applying a package is one `ramfs_put`.

## Model

| member | source | states |
|---|---|---|
| `PageTable.IndexInjective` | kernel/vm.c:38 | the three 9-bit indices name a 27-bit page number uniquely, so the tree can be a flat map |
| `PageTable.DescendKeeps` | kernel/vm.c:37-49 | following or allocating one level keeps the ownership of nodes: each non-root node hangs in one slot, or in the kernel's slot and its copies |
| `PageTable.WalkKeeps` | kernel/vm.c:36-52 | the allocating walk changes no translation of any table, and fails exactly when the pool cannot hold the missing nodes |
| `PageTable.LeafWritten` | kernel/vm.c:62 | writing a leaf changes that one page number, in exactly the tables that share its root slot |
| `PageTable.MapPageRefines` | kernel/vm.c:54-64 | the tree refines a flat map: success, with its exact condition, updates one page number; failure changes no translation even if nodes were allocated |
| `PageTable.RewriteLeaf` | kernel/vm.c:128 | rewriting a valid leaf in place changes one page in exactly the tables that share it |
| `PageTable.CreateRootCopies` | kernel/vm.c:349-358 | a new root translates every page as the kernel does, changes no other table, and is taken whenever the pool has a node |
| `PageTable.EmptyKernelSlotIsPrivate` | kernel/vm.c:355-356 | a root slot the kernel leaves empty is shared by no two tables |
| `PageTable.SharedSlotCollides` | kernel/vm.c:54-64 | under a shared slot a mapping through one table makes the same address unmappable in the other: isolation needs private slots |
| `PageTable.SomeSlotEmpty` | kernel/vm.c:10 | 64 pool nodes cannot fill the root: every table leaves one of its first 65 slots empty |
| `TableRuns.UserMapIsolated` | kernel/vm.c:54-64 | one user mapping under a private slot is seen by its own table only |
| `TableRuns.IsolationOverRuns` | kernel/vm.c:27-64 | after every run of creations and user mappings the kernel translates as before and every agent as if alone |
| `PageTableMachine.VaIndexIsVpnIndex` | kernel/vm.c:38 | the shifts and masks of the walk pick the digits of the page number |
| `PageTableMachine.Tables.PtAlloc` | kernel/vm.c:27-34 | takes the next zeroed pool node, or fails without change when the pool is used up |
| `PageTableMachine.Tables.Follow` | kernel/vm.c:38-49 | one level of the walk equals the specified descent, and looking only never changes a table |
| `PageTableMachine.Tables.Walk` | kernel/vm.c:36-52 | finds exactly the leaf slot of the address, allocating as specified |
| `PageTableMachine.Tables.MapPage` | kernel/vm.c:54-64 | equals the mapping proved to refine a flat map |
| `PageTableMachine.Tables.PageMapped` | kernel/vm.c:70-73 | true exactly when the flat map has the page |
| `PageTableMachine.Tables.ReadLeaf` | kernel/vm.c:115-119 | the leaf it finds is the flat map's entry |
| `PageTableMachine.Tables.WriteLeaf` | kernel/vm.c:128 | rewrites the leaf of one page and nothing else |
| `PageTableMachine.Tables.CreateAgentPt` | kernel/vm.c:349-358 | the 512-entry copy loop equals the specified root creation |
| `PageTableMachine.Tables.PageAllows` | kernel/vm.c:85-95 | accepts one page exactly when it is a user page with the needed permission |
| `PageTableMachine.Tables.UserCheck` | kernel/vm.c:75-98 | returns 0 exactly when every byte of the range is on a valid user page with the permission, for all lengths, with the exact outcome where addresses wrap at 2^64 |
| `PageTableMachine.UnmappablePage` | kernel/vm.c:54-64 | an address below 2^39 that this table cannot have mapped |
| `KernelHeap.KallocSafeExactly` | kernel/mem.c:24-38 | a block lies between the old and the new bump pointer exactly when the size does not wrap |
| `KernelHeap.WrappingSizeReuses` | kernel/mem.c:24-38 | a concrete wrapping size makes the allocator give out a page twice |
| `KernelHeap.ServeAdvances` | kernel/mem.c:24-56 | every request moves the pointer past the block it hands out and never back |
| `KernelHeap.BlocksDisjoint` | kernel/mem.c:19-56 | over every run of non-wrapping requests all blocks lie in the heap and are pairwise disjoint |
| `KernelHeap.KallocExact` | kernel/mem.c:24-38 | a multiple of 16 bytes that fits is served at the pointer, which moves by exactly that size |
| `KernelHeap.KallocExactly` | kernel/mem.c:24-38 | a size that does not wrap is served at the pointer exactly when its 16-byte multiple fits; otherwise nothing changes |
| `KernelHeap.KallocPageExactly` | kernel/mem.c:40-56 | a page is handed out exactly when a whole one is left above the pointer rounded up, and it is that page |
| `KernelHeap.StackInsideExactly` | kernel/agent.c:79-82 | a stack rounded up to a page stays in its block exactly when the block starts on a page |
| `KernelHeap.StackInsideBlock` | kernel/agent.c:77-82 | after the spare page the stack block starts on a page, so the rounded stack is the block |
| `KernelHeap.InterleavedStackOverlaps` | kernel/agent.c:77-82 | with a 16-byte allocation in between, the mapped stack covers the block allocated next |
| `KernelHeap.Allocator.constructor` | kernel/mem.c:19-22 | the heap starts whole and away from the top of the address space |
| `KernelHeap.Allocator.Alloc` | kernel/mem.c:24-38 | equals the specified allocation, both sums modulo 2^64 |
| `KernelHeap.Allocator.AllocPage` | kernel/mem.c:40-56 | equals the specified page allocation |
| `CowSteps.HeapMapKeeps` | kernel/vm.c:182-208 | mapping a heap page keeps every invariant and changes what one unmapped page reads, and nothing on program pages of any table |
| `CowSteps.CowBreakKeeps` | kernel/vm.c:104-131 | breaking a share keeps every invariant and changes what no page reads, private or of a program |
| `CowSteps.HeapFaultKeeps` | kernel/vm.c:210-231 | a resolved fault maps the page or makes it writable, keeps the invariants, and changes no mapped page of any agent or of the kernel; when it is resolved is `SpaceExact.HeapFaultExactly` |
| `CowSteps.StoreKeeps` | kernel/vm.c:75-98 | a store through a private page changes that page alone; through a program page, exactly the program pages on its frame |
| `CowSteps.WritableIsAlone` | kernel/vm.c:104-180 | no private page of any agent is on the frame of another writable visible page |
| `CowSteps.WritablePrivateIsAlone` | kernel/vm.c:104-180 | nothing visible elsewhere, the kernel's user pages included, is on the frame of a writable private page |
| `CowSteps.AliasKeeps` | kernel/vm.c:133-180 | an alias keeps the invariants and makes the destination read as the source, every other private page and every program page unchanged |
| `CowSteps.LoadPageKeeps` | kernel/elfload.c:94-112 | a load outside the heap window changes no mapped page; at a program address it appears in exactly the tables that share the slot |
| `SharedPages.HeapFaultCommon` | kernel/vm.c:210-231 | no table sees a change on program pages |
| `CowSteps.LoadPageCommon` | kernel/elfload.c:94-112 | where a loaded program page shows, and that it was shown nowhere before |
| `CowSteps.StoreCommon` | kernel/vm.c:75-98 | what a store does to program pages |
| `SpaceSetup.HeapGrowthKeeps` | kernel/mem.c:24-38 | allocations that map nothing keep every invariant |
| `SpaceSetup.AddSpaceKeeps` | kernel/vm.c:349-358 | a new address space keeps every invariant and the contents of the others |
| `SpaceSetup.SetupKeeps` | kernel/agent.c:69-124 | agent set-up, at whichever step it fails, keeps every invariant, every existing private page and every program page |
| `BootMap.BootEstablishes` | kernel/vm.c:265-308 | whatever pages the kernel maps for itself outside the users' slot, even partly, agents start from the invariant |
| `EagerCopy.CowRefinesEagerCopy` | kernel/vm.c:104-231 | each step keeps the invariant, and every page shown to user code, private or of a program, reads as on a machine without frames |
| `EagerCopy.CommonReadsItsStores` | kernel/vm.c:104-231 | over every run a program page keeps its translation in every table and changes only by stores through program pages on its frame |
| `CopyMachine.StepPerforms` | kernel/vm.c:104-231 | one event of the kernel, a load at an agent's link address included, is one act of a reference machine that keeps separate bytes for every page of every agent |
| `CopyMachine.RunPerforms` | kernel/vm.c:104-231 | over every run the reference machine, working on its own state, ends with exactly what the agents read on private and program pages |
| `CopyMachine.UnnamedPageStays` | kernel/vm.c:104-231 | over every run a page that no act names reads as before |
| `EagerCopy.InvOverRuns` | kernel/vm.c:104-231 | the invariant holds after every run |
| `EagerCopy.CowSafety` | kernel/vm.c:104-231 | from boot on, over every run, no other visible page is on the frame of a writable private page |
| `EagerCopy.PageReadsItsOwnStores` | kernel/vm.c:104-231 | over every run a mapped private page reads as its own stores left it |
| `EagerCopy.AliasReadsSameUntilWritten` | kernel/vm.c:133-180 | source and alias read the same until one is stored to, whatever else happens |
| `EagerCopy.ResolvedFaultPasses` | kernel/vm.c:210-231 | after a resolved fault the faulting access passes the user check's page test |
| `EagerCopy.HeapMappedCounts` | kernel/vm.c:170-206 | `heap_mapped` equals the number of mapped window pages and is at most 16 |
| `SpaceExact.UnmappedIsNotCounted` | kernel/vm.c:196-197 | the quota of sixteen pages never refuses a page of the window that is not mapped |
| `SpaceExact.HeapMapExactly` | kernel/vm.c:184-208 | succeeds exactly in the heap range, on a mapped page or where a page and the missing nodes are left |
| `SpaceExact.CowBreakExactly` | kernel/vm.c:104-131 | succeeds exactly on a writable page, or on a mapped one when a page is left for the copy |
| `SpaceExact.HeapFaultExactly` | kernel/vm.c:210-231 | a fault is resolved exactly in the heap range with a page left: on a write to a page mapped read-only, or on an unmapped page whose nodes are left |
| `SpaceExact.AliasMapExactly` | kernel/vm.c:159-171 | the destination page: exactly when it succeeds and which error it gives |
| `SpaceExact.AliasExactly` | kernel/vm.c:133-182 | an alias succeeds exactly for two different window pages, the source mapped, the destination on the same frame or unmapped with nodes left; the last alone gives ENOSPC |
| `SpaceExact.LoadPageExactly` | kernel/elfload.c:94-112 | a loaded page is mapped exactly at a free page boundary with page and nodes left |
| `SpaceExact.AliasIsReadOnly` | kernel/vm.c:173-177 | after an alias both pages are user, readable and not writable, on one frame |
| `SpaceExact.AliasThenWrite` | kernel/vm.c:104-231 | the first write to either page of an alias is resolved exactly when a page is left; the page is then writable and both still read as the source did |
| `SpaceExact.TwoPagesExactly` | kernel/vm.c:54-73 | two neighbouring pages under an empty root slot need exactly two nodes and are then all that was added |
| `SpaceExact.SetupExactly` | kernel/agent.c:69-124 | set-up succeeds exactly when page, stack block and trap frame fit the heap and a root and two nodes the pool; the new space has the kernel map and the two stack pages, user, readable and writable, and its heap base |
| `SpaceExact.GuardUnmapped` | kernel/vm.c:316-321 | the guard page below the stack and the page above it are not mapped |
| `Loader.MapSegmentLoads` | kernel/elfload.c:78-115 | a mapped segment holds file bytes, then zeros, page by page with the segment's permissions, and keeps earlier mappings of every table |
| `Loader.LoadHeadersLoads` | kernel/elfload.c:134-149 | all loadable segments stay loaded to the end, all headers were in the image, and no table lost or changed a mapping |
| `Loader.LoaderCorrect` | kernel/elfload.c:78-153 | after success every PT_LOAD header was loadable; byte k of a segment whose rounded end does not wrap reads as file byte k or zero, with the permissions of `SegPerm`; no translation of any table is changed; by field values it is `ElfLoads.LoadedByFields` |
| `Loader.LoadDisturbsNone` | kernel/elfload.c:117-153 | whether or not the load succeeds, no page any table shows is translated or reads differently |
| `NodeNeed.MapPageLinks` | kernel/vm.c:36-64 | a mapping links exactly the nodes on the way to its page and takes exactly the missing ones from the pool |
| `NodeNeed.NeedAfter` | kernel/vm.c:36-64 | a set of pages needs one node for each empty root slot and one for each empty 2 MiB region; mapping one of them leaves the rest that much less |
| `ElfImage.FieldsReadBack` | kernel/elfload.c:21-47 | little-endian fields written one after the other are read back at the sums of their sizes |
| `ElfImage.PhdrReadsBack` | kernel/elfload.c:38-47 | a program header gives type, flags, offset, address, file size and memory size from its eight fields in order |
| `ElfImage.EhdrReadsBack` | kernel/elfload.c:21-36 | the ELF header is accepted exactly for its magic, class, byte order, machine and header size, and gives entry, offset and number of program headers |
| `ElfLoads.HeaderIs` | kernel/elfload.c:138-141 | program header i is read where the ELF header says it is |
| `ElfLoads.LoadedByFields` | kernel/elfload.c:78-153 | for an image given by its fields: the entry point, every byte of every segment, zero behind the file part, user and readable, writable for flag 2, executable for flag 1 |
| `ElfLoads.MapSegmentIsPages` | kernel/elfload.c:91-113 | a segment is loaded as its list of pages, first to last, until one fails |
| `ElfLoads.SegEndIs` | kernel/elfload.c:90-93 | which pages a segment has, for all 64-bit addresses and sizes |
| `ElfLoads.LoadHeaderIsPages` | kernel/elfload.c:135-148 | a program header loads its pages if it is PT_LOAD and is skipped otherwise |
| `ElfLoads.LoadAllExactly` | kernel/elfload.c:78-115 | a list of pages is loaded exactly when heap and pool have room for all of them and they fall on different unmapped pages |
| `ElfLoads.LoadsExactly` | kernel/elfload.c:117-153 | an image is loaded exactly when its header is valid, its segments lie in the file and there is room for their pages; a bad header changes nothing, no room is ENOSPC |
| `ElfLoads.SegmentOutsideFile` | kernel/elfload.c:144-145 | the first loadable segment that reaches past the file gives EINVAL |
| `ElfSample.SampleLoads` | kernel/elfload.c:117-153 | a concrete image, with zeros behind its file part, is loaded by the first agent of a fresh kernel and reads as it should |
| `Loader.MappingAdds` | kernel/vm.c:54-64 | a mapping replaces no translation in any table, shared slots included |
| `Loader.GrantedExactly` | kernel/elfload.c:83-88 | the permissions granted are those requested exactly when PF_R is set |
| `Loader.ExecuteOnlyIsReadable` | kernel/elfload.c:83-88 | an execute-only segment is mapped readable |
| `Loader.CoveredExactly` | kernel/elfload.c:90-93 | the page loop reaches every byte of a segment exactly when its rounded end does not wrap |
| `Loader.WrappingSegmentSkipped` | kernel/elfload.c:90-93 | a page-aligned segment whose rounded end wraps is accepted with nothing mapped |
| `Loader.TopPageSkipped` | kernel/elfload.c:90-93 | a concrete such segment |
| `Loader.SharedAddressLoadsOnce` | kernel/elfload.c:111-112 | at an address under a slot shared with another table only the first load succeeds |
| `VmMachine.Kernel.constructor` | kernel/vm.c:293-308 | the machine starts with no agents and the whole heap |
| `VmMachine.Kernel.AllocPage` | kernel/mem.c:40-56 | equals the specified page allocation and touches nothing else |
| `VmMachine.Kernel.AllocBlock` | kernel/mem.c:24-38 | equals the specified allocation for every size and touches nothing else; sizes that do not wrap keep the heap in order |
| `VmMachine.Kernel.MapPagesAt` | kernel/vm.c:233-243 | the region loop stops at the first page that fails, as specified |
| `VmMachine.Kernel.MapStack` | kernel/agent.c:92-109 | a new root with the two stack pages, or none |
| `VmMachine.Kernel.SetupAgent` | kernel/agent.c:69-124 | equals the set-up proved to disturb no one |
| `VmMachine.Kernel.HeapMapPage` | kernel/vm.c:182-208 | equals the specified heap mapping |
| `VmMachine.Kernel.CopyPage` | kernel/vm.c:123-126 | the byte loop makes the new frame a copy and changes no other |
| `VmMachine.Kernel.CowBreakPage` | kernel/vm.c:104-131 | equals the specified copy on write |
| `VmMachine.Kernel.Fault` | kernel/vm.c:210-231 | equals the fault resolution whose exact condition is `SpaceExact.HeapFaultExactly` |
| `VmMachine.Kernel.MapUserPage` | kernel/vm.c:66-68 | equals the specified mapping and touches the tables only |
| `VmMachine.Kernel.MapAlias` | kernel/vm.c:159-171 | equals the specified mapping of the destination |
| `VmMachine.Kernel.ProtectAlias` | kernel/vm.c:173-177 | equals the specified write protection of both pages |
| `VmMachine.Kernel.AliasPages` | kernel/vm.c:139-177 | equals the specified alias |
| `VmMachine.Kernel.HeapCowAlias` | kernel/vm.c:133-180 | the same, returning the destination address exactly on success and the error code otherwise |
| `VmMachine.Kernel.FillPage` | kernel/elfload.c:102-110 | the two byte loops leave the segment's bytes and zeros |
| `VmMachine.Kernel.LoadSegmentPage` | kernel/elfload.c:94-112 | equals the specified loading of one page |
| `VmMachine.Kernel.LoadSegment` | kernel/elfload.c:78-115 | equals the specified segment mapping |
| `VmMachine.Kernel.LoadOneHeader` | kernel/elfload.c:135-148 | equals the treatment of one program header, whose fields `ElfImage.PhdrReadsBack` fixes and whose pages `ElfLoads.LoadHeaderIsPages` lists |
| `VmMachine.Kernel.LoadImage` | kernel/elfload.c:117-153 | equals the specified load, error codes included |
| `SchedProofs.QueueHasRoom` | kernel/sched.c:80-93 | by pigeonhole the capacity test never turns an agent away |
| `SchedProofs.PickNextExact` | kernel/sched.c:154-210 | an agent is found exactly when a runnable or mail-holding live agent is homed on the hart; without mail it is the first dispatchable queue entry |
| `SchedProofs.NextKeeps` | kernel/sched.c:80-263 | every step of every hart keeps the scheduler's invariant, a creation under its exact condition |
| `SchedProofs.CreateKeepsExactly` | kernel/agent.c:156-172 | a creation keeps the invariant exactly when the home stays or the old home neither records nor queues the slot |
| `SchedProofs.UnusedIsDetached` | kernel/agent.c:53-59 | a slot never used can be given any home |
| `SchedRuns.SteadyRunsAreSafe` | kernel/agent.c:160-165 | creations with home `id % ncpu` meet the condition in every run from boot, for any steady number of harts, the first agent's slot apart |
| `SchedRuns.TwoHartsDispatch` | kernel/sched.c:212-302 | a run of the kind the theorems cover in which two harts dispatch and run different agents |
| `SchedRuns.BootGood` | kernel/sched.c:304-314 | the state at start-up satisfies the invariants |
| `SchedRuns.SafetyOverRuns` | kernel/sched.c:71-302 | in every interleaving with safe homes, on all harts: current on one hart only, running at home, runnable and queued, queues without duplicates |
| `SchedRuns.OnlyLiveDispatched` | kernel/sched.c:154-210 | zombies, unused and merely created slots are never dispatched, nor agents of another hart |
| `SchedRuns.NotifiedWhileExecuting` | kernel/sched.c:111-119 | an executing agent can be runnable and queued |
| `SchedRuns.ContextIntegrity` | kernel/sched.c:43-46 | every agent's frame is its initial one or that of its own last trap |
| `SchedRuns.DispatchHandsOutLastSaved` | kernel/sched.c:212-263 | the frame handed out at a dispatch is the one the agent last left |
| `SchedRuns.ContextKeptExactly` | kernel/agent.c:136-172 | a creation keeps the invariant behind context integrity exactly when every hart waiting on the slot holds the new frame |
| `SchedRuns.RecreatedWhileWaiting` | kernel/sched.c:221-222 | a hart waiting on a slot created again overwrites the new frame with the one it holds |
| `SchedRuns.RecreatedWhileExecuting` | kernel/agent.c:302-309 | the next trap of a destroyed agent that still executes becomes the frame of the agent created in its slot |
| `SchedRuns.RecreatedWhileCurrent` | kernel/sched.c:221-222 | created again while current on any hart, waiting or executing, a slot can get a frame that is not its own |
| `SchedRuns.ChangedHomeRunsTwice` | kernel/agent.c:160-165 | with a changed home a concrete run has one agent current on two harts |
| `SchedUnsafe.UnsafeCreationBreaks` | kernel/agent.c:160-172 | after any creation that breaks the condition, slot recorded or only queued, some continuation is unsafe |
| `SchedWaiting.BoundedWaiting` | kernel/sched.c:154-263 | with k dispatchable entries ahead, a runnable agent is dispatched by its hart's decision k + 1, whatever other harts do and although agents are created, on its own hart too |
| `SchedWaiting.MailFirst` | kernel/sched.c:180-191 | while a live agent of the hart has mail, only agents with mail are dispatched |
| `SchedWaiting.SentGoesFirst` | kernel/sched.c:180-191 | a message to a live agent makes the next decision of its hart pick an agent with mail |
| `SchedProgress.SlotLife` | kernel/sched.c:111-263 | an active agent stays active until it exits or is destroyed, then it is a zombie until the slot is created anew |
| `SchedProgress.OrdinaryOverRuns` | kernel/sched.c:111-302 | over every run from boot each slot is unused, runnable, running or a zombie |
| `SchedProgress.ActiveUntilEnded` | kernel/sched.c:111-302 | over every run an agent is runnable or running until a step ends it |
| `SchedProgress.NotifiedIsReady` | kernel/sched.c:111-123 | a notified agent that is no zombie is runnable and in its queue |
| `SchedProgress.MailStep` | kernel/sched.c:175-263 | only a delivery, a receipt and a creation change an inbox, by one message each way |
| `SchedProgress.MailLedger` | kernel/agent.c:236-300 | over every run an inbox holds what came in and was not taken out |
| `SchedProgress.RequeuedLast` | kernel/sched.c:224-228 | a running agent that gives up its hart is runnable and last in its queue |
| `SchedProgress.DecideDispatches` | kernel/sched.c:218-263 | a decision with a running agent always dispatches some agent; the other one, if passed over, is runnable and last in the queue |
| `SchedProgress.RunsAgain` | kernel/sched.c:212-263 | an agent that yields or is preempted is dispatched by one of the next twelve decisions of its hart, whatever other harts do, while its hart has no mail |
| `SchedHalt.HaltsExactlyWhenAllGone` | kernel/sched.c:125-152 | after every run the end test holds exactly when every slot is unused or a zombie |
| `SchedHalt.DoneExactly` | kernel/sched.c:140-152 | the same for any state whose slot 0 is unused |
| `SchedHalt.RunnableExactly` | kernel/sched.c:125-138 | true exactly when some selectable agent is runnable or has mail |
| `SchedHalt.SlotZeroUnused` | kernel/agent.c:53-59 | in every run slot 0 is never handed out and recorded by no hart |
| `SchedHalt.DoneIsFinal` | kernel/sched.c:234-239 | once no agent is left and none is created, no hart ever dispatches again |
| `SchedMachine.RunQueue.constructor` | kernel/sched.c:18-19 | a queue starts empty |
| `SchedMachine.RunQueue.Add` | kernel/sched.c:80-93 | appends the agent unless it is there or the row is full |
| `SchedMachine.RunQueue.CloseGap` | kernel/sched.c:104-106 | the shifting loop removes one position and keeps the order |
| `SchedMachine.RunQueue.Remove` | kernel/sched.c:95-109 | removes the first occurrence and keeps the order |
| `SchedMachine.RunQueue.PickFirst` | kernel/sched.c:154-166 | the first dispatchable entry |
| `SchedMachine.Scheduler.constructor` | kernel/sched.c:304-314 | the state at start-up |
| `SchedMachine.Scheduler.QueueAgent` | kernel/sched.c:80-93 | queues on the home hart, hart 0 for a home out of range |
| `SchedMachine.Scheduler.NotifyAgent` | kernel/sched.c:111-123 | equals the specified notification |
| `SchedMachine.Scheduler.ScanMail` | kernel/sched.c:180-191 | the first live agent of the hart with mail |
| `SchedMachine.Scheduler.ScanRound` | kernel/sched.c:197-208 | the first runnable agent of the hart from `rr_next` on |
| `SchedMachine.Scheduler.ScanQueue` | kernel/sched.c:193-195 | the first dispatchable agent of the hart's queue |
| `SchedMachine.Scheduler.PickAgent` | kernel/sched.c:175-210 | equals the specified choice |
| `SchedMachine.Scheduler.DispatchAgent` | kernel/sched.c:250-253 | equals the specified dispatch |
| `SchedMachine.Scheduler.RequeueCurrent` | kernel/sched.c:221-228 | equals the step that saves the frame and puts a running agent last in its queue (`SchedProgress.RequeuedLast`) |
| `SchedMachine.Scheduler.Reschedule` | kernel/sched.c:218-263 | one pass of the trap loop is the step `Decide`, which always dispatches when its agent is running (`SchedProgress.DecideDispatches`) |
| `SchedMachine.Scheduler.RunLoopPass` | kernel/sched.c:275-301 | one pass of the run loop is the step `LoopPick` |
| `SchedMachine.Scheduler.EnterTrap` | kernel/sched.c:43-56 | is the step `Trap` |
| `SchedMachine.Scheduler.ExitCurrent` | kernel/agent.c:311-318 | is the step `Exit` |
| `SchedMachine.Scheduler.DestroyAgent` | kernel/agent.c:302-309 | is the step `Destroy` for every used slot, an error without change for the others |
| `SchedMachine.Scheduler.AllocId` | kernel/agent.c:53-59 | the least free slot above 0, or -1 exactly when there is none |
| `SchedMachine.Scheduler.CreateAgent` | kernel/agent.c:136-173 | is the step `Create` on that slot with home `id % ncpu`, or an error without change |
| `SchedMachine.Scheduler.AnyRunnable` | kernel/sched.c:125-138 | equals the specified test |
| `SchedMachine.Scheduler.CheckDone` | kernel/sched.c:140-152 | equals the end test proved exact |
| `Decimal.ScanDigits` | kernel/ipc.c:31-44 | a printed number reads back and the scan stops right behind it |
| `Decimal.DigitsExamples` | kernel/ipc.c:31-44 | two printed numbers |
| `Decimal.DigitsOf32` | kernel/ipc.c:32 | a 32-bit number takes at most ten digits, so the 12-byte buffer suffices |
| `Decimal.ReverseDigits` | kernel/ipc.c:38-41 | the division loop collects the digits in reverse |
| `Mailbox.SummaryNeverTruncated` | kernel/ipc.c:143-156 | for every content the summary is complete and at most 202 of 224 bytes |
| `Mailbox.SummaryReadsBack` | kernel/ipc.c:143-156 | the payload decodes to the drop count and the exact sequence of dropped types |
| `Mailbox.SummaryExample` | kernel/ipc.c:143-156 | the summary of two dropped messages, letter by letter |
| `MailboxRuns.StepKeepsValid` | kernel/ipc.c:59-170 | capacities and the split by priority hold after every operation |
| `MailboxRuns.LogRefines` | kernel/ipc.c:59-170 | every operation refines an abstract log of accepted messages |
| `MailboxRuns.PopDelivers` | kernel/ipc.c:89-112 | what leaves is the oldest accepted steer message, else the oldest pending normal one |
| `MailboxRuns.FifoOverRuns` | kernel/ipc.c:59-170 | over every run the mailbox is its log: steer messages leave in order without gaps, normal ones in order and none twice |
| `MailboxRuns.GapsAreSummedUp` | kernel/ipc.c:89-170 | every accepted normal message passed over was delivered or summed up by a compaction, and never both |
| `MailboxRuns.NoGapsWithoutCompaction` | kernel/ipc.c:59-112 | without compactions normal messages are delivered without gaps |
| `MailboxRuns.ConservedOverRuns` | kernel/ipc.c:59-170 | over every run what was held, accepted or printed as a summary is still held, was delivered or was summed up |
| `MailboxRuns.CompactShape` | kernel/ipc.c:114-170 | a longer queue becomes one summary, which decodes to the dropped types, and its last `keep` messages, within 16, with `keep` cut to 0 to 16; otherwise nothing changes |
| `MailboxRuns.PushHolds` | kernel/ipc.c:59-87 | a push adds the message, or changes nothing exactly when the ring is full |
| `MailboxRuns.FaultingRecvConserves` | kernel/agent.c:279-285 | a faulting receive conserves the messages exactly when arrivals have not filled the ring |
| `MailboxRuns.ArrivalDisplaces` | kernel/agent.c:279-285 | a concrete arrival that makes the put-back fail |
| `MailboxMachine.RingPushes` | kernel/ipc.c:80-82 | writing at the tail appends to the ring's sequence and moves the tail on |
| `MailboxMachine.RingPops` | kernel/ipc.c:105-107 | moving the head drops the first message and leaves the tail in place |
| `MailboxMachine.Ring.Push` | kernel/ipc.c:80-82 | appends to the ring's sequence |
| `MailboxMachine.Ring.Pop` | kernel/ipc.c:105-107 | removes the first of the ring's sequence |
| `MailboxMachine.Ring.Get` | kernel/ipc.c:139-140 | message i from the head |
| `MailboxMachine.Ring.Refill` | kernel/ipc.c:161-165 | the ring becomes exactly the rebuilt messages |
| `MailboxMachine.PayloadPutc` | kernel/ipc.c:21-24 | adds the character if a byte stays free, else nothing |
| `MailboxMachine.PayloadPuts` | kernel/ipc.c:26-29 | adds the text as far as it fits |
| `MailboxMachine.PayloadPutUint` | kernel/ipc.c:31-44 | adds the decimal digits as far as they fit |
| `MailboxMachine.PrintInto` | kernel/ipc.c:143-156 | fills the payload with the specified summary |
| `MailboxMachine.MsgBox.constructor` | kernel/ipc.c:46-49 | both rings start empty |
| `MailboxMachine.MsgBox.Push` | kernel/ipc.c:59-87 | equals the specified push |
| `MailboxMachine.MsgBox.Pop` | kernel/ipc.c:89-112 | equals the specified pop |
| `MailboxMachine.MsgBox.Receive` | kernel/agent.c:266-288 | delivers the popped message, or on a copy fault puts it back and conserves the messages |
| `MailboxMachine.MsgBox.Ordered` | kernel/ipc.c:137-141 | copies the queue in order |
| `MailboxMachine.MsgBox.Compact` | kernel/ipc.c:114-170 | equals the specified compaction |
| `Ramfs.RoomExactly` | kernel/ramfs.c:40-48 | a slot is free exactly when the map has fewer than 64 paths |
| `Ramfs.LookupRefines` | kernel/ramfs.c:32-49 | finds the path or creates it empty exactly when there is room, and keeps paths unique |
| `Ramfs.PutRefines` | kernel/ramfs.c:109-122 | one update of the map, with the exact return code |
| `Ramfs.WriteRefines` | kernel/ramfs.c:88-103 | overlays the data, or fails with its exact code, a too large write leaving an empty file if the path was absent; undefined exactly when the end wraps into bounds |
| `Ramfs.ReadRefines` | kernel/ramfs.c:71-86 | reads the map, with the exact count and error code |
| `Ramfs.LongPathDuplicates` | kernel/ramfs.c:44 | putting an overlong path twice leaves two slots with one name |
| `Ramfs.IsSysByName` | kernel/ramfs.c:105-107 | for a nonempty path the prefix test depends on the path alone |
| `RamfsMachine.StrEq` | kernel/ramfs.c:15-23 | decides equality of the two C strings |
| `RamfsMachine.StrCopyInto` | kernel/ramfs.c:25-30 | copies as far as the buffer goes and terminates it |
| `RamfsMachine.CopyInto` | kernel/ramfs.c:98-99 | overlays exactly the given range |
| `RamfsMachine.FileTable.FindPath` | kernel/ramfs.c:34-37 | the first used slot with the path |
| `RamfsMachine.FileTable.LookupPath` | kernel/ramfs.c:32-49 | equals the specified lookup, with and without creation |
| `RamfsMachine.FileTable.Claim` | kernel/ramfs.c:42-44 | turns one free slot into an empty file |
| `Ramfs.SeedIsPut` | kernel/ramfs.c:51-60 | seeding a content that fits and is not empty is a put |
| `RamfsMachine.FileTable.SeedFile` | kernel/ramfs.c:51-60 | equals the specified seeding for every content, cut where it does not fit |
| `RamfsMachine.FileTable.Initialise` | kernel/ramfs.c:62-69 | the table with exactly the two seeded files |
| `RamfsMachine.FileTable.PutFile` | kernel/ramfs.c:109-122 | equals the put proved to refine a map update |
| `RamfsMachine.FileTable.WriteFile` | kernel/ramfs.c:88-103 | equals the specified write |
| `RamfsMachine.FileTable.ReadFile` | kernel/ramfs.c:71-86 | equals the specified read |
| `RamfsMachine.FileTable.ClearUserFiles` | kernel/ramfs.c:174-180 | frees exactly the user slots |
| `RamfsMachine.FileTable.UserCount` | kernel/ramfs.c:182-190 | the number of user files |
| `RamfsMachine.FileTable.UserGet` | kernel/ramfs.c:192-211 | hands out the idx-th user file in slot order, with the exact error codes |
| `Persist.LeRoundTrip` | kernel/persist.c:12-23 | a stored 32-bit field reads back |
| `PersistProofs.WriteDataReads` | kernel/persist.c:71-88 | data written over sectors reads back, other sectors unchanged |
| `PersistProofs.MetaReadsBack` | kernel/persist.c:110-124 | a metadata sector gives back path, size and checksum whatever the path buffer held before |
| `PersistProofs.SaveFileStores` | kernel/persist.c:272-287 | a saved file is stored in its own span of sectors only |
| `PersistProofs.SaveFilesStores` | kernel/persist.c:266-289 | all files are stored one behind the other and none overwrites another |
| `PersistRuns.InitView` | kernel/ramfs.c:62-69 | the file map at start-up is exactly the two seeds |
| `PersistRuns.UserFilesFit` | kernel/ramfs.c:182-190 | with the seeds in the table there are at most 62 user files |
| `PersistRuns.SyncStores` | kernel/persist.c:251-297 | an error-free sync leaves a complete image with its superblock |
| `PersistRuns.LoadStored` | kernel/persist.c:153-195 | a stored image passes every CRC and the rolling checksum, and puts back each file |
| `PersistRuns.LoadStopsAtEmpty` | kernel/persist.c:166-167 | an image with an empty file fails to load |
| `PersistRuns.LoadImage` | kernel/persist.c:216-249 | a complete image loads into a fresh table exactly when it has no empty file, and then gives seeds and files |
| `CrcProofs.FromInjective` | kernel/persist.c:42-50 | different CRC states stay different whatever bytes follow |
| `CrcProofs.OneByteDetected` | kernel/persist.c:37-52 | changing any one byte of the data changes its CRC |
| `CrcProofs.CheckValue` | kernel/persist.c:37-52 | the CRC-32 check value of the nine digits |
| `PersistExact.ReadDataExactly` | kernel/persist.c:54-69 | reading gives exactly the bytes that stand in the sectors, 512 in each |
| `PersistExact.PutExactly` | kernel/ramfs.c:109-122 | a put takes 1 to 8191 bytes exactly when the path is known or a slot is free, for paths of any length |
| `PersistExact.HasRoomExactly` | kernel/ramfs.c:32-49 | files with terminated paths find slots exactly when the table then has at most 64 paths |
| `PersistExact.LoadEntry` | kernel/persist.c:158-188 | one file is taken exactly with an acceptable size, the stored CRC and a slot; otherwise EIO |
| `PersistExact.LoadFilesExactly` | kernel/persist.c:126-188 | the loop succeeds exactly when every file is acceptable and the table has room, and then put them all |
| `PersistExact.LoadedStands` | kernel/persist.c:126-188 | what was loaded without error stands on the disk: unreadable sectors are refused |
| `PersistExact.MixAllIsXor` | kernel/persist.c:169-170 | the rolling checksum is the exclusive or of all stored CRCs and sizes |
| `PersistExact.LoadExactly` | kernel/persist.c:216-249 | an AOS2 image is loaded exactly when its files stand on the disk, acceptable, with room, and with the checksum of the superblock; everything else is EIO |
| `PersistDamage.NoImage` | kernel/persist.c:221-246 | no device or no magic: nothing to load; an unreadable superblock or an unknown version: EIO |
| `PersistDamage.SuperBytes` | kernel/persist.c:261-264 | the first bytes of the superblock on disk |
| `PersistDamage.LoadedView` | kernel/persist.c:186-187 | the loaded files are in the map with their bytes, a later one over an earlier one |
| `PersistDamage.BadCrcRefused` | kernel/persist.c:179-183 | a file whose bytes do not have its stored CRC is refused |
| `PersistDamage.DamagedDataRefused` | kernel/persist.c:179-183 | a stored image with other bytes of another CRC in the sectors of one file is refused |
| `PersistDamage.OneByteRefused` | kernel/persist.c:179-183 | a stored image with any one byte of any file changed is refused |
| `PersistDamage.WrongChecksumRefused` | kernel/persist.c:191-194 | a stored image with another checksum in its superblock is refused |
| `PersistRuns.RoundTrip` | kernel/persist.c:251-297 | sync, restart and load restore the user files, exactly when none is empty, and the whole map exactly when it has no system file but the seeded ones |
| `PersistRuns.WholeMapExactly` | kernel/persist.c:251-297 | the seeds and the user files are the whole map exactly then |
| `PersistRuns.SystemFileForgotten` | kernel/kernel_box.c:19-22 | an input: the system file of a headless box is gone after a restart |
| `PersistRuns.UserMapByName` | kernel/ramfs.c:105-107 | the saved part of the map is the paths outside the system prefix |
| `PersistRuns.UserFilesSurvive` | kernel/persist.c:216-297 | the user's part of the map is the same before and after |
| `PersistRuns.LoadKeepsHealthy` | kernel/persist.c:126-151 | loading keeps paths unique, the seeds present and every file nonempty |
| `PersistRuns.MigrationPreserves` | kernel/persist.c:209-249 | an old image with terminated paths that loads leaves a new image that loads to the same user files, and to the same map exactly when the old one brought no system file |
| `PersistRuns.OldSystemFileForgotten` | kernel/persist.c:126-151 | an input: an old image whose system file is there after the migrating load and gone after the next |
| `PersistMachine.CrcStep` | kernel/persist.c:43-49 | the eight-bit inner loop |
| `PersistMachine.ComputeCrc` | kernel/persist.c:37-52 | equals the specified CRC |
| `PersistMachine.FillSector` | kernel/persist.c:104-106 | the data followed by zeros |
| `PersistMachine.Device.ReadFileData` | kernel/persist.c:54-69 | equals the specified read, an error at the first bad sector |
| `PersistMachine.Device.WriteFileData` | kernel/persist.c:71-88 | equals the specified write, an error at the first bad sector |
| `PersistMachine.Store.SaveOne` | kernel/persist.c:267-287 | equals the specified saving of one file |
| `PersistMachine.Store.SyncAll` | kernel/persist.c:251-297 | equals the sync proved to store a complete image |
| `PersistMachine.Store.WriteSuper` | kernel/persist.c:101-108 | writes the specified superblock |
| `PersistMachine.Store.LoadOne` | kernel/persist.c:158-188 | equals one round of the loading whose exact outcome is `PersistExact.LoadEntry` |
| `PersistMachine.Store.LoadAll` | kernel/persist.c:126-195 | equals the specified loading of all files |
| `PersistMachine.Store.LoadStore` | kernel/persist.c:216-249 | equals the load whose exact outcome is `PersistExact.LoadExactly`, migration included |
| `FilesMachine.Store` | kernel/ramfs.c:109-122 | one update of the map |
| `FilesMachine.Fetch` | kernel/ramfs.c:71-86 | a prefix of the file |
| `FilesMachine.ProbeSize` | kernel/audit.c:88-96 | reading byte by byte gives the size, one for an empty file |
| `Audit.LogPathInjective` | kernel/audit.c:32-73 | agents never share a log |
| `Audit.LogPathFits` | kernel/audit.c:32-73 | the path of an eight-digit id is at most 30 bytes |
| `Audit.CallTextFits` | kernel/tool.c:75-95 | every line is one line of 12 to 32 bytes |
| `Audit.CallTextReadsBack` | kernel/tool.c:75-95 | a line determines the call it records |
| `Audit.TextExamples` | kernel/tool.c:75-95 | a line of the log and a path, letter by letter |
| `Audit.AllStarts` | kernel/audit.c:205-212 | the scan finds the beginning of every line |
| `Audit.CompactedLines` | kernel/audit.c:205-237 | compaction keeps the last k lines behind a header, or everything when there are no more |
| `AuditRuns.AppendRecords` | kernel/audit.c:172-177 | an append that fits extends the record by the call |
| `AuditRuns.CompactRecords` | kernel/audit.c:182-242 | compaction leaves the record of a shorter suffix, within the bound on its size |
| `AuditRuns.LoggedCall` | kernel/tool.c:97-101 | on an existing log the call always succeeds; older calls go only by the automatic compaction, which keeps eight |
| `AuditRuns.FirstCall` | kernel/audit.c:165-167 | creating the log fails exactly when the table is full |
| `AuditRuns.CompactKeeps` | kernel/audit.c:182-242 | with any argument the log stays a suffix of the history and the returned size is its size |
| `Audit.HeaderText` | kernel/audit.c:221-233 | the header line prints the number of lines kept |
| `AuditRuns.CompactExactly` | kernel/audit.c:182-242 | the last `keep` calls, cut to 1 to 32, stay behind a header; a log of no more lines is left alone |
| `AuditRuns.LogsOverRuns` | kernel/audit.c:151-242 | in every run each log records a suffix of its agent's calls, whatever other agents do |
| `AuditRuns.NoLogsAtFirst` | kernel/audit.c:75-77 | a file system without logs satisfies the invariant |
| `AuditRuns.NewestIsLast` | kernel/tool.c:97-101 | the newest call is the last line and the log is at most 513 bytes |
| `AuditRuns.CallNeverLost` | kernel/tool.c:75-104 | after any run, a call on an existing log is accepted and is the last line |
| `AuditRuns.OverQuotaExactly` | kernel/audit.c:205-239 | the compacted log exceeds the quota exactly when it already did and is left alone, or only its header is replaced by one of two digits and it was that full |
| `AuditRuns.OneByteOver` | kernel/audit.c:220-239 | a concrete run of calls and compactions from an empty file system reaches 513 bytes |
| `AuditMachine.AppendInt` | kernel/tool.c:44-73 | appends the number, failing exactly when it does not fit |
| `AuditMachine.BuildLine` | kernel/tool.c:80-95 | builds the line without ever running out of its buffer |
| `AuditMachine.BuildPath` | kernel/audit.c:32-73 | builds the log's path |
| `AuditMachine.MeasureUsage` | kernel/audit.c:79-97 | equals the specified usage |
| `AuditMachine.WriteLog` | kernel/audit.c:104-178 | equals the specified write |
| `AuditMachine.FindStarts` | kernel/audit.c:205-212 | equals the specified scan |
| `AuditMachine.CopyTail` | kernel/audit.c:235-237 | the header and the tail, as far as the buffer goes |
| `AuditMachine.CompactLog` | kernel/audit.c:182-242 | equals the specified compaction |
| `AuditMachine.LogToolCall` | kernel/tool.c:75-104 | equals the logged call proved never to be lost |
| `Catalog.FieldPlain` | kernel/catalog.c:138-159 | a field contains neither separator nor newline |
| `Catalog.RecordReadsBack` | kernel/catalog.c:242-276 | a record of plain parts gives its parts back |
| `Catalog.RecordExample` | kernel/catalog.c:242-276 | a record, letter by letter |
| `Catalog.LineOfSingle` | kernel/catalog.c:289-303 | a one-line file is found exactly when its first field is the name |
| `Catalog.LineOfClean` | kernel/catalog.c:201-219 | the line found is one line and matches the name |
| `CatalogUndo.ActiveReadsBack` | kernel/catalog.c:191-258 | after a record is set active, the lookups give its version and path, and nothing for any other name |
| `CatalogUndo.RollbackReadsBack` | kernel/catalog.c:260-304 | the recorded rollback point reads back |
| `CatalogUndo.ActivePlain` | kernel/catalog.c:222-240 | a version or path read from the active file is plain and fits its buffer |
| `CatalogUndo.CataloguedEntry` | kernel/catalog.c:161-189 | a catalogued package has a plain version and install path that fit |
| `CatalogUndo.InstallResult` | kernel/catalog.c:351-431 | the exact file system after a successful upgrade |
| `CatalogUndo.RollbackResult` | kernel/catalog.c:433-481 | with point and backup in place, rollback succeeds and restores the backup |
| `CatalogUndo.InstallThenRollback` | kernel/catalog.c:351-481 | after a successful install over a copy of the active package rollback succeeds, gives the exact final file system and the previous version, and restores the previous bytes exactly when the path is not the active file, or that file already was this one record |
| `CatalogUndo.InactiveInstall` | kernel/catalog.c:405-428 | the exact file system after an install over a copy of a package that is not active |
| `CatalogUndo.InactiveThenRollback` | kernel/catalog.c:351-481 | rollback then follows the rollback file there is, and restores the previous bytes exactly when its line for the package names a file with them |
| `CatalogUndo.NeverActiveInput` | kernel/catalog.c:405-416 | an input whose rollback fails |
| `CatalogExact.ParseDotted` | kernel/catalog.c:92-121 | a dotted version is read as its three numbers, and a third dot makes it unreadable |
| `CatalogExact.VersionOrder` | kernel/catalog.c:123-136 | versions are compared number by number; an unreadable one is below every bound and bounds nothing |
| `CatalogExact.LineAmong` | kernel/catalog.c:161-189 | the lookup finds the first line whose first field is the name |
| `CatalogExact.TakesFirst` | kernel/ramfs.c:109-122 | one put after the other succeeds exactly when the list as a whole fits |
| `CatalogExact.InstallExactly` | kernel/catalog.c:351-431 | an install succeeds exactly when the version gate is open, the package verifies and parses, and all its writes fit; those writes are all it does, first installs included |
| `CatalogUndo.JoinedFields` | kernel/catalog.c:138-159 | a line of plain fields gives every field back |
| `CatalogUndo.InstalledOverRollback` | kernel/catalog.c:405-428 | the exact file system after upgrading a package catalogued at the rollback file: the backup is the install's own record |
| `CatalogUndo.RollbackReads` | kernel/catalog.c:452-480 | the result of rollback in every case, from the text of the rollback file |
| `CatalogUndo.UndoneOverRollbackExactly` | kernel/catalog.c:351-481 | it restores the previous bytes exactly when the package holds a record line naming a file with those bytes, and a failed rollback changes nothing |
| `CatalogUndo.PackageWithoutRecord` | kernel/catalog.c:452-457 | a package without such a line is never undone |
| `CatalogUndo.RollbackRepeats` | kernel/catalog.c:478 | the rollback point survives and a second rollback changes nothing |
| `CatalogUndo.OthersForgotten` | kernel/catalog.c:242-258 | the active file keeps one package: after every successful install of a catalogued package any other stops being active |
| `CatalogMachine.SplitFieldInto` | kernel/catalog.c:138-159 | the scanner gives the k-th field, cut to the buffer, or leaves the buffer alone |
| `CatalogMachine.CopyField` | kernel/catalog.c:155-158 | copies up to the next separator or the end of the buffer |
| `CatalogMachine.ScanVersion` | kernel/catalog.c:92-121 | equals the specified parse |
| `CatalogMachine.CompareVersions` | kernel/catalog.c:123-136 | equals the order on versions, with its rule for unparsable ones |
| `CatalogMachine.FindLine` | kernel/catalog.c:171-187 | the first matching line |
| `CatalogMachine.ReadTextFile` | kernel/catalog.c:58-70 | the content, an error for a missing or empty file |
| `CatalogMachine.CopyFileTo` | kernel/catalog.c:72-90 | equals the specified copy |
| `CatalogMachine.WriteRecord` | kernel/catalog.c:242-276 | writes the record, which always fits its line buffer |
| `CatalogMachine.LookUpActive` | kernel/catalog.c:191-240 | equals the specified lookup |
| `CatalogMachine.ReadRollbackPoint` | kernel/catalog.c:278-304 | equals the specified reading of the rollback point |
| `CatalogMachine.LookUpEntry` | kernel/catalog.c:161-189 | equals the specified search of the index |
| `CatalogMachine.KeepBackup` | kernel/catalog.c:395-417 | equals the specified backup |
| `CatalogMachine.ApplyPackage` | kernel/ota.c:263-286 | one put of the package's file |
| `CatalogMachine.InstallPackage` | kernel/catalog.c:351-431 | equals the specified install, error paths included |
| `CatalogMachine.RollbackPackage` | kernel/catalog.c:433-481 | equals the specified rollback, error paths included |
| `Checksum.FoldKeepsResidue` | kernel/netstack.c:143-147 | folding ends below 2^16, keeps the sum modulo 65535 and never makes a positive sum zero |
| `Checksum.CompletedSum` | kernel/netstack.c:143-147 | a sum completed by its checksum folds to all ones |
| `Checksum.AccumulatorFits` | kernel/netstack.c:149-177 | up to 65537 words, far beyond any frame, the sum stays below 2^32 |
| `Checksum.StoreAdds` | kernel/netstack.c:302-303 | storing a checksum in a zeroed field adds exactly that word to the sum |
| `Checksum.SelfVerifies` | kernel/netstack.c:143-177 | recomputing over data with its stored checksum gives 0, odd lengths included |
| `Checksum.VerifiesExactly` | kernel/netstack.c:143-147 | the checksum of a positive sum is 0 exactly when 65535 divides the sum |
| `Checksum.IpHeaderVerifies` | kernel/netstack.c:287-303 | every IPv4 header as built verifies |
| `Checksum.TcpSegmentVerifies` | kernel/netstack.c:655-667 | every TCP segment as built verifies with the pseudo-header of `Checksum.TcpCsumIsPseudoHeader` |
| `Checksum.WordSumTakes` | kernel/netstack.c:152-155 | the sum takes two bytes at a time as a big-endian number |
| `Checksum.OddIsPadded` | kernel/netstack.c:156-157 | an odd last byte counts as if a zero followed it |
| `Checksum.TcpCsumIsPseudoHeader` | kernel/netstack.c:161-177 | the checksum is that of the twelve bytes of the pseudo-header followed by the segment |
| `Checksum.ReceiverAccepts` | kernel/netstack.c:161-177 | a receiver that sums the pseudo-header and the segment as sent gets 0 |
| `Checksum.IpFields` | kernel/netstack.c:287-303 | every field of the IPv4 header is at its offset |
| `Checksum.TcpFields` | kernel/netstack.c:655-666 | every field of the TCP header is at its offset, with the data behind it |
| `Checksum.Rfc1071Example` | kernel/netstack.c:143-159 | the numerical example of section 3 of RFC 1071 |
| `Checksum.ZeroSegmentExample` | kernel/netstack.c:161-177 | the checksum of a zero segment between zero addresses |
| `Checksum.CsumFold` | kernel/netstack.c:143-147 | the folding loop equals the specified fold |
| `Checksum.SumWords` | kernel/netstack.c:149-159 | the accumulator loop gives the word sum modulo 2^32, odd last byte included |
| `Checksum.ComputeCsum16` | kernel/netstack.c:149-159 | equals the specified checksum |
| `Checksum.ComputeTcpCsum` | kernel/netstack.c:161-177 | the two loops compute the checksum that `Checksum.TcpCsumIsPseudoHeader` ties to the twelve bytes of the pseudo-header |
| `Checksum.FillIp` | kernel/netstack.c:287-306 | the header in the buffer is the specified one with its checksum, followed by the payload |
| `Checksum.BuildIp` | kernel/netstack.c:267-306 | the same, or an error without change exactly when the packet is too long or no link address is known |
| `Checksum.BuildTcp` | kernel/netstack.c:647-667 | the segment is the specified one with its checksum |

## Left out

- VirtIO drivers, UART, timers, SBI calls and trap entry code: device input and output. A sector read or write either succeeds or fails.
- TLB effects, hardware accessed and dirty bits and the memory model: page-table writes count as effective at once.
- The spinlock words and the halting path itself: locked regions are atomic steps. In `sched_notify_runnable` the zombie test before the lock belongs to the same step as the locked part.
- The bit layout of a page-table entry: an entry is a valid bit, a page number and four permissions.
- The x86 port, TLS, the HTTP and model clients, DHCP, DNS and the TCP state machine, sessions, the user-side service loop, quotas, policy, namespaces, tenants, fleet, mesh, remote access and the console: outside this core.
- Package signatures and manifests: their outcome is an input of `Catalog.Install`. The capability checks and the copy of the name from user memory come before the modelled part of install and rollback.
- `kernel/arch/riscv/trap_handler.c` decides when `vm_heap_fault` is called; the model lets a fault happen at any time.
- The demand-mapped page a heap fault hands out is not cleared by the kernel; its first content is whatever the frame held, and the theorems say so through `NextPage`.
- SchedMachine.Scheduler.CreateAgent: models the part after the arguments are checked and the stack is set up; a failed `agent_create` may leave a new stack and frame in a slot that stays free, and the model leaves that slot unchanged.
- The `data[meta.size]` terminator that the loading loops write behind a file of the maximal size, one byte past the buffer: `ramfs_put` refuses such a file anyway.
- CRC collisions: data with the stored CRC is accepted, whatever it is; of changes to a file, those of one byte are proved to change the CRC.
- CatalogMachine.ScanVersion: models numbers without bound, because the source's signed overflow has no defined result.
- CatalogMachine.CompareVersions: compares such unbounded numbers.
- CatalogMachine.ApplyPackage: takes the parsed package as an input and models the put alone.
- CatalogMachine.InstallPackage: takes the outcome of verifying and parsing the package as an input.
- CatalogUndo.InstallThenRollback: assumes an index line with an install field that is not empty, since a missing field leaves the install path to an uninitialised buffer; the rollback file as install path is `CatalogUndo.UndoneOverRollbackExactly`.
- PersistRuns.RoundTrip: states the result for a sync that returns 0, with no crash in between, and for a table that holds the two seeded files, which no modelled operation removes.
