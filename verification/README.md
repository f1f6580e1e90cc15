# TuwaiqOS kernel: verified model

A Dafny 4.11 model of the TuwaiqOS kernel's storage, memory, scheduling and loading
core, with proofs of what those parts promise. `dafny verify dfyconfig.toml` checks
the whole project. The project is a model: it is not linked with the kernel.

## What is modelled

**TuwaiqFS v3** (`Crc32`, `Text`, `TreeCodec*`, `BlockDevice`, `Checkpoint*`, `CrashSafety`,
`OversizedTrees`, `TuwaiqFs`). The metadata codec, the two-slot checkpoint protocol at the
level of single sector writes, and the driver object. A sync may stop after any sector, by
power loss or device error. Main results: crash safety over whole runs, and a codec round trip
with its exact condition.

**The file system above it** (`TreeOps`, `FsConcurrency`). Tree edits as updates of a map from
path to entry, and every interleaving of readers and of writers that can be preempted, or
killed, between any two sector writes.

**Paths** (`Vfs`, `Confinement`). Normalization as stack resolution, mount resolution, and
confinement of a process's mutations to its own data directory.

**FAT32 reader** (`Fat32`, `Fat32Directory`). Mount geometry, file chains and the directory
walk over arbitrary, possibly hostile disk contents.

**Memory** (`FrameAllocator`, `Ownership`, `PageTables`, `TableCleanup`, `UserMemory`,
`MmapProofs`, `Unmapping`, `UnmapRange`, `MunmapProofs`, `VmProofs`, `Admission`,
`FrameConservation`, `FrameLoss`, `VmCalls`). The frame allocator, page tables with their
ownership list, user copies, the batched anonymous-memory calls, and frame conservation over
all runs of all processes. The page-table mapper is foreign code and has a contract: a map from
page to frame and flags, and a map from table to frame. `map_to` may refuse at any of its four
steps (three tables and the leaf), a leaf removal or permission change may be refused, in a
rollback too, and leaves just removed can be put back.

**Scheduler** (`SchedulerModel`, `SchedulerSafety`, `SchedulerProgress`, `SchedulerLifecycle`,
`SchedulerFairness`, `Scheduler`). The task table with the loaded page-table root. A switch is
one step that loads the next root and then frees what the outgoing task leaves.

**ELF64 loader** (`ElfHeaders`, `ElfLoad`). Validation of the whole file first, then mapping,
zeroing, copying and permissions, with other tasks running in between.

## How it is modelled

- A byte is an integer below 256 and a string a byte sequence. Machine integers are
  mathematical integers with the source's overflow checks written out.
- `Result` has no error text. Each error path is kept; messages are not told apart.
- The disk is a map from sector number to 512 bytes; a missing sector is a read error.
- Physical memory is a map from frame number to 4096 bytes.
- A closure under the scheduler or paging lock is one atomic step. Other tasks may run any of
  their own steps between two of them; in `VmCalls` and `ElfLoad` these steps are an arbitrary
  script. Freeing a space after a kill or a failed spawn is a step of its own.
- Ticks, failures of foreign code and the choice of who runs are parameters.

## Findings

- The metadata reader refuses more than 1024 nodes and the writer does not: a sync of a larger
  tree reports success and is not what the next mount returns, and two of them leave the volume
  unmountable (`CrashSafety.DurableIff`, `CrashSafety.TwoOversizedSyncs`). A tree of 1025 nodes
  does both on every freshly formatted volume (`OversizedTrees.OversizedSyncLost`).
- A first format cut after its first sector leaves a volume that is neither unformatted nor
  mountable (`CrashSafety.FormatCut`).
- With no writer active, a mount can return the candidate of a failed writer. That need not be
  the last one to fail: it is an earlier one exactly when the last failure came before its first
  sector (`FsConcurrency.MissesLastIff`, on trees `FsConcurrency.MountMissesLastIff`, with a run in
  `FsConcurrency.MountMissesLastWriter`).
- A writer killed while it holds the guard never drops it. Every later writer is told that the
  filesystem is busy, and nothing else has that effect (`FsConcurrency.StuckIff`,
  `FsConcurrency.WritersCanStartIff`). Killed between sync and publication, it leaves a tree on disk
  that was never published.
- Mutation targets of two processes can coincide exactly when one data root lies at or below the
  other (`Confinement.OverlapIff`), which needs a slash in a name (`Confinement.MutationsDisjoint`).
  The kernel's own launches pass base names and slash-free literals: a demand on future callers.
- If the mapper refuses to undo a failed `mmap`, the caller exits with part of the request still
  mapped, and freeing its space returns those frames (`VmCalls.VmProcess.Mmap`,
  `VmCalls.ExitReturnsAll`).
- Foreground requests are answered once each, and a ready task waits at most one round longer per
  request (`SchedulerFairness.PickedDespiteRequests`). With a request before every decision two tasks
  alternate and a third that is ready never runs (`SchedulerFairness.HeartbeatStarves`).
- Killing a process between the two critical sections in which `munmap` disowns and releases a
  chunk loses those frames, and nothing else does (`FrameConservation.NothingLostIff`).
- A sleeping task keeps the processor exactly when no other task is ready. That needs idle to have
  been killed, or to have slept or exited (`SchedulerLifecycle.SleepCutShort`,
  `SchedulerLifecycle.IdleRun`). The shell can kill idle and heartbeat, and its next sleep then ends
  at once (`SchedulerLifecycle.ShellSleepCutShort`).
- A terminated task comes back exactly when it sleeps while still current
  (`SchedulerLifecycle.StaysDeadIff`). Only the shell calls `kill`, and `kill` refuses the shell's
  id, so no present caller does this.

## Model

| member | source | states |
|---|---|---|
| Crc32.Compute | kernel/src/tuwaiqfs.rs:324-334 | The bitwise loop computes the checksum defined by absorbing bytes into a 32-bit register bit by bit |
| Crc32.TableDriven | kernel/src/tuwaiqfs.rs:324-334 | The bitwise form equals the table-driven update loop of section 8 of RFC 1952, from every register value and for every input |
| Crc32.AbsorbIsShift | kernel/src/tuwaiqfs.rs:324-334 | Absorbing a message is shifting the register combined with the message read as one number: the polynomial-division view |
| Crc32.AbsorbInjective | kernel/src/tuwaiqfs.rs:324-334 | Distinct registers stay distinct under any further input, so a difference is never absorbed again |
| Crc32.BurstDetected | kernel/src/tuwaiqfs.rs:324-334 | Replacing at most four consecutive bytes by different ones, anywhere in any message, always changes the checksum |
| TreeCodec.FlattenTree | kernel/src/tuwaiqfs.rs:349-365 | The recursive writer appends exactly the records of the subtree in pre-order, or fails when a path or file is too long |
| TreeCodec.ReadRecord | kernel/src/tuwaiqfs.rs:403-456 | Reading one record at an offset consumes what it decodes and rejects truncated, oversized or badly named records |
| TreeCodec.DeserializeTree | kernel/src/tuwaiqfs.rs:403-456 | The parsing loop builds the tree that inserting the decoded records one after another gives, with the node limit |
| TreeCodecProofs.RoundTripIff | kernel/src/tuwaiqfs.rs:342-524 | A legal tree of which the serialization is read back is returned identical, child order included, if and only if it has at most 1024 nodes; the writer itself has no such limit |
| TreeCodecProofs.SerializeLegal | kernel/src/tuwaiqfs.rs:342-401 | The serializer accepts every legal tree and writes its records in pre-order |
| TreeCodecProofs.LegalPathAccepted | kernel/src/tuwaiqfs.rs:508-524 | A path joined from legal components passes the reader's path check |
| TreeCodecProofs.AcceptedPathLegal | kernel/src/tuwaiqfs.rs:508-524 | A path that passes the reader's path check splits into legal components that join back to it |
| TreeCodecProofs.Rebuild | kernel/src/tuwaiqfs.rs:458-497 | Inserting the records of a tree in pre-order into the part built so far rebuilds exactly that tree |
| TreeCodecAccepted.DecodedIsEncoded | kernel/src/tuwaiqfs.rs:403-456 | Whatever one record decodes to encodes back to the very bytes consumed |
| TreeCodecAccepted.AcceptedReserializes | kernel/src/tuwaiqfs.rs:342-524 | Every byte string the parser accepts yields a legal tree, and serializing it gives a string of the same length that holds the same records |
| TreeCodecAccepted.InsertLegal | kernel/src/tuwaiqfs.rs:458-497 | Inserting an accepted record into a legal tree keeps names unique and paths within the limits |
| CheckpointProofs.HeaderFields | kernel/src/tuwaiqfs.rs:291-306 | Each header field is read back as written, and only a committed header carries the commit mark |
| CheckpointProofs.OtherSlotUntouched | kernel/src/tuwaiqfs.rs:266-289 | Any prefix of the sector writes of one checkpoint leaves the superblock and the other slot as they load |
| CheckpointProofs.CutSlotIsEmpty | kernel/src/tuwaiqfs.rs:238-289 | A checkpoint cut after at least one and before its last sector write loads as no checkpoint |
| CheckpointProofs.CompleteTree | kernel/src/tuwaiqfs.rs:238-289 | A completely written checkpoint of a legal tree loads as that tree and generation, exactly when the tree is within the node limit |
| CrashSafety.MountGood | kernel/src/tuwaiqfs.rs:81-130 | A mount returns the visible tree, from the slot and generation that hold it |
| CrashSafety.StepSafe | kernel/src/tuwaiqfs.rs:156-174 | One sync cut anywhere, of a tree of any size, or one reboot keeps the volume a refinement of a register with a committed tree and at most one pending candidate; only an acknowledged sync has to be within the node limit |
| CrashSafety.CrashSafe | kernel/src/tuwaiqfs.rs:81-174 | Over every run of syncs cut after any sector and of reboots in which no sync beyond the node limit is acknowledged, a mount succeeds and returns the committed tree or the one candidate whose commit header was written |
| CrashSafety.CutThenMount | kernel/src/tuwaiqfs.rs:156-174 | Which tree the next mount returns, for each number of sectors written and for trees within and beyond the node limit |
| CrashSafety.AcknowledgedSurvives | kernel/src/tuwaiqfs.rs:156-174 | A sync that reported success survives any number of reboots and of later syncs cut before their commit |
| CrashSafety.CommittedSyncable | kernel/src/tuwaiqfs.rs:156-174 | The committed tree is legal and within the node limit, so it can be synced again, short of the last generation number |
| CrashSafety.MountedSlotSpared | kernel/src/tuwaiqfs.rs:156-174 | From a mount on, up to and including the first sync that succeeds, no sync writes a sector of the slot that was mounted |
| CrashSafety.DurableIff | kernel/src/tuwaiqfs.rs:156-174 | A successful sync is what the next mount returns if and only if the tree has at most 1024 nodes; otherwise the previous tree comes back |
| CrashSafety.TwoOversizedSyncs | kernel/src/tuwaiqfs.rs:156-174 | A second sync beyond the node limit is accepted like the first, and the volume can then not be mounted |
| OversizedTrees.WideTreeRefused | kernel/src/tuwaiqfs.rs:403-456 | A concrete legal tree of 1025 nodes, which the reader refuses |
| OversizedTrees.WideTreeAccepted | kernel/src/tuwaiqfs.rs:156-174 | Its payload fits a slot, so on any volume short of the last generation number the writer accepts it |
| OversizedTrees.OversizedSyncLost | kernel/src/tuwaiqfs.rs:156-174 | On every freshly formatted volume: one sync of it succeeds and the mount returns the empty tree; a second succeeds and the volume is unmountable |
| CrashSafety.BurstDamageRejected | kernel/src/tuwaiqfs.rs:238-264 | A committed slot with up to four consecutive damaged payload bytes is not loaded, and the mount falls back to the other slot |
| CrashSafety.FormatCut | kernel/src/tuwaiqfs.rs:137-154 | What a mount finds after each prefix of a first format: only the complete one is mountable |
| CrashSafety.FormatGood | kernel/src/tuwaiqfs.rs:137-154 | A completed format is a state runs can start from |
| TuwaiqFs.Driver.WriteCheckpoint | kernel/src/tuwaiqfs.rs:266-289 | The device holds a prefix of the checkpoint's sector writes, all of them on success |
| TuwaiqFs.Driver.SyncTree | kernel/src/tuwaiqfs.rs:156-174 | The in-place sync takes exactly the steps of the crash model and switches slot and generation only on success |
| TuwaiqFs.Driver.LoadSlot | kernel/src/tuwaiqfs.rs:238-264 | Loading a slot in place agrees with the checkpoint decision, including device errors |
| TuwaiqFs.Driver.LoadLatestCheckpoint | kernel/src/tuwaiqfs.rs:207-236 | The newer loadable slot wins, a failing slot is passed over, and driver state follows the choice |
| TuwaiqFs.Driver.FormatRegion | kernel/src/tuwaiqfs.rs:137-144 | Formatting writes a prefix of the format's sectors, all of them on success |
| TuwaiqFs.Driver.MountVolume | kernel/src/tuwaiqfs.rs:81-130 | From any reachable state the mount returns the visible tree and leaves nothing pending |
| TreeOps.FileSystem.EntryAt | kernel/src/fs.rs:185-191 | Walking the path in the object finds what the path lookup denotes |
| TreeOps.FileSystem.Mutate | kernel/src/fs.rs:256-319 | Walking to the parent and editing its child list succeeds exactly when the parent is a directory and the entry of the needed kind; it then changes the path map at the named path only, and on failure nothing |
| TreeOps.EditIsUpdate | kernel/src/fs.rs:256-319 | An edit changes the map from path to entry at the named path and nowhere else |
| TreeOps.EditUpdates | kernel/src/fs.rs:256-319 | An edit changes both views at once: the path map at the named path, and the child list of its parent |
| TreeOps.EditListing | kernel/src/fs.rs:256-319 | An edit changes the child list of the parent as stated and no other child list |
| TreeOps.EditAllowedIff | kernel/src/fs.rs:200-319 | An edit succeeds if and only if the parent is a directory and the named entry is of the kind the operation needs |
| TreeOps.EditLegal | kernel/src/fs.rs:256-319 | An edit at a legal path keeps the tree legal: unique sibling names, lengths within the format |
| FsConcurrency.OnlyOwner | kernel/src/fs.rs:39-56 | While one thread is inside the writer guard no other is |
| FsConcurrency.StepKeepsInv | kernel/src/fs.rs:113-156 | Every atomic step of every thread, including each sector write and a kill at any point, keeps the invariant |
| FsConcurrency.EveryInterleaving | kernel/src/fs.rs:113-156 | Under every interleaving and every kill the published trees form one chain of operations without a lost update, every reader holds one published tree, and a mount at any moment returns the tree that follows from who holds the guard and how far they are; with no writer active, the candidate of the pending failure, else the published tree |
| FsConcurrency.PendingIndexIff | kernel/src/fs.rs:127-156 | A failed writer is the pending one if and only if it wrote every sector of a tree within the node limit and every later failure since the last success wrote none |
| FsConcurrency.MissesLastIff | kernel/src/fs.rs:127-156 | The mounted tree belongs to an earlier failure than the last one if and only if one is pending and the last failure came before its first sector |
| FsConcurrency.MountMissesLastIff | kernel/src/fs.rs:127-156 | With no writer active, the mounted tree is neither the published one nor the last failed writer's if and only if an earlier failure left such a tree complete and nobody has written a sector since |
| FsConcurrency.WriterFails | kernel/src/fs.rs:127-156 | A writer can fail after any number of sector writes, and then only the disk and the report differ |
| FsConcurrency.MountMissesLastWriter | kernel/src/fs.rs:127-156 | A concrete run of two writers on every freshly formatted volume after which a mount returns neither the published tree nor that of the last failed writer |
| FsConcurrency.StuckIff | kernel/src/fs.rs:34-56 | After a run from boot the writer guard is taken with nobody to drop it if and only if a thread holding it was killed in the run |
| FsConcurrency.StuckForever | kernel/src/fs.rs:34-56 | From then on every run leaves it so, and disk, published tree and history stay as they are |
| FsConcurrency.WritersCanStartIff | kernel/src/fs.rs:34-56 | Some run leads to a state in which a writer gets the guard if and only if no holder was killed |
| FsConcurrency.KilledWriterBlocks | kernel/src/fs.rs:34-56 | A run of two events from boot that blocks all writers: a writer takes the guard and is killed |
| FsConcurrency.OutcomeLegal | kernel/src/fs.rs:127-156 | An operation through a normalized path turns a legal tree into a legal candidate |
| Vfs.Normalize | kernel/src/vfs.rs:186-244 | The buffer-editing loop computes the component-by-component result, with its errors |
| Vfs.NormalizeResolves | kernel/src/vfs.rs:186-254 | For a normal working directory, normalization is resolution on a component stack clamped at the root, and it succeeds exactly when bytes, components and every intermediate length are legal |
| Vfs.BufferIsStack | kernel/src/vfs.rs:186-254 | Pushing to and truncating the string buffer is pushing to and popping a stack |
| Vfs.NormalFixed | kernel/src/vfs.rs:186-244 | A normal path normalizes to itself |
| Vfs.NormalizeIdempotent | kernel/src/vfs.rs:186-244 | Normalizing a result again changes nothing |
| Confinement.MutationConfined | kernel/src/syscall.rs:582-602 | Every target a process may mutate is its data root or lies strictly below it |
| Confinement.MutationsDisjoint | kernel/src/syscall.rs:582-602 | Processes with different slash-free names never share a mutation target |
| Confinement.OverlapIff | kernel/src/syscall.rs:582-602 | For two names with accepted data roots, some pair of calls returns the same target if and only if one data root lies at or below the other |
| Confinement.SlashNamesOverlap | kernel/src/syscall.rs:582-602 | The names a and a/b are accepted and share a target; callers pass a program's base name or a name built from slash-free literals, so no present caller supplies such a name |
| Confinement.BelowIsPrefix | kernel/src/syscall.rs:582-602 | The textual test for lying below a directory is the strict prefix relation on component stacks |
| Confinement.MatchIsPrefix | kernel/src/vfs.rs:116-122 | The textual mount test is the prefix relation on component stacks |
| Confinement.LongerIsDeeper | kernel/src/vfs.rs:92-114 | Among mounts that match a path, a longer path text means a deeper mount |
| Confinement.MountTable.Register | kernel/src/vfs.rs:69-90 | Registration appends exactly when there is room and the path is normal |
| Confinement.MountTable.Resolve | kernel/src/vfs.rs:92-114 | Resolution finds the deepest mount above the path and the rest of the path, and fails exactly when there is none |
| Confinement.NormalizedIsLegal | kernel/src/vfs.rs:186-254 | A normalized path other than the root satisfies the metadata format's path rules |
| Confinement.MutationKeepsLegal | kernel/src/vfs.rs:358-388 | A mutation through a normalized path keeps the tree storable in the metadata format |
| Fat32.MountVolume | kernel/src/fat32.rs:60-156 | The scan takes the first FAT32 partition, and any accepted geometry keeps the tables and all clusters inside the partition and below 2^32 sectors |
| Fat32.GeometrySound | kernel/src/fat32.rs:60-156 | The geometry checks suffice for soundness, for every boot sector |
| Fat32.ClusterInData | kernel/src/fat32.rs:346-363 | Every sector of every valid cluster lies in the data area |
| Fat32.EntryInFat | kernel/src/fat32.rs:317-336 | The table entry of every valid cluster lies in the first table |
| Fat32.ReadFile | kernel/src/fat32.rs:203-247 | Reading follows the chain through at most 512 clusters and touches only sectors of the volume, whatever the disk holds |
| Fat32.FileIsChain | kernel/src/fat32.rs:203-247 | A read succeeds if and only if every byte of the file lies in a readable sector of the cluster chain, and then returns exactly those bytes |
| Fat32Directory.ReadDirectory | kernel/src/fat32.rs:275-315 | The directory walk ends on any disk contents, touches only the volume's sectors, and returns the entries before the end mark in order |
| Fat32Directory.WalkIsChain | kernel/src/fat32.rs:275-315 | The entries of a directory that is read are those of the concatenated bytes of its cluster chain before the end mark, in order |
| Fat32Directory.LoopIsReal | kernel/src/fat32.rs:275-315 | A reported cluster loop is one: the chain revisits a cluster, so no acyclic chain is refused |
| FrameAllocator.BootInfoFrameAllocator.UsableFrameAt | kernel/src/paging.rs:128-144 | The region-by-region search finds the i-th element of the flattened frame list, and nothing past its end |
| FrameAllocator.BootInfoFrameAllocator.UsableFrameCount | kernel/src/paging.rs:146-153 | The count is the length of the flattened frame list |
| FrameAllocator.BootInfoFrameAllocator.FramesAvailable | kernel/src/paging.rs:189-193 | The figure is the number of recycled plus never-issued frames |
| FrameAllocator.BootInfoFrameAllocator.AllocateFrame | kernel/src/paging.rs:203-215 | Allocation takes the most recently returned frame, else the next fresh one, and counts successes |
| FrameAllocator.BootInfoFrameAllocator.DeallocateFrame | kernel/src/paging.rs:222-224 | Returning a frame puts it on top of the pool |
| FrameAllocator.AvailableIsExact | kernel/src/paging.rs:189-215 | Of any number of allocation attempts exactly as many succeed as were reported available |
| FrameAllocator.FlatNoDup | kernel/src/paging.rs:128-144 | For disjoint regions no frame is listed twice, so the cursor never repeats one |
| PageTables.MapPageGrows | kernel/src/paging.rs:568-629 | Mapping adds exactly the requested page on a frame not owned before, or no page; new tables lie above it, and every frame taken is accounted for, at whichever of its four steps the mapper refuses or the pool runs out |
| TableCleanup.CleanUpShrinks | kernel/src/paging.rs:637-680 | Cleanup leaves no empty table in the range, removes only tables nothing hangs below, and moves exactly their frames from the ownership list to the pool |
| MmapProofs.RollbackExact | kernel/src/task.rs:1326-1386 | Removing the pages of an interrupted request and cleaning up gives back the identical address space: page map, tables and ownership list in order |
| Admission.MapEnough | kernel/src/task.rs:1417-1442 | With frames for the remaining pages and missing tables in the pool, a page maps and enough remain for the rest |
| Admission.WorstCaseCovers | kernel/src/task.rs:1428-1432 | The worst-case estimate covers the pages and every table that can be missing |
| UserMemory.ValidateUserRange | kernel/src/paging.rs:739-793 | The page-stepping check succeeds if and only if every byte of the range is in the user region and mapped with the needed permissions |
| UserMemory.WriteBytes | kernel/src/paging.rs:844-904 | A write succeeds exactly when the range validates, then changes exactly the addressed bytes; on failure nothing changes |
| UserMemory.ReadBytes | kernel/src/paging.rs:929-957 | A read succeeds exactly when the range validates and returns the bytes the page tables address |
| UserMemory.WriteThenRead | kernel/src/paging.rs:844-957 | What was written can be read and is what a read returns |
| UserMemory.OtherSpaceUntouched | kernel/src/paging.rs:844-904 | A write changes no byte of an address space that shares no frame with the writer |
| Unmapping.CollectUnmapRecords | kernel/src/paging.rs:986-1018 | Records are captured if and only if the whole aligned range validates, one per page in order, and nothing changes |
| Unmapping.UnmapRecordFrames | kernel/src/paging.rs:1021-1026 | The sorted frame list exists if and only if no two records share a frame |
| Unmapping.UnmapRecordsAtomic | kernel/src/paging.rs:1069-1114 | All leaves of the batch are removed, or every page is on its frame as before; for records captured from the same tables the first holds exactly when the mapper refuses none, and otherwise the page map is identical |
| Unmapping.RestoreUnmapRecords | kernel/src/paging.rs:1118-1137 | Putting earlier batches back gives the original page map |
| Ownership.PlanUnmapOwnership | kernel/src/paging.rs:1049-1064 | The plan lists the owned indices of the frames in descending order; for an ownership list without duplicates it exists if and only if all frames are owned |
| Ownership.PlanCompleteIff | kernel/src/paging.rs:1049-1064 | Comparing lengths decides ownership: a list without duplicates yields as many removals as frames if and only if it holds them all |
| Ownership.PlanCarriedOut | kernel/src/paging.rs:1141-1149 | Cut into chunks anywhere, every check of the plan succeeds and the result is the ownership list without the planned frames, in order |
| Ownership.RemoveUnmappedOwnership | kernel/src/paging.rs:1141-1149 | Removal stops at the first index that does not hold its frame, and otherwise applies the whole chunk |
| UnmapRange.UnmapRangeAtomic | kernel/src/paging.rs:1175-1192 | The range is unmapped, disowned and returned as a whole, or nothing changes; which of the two is decided exactly by validation and the mapper |
| VmProofs.StepElsewhere | kernel/src/task.rs:427-436 | A critical section of another process changes nothing this process can see |
| VmProofs.RootSettled | kernel/src/paging.rs:474-509 | A new address space has no empty table and no unused frame, the state every request starts from |
| VmCalls.VmProcess.Yield | kernel/src/task.rs:1444-1448 | Whatever other tasks do between two batches, this process's tables, ownership and bytes stay |
| VmCalls.VmProcess.MapPages | kernel/src/task.rs:1479-1522 | The mapping loop stops at the first failing page; with the worst case available and no interference that is exactly the page the mapper refuses, if any |
| VmCalls.VmProcess.ZeroMapped | kernel/src/task.rs:1524-1548 | Every page of the request is zero afterwards, and no frame owned before the request changed |
| VmCalls.VmProcess.NarrowMapped | kernel/src/task.rs:1550-1583 | Every page of the request is read-only afterwards and still zero |
| VmCalls.VmProcess.Rollback | kernel/src/task.rs:1326-1386 | The address space is the one before the call, with the same frame count, if and only if the mapper refuses no removal; on a refusal exactly the pages from that batch on remain |
| VmCalls.VmProcess.Undo | kernel/src/task.rs:1359-1386 | The frame-count comparison never fails, so the fail-closed exit is taken exactly when the mapper refused a removal |
| VmCalls.VmProcess.MapRegion | kernel/src/task.rs:1479-1605 | Mapping, zeroing and protecting a free region grants it whole, gives the space back, or exits with what could not be undone; alone and with the frames available, each of the three exactly when the mapper's refusals call for it |
| VmCalls.ExitReturnsAll | kernel/src/paging.rs:1224-1240 | Freeing the space of an exited process returns every frame it owns to the pool and loses none |
| VmCalls.VmProcess.Mmap | kernel/src/task.rs:1413-1605 | Under every interleaving and wherever a step fails: refused leaves address space, arena and regions as they were; granted adds exactly the requested pages, fresh, zeroed and with the right permissions, at the old arena end, disjoint from every earlier region; the exit leaves only pages of the request. Without interference an admissible request is granted if and only if nothing is refused, and the caller exits if and only if a step and then the removal of a mapped page are refused |
| VmCalls.VmProcess.Munmap | kernel/src/task.rs:1618-1785 | Under every interleaving: true exactly when the range is whole arena pages, all user-mapped, and the mapper refuses none; then exactly those pages go, and the ownership list keeps its order without their frames and the emptied tables; false leaves everything as it was |
| FrameConservation.StepInv | kernel/src/paging.rs:516-555 | Every critical section of the memory system keeps each usable frame in exactly one place, once |
| FrameConservation.RunConserves | kernel/src/paging.rs:202-225 | In every state reachable by any number of processes, no frame has two owners and none is missing |
| FrameConservation.IssuedFrame | kernel/src/paging.rs:202-225 | A frame the cursor has passed is in the pool, one address space, the kernel, one transit list or lost, and in only one of them |
| FrameConservation.NothingLostIff | kernel/src/task.rs:1723-1757 | A run loses frames if and only if it frees the space of a process whose frames are between ownership removal and release |
| FrameLoss.FrameLost | kernel/src/task.rs:1723-1757 | A concrete run from boot in which a kill at that moment loses a frame |
| SchedulerSafety.ReapOk | kernel/src/task.rs:274-303 | Reaping never removes the current task, finds its new index, and frees no space that is loaded |
| SchedulerSafety.DecideOk | kernel/src/task.rs:307-387 | A decision marks only the incoming task as running and frees an outgoing space only after the next root is loaded |
| SchedulerSafety.KillOk | kernel/src/task.rs:1000-1029 | The locked part of a kill keeps the scheduler invariant, for the current task and for any other, whose space it detaches |
| SchedulerSafety.ReleaseDetachedOk | kernel/src/task.rs:1022-1027 | Whatever ran since the kill, the detached space is live, belongs to no task and is not the loaded one, and freeing it keeps the invariant |
| SchedulerSafety.SpawnUserOk | kernel/src/task.rs:1868-1940 | A finished process enters the table with its own space; when the table is full the space is left attached to no task for its creator to free, and the invariant holds in between |
| SchedulerSafety.ExecOk | kernel/src/task.rs:274-387 | Every operation keeps the scheduler invariant |
| SchedulerSafety.AnyMoment | kernel/src/task.rs:843-890 | At any moment of any run from boot: the loaded root is the current task's own or the kernel's, no space was freed while loaded, every runnable user task has a live space, and only the current task is running |
| SchedulerProgress.PickedInTime | kernel/src/task.rs:307-350 | Without foreground requests and new tasks, a task that stays ready is picked within n-1 decisions, whatever else happens |
| SchedulerProgress.QuietStep | kernel/src/task.rs:274-350 | No such operation lengthens a ready task's wait, reaping included, and each decision shortens it |
| SchedulerProgress.ForegroundNeverPins | kernel/src/task.rs:318-340 | Whatever the foreground request, the current task does not run again while another is ready, and an answerable request is answered |
| SchedulerFairness.AnyStep | kernel/src/task.rs:307-350 | With requests and new tasks: each decision lowers what a ready task has still to wait, a new task adds one and a request at most one round |
| SchedulerFairness.PickedDespiteRequests | kernel/src/task.rs:793-804 | Over any run a task that stays ready is passed over less than one round for each request and one more, a round counting every task there was or came |
| SchedulerFairness.HeartbeatStarves | kernel/src/task.rs:793-804 | For every n, a run from initialization with a request before each of its 2n decisions in which the heartbeat task is ready throughout and never picked |
| SchedulerProgress.NotPickedEarly | kernel/src/task.rs:809-829 | While idle is alive, a sleeper stays blocked until its wake tick and a suspended task until its activation, over any run |
| SchedulerLifecycle.RevivedIff | kernel/src/task.rs:274-387 | A terminated task is still terminated or gone after any operation, unless it is the current task and the operation is its own sleep, and then it is not |
| SchedulerLifecycle.StaysDeadIff | kernel/src/task.rs:899-909 | Over a whole run a terminated task stays terminated or gone if and only if it never sleeps as the current task |
| SchedulerLifecycle.KillThenSleepRevives | kernel/src/task.rs:899-1029 | A run from boot, heartbeat included, in which idle kills itself, sleeps, and is ready after the next tick; the kernel has no such caller, as only the shell, task 1, calls kill, and kill refuses that id |
| SchedulerLifecycle.IdleKept | kernel/src/task.rs:274-387 | Every operation keeps idle ready or running, except killing it or its own sleep or exit |
| SchedulerLifecycle.IdleRun | kernel/src/task.rs:274-387 | Over every run without such an operation idle stays ready or running |
| SchedulerLifecycle.SleepCutShort | kernel/src/task.rs:342-350 | A task that blocks itself keeps the processor if and only if no other task is ready; it is then running again, except alone in the table, where it runs on as blocked |
| SchedulerLifecycle.SleepNotCutShort | kernel/src/task.rs:342-350 | While idle is alive the sleep of any other task is not cut short |
| SchedulerLifecycle.ShellSleepCutShort | kernel/src/task.rs:342-350 | A run from boot: the shell kills idle and heartbeat, and its sleep of ten ticks ends at tick 0 |
| Scheduler.TaskScheduler.constructor | kernel/src/task.rs:582-604 | The scheduler starts with the shell running and idle ready, in a valid state |
| Scheduler.TaskScheduler.FreeAddressSpace | kernel/src/paging.rs:1224-1240 | Demands that the root is not loaded, and removes the space |
| Scheduler.TaskScheduler.ReapTerminated | kernel/src/task.rs:274-303 | The in-place loops remove exactly the tasks that are due and keep the current one |
| Scheduler.TaskScheduler.PickNext | kernel/src/task.rs:318-340 | The searches compute the choice: an answered foreground request, else the first ready task in cyclic order |
| Scheduler.TaskScheduler.ScheduleNext | kernel/src/task.rs:307-387 | One decision in place, with the next root loaded before the outgoing space is freed |
| Scheduler.TaskScheduler.OnTimerTick | kernel/src/task.rs:809-829 | A tick wakes exactly the sleepers that are due and decides at the end of a time slice |
| Scheduler.TaskScheduler.SleepTicks | kernel/src/task.rs:899-909 | The current task blocks until its tick and a decision follows |
| Scheduler.TaskScheduler.ExitCurrent | kernel/src/task.rs:923-941 | The current task terminates and a decision follows |
| Scheduler.TaskScheduler.KillTask | kernel/src/task.rs:1000-1021 | Refused for the shell and unknown ids; a task other than the current one is detached from its space, which is handed out to be freed after the lock is released |
| Scheduler.TaskScheduler.FreeDetached | kernel/src/task.rs:1022-1029 | After any operations in between, frees the detached space, which is not the loaded one |
| Scheduler.TaskScheduler.ActivateTask | kernel/src/task.rs:1942-1953 | Succeeds if and only if a task of this id is suspended, which then becomes ready |
| Scheduler.TaskScheduler.AddProcess | kernel/src/task.rs:1915-1923 | Succeeds exactly below 64 tasks; otherwise the unstarted space stays with the caller |
| Scheduler.TaskScheduler.ReclaimUnstarted | kernel/src/task.rs:1925-1939 | After any operations in between, frees the unstarted space, which is not the loaded one |
| ElfHeaders.ParseImage | kernel/src/elf.rs:151-244 | The first pass decides from the bytes alone which segments to load, without reading outside the file or mapping anything |
| ElfHeaders.ImageSound | kernel/src/elf.rs:208-240 | Every accepted segment lies in the file, its addresses in the user region, and the entry point is a user address |
| ElfHeaders.SegmentsAccepted | kernel/src/elf.rs:212-240 | The table is accepted if and only if every entry lies in the file and is not one the loader refuses |
| ElfLoad.LoadSegment | kernel/src/elf.rs:247-290 | A loaded segment adds exactly its page span with its permissions; each byte is the file's byte or zero, margins included; nothing owned before changes, whatever other tasks do in between; it loads whenever its span is free, the pool covers it, nobody interferes and the mapper refuses none of its pages |
| ElfLoad.LoadImage | kernel/src/elf.rs:151-295 | Rejection by the first pass changes nothing; on success the mapped pages are the disjoint spans of all segments with their bytes and permissions, and no empty table or unused frame is left, under every interleaving and whichever mappings or permission changes the mapper refuses; alone and unrefused it succeeds whenever the spans are non-empty, disjoint and covered by the pool |

## Left out

- Loading and migrating version 2 volumes: a one-way upgrade next to the modelled protocol.
- TuwaiqFs.Driver.MountVolume: a version 2 superblock is an error here, because the migration is not modelled.
- Port-level disk access and its timeouts: a device is a map that may fail per sector.
- Heap-allocation failures (`try_reserve` and the like): no property depends on them.
- Insertion into the metadata tree and tree edits are modelled on values: no aliasing of shared children.
- FsConcurrency.EveryInterleaving: a run in which a sync of more than 1024 nodes succeeds is not covered, because the disk then no longer holds what was acknowledged; `CrashSafety.DurableIff` and `CrashSafety.TwoOversizedSyncs` state what it holds.
- CrashSafety.CrashSafe: the same runs are excluded, for the same reason.
- `locate`, `list` and `metadata` of the FAT32 reader: lookups over the modelled directory walk.
- Long file names and writing on FAT32: the source has neither.
- The boot heap mapping, the kernel half of the page tables and its copy into new spaces: set up before the modelled state begins.
- Translation caches and their flushes: a switch takes effect at once.
- The order in which tables of different second-level tables return to the pool in one cleanup: they return level by level; the kernel's requests stay below one such table.
- The mapping-failure hook, telemetry, shell acceptance commands and self tests: test support.
- VmCalls.VmProcess.Mmap: under interference it does not promise success, because another process can take the frames after the admission check.
- Unmapping.UnmapRecordsAtomic: for records that do not match the tables it promises the frames and not the flags, because the source maps a mismatched frame back with the record's flags.
- Wrap-around of 32-bit task ids and 64-bit ticks: ids and ticks grow without bound.
- Scheduler.TaskScheduler.FreeAddressSpace: removes the space's root only, because the return of its frames is the subject of `FrameConservation` and `VmCalls.ExitReturnsAll`.
- Context-switch assembly, kernel stacks, saved registers and the task-state segment: a switch is one step.
- The user stack a process gets beside its image: the same mapping and zeroing as a segment.
- Open files, input queues, consoles, the window system, the shell, networking and the image builder: the kernel gives them no invariant that spans the modelled parts; they call the modelled operations.
