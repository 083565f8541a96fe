# Verified models of XAIOS kernel and bridge logic

This project models the most stateful parts of the XAIOS kernel and of its SSH bridge in Dafny and
proves what they keep, for all inputs, all device failures and all runs:

- the **mutable filesystem** (`MfsPaths`, `MfsVolume`, `MfsSpec`, `MfsSnapshot`, `MfsRoom`, `MfsRuns`, `MfsTree`,
  `MfsFiles`, `MfsLimits`, `MutableFs`): block ownership, copy-on-write, commit and rollback, the path tree, the checker;
- the **AI-cell resource protocol** (`CellTables`, `CellRuns`, `AiCells`): exclusive ownership, reference
  counts and unwinding across cells, core leases, models, arenas and the runtime;
- the **archive round trip** of the SSH bridge (`BridgePaths`, `BridgeFs`, `ArchiveText`, `BridgeArchive`);
- the **BPE tokenizer** (`BpeSpec`, `Bpe`), **speculative decoding** (`Speculative`), the **Internet
  checksum** (`Checksum`), the **line diff** (`LineDiff`), the **kernel heap** (`Kheap`), the **ARP cache**
  (`ArpSpec`, `Arp`), the **rate limiter** (`RateLimit`), **SHA-256 streaming** (`Sha256`) and the **sandbox
  VM** (`SandboxVm`, `SandboxPrograms`).

`Machine`, `Collections`, `Modular` and `Strings` hold shared vocabulary. `dafny verify dfyconfig.toml` checks everything.

## How the models are built

Code that works by updating things in place is a class or an array method with loops and invariants. Each
such method is proved against a function or relation on values, and the theorems about whole runs are about
those. Beside its relation, an operation has a statement that does not mention it: filesystem calls as
operations on a map from paths to entries, admission by the manifests of the cells, normalisation by what
each component does, programs by what they write. A device, page or queue call that the code cannot control succeeds or fails nondeterministically; a
failed sector write leaves anything in its sector. A device or runtime built with `reliable` has no such
faults, and the contracts then say exactly which filesystem calls and which admissions succeed. Every `kassert` on a path that is modelled is an `assert`,
so that it cannot fail is part of what is proved. Machine widths are written out where they matter: the
64-bit generation counter, refill product, memory sum, heap end address and bit count, the 32-bit rule
comparison, the 64-bit VM registers.

## Where the code and its promises differ

The code is modelled as it is. Where a promise does not hold for it, there is a counterexample or an exact
condition:

- The filesystem checker looks at live files only and reports every block of a committed snapshot as an
  error (`FsckReportsSnapshots`, `FsckValidIff`).
- Rollback drops new nodes by comparing generations, so a wrap of the counter leaves some in place
  (`WrapDefeatsRollback`; exact condition `RollbackExact`).
- A commit that fails halfway can leave a snapshot without parent directories (`FailedCommitBreaksSnapshot`;
  exact conditions `StoppedCommitClosedIff`, `StoppedCommitThenRollback`) and always leaves one file in it
  without bytes (`StoppedCommitKeeps`).
- Rename is safe for block ownership but for the tree and the snapshot only under the conditions
  of `RenameExact` (`RenameBeneath`, `RenameMovesSnapshot`, `RenameOntoSnapshot`).
- Five cells can be created and four can ever run (`FifthNeverHolds`); a tokenizer failure leaves a runtime
  entry bound for good (`TokenizerFailureSticks`).
- Moving a directory in the virtual filesystem does not move its children (`MoveKeepsIff`, `MoveOrphans`). Archives of the
  root never extract (`RootNeverExtracts`) and names with newlines make an archive unreadable (`ArchiveRoundTrip`).
- A negative size in an archive can send the parser round for ever (`NegativeSizeLoops`; exact conditions
  `AdvanceExact`, `EndlessIff`).
- The ARP cache evicts by time, so touches at equal times can defeat its order of use (`TieEvictsLatest`; exact
  conditions `EvictionExact`, `HarmlessForward`).
- Rule priorities are compared by subtraction (`CompareExact`, `CompareWraps`); the largest priority number
  never applies (`LargestNeverMerges`; exact condition `MergeAtExact`).
- The heap's free-list search can lose skipped blocks (`UnlinkExact`, `UnlinkLoses`).
- The memory cap is checked with a sum that wraps (`AcceptedWithinCap`, `WrappedCommit`), and so are the tokens of a
  refill added up (`RefillExact`, `RefillEmpties`).
- The SHA-256 padding counts itself, which FIPS 180-4 does not (`PaddingNeverStandard`). The self-test of
  kernel/runtime/sha256.c expects the standard digest of "abc".

## Model

| member | source | states |
|---|---|---|
| MfsPaths.ValidatePath | kernel/fs/mutable_fs.c:356-381 | The character loop accepts exactly the absolute, printable paths without empty components, without a trailing slash (the root aside), that fit the 96-byte buffer. |
| MfsPaths.ValidExact | kernel/fs/mutable_fs.c:356-381 | A path is valid if and only if it is the root, or one slash before each of its components, none of them empty and all of printable characters the filesystem allows, in at most 95 characters. |
| MfsPaths.ParentPathOf | kernel/fs/mutable_fs.c:392-408 | The scan for the last slash computes the parent that the tree properties use. |
| MfsPaths.ParentIsPrefix | kernel/fs/mutable_fs.c:392-408 | The parent of a valid path is valid and the path is beneath it as prefix comparison sees it, with one component left: the two ways of reading the tree out of strings agree. |
| MfsPaths.ParentShorter | kernel/fs/mutable_fs.c:392-408 | A parent is shorter than its child, so parents never form a cycle. |
| MfsVolume.ContentFrame | kernel/fs/mutable_fs.c:858-875 | A file's bytes depend only on the sectors of its own blocks. |
| MfsVolume.OwnersDisjoint | kernel/fs/mutable_fs.c:584-619 | On a consistent volume no block belongs to two nodes. |
| MfsVolume.OwnedOnce | kernel/fs/mutable_fs.c:584-619 | On a consistent volume a block has exactly one occurrence in all block lists if its bitmap entry is set, and none otherwise. |
| MfsSpec.AllocBalanced | kernel/fs/mutable_fs.c:584-609 | Marking the first free blocks adds exactly these to the used ones: allocation keeps the ownership equation with the new blocks in hand. |
| MfsSpec.FreeBalanced | kernel/fs/mutable_fs.c:611-619 | Clearing a node's blocks while its list is dropped keeps the ownership equation. |
| MfsSpec.MakeDirKeeps | kernel/fs/mutable_fs.c:800-832 | A mkdir keeps block ownership, puts one directory into one slot of the live tree and leaves the snapshot. |
| MfsSpec.WriteKeeps | kernel/fs/mutable_fs.c:877-943 | A write keeps block ownership, makes one slot read the new bytes and leaves all other slots and the snapshot. |
| MfsSpec.DeleteKeeps | kernel/fs/mutable_fs.c:988-1013 | A delete keeps block ownership, empties one live slot and leaves the snapshot, also of the deleted node. |
| MfsSpec.RenameKeeps | kernel/fs/mutable_fs.c:1015-1044 | A rename keeps block ownership and changes the path of one slot in both trees. |
| MfsSpec.FsckReportsSnapshots | kernel/fs/mutable_fs.c:1737-1768 | What the checker reports as errors on a consistent volume are exactly the blocks of the committed snapshot, which it does not look at. |
| MfsSpec.FsckValidIff | kernel/fs/mutable_fs.c:1737-1768 | So the checker declares a consistent volume valid exactly when no snapshot holds data. |
| MfsSnapshot.SnapNodeKeeps | kernel/fs/mutable_fs.c:1158-1198 | Commit's work on one node, from its block-by-block definition: ownership is kept, only this node's snapshot slot changes, to the live entry, or to the entry without bytes when the copy fails. |
| MfsSnapshot.RestoreNodeKeeps | kernel/fs/mutable_fs.c:1206-1241 | The same for rollback's work on one node and its live slot. |
| MfsSnapshot.CommitKeeps | kernel/fs/mutable_fs.c:1151-1204 | A commit through the whole table keeps ownership and the live tree and makes the snapshot equal to it. |
| MfsSnapshot.StoppedCommitKeeps | kernel/fs/mutable_fs.c:1151-1198 | A commit that stops does so at a live file k; the snapshot is then the live tree up to k, with the bytes of k missing, and the old snapshot behind it; ownership and the live tree are kept. |
| MfsSnapshot.RollbackKeeps | kernel/fs/mutable_fs.c:1243-1280 | The three loops together keep ownership and the snapshot, restore every node that has one and drop the new ones. |
| MfsSnapshot.PartialRollbackKeeps | kernel/fs/mutable_fs.c:1243-1273 | A rollback that fails on file k has dropped the new nodes, restored all directories and the files before k, leaves file k without bytes and the files behind it as they were. |
| MfsSnapshot.StepConsistent | kernel/fs/mutable_fs.c:800-1280 | Every call, with every status and every pattern of device failures, keeps the ownership equation between bitmap and block lists; for commit and rollback this follows from what they free and allocate node by node. |
| MfsRoom.FreeExact | kernel/fs/mutable_fs.c:584-619 | On a consistent volume the free blocks are all but those in the block lists, counted. |
| MfsRoom.DoneFits | kernel/fs/mutable_fs.c:1151-1204 | A commit that went through found in every stage room for twice the live blocks before it, and the live and old snapshot blocks behind. |
| MfsRoom.OutOfSpace | kernel/fs/mutable_fs.c:1185-1187 | A commit that stopped for want of space had a stage without that room. |
| MfsRoom.CompleteFits | kernel/fs/mutable_fs.c:1243-1280 | The same for a complete rollback, by the block counts of the volume before it. |
| MfsRoom.NoRoomToRestore | kernel/fs/mutable_fs.c:1228-1230 | A rollback that stopped for want of space had a stage without room. |
| MfsRuns.RunConsistent | kernel/fs/mutable_fs.c:800-1280 | Ownership holds in every state of every run of mkdirs, writes, deletes, renames, commits and rollbacks, failing anywhere. |
| MfsRuns.BitmapIsExact | kernel/fs/mutable_fs.c:584-619 | In every state of every run from a format, a bitmap entry is set exactly when its block occurs in the live and snapshot block lists, and then exactly once. |
| MfsRuns.RollbackExact | kernel/fs/mutable_fs.c:1206-1280 | A complete rollback makes the live tree the snapshot if and only if no stale node exists: one that is live, has no snapshot half and carries a generation below the committed one. |
| MfsRuns.CommitFresh | kernel/fs/mutable_fs.c:1151-1204 | A complete commit leaves no stale node and makes the snapshot equal to the live tree. |
| MfsRuns.StoppedCommitFresh | kernel/fs/mutable_fs.c:1151-1198 | A commit that stops anywhere creates no stale node. |
| MfsRuns.EditFresh | kernel/fs/mutable_fs.c:800-1280 | Short of a wrap of the generation counter no mkdir, write, delete or rollback makes a node stale. |
| MfsRuns.EditKeepsSnapshot | kernel/fs/mutable_fs.c:800-1280 | None of these calls, failed or not, changes the snapshot in paths, kinds or bytes. |
| MfsRuns.RollbackRecreatesCommit | kernel/fs/mutable_fs.c:1151-1280 | After a successful commit, any run of mkdirs, writes, deletes and rollbacks, each failing anywhere, that ends in a successful rollback recreates the committed tree in paths, kinds, sizes, hashes and bytes; a second rollback is one of these runs. |
| MfsRuns.RollbackAfterStoppedCommit | kernel/fs/mutable_fs.c:1151-1280 | After a commit that stopped at file k, any such run of edits that ends in a successful rollback recreates the tree of the commit up to k, the older snapshot behind it, and file k without its bytes. |
| MfsRuns.CrashSafe | kernel/fs/mutable_fs.c:838-943 | After any prefix of the sector writes of a write call, with the last one torn, every old live and snapshot file still reads back unchanged from the old nodes. |
| MfsRuns.CrashAfterMetadata | kernel/fs/mutable_fs.c:838-943 | From the first metadata sector of a write on, after any prefix of its writes with the last one torn, the new tables show exactly the new trees. |
| MfsTree.MakeDirTree | kernel/fs/mutable_fs.c:800-832 | As a map from paths to entries, the live tree gains exactly the new directory, which was not in it. |
| MfsTree.WriteTree | kernel/fs/mutable_fs.c:877-943 | As a map, exactly the written path changes, to the new bytes; the snapshot does not. |
| MfsTree.DeleteTree | kernel/fs/mutable_fs.c:988-1013 | As a map, exactly the deleted path leaves. |
| MfsTree.ReadAfterWrite | kernel/fs/mutable_fs.c:877-972 | The lookup that a read makes finds the written file, with the hash of the data and the data in its blocks. |
| MfsTree.NoLiveChildren | kernel/fs/mutable_fs.c:974-1013 | The prefix scan before a delete guarantees that no entry has the deleted directory as its computed parent. |
| MfsTree.CommitTreeOk | kernel/fs/mutable_fs.c:1151-1204 | A commit, also one that stops anywhere, keeps visible paths unique and the live tree closed; a successful one leaves a closed snapshot. |
| MfsTree.RollbackTreeOk | kernel/fs/mutable_fs.c:1206-1280 | A rollback, also one cut short at any file, leaves unique visible paths and a closed tree when the snapshot was closed and nothing was stale. |
| MfsTree.StoppedCommitClosedIff | kernel/fs/mutable_fs.c:1151-1198 | A commit that stopped at file k left a closed snapshot if and only if the live tree up to k and the old snapshot behind it are a closed tree together. |
| MfsTree.StoppedCommitThenRollback | kernel/fs/mutable_fs.c:1151-1280 | After such a commit and any run of edits, a successful rollback leaves a closed live tree under the same condition on the volume before the commit, and only then. |
| MfsTree.RunTree | kernel/fs/mutable_fs.c:790-1280 | In every run from a format without renames, with every call and every commit free to fail anywhere, visible paths are unique and every live entry has a directory at exactly its parent path, as long as rollbacks find a closed snapshot. |
| MfsTree.CarefulRunTree | kernel/fs/mutable_fs.c:790-1280 | The same for runs without a rollback between a failed commit and the next successful one; the snapshot is closed too wherever the last commit succeeded. |
| MfsTree.RunTrees | kernel/fs/mutable_fs.c:790-1280 | In every run from a format without renames and failed commits both trees are closed in every state. |
| MfsTree.RenameExact | kernel/fs/mutable_fs.c:1015-1044 | Rename keeps paths unique iff no snapshot-only node sits at the target, the tree closed iff it does not move a directory beneath itself, and the snapshot iff the node has none. |
| MfsFiles.FindsFiles | kernel/fs/mutable_fs.c:430-440 | The lookup of live nodes finds a path if and only if it is in the map of the live tree, and a directory if and only if it is one there. |
| MfsFiles.TargetSame | kernel/fs/mutable_fs.c:430-449 | The node a creating call uses: the live one when the path is in the map; otherwise there is one if and only if some node is vacant or has the path in the snapshot only. |
| MfsFiles.MakeDirFollows | kernel/fs/mutable_fs.c:800-832 | A mkdir is what it is on a map from paths to entries: refused without a parent directory or over a file, nothing over a directory, else the new directory if there is a node for it; on a device error all of it or nothing. |
| MfsFiles.WriteFollows | kernel/fs/mutable_fs.c:877-943 | A write is what it is on the map: refused without a parent directory, over a directory, above 8192 bytes or without the blocks; a file is replaced, and a new one made if there is a node for it; on a device error all of it or nothing. |
| MfsFiles.DeleteFollows | kernel/fs/mutable_fs.c:974-1013 | A delete is what it is on the map: exactly an entry that has nothing beneath it leaves; on a device error all of it or nothing. |
| MfsFiles.RenameFollows | kernel/fs/mutable_fs.c:1015-1044 | A rename is what it is on the map: exactly an entry that has nothing beneath it moves to a free path in a directory; on a device error all of it or nothing. |
| MfsFiles.ReadsFiles | kernel/fs/mutable_fs.c:945-972 | The node that a read finds is the entry of the map. |
| MfsLimits.WrapDefeatsRollback | kernel/fs/mutable_fs.c:1243-1258 | With the generation counter at its last value, a commit, two mkdirs and a rollback that all succeed leave a new directory in place. |
| MfsLimits.FailedCommitBreaksSnapshot | kernel/fs/mutable_fs.c:1151-1204 | A run of nine calls from a format: with both trees closed, a commit that fails on one file leaves a snapshot that holds a child without its directory, and every successful rollback makes that the live tree. |
| MfsLimits.RenameBeneath | kernel/fs/mutable_fs.c:1015-1044 | A directory renamed beneath itself is left without a parent. |
| MfsLimits.RenameMovesSnapshot | kernel/fs/mutable_fs.c:1015-1044 | Renaming a committed directory changes the snapshot. |
| MfsLimits.RenameOntoSnapshot | kernel/fs/mutable_fs.c:1015-1044 | Renaming onto a path that only the snapshot has makes two visible nodes of one path. |
| MutableFs.BlockDevice.Write | kernel/fs/mutable_fs.c:206-211 | One sector changes and is logged; when the call fails, to anything. |
| MutableFs.MutableFs.AllocateBlocks | kernel/fs/mutable_fs.c:584-609 | Succeeds exactly when enough blocks are free, takes the first ones in order and marks them; a failure restores the bitmap. |
| MutableFs.MutableFs.FreeBlocks | kernel/fs/mutable_fs.c:611-619 | Clears exactly the given blocks. |
| MutableFs.MutableFs.WriteBlocks | kernel/fs/mutable_fs.c:838-856 | On success the blocks hold the data, zero-padded; only their sectors change. |
| MutableFs.MutableFs.ReadBlocks | kernel/fs/mutable_fs.c:858-875 | A successful read returns the content of the blocks. |
| MutableFs.MutableFs.CreateDir | kernel/fs/mutable_fs.c:800-832 | Exactly the relation of a mkdir, error by error, and the invariant. On the map of the live tree, with a parent directory and a reliable device: succeeds if and only if the path is a directory, or absent with a vacant or snapshot-only node for it; the map then gains exactly this directory. |
| MutableFs.MutableFs.WriteFile | kernel/fs/mutable_fs.c:877-943 | Exactly the relation of a write, error by error; every sector written is metadata or was free before, no data sector is written after a metadata sector, and at the first metadata sector the new blocks hold the data. On the map of the live tree, with a parent directory, enough free blocks and a reliable device: succeeds if and only if the path is a file, or absent with a vacant or snapshot-only node for it; the map is then the old one with exactly these bytes at the path. |
| MutableFs.MutableFs.ReadFile | kernel/fs/mutable_fs.c:945-972 | A successful read returns the bytes of the live file at the path, checked against its hash; the state is unchanged. On the map of the live tree: not found if and only if the path is no file or larger than the buffer, and a file with all its bytes is read exactly. |
| MutableFs.MutableFs.DeleteNode | kernel/fs/mutable_fs.c:988-1013 | Exactly the relation of a delete, error by error. On the map of the live tree, with a reliable device: succeeds if and only if the path is a file, or a directory with nothing beneath it; the map then loses exactly this path. |
| MutableFs.MutableFs.RenameNode | kernel/fs/mutable_fs.c:1015-1044 | Exactly the relation of a rename, error by error. On the map of the live tree a success moves exactly one entry to a path that was free. |
| MutableFs.MutableFs.CommitSnapshot | kernel/fs/mutable_fs.c:1151-1204 | Nodes snapshotted one after the other up to the end or to the file it stopped at, with the cause; on a reliable device it succeeds if and only if every stage has room, and after a success the snapshot is the live tree. |
| MutableFs.MutableFs.RestoreSnapshotNode | kernel/fs/mutable_fs.c:1206-1241 | One node takes its snapshot half back into newly allocated blocks; when space or the device fails it has the header of its snapshot and no blocks. |
| MutableFs.MutableFs.RollbackSnapshot | kernel/fs/mutable_fs.c:1243-1280 | The three loops, complete or up to the file that could not be restored; on a reliable device it succeeds if and only if every stage has room; after a success the live tree is the snapshot if and only if no node was stale. |
| MutableFs.MutableFs.Fsck | kernel/fs/mutable_fs.c:1737-1768 | The nested loops count exactly the bitmap entries that disagree with the live block lists. |
| CellTables.Exclusive | kernel/runtime/ai_cell.c:183-226 | Two cells never hold the same entry of an owner table that agrees with what the cells hold. |
| CellTables.AgreeAcquire | kernel/runtime/ai_cell.c:183-226 | Taking free entries for a cell that held none keeps table and cells in agreement. |
| CellTables.AgreeRelease | kernel/runtime/ai_cell.c:200-226 | Giving back what a cell held keeps them in agreement. |
| CellTables.FailedKeeps | kernel/runtime/ai_cell.c:423-470 | A failed prepare, at whatever acquisition, keeps the invariant: all ownership and counts are as before. |
| CellTables.DoneKeeps | kernel/runtime/ai_cell.c:423-478 | A successful prepare keeps the invariant: nothing it took was held by any cell. |
| CellTables.StopKeeps | kernel/runtime/ai_cell.c:492-508 | A stop keeps the invariant. |
| CellTables.HoldersInRuntime | kernel/runtime/cpu_ai_runtime.c:501-635 | Only cells that the runtime has an entry for hold resources. |
| CellTables.ArenaIdsDisjoint | kernel/runtime/ai_cell.c:271-335 | The arena ids of two such cells never coincide. |
| CellTables.UsedCoresExact | kernel/runtime/core_lease.c:34-42 | The used mask holds a core exactly when an active lease does. |
| CellRuns.StepKeeps | kernel/runtime/ai_cell.c:406-508 | Every outcome of create, prepare, start, stop, register and unregister keeps the protocol invariant. |
| CellRuns.RunKeeps | kernel/runtime/ai_cell.c:406-508 | The invariant holds in every state of every run. |
| CellRuns.MutualExclusion | kernel/runtime/ai_cell.c:423-508 | Two ready or running cells share no core, NIC queue, workspace or arena. |
| CellRuns.NothingLeaked | kernel/runtime/ai_cell.c:423-508 | When no cell is ready or running, every queue, workspace, lease, core and arena is free and every model has no references: whatever was taken on any run came back. |
| CellRuns.StepAges | kernel/runtime/ai_cell.c:406-508 | A call changes at most one cell and its runtime entry, and then moves the cell forward in its life. |
| CellRuns.FinalForever | kernel/runtime/ai_cell.c:406-508 | A failed or stopped cell and its runtime entry never change again on any run. |
| CellRuns.TokenizerFailureSticks | kernel/runtime/cpu_ai_runtime.c:501-635 | A prepare that fails leaves the runtime entry bound, forever, if and only if it failed in the tokenizer. |
| CellRuns.AdmissionExact | kernel/runtime/ai_cell.c:423-478 | In any reachable state the tables admit a created cell if and only if the runtime has an entry for its number, its model is registered, its mask is not empty and without CPU 0, every core in it is online and not for housekeeping, and no ready or running cell has one of its cores, its queue or its workspace in its manifest: a lease slot, arenas and the runtime entry are then free as well. |
| CellRuns.LeaseExact | kernel/runtime/core_lease.c:44-100 | In any reachable state a mask can be leased if and only if it is not empty and without CPU 0, its cores are online and not for housekeeping, and no ready or running cell has one of them. |
| CellRuns.SlotIdle | kernel/runtime/core_lease.c:69-100 | At most four cells hold leases, so one of the 4096 slots is always idle. |
| CellRuns.HotExact | kernel/runtime/core_lease.c:34-42 | A core is hot if and only if a ready or running cell has it in its manifest; a core in the used mask is hot. |
| CellRuns.FifthNeverHolds | kernel/runtime/cpu_ai_runtime.c:501-635 | Five cells can be created and the runtime has four entries: on no run does the fifth become ready. |
| AiCells.AiRuntime.constructor | kernel/runtime/ai_cell.c:350-387 | The tables after boot satisfy the invariant. |
| AiCells.AiRuntime.Create | kernel/runtime/ai_cell.c:406-421 | Succeeds exactly on an empty cell with cores, KV bytes, source bytes, a workspace 1 or 2, a queue below 4 and a registered model; otherwise nothing changes. |
| AiCells.AiRuntime.Prepare | kernel/runtime/ai_cell.c:423-478 | The cell has everything in its manifest, or failed with every table owned as before; without faults it succeeds exactly for an id below 4 with a registered model, a mask of online cores without CPU 0 and without housekeeping ones, and cores, queue and workspace that no ready or running cell has; no assertion of the unwinding paths can fail. |
| AiCells.AiRuntime.Start | kernel/runtime/ai_cell.c:480-490 | Succeeds exactly on a ready cell and changes only its state. |
| AiCells.AiRuntime.Stop | kernel/runtime/ai_cell.c:492-508 | Succeeds exactly on a running cell, and then every release in it succeeds and gives back all it held. |
| AiCells.AiRuntime.AcquireCores | kernel/runtime/core_lease.c:69-100 | Granted exactly when the mask is valid, unleased, leasable and a lease slot is free; on failure partly marked CPUs are restored. |
| AiCells.AiRuntime.ReleaseCores | kernel/runtime/core_lease.c:102-121 | Frees the owner's lease and exactly its cores. |
| AiCells.AiRuntime.MarkMask | kernel/arch/aarch64/smp.c:175-225 | Marks all CPUs of the mask or, with one not leasable, none. |
| AiCells.AiRuntime.ValidateCoreMask | kernel/runtime/core_lease.c:44-59 | Accepts exactly non-empty masks without CPU 0 of online scheduling CPUs. |
| AiCells.AiRuntime.BindQueue | kernel/runtime/ai_cell.c:183-198 | A success takes a free queue in both tables; a failure changes neither. |
| AiCells.AiRuntime.ReleaseQueue | kernel/runtime/ai_cell.c:200-207 | Releases the queue in both tables if and only if the cell owns it. |
| AiCells.AiRuntime.BindWorkspace | kernel/runtime/ai_cell.c:209-218 | Succeeds exactly on a free workspace in range. |
| AiCells.AiRuntime.ReserveArenas | kernel/runtime/ai_cell.c:271-335 | All four arenas become live, or those already created are destroyed again. |
| AiCells.AiRuntime.DestroyCellArenas | kernel/runtime/ai_cell.c:228-269 | Destroys exactly the arenas reserved so far, in order. |
| AiCells.AiRuntime.AcquireModel | kernel/runtime/model_arena.c:101-113 | Succeeds exactly on a registered model, and then both reference counts grow by one. |
| AiCells.AiRuntime.ReleaseModel | kernel/runtime/model_arena.c:115-123 | Succeeds exactly with references left, and then both counts shrink by one. |
| AiCells.AiRuntime.Register | kernel/runtime/model_arena.c:54-84 | Registers a model whose arena could be created and mapped, otherwise no live arena changes; without faults it succeeds exactly for an unregistered id and a well-formed image. |
| AiCells.AiRuntime.Unregister | kernel/runtime/model_arena.c:86-99 | Succeeds exactly on a registered model that no ready or running cell uses. |
| AiCells.AiRuntime.ArenaCreate | kernel/mm/arena.c:102-155 | Never replaces a live arena; a failure leaves every live arena. |
| AiCells.AiRuntime.ArenaDestroy | kernel/mm/arena.c:177-194 | Destroys exactly live arenas without references. |
| AiCells.AiRuntime.BindModel | kernel/runtime/cpu_ai_runtime.c:501-617 | A binding takes the entry and one reference; a failure returns the reference, and leaves the entry marked exactly on a tokenizer failure. |
| AiCells.AiRuntime.UnbindModel | kernel/runtime/cpu_ai_runtime.c:619-635 | Frees the entry and the reference it held. |
| BridgePaths.NormalizeRange | scripts/xaios-ssh-bridge.py:41-51 | Every normalised path is canonical, or, exactly when the joined path starts with two slashes and no third, a slash in front of a canonical path. |
| BridgePaths.NormalizeIdentity | scripts/xaios-ssh-bridge.py:41-51 | Canonical paths are normalised to themselves from every directory. |
| BridgePaths.NormalizeUnder | scripts/xaios-ssh-bridge.py:41-51 | A relative path is resolved component by component from its directory. |
| BridgePaths.NormalizeName | scripts/xaios-ssh-bridge.py:41-51 | A name leads from a directory to its entry of that name, and what follows it is resolved from there. |
| BridgePaths.NormalizeParent | scripts/xaios-ssh-bridge.py:41-51 | Two dots lead to the parent, from the root to the root, and what follows them is resolved from there. |
| BridgePaths.NormalizeDot | scripts/xaios-ssh-bridge.py:41-51 | One dot and the empty path stay where they are. |
| BridgePaths.NormalizeBack | scripts/xaios-ssh-bridge.py:41-51 | Into any directory and back out of it is nothing: a name, two dots and a rest resolve as the rest. |
| BridgePaths.NormalizeSlashes | scripts/xaios-ssh-bridge.py:41-51 | Repeated slashes inside a path count once. |
| BridgePaths.NormalizeRooted | scripts/xaios-ssh-bridge.py:41-51 | A path with one leading slash is resolved from the root, whatever the directory. |
| BridgePaths.CanonicalParent | scripts/xaios-ssh-bridge.py:63-67 | The bridge's parent of a canonical path is canonical and joins with the base name to the path. |
| BridgeFs.NewPath | scripts/xaios-ssh-bridge.py:116-141 | In a tree, a path that can be made or written is canonical and has a directory; one with two leading slashes never can. |
| BridgeFs.CanExact | scripts/xaios-ssh-bridge.py:116-161 | At a canonical path of a tree: mkdir needs a new path in a directory, write a new path or a file in a directory, a move an existing source and a new path in a directory, and nothing else. |
| BridgeFs.RemoveKeeps | scripts/xaios-ssh-bridge.py:163-177 | Removing a file, or a directory that lists as empty, leaves a tree. |
| BridgeFs.MoveKeepsIff | scripts/xaios-ssh-bridge.py:147-161 | A move leaves a tree if and only if it moves a file, or an empty directory not into itself. |
| BridgeFs.MoveOrphans | scripts/xaios-ssh-bridge.py:147-161 | Moving /a from above /a/b leaves /a/b without its directory. |
| BridgeFs.InsertSorted | scripts/xaios-ssh-bridge.py:69-85 | Inserting into the sorted names of a set gives the sorted names of the larger set. |
| BridgeFs.ListChildren | scripts/xaios-ssh-bridge.py:69-85 | The prefix scan yields exactly the names directly inside a path, in code-point order. |
| BridgeFs.VirtualFs.Mkdir | scripts/xaios-ssh-bridge.py:116-123 | Adds a directory exactly when the path is new and its parent a directory; keeps a tree a tree. |
| BridgeFs.VirtualFs.Touch | scripts/xaios-ssh-bridge.py:125-132 | Creates an empty file or leaves an existing one; keeps a tree a tree. |
| BridgeFs.VirtualFs.Write | scripts/xaios-ssh-bridge.py:134-141 | Sets a file exactly when the parent is a directory and the path is none; keeps a tree a tree. |
| BridgeFs.VirtualFs.Move | scripts/xaios-ssh-bridge.py:147-161 | Renames one path of the view exactly when allowed. |
| BridgeFs.VirtualFs.Remove | scripts/xaios-ssh-bridge.py:163-177 | Removes a file, or with the flag an empty directory, never the root; keeps a tree a tree. |
| ArchiveText.RecordRoundTrip | scripts/xaios-ssh-bridge.py:300-369 | A printed record is read back with arbitrary data, whatever follows it. |
| ArchiveText.RecordCut | scripts/xaios-ssh-bridge.py:330-369 | A record whose path contains a newline is refused, whatever follows it. |
| ArchiveText.PrintedParses | scripts/xaios-ssh-bridge.py:300-369 | A printed entry list reads as itself if and only if no path contains a newline, and is refused otherwise. |
| ArchiveText.ArchiveParses | scripts/xaios-ssh-bridge.py:297-369 | On a whole printed archive the cursor loop ends with exactly its entries, or refuses it when a path contains a newline. |
| ArchiveText.ParseEntries | scripts/xaios-ssh-bridge.py:330-369 | After any number of rounds on any text the loop is where the round function says: at a cursor, ended, or at an index error; Python's negative indices, slices and signed numbers included. Watched for twice the text length and one rounds it runs if and only if it never ends, otherwise shows its result, and on a text whose records all advance that is the parse of the record grammar. |
| ArchiveText.AdvanceExact | scripts/xaios-ssh-bridge.py:340-369 | Reading a record moves the cursor forward if and only if it is a directory or its size is greater than minus the length of its header line with the newline. |
| ArchiveText.ReadsRecord | scripts/xaios-ssh-bridge.py:340-369 | Loop and record grammar read the same entry and the same rest of the text wherever the record advances the cursor, and refuse the same texts. |
| ArchiveText.AdvancingEnds | scripts/xaios-ssh-bridge.py:330-369 | On every text whose records all advance the cursor the loop ends with exactly the records of the grammar, or refuses the text where the grammar does. |
| ArchiveText.EndlessIff | scripts/xaios-ssh-bridge.py:330-369 | The loop never ends if and only if it comes back to a cursor it had before, which it then does within twice the text length and one rounds. |
| ArchiveText.NegativeSizeLoops | scripts/xaios-ssh-bridge.py:360-369 | On a file record of size -9 behind a header line of nine characters every round adds the same entry and returns to the same cursor, for ever. |
| ArchiveText.DecRoundTrip | scripts/xaios-ssh-bridge.py:300-306 | Printed lengths are read back. |
| ArchiveText.PrintedExample | scripts/xaios-ssh-bridge.py:297-306 | How a directory and a file of two characters in it are printed, character by character. |
| BridgeArchive.ApplyKeeps | scripts/xaios-ssh-bridge.py:388-407 | Extraction leaves a tree, whatever the archive says and wherever it stops. |
| BridgeArchive.EntryPlace | scripts/xaios-ssh-bridge.py:388-407 | An entry with a plain name lands in the destination under that name, and one that starts with two dots beside the destination, if and only if that directory exists and nothing is in the way. |
| BridgeArchive.FirstNameListed | scripts/xaios-ssh-bridge.py:69-85 | In a tree, whatever lies beneath a directory lies at or beneath one of its listed children. |
| BridgeArchive.CollectTree | scripts/xaios-ssh-bridge.py:309-328 | Collecting an existing path succeeds, and its entries are one line each if and only if the names are. |
| BridgeArchive.CopyTree | scripts/xaios-ssh-bridge.py:309-407 | The collected entries of a path, applied where nothing is, put exactly that subtree there. |
| BridgeArchive.ArchiveRoundTrip | scripts/xaios-ssh-bridge.py:297-407 | Archiving a path and extracting it into a directory lacking its name yields an identical subtree and changes nothing else, unless a name contains a newline: then nothing changes. |
| BridgeArchive.ArchiveOntoExisting | scripts/xaios-ssh-bridge.py:388-407 | When the name is taken, a directory is refused, and a file replaces a file only. |
| BridgeArchive.RootNeverExtracts | scripts/xaios-ssh-bridge.py:309-407 | The archive of the root never extracts, into any directory, and changes nothing. |
| BridgeArchive.CollectEntries | scripts/xaios-ssh-bridge.py:300-328 | The recursion appends the printed records of the collected entries. |
| BridgeArchive.ExtractArchive | scripts/xaios-ssh-bridge.py:388-407 | The loop has the effect of the parsed entries in order, up to the first that cannot be placed, with its reason; nothing changes while the parser runs or when it fails. |
| BpeSpec.BestIsLeast | kernel/runtime/bpe_tokenizer.c:137-148 | The best rule of a pair is the earliest of lowest priority number among all that match, in any order of rules. |
| BpeSpec.SortOrders | kernel/runtime/bpe_tokenizer.c:35-46 | Sorting permutes the rules into priority order. |
| BpeSpec.SortBest | kernel/runtime/bpe_tokenizer.c:35-46 | Sorting changes the best rule of no pair: rules of equal priority keep their order. |
| BpeSpec.SortedLookup | kernel/runtime/bpe_tokenizer.c:35-148 | The first match in the sorted table is the best rule of the unsorted set. |
| BpeSpec.LeadingUnique | kernel/runtime/bpe_tokenizer.c:187-204 | There is at most one leftmost merge of lowest priority number. |
| BpeSpec.NextMergeNone | kernel/runtime/bpe_tokenizer.c:187-217 | No merge follows if and only if no rule applies to any pair or the leading one yields no token. |
| BpeSpec.NextMergeExact | kernel/runtime/bpe_tokenizer.c:187-204 | A pair merges next if and only if its best rule has a priority number below the largest and yields a token, every pair to its left has no rule or one of greater number, and no pair to its right one of smaller. |
| BpeSpec.ReduceRepeated | kernel/runtime/bpe_tokenizer.c:187-217 | For every n: n copies of a token that a rule merges with itself become n / 2 merged tokens and, if n is odd, the token behind them. |
| BpeSpec.MergeAtExact | kernel/runtime/bpe_tokenizer.c:187-217 | A pair of tokens can merge if and only if a rule for it has a priority number below the largest 32-bit integer. |
| BpeSpec.LargestNeverMerges | kernel/runtime/bpe_tokenizer.c:187-217 | Rules of the largest priority number never apply: tokenization leaves the byte tokens as they are. |
| BpeSpec.MergedSpells | kernel/runtime/bpe_tokenizer.c:206-217 | A merge preserves the text when every merged token spells its two parts. |
| BpeSpec.ReduceSpells | kernel/runtime/bpe_tokenizer.c:187-217 | Merging to the end preserves the text. |
| BpeSpec.FirstTokensSpell | kernel/runtime/bpe_tokenizer.c:173-185 | The first tokens spell the input when every byte is non-zero and has an entry. |
| BpeSpec.RoundTrip | kernel/runtime/bpe_tokenizer.c:159-267 | Detokenizing a tokenized input gives it back if and only if it fits the working array, its tokens fit the token buffer, and text and terminator fit the output or there is no text. |
| BpeSpec.DetokenizeCut | kernel/runtime/bpe_tokenizer.c:230-267 | Detokenizing any tokens yields the text of the first of them, up to the first that would leave no room for the terminator. |
| Bpe.CompareExact | kernel/runtime/bpe_tokenizer.c:28-32 | The comparison by subtraction orders two priorities if and only if their difference is a 32-bit integer. |
| Bpe.CompareWraps | kernel/runtime/bpe_tokenizer.c:28-32 | The smallest priority number compares as greater than 1. |
| Bpe.SortRules | kernel/runtime/bpe_tokenizer.c:35-46 | The in-place insertion sort yields the sorted table and touches nothing behind it. |
| Bpe.FindToken | kernel/runtime/bpe_tokenizer.c:122-132 | The first entry that is just this byte, else the byte value. |
| Bpe.FindRule | kernel/runtime/bpe_tokenizer.c:137-148 | The scan of the sorted table returns the best rule of the unsorted set. |
| Bpe.FindMerge | kernel/runtime/bpe_tokenizer.c:187-204 | The scan over the pairs finds the next merge of the specification: the leftmost pair whose best rule has the lowest priority number, against every pair to its left and to its right. |
| Bpe.MergePair | kernel/runtime/bpe_tokenizer.c:206-217 | The shift replaces exactly the pair by the merged token. |
| Bpe.ReduceTokens | kernel/runtime/bpe_tokenizer.c:187-217 | The loop ends, with the tokens on which no merge is left. |
| Bpe.Tokenize | kernel/runtime/bpe_tokenizer.c:159-225 | The tokens of the specification over the unsorted rules, cut to the buffer. |
| Bpe.DetokenizeTokens | kernel/runtime/bpe_tokenizer.c:230-267 | Token texts in order, up to the first that leaves no room for the terminator. |
| Speculative.DecodedFollows | kernel/runtime/speculative_decoding.c:132-179 | Decoding with one model alone yields tokens each of which is the model's next, and stops only where it yields none. |
| Speculative.SuccessorCounts | kernel/runtime/speculative_decoding.c:72-109 | With the model whose output is the last input byte plus one, decoding counts on from the context: each token is fed back as the byte behind the context and the tokens before it, until 256 bytes are full. |
| Speculative.FollowsIsPrefix | kernel/runtime/speculative_decoding.c:132-179 | Tokens each of which is the target's next are a prefix of what the target decodes alone. |
| Speculative.StopsWhereTheyPart | kernel/runtime/speculative_decoding.c:132-179 | Verification stops exactly where the draft leaves the target's own decoding. |
| Speculative.ExtractTokenId | kernel/runtime/speculative_decoding.c:24-31 | Up to four bytes, little-endian. |
| Speculative.Decoder.GenerateDraft | kernel/runtime/speculative_decoding.c:59-113 | For any draft model: the first slots hold the draft model's own decoding, the rest what they held; succeeds exactly when all slots filled or the context did, and then counts all slots as drafted, stale ones too. |
| Speculative.Decoder.VerifyTokens | kernel/runtime/speculative_decoding.c:115-190 | Accepts as many draft tokens as agree with the target's own decoding and counts each draft token once, as accepted or rejected. |
| Speculative.Decoder.DecodeStep | kernel/runtime/speculative_decoding.c:192-230 | For every draft model, target and context, the step succeeds exactly when drafting does, and the output is then the agreeing prefix of target-only decoding; a failure changes no statistic; accepted plus rejected equals speculated in every reachable state. |
| Checksum.FoldExact | kernel/net/ipv4.c:44-46 | Folding the carries is reduction modulo 65535, with 65535 for the non-zero multiples. |
| Checksum.ZeroExact | kernel/net/ipv4.c:36-48 | The checksum is zero if and only if the words add up to a non-zero multiple of 65535. |
| Checksum.Rfc1071Example | kernel/net/ipv4.c:36-48 | The eight bytes of the example in section 3 of RFC 1071 have its sums and checksum. |
| Checksum.HeaderLayout | kernel/net/ipv4.c:72-87 | Every field of a built header is where figure 4 of RFC 791 has it, most significant byte first: length, flags, time to live, protocol, source, destination. |
| Checksum.StoredChecksumVerifies | kernel/net/ipv4.c:36-104 | For any bytes with a zero field at an even offset, storing the checksum there makes the recomputed one zero. |
| Checksum.PseudoVerifies | kernel/net/ipv6.c:74-118 | The same for a payload behind any pseudo-header of even length, for IPv4 and IPv6. |
| Checksum.BuiltHeaderValidates | kernel/net/ipv4.c:72-104 | A built header passes validation if and only if its length field covers the header and fits the frame. |
| Checksum.OneByteDetected | kernel/net/ipv4.c:36-104 | In every valid frame, any other value of any one header byte behind the first makes the frame invalid. |
| Checksum.Ipv4Checksum | kernel/net/ipv4.c:36-48 | The loops compute the complement of the folded word sum, odd lengths included. |
| Checksum.PseudoChecksum4 | kernel/net/ipv4.c:50-70 | Summing field by field equals the checksum over pseudo-header bytes and payload. |
| Checksum.PseudoChecksum6 | kernel/net/ipv6.c:74-118 | The same over the 40-byte pseudo-header of section 8.1 of RFC 8200. |
| Checksum.BuildHeader | kernel/net/ipv4.c:72-87 | Writes the twenty header bytes with their checksum and nothing behind them. |
| Checksum.ValidateIncoming | kernel/net/ipv4.c:89-104 | Accepts exactly the valid frames. |
| LineDiff.ReplayExact | kernel/runtime/git_workspace.c:522-598 | Replaying the first hunks on the old lines gives the new lines if and only if no hunk is missing. |
| LineDiff.HunkMeansDifferent | kernel/runtime/git_workspace.c:522-598 | There is a hunk to come if and only if the remaining lines differ. |
| LineDiff.HunksCover | kernel/runtime/git_workspace.c:522-598 | A line of either text is in a hunk if and only if the other text has another line, or none, of that number. |
| LineDiff.HunksSpaced | kernel/runtime/git_workspace.c:522-598 | Hunks are not empty and are separated by at least one equal line, as many in the old text as in the new. |
| LineDiff.DiffReplays | kernel/runtime/git_workspace.c:485-598 | For all texts, empty ones included: the whole diff replayed on the old text is the new text, and a truncated one never is. |
| LineDiff.CountLines | kernel/runtime/git_workspace.c:485-492 | Counts the lines, none for an empty text. |
| LineDiff.GetLine | kernel/runtime/git_workspace.c:494-511 | Finds exactly the line with the given number. |
| LineDiff.ComputeDiff | kernel/runtime/git_workspace.c:522-598 | The nested loops end and fill in the first hunks of the diff, as many as fit. |
| Kheap.LiveBlocksApart | kernel/mm/kheap.c:61-144 | In every reachable state two live allocations with their headers do not overlap and lie in the mapped heap. |
| Kheap.EveryByteUsed | kernel/mm/kheap.c:99-122 | In every reachable state each byte below the bump pointer is in a block or in the padding before one, which is shorter than the alignment asked for. |
| Kheap.AlignUpLeast | kernel/mm/kheap.c:28-30 | Rounding up yields the least multiple. |
| Kheap.UnlinkExact | kernel/mm/kheap.c:77-98 | Reuse takes only the chosen block off the free list if and only if the block before it in the list was not skipped as misaligned; otherwise the whole skipped run is lost. |
| Kheap.UnlinkLoses | kernel/mm/kheap.c:77-98 | With two free blocks, the first misaligned, reuse of the second empties the list. |
| Kheap.SearchStep | kernel/mm/kheap.c:77-90 | One more block looked at: link pointer and best fit move as the loop moves them. |
| Kheap.Heap.Alloc | kernel/mm/kheap.c:61-123 | A block that is aligned, large enough and not live; when a free block fits, one of which no other fitting one is smaller, and then the heap does not grow; else a new one at the least aligned address a header behind the last block, which then is the end of the heap, with pages mapped up to it; a valid request fails only when nothing fits and the heap has to grow, and a failure changes nothing. |
| Kheap.Heap.Search | kernel/mm/kheap.c:73-90 | Finds the earliest smallest fitting free block, or that none fits. |
| Kheap.Heap.Bump | kernel/mm/kheap.c:100-122 | A new block at the least aligned address a header behind the end of the last one; the bump pointer is then the end of the block, and the mapped end that end rounded up to a page, if larger than before; with 64-bit wrap of the end address refused and nothing changed on failure. |
| Kheap.Heap.Free | kernel/mm/kheap.c:125-144 | A live block goes to the front of the free list and is live no more. |
| ArpSpec.RecentIsByRecency | kernel/net/arp.c:46-133 | The recency list holds every touched address once, as last touched, later touches first. |
| ArpSpec.KeptTouched | kernel/net/arp.c:46-133 | The 32 most recent addresses after a touch depend only on the 32 most recent before it. |
| Arp.ShiftKeeps | kernel/net/arp.c:64-82 | Moving a slot to the front changes where entries are, not which slots were used in which order. |
| Arp.EvictionExact | kernel/net/arp.c:112-129 | From a full cache that holds the 32 most recently touched addresses, an insert of another one leaves such a cache if and only if the least recently used slot is the first of those with the smallest time. |
| Arp.HarmlessForward | kernel/net/arp.c:112-121 | With a clock that never went back this is so if and only if no slot before the least recently used one has the same time. |
| Arp.HarmlessStrict | kernel/net/arp.c:112-121 | With a clock that advanced between touches it is always so. |
| Arp.InsertKeeps | kernel/net/arp.c:87-133 | For any clock readings an insert keeps every cached address with its last touch, and keeps an exact cache exact if and only if it evicts nothing or the least recently used slot. |
| Arp.TieEvictsLatest | kernel/net/arp.c:64-121 | A run of 34 calls at one time: 32 inserts, a lookup of the last address, and an insert, which evicts the address just looked up and keeps the least recently used one. |
| Arp.Cache.Lookup | kernel/net/arp.c:46-85 | Finds an address exactly when it is cached, with the hardware address of its last touch; a hit counts as a touch and moves its slot to the front; an exact cache stays exact. For any clock readings. |
| Arp.Cache.Insert | kernel/net/arp.c:87-133 | For any clock readings: writes the slot of the address, a free one or the victim's; every cached address has its latest hardware address; an exact cache stays exact if and only if the insert is harmless, and with a clock that advances between touches the cache always holds exactly the 32 most recently touched addresses. |
| RateLimit.EarnedExact | kernel/runtime/rate_limit.c:17-31 | The wrapped refill product never earns more tokens, and as many if and only if it does not wrap. |
| RateLimit.RefillExact | kernel/runtime/rate_limit.c:17-31 | After a wait the bucket holds what it had and what its rate earned, up to its capacity, if and only if the sum does not wrap, and the product does not wrap or what is left of it fills the bucket. |
| RateLimit.RefillEmpties | kernel/runtime/rate_limit.c:17-31 | One nanosecond empties the largest full bucket. |
| RateLimit.WaitGrants | kernel/runtime/rate_limit.c:17-41 | Where nothing wraps, a request within the capacity is granted if and only if the tokens are there or the wait was long enough to earn the missing ones. |
| RateLimit.GrantBound | kernel/runtime/rate_limit.c:9-41 | Over any run up to a time, a bucket grants at most its capacity and what its rate earns since creation, whatever the clock does and wherever arithmetic wraps. |
| RateLimit.RefillKeeps | kernel/runtime/rate_limit.c:17-31 | A refill keeps the bound on tokens granted and held. |
| RateLimit.TokenBucket.TryConsume | kernel/runtime/rate_limit.c:33-41 | One consumption of the specification; tokens never exceed the capacity. |
| RateLimit.AcceptedWithinCap | kernel/runtime/rate_limit.c:106-127 | An accepted memory commit keeps the true total within the cap if and only if the sum does not wrap. |
| RateLimit.WrappedCommit | kernel/runtime/rate_limit.c:106-127 | A commit that wraps is accepted far beyond the cap. |
| RateLimit.MemoryMeter.Commit | kernel/runtime/rate_limit.c:106-127 | The meter never shows more than the cap and shows the true total unless a commit wrapped. |
| RateLimit.MemoryMeter.Release | kernel/runtime/rate_limit.c:129-138 | Subtracts, down to zero. |
| Sha256.CompressedConcat | kernel/runtime/sha256.c:141-145 | Compressing whole blocks of a concatenation is compressing one part after the other. |
| Sha256.PaddingNeverStandard | kernel/runtime/sha256.c:155-174 | For no message is the padded text the one of FIPS 180-4: the length field counts the padding. |
| Sha256.PaddedLayout | kernel/runtime/sha256.c:155-174 | A padded message is the message, 0x80, fewer than 64 zeros up to whole blocks, and eight bytes that read, most significant first, as the bits before them; by the standard as the bits of the message. |
| Sha256.Context.Update | kernel/runtime/sha256.c:113-153 | For every split of the input the context is the compression of all whole blocks with the rest buffered and the bit count modulo 2^64. |
| Sha256.Context.Final | kernel/runtime/sha256.c:155-180 | The padding loop ends, on a block boundary, and the state is the digest of the bytes fed in. |
| Sha256.HashChunks | kernel/runtime/sha256.c:182-187 | The digest of any sequence of pieces is that of their concatenation. |
| SandboxVm.Execute | kernel/runtime/sandbox.c:247-344 | Stops within 64 cycles per instruction, never writes behind the limit, and writes exactly the first bytes of what the program emits without a limit; an unknown operation ends the run with an error. |
| SandboxVm.EmitStr | kernel/runtime/sandbox.c:319-331 | The inner loop writes as much of the string as there is room for. |
| SandboxPrograms.SpellingWrites | kernel/runtime/sandbox.c:274-344 | For every text, the program that loads and emits its bytes in turn writes exactly the text, with two cycles a byte; halting or running off the end is a success, an unknown operation an error after the text. |
| SandboxPrograms.CalculationWrites | kernel/runtime/sandbox.c:287-308 | For all 32-bit numbers x and y, programs that add, multiply and compare them write the low byte of x + y, of x * y, and 0 or 1. |
| SandboxPrograms.CountdownWrites | kernel/runtime/sandbox.c:287-318 | For every 32-bit number n, a loop that emits a byte and counts down from n writes n bytes if n is between 1 and 149 and else 149, as many as its 448 cycles allow. |
| SandboxPrograms.RotationWrites | kernel/runtime/sandbox.c:319-331 | A string of any length from registers: byte k is the low byte of register first + k modulo eight. |

## Left out

- Mounting, reload and the metadata checksum of the filesystem: the bytes of the metadata sectors are not modelled, only that a write writes them after its data and that writing them may fail. The v3 geometry, journal replay, directory listing and the state-record helpers are not part of this model.
- Operation counters, log output, locks and null-pointer checks everywhere; the arena page and byte counters of AI cells and the byte counter of the heap.
- Cell descriptors and their checksum; arena sizes, page contents and mappings; model image and KV-size checks, which succeed or fail nondeterministically. Core masks are sets of CPU numbers below 32.
- The network stack behind the queue binding: a map from queues to cells that may refuse a binding.
- Archive number fields: digits and spaces beyond ASCII and Python's limit on the number of digits are not modelled. The argument parsing of the tar and cpio commands, archives of several sources, and copying trees are not modelled.
- ArchiveText.ParseEntries: runs the loop for a given number of rounds, because on some texts the loop of the source does not end.
- Bpe.FindToken: does not say what the lookup of a zero byte finds, because that depends on the bytes behind a vocabulary string; it is a parameter. Loading a serialized tokenizer is not modelled.
- Bpe.SortRules: requires that priority differences fit 32 bits, because signed overflow is undefined in C; what a wrapping subtraction would do is in Bpe.CompareExact.
- Bpe.DetokenizeTokens: requires that token and buffer lengths add up below 2^32, because otherwise the copy of the source leaves the buffer.
- Sha256.Context.Final: leaves the digest as the final state; storing it as 32 bytes is not modelled.
- Kheap.Heap.Alloc: models the free list as a sequence and the headers as a map, so writes of a client into a header are not captured; page mapping may fail as a whole. Zeroing allocation is not modelled.
- Arp.Cache.Insert: requires a slot to write to; when all times are the largest 64-bit value the eviction scan of the source finds none and writes outside the table. Aging, the frame formats and the copying of the six bytes are not modelled.
- RateLimit.TokenBucket.TryConsume: models one bucket; the table of cells, their activation and violation counters are not modelled.
- The SHA-256 compression function is a parameter: the statements hold for every one, and nothing is said about its rounds.
- SandboxVm.Execute: models the VM loop of a sandbox that is building; the sandbox lifecycle is not modelled. Signed overflow of registers is two's complement.
- Speculative.Decoder.DecodeStep: the speedup statistic is not modelled.
- IPv4 and IPv6 fragmentation, IPv6 headers, DNS and neighbour discovery; the paged KV cache; floating-point kernels; drivers, UEFI, virtual memory and scheduling: no part of this model.
