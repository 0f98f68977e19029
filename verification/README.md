# Hoit-F2FS, modelled and proved in Dafny

Hoit-F2FS is a kernel F2FS with an NVM tier in front of the SSD. Several of its parts keep a fast or packed
structure that must agree with a simple map over every run. This project models those parts, each in the form
the code has (loops and fields become methods and classes, computed values become functions), and proves what they are for.

| file | part | simple thing it must agree with |
|---|---|---|
| `Checkpoint.dfy`, `MountTable.dfy` | shadow-copy checkpoint of the NVM mapping table: two copies of each page, two superblocks, two packs, one commit point | the table of the last committed checkpoint, at every crash point |
| `MptTable.dfy`, `MptRun.dfy` | the packed mapping table, its bitmap, free counter and allocator | a one-to-one pairing of NVM and SSD segments |
| `Tiering.dfy`, `TierCrash.dfy` | hot, cold and pre-moves between the devices; crashes between two checkpoints | what was last written to every block; what the last checkpoint holds |
| `TopK.dfy` | the heaps that choose what moves | the k best eligible segments |
| `ExtentCache.dfy` | the extent tree with its largest entry, splits, merges and shrinker | the block map of the file |
| `Nat.dfy`, `NatRun.dfy`, `NatAddress.dfy` | NAT cache, journal and blocks; the nid allocator; the two copies of a NAT block | one map from nid to node address |
| `NodePath.dfy` | index arithmetic of the four-level node tree | a tree numbered in preorder |
| `Xattr.dfy` | attributes packed in bytes over inode and node block | a finite map |
| `Dir.dfy` | the multi-level hashed directory | a finite map |
| `Recovery.dfy` | roll-forward recovery in two passes | the fsynced blocks of a chain |
| `Shift.dfy` | collapse-range and insert-range | a shift of the file's pages |
| `Bio.dfy` | merging pages into bios, redirecting bios | the table applied block by block |
| `MapBlocks.dfy` | block mapping for lookups | the block map of the file |
| `Victim.dfy` | the victim scan of the cleaner | a minimum over the dirty segments, none passed over for ever |

`Common.dfy` and `Arith.dfy` hold what several parts share.

The main results are `Checkpoint.CrashSafety`, `Tiering.ReadsBackAsWritten`, `ExtentCache.RunOps`, `NatRun.RunOps`,
`MptRun.RunExact`, `TierCrash.RunExact`, `MountTable.MountExact`, `Nat.NodeManager.FlushNatEntries`, `Xattr.RunOps`, `Dir.RunOps`, `Recovery.RecoverFsyncData`, `Shift.File.CollapseRange` and
`InsertRange`, `NodePath.BlockIndexRoundTrip`, `NumberingInjective` and `NextPageOffset`, `TopK.GetMaxK`, `Bio.EveryPageArrives`,
`MapBlocks.Map`, `Victim.GetVictim` and `SearchRounds`.

## Where the code does not do what one would hope

Each of these keeps the code as it is and proves exactly when the expected property holds.

- `Checkpoint.HazardExact`: if NVM_NSB_DIRTY is first set between checkpoint.c:1657 and checkpoint.c:1435, the superblock flag is switched although no superblock was written. Whatever steps follow, the commit publishes the right table exactly when the two superblock copies already led to the same one; `HazardLosesTable` is a run that brings an old table back.
- `Checkpoint.FirstMountExact`: the first mount writes superblock copy 0 without looking at the flag of the checkpoint, so the device mounts as the flushed table exactly when that flag is clear.
- `MptTable.MapPairExact`, `MptRun.RunExact`: gc_nvm.c:642 tests the NVM half of the pair, which is never mapped; what matters is the SSD half. A run keeps the table consistent exactly when no hot move ends on an SSD segment that was freed and mapped again meanwhile; `MptRun.BreakingRun` is such a run of the code.
- `TierCrash.RunExact`: after a crash the mount goes back to the committed table, and every committed block is there at every point of a run exactly when no step wrote other contents to its place. The code does not see to that: the allocator may take an NVM segment that the committed table still maps (the test at nvm.c:411-415 is commented out). `BlockLost` loses a block by a hot move onto such a segment, `BlockLostByWrite` by an ordinary first write to a new segment put there. With the test and with out-of-place writes nothing is lost (`CommittedBlocksSurvive`).
- `MountTable.MountExact`: the bitmap is written after the table was flushed, so a mount finds the two consistent exactly when the NVM segments mapped at the flush are those mapped or held at the superblock write. A hot move under way at that moment leaves its segment allocated for ever (`HeldIsLeaked`, `LeakedForever`).
- `MptTable.ClearDoubleExact`: `clear_double_flag` damages odd offsets.
- `Tiering.DoubleWriteExact`: nothing clears the double flag when a redirected write hits the segment.
- `Nat.NodeManager.FlushNatEntries`: for a nid that waits for its address, the flush keeps what the device says exactly unless it will empty the journal and the journal's entry differs from the block's; then an older block entry shows again. `NatRun.OldEntryReturns` is a run of the code in which it does.
- `Nat.NodeManager.SetNodeAddr`, `NatRun.StaleEntryWins`: f2fs_recover_inode_page looks at the address alone. For a nid whose release still waits to be flushed the count of its set is wrong from then on, and exactly then; a later flush can write the block while the journal keeps the old address, which lookups read first.
- `NatRun.RunOps`, `AllocRetry`, `CountTooHigh`: available_nids counts the vacant nids that nobody holds, and one more for each f2fs_recover_inode_page, which takes a nid without lowering it. With no recovery f2fs_alloc_nid fails exactly when no nid is left; after one, with no nid left, its retry loop does not end.
- `Xattr.XattrInode.Lookup`: an inline area of 4 to 24 bytes, which super.c:894-903 lets through, makes every lookup fail.
- `Dir.BucketsDisjointExact`: from level 31 on a 32-bit product is 0, so levels lie on top of each other.
- `Dir.Directory.AddEntry`, `AddLink`: a new entry makes the directory one name larger exactly when the name is not there and the level hint is not above the depth; otherwise no placement explains the blocks. The shortcut for the task that last looked something up in vain (dir.c:632) does not ask which name that was: `Dir.SecondEntry` is a run that enters a name twice, and `Dir.RunOps` shows that it cannot happen when each task links a name right after its own lookup of it.
- `Bio.CrossingExact`: a bio across a segment border goes wrong unless the NVM segments are neighbours too.

## How it is modelled

- A call runs as a whole; locks and threads are not modelled. A device error ends the run. Failures that the code handles (no memory for a cache node, no block, no nid, a missing inode) are parameters that may take any value.
- Checkpoint: versions are unbounded numbers compared by the 64-bit wrap-around test; the checksum is ideal, so a torn block is recognised. Blocks on their way to the device become durable in any order, up to the wait at checkpoint.c:1522; MPT pages and superblock copies may still be in flight when the pack is written. super.c:3112-3115 leaves the mount path early for any but the first mount, so the recovery functions are modelled themselves.
- Mapping table: one segment per section, offsets below 2^29, a run of valid blocks fits one bio. In `MptRun` a hot move begins and ends with any other steps in between; in `Tiering` a move is one step, which ends in a mapping or is abandoned. Writes to a double-flagged segment are excluded from the runs, and the reason is proved. `TierCrash` takes the commit as one event, as `Checkpoint` proves it to be; its `CommittedBlocksSurvive` assumes two rules, that allocations spare the NVM segments of the committed table and that no block valid at the last checkpoint is written in place, neither of which the code follows always; `RunExact` assumes neither.
- Extent cache: the tree is the sequence of its extents in order, and a descent may take any shape the comparisons allow; the shrinker may take any node. Page numbers stay within 32 bits.
- NAT: a NAT block is a map from its nids; sets and lists are visited in any order. A nid becomes NEW_ADDR when it is not in the list of free nids: in the hands of the caller the allocator gave it to, or during recovery, which first takes it off the list. `NatRun` runs such callers against a reference map. The count of available nids is stated for an area in which nid 0 has no entry, since nid 0 belongs to no node.
- Node tree: the numbers of slots are parameters; `KernelFits` shows that the ones for 4 KB blocks satisfy the size assumptions.
- Heaps: the max-heap and the min-heap of the source are mirror images; one heap with a key (the count, or its negation) serves both.
- Attributes: name indexes are not zero, as an entry of index 0 can look like the terminator.
- Directories: the hash is any fixed function; a file has fewer than 2^31 blocks. A name is one field of its first slot.
- Recovery: what looking up an inode or replaying a block does is a parameter; the blocks of the chain do not change during recovery.
- Shifts: a page is its contents and whether its block is in the last checkpoint; the error-free paths are modelled.

## Model

| member | source | states |
|---|---|---|
| `Checkpoint.BlockNoInjective` | f2fs.h:1846-1866 | distinct MPT page copies, superblock copies and pack blocks are distinct device blocks |
| `Checkpoint.OldIsNotAfter` | f2fs.h:118-120 | an older checkpoint version never wins the 64-bit wrap-around comparison against the committed one |
| `Checkpoint.ChoosesCommitted` | checkpoint.c:939-1021 | no older, torn or unfinished pack wins over the committed one |
| `Checkpoint.RecoverIsCommitted` | checkpoint.c:939-1021 | whatever else is on the device, mounting it selects the last committed pack, its superblock copy and its version bitmap, and reads exactly that table |
| `Checkpoint.FlushPrefixGet` | nvm.c:16-63 | the flush writes a page only to the copy its version bit does not name, with the page's content, and no other block |
| `Checkpoint.StepRemap` | nvm.c:433-482 | mapping changes at any point keep the protocol invariant |
| `Checkpoint.StepBitmap` | nvm.c:384-431 | allocations and releases outside the hazard window keep it |
| `Checkpoint.StepFlushMpt` | checkpoint.c:1641-1656 | flushing dirty MPT pages keeps it: no block of the committed checkpoint is written |
| `Checkpoint.StepFlushNsb` | checkpoint.c:1657-1668 | writing the other superblock copy keeps it |
| `Checkpoint.StepSwitch` | checkpoint.c:1431-1450 | switching the superblock flag keeps it, whatever is still in flight |
| `Checkpoint.StepWritePack` | checkpoint.c:1477-1530 | writing the new pack without its tail keeps it, with MPT and superblock copies still in flight |
| `Checkpoint.StepPersist` | checkpoint.c:1531-1548 | blocks may reach the device in any order |
| `Checkpoint.StepTear` | checkpoint.c:1328-1359 | a write torn by the crash does no harm |
| `Checkpoint.StepCommit` | checkpoint.c:1328-1359 | the tail reaching the device commits exactly the table that was flushed |
| `Checkpoint.StepCrash` | checkpoint.c:939-1021 | a remount puts the machine back into a state that satisfies the invariant |
| `Checkpoint.StepKeepsInv` | checkpoint.c:1566-1704 | every step of code, device or crash keeps the invariant outside the hazard window |
| `Checkpoint.CrashSafety` | checkpoint.c:1641-1680 | at every crash point of every run, with MPT pages, superblock copies and pack blocks durable in any order, the device mounts as the last committed checkpoint, table and bitmap, and no pending write touches a block it refers to |
| `Checkpoint.RecoveredTogether` | checkpoint.c:1641-1668 | whatever relation held between flushed table and bitmap at every superblock write, such as agreement when nothing is remapped between the two flushes, holds of every recovered pair |
| `MountTable.MountedExact` | checkpoint.c:1641-1668 | table of one time and bitmap of a later one are consistent exactly when the NVM segments mapped at the first are those mapped or held at the second; with nothing remapped in between, exactly when no hot move was under way |
| `MountTable.MountExact` | checkpoint.c:1641-1668 | over every run from the superblock write to the commit, the mounted table satisfies the table invariant if and only if the two are in step |
| `MountTable.HeldIsLeaked` | nvm.c:384-431 | with nothing remapped in between, the bits set without a mapping are those of the moves under way |
| `MountTable.LeakedForever` | nvm.c:384-431 | such a bit stays set over every run, and its segment is never given out |
| `Checkpoint.CommitPublishesSnapshot` | checkpoint.c:1548-1561 | the table recovered is the old one up to the commit point and the flushed one from it on |
| `Checkpoint.SnapshotMovesOnlyAtFlush` | checkpoint.c:1641-1680 | mapping changes made after the flush do not get into the running checkpoint |
| `Checkpoint.HazardExact` | checkpoint.c:1435-1450 | if NVM_NSB_DIRTY is first set between lines 1657 and 1435, then after any steps to the commit the recovered table is right exactly when the other superblock copy led to the same table before, and until the commit the old table is recovered |
| `Checkpoint.HazardRuns` | checkpoint.c:1435-1561 | over every run such a checkpoint writes to nothing but its own pack |
| `Checkpoint.HazardLosesTable` | checkpoint.c:1657-1660 | a concrete state and run, with a pack of three blocks, in which that window brings an old table back |
| `Checkpoint.FirstMount` | super.c:3035-3128 | with the flag clear, the invariant holds after the first mount's flush of every page |
| `Checkpoint.FirstMountExact` | super.c:3035-3128 | once the first mount's blocks are durable the device mounts as the flushed table exactly when the flag of the checkpoint is clear |
| `Checkpoint.NvmSbInfo.FindNextDirty` | nvm.c:16-63 | finds the first dirty page from a position, or the end if there is none |
| `Checkpoint.NvmSbInfo.GetNextMptPage` | nvm.c:67-82 | returns the copy that is not current and flips the version bit of that page only |
| `Checkpoint.NvmSbInfo.FlushMptPages` | nvm.c:16-63 | the loop writes exactly the selected pages to their other copies, flips exactly their bits, cleans the dirty map and marks the superblock dirty exactly if something was flushed |
| `Checkpoint.GetMpt` | nvm.c:741-762 | rebuilds the table page by page from the copies the version bitmap names |
| `MptTable.BitExpressions` | nvm.h:282-322 | the shifts and masks of the entry accessors compute the arithmetic of the model on every 32-bit word |
| `MptTable.DecodePack` | nvm.h:282-296 | unpacking a packed entry gives back the offset and the flags |
| `MptTable.DecodeSetDouble` | nvm.h:319-321 | setting the double flag changes nothing else in the word |
| `MptTable.ClearRedirectExact` | nvm.h:310-313 | clears the redirect bit and nothing else |
| `MptTable.ClearDoubleExact` | nvm.h:323-326 | also clears the lowest bit of the offset: the offset survives exactly when it is even |
| `MptTable.MutualInverse` | nvm.c:433-482 | the two halves of the table are mutual inverses |
| `MptTable.MapPairInv` | nvm.c:433-452 | mapping a held NVM segment to an unmapped SSD segment keeps the table invariant |
| `MptTable.UnmapInv` | nvm.c:459-482 | unmapping keeps it and leaves the segment unmapped |
| `MptTable.MarkDoubleInv` | gc_nvm.c:139-156 | flagging both entries of a pair keeps it |
| `MptTable.HoldInv` | nvm.c:384-431 | taking a clear bit keeps bitmap and counter in step, and a clear bit means the counter is positive |
| `MptTable.GiveBackInv` | gc_nvm.c:637-668 | giving a held segment back keeps it |
| `MptTable.MapPairExact` | gc_nvm.c:637-668 | the NVM half that the code looks at is never mapped, and the mapping step keeps the invariant exactly when the SSD half is unmapped |
| `MptTable.CountClearZero` | nvm.c:384-431 | the free counter is zero exactly when every bit is set, so the wrap-around search ends |
| `MptTable.NvmTable.CreateMapping` | nvm.c:433-452 | both packed words are written, and they decode to the pair |
| `MptTable.NvmTable.UnsetMapping` | nvm.c:459-482 | both words, the bit and the counter change as for the abstract unmap; the invariant is kept |
| `MptTable.NvmTable.SetDouble` | gc_nvm.c:139-156 | the array after the call decodes to the abstract result |
| `MptTable.NvmTable.FindNextZero` | nvm.c:384-431 | the first clear bit in a range, or its end if there is none |
| `MptTable.NvmTable.AllocateHeld` | nvm.c:384-431 | returns a segment exactly when one is free, and one whose bit was clear |
| `MptTable.NvmTable.NewCurseg` | nvm.c:384-431 | a new segment on the NVM is mapped to an NVM segment that was free, exactly when one is asked for and free; nothing else changes |
| `MptTable.NvmTable.FreeSegment` | segment.h:446-488 | a freed SSD segment ends unmapped and not in use, its NVM segment's bit clear and the counter one higher; every other mapping and bit stays |
| `MptTable.NvmTable.HotFinish` | gc_nvm.c:637-668 | the end of a hot move: a mapping, or the held segment given back; the invariant holds after it exactly when the SSD half was not mapped; the branch for an NVM segment already mapped is dead |
| `MptRun.StepExact` | gc_nvm.c:637-668 | every step of an interleaved run keeps the table invariant, but for a hot move that ends on an SSD segment mapped meanwhile, which never does |
| `MptRun.RunExact` | nvm.c:384-482 | over every run of moves, allocations, releases, unmappings and flags: at every point the halves are mutual inverses, a bit is set exactly for segments mapped or held by an unfinished move, and the counter counts the clear ones, if and only if no move ends that way |
| `MptRun.BreakingRun` | gc_nvm.c:637-668 | a run of the code that ends in an inconsistent table |
| `Tiering.CopyValid` | gc_nvm.c:159-289 | the run-finding loops copy exactly the valid blocks and leave all others |
| `Tiering.HotKeeps` | gc_nvm.c:571-672 | a hot move keeps every block reading back as written |
| `Tiering.AbandonKeeps` | gc_nvm.c:660-668 | a move whose segment was freed meanwhile leaves what readers see |
| `Tiering.ColdKeeps` | gc_nvm.c:159-289 | so does a cold move or a pre-move |
| `Tiering.ReleaseKeeps` | gc_nvm.c:477-503 | so does the release of a segment that both devices hold, without a copy |
| `Tiering.WriteKeeps` | nvm.c:260-309 | a redirected write to a segment without the double flag is what a reader sees |
| `Tiering.StepKeeps` | gc_nvm.c:421-672 | every step keeps the store invariant, and only writes change what was written |
| `Tiering.ReadsBackAsWritten` | gc_nvm.c:139-400 | after every run each valid block reads through the table as last written |
| `Tiering.MovesKeepContent` | gc_nvm.c:571-672 | a move changes nothing that a reader sees |
| `Tiering.NoSharing` | nvm.c:433-452 | two mapped SSD segments never share an NVM segment |
| `Tiering.DoubleWriteExact` | gc_nvm.c:477-503 | a write to a double-flagged segment survives a later release exactly when the SSD copy already held that block |
| `Tiering.Tier.HotToNvm` | gc_nvm.c:571-672 | copies exactly when an NVM segment is free; then a segment in use is mapped as by the abstract hot move, and the copy of one freed meanwhile is abandoned |
| `Tiering.Tier.ColdToSsd` | gc_nvm.c:159-289 | does the abstract cold move on a mapped segment and nothing on an unmapped one |
| `Tiering.Tier.ReleaseIfDouble` | gc_nvm.c:477-503 | releases exactly the double-flagged mapped segments |
| `TierCrash.Effect` | gc_nvm.c:159-289 | every block of either device is after a step what the step wrote there, or what it was |
| `TierCrash.StepExact` | nvm.c:384-431 | the committed blocks survive a step exactly when it writes nothing else to the place of one; only moves and writes can |
| `TierCrash.RunExact` | nvm.c:384-431 | over every run of moves, writes, allocations, releases and checkpoints, a crash at any point finds every committed block's data if and only if no step wrote other contents to the place of one |
| `TierCrash.RulesSuffice` | nvm.c:411-416 | a step whose allocation spares the committed table's segments and whose write is out of place overwrites no committed block |
| `TierCrash.CommittedBlocksSurvive` | nvm.c:384-431 | from a checkpoint on, a run whose allocations spare the segments the committed table maps and whose writes go to no block valid at the last checkpoint finds every committed block's data at every crash point |
| `TierCrash.BlockLost` | nvm.c:411-416 | a cold move and a hot move onto the segment it left: a run after which a crash has lost a committed block |
| `TierCrash.BlockLostByWrite` | segment.c:2210-2240 | a cold move, a new segment put on the segment it left and its first write: a committed block is lost though the write was out of place |
| `TopK.UpStep` | nvm.c:1157-1164 | one step of sifting up keeps the heap ordered apart from one edge |
| `TopK.DownStep` | nvm.c:1202-1211 | one step of sifting down keeps the heap ordered apart from one node's children |
| `TopK.TopIsMax` | nvm.c:851-857 | the top of an ordered heap is its maximum |
| `TopK.Heap.constructor` | nvm.c:800-820 | a new heap is empty and ordered |
| `TopK.Heap.Reset` | nvm.h:351-357 | a reset heap is empty |
| `TopK.Heap.Insert` | nvm.c:1146-1193 | insertion keeps order and adds exactly the new node |
| `TopK.Heap.ReplaceTop` | nvm.c:1198-1235 | replacing the top keeps order and exchanges exactly the old top for the new node |
| `TopK.EligibleSkip` | nvm.c:968-971 | jumping over the window of recently allocated segments passes over no candidate |
| `TopK.Replaced` | nvm.c:1027-1031 | displacing the top by a better candidate keeps the choice the best so far |
| `TopK.Take` | nvm.c:957-992 | one segment of the first loop |
| `TopK.Offer` | nvm.c:995-1032 | one segment of the second loop |
| `TopK.GetMaxK` | nvm.c:935-1042 | returns 0 exactly when k segments are eligible; then the ordered heap holds k of them, each once, and none left out has a smaller count; otherwise it holds all eligible ones |
| `TopK.GetMinK` | nvm.c:1044-1141 | the same for the k largest counts of unmapped SSD segments |
| `TopK.ChoiceIsBest` | nvm.c:935-1141 | what the choice means for the counts of segments inside and outside |
| `TopK.SegsDistinct` | nvm.c:935-1141 | no segment is chosen twice |
| `ExtentCache.PunchSound` | extent_cache.c:532-587 | cutting a range out of every extent leaves ordered, disjoint extents that agree with the changed block map |
| `ExtentCache.MergeAtSound` | extent_cache.c:419-487 | inserting an extent, merged with its neighbours or not, keeps them so |
| `ExtentCache.MergedSound` | f2fs.h:731-748 | two mergeable extents that agree with the block map join to one that does |
| `ExtentCache.UpdateIsRemembered` | extent_cache.c:489-610 | after an update whose allocation succeeds, every page of it is cached at its address |
| `ExtentCache.RankSplits` | extent_cache.c:95-160 | the lookup's neighbours are the ones that belong on either side of the missing page |
| `ExtentCache.ExtentTree.Descend` | extent_cache.c:33-84 | finds the extent of a page, or the place where one would be inserted, in a tree of any shape |
| `ExtentCache.ExtentTree.LookupRet` | extent_cache.c:95-160 | the hit, or previous, next and insertion point |
| `ExtentCache.ExtentTree.DropLargest` | extent_cache.c:311-320 | forgets the largest extent exactly when it meets the range |
| `ExtentCache.ExtentTree.TryUpdateLargest` | f2fs.h:751-760 | the largest extent becomes the node's exactly when that one is longer, and stays otherwise |
| `ExtentCache.ExtentTree.Release` | extent_cache.c:236-245 | removes one node and keeps the cached index right |
| `ExtentCache.ExtentTree.Insert` | extent_cache.c:457-487 | inserts at the place found before, unless allocation fails |
| `ExtentCache.ExtentTree.TryMerge` | extent_cache.c:419-455 | merges with the previous, the next or both exactly when blocks and pages join |
| `ExtentCache.ExtentTree.CutNode` | extent_cache.c:532-580 | keeps the left and right parts of an extent that are long enough, the right one unless allocation fails |
| `ExtentCache.ExtentTree.Invalidate` | extent_cache.c:518-587 | the loop leaves exactly the extents that the punch of the range leaves |
| `ExtentCache.ExtentTree.Remember` | extent_cache.c:589-596 | the new extent is merged or inserted |
| `ExtentCache.ExtentTree.UpdateRange` | extent_cache.c:489-610 | the nodes become the specified update of the old ones, and nothing cached contradicts the new block map |
| `ExtentCache.ExtentTree.FreeTree` | extent_cache.c:293-309 | ends with no nodes |
| `ExtentCache.ExtentTree.Lookup` | extent_cache.c:371-417 | a hit, wherever it comes from, gives the page's true address; a miss means nothing cached has the page |
| `ExtentCache.ExtentTree.Shrink` | extent_cache.c:612-686 | dropping any node keeps the cache true |
| `ExtentCache.ExtentTree.Drop` | extent_cache.c:704-718 | ends empty and with no largest extent |
| `ExtentCache.ExtentTree.Init` | extent_cache.c:323-359 | starts from the extent kept in the inode |
| `ExtentCache.RunOps` | extent_cache.c:371-718 | after any sequence of updates, lookups, shrinks and drops, with allocation free to fail, the extents are disjoint and ordered and none contradicts the block map |
| `Nat.JSetGet` | node.c:2640-2680 | writing a journal slot changes one nid's journal value and adds at most one entry |
| `Nat.LookupJournal` | segment.c:3333-3353 | the slot of a nid in the journal |
| `Nat.FlushOneOk` | node.c:2650-2680 | flushing one entry, to the journal or to a block, keeps the node manager's invariant and every nid's value |
| `Nat.RemoveOneOk` | node.c:2526-2565 | moving one journal entry into the cache keeps every nid's value |
| `Nat.DropJournalOk` | node.c:2526-2565 | once all of its entries are cached and dirty the journal can be emptied |
| `Nat.FlushIdsOk` | node.c:2668-2680 | the allocator's share of flushing one entry keeps free nids unused |
| `Nat.SetAddrOk` | node.c:347-408 | changing the address of a nid that is not in the free list changes that nid and no other; the node manager's invariant is kept exactly unless a nid whose release waits to be flushed becomes NEW_ADDR |
| `Nat.SetAddrSets` | node.c:347-408 | the counts of the dirty sets stay right exactly unless that happens |
| `Nat.RoomForSet` | node.c:2618-2645 | a set goes to the journal only if it fits, and to a block only if no entry of it is still in the journal |
| `Nat.FlushDone` | node.c:2693-2743 | after a flush, journal then block gives the cached value for every nid that has an address |
| `Nat.InsertFreeOk` | node.c:1913-1927 | list, tree and counters agree after an insertion |
| `Nat.RemoveIdOk` | node.c:1929-1939 | and after a removal |
| `Nat.MoveIdOk` | node.c:1941-1961 | and after a change of state |
| `Nat.BuildDone` | node.c:2114-2134 | once the journal has been read, no nid in use is left marked free |
| `Nat.FlushSteady` | node.c:2645-2680 | flushing a release makes one more nid vacant and available, any other flush neither |
| `Nat.RemoveSteady` | node.c:2547-2560 | a release that leaves the journal to be flushed again is neither vacant nor available meanwhile |
| `Nat.NodeManager.GetNodeInfo` | node.c:432-493 | cache, then journal, then current block gives the nid's one value; filling the cache changes no value |
| `Nat.NodeManager.EvictClean` | node.c:410-427 | dropping a clean entry changes no value |
| `Nat.NodeManager.SetNodeAddr` | node.c:347-408 | the nid has the new address, every other nid its old value; the invariant holds exactly unless a nid whose release waits to be flushed becomes NEW_ADDR |
| `Nat.NodeManager.RemoveNatsInJournal` | node.c:2526-2565 | the journal ends empty and no value changes |
| `Nat.NodeManager.FlushEntrySet` | node.c:2618-2688 | a set's entries are all clean afterwards, whether they went to the journal or to the block, and the emptied set is gone |
| `Nat.NodeManager.FlushNext` | node.c:2645-2680 | one entry of the set; the journal has a slot for it, so the check at line 2657 does not fire |
| `Nat.NodeManager.FlushNatEntries` | node.c:2693-2743 | nothing is left to flush, no value changes and the device holds what FlushDone says; the journal is emptied exactly as the counts before the call decide, and a nid waiting for its address keeps its device value exactly unless the journal is emptied of an entry that differs from the block's |
| `Nat.NodeManager.AllocNid` | node.c:2241-2279 | hands out a nid exactly when one is available and listed and no build is on; it is unused and in nobody else's hands, and the count keeps up |
| `Nat.NodeManager.AllocNidDone` | node.c:2284-2296 | the nid leaves the hands of its holder |
| `Nat.NodeManager.AllocNidFailed` | node.c:2301-2329 | an unused nid given back leaves the holder's hands and, memory permitting, is listed free again; nid 0 is ignored |
| `Nat.NodeManager.RemoveFreeNid` | node.c:2067-2083 | the nid is not free afterwards and nobody's holding changes |
| `Nat.NodeManager.AddFreeNid` | node.c:1988-2065 | marks only nids that the cache does not know to be in use |
| `Nat.NodeManager.ScanNatPage` | node.c:2085-2112 | reading a NAT block keeps what holds during a build |
| `Nat.NodeManager.ScanFreeNidBits` | node.c:2136-2166 | so does reading the bitmap of free nids |
| `Nat.NodeManager.ScanJournal` | node.c:2114-2134 | the journal's pass ends the build: free nids are unused |
| `Nat.NodeManager.BuildFreeNids` | node.c:2168-2227 | after a build, free nids are unused although in-use ones were marked free on the way |
| `NatRun.DoOp` | node.c:1913-2329 | each operation moves the node manager as the reference map and the set of held nids move, and answers as they say |
| `NatRun.RunOps` | node.c:347-2743 | over every run of lookups, evictions, allocations, address changes, recoveries, flushes and rebuilds, every lookup returns the address last set, every nid given out was unused and held by nobody, and the count of available nids is too high by the number of recoveries and by nothing else |
| `NatRun.AvailableIs` | f2fs.h:772 | available_nids is the number of vacant nids that nobody holds, and its drift |
| `NatRun.AllocRetry` | node.c:2241-2279 | with a right count the loop fails for want of nids exactly when none is left; with one too high and none left it ends after no number of rebuilds |
| `NatRun.CountTooHigh` | node.c:2430-2460 | the recovery of the only nid leaves one counted as available and none to be had |
| `NatRun.StaleEntryWins` | node.c:2430-2743 | a nid released, recovered and written out before a flush: the flush writes the block and leaves the old address in the journal |
| `NatRun.OldEntryReturns` | node.c:2526-2743 | a run of the code after which the device gives a freed and re-taken nid its old address |
| `NatAddress.FlipIsXor` | node.h:214-222 | the exclusive or with 512 is the arithmetic of the model |
| `NatAddress.NextIsOther` | node.h:191-222 | the next address of a NAT block is its other copy, and back |
| `NatAddress.CopiesApart` | node.h:191-232 | no two copies of any two NAT blocks share an address |
| `NodePath.GetNodePath` | node.c:561-633 | the arrays hold the one chain of nodes that leads to the block and the preorder number of each; -E2BIG exactly past the last block |
| `NodePath.PlaceUnique` | node.c:561-633 | a block has one place in the tree |
| `NodePath.PlaceOf` | node.c:561-633 | every block below the limit has a place |
| `NodePath.PlaceRange` | node.c:561-633 | places below a pointer lie in that pointer's range of blocks |
| `NodePath.NodeCovers` | node.c:561-633 | the blocks whose way leads through a node are one range |
| `NodePath.NumberingInjective` | node.h:318-340 | the node offsets are one to one over the nodes of a file |
| `NodePath.BlockIndexRoundTrip` | gc.c:575-593 | first block of the direct node plus slot gives the block index back, in 32 bits |
| `NodePath.IsDnodeExact` | node.h:341-357 | IS_DNODE holds of exactly the nodes that hold block addresses |
| `NodePath.SkipIsExact` | node.c:518-547 | rounding up past the level's base gives the end of the missing node's range |
| `NodePath.NextPageOffset` | node.c:518-547 | the result is the first page past the given one that does not need the missing node |
| `NodePath.KernelFits` | gc.c:575-593 | the constants for 4 KB blocks satisfy the size assumptions |
| `Xattr.EntryFields` | xattr.h:47-76 | name, value and size of a packed entry are where the accessors look |
| `Xattr.PutIsUpdate` | xattr.c:563-683 | removing the old entry and appending the new one is a map update |
| `Xattr.FindXattr` | xattr.c:204-218 | stops at the entry with the name, or at the terminator if there is none |
| `Xattr.FindInline` | xattr.c:220-243 | finds what a scan of the joined buffer finds as far as the inline area goes, and says where to go on |
| `Xattr.ScanOn` | xattr.c:287-342 | going on from there is one scan of the joined buffer |
| `Xattr.MemMove` | xattr.c:633-645 | the copying loop for overlapping ranges |
| `Xattr.WriteEntry` | xattr.c:649-663 | field by field, the bytes of the packed entry |
| `Xattr.RemoveEntry` | xattr.c:633-645 | memmove and memset leave exactly the other entries and zeros behind them |
| `Xattr.AppendEntry` | xattr.c:649-663 | the new entry follows the others, and zeros follow it |
| `Xattr.HasRoom` | xattr.c:616-631 | the space check, the old entry counted as free, is exact |
| `Xattr.Rejoin` | xattr.c:387-467 | splitting the buffer over inode and node block loses nothing |
| `Xattr.EditBuffer` | xattr.c:592-663 | flags, space and edit together: exact errors, and otherwise the packed update |
| `Xattr.XattrInode.ReadAll` | xattr.c:344-385 | the joined buffer holds all entries |
| `Xattr.XattrInode.WriteAll` | xattr.c:387-467 | the node block exists afterwards exactly when it is needed, and reading back gives the same entries |
| `Xattr.XattrInode.SetXattr` | xattr.c:563-683 | answers the error that the attributes determine, changes nothing on an error, and otherwise updates exactly the one name |
| `Xattr.XattrInode.Lookup` | xattr.c:287-342 | the staged lookup finds what the map holds; with an inline area of 4 to 24 bytes it finds nothing |
| `Xattr.XattrInode.GetXattr` | xattr.c:469-506 | the value or its size, with each of its errors |
| `Xattr.RunOps` | xattr.c:563-683 | any sequence of sets and removes leaves the finite map that the successful ones make |
| `Dir.WriteAdds` | dir.c:471-491 | writing an entry into free slots adds exactly it to what a scan of the block finds |
| `Dir.ClearRemoves` | dir.c:695-725 | clearing an entry's slots removes exactly it |
| `Dir.FindTarget` | dir.c:107-148 | the entry with this name and hash, or none; and the length of the longest run of free slots before it |
| `Dir.RoomForFilename` | dir.c:451-468 | the first place with enough clear slots in a row, or the end exactly if there is none |
| `Dir.UpdateDentry` | dir.c:471-491 | the entry is there, and nothing outside its slots changed |
| `Dir.ClearDentry` | dir.c:695-725 | the entry is gone, the others stay |
| `Dir.BucketsDouble` | dir.c:26-32 | every level has twice as many buckets as the one before, up to 2^30 |
| `Dir.DirBlockIndex` | dir.c:75-85 | the loop's sum, with its 32-bit products |
| `Dir.LevelEnd` | dir.c:75-85 | below level 31 a level ends where the next begins; from 31 on the 32-bit product is 0 |
| `Dir.BucketsDisjointExact` | dir.c:26-85 | two different buckets share a block exactly when they have the same number on two of the levels from 31 on |
| `Dir.CoversBucket` | dir.c:165-176 | the 32-bit block numbers of the lookup cover every block of the bucket that can exist |
| `Dir.AbsentEverywhere` | dir.c:203-242 | a name in none of its buckets below the depth is not in the directory |
| `Dir.HomeExact` | dir.c:203-242 | a block of the name's bucket on a level below 31 is visited by lookups exactly when that level is below the depth |
| `Dir.ScanBlocks` | dir.c:170-193 | finds the name in the blocks of a bucket, and room is seen exactly when a block is missing or has enough free slots in a row |
| `Dir.Directory.FindInLevel` | dir.c:150-201 | finds the name if it is in its bucket on this level, and leaves the hint exactly when it does not and there is room |
| `Dir.Directory.FindEntry` | dir.c:203-242 | finds exactly the names of the directory, at their places, and remembers the task exactly when it finds nothing |
| `Dir.Directory.FindRoom` | dir.c:536-551 | a block of the bucket with room, made if need be; a bucket with a block that can still be made never lacks room |
| `Dir.Directory.AddEntry` | dir.c:493-587 | one more name exactly when the name was not there and the hint is not above the depth; otherwise an entry that no placement explains; on failure no name changes |
| `Dir.Directory.AddAt` | dir.c:523-551 | one level: entered, given up or no room, with the exact effect of each |
| `Dir.Directory.AddLink` | dir.c:613-645 | a name that is there is refused, unless the task takes the shortcut: then, and only then, it gets a second entry that no placement explains |
| `Dir.Directory.DeleteEntry` | dir.c:695-741 | removes exactly the name, and an empty block may go |
| `Dir.Directory.Unlink` | dir.c:695-741 | lookup and deletion together |
| `Dir.RunOps` | dir.c:26-741 | any interleaving of lookups, links and removals by any tasks, each linking a name right after its own lookup missed it, leaves the map that the successful ones make, shortcuts included |
| `Dir.SecondEntry` | dir.c:613-645 | a run outside that rule that enters a name twice |
| `Recovery.ChainDistinct` | recovery.c:556-616 | a node chain that ends visits no block twice |
| `Recovery.SelfLoop` | recovery.c:297-307 | a block that names itself as the next starts no chain that ends |
| `Recovery.RollForward.Mark` | recovery.c:263-296 | one marked block: the inode's entry is added or moved on, or skipped if the inode is not there |
| `Recovery.RollForward.FindFsyncDnodes` | recovery.c:237-317 | accepts exactly the chains that end before the free-block count; every inode found at a marked block is listed once, with its last marked block and its last directory mark |
| `Recovery.RollForward.ReplayBlock` | recovery.c:583-608 | one block of pass two |
| `Recovery.RollForward.RecoverData` | recovery.c:556-616 | ends on every chain pass one accepted; replays exactly the blocks of each listed inode up to its last marked one, recovers each directory entry once, and leaves the list empty |
| `Recovery.RecoverFsyncData` | recovery.c:655-670 | barring errors from outside it succeeds exactly on chains that end in time, and the check for an empty list does not fire |
| `Shift.ArriveMoved` | file.c:1058-1082 | one block or hole arrives at its destination |
| `Shift.ArriveCopied` | file.c:1084-1107 | one page is copied, and its source becomes a hole |
| `Shift.File.ReadOut` | file.c:961-1007 | all addresses of the chunk are read, the movable ones leave the file, and a missing node is skipped whole |
| `Shift.File.CloneRun` | file.c:1046-1083 | a run of moved blocks and holes in one destination node |
| `Shift.File.Clone` | file.c:1032-1110 | the chunk arrives, even where source and destination overlap |
| `Shift.File.Exchange` | file.c:1112-1162 | chunk after chunk, the whole range arrives |
| `Shift.File.DoCollapse` | file.c:1164-1178 | the pages from the end of the range on move down |
| `Shift.File.CollapseRange` | file.c:1180-1228 | every page at or past the start holds what lay the collapsed length above it; nothing below moves |
| `Shift.File.InsertRange` | file.c:1417-1434 | every page at or past the start moves up by the inserted length, the gap is holes, nothing below moves |
| `Bio.EveryPageArrives` | nvm.c:260-309 | redirecting the start of a one-segment bio sends each page to the block the table assigns to it |
| `Bio.CrossingExact` | nvm.c:260-309 | two blocks across a segment border may share a bio exactly when neither is redirected or both are, to neighbouring segments |
| `Bio.NeverShared` | nvm.c:260-309 | distinct redirected SSD blocks never share an NVM block |
| `Bio.FillDummies` | data.c:265-285 | the number of dummy pages that fills the bio up to a multiple of the I/O size |
| `Bio.PadInside` | data.c:265-285 | where the I/O size divides the segment size and the first block of the main area, the dummy pages stay inside the segment |
| `Bio.EveryDummyArrives` | data.c:250-309 | and so, under the same two conditions, the whole bio, dummies included, goes where the table says block by block |
| `Bio.WriteIo.SubmitMerged` | data.c:309-324 | the bio goes out, filled up with dummy pages to a multiple of the I/O size, and no page is lost |
| `Bio.WriteIo.SubmitPage` | data.c:487-563 | every bio submitted covers consecutive blocks of one segment with one operation and is filled up to the I/O size; pages are taken in order, each once, or refused for alignment |
| `Bio.ReadPages` | data.c:1553-1592 | the read bios do the same and cover exactly the mapped pages |
| `MapBlocks.WalkDnode` | data.c:1079-1167 | the run grows block by block within a node and stops only where it must |
| `MapBlocks.FindDnode` | node.c:641-760 | the way down the node tree: where it ends early, every page before the next offset is a hole; an error exactly past the last block |
| `MapBlocks.MapFromNodes` | data.c:1050-1192 | a true run, no longer than asked and as long as it can be; the next offset skips only holes; the error exactly when the run reaches the end of the node tree |
| `MapBlocks.Map` | data.c:1011-1214 | the cache's answer is a true run too |
| `Victim.FindNext` | gc.c:368-377 | the next dirty segment, or none up to the limit |
| `Victim.NextDirty` | gc.c:368-377 | as long as not all dirty segments were seen there is a new one, once around the wrap |
| `Victim.Examine` | gc.c:388-409 | the best of those seen stays the best |
| `Victim.GetVictim` | gc.c:343-438 | looks at each dirty segment at most once, at all of them when the search is not capped, and returns one of least cost among those it may take, or none; uncapped, the cheapest of all, or none exactly if none beats the bound; what it looked at and where the next search begins are exact |
| `Victim.Closer` | gc.c:411-419 | a dirty segment that a search does not reach comes closer to where the next one begins |
| `Victim.SearchRounds` | gc.c:343-438 | as many searches in a row as there are segments, each capped as it likes, look at every segment that stays dirty |

## Left out

- byte_nvm.c and the byte-addressable checkpoint: unfinished in the source.
- Direct I/O redirection: it does not split at segment borders.
- `unset_mapping` in do_garbage_collect (gc.c:1045) as a content-preserving step; in the mapping invariant it is an unmap like any other.
- Termination of cold_to_ssd: its retry loop has no progress argument in the code.
- Cost-benefit mode of the victim scan, section units larger than one segment, and the early exits before the scan.
- Error paths of collapse and insert (the roll-back of addresses), quota and page-cache effects.
- f2fs_map_blocks in its creating, fiemap, bmap and precache modes, and m_next_extent.
- The scores themselves (calc_count and its rotating weights): the heaps take any score.
- Inline directories, readdir, listxattr, encryption of names: no harder claims than the modelled ones.
- do_recover_data and check_index_in_prev_nodes: replaying one block is a single event of the log.
- SIT, segment summaries, orphan inodes, quota, tracing, sysfs, ioctls, kernel threads.
- Nat.NodeManager.AllocNid: one try; NatRun.AllocRetry is the loop, with a bound on the rebuilds that may be any number.
- Xattr.XattrInode.GetXattr: as Xattr.XattrInode.Lookup, on the next line.
- Xattr.XattrInode.Lookup: without a node block and with an inline area smaller than the header the code reads past its buffer; that case is excluded.
- Recovery.RollForward.FindFsyncDnodes: errors from outside end the walk and nothing is said about the list then.
