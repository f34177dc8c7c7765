# A verified model of the deduplicating file system

The repository's core is a Berkeley fast file system with block deduplication. This project models the
parts of it that keep redundant structures in step, and proves what they promise over every run:

- **Cylinder groups** (`Runs`, `FragTables`, `FragMap`, `BlockSearch`, `GroupSums`, `CylGroups`,
  `GroupWrite`, `FileSystem`, `Averages`): the fragment bitmap is the only truth, and after every
  allocation, extension, release and cluster allocation the block and fragment counts, the run
  histogram, the cluster map, the cluster histogram, the largest-cluster hint and the superblock totals
  are the functions of the bitmap they should be. Searches are sound and complete.
- **Soft updates of inodes** (`AllocDirects`, `DepLists`, `InodeBooks`, `InodeDeps`) and of indirect
  blocks (`IndirDeps`): every disk image names only blocks whose contents and free map are on disk,
  memory is restored after each write, superseded space is freed exactly once and never while the disk
  still names it.
- **The journal** (`JournalRing`, `Journals`): live segments never share a disk block, segments complete
  in order, and nothing that recovery would read has been reclaimed.
- **Snapshots** (`Snapshots`): a frozen image never changes.
- **The block tree** (`BlockTree`, `Truncation`, `InodeTruncation`, `BlkCount`, `PathAllocation`): truncation is
  exact, and allocation along a path of indirect blocks is all or nothing.
- **Deduplication** (`Dedup`): reference counts equal references, and every pointer reads what was last
  written through it, over all runs whose writes satisfy `MayWrite`; for every write of `ffs_write`, that
  is exactly the condition under which it keeps both laws (`WriteExact`).
- **Trims** (`Trims`): every freed run is in exactly one trim request.

State that the source changes in place is a class here: `CylGroup` and `SuperBlock`, `Pointers` and
`InodeDep`, `IndirDep`, `Journal`, `Volume` (one for snapshots, one for deduplication), `File`,
`BlockMap` and `TrimQueue`. Each has a `Valid` predicate that every operation keeps; what follows from
it is stated as lemmas. A `panic` of the source is an `assert` that is proved never to fail, with the
message in a comment beside it. `Basics` holds what several parts share.

## How the model differs in form

- A byte of a bitmap is a row of eight booleans; the tables `fragtbl124` and `fragtbl8` are decision
  trees over those rows, and the masks `around` and `inside` are bit vectors. The byte cursor with which
  `ffs_clusteracct` walks the cluster map is a bit index.
- Addresses inside a cylinder group are (block, position) pairs; `FragNo` gives the fragment number.
  Fragments are the unit of space where the source counts 512-byte units.
- `ffs_hashalloc` visits groups in an order that depends only on the starting group; `ProbeOrder`
  computes that order and `HashAlloc` follows it. The doubling loop is a 32-bit one, so it ends for at most
  2^31 groups, which is exact (`RehashEnds`).
- The updates of the superblock's sums at the end of an operation are gathered in `PostSums`.
- Lists of dependencies are sequences. `Setup` contains the pointer store that follows the call of
  `softdep_setup_allocdirect`. `handle_written_inodeblock` retires into a private list before it flushes
  the waiting one and then joins the two; the model flushes first.
- A null segment pointer of the journal is the next sequence number. In `complete_jsegs` the write
  cursor is stored once after the loop; the model moves it with each segment, which nothing in between
  reads.
- Ghost state says what no field says: what the buffer should hold, what may be on disk, what is on
  disk, which blocks are safely written, which space is owned.
- Input and output, locks and sleeps are atomic steps; a disk write ends in success, or in failure with
  the image landed or not. Allocation results that come from elsewhere are parameters (`supply`, `pool`).
- A block holds one key's worth of contents (`fs_bsize` equal to `DDFS_BLOCKSIZE`, the default of the
  formatting tool), and a key stands for the contents it is the key of.  The key that `ffs_write` computes
  is a parameter beside the contents of the block, because it hashes from the offset of the write on
  (deduplicating-fs/src/ddfs_vnops.c:976): only for a write at the start of a block are the two the same.
- `dp->di_db[lbn]` is read and written without a bound (deduplicating-fs/src/ddfs_vnops.c:982).  The
  pointers of the volume are laid out as in memory, each inode's direct pointers followed by its three
  indirect ones, so block 12 of a file finds `di_ib[0]`; what lies behind those is a parameter (`stray`).  The repository
  lists deduplication of files with indirect blocks as unsupported (deduplicating-fs/README.md:51); the model
  shows what the code does with them (`IndirectTaken`).

Where the code and its comments disagree the code is followed: `ffs_balloc_ufs2` passes the indirect
block's buffer to the routine that clears a new data block (deduplicating-fs/src/ddfs_balloc.c:1057), and the
model takes that to leave the valid pointers in it alone; `ddtable_alloc` sets a flag in an entry whose other flags were never initialised
(deduplicating-fs/src/ddfs_util.c:190), and the model takes a new entry to have just that flag.

## Model

| member | source | states |
|---|---|---|
| `FragTables.TableIsRun` | deduplicating-fs/src/ddfs_tables.c:65-140 | for every block map and size, the table bit is set exactly when some block of the byte has a maximal free run of that size |
| `FragTables.MatchIsRun` | deduplicating-fs/src/ddfs_tables.c:46-51 | the masks match at a position exactly when a maximal run of that size starts there |
| `FragMap.IsBlock` | deduplicating-fs/src/ddfs_subr.c:446-470 | true exactly when all fragments of the block are free, for each fragment size |
| `FragMap.IsFreeBlock` | deduplicating-fs/src/ddfs_subr.c:475-495 | true exactly when no fragment of the block is free |
| `FragMap.SetBlock` | deduplicating-fs/src/ddfs_subr.c:528-551 | the block becomes free and no other block of the map changes |
| `FragMap.ClrBlock` | deduplicating-fs/src/ddfs_subr.c:500-523 | the block becomes allocated and no other block of the map changes |
| `FragMap.BlkMap` | deduplicating-fs/src/ddfs_fs.h:664-665 | the extracted bits are the row of the block |
| `BlockSearch.CountRuns` | deduplicating-fs/src/ddfs_subr.c:421-438 | the skipping scan over positions counts exactly the maximal runs of the size |
| `BlockSearch.FragAcct` | deduplicating-fs/src/ddfs_subr.c:414-439 | every class of the histogram changes by cnt times the number of maximal runs of that length in the block |
| `BlockSearch.Scanc` | deduplicating-fs/src/ddfs_alloc.c:2948-2951 | the first byte whose table entry meets the mask, or none |
| `BlockSearch.MapSearch` | deduplicating-fs/src/ddfs_alloc.c:2926-2985 | whenever some block has a maximal free run of exactly the size, the first one is found, going up from the byte the search starts at and once around the map; the rotor is its byte, and the panics are not reached |
| `GroupSums.ReleaseTotals` | deduplicating-fs/src/ddfs_alloc.c:2313-2350 | how releasing fragments changes the block, fragment and run totals of the map, with and without a block being reassembled |
| `GroupSums.TakeRunTotals` | deduplicating-fs/src/ddfs_alloc.c:1812-1817 | taking the front of a free run moves one run from its old length to what is left and changes no other count |
| `CylGroups.SuperBlock.Adjust` | deduplicating-fs/src/ddfs_alloc.c:2310-2350 | the totals of the superblock stay the sum over the groups |
| `CylGroups.CylGroup.Undisturbed` | deduplicating-fs/src/ddfs_alloc.c:1614-1665 | an operation on one group leaves every other group consistent with the superblock |
| `CylGroups.CylGroup.ScanForward` | deduplicating-fs/src/ddfs_subr.c:580-600 | the length of the run of free blocks after the given one, cut off at the number of classes |
| `CylGroups.CylGroup.ScanBackward` | deduplicating-fs/src/ddfs_subr.c:601-618 | the same before it |
| `CylGroups.CylGroup.ClusterAcct` | deduplicating-fs/src/ddfs_subr.c:558-640 | after one block changes, the cluster histogram is that of the cluster map, its last class meaning at least that long, and the hint is the largest class in use |
| `CylGroups.CylGroup.RefreshMax` | deduplicating-fs/src/ddfs_subr.c:632-639 | the hint is the largest class in use |
| `CylGroups.CylGroup.Release` | deduplicating-fs/src/ddfs_alloc.c:2292-2351 | releasing a block or fragments frees exactly those, with every summary of the group again the one of its map |
| `CylGroups.CylGroup.TakeFrags` | deduplicating-fs/src/ddfs_softdep.c:12260-12294 | the reverse, including a whole block broken up |
| `CylGroups.CylGroup.TakeRun` | deduplicating-fs/src/ddfs_alloc.c:1812-1820 | taking fragments from a run shorter than a block keeps every summary exact |
| `CylGroups.CylGroup.FreeTail` | deduplicating-fs/src/ddfs_alloc.c:1904-1915 | giving back the unneeded end of a block keeps every summary exact |
| `CylGroups.CylGroup.PostSums` | deduplicating-fs/src/ddfs_alloc.c:2310-2350 | the superblock's entry for the group and its total agree with the group again |
| `CylGroups.CylGroup.AllocCgBlk` | deduplicating-fs/src/ddfs_alloc.c:1848-1922 | the block at the preference if it is wholly free, and otherwise the next wholly free one around the map; exactly the wanted fragments of it are taken, and the rotors follow a search |
| `CylGroups.CylGroup.Preferred` | deduplicating-fs/src/ddfs_alloc.c:1868-1880 | an address of the group stands for itself, none for the block after the rotor, and one of another group for the start of this group's metadata or data zone, whichever it lies in |
| `CylGroups.CylGroup.FragmentSize` | deduplicating-fs/src/ddfs_alloc.c:1791-1793 | the smallest populated run length that suffices, or a whole block |
| `CylGroups.CylGroup.NoRoom` | deduplicating-fs/src/ddfs_alloc.c:1791-1800 | with no free block and no run class of the size or larger populated, no block holds that many adjacent free fragments |
| `CylGroups.CylGroup.AllocCg` | deduplicating-fs/src/ddfs_alloc.c:1751-1835 | returns 0 if and only if no block of the group holds that many adjacent free fragments; otherwise exactly such a range was taken, at the front of the first run of the smallest length that suffices, with a whole block broken up only if there is no other, and every summary is exact |
| `CylGroups.CylGroup.FragExtend` | deduplicating-fs/src/ddfs_alloc.c:1673-1743 | extends in place exactly when the fragments behind are free and in the same block, and otherwise changes nothing |
| `CylGroups.CylGroup.BlkFreeCg` | deduplicating-fs/src/ddfs_alloc.c:2229-2363 | exactly the named fragments become free, with every summary exact |
| `CylGroups.CylGroup.ClusterMapExact` | deduplicating-fs/src/ddfs_alloc.c:1993-2026 | a run in the cluster map is a run of wholly free blocks of the bitmap, and conversely |
| `CylGroups.CylGroup.NoCluster` | deduplicating-fs/src/ddfs_alloc.c:1961-1982 | empty classes from a length on mean that no cluster of that length exists |
| `CylGroups.CylGroup.MayHaveCluster` | deduplicating-fs/src/ddfs_alloc.c:1949-1982 | an early exit never hides a cluster, and one through the histogram makes the hint the largest class in use |
| `CylGroups.CylGroup.ClusterStart` | deduplicating-fs/src/ddfs_alloc.c:1994-1998 | the block that holds the preferred address, or the first one of the data zone for an address of another group |
| `CylGroups.CylGroup.TakeCluster` | deduplicating-fs/src/ddfs_alloc.c:2023-2036 | every block of the found cluster is allocated; the panics "map mismatch", "out of group" and "lost block" are not reached |
| `CylGroups.CylGroup.ClusterAlloc` | deduplicating-fs/src/ddfs_alloc.c:1931-2040 | the first cluster of the length from the starting block on was wholly free and is now allocated; for lengths within the histogram, 0 means there was none, and longer ones get 0 |
| `GroupWrite.RollbackAll` | deduplicating-fs/src/ddfs_softdep.c:11270-11328 | the buffer shows free, besides what was free, exactly the fragments bno + oldfrags to bno + frags - 1 of the records, and every summary is that of the rolled-back map |
| `GroupWrite.RollforwardAll` | deduplicating-fs/src/ddfs_softdep.c:12248-12295 | the pending allocations are back, whatever was reassembled meanwhile |
| `GroupWrite.WriteGroup` | deduplicating-fs/src/ddfs_softdep.c:11379-11384 | rolling all pending allocations back for a write and forward afterwards restores map, counts, run histogram, cluster map and cluster histogram exactly |
| `FileSystem.ProbeOrder` | deduplicating-fs/src/ddfs_alloc.c:1634-1664 | the given group, then those 1, 3, 7, ... after it until the step has reached the number of groups, then all from the second after it on |
| `FileSystem.ProbesAll` | deduplicating-fs/src/ddfs_alloc.c:1634-1664 | these three phases together visit every group, starting with the given one |
| `FileSystem.HashAlloc` | deduplicating-fs/src/ddfs_alloc.c:1614-1665 | returns 0 if and only if every group is full for the request; otherwise the first group of the probe order that has room changed, so the preferred one if it has any, by exactly the requested range, which is the best fit of that group |
| `FileSystem.RehashEnds` | deduplicating-fs/src/ddfs_alloc.c:1644-1651 | the 32-bit doubling loop reaches the number of groups if and only if that is at most 2^31 |
| `Averages.RoomyGroup` | deduplicating-fs/src/ddfs_alloc.c:1571-1594 | the first group from the start on, in circular order, with at least the average of free blocks; the final return of no group is not reached |
| `Averages.PreferredGroup` | deduplicating-fs/src/ddfs_alloc.c:1577-1594 | the same against the superblock's own total |
| `Averages.DirectoryGroup` | deduplicating-fs/src/ddfs_alloc.c:1338-1347 | the backstop finds the first group from the preferred one on with at least the average of free inodes |
| `AllocDirects.Detach` | deduplicating-fs/src/ddfs_softdep.c:10870-10903 | every record is marked busy and the dependency set has exactly their slots; the order, pointer and state panics are not reached |
| `AllocDirects.Rollback` | deduplicating-fs/src/ddfs_softdep.c:10870-10966 | the pointers in the buffer become exactly the committed ones; a pending fragment rollback ends the file with its size cut to match; otherwise the size is kept if it lies behind the last changed direct slot or there is none, and else ends after the last committed block before it; "lost dep" is not reached |
| `AllocDirects.ZeroAfter` | deduplicating-fs/src/ddfs_softdep.c:10919-10938 | zeroing what follows a rolled-back fragment loses no pointer that lacks a dependency |
| `AllocDirects.Rollforward` | deduplicating-fs/src/ddfs_softdep.c:11907-11972 | the pointers are again what they were before the rollback; the mismatch panics are not reached |
| `DepLists.AllocDirectMerge` | deduplicating-fs/src/ddfs_softdep.c:5812-5890 | the two pending frees are conserved; the superseded location is released at once if and only if it moved and the committed inode does not name it |
| `DepLists.MergeInodeLists` | deduplicating-fs/src/ddfs_softdep.c:12790-12818 | the merged list is sorted and undoes to the same committed pointers, from the newer ones; pending frees and queue are conserved |
| `DepLists.Enter` | deduplicating-fs/src/ddfs_softdep.c:5711-5742 | the list stays the sorted difference between the buffer and the in-core inode; frees are conserved |
| `DepLists.RetireFragLast` | deduplicating-fs/src/ddfs_softdep.c:11597-11626 | with no earlier pending fragment rollback, retiring a change leaves fragments last |
| `InodeBooks.DiskNotQueued` | deduplicating-fs/src/ddfs_softdep.c:7810-7860 | in every reachable state no block that the disk image names is queued to be freed, and its contents and free map were written |
| `InodeBooks.RetireSound` | deduplicating-fs/src/ddfs_softdep.c:11652-11663 | retiring a complete change that no earlier fragment rollback precedes keeps all invariants |
| `InodeBooks.MergeSound` | deduplicating-fs/src/ddfs_softdep.c:12728-12741 | moving the in-core changes to the buffer leaves what may be on disk as it was |
| `InodeBooks.FlushSound` | deduplicating-fs/src/ddfs_softdep.c:11739-11826 | once the disk names only committed blocks, freeing what waited for that is safe |
| `InodeBooks.NotDoneYet` | deduplicating-fs/src/ddfs_softdep.c:5610-5744 | a new or extended extent does not count as safely written |
| `InodeBooks.SafeWhenBoth` | deduplicating-fs/src/ddfs_softdep.c:11520-11523 | a new extent becomes safe exactly when both its contents and its free map were reported to be on disk, in whatever order and however often |
| `InodeDeps.Pointers.Setup` | deduplicating-fs/src/ddfs_softdep.c:5609-5744 | the in-core slot holds the new extent, each owned extent is still held or queued exactly once |
| `InodeDeps.Pointers.Update` | deduplicating-fs/src/ddfs_softdep.c:12721-12741 | the buffer holds the in-core pointers, the new list is empty, no complete change is left at the front, all invariants hold |
| `InodeDeps.Pointers.Complete` | deduplicating-fs/src/ddfs_softdep.c:11520-11523 | one more requirement of an allocation is met, an extent is safe exactly when both are, and exactly the changes that may retire do |
| `InodeDeps.Pointers.PartDone` | deduplicating-fs/src/ddfs_softdep.c:11586-11664 | exactly the run of complete changes from the given one retires, and none if an earlier one still rolls back to a fragment |
| `InodeDeps.Pointers.InitiateWrite` | deduplicating-fs/src/ddfs_softdep.c:10738-10967 | the image names exactly the committed blocks, and its size is the one the rollback rule gives, unchanged when nothing is pending |
| `InodeDeps.Pointers.InitiateEmpty` | deduplicating-fs/src/ddfs_softdep.c:10772-10789 | without its free map on disk the image is an empty inode |
| `InodeDeps.Pointers.HandleWritten` | deduplicating-fs/src/ddfs_softdep.c:11837-12098 | the buffer holds again what it held; the inode block stays dirty if and only if the image differed from it; the disk has the committed pointers, or an empty inode; what waited is freed and finished changes retire only after success |
| `InodeDeps.Pointers.Reclaim` | deduplicating-fs/src/ddfs_softdep.c:5968-6002 | the freed extent is exactly an allocated one, at its allocated size |
| `InodeDeps.InodeDep.InitiateWrite` | deduplicating-fs/src/ddfs_softdep.c:10738-10967 | data and extended pointers are rolled back together and the link count is the one the journal has |
| `InodeDeps.InodeDep.HandleWritten` | deduplicating-fs/src/ddfs_softdep.c:11891-12024 | the same for data and extended pointers together, with the link count |
| `InodeDeps.WriteRoundTrip` | deduplicating-fs/src/ddfs_softdep.c:10738-10967 | a write leaves the buffered inode as it was: pointers, sizes and link count; the disk has the committed pointers or an empty inode, and what waited for the committed ones is freed |
| `IndirDeps.SafeWhenBoth` | deduplicating-fs/src/ddfs_softdep.c:11670-11698 | a new block becomes safe exactly when both its contents and its free map were reported to be on disk, in whatever order and however often |
| `IndirDeps.ImageSafe` | deduplicating-fs/src/ddfs_softdep.c:11065-11098 | every image of an indirect block holds only pointers to blocks safely on disk |
| `IndirDeps.SaveSound` | deduplicating-fs/src/ddfs_softdep.c:11670-11698 | a completed pointer enters the safe copy without disturbing the others |
| `IndirDeps.DeferSound` | deduplicating-fs/src/ddfs_softdep.c:11680-11687 | during a write of the safe copy a completed record waits and all invariants hold |
| `IndirDeps.IndirDep.Setup` | deduplicating-fs/src/ddfs_softdep.c:6374-6424 | the buffer has the new pointer, the safe copy does not |
| `IndirDeps.IndirDep.Complete` | deduplicating-fs/src/ddfs_softdep.c:11670-11698 | a block is safe exactly when contents and free map are on disk; its record then moves to the write list, or waits for the current write |
| `IndirDeps.IndirDep.InitiateWrite` | deduplicating-fs/src/ddfs_softdep.c:11065-11098 | the image is the safe copy, or the block itself when nothing waits |
| `IndirDeps.IndirDep.HandleWritten` | deduplicating-fs/src/ddfs_softdep.c:12108-12202 | memory is restored; on success the records whose pointers the image had wait for the pointer to the indirect block, or are released if that is on disk, and those that finished during the write enter the next image; the block stays dirty if and only if the write failed, the image was the safe copy, or there are such records |
| `IndirDeps.IndirDep.ParentWritten` | deduplicating-fs/src/ddfs_softdep.c:6273-6293 | what waited for the parent pointer is released |
| `JournalRing.AllocBlocks` | deduplicating-fs/src/ddfs_softdep.c:2848-2877 | the run handed out is the next one of the ring, in one extent, at most as long as asked |
| `JournalRing.LiveDisjoint` | deduplicating-fs/src/ddfs_softdep.c:2848-2891 | runs in use never share a disk block, across extents and rounds |
| `JournalRing.Overrun` | deduplicating-fs/src/ddfs_softdep.c:2865-2876 | a granted run longer than the free space starts over on the oldest one in use |
| `JournalRing.FitsExact` | deduplicating-fs/src/ddfs_softdep.c:2848-2877 | with the next run added, no two runs share a disk block if and only if that run fits into the free space |
| `JournalRing.JoinedHas` | deduplicating-fs/src/ddfs_softdep.c:2903-2939 | adding blocks gives the ring exactly those blocks more |
| `Journals.RecoveryWindow` | deduplicating-fs/src/ddfs_softdep.c:4009-4035 | every segment with records from the oldest valid number of the latest completed segment on is intact, every segment memory depends on is in that window, and the same for any later segment |
| `Journals.CompleteSane` | deduplicating-fs/src/ddfs_softdep.c:4022-4029 | completing a segment never moves the oldest valid number backwards |
| `Journals.RequestExact` | deduplicating-fs/src/ddfs_softdep.c:3784-3806 | a fully granted request holds all pending records, or as many as a file system block does, and one device block less would not |
| `Journals.FreeSane` | deduplicating-fs/src/ddfs_softdep.c:4862-4887 | reclaiming keeps the recovery window intact |
| `Journals.Journal.AddBlocks` | deduplicating-fs/src/ddfs_softdep.c:2903-2939 | the journal has exactly those blocks more |
| `Journals.Journal.NewSegment` | deduplicating-fs/src/ddfs_softdep.c:3776-3818 | a segment is made exactly when there is something to write and space: numbered next, with the current oldest valid number, as many records as fit, one reference for each and one of its own, in the run that the ring grants, which was unused |
| `Journals.Journal.HandleWritten` | deduplicating-fs/src/ddfs_softdep.c:4041-4057 | the segment is marked, and exactly the ready segments from the next one on complete, in sequence order, whatever the order of writes; the front is reclaimed as far as that allows |
| `Journals.Journal.Synchronized` | deduplicating-fs/src/ddfs_softdep.c:3616-3654 | exactly the unmarked segments from the given one back to a marked one are marked, everything that is now ready completes, and the front is reclaimed |
| `Journals.Journal.CompleteJsegs` | deduplicating-fs/src/ddfs_softdep.c:4009-4035 | each completed segment loses its own reference and those of its plain records, the last one sets the oldest valid number, what that makes reclaimable at the front is gone, the next segment is not ready, and later ones are untouched |
| `Journals.Journal.FreeJsegs` | deduplicating-fs/src/ddfs_softdep.c:4854-4904 | exactly a reclaimable stretch of the front goes, nothing reclaimable is left there, the oldest segment is the first one still referenced, and lingering segments force a new one |
| `Journals.Journal.Release` | deduplicating-fs/src/ddfs_softdep.c:4910-4920 | the segment has one reference less, and the front is reclaimed as far as it can be |
| `Snapshots.Immutable` | deduplicating-fs/src/ddfs_snapshot.c:1764-1781 | what the invariant `Intact` says of one block of one snapshot: it reads as frozen, and a free block has a nonzero pointer; that every operation keeps `Intact` is in the rows below |
| `Snapshots.CopyForAll` | deduplicating-fs/src/ddfs_snapshot.c:2374-2477 | the k-th snapshot that reads the block in place gets its copy in the k-th block handed out; the sweep fails if and only if there are more such snapshots than blocks; images stay intact, "bad copy block" and "inconsistent block type" are not reached |
| `Snapshots.ClaimForOne` | deduplicating-fs/src/ddfs_snapshot.c:1812-1922 | a whole block is claimed, by the first snapshot that reads it in place, if and only if there is one; otherwise none has anything to do with it |
| `Snapshots.Hinted` | deduplicating-fs/src/ddfs_snapshot.c:2331-2343 | the search finds the block if and only if it is in the hint list |
| `Snapshots.Volume.Write` | deduplicating-fs/src/ddfs_snapshot.c:2292-2508 | the write fails if and only if more snapshots read the block in place than blocks for copies can be had, so never without a snapshot; otherwise the block has the new contents; nothing but the copies changes besides, and all frozen images stay as they were |
| `Snapshots.Volume.FreeBlock` | deduplicating-fs/src/ddfs_snapshot.c:1882-1922 | the block becomes free exactly when no snapshot reads it in place, and otherwise belongs to the first that does |
| `Snapshots.Volume.FreeFrags` | deduplicating-fs/src/ddfs_snapshot.c:1923-1990 | fragments become free only after every snapshot has its copy, which fails under the same condition |
| `BlockTree.LbnOffset` | deduplicating-fs/src/ddfs_fs.h:754-762 | the loop computes the number of data blocks under a pointer |
| `BlockTree.PruneConserves` | deduplicating-fs/src/ddfs_inode.c:692-811 | what is kept of a tree and what is freed of it add up, in any measure of runs |
| `BlockTree.PruneAt` | deduplicating-fs/src/ddfs_inode.c:692-811 | at every height exactly the pointers whose range starts at or before the last block are kept |
| `Truncation.LevelDecodes` | deduplicating-fs/src/ddfs_fs.h:733-752 | the negative number of an indirect block decodes to its level |
| `Truncation.ChildLbn` | deduplicating-fs/src/ddfs_inode.c:770-773 | the number passed down for each child is that of the next level |
| `Truncation.IndirTrunc` | deduplicating-fs/src/ddfs_inode.c:692-811 | the freed runs are exactly those past the last block, the pointers on disk are those of the pruned tree, no other block changes, the count is exact, at every level |
| `Truncation.TruncIndirs` | deduplicating-fs/src/ddfs_inode.c:563-587 | the three indirect blocks are cut or freed as the last block demands, stopping at the first that is kept |
| `InodeTruncation.BlockHolds` | deduplicating-fs/src/ddfs_fs.h:712-716 | a direct block has exactly the fragments that hold its bytes of a file of that size, and the blocks behind the direct ones are whole |
| `InodeTruncation.LastShrinks` | deduplicating-fs/src/ddfs_inode.c:614-629 | the last block of the shorter file is not empty and was at least as large before, so "newspace" is not reached |
| `InodeTruncation.SizesShrink` | deduplicating-fs/src/ddfs_fs.h:712-716 | by the size rule of blocks, a shorter file has the same blocks before its last one, which did not grow and is not empty |
| `InodeTruncation.TruncDirects` | deduplicating-fs/src/ddfs_inode.c:589-641 | direct blocks past the end and the spare fragments of the last one are freed, and nothing else |
| `InodeTruncation.TruncateConserves` | deduplicating-fs/src/ddfs_inode.c:515-641 | every fragment of the file is kept or freed exactly as often as before |
| `InodeTruncation.TruncateMaps` | deduplicating-fs/src/ddfs_inode.c:515-605 | in terms of file blocks, every mapping up to the last block is kept and every later one is gone |
| `InodeTruncation.File.Truncate` | deduplicating-fs/src/ddfs_inode.c:515-675 | the inode, its indirect blocks and its space count are those of the shorter file, and every fragment is held or freed exactly as often as it was held; the configuration panics are not reached |
| `BlkCount.Strip` | deduplicating-fs/src/ddfs_softdep.c:6808-6823 | a dense tree is its lowest indirect blocks plus the dense tree above them |
| `BlkCount.CountBlocks` | deduplicating-fs/src/ddfs_softdep.c:6803-6823 | the loop ends and counts data plus indirect blocks of the dense tree, for every length |
| `BlkCount.ThreeTrees` | deduplicating-fs/src/ddfs_softdep.c:6811-6815 | within three levels the count is that of a single, a double and a triple tree |
| `BlkCount.BlkCount` | deduplicating-fs/src/ddfs_softdep.c:6796-6834 | what a truncation may release, nothing when holes make the estimate too large |
| `PathAllocation.InsertElsewhere` | deduplicating-fs/src/ddfs_balloc.c:914-1001 | adding a block on a path changes where no other path leads |
| `PathAllocation.GrowStep` | deduplicating-fs/src/ddfs_balloc.c:931-1000 | each added indirect block keeps the tree on disk, the other mappings, and the possibility to undo all |
| `PathAllocation.Unwind` | deduplicating-fs/src/ddfs_balloc.c:1109-1205 | the failure path restores pointers, indirect blocks, free blocks and charge exactly |
| `PathAllocation.Balloc` | deduplicating-fs/src/ddfs_balloc.c:852-1107 | success adds exactly the missing blocks of the path, which are the blocks handed out in their order, left the free map and were charged, and changes no other mapping; failure changes nothing. It succeeds if and only if every missing block is granted and the indirect ones are written, where soft updates allow one refusal below the first indirect block |
| `PathAllocation.Decided` | deduplicating-fs/src/ddfs_balloc.c:931-978 | at each step of a call the next answer decides whether the condition for success still can be met, or fails it |
| `PathAllocation.OneBlockMapped` | deduplicating-fs/src/ddfs_balloc.c:852-1107 | in terms of block numbers, the requested block is mapped and every other one as before |
| `PathAllocation.BlockMap.Allocate` | deduplicating-fs/src/ddfs_balloc.c:852-1107 | the same on an inode that is changed in place, over runs of calls, with the same condition for success: its three trees stay on disk and apart, none of their blocks is free, and the charge is that of all of them |
| `PathAllocation.MappedConsistent` | deduplicating-fs/src/ddfs_balloc.c:914-1001 | a block added to one tree leaves the others as they were and shares nothing with them |
| `Dedup.Locate` | deduplicating-fs/src/ddfs_util.c:108-174 | the first active entry that matches, or none; and the first unused entry exactly if there is one before it |
| `Dedup.Alloc` | deduplicating-fs/src/ddfs_util.c:176-210 | a known key gains a reference and resolves to its block, a new key gets an entry with one |
| `Dedup.Unref` | deduplicating-fs/src/ddfs_util.c:212-240 | the count that is left, -1 exactly without an entry, and the entry goes with its last reference |
| `Dedup.BlkFree` | deduplicating-fs/src/ddfs_alloc.c:2640-2652 | a block reaches the free map exactly when no pointer leads to it any more |
| `Dedup.WriteBlock` | deduplicating-fs/src/ddfs_vnops.c:969-994 | the table, pointers, free blocks and contents after a write are those of `Rewritten`, and both equivalences hold of them |
| `Dedup.ShareExact` | deduplicating-fs/src/ddfs_vnops.c:977-993 | a write conserves references, leaves every other pointer alone and leads to the block recorded under its key if and only if the word read is the pointer of the block, the block is not in the table or its new contents are known at another block, and the count has not reached 65535 |
| `Dedup.WriteExact` | deduplicating-fs/src/ddfs_vnops.c:969-994 | besides, every pointer reads what was last written through it and every entry is true, if and only if moreover the key is that of the data and no other pointer shares the block |
| `Dedup.RewriteLeaks` | deduplicating-fs/src/ddfs_vnops.c:981-983 | on a new volume: writing a block twice with the same contents leaves a count of 2 for its one pointer |
| `Dedup.IndirectTaken` | deduplicating-fs/src/ddfs_vnops.c:982-991 | past the direct pointers the write takes an indirect block for the data block: it enters the table under the key of the data, or its pointer is replaced and it is freed |
| `Dedup.TwelfthBlockLost` | deduplicating-fs/src/ddfs_vnops.c:982-983 | an input for that: block 12 of a file on a new volume |
| `Dedup.SharedOverwritten` | deduplicating-fs/src/ddfs_vnops.c:972-991 | writing known contents to a block that others share changes what the others read and leaves a false entry, although references are conserved |
| `Dedup.Volume.Free` | deduplicating-fs/src/ddfs_alloc.c:2640-2652 | the block is freed exactly with its last pointer |
| `Dedup.Volume.Write` | deduplicating-fs/src/ddfs_vnops.c:969-994 | the laws of counts and of contents hold again, and the pointer leads to the block recorded for what was written |
| `Trims.ChainCovers` | deduplicating-fs/src/ddfs_alloc.c:2716-2736 | the range of a request is exactly the disjoint union of its runs |
| `Trims.AdjoinsExact` | deduplicating-fs/src/ddfs_alloc.c:2724-2736 | a run joins the open request if and only if the two together are one range without overlap |
| `Trims.JoinedProper` | deduplicating-fs/src/ddfs_alloc.c:2703-2736 | a run joined at either end keeps range and list in step |
| `Trims.TrimQueue.Start` | deduplicating-fs/src/ddfs_alloc.c:2559-2575 | an empty request under a new key |
| `Trims.TrimQueue.Free` | deduplicating-fs/src/ddfs_alloc.c:2675-2741 | an adjoining run joins the open request of its key at that end, any other run sends the request off and starts a new one; every freed run is in exactly one request |
| `Trims.TrimQueue.Finish` | deduplicating-fs/src/ddfs_alloc.c:2580-2619 | afterwards every run freed under the key is in exactly one issued request |
| `Trims.TrimQueue.TrimDone` | deduplicating-fs/src/ddfs_alloc.c:2433-2456 | the runs of a finished request are freed once and the space under way is exact |

## Left out

- Buffer cache, vnode and mount calls, quotas, checksums, hashing and debug output: each operation is one atomic step and reads succeed.
- Soft-update dependencies of directories, the unlinked-inode list, work scheduling, and truncation under soft updates (`softdep_setup_freeblocks`, `ir_trunc`).
- Block relocation (`ffs_reallocblks_ufs2`): for that reason an indirect pointer with a dependency always starts empty.
- Rollback of a cylinder group on a stale background copy, where only some fragments of a record are still allocated.
- Creation, mounting and removal of snapshots: `Take` and `Drop` state what those must provide.
- The preallocated hint list of snapshots: it is assumed to name only blocks every snapshot has copied.
- The allocation of the last block and the clearing of its end that `ffs_truncate` does before it shortens a file.
- The direct-block and fragment part of `ffs_balloc_ufs2`, inode allocation (`ffs_nodealloccg`, `ffs_vfree`), and the placement policy of `ffs_dirpref` before its backstop.
- The UFS1 variants, which repeat the UFS2 functions with narrower pointers.
- `CylGroups.CylGroup.ClusterAlloc`: 0 means that there is no cluster only for lengths up to `fs_contigsumsize`; longer ones always get 0, because the source returns at once for them.
- `CylGroups.CylGroup.BlkFreeCg`: freeing what is already free is a precondition here, since the source panics.
- `Journals.Journal.NewSegment`: that what the ring grants fits into the free space is required, as flow control elsewhere promises; `JournalRing.FitsExact` shows that this is exact.
- `Dedup.WriteBlock`: an unused entry is required for a new key, since the source has no path for a full table; and the buffer of an overwritten block is taken to reach the disk before the block is used for something else.
