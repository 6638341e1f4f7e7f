# The metadata engine of F2FS, verified

This project models the on-disk metadata engine of the F2FS file system in
`F2FS/f2fs` and proves what it is for: no block is handed out that live data or
the last checkpoint still need, every page of a file reads as it was last written
whatever happens to the file and elsewhere, truncation is exact, the node address
table and the segment table survive caching, journals, double buffering and
remounting, a crash during a checkpoint leaves a whole checkpoint with whole tables,
what is mounted after any crash is fit to go on with, and directories and extended
attributes are maps, down to the bytes that hold them.

Structures that the source changes in place are classes whose methods follow the
source's functions and change fields; every such method is proved against a
function or predicate on values, and the properties are lemmas about those. Sizes
and geometry (blocks per segment, node ids per block, journal lengths, page sizes)
are parameters with the few inequalities each proof needs, so the results hold for
all of them. With the Dafny verifier: `dafny verify dfyconfig.toml`.

| module | what it models |
|---|---|
| `Wrappers` | optional values |
| `Bitmap`, `BitmapWords` | bitmaps as bit sequences; the bit and word routines of the source refine them |
| `FreeSegmap` | free segment and section maps, `get_new_segment` |
| `SegmentModel`, `SegmentProofs`, `SegmentRuns` | the segment manager as a state machine, its invariant, safety over runs, crashes and mounts |
| `SegmentManagement` | the segment manager as a class, with victim search and both allocation modes |
| `CrashMount` | the manager a mount builds after a crash, and runs over any number of mounts |
| `SummaryJournal`, `SitModel`, `SitManagement`, `SitMount` | segment information table: journal, double-buffered pages, flush, mount |
| `Addressing`, `FileTree` | node addressing, look-up and truncation of the node tree |
| `ExtentCache` | the cached extent of a file against its tree |
| `FileBlocks` | node tree, blocks in the segment manager and extent of a file, in step |
| `FileRuns` | the contents of a file over every run, and after a crash |
| `NatModel`, `NatManagement` | node address table: cache, journal, double-buffered pages, flush |
| `CheckpointPack`, `CompactSummaries` | layout of checkpoint packs, choice at mount, crashes; compacted summaries |
| `CheckpointTables` | checkpoint packs with the node and segment tables they select, over runs of crashes |
| `Recovery` | roll-forward recovery in two passes |
| `DirLevels`, `Directory` | hashed directory levels and dentry blocks |
| `Xattr` | the bytes of extended attributes |

## Where the source does not do what it promises

Each point is a lemma, or a condition in a contract, about the code as it is.

- Truncation runs into the `BUG()` of `get_node_path` for a size inside the last direct
  node of the tree, since the index it goes on with is the capacity itself
  (`F2FS/f2fs/file.c:476-487`), exactly if the file has that node; and for a size of the
  whole capacity, which `s_maxbytes` admits for an inode with inline attributes
  (`FileTree.FileNodes.TruncateBlocks`, `FileTree.StopsInLastLeaf`,
  `FileTree.StopsAtEndOfTree`).
- From an offset inside a word, `__find_rev_next_bit` looks at the rest of one byte of
  that word only and misses the bits behind it; `add_discard_addrs` goes on from such
  offsets (`F2FS/f2fs/segment.c:96-110`, `F2FS/f2fs/segment.c:500`,
  `BitmapWords.RightIfAllSeen`, `BitmapWords.SearchSetMisses`).
- The limit on orphan inodes leaves room for three payload blocks at most: with four
  or more, a checkpoint pack can outgrow its segment and destroy the other pack, or
  write behind the checkpoint area (`F2FS/f2fs/checkpoint.c:1052-1053`,
  `CheckpointPack.AllPacksFit`, `CheckpointPack.LongPackDestroys`,
  `CheckpointPack.LongPackSeemsWhole`, `CheckpointPack.LongPackLeavesArea`).
- `recover_orphan_inodes` reads as many blocks too many as there are payload blocks
  (`F2FS/f2fs/checkpoint.c:425-454`, `CheckpointPack.CheckpointArea.RecoverOrphanInodes`).
- The levels of a directory outgrow the node tree before their number is exhausted: an
  insertion, or a look-up of a name that is not there, that comes to a block at or
  beyond the capacity runs into the `BUG()` of `get_node_path`. Without extra levels
  this takes 28 levels; with `i_dir_level` 30 the first name can do it
  (`F2FS/f2fs/dir.c:59-78`, `Directory.Directory.AddLink`,
  `Directory.Directory.FindEntry`, `DirLevels.DepthLimit`, `Directory.FirstNameStops`).
- `write_all_xattrs` writes the inline area before it asks for the node block: when
  that is refused, the attributes are no longer what they were in all cases but one
  (`F2FS/f2fs/xattr.c:341-385`, `Xattr.RefusalLeavesNoTrace`).

Other conditions are exact but cannot fail in a mounted file system, because callers or
the layout exclude the inputs:

- The tail mask of `__find_rev_next_zero_bit` is not reversed within a byte. The search
  is right exactly for sizes that end on a byte, and no caller uses another
  (`F2FS/f2fs/segment.c:174-180`, `BitmapWords.RightForWholeBytes`).
- `update_extent_cache` takes NULL_ADDR for the block in front of an extent that starts
  in block 1, which lies before the main area (`F2FS/f2fs/data.c:355-361`,
  `ExtentCache.UpdateKeepsInv`, `ExtentCache.NullIsMerged`).
- A flush of the node address table would store an older entry for a node id that still
  has NEW_ADDR, if it spills the journal; `block_operations` writes all node pages before
  (`F2FS/f2fs/node.c:1796-1828`, `NatModel.FlushForgets`,
  `NatManagement.SpillLosesNewAddr`).
- The level starts of a directory wrap around at level 31, which lies beyond the node
  tree (`DirLevels.LevelsShare`, `DirLevels.BucketsApart`).

## Model

| member | source | states |
|---|---|---|
| `BitmapWords.TestBit` | F2FS/f2fs/f2fs.h:1014-1021 | reads bit nr of the bit sequence that the byte buffer stands for, most significant bit of a byte first |
| `BitmapWords.SetBit` | F2FS/f2fs/f2fs.h:1023-1033 | sets exactly bit nr of that sequence, every other bit stays, and returns what the bit was |
| `BitmapWords.ClearBit` | F2FS/f2fs/f2fs.h:1035-1045 | clears exactly bit nr, every other bit stays, and returns what the bit was |
| `BitmapWords.WordBitIsByteTest` | F2FS/f2fs/f2fs.h:1014-1021 | bit nr of a little-endian 64-bit word is the byte test applied to byte nr / 8 of the word |
| `BitmapWords.ReverseFfs` | F2FS/f2fs/segment.c:40-69 | the least set bit of a word in bitmap order, found by the shifts of the source, for every non-zero word |
| `BitmapWords.ReverseFfz` | F2FS/f2fs/segment.c:29 | the least clear bit of a word in bitmap order, for every word that is not all ones |
| `BitmapWords.FindRevNextZeroBit` | F2FS/f2fs/segment.c:130-180 | answers the first bit that shows clear under the start and tail masks of the source, else size, for all buffers, sizes and offsets; for a size that ends on a byte this is the least clear bit at or after offset |
| `BitmapWords.RightForWholeBytes` | F2FS/f2fs/segment.c:130-180 | for every buffer length and every size: the answer is the least clear bit at or after the offset, on all buffers and offsets, exactly if the size ends on a byte |
| `BitmapWords.SearchOfBits` | F2FS/f2fs/segment.c:130-180 | for every other size the input that is answered wrongly: zeros, searched from the start of the last byte |
| `BitmapWords.FindRevNextBit` | F2FS/f2fs/segment.c:79-128 | answers the first bit that shows set under the masks of the source, else size, for all buffers, sizes and offsets |
| `BitmapWords.RightIfAllSeen` | F2FS/f2fs/segment.c:79-128 | for every size and every offset: the answer is the least set bit at or after the offset, on all buffers, exactly if the size ends on a byte and the offset starts a word or has no bit of the buffer behind its byte in its word, or the buffer ends in a byte of seven bits and the offset lies in it behind its first bit |
| `BitmapWords.SearchSetMisses` | F2FS/f2fs/segment.c:79-128 | for every other offset a buffer with one bit that is answered wrongly: the bit is missed, or found behind the size |
| `FreeSegmap.TakeKeepsOk` | F2FS/f2fs/segment.h:384-396 | taking a segment sets its bit and no other, and section map and both counters still agree with the segment map |
| `FreeSegmap.GiveKeepsOk` | F2FS/f2fs/segment.h:362-382 | giving a segment back clears its bit and no other, and section map and both counters still agree with the segment map |
| `FreeSegmap.FreeSegmapInfo.SetFree` | F2FS/f2fs/segment.h:332-349 | frees a segment in use; the new map and counters are those of giving it back |
| `FreeSegmap.FreeSegmapInfo.SetInuse` | F2FS/f2fs/segment.h:351-360 | takes a free segment; the new map and counters are those of taking it |
| `FreeSegmap.FreeSegmapInfo.SetTestAndFree` | F2FS/f2fs/segment.h:362-382 | the same whether or not the segment was in use |
| `FreeSegmap.FreeSegmapInfo.SetTestAndInuse` | F2FS/f2fs/segment.h:384-396 | the same whether or not the segment was free |
| `FreeSegmap.ChosenSegmentIsFree` | F2FS/f2fs/segment.c:781-868 | for every hint, direction, zone occupancy and free map with a free section (or a free next segment in the same section) the segment chosen was free, and stays in the section when that is what the caller asked for |
| `FreeSegmap.ChosenSection` | F2FS/f2fs/segment.c:781-868 | which section is chosen: the first free one from the current one on, or if there is none the very first one, or the nearest one before for a search to the left; it is given up for the same search from the next zone on exactly if another log is in its zone and another zone can be tried; a search that has turned to the left never gives it up |
| `FreeSegmap.ChosenSegment` | F2FS/f2fs/segment.c:781-868 | the next free segment of the section of the current one, exactly if the section has one and no new section is wanted, else the first segment of the section chosen |
| `FreeSegmap.FreeSegmapInfo.GetNewSegment` | F2FS/f2fs/segment.c:781-868 | the search with its gotos and retry terminates, returns the chosen segment, which was free, and leaves both maps and both counters as taking that segment does |
| `SegmentManagement.SegmentManager.LocateDirty` | F2FS/f2fs/segment.c:354-377 | lists a segment unless it is an open log, with the per-type list and the counters |
| `SegmentManagement.SegmentManager.RemoveDirty` | F2FS/f2fs/segment.c:379-398 | takes a segment off the lists, and its section off the victim map once the section is empty |
| `SegmentManagement.SegmentManager.LocateDirtySegment` | F2FS/f2fs/segment.c:405-428 | reclassifies a segment as prefree, dirty or neither from its valid count |
| `SegmentManagement.SegmentManager.MarkSitEntryDirty` | F2FS/f2fs/segment.c:621-631 | one bit and its counter |
| `SegmentManagement.SegmentManager.UpdateSitEntry` | F2FS/f2fs/segment.c:642-679 | one block becomes valid or invalid: valid count, both bitmaps involved, ckpt_valid_blocks, dirty mark and section count move together |
| `SegmentProofs.UpdateEntryOk` | F2FS/f2fs/segment.c:642-679 | one bit of the current map changes, and the time; valid_blocks keeps counting the current map and ckpt_valid_blocks the union of current and checkpoint map |
| `SegmentManagement.SegmentManager.RefreshSitEntry` | F2FS/f2fs/segment.c:681-689 | the new block becomes valid and the old one, if any, invalid, and both segments are reclassified |
| `SegmentProofs.RefreshMaps` | F2FS/f2fs/segment.c:681-689 | no validity bit but those of the two blocks changes, and no checkpoint bit at all |
| `SegmentManagement.SegmentManager.InvalidateBlocks` | F2FS/f2fs/segment.c:691-709 | the block becomes invalid and its segment is reclassified |
| `SegmentManagement.SegmentManager.AddSumEntry` | F2FS/f2fs/segment.c:714-721 | records the owner of the block handed out; the log goes on to the next offset, or in a reused segment to the first later one that is clear in both maps |
| `SegmentManagement.SegmentManager.NextFreeBlkoff` | F2FS/f2fs/segment.c:914-930 | the first offset at or after start that is clear in both maps, else blocks_per_seg |
| `SegmentManagement.SegmentManager.ResetCurseg` | F2FS/f2fs/segment.c:870-887 | the log moves to a segment, whose entry takes the type of the log |
| `SegmentManagement.SegmentManager.NewCurseg` | F2FS/f2fs/segment.c:893-912 | saves the summary, and moves the log to the start of a segment that was free, found in the direction of the log type and with the zones of all logs |
| `SegmentManagement.SegmentManager.ChangeCurseg` | F2FS/f2fs/segment.c:951-978 | saves the summary, moves the log to the first unneeded offset of a reused segment, takes it off the dirty lists and reloads its summary |
| `SegmentProofs.EligibleIsDirty` | F2FS/f2fs/segment.c:951-978 | an eligible victim is no open log and no prefree segment, is partly valid and of the right kind, and the offset the log lands on is below blocks_per_seg |
| `SegmentManagement.SegmentManager.GetVictim` | F2FS/f2fs/gc.c:258-337 | the SSR scan terminates; it finds a victim exactly if some candidate has an unneeded block, the victim is a candidate with one, and its union of maps is globally least when nr_dirty is at most max_victim_search; where the search gives up, none between its start and its end is cheaper |
| `SegmentManagement.SegmentManager.IsConsidered` | F2FS/f2fs/segment.h:705-710 | the sections skipped by the scan |
| `SegmentManagement.SegmentManager.GetSsrSegment` | F2FS/f2fs/segment.c:981-996 | finds an eligible segment exactly if one of the lists the log may search has a victim, and on the first list that has one |
| `SegmentManagement.SegmentManager.AllocateSegmentByDefault` | F2FS/f2fs/segment.c:1003-1022 | an old segment is reused exactly if no new section is wanted, the log is not that of warm nodes, it was not filled in order with the next segment free, free sections are short by the formula of need_SSR, and a list the log may search has a victim; else the log gets the new segment of the search; the state is that of switching the log by this choice |
| `SegmentManagement.SegmentManager.AllocateDataBlock` | F2FS/f2fs/segment.c:1142-1182 | from every state that satisfies the invariant, the block handed out is clear both in the current valid map and in that of the last checkpoint; afterwards an LFS log stands exactly one offset further, a reused one at the first later offset clear in both maps, and if there is none the log is at the start of a free segment or at the first such offset of a reused one |
| `SegmentProofs.AllocateStands` | F2FS/f2fs/segment.c:1142-1182 | the same as a statement about states |
| `SegmentRuns.BlocksInOrder` | F2FS/f2fs/segment.c:937-946 | over every run without a move of the log, the blocks an LFS log hands out in a segment follow one on the other, whatever is written, removed, moved and checkpointed meanwhile |
| `SegmentManagement.SegmentManager.WriteBlock` | F2FS/f2fs/segment.c:1381-1414 | an out-of-place write with the slot update of the caller keeps the whole invariant, and takes a block nobody needs |
| `SegmentProofs.WriteKeepsInv` | F2FS/f2fs/segment.c:893-978 | the same as a statement about states: counters, classification, room in every log, and the reverse map in the summaries being the inverse of the forward map are all kept, across log switches and SSR reuse; no checkpoint map changes |
| `SegmentProofs.SlotsInjective` | F2FS/f2fs/gc.c:496-526 | no two owners hold the same block |
| `SegmentManagement.SegmentManager.DropBlock` | F2FS/f2fs/segment.c:691-709 | giving up a block keeps the whole invariant |
| `SegmentRuns.DropKeepsInv` | F2FS/f2fs/segment.c:691-709 | the same as a statement about states; no checkpoint map changes |
| `SegmentManagement.SegmentManager.MoveToNewSegment` | F2FS/f2fs/segment.c:1024-1037 | one data log moves to the first segment of a section of which no segment was in use, the old segment is reclassified, and the invariant is kept |
| `SegmentManagement.SegmentManager.AllocateNewSegments` | F2FS/f2fs/segment.c:1024-1037 | all three data logs move, one after the other, each to a section that was free in the state before its move |
| `SegmentRuns.MoveLogKeepsInv` | F2FS/f2fs/segment.c:1024-1037 | the move keeps the invariant, every valid block and every checkpoint map |
| `SegmentManagement.SegmentManager.SetPrefreeAsFree` | F2FS/f2fs/segment.c:535-544 | exactly the prefree segments become free |
| `SegmentManagement.SegmentManager.ClearPrefree` | F2FS/f2fs/segment.c:575-619 | the prefree list is cleared run by run, its counter goes to 0, and no other list changes |
| `SegmentRuns.CheckpointKeepsInv` | F2FS/f2fs/checkpoint.c:991-1033 | a checkpoint makes every checkpoint map equal to the current one, frees the prefree segments, and keeps the invariant |
| `SegmentRuns.RunIsSafe` | F2FS/f2fs/segment.c:642-1182 | over every run of writes, removals, log moves and checkpoints: what live owners hold and what the last checkpoint holds can both be read from the device |
| `SegmentRuns.CrashFindsCheckpoint` | F2FS/f2fs/checkpoint.c:991-1033 | after any run without a further checkpoint, going back to the forward map of the checkpoint reads exactly the data that were live at it |
| `SegmentManagement.SegmentManager.SumSections` | F2FS/f2fs/segment.c:2155-2202 | section counts are the sums over their segments |
| `SegmentManagement.SegmentManager.InitFreeSegmap` | F2FS/f2fs/segment.c:2204-2220 | in use is exactly what has valid blocks or is an open log |
| `SegmentManagement.SegmentManager.InitDirtySegmap` | F2FS/f2fs/segment.c:2222-2246 | the dirty lists hold exactly the partly valid segments that are no open logs, with their counters |
| `SegmentManagement.SegmentManager.BuildMaps` | F2FS/f2fs/segment.c:2312-2374 | free map, dirty lists and section counts as built at mount time from the entries |
| `SegmentRuns.MountRestores` | F2FS/f2fs/segment.c:2312-2374 | building the maps from the entries of a checkpoint gives the free map, the dirty lists and all their counters of the manager that took the checkpoint |
| `SitModel.RawRoundTrip` | F2FS/f2fs/segment.h:310-320 | storing an entry and reading it back gives the entry with its checkpoint map caught up; the type stands above ten bits of valid count |
| `SitModel.EntryInPage` | F2FS/f2fs/segment.h:93-98 | the entries of a page stand in the order of their segments |
| `SitModel.NextIsOtherSit` | F2FS/f2fs/segment.h:654-665 | the next address of a SIT block is its other copy |
| `SitModel.PutPageStores` | F2FS/f2fs/segment.c:1926-2028 | an entry written to its page is what a mount reads for its segment, and no other segment is affected, provided the journal does not shadow it |
| `SummaryJournal.FindIs` | F2FS/f2fs/segment.c:1775-1795 | the look-up finds the entry of a key |
| `SummaryJournal.PutGet` | F2FS/f2fs/segment.c:1775-1795 | a stored journal entry is found, and the others are found as before |
| `SitManagement.SitInfo.AddSitEntry` | F2FS/f2fs/segment.c:1872-1890 | one more entry is counted for its page, and the list of sets stays sorted by size |
| `SitManagement.SitInfo.AdjustSitEntrySet` | F2FS/f2fs/segment.c:1857-1870 | where a set belongs once it has grown |
| `SitManagement.SitInfo.AddSitsInSet` | F2FS/f2fs/segment.c:1892-1901 | the sets count the dirty entries of each page |
| `SitManagement.SitInfo.RemoveSitsInJournal` | F2FS/f2fs/segment.c:1903-1920 | the journal is emptied, its entries become dirty and are counted, and what is clean is still stored |
| `SitManagement.SitInfo.FlushEntry` | F2FS/f2fs/segment.c:1926-2028 | one dirty entry is stored in the journal or in the non-current copy of its page, which alone is written |
| `SitManagement.SitInfo.FlushSet` | F2FS/f2fs/segment.c:1926-2028 | one page's dirty entries go to the journal exactly if all before did and they fit, and then no page changes, else to the other copy of the page, and then the journal stays; a journal entry never shadows a newer page entry |
| `SitManagement.SitInfo.FlushSitEntries` | F2FS/f2fs/segment.c:1926-2028 | every entry is stored as it stands, the checkpoint maps have caught up, prefree segments are free, and no SIT block that was current before was written; if the journal has room for all dirty entries no page is written at all |
| `SitMount.RunKeepsStored` | F2FS/f2fs/segment.c:621-631 | in every run between checkpoints, an entry that is not dirty is stored as it stands |
| `SitMount.CheckpointSegments` | F2FS/f2fs/checkpoint.c:829-986 | flush and clearing of the prefree list together are the checkpoint of the state model, whatever the journal and the double buffer hold |
| `SitMount.BuildSitEntries` | F2FS/f2fs/segment.c:2155-2202 | every entry read is that of the journal, else that of the current page |
| `SitMount.Mount` | F2FS/f2fs/segment.c:2312-2374 | the manager a mount builds from the stored table: entries, free map, dirty lists and section counts, with nothing to flush |
| `SitMount.MountFindsCheckpoint` | F2FS/f2fs/segment.c:2312-2374 | flush followed by the mount-time rebuild is the identity on segment entries, free map, dirty lists and their counters |
| `SitMount.MountRestoresManager` | F2FS/f2fs/segment.c:2312-2374 | the rebuilt manager is the one the checkpoint left in all but the summary area, section counts and dirty marks included |
| `CrashMount.AllocateSaves` | F2FS/f2fs/segment.c:951-978 | allocate_data_block saves no summary block but that of the log it has filled, with every entry but the one of the block handed out as it was |
| `CrashMount.WriteCarries` | F2FS/f2fs/segment.c:893-978 | an out-of-place write leaves, for every block the last checkpoint needs, the summary entry that names its owner, both in the block that describes the segment now and in the summary area |
| `CrashMount.MoveCarries` | F2FS/f2fs/segment.c:1024-1037 | so does a forced log move |
| `CrashMount.AfterKeeps` | F2FS/f2fs/segment.c:642-1182 | at every time of a run without a further checkpoint, summaries still name the owners of all blocks the checkpoint needs, and live data and those of the checkpoint can be read |
| `CrashMount.RestoredInv` | F2FS/f2fs/segment.c:2312-2374 | a manager rebuilt from a checkpoint, with any summary area that names the owners of its blocks, satisfies the whole invariant with the forward map of the checkpoint |
| `CrashMount.CrashMountIsSafe` | F2FS/f2fs/checkpoint.c:991-1033 | after a crash at any point of a run since a checkpoint, with each block and each summary block on the device as it was at some time of the run, the mounted system satisfies the invariant and reads the data that were live at the checkpoint |
| `CrashMount.LifeIsSafe` | F2FS/f2fs/checkpoint.c:991-1033 | the same over any number of runs, crashes and mounts, one after the other |
| `CrashMount.EmptyIsSafe` | F2FS/f2fs/segment.c:2312-2374 | a mount of a table without valid blocks gives a state from which runs can start |
| `Addressing.GetNodePath` | F2FS/f2fs/node.c:391-463 | succeeds exactly below the capacity of the tree, and then offset and noffset are the way to the slot of the index |
| `Addressing.LeafHolds` | F2FS/f2fs/node.c:391-463 | every index below the capacity lies in the slots of its leaf |
| `Addressing.LeafIsUnique` | F2FS/f2fs/node.c:391-463 | no two leaves share an index |
| `Addressing.NodeOfsInverts` | F2FS/f2fs/node.c:391-463 | a node offset determines the place in the tree |
| `Addressing.NodeOfsInjective` | F2FS/f2fs/node.c:391-463 | no two places of the tree carry the same node offset |
| `Addressing.DnodesAreLeaves` | F2FS/f2fs/node.h:280-296 | IS_DNODE holds for the nodes that hold data addresses and fails for every indirect one |
| `Addressing.StartBidxInverts` | F2FS/f2fs/gc.c:472-490 | start_bidx_of_node of a leaf's node offset is the first page index of the leaf |
| `Addressing.NextDnodeFollows` | F2FS/f2fs/f2fs.h:1188-1191 | the macro gives the first index behind the leaf, for every index below the capacity |
| `Addressing.MaxFileBlocks` | F2FS/f2fs/super.c:755-773 | the loop sums up to the capacity of an inode with inline attributes, so get_node_path succeeds for all indices below it, whatever the inode |
| `FileTree.FileNodes.GetDnodeOfData` | F2FS/f2fs/node.c:471-562 | without allocation: finds the node and slot of an index, or -ENOENT if a node on the way is missing, and reads what the tree maps the index to |
| `FileTree.FileNodes.AllocDnodeOfData` | F2FS/f2fs/node.c:471-562 | with ALLOC_NODE: adds exactly the nodes missing on the way, empty and with NEW_ADDR, with the counters; all pages stay mapped as they were; -ENOSPC exactly if more are missing than there are free ids or nodes granted |
| `FileTree.GrownOk` | F2FS/f2fs/node.c:917-968 | a node added in a free slot gives a tree without dangling pointers, lost nodes or doubled places |
| `FileTree.TrimmedOk` | F2FS/f2fs/node.c:622-691 | removing a downward-closed set of places leaves a tree without dangling pointers, lost nodes or doubled places |
| `FileTree.ChargeIs` | F2FS/f2fs/f2fs.h:740-757 | what the tree charges to i_blocks: the number of its nodes and of the slots that hold something |
| `FileTree.FileNodes.TruncateDataBlocksRange` | F2FS/f2fs/file.c:382-411 | clears the slots of the range and no others, counts the blocks freed, and makes one call each of invalidate_blocks and update_extent_cache for every slot that held something, with its address and its page |
| `FileTree.FileNodes.TruncateNode` | F2FS/f2fs/node.c:564-598 | the node and its address are gone, the counters have dropped by it, and invalidate_blocks was called with its address; its inode cannot have i_blocks 0 |
| `FileTree.FileNodes.TruncateDnode` | F2FS/f2fs/node.c:600-620 | the direct node and its data are gone; a missing one counts as freed |
| `FileTree.FileNodes.TruncateNodes` | F2FS/f2fs/node.c:622-691 | removes exactly the children from ofs on with all below them, and the node itself when nothing is left; no pointer to a removed node remains below the caller's |
| `FileTree.FileNodes.TruncatePartialNodes` | F2FS/f2fs/node.c:693-748 | removes exactly the direct nodes of the partly cut indirect node from the offset on, and moves the offsets past it, also when a node on the way is missing |
| `FileTree.FileNodes.TruncateInodeBlocks` | F2FS/f2fs/node.c:753-847 | removes exactly the nodes that start at the cut or behind it, for every tree shape and every cut; it stops the system exactly if the index is at or beyond the capacity |
| `FileTree.FileNodes.TruncateBlocks` | F2FS/f2fs/file.c:446-497 | leaves the truncated tree; i_blocks, the valid-block total and the valid-node total have dropped by exactly the data slots and nodes removed; the calls made are exactly those for the slots and nodes lost, none twice and none missing; it stops the system exactly if the size or the start of the next leaf is at or beyond the capacity |
| `FileTree.TruncatedTree` | F2FS/f2fs/file.c:446-497 | what is left is a tree: no pointer to a removed node remains |
| `FileTree.TruncationIsExact` | F2FS/f2fs/file.c:446-497 | below ceil(from / blocksize) every page index maps as before, at and above it every index maps to nothing |
| `FileTree.StopsInLastLeaf` | F2FS/f2fs/file.c:446-497 | for every tree and every cut below the capacity: truncation stops the system exactly if the cut lies inside the last leaf of the tree and the file has that leaf |
| `FileTree.StopsAtEndOfTree` | F2FS/f2fs/file.c:446-497 | a tree and a cut for which it does |
| `FileBlocks.TruncateFile` | F2FS/f2fs/file.c:446-497 | after truncate_blocks, with the segment manager and the extent as its calls leave them, the blocks owned are again exactly those that slots and node addresses point at, none is owned for a node that went, the invariant of the segment manager holds, and the extent agrees with the tree; files with nodes or pages that were never written included |
| `FileBlocks.CallsKeepJoined` | F2FS/f2fs/file.c:382-411 | the same for any calls that are exactly those due for the slots and nodes a tree has lost, one after the other |
| `FileBlocks.LookupAfterCalls` | F2FS/f2fs/file.c:382-411 | the pages of the calls are exactly those that the new tree does not map any more |
| `FileBlocks.WriteKeepsJoined` | F2FS/f2fs/data.c:770-807 | writing a page out of place, with slot and extent updated, keeps the joined invariant of tree, node addresses, owned blocks and extent |
| `FileBlocks.DirectKeepsJoined` | F2FS/f2fs/data.c:573-611 | so does giving a hole a block for direct I/O, with the extent bypassed |
| `FileBlocks.ReserveKeepsJoined` | F2FS/f2fs/data.c:238-254 | so does reserving a page in a hole |
| `FileBlocks.WriteNodeKeepsJoined` | F2FS/f2fs/segment.c:1427-1435 | so does writing the page of a node, for the first time or again |
| `FileBlocks.GrowthKeepsJoined` | F2FS/f2fs/node.c:917-968 | so does adding nodes that nobody owns a block for |
| `FileBlocks.AllocInFile` | F2FS/f2fs/node.c:471-562 | get_dnode_of_data with ALLOC_NODE, also where it fails half way |
| `FileRuns.LifeReadsBack` | F2FS/f2fs/data.c:621-720 | from the creation of a file on, over every run of page writes, direct writes, reservations, node writes, new nodes, truncations, and writes, removals, log moves and checkpoints elsewhere: each page reads from the device as it was last written, by the tree and by a hit of the extent; a page without a block was never written or has been cut off |
| `FileRuns.ReadsBack` | F2FS/f2fs/data.c:275-316 | the same of every state of the file that meets the invariant |
| `FileRuns.StepKeepsFile` | F2FS/f2fs/data.c:770-807 | each of these steps keeps the invariant of tree, node addresses, blocks owned, extent and contents |
| `FileRuns.NewFileOk` | F2FS/f2fs/node.c:906-915 | a file that has only its inode, with NEW_ADDR, meets it |
| `FileRuns.PagesApart` | F2FS/f2fs/segment.c:1142-1182 | no two pages of a file share a block, and no page shares one with a node |
| `FileRuns.CrashFindsFile` | F2FS/f2fs/checkpoint.c:991-1033 | after a checkpoint and any run without another one, every page still reads, through the tree as it was, what it held at the checkpoint, whatever was written, truncated or given to others since |
| `FileRuns.DropsGiveBack` | F2FS/f2fs/segment.c:691-709 | the blocks given back by a truncation are a run of the segment manager, which loses nothing else that is live |
| `FileRuns.TruncatePages` | F2FS/f2fs/file.c:446-497 | truncate_blocks is such a step, and what it leaves are exactly the pages before the cut, with their contents |
| `ExtentCache.UpdateKeepsInv` | F2FS/f2fs/data.c:318-396 | after an update every page of the cached extent maps to the block the extent says, exactly if the update did not merge NULL_ADDR in front of an extent that starts in block 1 |
| `ExtentCache.MainAreaNeverMerges` | F2FS/f2fs/data.c:318-396 | for extents in blocks above 1 no update merges NULL_ADDR |
| `ExtentCache.NullIsMerged` | F2FS/f2fs/data.c:318-396 | an extent in block 1, outside the main area, for which the cache would answer for a hole |
| `ExtentCache.UpdateCovers` | F2FS/f2fs/data.c:318-396 | what the cache holds after an update: a page that continues the extent at either end is covered with the pages before, one inside leaves exactly the pages on one side of it, those before it only if fewer than half lie behind, one elsewhere leaves the same pages; it is dropped exactly if a split or no change leaves fewer than 16; pages that stay covered stay at their blocks |
| `ExtentCache.DroppedStays` | F2FS/f2fs/data.c:318-396 | a cache that has been dropped stays as it is |
| `ExtentCache.WrittenInOrder` | F2FS/f2fs/data.c:318-396 | any number of pages of a new file written in order to consecutive blocks are all covered |
| `ExtentCache.InodeExtent.UpdateExtentCache` | F2FS/f2fs/data.c:318-396 | initial, front merge, back merge, split and drop give the updated state; an inode write is asked for exactly if the cache is in use and the page is not elsewhere than a long enough extent |
| `ExtentCache.InodeExtent.ReserveNewBlock` | F2FS/f2fs/data.c:238-254 | the slot becomes NEW_ADDR and the cache stays |
| `ExtentCache.InodeExtent.AllocateDataBlock` | F2FS/f2fs/data.c:573-611 | direct I/O allocation sets the slot and leaves the extent |
| `ExtentCache.InodeExtent.CheckExtentCache` | F2FS/f2fs/data.c:275-316 | a hit is a tree look-up; the bytes reported are those to the end of the extent, or the largest 32-bit number, and the blocks they hold are those the tree maps |
| `ExtentCache.RunKeepsInv` | F2FS/f2fs/data.c:238-396 | over every run of reservations, allocations, writes and invalidations in the main area, the cache agrees with the tree |
| `NatModel.NextIsOtherCopy` | F2FS/f2fs/node.h:177-189 | the next address of a NAT block is its other copy |
| `NatModel.NatAddrInjective` | F2FS/f2fs/node.h:157-175 | no two copies of NAT blocks share an address |
| `NatModel.SetAddrKeeps` | F2FS/f2fs/node.c:258-314 | the node is answered at the new address; its inode is that of the cached entry, or the one given when nothing is cached or the address is NEW_ADDR; the version grows by one modulo 256 exactly if the address becomes NULL_ADDR and was not NEW_ADDR; all other answers stay, and eviction remains safe |
| `NatModel.EvictKeeps` | F2FS/f2fs/node.c:316-333 | evicting a clean entry changes no answer |
| `NatModel.ToPageKeeps` | F2FS/f2fs/node.c:1848-1913 | storing in the page changes no answer when the journal does not shadow the entry |
| `NatModel.EntryInPage` | F2FS/f2fs/node.c:1848-1893 | the entries of a page stand in the order of their node ids |
| `NatManagement.NatManager.GetNodeInfo` | F2FS/f2fs/node.c:338-385 | answers the one logical map from cache, journal or page, and filling the cache changes no answer |
| `NatManagement.NatManager.SetNodeAddr` | F2FS/f2fs/node.c:258-314 | the same answers in place, with the entry dirty and in the set of its page |
| `NatManagement.NatManager.TryToFreeNats` | F2FS/f2fs/node.c:316-333 | evicts the oldest clean entries, one for each number it counts down, until enough are gone or none is left, and changes no answer |
| `NatManagement.NatManager.RemoveNatsInJournal` | F2FS/f2fs/node.c:1796-1828 | all journal entries become dirty cache entries, the journal is empty, and no answer changes |
| `NatManagement.NatManager.AdjustNatEntrySet` | F2FS/f2fs/node.c:1830-1846 | where a set is put so that small sets come first |
| `NatManagement.NatManager.OrderSets` | F2FS/f2fs/node.c:1940-1947 | every set once; those that fit in the journal in the order of their sizes, larger ones behind them |
| `NatManagement.NatManager.FlushEntry` | F2FS/f2fs/node.c:1848-1913 | one entry is stored, in the journal or in its page, and moves to the clean list; no answer changes |
| `NatManagement.NatManager.FlushNatEntrySet` | F2FS/f2fs/node.c:1848-1913 | one set goes to the journal if all of it fits, else to the other copy of its page; entries with NEW_ADDR stay; no answer changes and no current page is written |
| `NatManagement.NatManager.FlushNatEntries` | F2FS/f2fs/node.c:1918-1954 | for every node id: what journal and the page chosen by the new bitmap give is the logical map if the address is not NEW_ADDR, else what the page gave before if the journal was spilled, else what was stored before; no NEW_ADDR is stored if none was; no block current under the old bitmap was written; with none stored before it stops the system exactly if a NEW_ADDR entry is cached; if the journal has room for all dirty entries no page is written at all |
| `NatModel.FlushedIsPersisted` | F2FS/f2fs/node.c:1918-1954 | with nothing dirty but NEW_ADDR entries, what is stored is what the table answers |
| `NatModel.FlushStores` | F2FS/f2fs/node.c:1918-1954 | with no NEW_ADDR stored before, a flush stores the answer of the table for a node id exactly if that is not NEW_ADDR |
| `NatModel.FlushForgets` | F2FS/f2fs/node.c:1796-1828 | what is stored of a node id that has NEW_ADDR at a flush changes exactly if the journal was spilled, held the id, and with another entry than the page |
| `NatManagement.SpillLosesNewAddr` | F2FS/f2fs/node.c:1918-1954 | a table for which it does, were it flushed before the node is written; write_checkpoint writes all nodes first |
| `CheckpointPack.CheckpointArea.AddOrphan` | F2FS/f2fs/checkpoint.c:381-393 | one more orphan, unless max_orphans are listed |
| `CheckpointPack.CheckpointArea.WriteOrphanInodes` | F2FS/f2fs/checkpoint.c:457-514 | the orphan blocks hold the list in order, ORPHANS_PER_BLOCK each, and no other page is touched |
| `CheckpointPack.CheckpointArea.DoCheckpoint` | F2FS/f2fs/checkpoint.c:829-986 | the pages written are exactly start to start + total - 1 of the segment that belongs to the version, the closing block last, and total and start of the summaries agree with them |
| `CheckpointPack.CheckpointArea.WriteCheckpoint` | F2FS/f2fs/checkpoint.c:991-1033 | the version is one higher, and the device differs by exactly this pack |
| `CheckpointPack.CheckpointArea.ValidateCheckpoint` | F2FS/f2fs/checkpoint.c:516-566 | accepts a pack exactly if its first block and the block total - 1 behind it pass the checksum and carry the same version |
| `CheckpointPack.CheckpointArea.GetValidCheckpoint` | F2FS/f2fs/checkpoint.c:568-635 | fails exactly if neither pack is valid, else takes the one that is, or the later version if both are, and reads its checkpoint block and payload |
| `CheckpointPack.MountFinds` | F2FS/f2fs/checkpoint.c:568-635 | between checkpoints mount takes the current pack, whatever is left in the other segment |
| `CheckpointPack.VerAfterIs` | F2FS/f2fs/f2fs.h:56-58 | of two versions the larger comes after, or the smaller if they are more than half of the 64-bit range apart |
| `CheckpointPack.CrashLeaves` | F2FS/f2fs/checkpoint.c:829-986 | whatever subset of a pack's pages arrives, the other segment is untouched and only the first and the closing block can be new checkpoint blocks |
| `CheckpointPack.CrashSelects` | F2FS/f2fs/checkpoint.c:516-635 | for every subset of the pages that arrived: the old pack is whole, and the new segment is taken exactly if the closing block and a first block of the new version and size are there, from this attempt or a crashed one before |
| `CheckpointPack.CrashWithoutClosing` | F2FS/f2fs/checkpoint.c:829-986 | a crash that loses the closing block keeps the old checkpoint in force, with all that later checkpoints need |
| `CheckpointPack.CheckpointDone` | F2FS/f2fs/checkpoint.c:829-986 | once the whole pack is there the new checkpoint is in force |
| `CheckpointPack.RunMounts` | F2FS/f2fs/checkpoint.c:516-635 | after every run of checkpoints and crashes without the closing block, mount takes the last checkpoint that came through, whole |
| `CheckpointPack.Remount` | F2FS/f2fs/checkpoint.c:568-635 | the blocks read are the checkpoint block and the payload that were written |
| `CheckpointPack.PackFits` | F2FS/f2fs/checkpoint.c:1035-1054 | with no payload every pack the orphan limit allows fits its segment, orphans at unmount included |
| `CheckpointPack.AllPacksFit` | F2FS/f2fs/checkpoint.c:1035-1054 | every pack a checkpoint can be asked to write, with up to max_orphans orphans and none at unmount, fits its segment exactly if there are at most three payload blocks |
| `CheckpointPack.StaysInSegment` | F2FS/f2fs/checkpoint.c:829-986 | a pack writes to no block outside its segment exactly if it fits |
| `CheckpointPack.LongPackDestroys` | F2FS/f2fs/checkpoint.c:829-986 | a pack of odd version that does not fit overwrites the first block of the other pack, so that one is no longer stored |
| `CheckpointPack.LongPackSeemsWhole` | F2FS/f2fs/checkpoint.c:516-566 | after it the other segment passes for a checkpoint exactly if it was one block too long and the block behind the checkpoint area carries its version |
| `CheckpointPack.LongPackLeavesArea` | F2FS/f2fs/checkpoint.c:829-986 | a pack of even version that does not fit writes behind the checkpoint area |
| `CheckpointPack.DataSummaryFound` | F2FS/f2fs/segment.c:1600-1664 | data summaries are read from where they were written, compacted or not, at unmount or not |
| `CheckpointPack.NodeSummaryFound` | F2FS/f2fs/segment.h:698-703 | so are the node summaries of an unmount |
| `CheckpointPack.OrphansFound` | F2FS/f2fs/checkpoint.c:425-455 | and the orphan blocks |
| `CheckpointPack.CheckpointArea.RecoverOrphanInodes` | F2FS/f2fs/checkpoint.c:425-455 | the inodes recovered are the orphans that were listed, in order, and behind them whatever as many blocks as there are payload blocks seem to list |
| `CheckpointTables.MountReadsTables` | F2FS/f2fs/checkpoint.c:568-635 | bitmaps and journals read through the chosen pack are those the checkpoint in force carries |
| `CheckpointTables.CrashIsWhole` | F2FS/f2fs/checkpoint.c:829-986 | a crash anywhere in write_checkpoint, with any of the table pages and any blocks of the checkpoint but its closing one on the device, leaves both tables reading as the old checkpoint left them |
| `CheckpointTables.MountFindsTables` | F2FS/f2fs/checkpoint.c:516-635 | after any checkpoints and crashes, what mount reads selects node table and segment table whole, as the last completed checkpoint left them |
| `CheckpointTables.WriteTables` | F2FS/f2fs/checkpoint.c:991-1033 | write_checkpoint with both flushes and the clearing of the prefree list prepares exactly such a checkpoint: no current page is written, it fits its segment and carries the new bitmaps and journals, both tables are stored |
| `CompactSummaries.NpagesForSummaryFlush` | F2FS/f2fs/segment.c:726-746 | one, two or three pages from the number of entries: all of a reused log, those before the next offset of any other |
| `CompactSummaries.TotalIs` | F2FS/f2fs/segment.c:1710-1717 | how many entries lie before those of each log |
| `CompactSummaries.PagesAgree` | F2FS/f2fs/segment.c:726-746 | one and two are exactly the numbers of pages the writer uses, for all page, journal, entry and footer sizes |
| `CompactSummaries.PlacesInOrder` | F2FS/f2fs/segment.c:1687-1742 | no two entries overlap |
| `CompactSummaries.MetaPages.WriteCompactedSummaries` | F2FS/f2fs/segment.c:1687-1742 | both journals lie at the start of the first page, and all entries of a reused log and those before the next offset of any other at their places, and no other page changes |
| `CompactSummaries.MetaPages.ReadCompactedSummaries` | F2FS/f2fs/segment.c:1539-1598 | both journals, and all entries of a reused log and those before the next offset of any other, are what the pages hold at their places |
| `CompactSummaries.RoundTrip` | F2FS/f2fs/segment.c:1539-1598 | logs written to and read from the same pages have equal journals and entries: all of a reused log, those before the next offset of any other |
| `CompactSummaries.WriteThenRead` | F2FS/f2fs/segment.c:1539-1742 | reading what was written restores both journals, every entry of a reused data log and every one before the next offset of any other, and the pages used are npages_for_summary_flush whenever that is below three |
| `Recovery.RollForward.GetFsyncInode` | F2FS/f2fs/recovery.c:58-68 | the entry of an inode, if listed |
| `Recovery.RollForward.FindFsyncDnodes` | F2FS/f2fs/recovery.c:161-233 | fails with -EINVAL exactly if some fsync-marked inode block with a dentry mark is of an inode that the checkpoint has and no block before it has listed; else the list holds exactly the recovered inodes, each with its last fsync-marked block |
| `Recovery.RollForward.RecoverData` | F2FS/f2fs/recovery.c:420-483 | replays each listed inode's blocks in chain order up to and including its last fsync-marked one and nothing else, and ends with an empty list |
| `Recovery.RollForward.RecoverFsyncData` | F2FS/f2fs/recovery.c:485-555 | both passes on every acyclic chain: it fails exactly if a block is refused, and then replays nothing; else its replays are those of ReplaysAre |
| `Recovery.ReplayedIs` | F2FS/f2fs/recovery.c:420-483 | a block is replayed exactly if it or one of its inode behind it was fsynced, and the inode is there at the checkpoint or has an fsynced inode block with a dentry mark |
| `Recovery.RefusedIsFirst` | F2FS/f2fs/recovery.c:161-233 | a block is refused exactly if it is an fsynced inode block with a dentry mark of an inode that the checkpoint has, and no block of this inode before it was fsynced |
| `Recovery.ReplaysAre` | F2FS/f2fs/recovery.c:420-483 | the replays are those of exactly these blocks, in chain order, with the inode at its last fsynced inode block and the dentry at the last one with a dentry mark |
| `DirLevels.DirBlockIndex` | F2FS/f2fs/dir.c:68-78 | the first block of a bucket, with 32-bit products and a 64-bit sum |
| `DirLevels.LevelsShare` | F2FS/f2fs/dir.c:24-78 | the arithmetic of the level starts with their wrap-around: two levels have a block in common exactly if both are 31 or more |
| `DirLevels.BucketsApart` | F2FS/f2fs/dir.c:24-78 | buckets of different levels share no block of the node tree, for every number of extra levels |
| `DirLevels.LookupSeesBucket` | F2FS/f2fs/dir.c:142-187 | a look-up visits exactly the blocks an insertion uses, if and only if these end below block 2^32 |
| `DirLevels.LookupSees` | F2FS/f2fs/dir.c:142-187 | on every level that starts inside the node tree that is the case |
| `DirLevels.DepthLimit` | F2FS/f2fs/dir.c:68-78 | without extra levels a level lies in the node tree as a whole exactly if it is below 28, for an inode with or without inline attributes |
| `DirLevels.FirstLevelCrosses` | F2FS/f2fs/dir.c:68-78 | with 30 extra levels the first level already does not fit: its buckets lie beyond the tree exactly for the upper half of the hash values |
| `Directory.FindInBlock` | F2FS/f2fs/dir.c:92-140 | finds the slot of a name exactly if the block holds it, whatever other entries there are; for a name that is not there, it reports the longest free run as the source counts it |
| `Directory.ReportedCovers` | F2FS/f2fs/dir.c:92-140 | that report falls short of no free run of the block by more than one slot, and of none that starts at slot 0 |
| `Directory.ReportedWithin` | F2FS/f2fs/dir.c:92-140 | and it exceeds neither the free slots of the block nor what was reported before |
| `Directory.ReportedFreeRun` | F2FS/f2fs/dir.c:92-140 | a free run behind an entry counts for one slot less than it has, one at slot 0 for all |
| `Directory.RoomForFilename` | F2FS/f2fs/dir.c:420-442 | the first run of free slots that is long enough, if there is any |
| `Directory.InsertIs` | F2FS/f2fs/dir.c:448-540 | an entry put into free slots is added and all others stay, down to the bytes of their names |
| `Directory.EraseIs` | F2FS/f2fs/dir.c:567-624 | clearing the bits of an entry removes this entry and no other |
| `Directory.Directory.FindInLevel` | F2FS/f2fs/dir.c:142-187 | finds a name exactly if it is in its bucket of the level; stops the system exactly if it is not there and the bucket is not all in the node tree |
| `Directory.Directory.FindEntry` | F2FS/f2fs/dir.c:195-222 | finds a name exactly if it is there, for every hash function, number of extra levels and hint; stops the system exactly if it is not there and its bucket of the last level is not all in the node tree; the hint it leaves is the first level searched in vain whose bucket had a block missing or enough room reported, else the last level, unless there was one for this hash value |
| `Directory.Directory.InodeByName` | F2FS/f2fs/dir.c:241-255 | the inode the map from names to inodes gives, 0 otherwise; it stops the system exactly when the search does; nothing but the hint changes |
| `Directory.Directory.SetLink` | F2FS/f2fs/dir.c:257-270 | the map changes at this name and nowhere else |
| `Directory.Directory.AddLink` | F2FS/f2fs/dir.c:448-540 | the map gains exactly this name, or the system is stopped, exactly if the first block on the way that is not full lies beyond the node tree; there always is a level left, and at most one is added, whatever the hint, which is used up; the new entry is at the first long enough run of the first block on the way that is not full, and the directory gets a level more exactly if that is there |
| `Directory.FitsNotBlocked` | F2FS/f2fs/dir.c:448-540 | an insertion is not stopped while the level behind the last one lies in the node tree |
| `Directory.ShallowNeverBlocked` | F2FS/f2fs/dir.c:448-540 | without extra levels a directory of at most 27 levels takes every name |
| `Directory.FirstNameBlocked` | F2FS/f2fs/dir.c:448-540 | with 30 extra levels the first name of any directory, and a look-up in one of one level, stop the system for the upper half of the hash values, whatever blocks there are |
| `Directory.Directory.MakeEmptyDir` | F2FS/f2fs/dir.c:299-334 | a new directory maps "." and ".." to their inodes, in slots 0 and 1 of block 0 |
| `Directory.FirstNameStops` | F2FS/f2fs/dir.c:448-540 | a new directory with 30 extra levels and the first name added to it: the system stops |
| `Directory.Directory.DeleteEntry` | F2FS/f2fs/dir.c:567-624 | the map loses exactly this name; the block is cut out exactly if it was the last one in it, and no other block changes |
| `Xattr.Fields` | F2FS/f2fs/xattr.h:29-60 | the fields, name and value of an entry are read back from its bytes |
| `Xattr.FindXattr` | F2FS/f2fs/xattr.c:251-265 | stops at the entry of the key, or at the terminator if there is none |
| `Xattr.LaidEnd` | F2FS/f2fs/xattr.h:57-77 | the terminator lies before the node footer |
| `Xattr.XattrInode.ReadAllXattrs` | F2FS/f2fs/xattr.c:267-323 | inline area and node block one behind the other, with a header made up if there was none |
| `Xattr.XattrInode.WriteAllXattrs` | F2FS/f2fs/xattr.c:325-398 | both areas afterwards, the footer kept, and which areas have changed when it fails |
| `Xattr.LaidWritten` | F2FS/f2fs/xattr.c:325-398 | what was written reads as the buffer did, even where the node block is dropped |
| `Xattr.Change` | F2FS/f2fs/xattr.c:524-574 | the entries after removal and appending are laid out without a gap, with zeros behind, or there is no room, which is exactly when they would end behind MIN_OFFSET |
| `Xattr.AfterIsMap` | F2FS/f2fs/xattr.c:480-593 | removing and appending entries gives the key the value, or takes it out of the map, and leaves the other keys |
| `Xattr.XattrInode.GetXattr` | F2FS/f2fs/xattr.c:400-441 | the size and value last set, and -ERANGE or -ENODATA exactly when the source returns them |
| `Xattr.XattrInode.SetXattr` | F2FS/f2fs/xattr.c:480-593 | -ERANGE exactly for a name over 255 bytes or a value over the limit, else -ENODATA exactly for a replace of a key that is not there, -EEXIST exactly for a create of one that is, -ENOSPC exactly if the header, the other entries and the new one, each rounded up to four bytes, end behind MIN_OFFSET or need a node block that cannot be had; otherwise the key gets the value or goes, and no other changes; a refusal changes nothing, but that the inline area may have been written when the node block cannot be had |
| `Xattr.RefusalLeavesNoTrace` | F2FS/f2fs/xattr.c:325-398 | in that case the attributes are byte for byte as before exactly if the key is new and the entries fill the inline area to the end |

## Left out

- CheckpointPack.RunMounts: assumes that a crash which keeps the closing block keeps the whole checkpoint pack, as the source does by sending it last; `CheckpointPack.CrashSelects` covers every subset.
- CheckpointPack.CheckpointArea.WriteCheckpoint: the tests for nothing to do and the blocking of operations before it are not modelled; the flushes are, in `CheckpointTables.WriteTables`.
- CheckpointTables.WriteTables: requires at most three payload blocks, so that the checkpoint fits its segment, and no orphans at unmount; how bitmaps and journals are coded in it is a parameter.
- CheckpointTables.MountFindsTables: assumes, like `CheckpointPack.RunMounts`, that the closing block is not on the device without the rest.
- SitMount.Mount: open logs and summary area are parameters instead of being read from the checkpoint pack and the summary area.
- CrashMount.CrashMountIsSafe: the mounted logs are those of the checkpoint; rebuilding the summaries of node logs from node footers after a crash is not modelled.
- NatManagement.NatManager.SetNodeAddr: the checkpoint and fsync flags of entries are not modelled.
- FileTree.FileNodes.AllocDnodeOfData: the list of free ids and the space left are parameters; failures of the page cache are not modelled.
- FileTree.FileNodes.TruncateDataBlocksRange: the effects of `invalidate_blocks` and `update_extent_cache` are not in this class; it notes the calls, and `FileBlocks.TruncateFile` makes them.
- FileTree.FileNodes.TruncateNode: `invalidate_blocks` likewise; removing the orphan entry and counting inodes, when the node is the inode, are not modelled.
- FileTree.FileNodes.TruncateBlocks: clearing the rest of the page at the cut (`truncate_partial_data_page`) is not modelled.
- FileRuns.LifeReadsBack: a page is written in one step, from the log handing out its block to the contents on the device; new nodes are added with ids that nobody owns a block for.
- FileRuns.CrashFindsFile: presumes, like `SegmentRuns.RunIsSafe`, that the dirty node pages were written before the checkpoint, so that the tree on the device is the one in memory.
- FileBlocks.GrowthKeepsJoined: requires that nobody owns a block for the new ids, which is what makes them free.
- Recovery.RollForward.RecoverFsyncData: failures of memory, of the device and of replaying a block are not modelled.
- SegmentRuns.RunIsSafe: a checkpoint records the forward map as it stands, which presumes that all dirty node pages were written before, as `block_operations` does; it is not modelled.
- CrashMount.LifeIsSafe: presumes the same of every checkpoint, and what `CrashMount.CrashMountIsSafe` does of every mount.
- ExtentCache.InodeExtent.CheckExtentCache: the bytes reported are counted in whole blocks; sizes beyond 32 bits are reported as the largest 32-bit number, of which only the whole blocks are counted.
- Directory.Directory.AddLink: failure to get a data page for want of space, and the inode of the new entry, are not modelled.
- Directory.ReportedCovers: the longest free run as the source counts it is the space hint of a look-up only; additions are proved for any hint.
- Xattr.XattrInode.SetXattr: I/O errors of the node pages are not modelled; failure to get a node id or a node page is.
- FileTree.FileNodes.TruncatePartialNodes: the offsets the source changes through a pointer are a value given in and out.
- SegmentManagement.SegmentManager.AllocateDataBlock: requires that a full log can be replaced; the source stops the system otherwise.
- FreeSegmap.FreeSegmapInfo.GetNewSegment: requires a free section, or a free next segment; the source stops the system otherwise.
- Page cache, bio submission, locks, writeback control, memory and I/O failures: pages are values in memory, and each call runs alone.
- The `F2FS_DA_MAP` variant of segment.c with its dummy pages; the `#ifndef` text is modelled.
- The small-discard code around `__find_rev_next_bit`.
- Moving the logs of a mounted file system by roll-forward recovery (`recover_data_page`) and restoring single blocks: recovery is modelled up to which blocks are replayed in which order.
- `written_valid_blocks`, time stamps beyond the entries' own, statistics, tracing.
- CRC, hash function and clock: a block passes the checksum test or not, names are hashed by an arbitrary function, the time is a parameter.
- In-place rewriting of data pages (`rewrite_data_page`), and the victim cost of background cleaning: SSR uses the greedy cost.
- The list of free node ids.
- Inline data, inline dentries, listing of directories and of attributes.
- linux/f2fs_fs.h is not part of this model: constants are those of `tools/f2fs-tools/include/f2fs_fs.h`; MAX_DIR_BUCKETS (2^30) and GET_ORPHAN_BLOCKS (division rounded up) are not defined in the repository and are taken from their use.
- The polymorphic FTL, the simulator and the analysis scripts of the repository.
