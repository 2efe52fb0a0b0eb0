# The state machines of enetcore, modelled and proved in Dafny

enetcore is a networking core for Cortex-M4 microcontrollers. This project models the parts of it that keep state in
intricate ways, and proves what they promise. `dafny verify dfyconfig.toml` checks all of it.

- **The heap** (`Rings`, `BinIndex`, `BinMaps`, `Powers`, `Tries`, `TreeSearch`, `Tiles`, `BinFiling`, `ChunkMaps`,
  `Layout`, `Malloc`, `HeapRuns`): Doug Lea's allocator with its small bins, bitwise tries, designated victim and top
  chunk, down to the link and tag words. `malloc`, `free`, `realloc` and `memalign` keep the heap tiled, coalesced and
  filed; requests are served by best fit; over every run of calls the live blocks hold what was stored in them, and the
  segment grows only by what the system granted.
- **The FAT32 volume** (`FatDisk`, `FatChains`, `FatData`, `FatBytes`, `FatSystem`, `FatFiles`, `FatDirs`, `FatRuns`,
  `FatCheck`): sectors and table copies as bytes, chains, file operations over the one-sector buffer, directory growth, new and
  deleted files, and the consistency check. Over every run the volume is a map from files to byte strings; the order of
  the writes makes a crash harmless, except in the cases that are shown to be harmful.
- **The block cache** (`LruLists`, `BlockCache`): sixteen sectors in least-recently-used order, with write-back or
  write-through, refine a flat device.
- **The cuckoo hash table** (`CuckooHash`), the map kept in it, and its evictions and doublings.
- **The scheduler** (`Scheduler`) with its single pass over the threads, its round robin and its timer, and **mutexes and
  condition variables** (`Mutexes`) as a state machine over the atomic sections of all threads, with and without time
  limits.
- **SHA-1** (`Sha1`), **CRC-32** (`Crc`) and **lookup3** (`Lookup3`): the streaming, table-driven and word-wise forms
  compute the functions of FIPS 180-4, RFC 1952 and the byte-wise hash; the published values of examples (`Sha1Examples`,
  `Lookup3Examples`) fix their constants.

Classes stand for the objects that the code updates in place, and their methods take the code's branches in the code's
order. What the state means is said by functions and predicates over values, and lemmas about those carry the proofs.
Devices may fail at any access: a method answers `DeviceFailed` or `ok == false` then, and a device that is `reliable`
never does.

Some promises of the code or its comments do not hold. The members named prove where they fail:

- `core/fat32.cxx:26-46` tells what a crash in a write or a delete leaves, and that holds (`File.Write`, `File.Unlink`). A
  `truncate` that gives clusters back frees them before the chain is end-marked: after a crash its entry can lead to a
  cluster that another file is given (`TruncateCutOff`, `ShrinkTornCrossLinks`). It is harmless exactly when the new size
  needs as many clusters as the chain has, or the entry on the device has no cluster yet. `close` of an emptied file is
  alike (`FreeFirst`). Wherever a call stops, all other files keep their chains, entries and bytes (`Volume.Survived`).
- A `truncate` to a size within a cluster of 2^32 asks for no clusters (`WantedIsLeast`), and leaves a file whose size
  does not fit its chain unless the chain was long enough.
- `fsck` accepts chains that end in a free entry (`IsWalk`), and its length loop does not end on the cycles that it has
  just found (`FsckChainLength`, `SelfLoopCountsForever`).
- The free count that `mount` rebuilds is two too high, and stays so (`RebuildFreeInfo`, `GapKept`).
- A write-through that fails leaves a dirty sector in the cache (`PutBlock`), which `flush` passes over; a
  flush marks the sectors clean that it could not write (`Flush`); a bypass read loses what was not yet written
  (`ReadBypass`).
- The rounding loop of `memalign` does not end for alignments above 2^31 (`RoundingEnds`).
- `Mutex::TryLock` fails for the owner itself (`TryLock`), and the depth of a recursive lock overflows at 65536 (`Lock`).

## Model

| member | source | states |
|---|---|---|
| BinIndex.TreeIndex | core/malloc.cxx:1095-1126 | a tree bin takes exactly the sizes from its least size up to that of the next bin; sizes too small for a tree go to bin 0 |
| BinIndex.TreeIndexUnique | core/malloc.cxx:1095-1126 | the bin is determined by that range alone |
| BinMaps.TreeIndexBits | core/malloc.cxx:1095-1109 | the shifts and masks of `compute_tree_index`, on 32-bit words, give the bin whose range holds the size |
| BinMaps.TreeIndexIs | core/malloc.cxx:1095-1109 | for every size in range the macro, on 32-bit words, gives the bin in whose range the size lies |
| BinMaps.TreeIndexOf | core/malloc.cxx:1095-1109 | the macro as the allocator uses it: its result is the bin of the size |
| BinIndex.HigherBinLargerSize | core/malloc.cxx:1081-1126 | every size in a higher tree bin is larger than every size in a lower one |
| BinIndex.BitWalkStep | core/malloc.cxx:1118-1121 | the sign bit of the shifted size tells the half of the interval the size is in, and one more shift rescales it |
| BinMaps.LeastMarked | core/malloc.cxx:1158-1179 | isolating the least bit and turning it into an index gives the lowest marked bin of a map |
| Malloc.SmallMapBits | core/malloc.cxx:2938-2960 | what the shifted small map tells about the bin of the request, the next one, and all above |
| Rings.Neighbours | core/malloc.cxx:1541-1562 | the forward and backward links of every member of a bin ring lead to its neighbours |
| Tries.InsertShape | core/malloc.cxx:1821-1872 | inserting a size keeps the trie: sizes under a node lie in its half of the interval, and no size occurs twice |
| Tries.InsertMembers | core/malloc.cxx:1821-1872 | inserting adds exactly the new chunk and its size |
| Tries.RemoveRootShape | core/malloc.cxx:1889-1958 | replacing a node by its ring neighbour or by its rightmost leaf keeps the trie |
| Tries.RemoveRootMembers | core/malloc.cxx:1889-1958 | removing a node removes exactly its chunk |
| BinFiling.LargeInserted | core/malloc.cxx:1821-1872 | `insert_large_chunk` as a whole: pointers, rings, tree map and the filing of every other chunk |
| BinFiling.LargeRemoved | core/malloc.cxx:1889-1958 | `unlink_large_chunk` as a whole: one chunk leaves, all bins stay well-formed, the bit is cleared with the last chunk |
| Malloc.MallocState.InsertSmallChunk | core/malloc.cxx:1750-1766 | the chunk is filed in front of its small bin; rings, map bits and all other bins stay in order |
| Malloc.MallocState.UnlinkSmallChunk | core/malloc.cxx:1769-1786 | the chunk leaves its ring, the others keep their order; the bit is cleared exactly when the ring is empty |
| Malloc.MallocState.UnlinkFirstSmallChunk | core/malloc.cxx:1789-1803 | the most recently freed chunk of a marked bin is taken |
| Malloc.MallocState.InsertLargeChunk | core/malloc.cxx:1821-1872 | the walk by bits of the size, and the insertion into the tree or a ring, keep the tree bins in order |
| Malloc.MallocState.UnlinkLargeChunk | core/malloc.cxx:1889-1958 | replacement by a ring neighbour or the rightmost leaf keeps the tree bins in order |
| Malloc.MallocState.ReplaceDv | core/malloc.cxx:1807-1815 | the old victim is filed in a bin, the new one is the only victim |
| TreeSearch.WalkStep | core/malloc.cxx:2516-2533 | sizes that fit better than the best so far are below the current node, in the deepest untaken right subtree, or lose against all of it |
| TreeSearch.LeftStep | core/malloc.cxx:2546-2553 | along leftmost children nothing better is left behind |
| TreeSearch.FitsBetter | core/malloc.cxx:2507-2521 | the unsigned comparison of remainders means that the chunk fits, and fits better |
| BinFiling.SearchStep | core/malloc.cxx:2516-2533 | one round of the search with its bookkeeping of both subtrees |
| Malloc.MallocState.SearchPath | core/malloc.cxx:2512-2534 | after the walk in the bin of the request nothing better is outside the subtree it ends with |
| Malloc.MallocState.SearchLeft | core/malloc.cxx:2546-2553 | after the leftmost walk no chunk of the bin that fits is smaller |
| Malloc.MallocState.FindBestFit | core/malloc.cxx:2505-2553 | the result is a least chunk that fits among all tree bins; none fits when there is no result |
| Malloc.MallocState.TmallocLarge | core/malloc.cxx:2505-2575 | best fit over all tree bins, and zero only if none fits or the victim fits at least as well |
| Malloc.MallocState.FindSmallest | core/malloc.cxx:2582-2594 | the least chunk of all tree bins |
| Malloc.MallocState.TmallocSmall | core/malloc.cxx:2578-2614 | the least chunk of all tree bins is cut; the remainder, if it is a chunk, becomes the victim |
| Malloc.MallocState.UseVictim | core/malloc.cxx:2996-3014 | the victim is split, and the rest stays the victim, or it is used up |
| Malloc.MallocState.UseTop | core/malloc.cxx:3016-3026 | the lower part of `top` is allocated |
| Malloc.MallocState.MoreCore | core/malloc.cxx:2259-2270 | the break moves by exactly the bytes that were asked for and granted; the old break is returned |
| Malloc.MallocState.SysAlloc | core/malloc.cxx:2207-2394 | `top` and footprint grow by exactly the bytes that MORECORE was asked for and granted, up to the break; the request is cut from there; zero leaves all chunks as they were |
| Malloc.MallocState.MallocSmall | core/malloc.cxx:2933-2984 | a small request gets a chunk of its own or the next small size before the victim, and else, when the victim is too small, the best fit over all bins; of a small bin the newest chunk; what is cut off becomes the victim |
| Malloc.MallocState.MallocLarge | core/malloc.cxx:2986-3028 | a large request gets the best fit in the bins, if it fits better than the victim |
| Malloc.MallocState.Malloc | core/malloc.cxx:2906-3036 | a new block of at least the padded size and less than a minimal chunk more; all other blocks stay; it is cut from the best fit in the bins, from the victim or from `top`, in that order of preference; the segment grows only when none of these holds the request, and then by what MORECORE was asked for and granted; it fails only when the request is too large, or when nothing holds it and the system grants nothing or the segment has no room to grow |
| Malloc.MallocState.Free | core/malloc.cxx:3038-3136 | exactly the block is released; with its free neighbours it becomes one chunk, which goes into `top` when it reaches it, is the victim when it took that in, and is binned otherwise; no other chunk changes |
| Malloc.MallocState.FreeForward | core/malloc.cxx:3089-3125 | merging with `top`, with the victim, with a binned chunk, or not at all |
| ChunkMaps.JoinKeeps | core/malloc.cxx:3061-3125 | merging a freed chunk with its free neighbours leaves no two free neighbours, and only that block dies |
| ChunkMaps.JoinTags | core/malloc.cxx:3061-3125 | the tag words after the merge describe the merged tiling |
| Malloc.MallocState.Realloc | core/malloc.cxx:2618-2684 | the first bytes of the block, up to the smaller of both sizes, are kept; other blocks and their bytes are untouched; the block stays in place exactly when it is large enough or lies before a `top` with room; it fails only for want of memory, and then nothing changed |
| Malloc.MallocState.GrowIntoTop | core/malloc.cxx:2646-2656 | a block before `top` grows in place |
| Malloc.MallocState.MoveBlock | core/malloc.cxx:2658-2681 | a block that has to move: a new one, its bytes, and the old one freed |
| Malloc.MallocState.Memalign | core/malloc.cxx:2688-2771 | the block is aligned as asked and large enough; leader and trailer are given back; it fails only when the larger request that it makes is refused |
| Malloc.MallocState.TrimToAlignment | core/malloc.cxx:2708-2767 | the aligned block lies inside the block that was allocated for it |
| Malloc.MallocState.CutLeader | core/malloc.cxx:2709-2742 | a misaligned chunk is cut so that its upper part is aligned |
| Malloc.AlignUp | core/malloc.cxx:2709-2722 | whether a block is aligned, and the chunk of the next aligned address |
| Malloc.MallocState.NormalAlignment | core/malloc.cxx:2691-2697 | alignments are rounded up to a power of two |
| Malloc.RoundingEnds | core/malloc.cxx:2693-2697 | the rounding loop ends exactly for alignments up to 2^31 |
| Powers.PowerTest | core/malloc.cxx:2693 | the test `alignment & (alignment - 1)` tells exactly the powers of two |
| Powers.Masks | core/malloc.cxx:2709-2722 | for a power of two, masking with it minus one takes the remainder, and masking with its negation rounds down |
| Powers.SameMask | core/malloc.cxx:520-521 | the complement of a power of two minus one, as the macros write it, is its negation |
| Malloc.PadRequestMasks | core/malloc.cxx:520-521 | the masked sum of `pad_request` is the least multiple of eight with room for the request and the head word |
| Malloc.GranularityMasks | core/malloc.cxx:928-929 | the masked sum of `granularity_align` is that sum rounded down to the granularity |
| Malloc.AskedIs | core/malloc.cxx:2259-2261 | what MORECORE is asked for is the least multiple of the granularity above what is missing |
| Malloc.MallocState.constructor | core/malloc.cxx:2065-2088 | the fresh heap is one segment that is all `top`, with empty bins |
| Malloc.MallocState.TraverseAndCheck | core/malloc.cxx:1601-1628 | none of its assertions can fail, and the sum is the footprint |
| Malloc.MallocState.UserWrites | core/malloc.cxx:538-588 | programs that write only their payloads leave the heap valid |
| Malloc.MallocState.LiveApart | core/malloc.cxx:1431-1476 | live blocks do not overlap |
| Tiles.NoOverlap | core/malloc.cxx:538-574 | chunks do not overlap |
| Tiles.Covered | core/malloc.cxx:1601-1628 | chunks cover the segment from its base to `top` |
| Tiles.ReadTags | core/malloc.cxx:538-574 | the bits and sizes read off the tag words are those of the chunk and of its predecessor |
| Layout.WordsApart | core/malloc.cxx:538-574 | no two words of the allocator overlap, in chunks that do not |
| Layout.PayloadApart | core/malloc.cxx:538-574 | payloads overlap neither words of the allocator nor each other |
| HeapRuns.Client.Calls | core/malloc.cxx:2618-3136 | over every run of malloc, free, realloc, memalign and writes: every allowed call takes its step of a map from handles to byte strings; frees and writes always succeed, other calls fail only for want of memory; between calls the tags tile the segment up to the break, free chunks are coalesced and filed in the bins, and the live chunks hold those bytes; the break moves only by what MORECORE was asked for and granted, when nothing held the request; blocks are placed by best fit and aligned as asked, freed ones merge with their neighbours, and none moves but the one reallocated |
| HeapRuns.Client.Call | core/malloc.cxx:2618-3136 | one call takes one step of that map, and fails only for want of memory |
| HeapRuns.Stored | core/malloc.cxx:516-525 | a write to one block changes the bytes of no other |
| HeapRuns.StoreSpares | core/malloc.cxx:538-588 | a store into an allocated block may change whatever the allocator's stale words read, but none that it relies on |
| HeapRuns.Moves | core/malloc.cxx:2673-2681 | a reallocated block keeps its bytes, and the others theirs |
| FatDisk.EntryWritten | core/fat32.cxx:145-166 | writing one entry changes that entry of that copy of the table, and nothing else |
| FatDisk.EntriesApart | core/fat32.cxx:145-166 | distinct entries have distinct places |
| FatBytes.EntryIsNumber | core/fat32.cxx:130-142 | an entry of the table is the lower 28 bits of the little-endian number at four times its cluster, on the volume as one string of bytes |
| FatBytes.EntryStoredFlat | core/fat32.cxx:145-166 | writing an entry changes these 28 bits of the volume, and no others |
| FatSystem.FileSys.LoadSector | core/fat32.cxx:98-111 | afterwards the buffer holds the sector |
| FatSystem.FileSys.StoreSector | core/fat32.cxx:114-121 | the sector is on the device, and the buffer agrees with it |
| FatSystem.FileSys.FatGet | core/fat32.cxx:130-142 | the entry of the table |
| FatSystem.FileSys.FatSet | core/fat32.cxx:169-186 | all copies take the entry; a failure leaves some copies written |
| FatSystem.FileSys.FatAllocate | core/fat32.cxx:189-223 | the least free cluster, when the hint holds or there is none; or none is free |
| FatSystem.FileSys.FatFreeChain | core/fat32.cxx:226-252 | whatever links the table has, as long as those that the walk meets stay in it, cyclic or not: the walk ends, and frees what it visits |
| FatChains.FreeRunChain | core/fat32.cxx:226-252 | on a complete chain exactly its clusters are freed, each counted once |
| FatChains.FreeRunAny | core/fat32.cxx:226-252 | the walk ends; the free count keeps its offset except when the walk reaches an entry that was free, or that it freed itself |
| FatSystem.FileSys.FatRecomputeFreeClusters | core/fat32.cxx:255-277 | the count is two more than the free entries; the hint is the first free one |
| FatSystem.FileSys.RebuildFreeInfo | core/fat32.cxx:390-410 | after a rebuild the hint holds, and the count is off by two |
| FatSystem.FileSys.FatLink | core/fat32.cxx:911-930 | linking keeps the hint and the accounting |
| FatSystem.FileSys.FatClusterAt | core/fat32.cxx:742-751 | the cluster after that many links, whatever the links outside the walk |
| FatSystem.FileSys.ClusterForOffset | core/fat32.cxx:672-691 | the cluster of a byte offset, or failure exactly behind the end of the chain |
| FatSystem.FileSys.ChainLength | core/fat32.cxx:1519-1532 | on a chain that ends: its true length |
| FatChains.ChainDistinct | core/fat32.cxx:26-46 | a complete chain visits no cluster twice |
| FatChains.ChainUnique | core/fat32.cxx:26-46 | a first cluster starts at most one complete chain |
| FatChains.SharedTail | core/fat32.cxx:26-46 | chains that meet share their tails |
| FatChains.Allocated | core/fat32.cxx:189-223 | allocation disturbs no chain |
| FatChains.Extended | core/fat32.cxx:898-934 | linking a fresh cluster behind the end keeps all chains apart |
| FatChains.FreedChain | core/fat32.cxx:226-252 | freeing a chain leaves the others complete and apart |
| FatChains.ShortenedChain | core/fat32.cxx:947-979 | so does cutting a chain and freeing its rest |
| FatData.ClusterSectorsApart | core/fat32.cxx:124-127 | distinct clusters have distinct sectors |
| FatBytes.DataArea | core/fat32.cxx:124-127 | the sectors of all clusters, in the order of their numbers from two on, are the data area |
| FatBytes.ContentFlat | core/fat32.cxx:124-127 | each byte of a chain is the byte of the volume at its place in its cluster |
| FatBytes.DirentIsNumbers | core/fat32.h:427-431 | first cluster and size of a directory entry are the numbers at 20, 26 and 28 in it |
| FatBytes.DirentStoredFlat | core/fat32.cxx:694-716 | updating an entry stores both numbers, and changes no other byte of the volume |
| FatData.LbaOfByte | core/fat32.h:302-319 | the shifts of a byte offset lead to the sector and place that hold the byte |
| FatFiles.File.UpdateDirent | core/fat32.cxx:694-716 | first cluster and size are on the device, other entries unchanged |
| FatFiles.File.Read | core/fat32.cxx:754-815 | the slice of the file at the position, cut at its end; each byte is the one at its place in its cluster on the volume |
| FatFiles.File.Write | core/fat32.cxx:818-895 | the bytes are spliced in at the position; it stops early only where the file's clusters end and no cluster is free; the table changes only in the file's clusters and in clusters that were free; wherever the device fails, the file is safe, holds what was written so far, and no other file changed |
| FatFiles.File.WriteAll | core/fat32.cxx:839-895 | the loop of `write`, piece by piece |
| FatFiles.WroteOnVolume | core/fat32.cxx:842-886 | what was written is on the volume at its place in the clusters of the file |
| FatFiles.File.StorePiece | core/fat32.cxx:842-886 | one piece of a write, within one sector |
| FatFiles.File.StartChain | core/fat32.cxx:900-906 | the first cluster is allocated, then recorded in the directory |
| FatFiles.File.AppendCluster | core/fat32.cxx:916-924 | a cluster that was free is end-marked, then linked; all other entries of the table stay |
| FatFiles.File.FollowChain | core/fat32.cxx:908-930 | the cluster with that index, the chain growing as needed |
| FatFiles.File.EnsureClusterIndex | core/fat32.cxx:898-934 | the same for files that may have no cluster yet |
| FatFiles.File.Lseek | core/fat32.cxx:1033-1059 | the new position; positions from 2^31 on are refused as negative |
| FatFiles.File.Shrink | core/fat32.cxx:947-979 | the chain is cut to the new size, the clusters behind are free, all other entries of the table stay, the remaining bytes are kept; wherever the device fails, no other file changed, and the file is safe unless clusters are given back that its entry leads to |
| FatFiles.ShortenedIsLeast | core/fat32.cxx:953-958 | the clusters that are kept are the least number that holds the new size |
| FatFiles.File.GrowByCluster | core/fat32.cxx:1001-1021 | a cluster that was free is linked and end-marked; all other entries of the table stay |
| FatFiles.File.Extend | core/fat32.cxx:983-1029 | the chain grows to the clusters asked for, by clusters that were free, and no other entry of the table changes; bytes up to the old size are kept, also when the device fails; the size is recorded, whether or not it fits |
| FatFiles.File.Truncate | core/fat32.cxx:937-1030 | the new size, and the bytes up to the smaller size kept; clusters given back are free, clusters added were, and no other entry of the table changes; the file is in order exactly when the size fits its chain, which it does unless rounding up wraps around; wherever the device fails, no other file changed, and the file is safe unless clusters are given back that its entry leads to |
| FatFiles.WantedIsLeast | core/fat32.cxx:983 | the clusters asked for are the least number that holds the size; when rounding up wraps around, none |
| FatFiles.File.TruncateCutOff | core/fat32.cxx:953-967 | a `truncate` that gives back clusters, stopped after it freed the first of them: no way to assign chains to files makes the entry safe |
| FatFiles.File.FreeFirst | core/fat32.cxx:953-967 | the same for whatever number of clusters is kept |
| FatFiles.ShrinkTornChain | core/fat32.cxx:963-970 | when a cluster of a chain is free, nothing is a complete chain from its first cluster |
| FatFiles.File.Sync | core/fat32.cxx:1086-1093 | the entry on the device has the size and the first cluster; chains and table stay |
| FatFiles.File.Close | core/fat32.cxx:1096-1107 | an empty file gives up its chain, whose clusters are free then; the entry is current; wherever the device fails, no other file changed |
| FatFiles.File.Unlink | core/fat32.cxx:1062-1083 | the entry is marked deleted before the chain is freed, and all its clusters are free at the end: wherever the device fails, no live entry leads to a free cluster, and no other file changed |
| FatDirs.DirFindFreeSlot | core/fat32.cxx:624-669 | the first free entry of the directory, or the first one of a new, cleared cluster; it says that the volume is full only when no slot of the directory and no cluster is free; wherever the device fails, the directory has its old bytes |
| FatDirs.GrowDirectory | core/fat32.cxx:652-664 | the directory chain grows by one cleared cluster that was free, and no other entry of the table changes; wherever the device fails, the directory has its old bytes and nothing else changed; the free count keeps its offset |
| FatRuns.CreateFile | core/fat32.cxx:1110-1164 | a free slot of the given directory gets the name and 21 zeros, and the file that is opened from it is empty and in order; wherever the device fails, no other entry or file changed |
| FatRuns.PutEntry | core/fat32.cxx:1133-1164 | the slot holds the name and 21 zeros, and is read back |
| FatRuns.FreeIsNotLive | core/fat32.cxx:624-669 | the slot that is found is not that of a file in the directory |
| FatRuns.OtherEntryUnderAdding | core/fat32.cxx:652-664 | entries stay where they are and as they are when their directory grows and gets another entry |
| FatRuns.Volume.Write | core/fat32.cxx:818-895 | one file of the volume is overwritten, as a byte string; the table changes only in its clusters and in free ones; when the device fails all other files survive |
| FatRuns.Volume.Read | core/fat32.cxx:754-815 | the slice of that byte string |
| FatRuns.Volume.Open | core/fat32.cxx:719-739 | a file that was found joins the open ones; nothing changes for them |
| FatRuns.Volume.Truncate | core/fat32.cxx:937-1030 | the byte string is cut, or extended by unspecified bytes; clusters given back are free; when the device fails all other files survive |
| FatRuns.Volume.Sync | core/fat32.cxx:1086-1093 | the entry on the device has the size and the first cluster of the handle; chains, table and bytes stay |
| FatRuns.Volume.Close | core/fat32.cxx:1096-1107 | the same, and the file is closed, with its bytes on the device; an empty one gives its clusters back |
| FatRuns.Volume.OpenAgain | core/fat32.cxx:719-739 | the handle that is read from the entry of a closed file is the one that was closed: all bytes are there again |
| FatRuns.Volume.Delete | core/fat32.cxx:1062-1083 | one file disappears: the first byte of its entry on the device is 0xe5, its clusters are free, no other entry of table or directory changed; when the device fails all other files survive |
| FatRuns.Volume.CreateIn | core/fat32.cxx:1110-1164 | one empty file appears: a free slot of the given directory holds its name and zeros; or neither a slot nor a cluster is free and nothing changed; when the device fails all files survive |
| FatRuns.Volume.AfterFailure | core/fat32.cxx:26-46 | a failure of the device in a call on one file leaves every other file its chain, its entry and its bytes |
| FatRuns.Volume.Calls | core/fat32.cxx:719-1164 | over every run of reads, writes, truncates, syncs, closes, reopenings, deletions and creations: every allowed call takes its step of a map from files to byte strings and answers what that map says, or stops where it needs a cluster and the table of that moment has none free; it changes one chain, frees what that chain lost, takes only free clusters, and leaves all other entries of the table, all other directory entries and all other handles as they were; a deletion marks the entry, a creation writes the name into a free slot of its directory, sync and close bring size and first cluster to the device, and a file that is closed and opened again has its bytes; at every moment the chains are apart, all copies of the table are equal, hint and free count as true as before, and the device holds the bytes of all files; a failure of the device ends the run, and the files that the failed call is not on survive it |
| FatRuns.WriteIsOverwrite | core/fat32.cxx:839-886 | writing pieces at the position is overwriting the byte string, also behind its end |
| FatRuns.OverwrittenIs | core/fat32.cxx:839-886 | at or before the end that determines the new byte string |
| FatRuns.OtherBytesKept | core/fat32.cxx:818-1030 | the bytes of other files are untouched |
| FatRuns.OtherEntryKept | core/fat32.cxx:694-716 | so are their directory entries |
| FatRuns.ShrinkTornCrossLinks | core/fat32.cxx:953-970 | when `truncate` or `close` was cut off after it freed a cluster and another file is given that cluster, the entry and the other file lead to it |
| FatCheck.FsckMarkChain | core/fat32.cxx:1490-1516 | the marking loop, on every table, computes `MarkRun` |
| FatCheck.MarkedNext | core/fat32.cxx:1490-1516 | a start is marked without complaint exactly when it starts a walk that ends, repeats nothing, and meets no walk marked before |
| FatCheck.WalkMarked | core/fat32.cxx:1490-1516 | such a walk is counted once, and only it |
| FatCheck.FreshWalkMarks | core/fat32.cxx:1490-1516 | every fresh walk is marked without complaint |
| FatCheck.FsckFiles | core/fat32.cxx:1438-1467 | `fsck` of a list of files ends exactly when all their chains end; then it complains of no chain exactly when none repeats a cluster or shares one, of no size exactly when all fit, and of no lost cluster exactly when the chains cover all clusters in use |
| FatCheck.FsckMarkFiles | core/fat32.cxx:1668-1700 | the loop over the files: marking, counting and comparing sizes; afterwards the counts are one on the chains and zero elsewhere |
| FatCheck.NextFile | core/fat32.cxx:1668-1691 | a file is fine together with those before it exactly when it is marked without complaint |
| FatCheck.ChainLengthEnds | core/fat32.cxx:1519-1532 | the length loop ends exactly on chains that end |
| FatCheck.FsckChainLength | core/fat32.cxx:1519-1532 | on every table: the length of a chain that ends; or that the loop runs on forever; or that it leaves the table |
| FatCheck.StopsSoon | core/fat32.cxx:1519-1532 | a loop along links that stops at all has stopped after as many rounds as there are clusters |
| FatCheck.SelfLoopCountsForever | core/fat32.cxx:1509-1532 | a cluster linked to itself is complained about, and then its length is counted without end |
| FatCheck.FatCompare | core/fat32.cxx:1737-1765 | no difference is reported exactly when all sectors of both copies are equal |
| FatCheck.EqualCopies | core/fat32.cxx:1737-1765 | copies with equal sectors have equal entries |
| BlockCache.CacheBlockDev.LruMoveToFront | core/blkcache.cxx:10-33 | the list stays a list, with the entry moved to its front |
| LruLists.MovedToFront | core/blkcache.cxx:10-33 | the same on links |
| BlockCache.CacheBlockDev.CacheLookup | core/blkcache.cxx:36-44 | the one entry that holds the sector, if any |
| BlockCache.CacheBlockDev.CacheEvict | core/blkcache.cxx:55-70 | the least recently used entry is written back and given up; the user sees no difference |
| BlockCache.CacheBlockDev.CacheAllocEntry | core/blkcache.cxx:73-81 | an unused entry, or an evicted one |
| BlockCache.CacheBlockDev.ReadBlocks | core/blkcache.cxx:100-128 | the sectors as the user sees them; hits are counted by recency |
| BlockCache.CacheBlockDev.WriteBlocks | core/blkcache.cxx:147-182 | exactly the written sectors change; when it fails, a prefix of them |
| BlockCache.CacheBlockDev.PutBlock | core/blkcache.cxx:153-176 | the sector that the user sees is the one written; a failed write-through leaves it dirty, at odds with the mode |
| BlockCache.CacheBlockDev.ReadBypass | core/blkcache.cxx:86-98 | a bypass read drops the entries of its range; the user sees no difference exactly when the device already holds what he saw there |
| BlockCache.CacheBlockDev.WriteBypass | core/blkcache.cxx:133-145 | a bypass write changes exactly its sectors |
| BlockCache.CacheBlockDev.Flush | core/blkcache.cxx:185-207 | the device holds what the user sees, except for the dirty sectors that could not be written, which are marked clean all the same; the cache is in order exactly when the device holds all that the user sees |
| BlockCache.CacheBlockDev.CachedAreRecent | core/blkcache.cxx:73-128 | the cached sectors are exactly the at most sixteen accessed last |
| BlockCache.CacheBlockDev.Run | core/blkcache.cxx:84-207 | over every run of reads, writes and flushes without bypass the cache answers as a flat device does, and holds the last distinct sectors; it fails only with the device |
| BlockCache.RecentMeaning | core/blkcache.cxx:10-33 | the recency list is the trace of accesses, each sector once, in the reverse order of its last access |
| BlockCache.HitRecency | core/blkcache.cxx:101-125 | a hit moves list and recency alike |
| BlockCache.MissRecency | core/blkcache.cxx:73-125 | so does a miss, which gives up the least recent sector when the cache is full |
| BlockCache.CacheBlockDev.constructor | core/blkcache.h:44-56 | an empty cache over the device |
| CuckooHash.HashTable.Find | core/hashtable.cxx:67-80 | an equal item is found exactly when one is stored |
| CuckooHash.HashTable.Erase | core/hashtable.cxx:83-88 | exactly that slot is emptied |
| CuckooHash.HashTable.Evict | core/hashtable.cxx:45-55 | the item goes to its first slot, and each item that has to leave to its other slot; table and item in hand together conserve the items |
| CuckooHash.FreeSlotSettles | core/hashtable.cxx:45-49 | an item whose first slot is free is placed at once |
| CuckooHash.DeeperWalk | core/hashtable.cxx:45-55 | a larger eviction depth changes nothing for items that settle with a smaller one |
| CuckooHash.WalkIsRoute | core/hashtable.cxx:45-55 | the walk of evictions is the route on which every item that has to leave goes to its other slot; table and item in hand are what that leaves |
| CuckooHash.SettlesByRoute | core/hashtable.cxx:45-55 | an item settles exactly when that route meets a free slot within the depth |
| CuckooHash.OneEviction | core/hashtable.cxx:45-55 | an item whose first slot is taken by one that can move is placed with one eviction |
| CuckooHash.HashTable.Insert | core/hashtable.cxx:32-64 | the item is added, through all evictions and doublings, unless an equal one is there; the table is doubled exactly when the first walk of evictions finds no free slot; when all doublings allowed are used up it gives up, and table, item in hand and items not yet moved over are still the old items and the new one |
| CuckooHash.HashTable.Rehash | core/hashtable.cxx:118-138 | the table is doubled, and once more for each doubling counted, and keeps its items; it gives up only after all doublings allowed, at an item whose walk of evictions finds no free slot, and no item is lost |
| CuckooHash.MaskedBits | core/hashtable.cxx:36-39 | masking a hash with the size minus one takes the remainder |
| CuckooHash.ThreeCollide | core/hashtable.cxx:32-64 | no table holds three items with the same pair of hashes |
| CuckooHash.HashMap.Lookup | core/hashmap.h:79-82 | the slot of a key, exactly when it is in the map |
| CuckooHash.HashMap.Find | core/hashmap.h:72-77 | the value of the key in the map |
| CuckooHash.HashMap.Insert | core/hashmap.h:59-70 | the map with the key set; whether it is new; it gives up only after all doublings allowed, without losing an entry |
| CuckooHash.HashMap.Erase | core/hashmap.h:51-57 | the map without the key; whether it was there |
| Scheduler.Kernel.Pass | core/thread.cxx:202-245 | expired waits are readied; earliest wait, first most urgent thread and peers on both sides are found |
| Scheduler.Kernel.PickNext | core/thread.cxx:247-271 | the choice is runnable and unbeaten, the timer in time |
| Scheduler.Kernel.Rotate | core/thread.cxx:193-291 | the switch, the posted request or the pending flag, for the choice that was made |
| Scheduler.ChoiceMade | core/thread.cxx:247-266 | the three-way choice always takes an unbeaten runnable thread |
| Scheduler.DeadlineMet | core/thread.cxx:248-271 | the timer comes no later than any deadline, but for the least delay |
| Scheduler.Kernel.WakeAll | core/thread.cxx:293-317 | exactly the waiters of the object are readied |
| Scheduler.Kernel.WakeSingle | core/thread.cxx:320-345 | exactly the first most urgent waiter is readied |
| Scheduler.Kernel.WaitFor | core/thread.cxx:370-381 | the thread is blocked, and a switch has been asked for |
| Scheduler.Kernel.WaitUntil | core/thread.cxx:384-398 | the same with a time limit; none at all when that has passed |
| Scheduler.Kernel.TakeTurns | core/thread.cxx:252-261 | under repeated switches with the quantum over, equal threads take turns cyclically |
| Scheduler.NextInRing | core/thread.cxx:222-261 | the next peer is the next one in the ring of equals |
| Scheduler.Kernel.SetTimer | core/thread.cxx:428-436 | the delay, and at least five microseconds |
| Mutexes.Synchronized.TryLock | core/mutex.cxx:9-21 | succeeds exactly on a free mutex, not even for its owner |
| Mutexes.Synchronized.Lock | core/mutex.cxx:24-40 | taken, taken once more, or put to wait without a limit; the invariant is kept except when the owner overflows the depth |
| Mutexes.Synchronized.Resume | core/mutex.cxx:30-40 | a woken thread takes the free mutex, at the depth it gave up, or waits again |
| Mutexes.Synchronized.Unlock | core/mutex.cxx:43-54 | one level less; the most urgent waiter is woken |
| Mutexes.Synchronized.CondWait | core/mutex.cxx:57-67 | the mutex is free whatever its depth, a waiter for it is woken, and the thread waits without a limit |
| Mutexes.Synchronized.CondWaitUntil | core/mutex.cxx:77-87 | the same with the time limit, in the state and at the time that the scheduler looks for; a limit that is past is no wait |
| Mutexes.Synchronized.CondWaitEnds | core/mutex.cxx:69-74 | afterwards the thread owns the mutex at the depth it had, or waits for it |
| Mutexes.Synchronized.Signal | core/mutex.h:89 | the most urgent waiter is woken whenever there is one |
| Mutexes.Synchronized.Broadcast | core/mutex.h:90 | all waiters are woken |
| Mutexes.Synchronized.Step | core/mutex.cxx:9-93 | every enabled step does what it means for the mutex, the depths, the places and the threads, and keeps the invariant; no other step is taken |
| Mutexes.Synchronized.Run | core/mutex.cxx:9-93 | over every run each step does what it means, and at every moment the mutex has at most one holder, at the recorded depth, the counters of waiters are true, and no wake-up is lost |
| Mutexes.OneHolder | core/mutex.cxx:9-54 | the holder is the recorded owner |
| Mutexes.NoLostWakeup | core/mutex.cxx:24-54 | a free mutex with waiters has a runnable thread in the loop |
| Mutexes.WaitStep | core/mutex.cxx:57-93 | a step leaves a waiter as it is, or wakes it as a signal or because its limit is over; a switch of threads at the limit or later makes it runnable |
| Mutexes.LimitWakes | core/mutex.cxx:77-93 | over every run, a thread that waits with a limit can run at the latest after the first switch of threads at that time or later |
| Mutexes.NoSpuriousWakeup | core/mutex.cxx:57-93 | over every run, nothing but a signal, a broadcast or the limit ends such a wait |
| Sha1.Transform | core/sha1.cxx:32-87 | the in-place schedule of sixteen words, swapped bytes and rotating roles compute the block function of section 6.1.2 of FIPS 180-4 |
| Sha1.CircularStep | core/sha1.cxx:20-21 | word t of the eighty-word schedule replaces word t - 16 |
| Sha1.KIsRoot | core/sha1.cxx:24-28 | the constants of the rounds are the first 32 bits of the square roots of 2, 3, 5 and 10 |
| Sha1.RoundInRoles | core/sha1.cxx:24-28 | a round with renamed registers and the short forms of the functions is the round of the standard |
| Sha1.SwapIs | core/sha1.cxx:17-18 | rotating and masking swaps the bytes of a word |
| Sha1.AddBits | core/sha1.cxx:112-114 | the two words of the bit count with their carry, modulo 2^64 |
| Sha1.Sha1.constructor | core/sha1.cxx:91-100 | the initial hash value, and no message |
| Sha1.Sha1.Update | core/sha1.cxx:104-129 | afterwards the stream has taken in the piece as well |
| Sha1.Sha1.Final | core/sha1.cxx:133-162 | the digest of the padded message; the padding loop ends |
| Sha1.PaddedToBlocks | core/sha1.cxx:142-146 | the padding of section 5.1.1 is the shortest one to whole blocks |
| Sha1.PaddingIsInjective | core/sha1.cxx:138-146 | messages below 2^64 bits are determined by their padded form |
| Sha1.Hash | core/sha1.cxx:165-170 | the digest of one block |
| Sha1.HashPieces | core/sha1.cxx:104-162 | the digest does not depend on how the message is split |
| Sha1Examples.ExampleDigest | core/sha1.cxx:91-170 | the digest of the two-block example of FIPS 180 is the published one |
| Crc.InitTable | core/crc32.cxx:54-82 | the table holds eight shift steps of each byte |
| Crc.Crc32.Update | core/crc32.cxx:86-94 | the register goes on as if all pieces were one block |
| Crc.Checksum | core/crc32.cxx:98-103 | the CRC of section 8 of RFC 1952 |
| Crc.ChecksumOfPieces | core/crc32.cxx:86-94 | the pieces of a block have the checksum of the block |
| Crc.BitwiseCrc32 | core/gptmap.cxx:97-109 | the bit-by-bit function computes the same CRC |
| Crc.TableStep | core/crc32.cxx:92-93 | one table step takes in eight bits |
| Crc.ByteIn | core/gptmap.cxx:103-105 | adding a byte and eight steps take in its bits |
| Crc.NoBranch | core/gptmap.cxx:105 | the step without a branch is the step |
| Crc.PolynomialTerms | core/crc32.cxx:57-70 | the polynomial has the terms of the generator polynomial |
| Crc.CheckValue | core/crc32.cxx:86-103 | the checksum of the digits from 1 to 9 is 0xcbf43926 |
| Lookup3.MixIsBijective | core/lookup3.cxx:107-115 | `mix` has an inverse |
| Lookup3.ByWords | core/lookup3.cxx:284-327 | whole words, masked at the end: the hash of the key, whatever lies behind it |
| Lookup3.ByHalfWords | core/lookup3.cxx:350-395 | half words and odd bytes: the same |
| Lookup3.BySingleBytes | core/lookup3.cxx:397-438 | single bytes: the same |
| Lookup3.HashLittle | core/lookup3.cxx:275-442 | one value for a key, for every alignment; that of `hashlittle2` with a zero second seed |
| Lookup3.HashLittle2 | core/lookup3.cxx:463-627 | the same paths with two seeds and two results |
| Lookup3.HashWord | core/lookup3.cxx:166-200 | on words: the hash of their little-endian bytes |
| Lookup3.HashWord2 | core/lookup3.cxx:211-245 | the same with two seeds and two results |
| Lookup3.Masked | core/lookup3.cxx:311-327 | masking a word keeps its first bytes |
| Lookup3.Closing | core/lookup3.cxx:312-437 | all paths make the same of the last block |
| Lookup3Examples.ExampleHash | core/lookup3.cxx:971-972 | the hashes of the key of the self-test are the values listed |
| Lookup3Examples.EmptyKey | core/lookup3.cxx:965-970 | and so are those of the empty key, for all three pairs of seeds |
| Lookup3Examples.XorBits | core/lookup3.cxx:107-115 | the exclusive or of numbers, bit by bit, is that of 32-bit words |

## Left out

The heap:

- The allocator keeps one map per link field, under the address of the chunk, in place of one memory of words; `Layout` shows that words in use share no byte. Bin headers, which the code places inside its own state, are negative addresses.
- Malloc.MallocState.SysAlloc: only extends the one segment in place; whether MORECORE grants what it is asked for is the parameter `granted`, and it has room up to 2^32. Further segments, mapped chunks, `mspace`s, footers, trimming, `calloc`, `independent_calloc` and the reactions to corrupted heaps are not modelled.
- The words that `init_bins` writes into the headers, and that nothing reads before they are overwritten, are kept as the rings of empty bins.
- Malloc.MallocState.Memalign: takes alignments up to 2^31, because the code's loop does not end above (`RoundingEnds`).

The volume:

- Nothing is said of what operations do after the device failed: the buffer may then not match the device, and the code goes on.
- FatFiles.File.Close: stops where the code ignores a failure to free the chain and still writes the entry; so do `DropChain` and `Clear`.
- Sizes of sectors and clusters are divided by, where the code shifts and masks by powers of two. `bypass` is always false, and the sticky error code is not kept.
- Mounting, writing the information sector, looking names up, `make_sfn`, `rename`, `mkdir`, `rmdir`, `fat_copy` and the repairs of `fsck` are not modelled, nor the dates of builds with `FAT32_DATE_AND_TIME`; `create` starts behind the look-up of the directory, and reads its own entry back where the code finds it by name.
- FatSystem.FileSys.FatSet: with mirroring off, the active copy is copy 0.
- FatSystem.FileSys.FatFreeChain: the links that the walk meets must stay in the table (`Closed`), because at others the code reads and writes outside it; the rest of the table may hold anything.
- FatSystem.FileSys.FatClusterAt: the same of the links that its walk meets.
- FatSystem.FileSys.ClusterForOffset: takes starts of complete chains, as open files have them.
- FatSystem.FileSys.ChainLength: takes chains that end, as open files have them; `FsckChainLength` takes all.
- FatFiles.File.Read: takes requests that end below 2^32, where the code's sum of position and length wraps around.
- FatFiles.File.Write: takes requests that end below 2^32, for the same reason.
- FatDirs.DirFindFreeSlot: demands that the directory's chain ends in the one of the eight end marks that `fat_allocate` writes, because the code knows only that one and runs off the table at the others.
- FatRuns.CreateFile: demands the same. `Volume.Calls` keeps that for volumes that use no other mark, and makes no new files on others.
- FatRuns.Volume.Open: starts behind the look-up of the path.
- FatRuns.Volume.Truncate: takes sizes that do not wrap around; `File.Truncate` takes all.
- FatRuns.Volume.Delete: of an open file, takes those whose entry on the device has the first cluster of the handle, because `unlink` reads the entry again; a growth of an empty file that ran out of clusters is not yet recorded there. Of a device that fails, what the table holds outside the chains is not stated.
- One handle per file is open at a time, as the code does not coordinate several. Positions from 2^31 on are refused, as in the code. What a file holds between its old end and a new one is not specified, as in the code.
- FatCheck.FsckFiles: takes the start clusters and sizes of the files as lists, because the walk over the directories that collects them, whose own clusters it marks, is not modelled. Where the code would count without end or leave the table, the method says so and stops.
- FatCheck.FsckMarkFiles: takes the same lists, and stops in the same places.

The others:

- CuckooHash.HashTable.Insert: bounds the number of doublings by a fuel argument, and gives up only when it is used up, because whether the items ever fit depends on the hash values (`ThreeCollide`); after a doubling it does not say which slots the items are in. `operator[]` is not modelled.
- CuckooHash.HashTable.Rehash: has the same bound.
- CuckooHash.HashMap.Insert: has the same bound.
- Scheduler.Kernel.Rotate: needs a runnable thread, because the idle loop, sleeping, `SetPriority`, the floating-point state and interrupt levels are not modelled. Delays of the timer wrap at 2^32 microseconds, as in the code.
- Scheduler.Kernel.PickNext: needs a runnable thread.
- Scheduler.Kernel.WaitFor: needs another runnable thread.
- Scheduler.Kernel.WaitUntil: needs another runnable thread.
- Mutexes.Synchronized.Lock: needs another runnable thread where it blocks.
- Mutexes.Synchronized.Resume: needs another runnable thread where it blocks.
- Mutexes.Synchronized.CondWait: needs another runnable thread.
- Mutexes.Synchronized.CondWaitUntil: needs another runnable thread.
- Mutexes.Synchronized.CondWaitEnds: needs another runnable thread where it blocks.
- Mutexes take interrupts-off sections as atomic steps; `EventObject` and `SecondLock` are not modelled.
- Sha1.Sha1.Update: takes pieces of fewer than 2^32 - 64 bytes, because the code's 32-bit index wraps around above.
- Sha1.Hash: takes blocks of the same sizes; buffers that overlap the result are not modelled.
- Sha1.HashPieces: takes pieces of the same sizes.
- Crc.InitTable: the table that is computed at start is modelled; the constant table of another build is not compared with it.
- Lookup3.HashWord: takes keys of fewer than 2^30 words, which fill the 32-bit memory.
- Lookup3.HashWord2: takes keys of fewer than 2^30 words.
- Lookup3: `hashbig` is not modelled. The paths of `hashlittle` and `hashlittle2` are shared methods; bytes behind the key are whatever memory holds.
