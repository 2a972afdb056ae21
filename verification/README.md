# Whitix storage and kernel core: a verification model

Whitix is an i386 kernel. This project models the stateful algorithms at its core in Dafny and proves what
they promise: file systems that keep their files apart, a journal that survives crashes, a cache and an address
space that are transparent, an allocator that never hands out the same memory twice, a scheduler that is fair.

`dafny verify dfyconfig.toml` checks everything.

| file | models | main results |
|---|---|---|
| `Ext3Alloc.dfy` | block groups, bitmaps, free counts | counts exact over every run; lowest free block; freeing undoes allocating |
| `Ext3BlockMap.dfy` | direct, indirect and double indirect block map | a creating lookup is a map update; all pointers stay separated; the layout word by word |
| `Ext3Growth.dfy` | files written block after block | a file takes its data blocks and exactly the tables it needs |
| `Ext3Dir.dfy` | directory records in one block | records tile the block; runs of add and remove on its bytes are a finite map |
| `FatTable.dfy` | 12, 16 and 28-bit entries, mirrored tables | array laws; which numbers the bytes are; backups stay equal |
| `FatChains.dfy` | cluster chains | chains stay finite, disjoint and exact over every run; the three outcomes of the free search |
| `FatFiles.dfy` | `FatBlockMap` | the block map reads and extends chains exactly |
| `FatContents.dfy` | generic read and write | a write splices one file's bytes as far as findable clusters reach, no other file changes |
| `FatNames.dfy` | long names | what the writer lays down the reader gives back |
| `FatDates.dfy` | packed dates | round trip over the whole DWORD range from 1980 |
| `FatCalendar.dfy` | the same dates against the calendar | right day by day, up to a day in 2100 |
| `JournalRecovery.dfy` | scan and replay passes | recovery is crash safe and idempotent on every log, around its end as well |
| `JournalRecords.dfy` | descriptor and commit blocks as a commit lays them down | recovery gives back what committed transactions logged |
| `JournalSpace.dfy` | log space accounting | conservation, and the unmount loop ends after two calls |
| `BufferCache.dfy` | buffer cache of a device | transparency, sync, change of block size |
| `Scheduler.dfy` | thread choice and timer tick | exact round length; each thread runs for its priority |
| `SlabAllocator.dfy` | caches, slabs, `MemAlloc` | live objects are disjoint; exactly when allocation comes back, and with which object |
| `VmAreas.dfy` | memory areas of a process | lowest gap; merging changes nothing at any address |
| `HeapSort.dfy` | heap sort on byte offsets | sorted permutation for every count and size |
| `Bitmap.dfy`, `Bytes.dfy`, `Arith.dfy`, `Grid.dfy`, `Sequences.dfy`, `Errors.dfy`, `Options.dfy` | bits, bytes, positions, sequences, error codes | shared foundations |

How the model is made:

- Objects that the kernel updates in place are classes with fields; linked lists are sequences in the order in
  which the kernel visits them. A device is a sequence or a map of blocks. Spin locks and masked interrupts make
  each operation atomic.
- Integers are unbounded unless a property is about the width. Wrap-around is written out where the code depends
  on it: the DWORD differences in `Ext3BlockFree` and `FileGenericRead`, and all of the date arithmetic.
- Results of code outside the model are parameters: whether memory or an I/O request is granted, which pages
  `VirtMapPhysRange` answers with, the vNode of the Zero device.
- `Row`, `Col` and `At` of `Grid` are `/`, `%` and multiply-add (`Grid.GridIsDivMod`, `Grid.AtIsMul`).

Where a promise fails, the model keeps the code and states the exact condition:

- A block freed twice breaks the free counts: they stay exact if and only if the block was allocated
  (`Ext3Alloc.MarkedExact`).
- A creating ext3 lookup succeeds if and only if the missing blocks of its path are free; when it fails it still
  answers a block number, 0 or a word of block 0 (`Ext3BlockMap.Volume.MapHandle`).
- Removing the first record of a directory does not hide it from `Ext3FindEntry`; removing any other does
  (`Ext3Dir.HiddenIffNotFirst`).
- `FatRemoveClusters` does not raise the FAT32 free count: the count stays right if and only if the file was
  empty (`FatChains.FatVolume.RemoveClusters`).
- The free search of `FatAddCluster` runs up to a sector count T, not to the number of clusters. A free cluster is
  called findable when its number is below T.
  - The search answers a cluster or nothing if and only if a cluster is findable or no entry between the last
    cluster and T is zero (`FatChains.SearchOutcome`, with the full volume of `FatChains.FullVolumeExample`). Otherwise
    the code goes on with a number whose sectors lie behind the volume; the methods that add clusters report this as
    `outside` and say exactly when it happens.
  - A free cluster is missed if and only if it is number T and no other is free (`FatChains.MissedIff`, with the volume
    of `FatChains.MissedExample`); `FatAddCluster` then answers -ENOSPC. T is the number of a cluster if and only if a
    cluster has one sector (`FatChains.LastClusters`, for T of at least 4).
  - On the same volumes the last cluster is number T + 1. `FatAccess` panics on it, so it counts as neither free nor
    findable: it is never handed out, and a chain walk ends in the panic if and only if the chain holds T + 1
    (`FatChains.FatVolume.WalkToEnd`).
- The path of `FatBlockMap` for a file without clusters is right only for sector 0 (`FatFiles.FirstClusterAnswer`).
- A long name fits the reader's 255-byte buffer if and only if it has at most 247 characters (`FatNames.FitsBuffer`).
- The long-name writer looks for free entries for its slots only and puts the short entry behind them: no entry in
  use is lost if and only if that one is free too, or already has the contents it would get (`FatNames.KeepsUsedIff`,
  `FatNames.Directory.CreateName`, with the directory of `FatNames.OverwriteExample`).
- The replay pass of the journal is not bounded by the scan: it copies only committed blocks if and only if no
  descriptor with the scan's end transaction number has a tag (`JournalRecovery.ReplaysTail`, with an example log).
- The two passes read the same positions of the log, and go around its end together, if and only if no descriptor's
  tagged blocks run over the end (`JournalRecovery.PathsAgreeIff`). Otherwise the scan leaves the log, which
  `JournalRecovery.Journal.DoOnePass` reports as `left`.
- `JournalCreate` recovers before it sets `head`. A pass that wraps then goes on at block 0, the journal superblock: it
  stops there unless the superblock carries the number looked for, tagged blocks that run over the end get a copy of
  it, and where tagged blocks end with the log the scan leaves the log instead (`JournalRecovery.WrapMeetsSuperblock`,
  `JournalRecovery.WrapCopiesSuperblock`).
- Every fourth year is a leap year to the date code. The date stored is the Gregorian one if and only if the time lies
  before 1 March 2100, which is stored as 29 February (`FatCalendar.GregorianIff`).
- A slab is marked full if and only if its highest object is the one taken (`SlabAllocator.MarkedFullIff`). A slab that
  fills up otherwise stays unmarked and is searched each time; no object is lost by it (`SlabAllocator.FreeAtIff`).
- A current thread that `ThrSuspendThread` suspends is not runnable until the next reschedule; no other event lets the
  current thread be one that cannot run (`Scheduler.StepValidIff`).
- `Sort` ends if and only if the element size is not zero (`HeapSort.EndsIffSized`).
- A non-zero free count of the log does not mean that the next block lies inside it (`JournalSpace.NextBlockInside`,
  with an example run).
- `MemCacheAlloc` comes back if and only if it has no slab and gets none, or finds or gets a free object
  (`SlabAllocator.Heap.MemCacheAlloc` and `SlabAllocator.Diverges`). A cache of objects above a page that are not
  whole pages holds none (`SlabAllocator.HoldsObjectsIff`).
- `MMapFindAddress` can answer a range that ends outside user space: it stays inside if and only if user space has
  a free range that is long enough (`VmAreas.InsideIffRoom`, with an example).

Where comments and code disagree, the model follows the code: the comment on `MemCacheConstructSlab` says that a
new slab goes to the head of the list, but it is visited last; `Ext3BlockCreateTable` passes the length and the
fill value of `memset` in the wrong order, so that only the zeroing in `Ext3BlockNew` counts.

## Model

| member | source | states |
|---|---|---|
| `Bitmap.WithBitLaw` | lib/bitmap.c:42-70 | BmapGetBit after BmapSetBit: the bit written has the new value, every other bit its old one, although eight share a byte |
| `Bitmap.BitIsShift` | lib/bitmap.c:23-70 | the mask table of the setter and the shift of the getter name the same bit: bit i mod 8 from the lowest, of byte i div 8 |
| `Bytes.Be32IsNumber` | fs/journal/recovery.c:69-81 | a big-endian DWORD is the number its bytes store, highest first |
| `Bitmap.ClearUndoesSet` | lib/bitmap.c:42-50 | clearing a bit that was clear before it was set restores the whole bitmap |
| `Bitmap.WordBits` | include/bitmap.h:40-52 | the word test of the scan holds exactly when all 32 bits of the word are set |
| `Bitmap.FindFirstZero` | include/bitmap.h:32-55 | the word scan returns the first zero bit: all lower bits are set, and the one returned is clear unless all words are full |
| `Ext3Alloc.BlockAtInverse` | fs/ext3/balloc.c:132-318 | the block number made from group and offset gives back that group and offset in the arithmetic of Ext3BlockFree |
| `Ext3Alloc.FreeByBit` | fs/ext3/balloc.c:99-151 | bit j of group g stands for block firstDataBlock + g * blocksPerGrp + j |
| `Ext3Alloc.MarkedIsFree` | fs/ext3/balloc.c:99-151 | marking a block changes whether that block is free and no other |
| `Ext3Alloc.MarkedExact` | fs/ext3/balloc.c:99-318 | group and superblock counts stay exact if and only if the block was in the other state before |
| `Ext3Alloc.FreeUndoesNew` | fs/ext3/balloc.c:281-318 | freeing a block just allocated restores every bitmap and every count |
| `Ext3Alloc.NoLowerFree` | fs/ext3/balloc.c:99-151 | when earlier groups count no free block and lower bits are set, no lower block of the device is free |
| `Ext3Alloc.RelativeBlock` | fs/ext3/balloc.c:281-300 | the DWORD difference lands in a group exactly for blocks that some group describes, also for numbers below the first data block |
| `Ext3Alloc.BlockAllocator.FindGroup` | fs/ext3/balloc.c:107-130 | the group loop takes the first zero bit of the first group with a non-zero count, or none when all counts are zero |
| `Ext3Alloc.BlockAllocator.BlockNew` | fs/ext3/balloc.c:99-151 | returns the lowest free block and takes only that one; 0 exactly when no block is free, and then nothing changes; counts stay exact |
| `Ext3Alloc.BlockAllocator.BlockFree` | fs/ext3/balloc.c:281-318 | -EIO and no change exactly for blocks no group describes; otherwise the block becomes free, and counts stay exact if and only if it was allocated |
| `Ext3BlockMap.Missing` | fs/ext3/balloc.c:167-279 | a lookup has at most three blocks to allocate |
| `Ext3BlockMap.SlotOfInjective` | fs/ext3/balloc.c:176-232 | different file blocks have their pointers in different places |
| `Ext3BlockMap.DirectLayout` | fs/ext3/balloc.c:176-190 | file block k below 12 is pointer k of the inode |
| `Ext3BlockMap.IndirectLayout` | fs/ext3/balloc.c:192-224 | file block 12 + o is word o of the table that pointer 12 names |
| `Ext3BlockMap.DoubleLayout` | fs/ext3/balloc.c:226-273 | file block 12 + e + s * e + o is word o of the table that word s of the table of pointer 13 names |
| `Ext3BlockMap.FailureLooksLikeABlock` | fs/ext3/balloc.c:167-279 | a creating lookup that fails never answers -1: it answers block 0, or what block 0 holds where a table is missing |
| `Ext3BlockMap.LinkedPtr` | fs/ext3/balloc.c:176-272 | linking a fresh zeroed block changes the pointer at one place of one file and no pointer of any other place, although tables live on the same device |
| `Ext3BlockMap.LinkedSeparated` | fs/ext3/balloc.c:153-272 | after linking, all data and table blocks reached from all inodes are still distinct, allocated and not metadata |
| `Ext3BlockMap.FilledUpdates` | fs/ext3/balloc.c:167-279 | filling one place of a path changes the mapping of no other block of any file, and no data block |
| `Ext3BlockMap.DoubleCreated` | fs/ext3/balloc.c:226-273 | the three steps of a double indirect creation, each of which may run out of blocks, add up to one map update or to none |
| `Ext3BlockMap.DoubleFails` | fs/ext3/balloc.c:226-273 | what a double indirect creation answers when its first, second or third block cannot be had |
| `Ext3BlockMap.Volume.NewBlock` | fs/ext3/balloc.c:99-151 | the new block was free and reads as zeros; no other block of the device changes |
| `Ext3BlockMap.Volume.InodePointer` | fs/ext3/balloc.c:176-206 | an inode slot keeps its pointer or, with create, gets a fresh block; 0 exactly when none is free |
| `Ext3BlockMap.Volume.TablePointer` | fs/ext3/balloc.c:207-272 | the same for an entry of a table block, including the case where the table could not be allocated |
| `Ext3BlockMap.Volume.MapDirect` | fs/ext3/balloc.c:176-190 | a direct block: lookup, or creation as a map update; block 0 is the answer when no block is free |
| `Ext3BlockMap.Volume.MapIndirect` | fs/ext3/balloc.c:192-224 | an indirect block: lookup, or creation as a map update, with the exact answer when blocks run out |
| `Ext3BlockMap.Volume.MapDouble` | fs/ext3/balloc.c:226-273 | a double indirect block: lookup, or creation as a map update, with the exact answer when blocks run out |
| `Ext3BlockMap.Volume.MapHandle` | fs/ext3/balloc.c:167-279 | without create nothing changes and the answer is -1 exactly on holes; with create the block becomes mapped if and only if the missing blocks are free, only pointers on its path change, an old mapping is kept, every other block of every file keeps its mapping and all data stays; when blocks run out the answer is block 0 or a word read from block 0; separation holds after every call |
| `Ext3Growth.NextCost` | fs/ext3/balloc.c:167-279 | the next block of a file without holes costs itself and one block for each table that it is the first of |
| `Ext3Growth.DenseNext` | fs/ext3/balloc.c:167-279 | creating that block leaves a file without holes and without a table that holds no block |
| `Ext3Growth.Grow` | fs/ext3/balloc.c:167-279 | writing a file block after block up to length n succeeds if and only if the data blocks and their tables are free, and takes exactly these: one table behind block 12, and behind block 12 + e one more and ceil((n - 12 - e) / e) inner ones; other files keep their blocks |
| `Ext3Dir.MinLen` | fs/ext3/ext3.h:159 | room for the header and the name, rounded up to four |
| `Ext3Dir.HoldsIsBytes` | fs/ext3/ext3.h:179-186 | a record lies at an offset if and only if the bytes of the on-disk structure do: inode number, record length, name length, file type, name |
| `Ext3Dir.RoomIff` | fs/ext3/inode.c:241-309 | the test for room is exact: a live record has room if and only if it can be cut in two that are long enough |
| `Ext3Dir.TilesReplace` | fs/ext3/inode.c:241-374 | replacing some records by others that tile the same bytes leaves a block that is tiled exactly |
| `Ext3Dir.AgreesIffAllLive` | fs/ext3/inode.c:199-239 | with distinct names, the search agrees with the map of live names on every name if and only if no record is dead |
| `Ext3Dir.FirstMatchIsIndex` | fs/ext3/inode.c:218-232 | for names without zero bytes, comparing with strncmp finds the first record with exactly that name |
| `Ext3Dir.SameStringIff` | fs/ext3/inode.c:218-232 | the comparison finds no difference if and only if all bytes up to the first zero byte of the name are equal |
| `Ext3Dir.AddedContents` | fs/ext3/inode.c:241-309 | adding an entry, by taking over a dead record or by splitting one, adds one name to the map and changes no other |
| `Ext3Dir.AddedFiles` | fs/ext3/inode.c:241-309 | the added entry has the file type it was given, and every live entry keeps name, inode and file type |
| `Ext3Dir.SplitLeavesNoRoom` | fs/ext3/inode.c:241-309 | a record that is split keeps its name and no room, all of it goes to the new record behind it |
| `Ext3Dir.RemovedContents` | fs/ext3/inode.c:348-374 | removing an entry takes exactly its name out of the map |
| `Ext3Dir.HiddenIffNotFirst` | fs/ext3/inode.c:348-374 | a removed name is no longer found if and only if its record was not the first |
| `Ext3Dir.StepLive` | fs/ext3/inode.c:241-374 | while the first record stays, every record is live and the first stays first |
| `Ext3Dir.RunIsMap` | fs/ext3/inode.c:199-374 | over every run of additions and removals that keeps the first record, the search is lookup in the finite map that the run describes |
| `Ext3Dir.Directory.FindEntry` | fs/ext3/inode.c:199-239 | for any name the offset of the first record that strncmp takes for it, where that record's inode number is stored, or -ENOENT exactly when there is none; without zero bytes that is the record with this name |
| `Ext3Dir.Directory.AddEntry` | fs/ext3/inode.c:241-309 | the first record with room takes the entry and the records tile the block again; the machine halts exactly when no record has room |
| `Ext3Dir.Directory.RemoveEntry` | fs/ext3/inode.c:348-374 | the record at the offset joins the one before it, or loses its inode if it is the first; -ENOENT when no record starts there; tiling is kept |
| `Ext3Dir.Directory.Remove` | fs/ext3/inode.c:376-398 | removal by name |
| `Ext3Dir.Directory.LookupName` | fs/ext3/inode.c:400-411 | the inode number of the record found, read from the block; without zero bytes that of the first record with this name |
| `Ext3Dir.Directory.RunThenLookup` | fs/ext3/inode.c:199-411 | any run of additions and removals on the bytes of a block that keeps the first record, followed by a lookup, answers what the finite map of the run answers |
| `FatTable.WrittenByte` | fs/fat/fat.c:42-166 | storing bytes in the table changes those bytes of the table and no others |
| `FatTable.WrittenFrame` | fs/fat/fat.c:129-157 | after a store all backups equal the first table if they did before, and nothing outside the tables changes |
| `FatTable.EncodeLaw` | fs/fat/fat.c:93-127 | for 12, 16 and 28-bit entries, decoding after encoding gives the value at the entry and the old value at any entry that shares bytes with it |
| `FatTable.EntryPlace` | fs/fat/fat.c:61-91 | entries of 16 and 28 bits never cross a sector, a 12-bit entry does exactly when it starts on the last byte |
| `FatTable.StoredEntry` | fs/fat/fat.c:42-166 | the array law: reading entry d after storing v in c gives v if d is c and the old value otherwise |
| `FatTable.TableByteIs` | fs/fat/fat.c:72-100 | byte k of the table is byte k mod bytesPerSec of sector fatStart + k div bytesPerSec |
| `FatTable.Entry12` | fs/fat/fat.c:93-101 | an even entry and the odd one behind it are the low and high half of the 24-bit little-endian number in their three bytes |
| `FatTable.Entry16` | fs/fat/fat.c:102-103 | an entry is the little-endian word at byte 2c of the table |
| `FatTable.Entry32` | fs/fat/fat.c:104-105 | an entry is the low 28 bits of the little-endian DWORD at byte 4c of the table |
| `FatTable.Stored32` | fs/fat/fat.c:123-127 | a store writes the whole DWORD, so that its four reserved bits become zero |
| `FatTable.EndMarks` | fs/fat/super.c:199-211 | the end marks are the highest eight values of an entry |
| `FatTable.CopyStartIs` | fs/fat/fat.c:133-136 | copy i of the table starts at fatStart + fatLength * i |
| `FatTable.FatDevice.ReadBytes` | fs/fat/fat.c:61-105 | the bytes of the entry, from one sector or from two |
| `FatTable.FatDevice.WriteBytes` | fs/fat/fat.c:107-157 | patching one or two sector buffers and copying them is the store described by Written |
| `FatTable.FatDevice.WriteAll` | fs/fat/fat.c:129-157 | the changed sectors end up in every copy of the table and nowhere else |
| `FatTable.FatDevice.FatAccess` | fs/fat/fat.c:42-166 | panics exactly on numbers above the sector count; otherwise it returns the old value, and with -1 nothing changes, with a value the device is the one in which only that entry changed |
| `FatChains.StoredFat` | fs/fat/fat.c:42-166 | FatAccess on bytes is an update of one element of a plain array of entries |
| `FatChains.AppendChain` | fs/fat/fat.c:275-282 | linking a free cluster behind a chain gives the chain with that cluster at its end |
| `FatChains.AddKeepsChains` | fs/fat/fat.c:266-282 | adding a free cluster to one file keeps every chain finite, acyclic, ended and disjoint from the others, takes exactly that cluster from the free and the findable ones, and changes no entry past the last cluster |
| `FatChains.RemoveKeepsChains` | fs/fat/fat.c:331-344 | clearing one file's chain keeps every other chain |
| `FatChains.RemoveFrees` | fs/fat/fat.c:331-344 | clearing a chain frees exactly its clusters, as many as it has |
| `FatChains.ClearedStep` | fs/fat/fat.c:331-341 | while a chain is cleared from its start, the next entry read is still the original one and is an end mark exactly at the last cluster |
| `FatChains.ClusterSectors` | fs/fat/fat.c:181-190 | the sectors of a cluster are inside the data area and belong to no other cluster |
| `FatChains.ClustersByArithmetic` | fs/fat/fat.c:181-190 | the number of clusters is totalDataSectors div secsPerClus, and cluster c starts at (c - 2) * secsPerClus + firstDataSector |
| `FatChains.NewClusterIsZero` | fs/fat/fat.c:266-273 | every byte of a cluster just added is zero |
| `FatChains.LastClusters` | fs/fat/fat.c:51-56 | for T of at least 4, some cluster of the device has a number of T or more if and only if a cluster has one sector, and then these are T and T + 1 |
| `FatChains.ChainIffEntries` | fs/fat/fat.c:51-56 | a chain of clusters of the device is one that FatAccess can follow if and only if it does not hold T + 1 |
| `FatChains.FatVolume.WalkToEnd` | fs/fat/fat.c:237-253 | the walk along any chain of clusters of the device ends: in the panic if and only if the chain holds number T + 1, otherwise at its last cluster |
| `FatChains.FatVolume.LastCluster` | fs/fat/fat.c:237-253 | the walk ends, at the last cluster of the file |
| `FatChains.FatVolume.FindFree` | fs/fat/fat.c:255-264 | the lowest zero entry below the sector count, or 0 when there is none |
| `FatChains.SearchOutcome` | fs/fat/fat.c:255-264 | the search answers the lowest findable cluster if and only if there is one, 0 if and only if no entry below the sector count is zero, and otherwise a number past the last cluster |
| `FatChains.MissedIff` | fs/fat/fat.c:255-264 | the search answers no cluster although one is free if and only if the only free cluster is number T, and then it answers nothing; all free clusters are findable if and only if T is no free cluster |
| `FatChains.MissedExample` | fs/fat/fat.c:255-264 | a mounted volume with one file whose free cluster 4 the search does not see |
| `FatChains.OutsideVolume` | fs/fat/fat.c:181-190 | a number from 2 on names a cluster if and only if all its sectors lie inside the volume |
| `FatChains.FullVolumeExample` | fs/fat/fat.c:255-264 | a mounted volume with one file and no free cluster on which the search answers a number that is no cluster |
| `FatChains.FatVolume.ZeroCluster` | fs/fat/fat.c:266-273 | the sectors of the cluster become zero, no other sector changes |
| `FatChains.FatVolume.LinkCluster` | fs/fat/fat.c:266-282 | the chain grows by the cluster, only that cluster's data and the tables change, one entry stops being free |
| `FatChains.FatVolume.AddCluster` | fs/fat/fat.c:223-297 | three exact outcomes: the lowest findable cluster, zeroed, is appended if and only if there is one; -ENOSPC if and only if no entry below the sector count is zero, or for the fixed root directory; otherwise a number whose sectors end behind the volume. A file goes without a free cluster if and only if the only free one is number T. Nothing changes but in the first outcome; every chain invariant is kept |
| `FatChains.FatVolume.ClearChain` | fs/fat/fat.c:331-341 | the walk terminates and clears exactly the entries of the chain |
| `FatChains.FatVolume.RemoveClusters` | fs/fat/fat.c:300-354 | frees exactly the file's chain, keeps all others; the FAT32 free count stays right if and only if the file had no cluster |
| `FatFiles.Extend` | fs/fat/file.c:105-127 | adds the clusters asked for if and only if so many are findable, otherwise all there are; then the search leaves the device if and only if an entry past the last cluster is zero |
| `FatFiles.Walk` | fs/fat/file.c:105-113 | follows the chain to the cluster wanted or to its end, and terminates |
| `FatFiles.MapChain` | fs/fat/file.c:90-130 | sector k mod secsPerClus of cluster k div secsPerClus, or -1 past the end; with create the chain grows to exactly the length needed and keeps its old clusters as a prefix; exactly when the answer is -1 and when the free search leaves the device |
| `FatFiles.BlockMap` | fs/fat/file.c:69-130 | all paths of FatBlockMap: fixed root directory, file without clusters, chain |
| `FatFiles.FirstClusterAnswer` | fs/fat/file.c:93-103 | the path for a file without clusters answers the right sector only for sector 0 |
| `FatFiles.SectorByArithmetic` | fs/fat/file.c:90-130 | file sector k is sector k mod secsPerClus of cluster number k div secsPerClus, at (c - 2) * secsPerClus + firstDataSector |
| `FatFiles.NeededByArithmetic` | fs/fat/file.c:105-127 | a chain that is too short grows to exactly k div secsPerClus + 1 clusters |
| `FatContents.HomeInjective` | fs/fat/file.c:90-130 | bytes of one file share a sector only if they are in the same sector of the file |
| `FatContents.HomesDisjoint` | fs/fat/file.c:90-130 | bytes of files without a common cluster share no sector |
| `FatContents.ContentsByArithmetic` | fs/vfs/file.c:112-226 | byte i of a file is byte i mod bytesPerSec of file sector i div bytesPerSec, at the sector of the device that the chain gives |
| `FatContents.SplicedTwice` | fs/vfs/file.c:182-226 | writing on where a write stopped is one write |
| `FatContents.ChunkContents` | fs/vfs/file.c:182-226 | copying a chunk into the sector of a position is a splice of the file's contents |
| `FatContents.GrownView` | fs/vfs/file.c:182-226 | growing a chain changes the bytes of no file |
| `FatContents.ChunkView` | fs/vfs/file.c:182-226 | copying a chunk changes one file in the map of all files, as a splice |
| `FatContents.FileStore.MapForWrite` | fs/vfs/file.c:182-226 | the answer is the sector of the position if and only if the position lies in the clusters that the file has and those that are findable; else -1, or the free search leaves the device; no file's bytes change |
| `FatContents.FileStore.CopyChunk` | fs/vfs/file.c:182-226 | copying a chunk into the sector of a position splices it into the file and takes no cluster |
| `FatContents.FileStore.WriteTurn` | fs/vfs/file.c:182-226 | one turn of the writer splices its chunk, or changes nothing exactly when the position is out of reach |
| `FatContents.FileStore.ReadChunk` | fs/vfs/file.c:112-180 | one turn of the reader returns exactly the bytes of the file at the position |
| `FatContents.FileStore.GenericWrite` | fs/vfs/file.c:182-226 | writes the whole buffer if and only if the clusters that the last byte needs are findable; it is spliced in at the position and the size becomes the maximum of the old size and the end; otherwise exactly the part in reach was spliced, and the call ends in -EIO if and only if no entry past the last cluster is zero; no byte of any other file changes |
| `FatContents.FileStore.GenericRead` | fs/vfs/file.c:112-180 | returns exactly the bytes of the file from the position on, as many as asked for or as there are, with the DWORD wrap past the end |
| `FatContents.FileStore.WriteThenRead` | fs/vfs/file.c:112-226 | what a successful write stored, a read at the same position gives back |
| `FatNames.ReadLaid` | fs/fat/dir.c:79-139 | reading slots that the writer laid down passes every id, attribute and checksum test and collects the name's characters |
| `FatNames.ReadGoodIff` | fs/fat/dir.c:79-139 | the reader accepts if and only if the slots count down to one, are marked as slots and carry the checksum of the short name behind them |
| `FatNames.SlotIsBytes` | fs/fat/vnode.c:623-647 | a slot as written is the on-disk structure byte for byte, its characters in two bytes each |
| `FatNames.SlotsSuffice` | fs/fat/vnode.c:603-604 | a name takes the fewest slots of 13 characters |
| `FatNames.TwoSlots` | fs/fat/vnode.c:623-653 | a name of 14 characters: the last one with id 0x42 first, then the others, then the short name |
| `FatNames.NameRoundTrip` | fs/fat/vnode.c:575-656 | for every name without zero bytes that takes up to 20 slots, the reader accepts the slots and its buffer holds exactly that name |
| `FatNames.FitsBuffer` | fs/fat/dir.c:79-139 | the reader's terminator lies inside a 255-byte buffer if and only if the name has at most 247 characters |
| `FatNames.KeepsUsedIff` | fs/fat/vnode.c:505-656 | with its slots free, a new name loses no entry in use if and only if the entry behind the slots is free as well or already has the contents it gets |
| `FatNames.OverwriteExample` | fs/fat/vnode.c:505-656 | a free entry and then a file: the new name takes the place of the file |
| `FatNames.UsedEntries` | fs/fat/fat.h:48 | an entry is free if and only if its first byte is 0 or 0xE5 |
| `FatNames.FatCheckSum` | fs/fat/fat.h:83-92 | the loop computes the rotate-and-add checksum of the short name |
| `FatNames.CheckSumRotates` | fs/fat/fat.h:83-92 | each step rotates to the right and adds the next character modulo 256 |
| `FatNames.CopyLongName` | fs/fat/vnode.c:575-596 | the thirteen places of a slot hold the characters of that part of the name, then zeros |
| `FatNames.Directory.AddName` | fs/fat/vnode.c:600-656 | the slots and the short entry lie one after the other as the reader expects them, other entries are unchanged |
| `FatNames.Directory.AddShortName` | fs/fat/vnode.c:543-573 | the entry gets its name, attribute, start cluster and size and keeps its dates; the slots stay laid |
| `FatNames.Directory.GetLongName` | fs/fat/dir.c:79-139 | accepts or rejects exactly as the chain of slots says, and fills the buffer with the characters of the slots |
| `FatNames.Directory.FindEntries` | fs/fat/vnode.c:505-541 | the lowest run of free entries of that length if there is one; otherwise -ENOSPC in the fixed root directory, and in any other the entry after the first one past its end |
| `FatNames.Directory.CreateName` | fs/fat/vnode.c:505-656 | search and writer together: when the run and the entry behind it lie in the directory, the name is laid down in the lowest free run, and no entry in use is lost if and only if the entry behind the run is free or has the contents it gets |
| `FatNames.Directory.AddThenGet` | fs/fat/vnode.c:600-656 | the writer followed by the reader gives the name back, in any buffer with room for the terminator |
| `FatDates.TimeFields` | fs/fat/vnode.c:969-998 | hours, minutes and half seconds fit their bits and add up to the time of day |
| `FatDates.YearFound` | fs/fat/vnode.c:969-998 | the year search ends in the year that holds the day, leap years included |
| `FatDates.MonthFound` | fs/fat/vnode.c:969-998 | the month search ends in the month that holds the day |
| `FatDates.DateFields` | fs/fat/vnode.c:885-998 | day, month and year fit their bits and the reader's sum gives the day back |
| `FatDates.RoundTrip` | fs/fat/vnode.c:885-998 | for every DWORD time from 1980 on, reading the packed date gives the time rounded down to an even second |
| `FatDates.SearchMonth` | fs/fat/vnode.c:969-998 | the month loop stops at the month of the day |
| `FatDates.UnixToDt` | fs/fat/vnode.c:969-998 | the words written are the packed date and time, within 16 bits, and FatDtToUnix gives the even second back |
| `FatCalendar.DatesFollow` | fs/fat/vnode.c:978-997 | for every DWORD time from 1980 on, the dates are 1 January 1980 and its following days by the lengths of the months, with every fourth year a leap year |
| `FatCalendar.DateWord` | fs/fat/vnode.c:997 | the date word holds day, month and year of that calendar in its bits |
| `FatCalendar.EpochIsStart` | fs/fat/vnode.c:973-974 | the earliest time is midnight on 1 January 1980 |
| `FatCalendar.GregorianIff` | fs/fat/vnode.c:978-997 | the stored date is the Gregorian date if and only if the time lies before 1 March 2100 |
| `JournalRecovery.CountTags` | fs/journal/recovery.c:31-53 | the scan counts exactly the tags that replay follows; JournalRecords.ReplayDescriptor says which these are |
| `JournalRecovery.ApplyAbsorbs` | fs/journal/recovery.c:55-105 | applying all copies gives the same device whatever their targets held |
| `JournalRecovery.CrashSafe` | fs/journal/recovery.c:107-208 | on every log on which the pass ends and whose tags name blocks outside it, with the pass going around the end of the log, whatever state a crash left the targets in, recovery ends with the same device as an uninterrupted one |
| `JournalRecovery.CrashAfterPrefix` | fs/journal/recovery.c:107-208 | in particular after any prefix of the copies |
| `JournalRecovery.RecoverTwice` | fs/journal/recovery.c:183-208 | recovering a recovered device changes nothing |
| `JournalRecovery.Attempts` | fs/journal/recovery.c:183-208 | after any series of attempts, each crashing after any number of copies, the device can still be recovered, to the same device as without them |
| `JournalRecovery.ReplaysTail` | fs/journal/recovery.c:152-171 | replay copies the blocks of committed transactions and then those after the last commit block; only the former if and only if no descriptor that carries the scan's end transaction number has a tag |
| `JournalRecovery.EndCountsCommits` | fs/journal/recovery.c:107-181 | the end transaction of the scan is the start number plus the commit blocks found, modulo 2^32 |
| `JournalRecovery.TailEmptyIff` | fs/journal/recovery.c:107-181 | nothing uncommitted is copied if and only if the descriptors of the scan's end transaction have no tags, for every log of DWORD length and every start number, wrap-around of the sequence number included |
| `JournalRecovery.UncommittedExample` | fs/journal/recovery.c:152-171 | a log in which an uncommitted block is copied |
| `JournalRecovery.EndsWithinLog` | fs/journal/recovery.c:124-176 | a pass ends at all if and only if it ends within as many turns as the log has blocks |
| `JournalRecovery.PassesAgreeIff` | fs/journal/recovery.c:152-166 | after one descriptor, scan and replay go on at the same position if and only if its tagged blocks do not run over the end of the log |
| `JournalRecovery.PathsAgreeIff` | fs/journal/recovery.c:107-181 | over a whole pass, scan and replay read the same positions, around the end of the log as well, if and only if no visited descriptor's tagged blocks run over the end |
| `JournalRecovery.WrapMeetsSuperblock` | fs/journal/journals.c:342-350 | with head 0, behind a record or tagged blocks that end with the log replay reads the journal superblock next and ends there if and only if the superblock does not carry the number looked for, so that later records are lost; the scan goes there too behind a record, and leaves the log behind tagged blocks |
| `JournalRecovery.WrapCopiesSuperblock` | fs/journal/recovery.c:55-105 | with head 0, the first tagged block behind the end of the log is a copy of the journal superblock |
| `JournalRecovery.Journal.ReplayBlocks` | fs/journal/recovery.c:55-105 | copies one log block per tag, in order and around the end of the log, and leaves the log alone |
| `JournalRecovery.Journal.DoOnePass` | fs/journal/recovery.c:107-181 | both passes terminate; replay writes exactly the tagged blocks and scan nothing; the scan leaves the log if and only if a descriptor's tagged blocks run over its end, and otherwise both visit the same descriptors and find the same end transaction |
| `JournalRecovery.Journal.Recover` | fs/journal/recovery.c:183-208 | a clean log changes nothing, otherwise the device is the replayed one, unless the scan leaves the log, and it is said exactly when it does |
| `JournalRecords.TagsTargets` | fs/journal/commit.c:100-129 | for every non-empty list of blocks, tags laid down with the uuid behind the first one and the flags of the commit code are followed to exactly these blocks |
| `JournalRecords.DescriptorRead` | fs/journal/commit.c:76-129 | a descriptor block with any bytes behind its tags is read back: its type, its transaction and its blocks |
| `JournalRecords.PlaceIs` | fs/journal/recovery.c:27-29 | the place j blocks behind p, by arithmetic around the part of the log from head on |
| `JournalRecords.ReplayDescriptor` | fs/journal/recovery.c:31-105 | on such a block the count is the number of its blocks, and each gets the log block at its place |
| `JournalRecords.TransactionsReplayed` | fs/journal/recovery.c:107-181 | a pass over any sequence of committed transactions, around the end of the log, copies exactly their logged blocks in order and ends at the number behind the last one |
| `JournalRecords.RecoverTransactions` | fs/journal/recovery.c:183-208 | recovery of such a log writes every logged block to its place and nothing else, and counts the transactions, unless the scan leaves the log |
| `JournalRecords.LastCopyWins` | fs/journal/recovery.c:55-105 | a block logged several times ends with what was logged last |
| `JournalSpace.CleanedSound` | fs/journal/checkpoint.c:28-66 | moving the tail to the oldest transaction keeps the accounts, and the tail only moves forward |
| `JournalSpace.CheckpointedSound` | fs/journal/checkpoint.c:68-116 | a checkpoint keeps the accounts, and drops all waiting transactions or none |
| `JournalSpace.CheckpointTail` | fs/journal/checkpoint.c:68-116 | a checkpoint that leaves nothing waiting moves the tail to the last commit and frees all before it |
| `JournalSpace.CheckpointEmptiesIff` | fs/journal/checkpoint.c:68-116 | a call empties the list if and only if the tail is at the oldest waiting transaction; otherwise it only moves the tail there |
| `JournalSpace.CheckpointTwice` | fs/journal/checkpoint.c:68-116 | two checkpoints in a row empty the list |
| `JournalSpace.CommittedSound` | fs/journal/commit.c:200-252 | a commit keeps the accounts and moves the head by its blocks |
| `JournalSpace.RunSound` | fs/journal/journals.c:344-350 | over every run from creation, free plus head minus tail is constant and the tail is not past any transaction that waits for its checkpoint |
| `JournalSpace.TailMonotone` | fs/journal/checkpoint.c:28-66 | along a run the tail never moves back |
| `JournalSpace.NextBlockInside` | fs/journal/journals.c:200-212 | the next log block lies inside the log if and only if more blocks count as free than lie before the tail |
| `JournalSpace.FreeButOutside` | fs/journal/journals.c:200-212 | a run of three commits after which four blocks count as free and the next one is outside |
| `JournalSpace.Journal.NextLogBlock` | fs/journal/journals.c:200-212 | free plus head minus tail is what it was, and the block handed out lies inside the log exactly when more blocks counted as free than lie before the tail |
| `JournalSpace.Journal.CleanupTail` | fs/journal/checkpoint.c:28-66 | computes the cleaned state, and 1 exactly when nothing moved |
| `JournalSpace.Journal.DoCheckpoint` | fs/journal/checkpoint.c:68-116 | clean-up, the loop that takes the waiting transactions off the list and the second clean-up compute the checkpointed state, with every account kept |
| `JournalSpace.Journal.CommitTransaction` | fs/journal/commit.c:200-252 | the steps of a commit in their order compute the committed state, with every account kept |
| `JournalSpace.Journal.Destroy` | fs/journal/journals.c:235-261 | the unmount loop calls the checkpoint at most twice and leaves nothing waiting |
| `BufferCache.ViewBlock` | fs/vfs/bcache.c:295-313 | a block of the device as users see it is the cached buffer, or else the block on the disk |
| `BufferCache.WroteView` | fs/vfs/bcache.c:335-346 | writing a cached block changes the bytes of that block in the view and no others |
| `BufferCache.CleanedView` | fs/vfs/bcache.c:422-431 | writing a dirty buffer back changes no byte of the view |
| `BufferCache.LoadedView` | fs/vfs/bcache.c:295-313 | loading a block changes no byte of the view |
| `BufferCache.CleanViewIsDisk` | fs/vfs/bcache.c:402-448 | when the count of dirty buffers is zero, the disk equals the view |
| `BufferCache.AndTest` | fs/vfs/bcache.c:380-382 | n & (n - 1) is zero exactly for powers of two |
| `BufferCache.SectorsAreBlock` | devices/kedev/sdevice.c:127-148 | the sectors of a request are exactly the bytes of the block, for every pair of sizes that BlockSetSize lets through |
| `BufferCache.StorageDevice.FindBuffer` | fs/vfs/bcache.c:529-547 | finds the buffer exactly when the block is cached |
| `BufferCache.StorageDevice.BlockRead` | fs/vfs/bcache.c:295-313 | returns the block of the view and leaves the view alone; fails exactly when the block is not cached and memory or I/O fail, and then changes nothing |
| `BufferCache.StorageDevice.BlockWrite` | fs/vfs/bcache.c:335-346 | the view gets the new block, and numDirty still counts the dirty buffers |
| `BufferCache.StorageDevice.Flush` | fs/vfs/bcache.c:422-431 | one dirty buffer less, the same view |
| `BufferCache.StorageDevice.SyncList` | fs/vfs/bcache.c:417-437 | one hash list is clean, or everything is and the loop was left early |
| `BufferCache.StorageDevice.SyncPass` | fs/vfs/bcache.c:414-438 | one pass over the lists leaves nothing dirty, although it stops early |
| `BufferCache.StorageDevice.BlockSyncDevice` | fs/vfs/bcache.c:402-448 | terminates without a second pass, with the disk equal to the view, nothing dirty and the same blocks cached |
| `BufferCache.StorageDevice.BlockDeviceFreeAll` | fs/vfs/bcache.c:350-372 | the cache is empty and the disk holds what users saw |
| `BufferCache.StorageDevice.BlockSetSize` | fs/vfs/bcache.c:375-396 | -EINVAL exactly for sizes that are not powers of two or below the hardware size, and no change; otherwise the size is set and not one byte of the view changes |
| `Scheduler.BestIsBest` | kernel/sched.c:86-108 | the list scan picks a runnable thread with the most quantums, and the first of them |
| `Scheduler.TickCounts` | arch/i386/kernel/pit.c:38-55 | each tick before the refill takes one off the length of the round, and the refill comes exactly at its end |
| `Scheduler.RoundGoesOn` | kernel/sched.c:86-172 | inside a round every thread has lost exactly the quantums it ran for |
| `Scheduler.Round` | kernel/sched.c:86-172 | the next refill is at an exact tick; until then each runnable thread has run for exactly its quantums, no other thread has run, and the round is no longer than the sum of quantums + 1 |
| `Scheduler.Fairness` | kernel/sched.c:86-172 | between two refills every runnable thread runs for exactly its priority in ticks |
| `Scheduler.RefillKeepsQuarter` | kernel/sched.c:100-105 | a refill gives every thread, runnable or not, its priority and a quarter of what it had left, rounded down |
| `Scheduler.BoundReached` | kernel/sched.c:100-105 | the bound 42 is reached: a suspended thread of priority 32 has 32, 40 and then 42 quantums for ever |
| `Scheduler.TwoRounds` | kernel/sched.c:86-172 | from any state, a runnable thread runs for the quantums it has and, after the refill, for its priority |
| `Scheduler.NewThreadRuns` | kernel/thread.c:36-60 | a thread created and started runs for nothing until the next refill and then for 16 ticks a round |
| `Scheduler.PriorityRuns` | kernel/thread.c:77-85 | a thread whose priority is set runs for that many ticks, clamped, from the next refill on |
| `Scheduler.ClampIsNearest` | kernel/thread.c:77-85 | a priority becomes the nearest one between 0 and 32 |
| `Scheduler.YieldPasses` | kernel/sched.c:187-192 | a yield passes the processor on whenever another runnable thread has time left |
| `Scheduler.StepSound` | kernel/thread.c:36-277 | every event, including creation, start, resumption with its reschedule, suspension and priority changes, keeps quantums within 0 to 42 |
| `Scheduler.StepValidIff` | kernel/thread.c:36-277 | after an event the current thread is runnable if and only if the event does not suspend it without a reschedule |
| `Scheduler.ResumedTakesOver` | kernel/thread.c:268-277 | a resumed thread with more quantums than every runnable thread becomes the current thread |
| `Scheduler.ResumedChoice` | kernel/thread.c:268-277 | with no fewer quantums than the current thread the best thread is chosen anew, with fewer the current thread goes on |
| `Scheduler.EventsValid` | kernel/thread.c:36-277 | over every run of events the quantums are bounded, and the current thread is runnable in every run that does not suspend it without a reschedule |
| `Scheduler.Cpu.ChooseNewThread` | kernel/sched.c:86-108 | the scan and the refill loop compute the choice of the specification |
| `Scheduler.Cpu.Schedule` | kernel/sched.c:122-172 | the chosen thread becomes the current one |
| `Scheduler.Cpu.TimerInterrupt` | arch/i386/kernel/pit.c:38-55 | a timer interrupt and the reschedule it asks for are one tick of the specification |
| `Scheduler.Cpu.SysYield` | kernel/sched.c:187-192 | the current thread gives up its quantums and the scheduler chooses again |
| `Scheduler.Cpu.ResumeThread` | kernel/thread.c:268-277 | the thread is started, and the scheduler chooses again if and only if it did not run and has no fewer quantums than the current thread |
| `Scheduler.Cpu.SuspendThread` | kernel/thread.c:238-251 | only the state of the thread changes, no new thread is chosen |
| `Scheduler.Cpu.SuspendAndSchedule` | kernel/thread.c:330-346 | a suspension and the reschedule after it leave a runnable current thread, the current one suspended or not |
| `Scheduler.Cpu.CreateThread` | kernel/thread.c:36-60 | a paused thread of the default priority joins the list at its end |
| `Scheduler.Cpu.SetThreadPriority` | kernel/thread.c:77-85 | the clamped priority, nothing else |
| `SlabAllocator.LayoutFits` | memory/slab.c:415-457 | every object of a cache lies inside the slab behind its header and has a bit in the bitmap |
| `SlabAllocator.LayoutExact` | memory/slab.c:415-457 | the size is rounded up to a multiple of four and at least 16, the header is on the slab exactly below a quarter of a page, and as many objects as fit are counted |
| `SlabAllocator.AddressByArithmetic` | memory/slab.c:355 | object i of a slab is at page + offset + i * size |
| `SlabAllocator.ClassIsTight` | memory/slab.c:84-99 | above 8 bytes an object takes less than twice the bytes asked for |
| `SlabAllocator.HoldsObjectsIff` | memory/slab.c:429-447 | a cache has room for an object if and only if its size is at most a page or a whole number of pages |
| `SlabAllocator.ObjectInside` | memory/slab.c:355 | an object lies between the header and the end of its slab |
| `SlabAllocator.ObjectsApart` | memory/slab.c:338-365 | different objects never overlap, whichever slabs and caches they come from |
| `SlabAllocator.FreeUndoesTake` | memory/slab.c:165-179 | freeing the object just taken restores bitmap and isFull |
| `SlabAllocator.MarkedFullIff` | memory/slab.c:347-349 | taking an object marks its slab full if and only if it is the highest one, and then the slab is full |
| `SlabAllocator.TakenSound` | memory/slab.c:340-356 | taking the first free object makes exactly that object live and keeps all invariants, among them that isFull means every bit is set |
| `SlabAllocator.FreedSound` | memory/slab.c:165-179 | freeing a number makes exactly that number free, moves no object and keeps all invariants |
| `SlabAllocator.GrowSound` | memory/slab.c:291-303 | a new slab makes nothing live and overlaps no other slab |
| `SlabAllocator.NewSlabFree` | memory/slab.c:250-275 | the slab added at the end of the circle is the next one visited and has a free object |
| `SlabAllocator.Diverges` | memory/slab.c:338-365 | when MemCacheAlloc is not known to come back, it never does: every turn of the search, for ever, stands at a slab without a free object |
| `SlabAllocator.FreeAtIff` | memory/slab.c:340-358 | the search sees a free object in a slab if and only if one of its objects is not live |
| `SlabAllocator.OnlyItsSlab` | memory/slab.c:390-398 | the address test of MemCacheFree is met by the object's own slab and by no other |
| `SlabAllocator.HolderOfObject` | memory/slab.c:165-398 | the address of an object leads back to its own cache, its own slab and its own number |
| `SlabAllocator.MemFreeUndoesMemAlloc` | memory/slab.c:123-205 | MemFree after MemAlloc restores all caches but for slabs that had to be added |
| `SlabAllocator.CreatedSound` | memory/slab.c:415-457 | new caches are sound and nothing in them is live |
| `SlabAllocator.Heap.AddSlab` | memory/slab.c:291-303 | the new slab is the last one visited, overlaps no slab of any cache and has nothing live in it; no object moves or changes; -ENOMEM exactly when no slab was added |
| `SlabAllocator.Heap.FindBit` | memory/slab.c:343-345 | the first clear bit, if the slab has one |
| `SlabAllocator.Heap.Advance` | memory/slab.c:360-364 | at the last slab memory is asked for, then the search goes on in the circle, and gets closer to an object |
| `SlabAllocator.Heap.MemCacheAlloc` | memory/slab.c:317-371 | returns an object that was free and makes it, and nothing else, live: the first free object of the first slab that has one, without asking for memory; only when no slab has one, memory is asked for until it is granted and the first object of that slab is taken; NULL exactly when there was no slab and none could be had; terminates whenever a free object or a new slab can be had |
| `SlabAllocator.Heap.SlabFree` | memory/slab.c:165-179 | for any address behind the header of a slab, exactly the number worked out from the address is released, and it always has a bit in the bitmap |
| `SlabAllocator.Heap.MemCacheFree` | memory/slab.c:375-411 | for any address: 0 and the number at the address released when a slab of this cache holds it, otherwise -EFAULT and no change |
| `SlabAllocator.Heap.MemAlloc` | memory/slab.c:123-146 | an object of the smallest class that is big enough, chosen as MemCacheAlloc does, asking nothing of other classes; NULL exactly for sizes above the largest class and when that class has no slab and gets none |
| `SlabAllocator.Heap.MemFree` | memory/slab.c:182-205 | for any address: the first class that holds it releases the number there, the machine halts exactly when none does; for the address of a live object exactly that object is released |
| `VmAreas.InsertedTidy` | memory/mmap.c:83-99 | an area entered in a free range keeps the list sorted and disjoint |
| `VmAreas.InsertedView` | memory/mmap.c:83-99 | exactly the new range becomes mapped |
| `VmAreas.MergedTidy` | memory/mmap.c:248-272 | merging keeps the list sorted and disjoint |
| `VmAreas.MergedView` | memory/mmap.c:248-272 | merging changes nothing at any address: mapped or not, vNode, protection, flags and, for files, the file offset |
| `VmAreas.MergeableIff` | memory/mmap.c:248-272 | two neighbours pass the tests if and only if one area maps every address as the two do |
| `VmAreas.JoinedMergeable` | memory/mmap.c:248-272 | a merged area can be merged on exactly as its halves could |
| `VmAreas.MergedAroundCompact` | memory/mmap.c:274-288 | merging a new area with its next and then its previous neighbour leaves no two neighbours that could be merged, if there were none before |
| `VmAreas.InsideIffRoom` | memory/mmap.c:209-232 | the answer ends inside user space if and only if user space has a free range of that length |
| `VmAreas.BeyondTheEnd` | memory/mmap.c:209-232 | in an empty address space a request for MMAP_END bytes is answered with MMAP_BASE, although no range of user space is that long |
| `VmAreas.Process.LookupAddress` | memory/vmm.c:47-64 | finds the area of the address if there is one, although it stops at the first area that starts later |
| `VmAreas.Process.FindAddress` | memory/mmap.c:209-232 | the lowest address from MMAP_BASE on whose range meets no area; 0 exactly when that is MMAP_END |
| `VmAreas.Process.AddArea` | memory/mmap.c:83-99 | the area goes where the order of addresses wants it |
| `VmAreas.Process.Merge` | memory/mmap.c:248-272 | the chain of tests merges exactly the areas that continue each other |
| `VmAreas.Process.MergeMappings` | memory/mmap.c:274-288 | the next neighbour first, then the previous one, and no neighbour outside the list |
| `VmAreas.Process.UnmapFree` | memory/mmap.c:419-436 | unmapping where nothing is mapped changes nothing; -EINVAL or -EFAULT |
| `VmAreas.Process.MMapDo` | memory/mmap.c:310-362 | returns the lowest free address and maps exactly that range as asked, nothing else changes, the list stays sorted, disjoint and compact; 0 and no change exactly in the listed error cases |
| `HeapSort.SwappedElements` | lib/heapsort.c:10-27 | exchanging the bytes of two elements exchanges the elements |
| `HeapSort.GenericSwap` | lib/heapsort.c:17-27 | the byte loop exchanges two ranges |
| `HeapSort.U32Swap` | lib/heapsort.c:10-15 | the DWORD swap does what the byte swap does at size 4 |
| `HeapSort.SiftStep` | lib/heapsort.c:39-49 | exchanging a node with its greater child moves the only violation down |
| `HeapSort.RootIsGreatest` | lib/heapsort.c:36-50 | the root of a heap is a maximum |
| `HeapSort.RootTaken` | lib/heapsort.c:52-56 | moving the root behind the heap extends the sorted part |
| `HeapSort.ChildOffset` | lib/heapsort.c:39-43 | the byte offsets computed for the children are those of nodes 2k + 1 and 2k + 2 |
| `HeapSort.EndsIffSized` | lib/heapsort.c:31-50 | the offset of the first loop stays non-negative for ever if and only if the size is zero, for every count |
| `HeapSort.SiftDown` | lib/heapsort.c:39-68 | the inner loop makes the range a heap and only rearranges it |
| `HeapSort.BuildHeap` | lib/heapsort.c:31-50 | the first loop makes the whole array a heap, also for 0 and 1 elements |
| `HeapSort.Sort` | lib/heapsort.c:29-70 | for every total preorder, count and non-zero size, which are the sizes for which it ends, the elements end up ordered and are a permutation of the input |

## Left out

- JournalRecovery.Journal.DoOnePass: logs on which the pass never stops; and a scan that has left the log is not followed further, because JournalBlockMap has no answer there.
- JournalRecovery.Journal.Recover: the same.
- FatChains.FatVolume.RemoveClusters: only number = 0; with a number the code neither ends the kept chain nor counts what it frees.
- FatTable.FatDevice.FatAccess: the FAT region is taken to hold an entry for every number up to totalDataSectors, as the code's bound on cluster numbers supposes.
- FatChains.FatVolume.WalkToEnd: files that hold cluster T + 1 appear only here; all other FAT members are about volumes without one, since a walk to the end of such a file panics.
- FatChains.FatVolume.AddCluster: what happens to sectors behind the volume when the free search leaves the device.
- FatContents.FileStore.GenericWrite: only positions up to the file size, where the path of FatBlockMap for empty files is right.
- FatNames.Directory.AddName: the making of short names; the slots are given.
- FatNames.Directory.FindEntries: how much a directory without a free run grows; the code's answer does not depend on it.
- FatNames.Directory.CreateName: what the code does when the entries run past the end of the directory.
- FatNames.FatCheckSum: one short name of eleven bytes, as all callers pass.
- FatGetDirSize, FatTruncate, FatRemoveLongEntry and the rest of the FAT directory code: easier than what is modelled.
- I/O errors, except where a member names them; JournalBlockMap is a table.
- JournalCommitMetadata: how descriptors are batched, and the order in which buffers reach the disk.
- The escape flag of journal tags and revoke blocks, which the code does not handle.
- Ext3 triple indirect blocks, multi-block directories, Ext3BlockTruncate and inode allocation: stubs or halts.
- Ext3Dir.Directory.FindEntry: directories of one block, as AddEntry knows no others.
- Ext3Dir.Directory.AddEntry: always with a vNode, and names of at most 255 bytes.
- HeapSort.Sort: the default swaps only, and arrays below 2^31 bytes.
- SlabAllocator.Heap.MemCacheAlloc: zeroing, constructors, and where slab headers are stored off the slab; VirtMapPhysRange is taken to give ranges that overlap nothing.
- BufferCache.StorageDevice.BlockWrite: a caller's change of the data and the call that follows it are one step; reference counts, locks, read-ahead and the flusher thread are not modelled.
- Scheduler: preemption is taken to be enabled; nrRunning, wait queues, timers and process exit.
- VmAreas.Process.MMapDo: fixed mappings, unmapping and splitting of areas, SysMemoryProtect, page tables and faults; addresses do not wrap at 2^32.
- 32-bit wrap-around elsewhere: sizes and block numbers are taken to be in range.
- Device drivers, consoles, sockets, the loader, user programs and the other file systems.
