# Storage, virtual memory and loaders of the Minion boot software, proved

This project models the storage and memory parts of the boot software of the Minion subsystem, which
boots a RISC-V processor from an SD card, and proves what they keep: the FatFs file system (`ff.c`) from its
one-sector window up to whole runs of calls on an open file, the page table and lazy
mappings of the proxy kernel (`vm.c`, `file.c`), the supervisor branch of the ELF loader
(`elf.c`), the machine-mode device queues (`mtrap.c`), and the S-record and Intel HEX
readers and writers (`srecord.c`, `simple.c`, `ihex.c`).

`dafny verify dfyconfig.toml` checks the whole project.

## How it is built

| file | models |
|---|---|
| `bits.dfy` | unsigned 32-bit arithmetic and the bit operators of C |
| `disk.dfy` | the device: an array of 512-byte sectors whose transfers may fail |
| `volume.dfy`, `window.dfy` | a mounted volume and its write-back window |
| `fat.dfy` | one FAT12, FAT16 or FAT32 entry, read and changed through the window |
| `chains.dfy`, `allocator.dfy` | tables as partitions into chains; the cluster allocator |
| `filespace.dfy`, `filecursor.dfy` | which sectors a file owns; an open file as a value |
| `fileio.dfy`, `fileseek.dfy`, `filetruncate.dfy` | the file object and its four operations |
| `filerun.dfy` | runs of these operations against a byte sequence with a position |
| `freecount.dfy`, `linkmap.dfy`, `directory.dfy`, `mount.dfy` | `f_getfree`, fast seek, directories, the layout at mount time |
| `pagetable.dfy`, `vmstate.dfy`, `vm.dfy` | page table, reference counts as a value, mapping and faulting |
| `elf.dfy`, `devqueue.dfy` | segment loading; request and response queues |
| `hex.dfy`, `srecord.dfy`, `ihex.dfy` | hexadecimal text and the two record formats |

Objects the source updates in place are classes with the same fields (`Fatfs`, `Fil`, `Dir`,
`Pages`, `Memory`, `Message`, `Hls`, `SRecord`, `IHexRecord`); its loops are loops. Each method is
proved against a specification on values, and the main theorems are about those values.

The volume is seen in two ways. The *logical disk* is the device overlaid by the window if that is
dirty; the *view* reads the logical disk as sectors before the FATs, entries with their reserved bits,
and sectors behind them. Every operation states its effect on the view. The device remembers in a
history field `faulted` whether any transfer has failed. Methods answer a disk error only if one has,
and what depends on the write of a FAT mirror, whose result the source ignores, is stated for devices
that have not failed.

A kernel that stops, by a failed `kassert` or `panic`, or runs for ever, is a method that answers `ok == false`; the contracts
say when. What a file gives for each page of a mapping is the parameter `gives`.

The configuration is that of `ffconf.h`: 512-byte sectors, private file buffers, no long names, write
access. The page table is that of the 32-bit build, with words of 32 bits; the ELF loader reads ELF64 with addresses
of 64 bits. `linkmap.dfy` models code compiled with `_USE_FASTSEEK` only.

## What does not hold

Seven properties one would expect are false of the code. The model keeps the code as it is, shows an input,
and proves when the property does hold.

- A volume accepted at mount time need not be laid out soundly: the size of two FATs may wrap on 32 bits
  (`Mount.WrappedLayout`). It is sound if and only if the sectors before the first cluster, summed
  without wrap-around, are no more than the total (`Mount.LayoutSound`).
- Creating a link map may fail on a sound chain: when the chain ends in the last cluster of the volume with
  a value that is the number of the next one (`LinkMap.EndsInLinkHappens`), and only then
  (`LinkMap.CreateLinkMap`). A chain with an end mark of its FAT type never fails (`LinkMap.ProperEnd`).
- The accelerated count of free clusters also looks at entries 0 and 1, which belong to no cluster. It is
  right if and only if both are not zero (`FreeCount.ScanCount`); `FreeCount.ScanOvercounts` is a table on which it
  is not.
- A mapping without `MAP_FIXED` need not lie below `mmap_max`. For a request larger than that the end of the search
  wraps around, and the answer may be a window that reaches above `mmap_max` (`Vm.WrappedRequest`) or a page below
  `brk` (`Vm.AnswerBelow`). Every request that fits is answered below `mmap_max`, with the lowest window
  (`Vm.InBounds`).
- The reference counts of regions agree with the page table after a mapping if and only if its end does not wrap
  around (`Vm.DoMmap`, `Vm.LostReferences`). For the request of `Vm.AnswerBelow`, which ends at 2^32 exactly, the loops
  have no round and the references counted are never stored.
- Changing one byte of an S-record, or writing an address that does not fit, is not always noticed. The address is
  read into a `long`; where that has 32 bits, 7FFFFFFF and 80FFFFFF are read as the same number and an address byte may
  change (`SRecords.ClampedExample`). `SRecords.ByteChange` says exactly when. The bytes of an address that its type
  cuts off are in the checksum, but may sum to 0 (`SRecords.CutExample`, `SRecords.CutAddress`).
  The round trip holds if and only if the address fits its type and the numbers of the reader (`SRecords.RoundTrip`,
  `SRecords.LibraryRoundTrip`; the boot loader reads 32 bits exactly, `SRecords.LoaderRoundTrip`). The
  Intel HEX writer accepts 256 data bytes and any type, of which only one byte each can be read back (`IHex.RoundTrip`).
- The ELF loader passes the end of a segment to a range test that expects a length, so it refuses segments
  that lie inside the user range (`Elf.RefusedInRange`); none that lie outside pass (`Elf.PassesIff`).

Entries and boot sectors have the format of Microsoft's FAT32 File System Specification, sections
"FAT Data Structure" and "Boot Sector and BPB Structure". The bounds between FAT12, FAT16 and FAT32 are those
of the code, which differ from that specification on purpose (software/hello/ff.c:386-388).

## Model

| member | source | states |
|---|---|---|
| Window.SyncWindow | software/hello/ff.c:726-750 | writing the window back leaves the logical disk (device overlaid by a dirty window) as it was, keeps the window dirty if the write fails, and keeps the second FAT equal to the first outside the dirty window as long as no transfer has failed |
| Window.Reflect | software/hello/ff.c:741-746 | the mirror loop changes nothing but the second FAT, and there exactly the sector that corresponds to the one written |
| Window.MoveWindow | software/hello/ff.c:755-776 | after success the window holds the requested sector of the logical disk, which is unchanged; moving to the sector it holds already keeps it dirty or clean as it was |
| FatTable.GetFat | software/hello/ff.c:844-888 | the answer is the entry of the table on the logical disk, 1 for a number that names no cluster, or the disk error value only after a failed transfer; the table is unchanged |
| Volume.Entry12Is | software/hello/ff.c:855-863 | a FAT12 entry is twelve bits of the bytes 3 * c / 2 and the next: an even one has the lower nibble of the second byte on top, an odd one starts in the upper nibble of the first |
| Volume.EndMarks | software/hello/ff.c:1051-1051 | the end mark written behind a chain is FFF, FFFF or FFFFFFF by FAT type |
| FatTable.PutFat | software/hello/ff.c:899-952 | after success the volume is the old one with exactly this entry replaced by the value cut to 12, 16 or 28 bits; a bad cluster number is refused and changes nothing; after a failed transfer no other entry has changed |
| FatTable.PutLink | software/hello/ff.c:899-952 | for 28-bit values the reserved bits of a FAT32 entry survive as well |
| FatTable.Store12 | software/hello/ff.c:915-927 | storing both bytes of a FAT12 entry, perhaps in two sectors, changes the entry to the value modulo 2^12 and no other, although each byte may be shared with a neighbour |
| FatTable.Neighbour12 | software/hello/ff.c:915-927 | every other FAT12 entry reads the same after the first byte and after the second |
| FatTable.Store16 | software/hello/ff.c:929-935 | storing a word replaces one FAT16 entry |
| FatTable.Store32 | software/hello/ff.c:937-944 | storing a double word replaces one FAT32 entry and its four reserved bits |
| FatTable.Merge | software/hello/ff.c:941-942 | the double word stored has the low 28 bits of the value, and the top four bits of the value and of the old double word merged |
| Bits.MergeTop | software/hello/ff.c:941-942 | the bit expression of the source is that number |
| FileSpace.Clust2SectExact | software/hello/ff.c:826-834 | on a volume that fits its device the 32-bit arithmetic does not wrap: cluster c gives sector database + (c - 2) * csize, the first of csize sectors inside the volume, any other number gives 0, and no cluster does |
| FileSpace.ClustersApart | software/hello/ff.c:826-834 | distinct clusters occupy disjoint sectors |
| FileSpace.SectorPlace | software/hello/ff.c:826-834 | sector j of a file is sector j modulo csize of the cluster at index j / csize of its chain, counted from database on |
| FileSpace.FileSectorsDistinct | software/hello/ff.c:826-834 | the sectors of a chain are distinct sectors of the data area |
| FileSpace.FilesApart | software/hello/ff.c:826-834 | files without a common cluster have no common sector |
| Chains.ReleaseChain | software/hello/ff.c:974-1004 | on a sound chain remove_chain frees exactly the clusters of the chain and meets no illegal entry |
| Chains.ReleaseWalk | software/hello/ff.c:974-1004 | on any table: if following the links visits different entries in use until a link leaves the table or leads to an entry below 2 or back to an entry visited, exactly the visited entries are freed, and the value 1 is reported exactly if that link leads to it |
| Chains.ReleaseCut | software/hello/ff.c:3525-3528 | ending a chain behind its k-th cluster and removing what follows keeps exactly the first k clusters |
| Chains.UsedShrinks | software/hello/ff.c:974-1004 | each round of remove_chain has fewer entries in use to go, on any table |
| Chains.GrowChain | software/hello/ff.c:1051-1054 | linking a free cluster behind the tail of a chain keeps the table a partition into disjoint chains, with that chain one longer and every other as it was |
| Chains.NewChain | software/hello/ff.c:1051-1054 | marking a free cluster as the end makes it a chain of its own |
| Chains.DropChain | software/hello/ff.c:974-1004 | freeing a chain removes it from the partition and touches no other |
| Chains.CutChain | software/hello/ff.c:3517-3528 | cutting a chain replaces it by its beginning in the partition |
| Chains.PartitionUnique | software/hello/ff.c:974-1004 | a table falls into chains in one way only, so which chains there are is a fact of the table |
| Allocator.FindFree | software/hello/ff.c:1037-1049 | the search looks at clusters in cyclic order from behind its starting point, at each once at most: it stops at the first that is free or holds 1, or at a disk error, and answers 0 exactly when no entry is free or illegal |
| Allocator.CreateChain | software/hello/ff.c:1016-1066 | answers the next cluster of a chain that goes on, else takes the first free cluster behind the starting point and links it; nothing but these two entries changes; exactly when a cluster is taken last_clust becomes that cluster and, if the count is known, the count drops by one and the FSINFO flag is set; an exact free count stays exact |
| Allocator.FirstHitIs | software/hello/ff.c:1022-1049 | in plain terms the starting point of a new chain is behind last_clust if that names a cluster, and cluster 2 otherwise; from there the clusters come in order up to the last and then from 2 on |
| Allocator.CreateTwice | software/hello/ff.c:1022-1066 | a new chain asked for after a call that took cluster n gets the first free cluster in cyclic order behind n, wherever clusters were freed before |
| Allocator.RemoveChain | software/hello/ff.c:963-1005 | stops on every table, cyclic or cross-linked ones included, and leaves exactly what following and freeing the links leaves; it reports an internal error exactly if it met the value 1; an exact free count stays exact, last_clust stays, and the FSINFO flag is set exactly if the count is known and a cluster was freed |
| Allocator.CreateKeepsPartition | software/hello/ff.c:1016-1066 | on a table that is a partition into chains, create_chain answers 0 if and only if no cluster is free, else the first free cluster behind the start; only the given chain grows, by this cluster at its tail |
| Allocator.RemoveKeepsPartition | software/hello/ff.c:963-1005 | on such a table remove_chain removes one chain from the partition and frees exactly its clusters |
| Allocator.TakenCount | software/hello/ff.c:1055-1061 | free_clust decremented on 32 bits is the number of free entries again |
| Allocator.FreedCount | software/hello/ff.c:986-989 | free_clust incremented on 32 bits is the number of free entries again |
| FileCursor.Direct | software/hello/ff.c:2773-2793 | a direct transfer of whole sectors changes exactly these sectors of the file, the private buffer being refilled if its sector is among them |
| FileCursor.PatchChunk | software/hello/ff.c:2801-2818 | a partial transfer into the private buffer writes exactly the given bytes, also when the buffer is taken over unread behind the end of the file |
| FileCursor.DirectChunk | software/hello/ff.c:2773-2793 | the same in bytes: whole sectors written at the position |
| FileCursor.DirectSlice | software/hello/ff.c:2658-2674 | sectors read directly, overlaid by the dirty buffer where it holds one of them, are the bytes of the file |
| FileCursor.BufferSlice | software/hello/ff.c:2691-2698 | the bytes picked from the private buffer are the bytes of the file at the position |
| FileCursor.Flush | software/hello/ff.c:2764-2768 | writing the dirty buffer back changes no byte of the file and nothing outside it |
| FileCursor.Grow | software/hello/ff.c:2741-2759 | a file that takes a free cluster, which last_clust then names, keeps its bytes, and no other entry or sector changes |
| FileCursor.SeekHere | software/hello/ff.c:3138-3143 | a seek within or behind the current cluster may start at that cluster: the mask gives the first byte of it |
| FileCursor.SeekNext | software/hello/ff.c:3157-3172 | one step along the chain moves the position by one cluster |
| FileIO.Fil.constructor | software/hello/ff.c:2587-2599 | an opened file stands at byte 0 of its chain, with its buffer clean |
| FileIO.ByteOnDisk | software/hello/ff.c:2612-2703 | where the bytes of a file lie: byte i is byte i modulo 512 of sector database + (c - 2) * csize + i / 512 modulo csize, c being the cluster at index i / (512 * csize) of its chain, unless the private buffer holds that sector and is dirty |
| FileIO.ChainOnDisk | software/hello/ff.c:2640-2656 | the chain of a file starts with its first cluster, each link is the entry of the cluster before, and the last entry names no cluster |
| FileIO.FRead | software/hello/ff.c:2612-2703 | success returns exactly the bytes from the position on, as many as asked for or left, and moves the position; contents, size and table are unchanged; it fails only if access is denied, an error stopped the file before, or a transfer failed |
| FileIO.FWrite | software/hello/ff.c:2713-2826 | success replaces exactly the bytes from the old position on by the first bw given ones and the size becomes the maximum; bw falls short only if no cluster is free, and is 0 if the end would reach 4 GB; the file is marked as written exactly by success; last_clust and the FSINFO flag follow the clusters taken; every other entry with its reserved bits and every other sector of the volume stays, those before the FATs included |
| FileIO.CopyRun | software/hello/ff.c:2662-2671 | a direct read with the one-comparison range test delivers the sectors overlaid by the dirty buffer |
| FileIO.Stretch | software/hello/ff.c:2741-2759 | create_chain on behalf of a file: the file keeps its bytes and its chain continues with the answered cluster; 0 only if the volume is full |
| FileIO.ReadSome | software/hello/ff.c:2637-2700 | one round of the read loop delivers at least one byte, the next ones of the file |
| FileSeek.FLseek | software/hello/ff.c:3127-3201 | without write access the target is clipped to the size and the table stays; else the file is stretched: the position is the target or, only when no cluster is free, the end of the space of the file; old bytes stay, the size becomes the maximum, and the file is marked as written exactly if it grew; last_clust and the FSINFO flag follow the clusters taken |
| FileSeek.SeekLoop | software/hello/ff.c:3156-3172 | the cluster loop walks or stretches the chain until the target lies in the current cluster or the volume is full |
| FileTruncate.FTruncate | software/hello/ff.c:3496-3543 | success leaves exactly the bytes before the position; if the size shrinks, the chain is cut to the clusters covering them, and a file that ends at the position already keeps its spare clusters; nothing outside the file changes, last_clust stays, and the FSINFO flag is set exactly if the count is known and a cluster is freed; the file is marked as written exactly if the cut was begun; it fails only if access is denied, an error stopped the file before, or a transfer failed |
| FileTruncate.CoveringIs | software/hello/ff.c:3517-3528 | the clusters kept are as many as the position fills, rounded up |
| FileTruncate.CutChanges | software/hello/ff.c:3517-3528 | the table changes exactly if the chain gets shorter |
| FileTruncate.TruncatedOk | software/hello/ff.c:3514-3537 | a cut file is sound again, with the dirty buffer written back even if its sector no longer belongs to the file |
| FileTruncate.TruncatedPartition | software/hello/ff.c:3517-3528 | a cut keeps the table a partition into chains in which only the chain of the file is replaced, by its beginning or by nothing |
| FileRun.Call | software/hello/ff.c:2612-2703 | each of seek, read, write and truncate that answers FR_OK does to contents and position what it would do to a byte sequence with a position, and harms no other file |
| FileRun.Run | software/hello/ff.c:2612-2826 | every run of such calls, up to the first that fails, refines a byte sequence with a position; afterwards the table is the partition it was with only the chain of this file replaced, every other chain and its data sectors, the static root directory, the sectors before the FATs and the reserved bits are unchanged, and an exact free count is still exact |
| FileRun.ReadAfterWrite | software/hello/ff.c:2612-2826 | writing bytes completely, seeking back and reading returns them |
| FileRun.HarmlessTransitive | software/hello/ff.c:2713-2826 | what a run does to the rest of the volume composes from its calls |
| FileRun.FrameHarmless | software/hello/ff.c:2741-2759 | a file that only takes free clusters keeps the partition, every other chain with its data, and everything before the data area |
| FileRun.TruncatedHarmless | software/hello/ff.c:3514-3537 | so does a file that is cut |
| FreeCount.GetFree | software/hello/ff.c:3444-3487 | a stored count that can be one is answered; else the table is counted: on FAT12 the answer is the number of free clusters, on FAT16 and FAT32 it is so if and only if entries 0 and 1 are not zero |
| FreeCount.ScanCount | software/hello/ff.c:3462-3480 | the accelerated scan over all entries equals the entry-by-entry count from 2 on if and only if entries 0 and 1 are not zero |
| FreeCount.ScanOvercounts | software/hello/ff.c:3462-3480 | a table with as many entries as FAT16 and FAT32 have, on which the scan counts a cluster too many |
| FreeCount.ScanSectors | software/hello/ff.c:3462-3480 | the sector scan counts the zero entries 0..n_fatent-1 |
| FreeCount.CountEntries | software/hello/ff.c:3454-3461 | the FAT12 loop counts the free clusters, or reports an internal error only on a table that holds the value 1 |
| FreeCount.EntryInWindow | software/hello/ff.c:3466-3479 | an aligned entry lies in one sector, and the test of the scan on it is whether get_fat would read zero |
| LinkMap.CreateLinkMap | software/hello/ff.c:3074-3098 | the table becomes the run-length encoding of the chain if it is large enough, else the required size is reported; it fails on a sound chain if and only if that chain ends in the last cluster of the volume with a value that passes for the number of the next one |
| LinkMap.EndsInLinkHappens | software/hello/ff.c:3080-3094 | a sound chain for which the map creation fails |
| LinkMap.ProperEnd | software/hello/ff.c:3080-3094 | a chain ended by one of the eight end marks of its FAT type never fails |
| LinkMap.GetFragment | software/hello/ff.c:3080-3088 | the inner loop finds a maximal run of consecutive clusters |
| LinkMap.ExpandEncode | software/hello/ff.c:3075-3098 | the encoding stands for exactly the chain |
| LinkMap.EncodeExample | software/hello/ff.c:3074-3098 | for the chain 5, 6, 7, 10 the table begins with 6, 3, 5, 1, 10, 0 |
| LinkMap.EncodeCompact | software/hello/ff.c:3075-3098 | no fragment is empty and no two neighbours could be joined |
| LinkMap.ClmtClust | software/hello/ff.c:1078-1095 | the search through the table finds the cluster of index ofs / 512 / csize of what the table encodes, 0 behind its end |
| LinkMap.MapFollowsChain | software/hello/ff.c:1078-1095 | for every index in the chain that is the cluster reached by following the links from the first one |
| LinkMap.FastSeek | software/hello/ff.c:3099-3124 | a seek through the map meets the same specification as the seek that follows the chain, clipped to the size |
| Directory.DirSdi | software/hello/ff.c:1106-1144 | finds the cluster, sector and offset of every entry i a table has room for, in plain numbers: byte 32 * i modulo 512 of sector database + (c - 2) * csize + i / 16 modulo csize with c at index i / (16 * csize) of the chain, or of sector dirbase + i / 16 of the static root, and fails otherwise, for static roots and chained directories of any cluster size |
| Directory.SeekRoot | software/hello/ff.c:1117-1141 | a directory opened at cluster 0 is the root: on FAT32 entry 0 is at the first sector of cluster dirbase, on FAT12 and FAT16 at sector dirbase |
| Directory.PlaceStands | software/hello/ff.c:1117-1141 | the place every directory function speaks of is that one |
| Directory.DirNext | software/hello/ff.c:1154-1214 | a successful step from entry i stands at entry i + 1; when it stretches the table it appends one cluster that was free, all of whose sectors are zero, and changes nothing else |
| Directory.ClearCluster | software/hello/ff.c:1190-1198 | the clearing loop sets the sectors of the new cluster to zero, no others, and leaves the window on the first of them |
| Directory.StretchTable | software/hello/ff.c:1185-1198 | the chain of the directory grows by one cleared cluster |
| Directory.Walk | software/hello/ff.c:1154-1214 | n steps from the first entry lead to entry n |
| Directory.WalkAndSeek | software/hello/ff.c:1106-1214 | stepping and random access reach the same cluster, sector and offset, and succeed for the same entries |
| Mount.Layout | software/hello/ff.c:2299-2350 | the layout code accepts exactly the boot sectors that pass its tests in 32-bit arithmetic, with the sub-type bounds of the source |
| Mount.LayoutSound | software/hello/ff.c:2299-2350 | an accepted volume has its regions in order, disjoint and inside the device, with every entry inside one FAT, if and only if the sectors before its first cluster, summed without wrap-around, are no more than its total |
| Mount.WrappedLayout | software/hello/ff.c:2303-2331 | a boot sector that is accepted although its FATs do not fit: their size wraps to 0 and the clusters lie inside the first FAT |
| Mount.AcceptsWellFormed | software/hello/ff.c:2299-2350 | where the sum does not wrap, the accepted volumes are exactly the well-formed ones in plain arithmetic |
| Mount.PlanFits | software/hello/ff.c:2299-2350 | a well-formed volume has the layout every other module relies on |
| Mount.StoredIsPlan | software/hello/ff.c:2333-2350 | where nothing wraps the stored geometry is the one in plain numbers |
| Mount.EntriesInside | software/hello/ff.c:2340-2350 | every entry below n_fatent, both bytes of a FAT12 entry included, lies in one FAT copy |
| Mount.FindVolume | software/hello/ff.c:2296-2379 | on a device that works exactly the accepted volumes are mounted, and these are the well-formed ones; with an accurate FSINFO sector, or none, free_clust is unknown or exact |
| Mount.PlanBytes | software/hello/ff.c:2299-2350 | the geometry mounted, from the bytes of the boot sector: offsets, byte order, the two sizes with their 32-bit forms, and the sub-type with its bounds at 4085 and 65525 clusters |
| Mount.InfoBytes | software/hello/ff.c:2352-2377 | which bytes are the signatures of an FSINFO sector, and where its two numbers lie |
| Mount.LoadInfo | software/hello/ff.c:2352-2377 | the FSINFO count and the last cluster are taken over only from a sector with its signatures |
| Bits.PowerOfTwoTest | software/hello/ff.c:2312-2313 | n & (n - 1) is zero exactly for the powers of two |
| Bits.RangeTest | software/hello/ff.c:741-741 | x - lo < len on uint32_t is the test for lo <= x < lo + len |
| PageTable.PtIdxInjective | software/hello/vm.c:115-119 | the two index slices of two addresses agree exactly if the addresses lie in one page |
| PageTable.PteBitsIs | software/hello/vm.c:70-78 | an entry keeps its page number above its low ten bits |
| PageTable.PageAlloc | software/hello/vm.c:27-33 | hands out the next page of the pool, cleared, never one handed out before, and changes no entry; it stops exactly when the pool is used up |
| PageTable.WalkInternal | software/hello/vm.c:130-152 | finds the word that holds the entry of a virtual page, making missing tables only when asked to, and changes no entry; it stops exactly if it takes more pages than are left, and takes pages for the root and the table only |
| PageTable.HardwareWalk | software/hello/vm.c:115-152 | in plain numbers: the table the model speaks of is what a walk over two levels of 1024 words finds, ten bits of the address each, through the page number above bit 10 of the root entry |
| PageTable.StorePte | software/hello/vm.c:130-162 | a store through that word is read back for its page and for no other page |
| PageTable.SlotsApart | software/hello/vm.c:130-152 | different virtual pages have different words |
| PageTable.PteCreateIs | software/hello/vm.c:80-108 | the entry holds the page number and a type chosen by the protection (see the next three rows) |
| PageTable.UserAccess | software/hello/vm.c:84-94 | by the masks of the hardware a user page may be written exactly with PROT_WRITE, executed exactly with PROT_EXEC, and read with any of the three |
| PageTable.SupervisorAccess | software/hello/vm.c:95-106 | the same of a page of the supervisor, by its masks |
| PageTable.NoUserAccess | software/hello/vm.c:95-106 | a user may not access such a page |
| PageTable.PermitsRights | software/hello/vm.c:224-226 | the permission test of the fault handler passes exactly if the page allows all accesses asked for |
| VmState.Unstore | software/hello/vm.c:203-222 | taking a lazy entry out of the table leaves one reference less to its region, and all counts right |
| VmState.StorePending | software/hello/vm.c:271-280 | storing a pending pointer keeps all counts right |
| VmState.Allocate | software/hello/vm.c:35-59 | a region allocated for n pages has n references pending, and its file one more |
| VmState.DroppedFiles | software/hello/vm.c:61-68 | when the last reference of a region goes its file loses one, and is closed exactly with its last |
| VmState.Restore | software/hello/vm.c:240-254 | replacing entries that are no pointers leaves the counts alone |
| VmState.NewBase | software/hello/vm.c:38-43 | the first region array cannot be pointed to yet |
| VmState.RecordsOfPage | software/hello/vm.c:18-18 | a page holds 170 records of 24 bytes and not one more |
| Vm.FileIncref | software/hello/file.c:15-22 | one reference more |
| Vm.FileDecref | software/hello/file.c:24-36 | one reference less; the last one closes the file |
| Vm.VmrAlloc | software/hello/vm.c:35-59 | takes the first free region record if there is one, with refcnt references to come and one of its own to the file; it stops exactly if there is no page for the records |
| Vm.VmrDecref | software/hello/vm.c:61-68 | a reference less; with the last one the region frees its file |
| Vm.UserRange | software/hello/vm.c:187-192 | the range test with its overflow check is the range test in plain numbers |
| Vm.ScanBack | software/hello/vm.c:175-181 | the backward scan of a window finds its highest mapped page, or that there is none; where the window runs past the last address it answers the page its end wraps to, unlooked at |
| Vm.VmAlloc | software/hello/vm.c:170-185 | for a request that fits below mmap_max exactly the lowest window of npage unmapped pages at or above brk and below mmap_max, although the search skips past blocking pages, and 0 only if none exists or it starts at address 0; for any request the page where the search on 32 bits ends; it stops only without a root page, or when a search whose end wraps around never ends |
| Vm.InBounds | software/hello/vm.c:172-184 | the answer to a request that fits lies below mmap_max with all its pages |
| Vm.WrappedRequest | software/hello/vm.c:172-173 | a request for more than mmap_max is answered by brk, although its end lies above mmap_max |
| Vm.AnswerBelow | software/hello/vm.c:177-182 | a still larger one is answered by a page below brk |
| Vm.Skip | software/hello/vm.c:175-183 | a mapped page rules out every window skipped over |
| Vm.UnmapPage | software/hello/vm.c:242-251 | a page unmapped takes its reference from the region it pointed to; it stops exactly without a root page |
| Vm.DoMunmap | software/hello/vm.c:240-254 | exactly the pages of the range are unmapped; every region and file count equals the number of its references afterwards; regions not mapped there keep their counts |
| Vm.DoMunmapCall | software/hello/vm.c:289-299 | a bad range is refused and changes nothing, otherwise the pages of the range are unmapped; it stops only without a root page |
| Vm.HandlePageFault | software/hello/vm.c:194-230 | a lazy entry becomes the page itself with the protection of its region, whose count drops by one; the answer is 0 exactly if the access is permitted; other pages and regions stay; it stops exactly without a root page, or when the file gives nothing for a lazy page in the user range |
| Vm.LoadPage | software/hello/vm.c:203-222 | the loading part does so through the word of the entry, and stops exactly if the file gives nothing; while the page is filled its entry lets the supervisor read and write it and users do nothing |
| Vm.KernelMapping | software/hello/vm.c:208-208 | the entry of a page being filled is such an entry |
| Vm.MapPage | software/hello/vm.c:271-280 | whatever was mapped on the page is replaced by a pointer to the region; it stops exactly if a table it needs finds no page |
| Vm.MapPages | software/hello/vm.c:271-280 | exactly the pages of the mapping point to the region, and no reference is left pending; it stops only if a table it needs finds no page, and never ends if the mapping reaches the last page of all |
| Vm.Populate | software/hello/vm.c:282-284 | populating makes exactly these pages present, with the protection asked for; it stops exactly if a page is outside the user range or the file gives nothing for it, never because the access is refused |
| Vm.PermitsOwn | software/hello/vm.c:282-284 | a page permits the access it was mapped for |
| Vm.MapRegion | software/hello/vm.c:271-284 | the two loops together; where the end of the mapping wraps around they store nothing |
| Vm.DoMmap | software/hello/vm.c:256-287 | on success exactly the pages of the range are mapped through the first region that was free, or present, and every region and file is counted once for each reference to it, unless the end of the range wraps around: then none of the references counted is stored; without MAP_FIXED the range is where the search ended; -1 only for a bad range, no window, or no free region, and then no mapping and no count has changed; it stops only if pages are used up, a search or mapping never ends, or a page to be populated cannot be; pages are taken for root, tables and regions only |
| Vm.LostReferences | software/hello/vm.c:265-284 | after such a mapping the counts do not agree with the table |
| Vm.FileOpen | software/hello/file.c:38-75 | the first closed record is taken, with its own reference and that of its handle |
| Vm.FileClose | software/hello/file.c:24-36 | closing a handle closes the file exactly if no region names it |
| Vm.Memory.constructor | software/hello/vm.c:18-25 | before the first mapping all counts are right |
| Elf.LoadElf | software/hello/elf.c:43-93 | it succeeds exactly if every segment to load passes the range test and is complete in the file; then every PT_LOAD segment of an ascending, non-overlapping table has its first filesz bytes from the file and zeros up to memsz, inside the user range: the image is moved by whole superpages so that the superpage of its lowest segment lands on the first boundary at or behind first_free_paddr; of the page before each segment what belongs to no segment is zero, nothing else has changed, and first_vaddr_after_user is the largest end, moved back and rounded up to a page |
| Elf.MinVaddrIs | software/hello/elf.c:45-47 | the minimum is the address of a segment to load |
| Elf.StackHeader | software/hello/elf.c:45-47 | a header that is not loaded, with address 0, does not take part in it |
| Elf.MovedBy | software/hello/elf.c:43-55 | a bias taken from the two rounded numbers moves every segment as it says there, also where the difference wraps around |
| Elf.PrefixCleared | software/hello/elf.c:73-77 | whatever lies between the start of a page and a segment in it, and in no segment, ends up zero |
| Elf.LoadSegments | software/hello/elf.c:64-89 | the loop goes on exactly if each segment passes the range test and is complete in the file; max_vaddr is the largest end |
| Elf.LoadSegment | software/hello/elf.c:73-77 | one round: file bytes, the page part before and the rest behind cleared |
| Elf.DownLoadsAll | software/hello/elf.c:64-77 | loading from the last segment to the first makes all segments complete although each clears what may be the end of a lower one |
| Elf.UpDoesNot | software/hello/elf.c:64-77 | loading from the first to the last would not |
| Elf.PassesIff | software/hello/elf.c:71-72 | the range test gets the end of the segment where it expects a length: what passes lies in the user range |
| Elf.RefusedInRange | software/hello/elf.c:71-72 | a segment inside the user range that this test refuses |
| DevQueue.Hls.constructor | software/hello/mtrap.c:72-116 | empty queues are in balance |
| DevQueue.DevReq | software/hello/mtrap.c:179-286 | a refused message changes nothing; a console read waits at the head of the request list; every other request is answered at once, at the tail of the responses, with the interrupt pending; every accepted message is in exactly one place, and no message waiting already is changed |
| DevQueue.ResponseIs | software/hello/mtrap.c:179-286 | the answer of each device to each command, in plain numbers |
| DevQueue.DevResp | software/hello/mtrap.c:288-307 | hands back the oldest response; responses come out in the order they went in; the interrupt stays pending exactly while responses are left or another hart signals |
| DevQueue.IoIrqService | software/hello/mtrap.c:72-116 | the first request that waits for console input gets the character and becomes the last response, every other message keeps its place and its data; the kernel stops exactly without such a request or without a character |
| DevQueue.ClearIpi | software/hello/mtrap.c:322-331 | the interrupt is cleared only if no response is waiting |
| DevQueue.Respond | software/hello/mtrap.c:151-166 | the message with its result becomes the last response |
| DevQueue.Unlink | software/hello/mtrap.c:91-97 | taking the i-th request out of its list keeps the order of the others, and its stored size right |
| DevQueue.Enqueue | software/hello/mtrap.c:99-107 | appending to the response list keeps head null exactly when tail is |
| DevQueue.Taken | software/hello/mtrap.c:91-97 | a request taken out is missing from the books exactly until it is enqueued |
| DevQueue.HandedBack | software/hello/mtrap.c:288-307 | handing a response back keeps the books |
| Hex.Scan | software/bootstrap/simple.c:170-182 | the pointer loop computes the number the text stands for |
| Hex.ScanReads | software/bootstrap/simple.c:170-190 | scan reads back the hexadecimal text of up to four bytes exactly |
| Hex.StrtolReads | software/bootstrap/srecord.c:81-84 | strtol with base 16 does so up to the largest long, which it gives for anything greater |
| Hex.ReadExample | software/bootstrap/srecord.c:81-84 | scan passes over blanks and ends at any other character; strtol takes white space, a sign and the prefix 0x |
| Hex.DigitValues | software/bootstrap/simple.c:170-182 | letters count in either case, and nothing else is a digit |
| Hex.FirstLineIs | software/bootstrap/srecord.c:54-67 | the first line is cut by an end of line, by the end of the file, or one character before the size of the buffer |
| Hex.HexText | software/bootstrap/srecord.c:173-178 | each byte is written as two digits, the higher one first |
| Hex.SumUpdate | software/bootstrap/srecord.c:204-226 | changing one byte changes the sum by the difference |
| Hex.FirstLineFound | software/bootstrap/srecord.c:54-67 | a line ended as the writers end it is found again by the readers, whatever follows it |
| SRecords.NewSRecord | software/bootstrap/srecord.c:28-40 | a record of up to 32 bytes is stored with its checksum |
| SRecords.WriteSRecord | software/bootstrap/srecord.c:142-185 | the text written is S, the type, and the bytes of the record in hexadecimal |
| SRecords.WrittenExample | software/bootstrap/srecord.c:142-185 | the record S1 for address 7AF0 with bytes 0A and 0D is written S1057AF00A0D79 |
| SRecords.AddressWidths | software/bootstrap/srecord.c:13-24 | the width of the address of every type |
| SRecords.ReadSRecord | software/bootstrap/simple.c:315-386 | the reader accepts exactly the lines its grammar and checksum admit and stores the record they stand for |
| SRecords.ReadFromFile | software/bootstrap/srecord.c:44-139 | the same on the first line of a file, with the end of the file and an empty line told apart |
| SRecords.ChecksumSRecord | software/bootstrap/srecord.c:204-226 | the sum on uint8_t is the ones' complement of the sum of count, address and data, modulo 256 |
| SRecords.RoundTrip | software/bootstrap/srecord.c:44-185 | reading what was written gives the same record if and only if the address fits the digits of its type and the numbers of the reader |
| SRecords.LoaderRoundTrip | software/bootstrap/simple.c:315-386 | the reader of the boot loader, with scan, reads back every record whose address fits its type |
| SRecords.LibraryRoundTrip | software/bootstrap/srecord.c:44-139 | the library reader does so if and only if the address does not exceed the largest long |
| SRecords.CutAddress | software/bootstrap/srecord.c:158-171 | a record whose address does not fit is accepted with another address if and only if the bytes of the address read have the same sum modulo 256; where the reader can hold what is left of it, if and only if the bytes cut off sum to a multiple of 256 |
| SRecords.CutExample | software/bootstrap/srecord.c:158-171 | such a record |
| SRecords.AcceptedIff | software/bootstrap/srecord.c:130-136 | a text is accepted if and only if its bytes sum to 255 modulo 256, with an address above the largest long taken as that |
| SRecords.ByteChange | software/bootstrap/srecord.c:130-136 | changing the value of any single data or checksum byte of an accepted record makes it refused; changing an address byte does so if and only if the sums of the bytes of the two addresses read differ modulo 256, which they do when both are at most the largest long |
| SRecords.ClampedExample | software/bootstrap/srecord.c:102-104 | with a long of 32 bits a record whose first address byte goes from 7F to 80 is accepted as the same record |
| SRecords.ByteDigits | software/bootstrap/srecord.c:173-178 | a byte changed is its two digits changed and no other character |
| SRecords.WrittenLine | software/bootstrap/srecord.c:54-67 | a written record is the first line of any file that starts with it |
| IHex.WriteIHexRecord | software/bootstrap/ihex.c:108-134 | up to 256 data bytes are accepted; the text holds length, address, type, data and checksum |
| IHex.WrittenExample | software/bootstrap/ihex.c:108-134 | a data record for address 01AB with bytes 21 and 46 is written :0201AB002146EB |
| IHex.ReadIHexRecord | software/bootstrap/ihex.c:29-105 | the reader accepts exactly the first lines its grammar and checksum admit and stores the record they stand for |
| IHex.ChecksumIHexRecord | software/bootstrap/ihex.c:153-169 | the sum on uint8_t is the two's complement of the sum of length, type, address and data, also for negative lengths and types |
| IHex.RoundTrip | software/bootstrap/ihex.c:29-134 | reading what was written gives the same record if and only if its length and its type each fit into one byte; the writer also takes 256 data bytes, negative lengths and any other type |
| IHex.AcceptedIff | software/bootstrap/ihex.c:97-102 | a text is accepted if and only if its bytes sum to 0 modulo 256 |
| IHex.ByteChange | software/bootstrap/ihex.c:97-102 | changing the value of any single address, type, data or checksum byte makes it refused |

## Left out

- File systems above the file object: path parsing, `f_open` before its last lines, directory entries, labels, timestamps, `f_sync` and the write-back of FSINFO. They add long functions and few properties to the layers here.
- The search for a boot sector and a partition before `find_volume` reads the layout; a volume starts at a given sector.
- Long file names, file locks, `f_mkfs`, `f_fdisk` and the string functions are switched off in the configuration.
- FAT32 volumes with more entries than 0x0FFFFFF7: `Volume.Geometry.Room` demands room for the eight end marks, without which the end of a chain cannot be told.
- One file at a time: `Fil.Valid` demands that the window holds no sector of the file, and calls on two files are not interleaved. `Harmless` says what a run does to other files.
- FileSeek.FLseek: says nothing about the bytes an extending seek uncovers, because the source leaves them as they are on the disk.
- Directory.DirNext: says nothing about the fields of the object after an answer other than FR_OK, where the source has already moved the sector number on.
- Mount.FindVolume: assumes of a boot sector it accepts that its layout is sound and on the device; what happens otherwise is said by `Mount.LayoutSound`. The flag that switches the FSINFO write-back off is left out with that.
- Directory.StretchTable: states the effect for FR_OK; after a failed transfer only what every operation keeps is stated.
- Error paths where the source promises nothing: after a failed transfer the table may hold a half-made change, of which only the untouched entries are stated.
- FreeCount.GetFree: after an error the source stores the partial count as the free count; the contract says that it does, and nothing about the number.
- The 64-bit build of `vm.c`, where a page holds fewer entries than an index of ten bits can name.
- The virtual memory is sequential, on one hart, with the lock and TLB flushes left out; the contents of pages, and so what a fault reads from a file, are not modelled; the answer of `file_pread` is a parameter for each page.
- The page of region records is an array of records beside the pages, not words of its page.
- Vm.VmAlloc: assumes a page-aligned `brk`, which is all that `__do_brk` stores, and `mmap_max` at least a page below 2^32.
- Vm.DoMmap: for a mapping that wraps around it says nothing about the runs after it, in which the lost references stay counted.
- A protection is the bit pattern of the `int`, so that -1 is 0xFFFFFFFF.
- `do_brk`, `do_mprotect`, `__map_kernel_range` and `supervisor_vm_init` are not modelled; `do_mprotect` changes a whole region where it should change pages.
- The header checks of `load_elf` and its user branch, where segments sharing a page go through `__do_mmap`.
- Elf.LoadElf: assumes that no biased segment wraps around the address space.
- DevQueue.DevReq: assumes a message that is not queued at the time; one queued twice would tie the list into a ring. The address test on messages already queued is passed over.
- The devices behind the requests (console, disk image) are parameters; the request list is last in, first out, as in the source.
- The `FILE*` of the record libraries is a text; the width of `long` is the parameter of `Hex.Strtol`; write errors and null pointers are left out.
- IHex.Parse: refuses a count of -5, for which the source reads the character before its buffer.
- SRecords.NewSRecord: assumes a type from 0 to 9, with which the source indexes its table of address lengths untested.
- Device drivers, consoles, instruction emulation, the rest of the boot loader, and the tester.
