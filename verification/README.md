# A verified model of the CSOS kernel

This project models five parts of a small x86-64 kernel in Dafny and proves what
they are for, over every input, every run and every reachable state.

* **FAT32 driver** (`FatMap`, `Fat32Layout`, `Fat32Volume`, `Fat32Data`, `Fat32Chain`,
  `Fat32Slots`, `Fat32File`, `Fat32Names`, `Fat32Scan`, `Fat32Short`, `Fat32Visible`,
  `Fat32Place`, `Fat32Format`, `Fat32Patched`, `Fat32Skip`, `Fat32Dir`, `Fat32Insert`). The driver works on the sectors of a device. Above the
  sectors stand a table of entries, a book of live chains and the bytes of each chain:
  every operation keeps the chains acyclic, disjoint, end-marked and all that is in use;
  file reads and writes refine one byte sequence per file; directories refine a list of
  entries, long names included. The layout is pinned down from both ends: the clusters laid
  end to end are the sectors behind the tables (`Fat32Place`), and entries, records, checksums
  and FSInfo are written out in bytes (`Fat32Format`). The format is that of the Microsoft FAT32 File System
  Specification, version 1.03, sections "FAT Data Structure", "FAT Long Directory Entries"
  and "FAT32 FSInfo Sector Structure".
* **SMP scheduler** (`Sched`, `SchedSteps`, `SchedRuns`, `SchedTime`, `SchedLists`). A
  transition system whose steps are the critical sections, with a program counter for each
  of 256 CPUs. The invariants hold after every step of every interleaving, and the results
  are about whole runs. `SchedLists` carries out the same steps on the linked queues and
  the linked sleep list of the kernel.
* **Memory** (`Bitmap`, `Pmm`, `HeapRuns`, `HeapList`, `HeapVacant`, `KernelHeap`, `PageTables`, `Vmm`,
  `ElfImage`, `LoadLog`, `ElfLoader`). A bitmap page allocator, an address-sorted coalescing
  heap on block headers in memory, four-level page tables (Intel SDM Volume 3A, section 4.5)
  that refine a flat page map, and the loader of user images (ELF-64 Object File Format,
  section 8). From the CR3 load on, the kernel reaches a page through the tables, at the
  address equal to its number: an access that misses its page sets a flag `astray`, and the
  results say exactly when none does.
* **Block-to-byte layers** (`FlatBytes`, `BlockDevice`, `Devfs`, `Partitions`, `Ext4Tree`,
  `Ext4Exact`, `Ext4`). Unaligned byte I/O over a block device with failing transfers, through partitions,
  and extent-tree lookup against the flat list of extents.
* **VFS and ramfs** (`VfsPath`, `Vfs`, `RamfsNames`, `RamfsTree`, `RamfsScan`, `Ramfs`). Path
  normalisation against a fold over components, longest-prefix mount resolution, and a
  reference-counted tree with sorted child lists and live directory cursors.

`Links`, `Options`, `Errors` and `LittleEndian` are shared helpers.

What the original updates in place is a class here with the same fields, and its loops are
loops. Linked structures are maps of next pointers (or of headers by address), so that the
pointer changes are the original's. Abstract values are ghost fields that the invariants tie
to the real ones. A device or an allocation may fail at any time and then sets a flag for good;
a device that is `sound` (or a ramfs with `plenty` of memory) never does, so that for it every
result is total. A FAT32 volume keeps the sectors it was mounted with: whatever is not its to
write, the boot sector and everything outside the volume included, stays as it was in every state
(`Fat32Layout.OthersKept`, part of `Fat32Volume.Volume.Valid`).

## Where the code falls short of its purpose

Each of these is a theorem about the code as it stands, with the exact condition under which
the code does what it is for.

* `fat32_dir_insert` puts an entry behind an end mark when a name needs more slots than follow
  the mark: the entry is then never found (`Fat32Visible.SkippedHides`, with an insertion
  for which it happens in `Fat32Skip.SkipMisses`). The new
  entry is found exactly when that does not happen and the name is representable
  (`Fat32Visible.InsertedFound`).
* Long names lose every character from 0x80 on: such a name is not found under itself
  (`Fat32Names.MaskedFound`).
* The ext4 driver reads the upper half of an index pointer at offset 6 of the entry, where the
  format has it at offset 8 (`Ext4Tree.ChildRead`, `Ext4Exact.BigPointerFails`). It takes an
  extent of length 0x8000, which is written, for an empty one (`Ext4Exact.FullExtentFails`),
  and loses an extent that ends at the last 32-bit block (`Ext4Tree.LeafExact`). Over a whole
  tree, it finds what the extents say exactly when no pointer and no extent is one of these
  (`Ext4Exact.WalkExact`).
* The loader maps user pages into the tables that carry the kernel's identity map, and fills
  each fresh page through that map. A LOAD page inside the identity range takes the place of a
  page there: nothing goes astray and the identity map stays whole exactly when every LOAD page
  lies above the memory the page allocator manages (`ElfLoader.Loader.MapImage`), and segments
  that share no page are then loaded. Below that line an image whose pages differ is loaded
  exactly when no page is handed out at an address that the load has already mapped
  (`LoadLog.LoadedExactly`); `ElfLoader.Loader.OverlaySample` has an image and page addresses
  for which a byte of the first page reads as one of the second. `Vmm.AddressSpace.MapPage` and
  `Vmm.InitVmm` say when the identity map stays whole for any caller.
* `fat32_write` stores the size in 32 bits: a file is what was written exactly when the end of
  the write is below 2^32, otherwise it is cut (`Fat32File.FatFile.Write`, `LastByteFails`).
  `ramfs` copies, clears and moves lengths cut to 32 bits (`Ramfs.StoredExact`, `MovedExact`).
* The page allocator's range marking rounds addresses up in 64 bits: a usable range that starts
  in the last page frees pages from 0 on, a reserved one that ends there is not kept
  (`Pmm.RoundingIn`, `Pmm.RoundingOut`, `Pmm.LastPageFails`).
* `kmalloc` of a size whose padded total wraps 64 bits returns the smallest block
  (`KernelHeap.NeedHolds`).
* `sched_sleep_jiffies` with a duration that wraps the clock wakes at once
  (`SchedTime.SleepsAtLeast`).
* The range check of `part_add` and the program-header check of `check_ehdr` accept what wraps
  64 bits (`Partitions.AddChecks`, `ElfImage.TableChecked`, `ElfImage.WrappingTable`). The
  callers of `part_add` never pass such a range (`Partitions.Table.ScanMbr`, `ScanExt`,
  `AddGpt`).
* The out-of-memory branches test for NULL while the page allocator answers with all ones. The
  models record in a flag `oom` that the supply of pages has run out and claim nothing from
  then on.

## Model

| member | source | states |
|---|---|---|
| FlatBytes.QuotIsDivision | src/kernel/fs/devfs.c:350-427 | the block number and the offset the models compute for a position are quotient and remainder of the division by the block size |
| LittleEndian.LeastFirst | src/kernel/fs/fat32.c:31-53 | the byte at the address counts ones, each later one 256 times as much |
| BlockDevice.PartReplaced | src/kernel/part/part.c:458-469 | a write through a partition splices the bytes of the partition and touches no block below or above it |
| BlockDevice.BlockDev.ReadBlocks | src/kernel/part/part.c:447-456 | a read through a partition returns exactly the blocks of the disk behind its start, or an error; nothing past its end is reachable; on a sound disk it fails exactly for an empty count or a range past the end |
| BlockDevice.BlockDev.WriteBlocks | src/kernel/part/part.c:458-469 | a write through a partition is a splice of its bytes, an error changes nothing, and the blocks outside are the same either way; it is refused exactly when the disk has no write, the count is 0, the range leaves the partition or a transfer fails |
| Devfs.ReadPartial | src/kernel/fs/devfs.c:338-429 | the head or tail of a read yields the bytes from the file position on and moves the position; an error moves nothing |
| Devfs.ReadRuns | src/kernel/fs/devfs.c:386-407 | whole blocks in runs of at most 128 yield the bytes they hold; after an error the prefix read so far is exact |
| Devfs.ReadAligned | src/kernel/fs/devfs.c:386-429 | middle and tail together yield a prefix of the request, all of it if no transfer failed |
| Devfs.BlockRead | src/kernel/fs/devfs.c:338-429 | reading at any position and length is slicing the flat device; after a device error the prefix returned is exact and the position advanced by it; a failing call moves nothing; without a fault, so always on a sound device, all that the device has is read |
| Devfs.WritePartial | src/kernel/fs/devfs.c:431-532 | read-patch-write of one block is a splice of the flat device at the file position |
| Devfs.WriteRuns | src/kernel/fs/devfs.c:431-532 | whole blocks in runs of at most 128 are a splice by exactly the prefix written so far |
| Devfs.WriteAligned | src/kernel/fs/devfs.c:431-532 | middle and tail together are a splice by a prefix of the data, all of it if no transfer failed |
| Devfs.WriteRest | src/kernel/fs/devfs.c:431-532 | the phases after the head extend the splice the head began |
| Devfs.BlockWrite | src/kernel/fs/devfs.c:431-532 | writing at any position and length is splicing the flat device; after a device error exactly the returned prefix is on the device and the position advanced by it; a failing call changes no byte; no byte outside the partition changes in any case; at the end of the device the answer is NOSPC |
| Partitions.Table.Add | src/kernel/part/part.c:162-185 | every registered partition stays inside the disk exactly when nothing is added or the 64-bit end of the new range does not wrap |
| Partitions.Table.ScanExt | src/kernel/part/part.c:214-241 | whatever the chain of extended boot records says, the table stays inside the disk; on a disk without faults it gains exactly the logical partitions of the chain, at most 64 of them |
| Partitions.Table.ScanMbr | src/kernel/part/part.c:407-431 | the same for the four entries of the master boot record and the chains they open |
| Partitions.EntryBytes | src/kernel/part/part.c:407-431 | an entry of the table byte by byte |
| Partitions.ScanExample | src/kernel/part/part.c:214-241 | what one table with a chain of two extended boot records registers: logical partitions count from their own record, links from the first |
| Partitions.Table.AddGpt | src/kernel/part/part.c:380-397 | a GPT entry, whatever it says, is added only if it lies inside the disk |
| Partitions.Table.Device | src/kernel/part/part.c:494-559 | the block device of a registered partition is a valid window of the disk above sector 0 |
| Partitions.AddChecks | src/kernel/part/part.c:162-185 | the range check accepts a range that leaves the disk exactly when the 64-bit sum wraps |
| FatMap.AllocKeeps | src/kernel/fs/fat32.c:225-255 | taking a zero entry keeps all chains acyclic, disjoint, end-marked and all that is in use |
| FatMap.LinkKeeps | src/kernel/fs/fat32.c:388-412 | hanging a new cluster behind a chain keeps them so |
| FatMap.FreeKeeps | src/kernel/fs/fat32.c:257-275 | freeing a whole chain keeps them so |
| FatMap.ChainsDisjoint | src/kernel/fs/fat32.c:225-275 | no cluster is reached twice, within a chain or from two chains |
| FatMap.WalkIsChain | src/kernel/fs/fat32.c:287-342 | following the table from any cluster of a chain visits exactly the rest of the chain |
| FatMap.Pigeonhole | src/kernel/fs/fat32.c:327-342 | distinct numbers below a bound are no more than the bound |
| FatMap.ChainLength | src/kernel/fs/fat32.c:327-342 | a live chain is no longer than the number of clusters, so the guard of the count is never what stops it |
| FatMap.PickFreeFinds | src/kernel/fs/fat32.c:225-255 | allocation fails only when no entry is zero, whatever the hint; otherwise it picks the first zero entry from the hint on, or the first of all if there is none |
| FatMap.FreeCountSet | src/kernel/fs/fat32.c:225-275 | setting one entry changes the number of zero entries by exactly what the entry was and becomes |
| FatMap.FreeCountIsSize | src/kernel/fs/fat32.c:225-275 | the free count is the number of zero entries |
| FatMap.ClearedLink | src/kernel/fs/fat32.c:257-275 | freeing in chain order reads each next link before it is cleared |
| Fat32Layout.FatLbaInside | src/kernel/fs/fat32.c:152-189 | every table entry lies inside the table and inside one sector |
| Fat32Layout.FatLbaDistinct | src/kernel/fs/fat32.c:166-189 | two entries, or two copies of one, never share bytes |
| Fat32Layout.ClusLbaInside | src/kernel/fs/fat32.c:141-149 | every sector of a cluster lies behind the table and inside the volume |
| Fat32Layout.ClusLbaDistinct | src/kernel/fs/fat32.c:141-149 | distinct clusters have disjoint sector ranges |
| Fat32Place.ClustersInOrder | src/kernel/fs/fat32.c:141-149 | cluster 2 lies right behind the last table, each cluster right behind the one before, the last one at the end of the volume |
| Fat32Place.ClustersAreSectors | src/kernel/fs/fat32.c:141-149 | the clusters laid end to end are exactly the sectors behind the tables, in order |
| Fat32Place.TableWords | src/kernel/fs/fat32.c:152-189 | in every live table, laid end to end, word number c is the entry of cluster c |
| Fat32Place.ChainOnDevice | src/kernel/fs/fat32.c:344-373 | byte k of a chain lies in the sector and at the offset that plain division gives |
| Fat32Layout.PatchEntry | src/kernel/fs/fat32.c:166-189 | writing an entry keeps the top four bits of its word, every other entry of every copy and every cluster |
| Fat32Layout.PatchCluster | src/kernel/fs/fat32.c:134-149 | writing a sector of a cluster changes that sector and neither the table nor another cluster |
| Fat32Layout.PatchReserved | src/kernel/fs/fat32.c:192-210 | writing FSInfo or its backup touches neither table nor clusters |
| Fat32Volume.Volume.FatGet | src/kernel/fs/fat32.c:152-164 | the low 28 bits of the entry, or an end mark after a device error |
| Fat32Volume.Volume.FatSetCopy | src/kernel/fs/fat32.c:166-189 | one copy of one entry is patched |
| Fat32Volume.Volume.FatSet | src/kernel/fs/fat32.c:166-189 | the entry takes its value in every live copy and nothing else changes |
| Fat32Volume.WithInfo | src/kernel/fs/fat32.c:192-210 | a patched FSInfo sector decodes to the counters and keeps every other byte |
| Fat32Volume.Volume.FsInfoWrite | src/kernel/fs/fat32.c:192-210 | FSInfo carries the counters in memory, and its backup too if it is sector 1; no other sector changes |
| Fat32Volume.Volume.ZeroCluster | src/kernel/fs/fat32.c:212-223 | every sector of the cluster is zero and nothing else changed |
| Fat32Volume.Volume.ScanFree | src/kernel/fs/fat32.c:235-253 | one scan finds the first zero entry from where it starts |
| Fat32Volume.Volume.TakeCluster | src/kernel/fs/fat32.c:241-249 | the cluster becomes a zeroed chain of its own and the counters follow |
| Fat32Volume.Volume.AllocCluster | src/kernel/fs/fat32.c:225-255 | the new cluster was free, the first from the hint on, is zeroed and a chain of its own; the hint moves behind it; every chain stays as it was; an exact free count stays exact; 0 is returned only when nothing is free |
| Fat32Volume.Volume.Link | src/kernel/fs/fat32.c:388-412 | the new cluster is the end of the chain and all invariants hold |
| Fat32Volume.Volume.FreeChain | src/kernel/fs/fat32.c:257-275 | exactly the entries of the chain become zero, the others keep their chains, and an exact free count stays exact |
| Fat32Data.BytesAt | src/kernel/fs/fat32.c:344-373 | a sector of the i-th cluster holds the bytes of the chain from its number on |
| Fat32Data.BytesPatched | src/kernel/fs/fat32.c:414-436 | patching bytes of a sector is a splice of the bytes of the chain |
| Fat32Data.DataAppend | src/kernel/fs/fat32.c:388-412 | a cluster hung behind a chain appends its bytes |
| Fat32Data.KeptData | src/kernel/fs/fat32.c:344-439 | a chain that an operation keeps holds the same bytes |
| Fat32Chain.GrowData | src/kernel/fs/fat32.c:388-412 | a new zeroed cluster adds zeros to the bytes of the chain |
| Fat32Chain.Chain.constructor | src/kernel/fs/fat32.c:278-285 | a cursor without cache agrees with the uncached walk |
| Fat32Chain.Chain.At2 | src/kernel/fs/fat32.c:287-317 | the index-th cluster of the chain, whatever the cache held; the cache agrees with an uncached walk again afterwards |
| Fat32Chain.Chain.At | src/kernel/fs/fat32.c:319-325 | the same with 0 where the chain is shorter |
| Fat32Chain.Chain.Count | src/kernel/fs/fat32.c:327-342 | exactly the length of the chain; the guard is never reached |
| Fat32Chain.Chain.ReadSome | src/kernel/fs/fat32.c:349-371 | one round of the read loop yields the next bytes of the chain |
| Fat32Chain.Chain.Read | src/kernel/fs/fat32.c:344-373 | exactly the bytes asked for, or an error where the chain is too short |
| Fat32Chain.Chain.Adopt | src/kernel/fs/fat32.c:394-410 | a fresh cluster becomes the end of the chain, or its head if it had none, and the cursor follows |
| Fat32Chain.Chain.Grow | src/kernel/fs/fat32.c:388-412 | the chain grows by one zeroed cluster; every other chain keeps clusters and bytes; NOSPC comes only when no cluster is free, and then nothing changed |
| Fat32Chain.Chain.PutSector | src/kernel/fs/fat32.c:414-433 | whole sectors directly, others read-patch-write: a splice of the bytes of the chain |
| Fat32Chain.Chain.Reach | src/kernel/fs/fat32.c:383-412 | the cluster for the offset, the chain having grown by zeros if it was too short |
| Fat32Chain.Chain.WriteSome | src/kernel/fs/fat32.c:381-437 | one round of the write loop splices the next bytes |
| Fat32Chain.Chain.Write | src/kernel/fs/fat32.c:375-439 | the bytes of the chain are spliced, the chain having grown by zeros, and by no more clusters than needed; every other chain is kept; NOSPC comes only when no cluster is free, and then a prefix up to the end of the chain was written |
| FlatBytes.WrittenReads | src/kernel/fs/fat32.c:1511-1563 | what was written is read back, the bytes around it stay, a gap reads as zeros |
| FlatBytes.GapIsZero | src/kernel/fs/ramfs.c:275-304 | bytes cut off by a truncation never reappear |
| Fat32File.PatchedSlotDecodes | src/kernel/fs/fat32.c:986-1000 | the updated entry decodes to the cluster and size and keeps name and attributes |
| Fat32File.KeptButData | src/kernel/fs/fat32.c:1511-1563 | a chain that is neither the file nor its directory holds the bytes it held |
| Fat32File.OtherBytes | src/kernel/fs/fat32.c:1511-1563 | writing a file leaves the bytes of its directory alone |
| Fat32File.UpdateEntry | src/kernel/fs/fat32.c:986-1000 | the one slot takes cluster and size; every other slot and every other chain is kept |
| Fat32File.FatFile.FileByte | src/kernel/fs/fat32.c:1476-1509 | byte k of the file, read off the device: the chain starts at the head, follows the table to an end mark, and the byte lies in the sector that plain division gives |
| Fat32File.FatFile.Read | src/kernel/fs/fat32.c:1476-1509 | exactly the bytes at the position, as many as the file has, each read off the sector where its place in the chain lies |
| Fat32File.FatFile.FillGap | src/kernel/fs/fat32.c:1529-1547 | the gap between size and position is filled with zeros, the file before it is kept |
| Fat32File.FatFile.WriteData | src/kernel/fs/fat32.c:1529-1554 | gap and data go to their places in the chain |
| Fat32File.FatFile.PutEntry | src/kernel/fs/fat32.c:1555-1560 | the entry carries head and size of the file, whose own bytes stay |
| Fat32File.FatFile.Write | src/kernel/fs/fat32.c:1511-1563 | the file becomes the old bytes with the data spliced in at the position behind a zero-filled gap; its entry is updated; every other live chain keeps its bytes; NOSPC comes only when no cluster is free, keeps size, position and directory and leaves the prefix of the data that fits; an exact free count stays exact. For any position and length: the file is the whole written one exactly when the end of the data is below 2^32, else it is cut at the low 32 bits of that end |
| Fat32File.LastByteFails | src/kernel/fs/fat32.c:1555-1557 | a byte written behind a file of 2^32 - 1 bytes makes the file empty |
| Fat32File.FatFile.Seek | src/kernel/fs/fat32.c:1565-1584 | only the position moves |
| Fat32File.FatFile.WriteThenRead | src/kernel/fs/fat32.c:1476-1563 | reading back at the position of a write gives the data exactly when its end is below 2^32 |
| Fat32Patched.PatchedSlotShows | src/kernel/fs/fat32.c:986-1000 | the updated entry is of the same kind and shows the same name |
| Fat32Patched.PatchedKeeps | src/kernel/fs/fat32.c:986-1000 | an entry update keeps the directory sound and its short names unique; every lookup finds the entry it found before, with the new cluster and size if it is the updated one |
| Fat32File.FatFile.Truncate | src/kernel/fs/fat32.c:1218-1231 | the chain is freed, the file empty, its entry cleared, every other chain kept, an exact free count exact |
| Fat32Slots.SlotInSector | src/kernel/fs/fat32.c:442-484 | a directory entry lies in one sector |
| Fat32Slots.SlotsUpdated | src/kernel/fs/fat32.c:464-484 | replacing 32 bytes at an entry replaces that entry only |
| Fat32Slots.EntRead | src/kernel/fs/fat32.c:442-462 | the entry, or EOF exactly past the end of the directory |
| Fat32Slots.EntWrite | src/kernel/fs/fat32.c:464-484 | exactly that entry is replaced, other chains are kept, a missing entry is an error that changes nothing |
| Fat32Names.NameEqual | src/kernel/fs/fat32.c:505-515 | names are equal up to the case of ASCII letters |
| Fat32Names.CaseOf | src/kernel/fs/fat32.c:495-503 | the 26 letters and nothing else change case |
| Fat32Short.NameEqIs | src/kernel/fs/fat32.c:505-515 | names are the same exactly if they are in upper case |
| Fat32Names.ComputeSum | src/kernel/fs/fat32.c:530-540 | the rotate-and-add checksum of the eleven name bytes |
| Fat32Names.BuildRecord | src/kernel/fs/fat32.c:945-965 | record number, attribute, checksum and thirteen units of the name with terminator and padding |
| Fat32Names.BuildLfn | src/kernel/fs/fat32.c:933-967 | the records of the name in slot order, all with the checksum of the short name |
| Fat32Names.RecordsIs | src/kernel/fs/fat32.c:933-944 | as many records as the characters fill, thirteen in each |
| Fat32Format.LongRecords | src/kernel/fs/fat32.c:933-967 | the two records of a name of sixteen characters, byte by byte |
| Fat32Format.HelloSum | src/kernel/fs/fat32.c:530-540 | the checksum of one name |
| Fat32Format.SumNext | src/kernel/fs/fat32.c:530-540 | one byte more: the sum rotates right by one bit and the byte is added |
| Fat32Names.LfnStore | src/kernel/fs/fat32.c:545-551 | the units of the record are stored at its place, the others stay |
| Fat32Names.LfnNameOf | src/kernel/fs/fat32.c:553-568 | the name the stored units spell |
| Fat32Names.StoreAllHolds | src/kernel/fs/fat32.c:545-551 | storing all records in slot order leaves the units of the name |
| Fat32Names.LfnRoundTrip | src/kernel/fs/fat32.c:530-568 | building and decoding gives every name of 1 to 63 seven-bit characters back, multiples of 13 included; other characters come back masked; every record has the checksum |
| Fat32Names.MaskedFound | src/kernel/fs/fat32.c:553-568 | a long name is found under itself exactly when it is seven-bit |
| Fat32Short.RawsAreGood | src/kernel/fs/fat32.c:814-931 | a chosen short name never starts with the end or the deleted mark |
| Fat32Short.MakeSlotDecodes | src/kernel/fs/fat32.c:969-984 | the new entry decodes to its cluster and size and is a live entry |
| Fat32Format.NewEntryBytes | src/kernel/fs/fat32.c:969-984 | a new entry byte by byte |
| Fat32Format.HelloFields | src/kernel/fs/fat32.c:675-683 | where an entry has its name, attribute, cluster and size |
| Fat32Format.HelloNames | src/kernel/fs/fat32.c:570-609 | the names one entry displays, by the case bits of byte 12 |
| Fat32Format.HelloShown | src/kernel/fs/fat32.c:612-693 | what a directory of that entry shows |
| Fat32Format.Kinds | src/kernel/fs/fat32.c:628-667 | the kinds of slots, by first byte and attribute |
| Fat32Format.Forgotten | src/kernel/fs/fat32.c:636-642 | records in front of a deleted slot, a label or another entry are forgotten |
| Fat32Format.InfoBytes | src/kernel/fs/fat32.c:192-210 | an FSInfo sector byte by byte |
| Fat32Format.TildeExample | src/kernel/fs/fat32.c:898-922 | one numbered name |
| Fat32Format.SplitExamples | src/kernel/fs/fat32.c:823-842 | names with dots inside, in front and behind |
| Fat32Format.ShortChars | src/kernel/fs/fat32.c:517-528 | the characters a short name can hold, and those it cannot |
| Fat32Short.Split | src/kernel/fs/fat32.c:823-842 | a name is split at its last dot, unless that is its first or last character |
| Fat32Short.CleanIs | src/kernel/fs/fat32.c:876-894 | upper case, an underscore for what a short name cannot hold, cut to length |
| Fat32Short.DigitsValue | src/kernel/fs/fat32.c:902-909 | the digits are those of the number, without a leading zero |
| Fat32Short.PlainShows | src/kernel/fs/fat32.c:570-609 | an upper-case 8.3 name needs no records: its short entry displays it |
| Fat32Scan.AgreeEntries | src/kernel/fs/fat32.c:612-693 | a sound rest of a directory shows the same entries whatever stale records the scan carries |
| Fat32Scan.ShownSame | src/kernel/fs/fat32.c:612-693 | what a lookup sees does not depend on its uninitialised buffer |
| Fat32Scan.FindIs | src/kernel/fs/fat32.c:675-690 | the entry found is the first of that name; nothing is found exactly if no entry has it |
| Fat32Scan.InsertHere | src/kernel/fs/fat32.c:1073-1136 | records and entry written into free slots show as one entry in front of what followed |
| Fat32Scan.InsertFrom | src/kernel/fs/fat32.c:1073-1136 | the new entry appears in the list of entries at its place, the others stay in order, the directory stays sound |
| Fat32Scan.InsertFinds | src/kernel/fs/fat32.c:1073-1136 | a lookup of the name finds the new entry and every other name resolves as before |
| Fat32Scan.InsertUnique | src/kernel/fs/fat32.c:789-811 | short names stay unique when the new one was not in use |
| Fat32Scan.HiddenBehindEnd | src/kernel/fs/fat32.c:1101-1102 | an entry written behind an end mark changes no lookup |
| Fat32Visible.ChosenGood | src/kernel/fs/fat32.c:814-931 | a chosen short name is usable, not in use, and stands alone only for a name it displays |
| Fat32Visible.FirstFreeIs | src/kernel/fs/fat32.c:871-931 | the number chosen is the least from 1 on whose name is not in use, and all are taken exactly if every one below 1000 is |
| Fat32Visible.EndsAppended | src/kernel/fs/fat32.c:1055-1071 | a zeroed cluster behind the directory changes no lookup |
| Fat32Visible.InsertedRoom | src/kernel/fs/fat32.c:1073-1136 | unless an end mark is skipped the new slots are where the scan reaches them |
| Fat32Visible.InsertedShows | src/kernel/fs/fat32.c:1073-1136 | without the skip: the directory stays sound, all slots behind the first end mark are end marks, short names stay unique, the name finds the new entry and other names resolve as before |
| Fat32Visible.SkippedHides | src/kernel/fs/fat32.c:1101-1102 | with the skip no lookup sees the new entry and the directory has an end mark before it |
| Fat32Visible.InsertedFound | src/kernel/fs/fat32.c:1073-1136 | the new entry is found under its name exactly when no end mark was skipped and the name needs no records or is seven-bit; otherwise the lookup misses |
| Fat32Skip.SkipHappens | src/kernel/fs/fat32.c:1101-1102 | a sound directory for which the skip is taken |
| Fat32Skip.SkipMisses | src/kernel/fs/fat32.c:1101-1102 | the insertion made there, of a name that the directory can hold, after which no lookup finds it |
| Fat32Dir.DirLookup | src/kernel/fs/fat32.c:612-693 | the first entry of that name among those the slots show, or none |
| Fat32Dir.TakeRecord | src/kernel/fs/fat32.c:643-660 | one long-name record advances the state of the scan |
| Fat32Dir.DisplayOf | src/kernel/fs/fat32.c:668-673 | the long name if its records belong to the entry, else the short name |
| Fat32Dir.ShortExists | src/kernel/fs/fat32.c:789-811 | whether a live entry has that short name |
| Fat32Dir.FindSlots | src/kernel/fs/fat32.c:1002-1053 | the first run of enough deleted slots before an end mark, else the first end mark, else the end of the chain |
| Fat32Dir.DirGrow | src/kernel/fs/fat32.c:1055-1071 | one zeroed cluster more, every other chain kept, an exact free count exact; NOSPC only when no cluster is free |
| Fat32Dir.Hang | src/kernel/fs/fat32.c:1066-1070 | the new cluster is linked behind the directory and the cursor cache dropped |
| Fat32Insert.SplitName | src/kernel/fs/fat32.c:823-842 | base and extension as split at the last inner dot |
| Fat32Insert.AnyLower | src/kernel/fs/fat32.c:844-848 | whether the name has a lower-case letter |
| Fat32Insert.CheckValid | src/kernel/fs/fat32.c:851-857 | whether a short name can hold every character |
| Fat32Insert.Cleaned | src/kernel/fs/fat32.c:876-894 | upper case, underscores for what a short name cannot hold, cut to length |
| Fat32Insert.Decimal | src/kernel/fs/fat32.c:902-909 | the decimal digits of the number |
| Fat32Insert.Numbered | src/kernel/fs/fat32.c:898-922 | the numbered short name |
| Fat32Insert.NumberedShort | src/kernel/fs/fat32.c:871-931 | the first numbered name that is free, or NOSPC when all 999 are taken |
| Fat32Insert.MakeShort | src/kernel/fs/fat32.c:814-931 | the plain short name if it fits and is free, else the first free numbered one, never one in use |
| Fat32Insert.GrowTo | src/kernel/fs/fat32.c:1103-1110 | the directory grows by end marks until the slots fit, and no further |
| Fat32Insert.PlaceSlots | src/kernel/fs/fat32.c:1095-1110 | the place found, with the directory grown for it |
| Fat32Insert.WriteSlots | src/kernel/fs/fat32.c:1112-1125 | records and entry are written in order, every other slot stays |
| Fat32Insert.PutSlots | src/kernel/fs/fat32.c:1095-1125 | the slots of the directory with the new ones at their place behind its growth |
| Fat32Insert.DirInsert | src/kernel/fs/fat32.c:1073-1136 | the directory becomes the old one with the new records and entry at the found place; the location returned is that of the entry; every other chain is kept; NOSPC comes only when no cluster is free or all numbered names are taken, and then no lookup changes; the directory grows by no more than needed; an exact free count stays exact |
| Fat32Insert.WriteDots | src/kernel/fs/fat32.c:1204-1214 | the zeroed cluster becomes a directory of the two dot entries |
| Fat32Insert.CreateDir | src/kernel/fs/fat32.c:1187-1216 | a new directory of its own cluster with dot entries, inserted into the parent; every other chain is kept; NOSPC comes only when at most one cluster is free or all numbered names are taken, and then the cluster is given back; an exact free count stays exact |
| Fat32Insert.NewDirShows | src/kernel/fs/fat32.c:1187-1216 | a new directory is sound with unique short names and shows exactly its two dot entries |
| Sched.InitInv | src/kernel/sched.c:185-213 | the start state meets the invariant: the clock at 0, no task, the first CPU idle and the others off |
| SchedSteps.StepKeeps | src/kernel/sched.c:68-379 | every step of every CPU keeps the invariant |
| SchedRuns.OnePlace | src/kernel/sched.c:68-379 | a task is in exactly one place: once on one queue, held by one CPU, in the hand of one waker, not yet enqueued by its creator, or off every CPU and asleep |
| SchedRuns.RunOnePlace | src/kernel/sched.c:68-379 | so it is after every run from the start |
| SchedRuns.NeverDropped | src/kernel/sched.c:68-81 | the on_ready guard never drops an enqueue: a task to be enqueued is on no queue and goes to the end of one |
| SchedRuns.NoLostWakeup | src/kernel/sched.c:280-379 | a task that is ready is on a queue, held, or in a hand that will enqueue it |
| SchedRuns.PinnedHome | src/kernel/sched.c:122-147 | a pinned task is queued on and held by its home CPU only |
| SchedRuns.PinnedStays | src/kernel/sched.c:215-268 | over every run, sleeping and waking included, a task created pinned is only ever queued on or held by the CPU that created it |
| SchedRuns.RunSameTask | src/kernel/sched.c:215-268 | tasks never disappear; pinning and home never change |
| SchedTime.StepSleeps | src/kernel/sched.c:280-306 | only a wake pass at or past the deadline makes a sleeper ready |
| SchedTime.SleepsOn | src/kernel/sched.c:280-329 | in every run that ends before the deadline a sleeper sleeps on |
| SchedTime.SleepsAtLeast | src/kernel/sched.c:308-329 | the deadline lies ahead exactly when the 64-bit sum of clock and duration does not wrap, and then the task sleeps at least that many ticks |
| SchedTime.PassStays | src/kernel/sched.c:280-306 | the steps of other CPUs do not move the cursor of a wake pass |
| SchedTime.PassLeavesNone | src/kernel/sched.c:280-306 | a wake pass takes one round per sleeper, whatever the others do, and leaves none that had expired when it began |
| SchedTime.CountIs | src/kernel/sched.c:280-379 | the number of steps of a kind in a run |
| SchedTime.Advances | src/kernel/sched.c:68-147 | no step moves a queued task back; only a take or a steal at its CPU removes it, into the hand of the taker |
| SchedTime.StaysIs | src/kernel/sched.c:92-117 | a task stays on a queue through a run if it is there after every beginning of the run |
| SchedTime.FewTakes | src/kernel/sched.c:92-117 | while it stays, at most as many takes happen as tasks are before it |
| SchedTime.TakenInTurn | src/kernel/sched.c:331-379 | a task at position k leaves its queue within k + 1 takes of its CPU |
| SchedLists.Kernel.ReadyEnqueue | src/kernel/sched.c:68-90 | the linked queue gets the task at its end unless it is marked ready |
| SchedLists.Kernel.ReadyDequeue | src/kernel/sched.c:92-106 | the head of the linked queue is taken |
| SchedLists.Kernel.DequeueLocal | src/kernel/sched.c:108-117 | the CPU takes the head of its own queue |
| SchedLists.Kernel.StealFrom | src/kernel/sched.c:122-147 | an offline, empty or pinned-headed victim is skipped, else its head is taken and only its queue changes |
| SchedLists.TurnOf | src/kernel/sched.c:122-147 | every other CPU has its turn, once, in the round that starts behind the thief |
| SchedLists.Kernel.StealOne | src/kernel/sched.c:122-147 | undisturbed, the head of the first CPU, in the round that starts behind this one, that has anything to take; nothing exactly if no other CPU has |
| SchedLists.Kernel.SleepOn | src/kernel/sched.c:308-329 | the current task becomes the first sleeper, asleep with its deadline; no queue changes |
| SchedLists.Kernel.WakeRound | src/kernel/sched.c:288-303 | one round on the linked sleep list: an expired sleeper is unlinked and ready, to be enqueued exactly if it is off every CPU; any other stays |
| SchedLists.Kernel.EnqueueWoken | src/kernel/sched.c:296-298 | a woken task goes to the end of the queue of its CPU |
| SchedLists.Kernel.WakeSleepers | src/kernel/sched.c:280-306 | the loop on the linked list is a run of the transition system by this CPU alone; exactly the sleepers that have not expired are left |
| SchedLists.Kernel.SwitchOutOf | src/kernel/sched.c:350-361 | the current task is given up; it is to be requeued exactly if it is ready |
| SchedLists.Kernel.PutBack | src/kernel/sched.c:359-360 | it goes to the end of the own queue |
| SchedLists.Kernel.SwitchTo | src/kernel/sched.c:363-378 | the task taken, or idle, becomes current |
| SchedLists.Kernel.PickNext | src/kernel/sched.c:363-366 | the head of the own queue, else of the first other CPU that has anything to take |
| SchedLists.Kernel.ScheduleFromIrq | src/kernel/sched.c:331-379 | undisturbed, the first of the queue with the outgoing task behind it runs next; else the first task of the first other CPU in the round that has anything to take; idle exactly if none has; no other queue changes |
| HeapRuns.Unique | src/kernel/memory/heap.c:51-88 | two lists of blocks in address order, none touching, that cover the same bytes are the same list |
| HeapRuns.Maximal | src/kernel/memory/heap.c:51-88 | the runs of such a list are maximal |
| HeapRuns.PlacedCanon | src/kernel/memory/heap.c:51-88 | inserting a block and joining it with the runs it touches keeps the list so |
| HeapRuns.PlacedCovers | src/kernel/memory/heap.c:51-88 | and adds exactly the bytes of the block |
| HeapRuns.WithoutCovers | src/kernel/memory/heap.c:124-144 | and removes exactly its bytes |
| HeapList.LinkedIn | src/kernel/memory/heap.c:56-69 | the pointer changes of the insertion put the run at its place in the linked list |
| HeapList.MergedList | src/kernel/memory/heap.c:71-87 | the header changes of a merge make two runs one |
| HeapList.LinkedOut | src/kernel/memory/heap.c:124-144 | the pointer changes of the removal take the run out |
| KernelHeap.AlignUp | src/kernel/memory/heap.c:24-27 | rounding up to 16 is exact unless the 64-bit sum wraps, and then gives 0 |
| KernelHeap.NeedHolds | src/kernel/memory/heap.c:213-215 | the block size computed for a request holds it exactly when the 64-bit sum does not wrap; otherwise it is the smallest size |
| HeapVacant.OneRun | src/kernel/memory/heap.c:110-122 | bytes free in a row lie in one run of the free list |
| HeapVacant.FitIsLowest | src/kernel/memory/heap.c:110-122 | the first run that fits starts at the lowest address from which so many bytes are free; none fits exactly if nowhere are |
| HeapVacant.PagesFor | src/kernel/memory/heap.c:146-154 | how many pages a request brings in: as many as hold it, and one where the 64-bit sum wraps |
| HeapVacant.NewPage | src/kernel/memory/heap.c:90-108 | a page that has just come in has room for a page |
| KernelHeap.FreeIsFunction | src/kernel/memory/heap.c:51-88 | the free list is a function of the pages and the live blocks alone |
| KernelHeap.TilesTaken | src/kernel/memory/heap.c:164-233 | turning free bytes into a live block keeps the tiling |
| KernelHeap.TilesGiven | src/kernel/memory/heap.c:235-250 | turning a live block into free bytes keeps the tiling |
| KernelHeap.TilesGrown | src/kernel/memory/heap.c:90-108 | a new page of free bytes keeps the tiling |
| KernelHeap.Heap.constructor | src/kernel/memory/heap.c:186-203 | the empty heap meets the invariant |
| KernelHeap.Heap.Init | src/kernel/memory/heap.c:186-203 | the first four pages of the supply come in and all their bytes are free; it fails exactly if there are fewer |
| KernelHeap.Heap.Search | src/kernel/memory/heap.c:53-63 | the neighbours of the block in address order |
| KernelHeap.Heap.LinkAt | src/kernel/memory/heap.c:65-69 | the block is linked between them |
| KernelHeap.Heap.Absorb | src/kernel/memory/heap.c:71-87 | a run absorbs the next |
| KernelHeap.Heap.Join | src/kernel/memory/heap.c:71-87 | the block is joined with exactly the runs it touches |
| KernelHeap.Heap.FreeInsert | src/kernel/memory/heap.c:51-88 | the free list gains exactly the bytes of the block, stays in address order with no two runs touching, and other headers keep their value |
| KernelHeap.Heap.AddPage | src/kernel/memory/heap.c:90-108 | the heap gains the first page of the supply, which it did not have |
| KernelHeap.Heap.FindFit | src/kernel/memory/heap.c:110-122 | the lowest-address run that is large enough, NULL exactly when there is none |
| KernelHeap.Heap.Remove | src/kernel/memory/heap.c:124-144 | the run is taken off the list and nothing else changes |
| KernelHeap.Heap.Split | src/kernel/memory/heap.c:164-184 | the block keeps what is needed if the rest makes a block, and exactly that rest becomes free |
| KernelHeap.Heap.Expand | src/kernel/memory/heap.c:146-162 | as many pages as hold the request come in from the front of the supply, live blocks stay; it fails exactly if the supply is shorter |
| KernelHeap.Heap.Carve | src/kernel/memory/heap.c:227-230 | a run gives a live block of the needed size, or all of it |
| KernelHeap.Heap.Kmalloc | src/kernel/memory/heap.c:205-233 | live and free blocks tile the pages before and after; the payload is 16-aligned, in a block at most 32 bytes larger than needed, at the lowest address from which so many bytes are free in a row; pages come in exactly if nowhere are, and exactly as many as the request fills; NULL means that still nowhere are, which for a request of at most a page cannot be |
| KernelHeap.Heap.Kfree | src/kernel/memory/heap.c:235-250 | exactly the bytes of the block become free; a pointer whose header is not that of a used block changes nothing |
| KernelHeap.Heap.MallocFree | src/kernel/memory/heap.c:205-250 | kmalloc without expansion and kfree give back the identical free list; an immediate second kfree is a no-op |
| KernelHeap.Heap.Scribble | src/kernel/memory/heap.c:45-49 | whatever bytes the owner of a block writes into its payload, the heap relies on none of it |
| PageTables.PathsDiffer | src/kernel/memory/vmm.c:124-164 | two page addresses take the same path through the tables exactly when their low 48 bits agree |
| PageTables.PathDigits | src/kernel/memory/vmm.c:129-132 | the four indices are the digits of the page number, nine bits each from bit 39 down |
| PageTables.EveryLevel | src/kernel/memory/vmm.c:61-89 | a page is reached exactly if every level has its entry, and each right needs every level to grant it |
| PageTables.WalkIsLeaf | src/kernel/memory/vmm.c:124-164 | in an unshared tree whose open leaves hang on open entries the four-level walk gives the leaf with its own rights |
| PageTables.TableAdded | src/kernel/memory/vmm.c:70-89 | hanging a zeroed table on an absent entry changes no translation and keeps the tree unshared |
| PageTables.Opened | src/kernel/memory/vmm.c:154-159 | opening an upper entry to user code changes no translation and no effective right |
| PageTables.LeafSet | src/kernel/memory/vmm.c:161 | replacing a leaf changes that page only |
| Vmm.AddressSpace.WholeReaches | src/kernel/memory/vmm.c:61-89 | under a whole identity map an access at the address of any page of the allocator reaches that page |
| Vmm.WholeAfter | src/kernel/memory/vmm.c:161 | mapping a page keeps the identity map whole exactly when it lies outside it or is mapped to itself for the kernel |
| Vmm.AddressSpace.Hang | src/kernel/memory/vmm.c:61-88 | the page taken for a table is zeroed and hung on the absent entry; it goes astray exactly when the page is not reached at its address; every translation stays |
| Vmm.AddressSpace.GetOrAlloc | src/kernel/memory/vmm.c:70-89 | the table behind the entry, made if absent; every translation stays |
| Vmm.AddressSpace.Open | src/kernel/memory/vmm.c:154-159 | the entry is opened; every translation stays |
| Vmm.AddressSpace.OpenPath | src/kernel/memory/vmm.c:154-159 | the path is opened from the root down; every translation stays |
| Vmm.AddressSpace.SetLeaf | src/kernel/memory/vmm.c:161 | one page is mapped, every other keeps its translation |
| Vmm.AddressSpace.Descend | src/kernel/memory/vmm.c:142-152 | the tables of the path exist; every translation stays |
| Vmm.AddressSpace.MapPage | src/kernel/memory/vmm.c:124-164 | after success the walk of the address gives the frame and the flags, and every other page keeps translation, user and write rights; it succeeds exactly for aligned addresses in a ready address space; an error changes nothing. No table access misses its table while the tables and the supply are reached through the identity map; a whole identity map stays whole exactly when the page lies outside it or is mapped to itself for the kernel |
| Vmm.RangedOne | src/kernel/memory/vmm.c:32-46 | mapping the next page extends the mapped range and keeps the rest |
| Vmm.MapIdentity | src/kernel/memory/vmm.c:190-198 | exactly the first bytes of memory are mapped to themselves |
| Vmm.MapFramebuffer | src/kernel/memory/vmm.c:91-122 | exactly the pages of the framebuffer are mapped to themselves, written through |
| Vmm.PixelInside | src/kernel/memory/vmm.c:104-107 | every byte of every pixel lies in the span |
| Vmm.PixelWanted | src/kernel/memory/vmm.c:91-122 | in the map of init_vmm every byte of every pixel is its own, outside the kernel image |
| Vmm.WantedIs | src/kernel/memory/vmm.c:166-215 | the wanted map outright: the pages of the image, then those with a byte of the framebuffer, then memory, then none, each with its rights |
| Vmm.MapKernelImage | src/kernel/memory/vmm.c:32-46 | exactly the pages of the image are mapped at their virtual place |
| Vmm.InitVmm | src/kernel/memory/vmm.c:166-215 | every page of the 48-bit space translates to the identity map, the framebuffer or the higher-half kernel, the later over the earlier, and no other page is mapped; the identity map is whole exactly when the image lies above it or on its own frames |
| Vmm.WholeWanted | src/kernel/memory/vmm.c:166-215 | so it is for every map that translates as wanted |
| ElfImage.TableChecked | src/kernel/user.c:143-147 | a header that passes has its program headers inside the file exactly when their 64-bit end does not wrap |
| ElfImage.WrappingTable | src/kernel/user.c:143-147 | a header that passes and wraps |
| ElfImage.HeaderExact | src/kernel/user.c:109-150 | the file headers that pass, byte by byte |
| ElfImage.SegOkExact | src/kernel/user.c:51-65 | the segments that are accepted, in whole numbers |
| ElfImage.HeaderFields | src/kernel/user.c:276-309 | where a program header has its fields |
| ElfImage.WriteFlag | src/kernel/user.c:303-306 | of the flag words below 8 those with PF_W, 2, 3, 6 and 7, are writable |
| ElfImage.SegBounds | src/kernel/user.c:41-65 | the rounded bounds of a checked segment hold it with less than a page on either side, inside the low half |
| ElfImage.SampleAccepted | src/kernel/user.c:109-344 | an image of one writable segment of two pages that meets every check |
| LoadLog.TransIs | src/kernel/memory/vmm.c:190-198 | an address of the identity range leads to the last page mapped there, or to itself |
| LoadLog.AgreesNext | src/kernel/memory/vmm.c:161-162 | mapping the page of a round keeps the log an account of the tables |
| LoadLog.ContentsNext | src/kernel/user.c:87-101 | filling a page at its address keeps the log an account of the frames |
| LoadLog.OwnWriter | src/kernel/user.c:79-105 | if no page is handed out at an address already mapped, every round wrote its own page and nothing else did |
| LoadLog.ClashWriter | src/kernel/user.c:79-105 | otherwise the page of the earlier round was last written by the later one |
| LoadLog.UnclashedLoads | src/kernel/user.c:69-107 | without such a clash every segment is loaded |
| LoadLog.ClashReads | src/kernel/user.c:69-107 | with one, the addresses of the earlier page read the bytes of the later one |
| LoadLog.LoadedExactly | src/kernel/user.c:69-107 | an image whose pages differ in content is loaded exactly when there is no clash |
| LoadLog.AboveUnclashed | src/kernel/user.c:51-65 | segments above the identity range never clash |
| LoadLog.Overlaid | src/kernel/user.c:69-107 | two pages of one segment of which the second is handed out at the address of the first |
| LoadLog.LoadedReads | src/kernel/user.c:69-107 | in a loaded segment every address of its pages reads, through the tables, what the segment puts there |
| LoadLog.LoadedImageReads | src/kernel/user.c:69-107 | which is the byte of the file inside the file part and zero elsewhere |
| LoadLog.LoadedSees | src/kernel/user.c:69-107 | a program sees at every address of its segments the byte of the file or zero, in pages with the rights of the flag word |
| LoadLog.RightsHold | src/kernel/user.c:77-105 | every page of the segments is open to user code, and for writing exactly if bit 1 of the flag word is set |
| ElfLoader.Loader.Fill | src/kernel/user.c:79-101 | the page holds the bytes of the file that belong to it and zeros elsewhere |
| ElfLoader.Loader.Put | src/kernel/user.c:87-101 | bytes stored at the address of a page end up in the frame that the tables translate it to; astray exactly if that is a table, a page in use or still to be handed out, or not writable |
| ElfLoader.Loader.Draw | src/kernel/user.c:84-101 | the page taken is filled through its address, and the log accounts for the frames |
| ElfLoader.Loader.MapOne | src/kernel/user.c:79-105 | one round: the page is filled through its address and mapped for user code, writable exactly with PF_W; every other translation is kept; a whole identity map stays whole exactly above it |
| ElfLoader.Loader.MapRound | src/kernel/user.c:79-105 | a round stays on course above a whole identity map, and inside it while it covers no table and no page in use |
| ElfLoader.Loader.MapSegment | src/kernel/user.c:69-107 | the rounds are the pages of the segment in address order, and the log accounts for tables and frames; above the identity range nothing goes astray |
| ElfLoader.Loader.FindEntry | src/kernel/user.c:321-341 | whether the entry lies in a LOAD segment |
| ElfLoader.Loader.MapImage | src/kernel/user.c:258-344 | the image is accepted exactly when header, segments and entry pass, and then the entry is that of the header and lies in a segment; nothing goes astray and the identity map stays whole exactly when every LOAD page lies above it, and then, if no two segments share a page, all of them are loaded and a program sees the bytes of the file; the rights of every page are those of the flag word |
| ElfLoader.Loader.Overlay | src/kernel/user.c:69-107 | an accepted image with a segment of two pages, the first at the address of the second page handed out: nothing goes astray, and the first page reads the bytes of the second |
| ElfLoader.Loader.OverlaySample | src/kernel/user.c:69-107 | the same for one image and two page addresses |
| VfsPath.NormalIsCanonical | src/kernel/fs/vfs.c:15-55 | a normalised path is canonical |
| VfsPath.CanonicalIsNormal | src/kernel/fs/vfs.c:15-55 | normalising it again changes nothing |
| VfsPath.CanonicalFits | src/kernel/fs/vfs.c:15-55 | and always fits where it fitted |
| VfsPath.CompsJoin | src/kernel/fs/vfs.c:58-83 | the components of two paths joined by a slash are those of both |
| VfsPath.CompsRender | src/kernel/fs/vfs.c:15-55 | rendering components and splitting again gives them back |
| VfsPath.FoldConcat | src/kernel/fs/vfs.c:58-83 | normalising a joined path goes on from the first |
| VfsPath.PushIs | src/kernel/fs/vfs.c:28-51 | a dot does nothing, two dots take the last component away unless there is none, any other goes behind |
| VfsPath.UpAgain | src/kernel/fs/vfs.c:28-51 | a component followed by two dots is as if neither had been there |
| VfsPath.FitsIs | src/kernel/fs/vfs.c:15-55 | a path fits exactly if what every beginning of it comes to does |
| VfsPath.PrefixByBytes | src/kernel/fs/vfs.c:86-130 | on canonical paths the byte test is the component-wise prefix |
| VfsPath.Rebuilt | src/kernel/fs/vfs.c:86-130 | mount point and relative part rebuild the path |
| Vfs.PopLast | src/kernel/fs/vfs.c:36-44 | a dot-dot component removes the last component, the root stays |
| Vfs.Append | src/kernel/fs/vfs.c:45-51 | a component is appended behind a slash |
| Vfs.Normalize | src/kernel/fs/vfs.c:15-55 | the buffer holds the left fold of the components, rendered; it succeeds exactly when the path is absolute and no intermediate result outgrows the buffer |
| Vfs.LongerIsMore | src/kernel/fs/vfs.c:86-130 | of two mount points above a path the longer text is the longer component list |
| Vfs.Mounts.constructor | src/kernel/fs/vfs.c:155-174 | the empty mount table and the root as working directory |
| Vfs.Mounts.Abspath | src/kernel/fs/vfs.c:58-83 | the canonical path the argument stands for, relative to the working directory; it succeeds exactly when it fits |
| Vfs.Mounts.Resolve | src/kernel/fs/vfs.c:86-130 | the unique mount with the longest component-wise prefix, or none if none covers the path; mount point and relative part rebuild the path |
| Vfs.Mounts.Locate | src/kernel/fs/vfs.c:132-146 | a successful lookup pins exactly that mount; it succeeds exactly when the path is accepted and covered |
| Vfs.Mounts.FindMount | src/kernel/fs/vfs.c:231-238 | the mount with that mount point, or none |
| Vfs.Mounts.FreeSlot | src/kernel/fs/vfs.c:239-246 | an unused slot, or none |
| Vfs.Mounts.Mount | src/kernel/fs/vfs.c:211-271 | mount points stay canonical and distinct; the mount point is normalised; every refusal has its code and changes no mount |
| Vfs.Mounts.Unmount | src/kernel/fs/vfs.c:273-319 | the mount is gone only if no handle pins it; every refusal has its code and changes nothing |
| Bitmap.Bits.constructor | src/kernel/memory/bitmap.c:4-14 | all bits set |
| Bitmap.BitIsMask | src/kernel/memory/bitmap.c:16-35 | bit k of a byte is the one that 1 << k masks |
| Bitmap.Bits.Set | src/kernel/memory/bitmap.c:16-21 | exactly that bit is set; an index past the end is ignored |
| Bitmap.Bits.Clear | src/kernel/memory/bitmap.c:23-28 | exactly that bit is cleared; an index past the end is ignored |
| Bitmap.Bits.Test | src/kernel/memory/bitmap.c:30-35 | the bit; past the end it reads as used |
| Bitmap.Bits.FindFirstClear | src/kernel/memory/bitmap.c:37-48 | the lowest clear bit, or the size if there is none |
| Pmm.FreeSet | src/kernel/memory/pmm_allocator_bitmap.c:40-81 | changing one bit changes the number of clear bits by exactly what it was and becomes |
| Pmm.RoundingOut | src/kernel/memory/pmm_allocator_bitmap.c:16-24 | rounding outward takes the pages that meet a range, none exactly if its end is in the last page below 2^64 |
| Pmm.RoundingIn | src/kernel/memory/pmm_allocator_bitmap.c:16-24 | rounding inward takes those inside it, from page 0 on if its start is in the last page below 2^64 |
| Pmm.PageBytes | src/kernel/memory/pmm_allocator_bitmap.c:16-24 | a page meets a range that has a byte in it and lies inside one that has all of its bytes |
| Pmm.DescPages | src/kernel/memory/pmm.c:61-78 | the pages of an aligned descriptor |
| Pmm.UsableKinds | src/kernel/memory/pmm.c:20-31 | the three usable memory types |
| Pmm.MaxEnd | src/kernel/memory/pmm.c:58-70 | an upper bound of the ends of the usable descriptors, attained by one of them or 0 |
| Pmm.Allocator.constructor | src/kernel/memory/pmm_allocator_bitmap.c:26-38 | all pages used, the counter zero |
| Pmm.Allocator.UseOne | src/kernel/memory/pmm_allocator_bitmap.c:47-58 | one page is used, the counter follows |
| Pmm.Allocator.FreeOne | src/kernel/memory/pmm_allocator_bitmap.c:69-80 | one page is free, the counter follows |
| Pmm.Allocator.MarkUsed | src/kernel/memory/pmm_allocator_bitmap.c:40-60 | exactly the pages that meet the range become used, none if its end is in the last page below 2^64; the counter stays the number of clear bits |
| Pmm.Allocator.MarkFree | src/kernel/memory/pmm_allocator_bitmap.c:62-81 | exactly the pages inside the range become free, from page 0 on if its start is in the last page below 2^64; the counter stays the number of clear bits |
| Pmm.Allocator.AllocPage | src/kernel/memory/pmm_allocator_bitmap.c:83-93 | the lowest free page becomes used and the counter falls by one; the invalid address is returned exactly when none is free |
| Pmm.Allocator.FreePage | src/kernel/memory/pmm_allocator_bitmap.c:95-116 | a used page becomes free and the counter rises by one; anything else is ignored |
| Pmm.StaysUsed | src/kernel/memory/pmm_allocator_bitmap.c:83-116 | a used page stays used over every sequence of calls that does not free it |
| Pmm.NotTwice | src/kernel/memory/pmm_allocator_bitmap.c:83-116 | a page handed out is not handed out again, over every sequence of calls, until it is freed |
| Pmm.FreedAgain | src/kernel/memory/pmm_allocator_bitmap.c:83-116 | a page given back is handed out again before any page above it |
| Pmm.FreedUsable | src/kernel/memory/pmm.c:84-96 | the pages freed are the usable ones if every usable descriptor starts a page below 2^64 |
| Pmm.Reserve | src/kernel/memory/pmm.c:98-110 | page 0, the boot information, and the kernel image and memory map unless they end in the last page below 2^64 become used; nothing else does |
| Pmm.LastPageFails | src/kernel/memory/pmm.c:84-96 | a descriptor for which pages outside it are freed |
| Pmm.FindEnd | src/kernel/memory/pmm.c:58-70 | the highest end of a usable descriptor, 0 if there is none |
| Pmm.FreeUsable | src/kernel/memory/pmm.c:84-96 | exactly the pages that the rounded ranges of the usable descriptors hold are free |
| Pmm.InitPmm | src/kernel/memory/pmm.c:33-114 | every page below the cap in a usable descriptor is managed; a page is free exactly when it lies wholly in one usable descriptor below the cap and meets no reserved range, provided no usable range starts and no reserved one ends in the last page below 2^64; what it is without that; the free counter is exact |
| Ext4Tree.ChildRead | src/kernel/fs/ext4.c:191-212 | the driver follows an index entry to the block it names exactly when bits 32 to 47 of the number repeat bits 16 to 31, because the upper half is read at the wrong offset |
| Ext4Exact.BigPointerFails | src/kernel/fs/ext4.c:191-212 | a well-formed tree whose blocks the driver answers with an error |
| Ext4Exact.FullExtentFails | src/kernel/fs/ext4.c:164-186 | a well-formed leaf of one extent of which the driver sees nothing |
| Ext4Exact.LeafBytes | src/kernel/fs/ext4.c:164-186 | a leaf of two extents byte by byte |
| Ext4Exact.LeafLookups | src/kernel/fs/ext4.c:164-186 | what is found in it: a written block, an unwritten one, a hole |
| Ext4Exact.IndexBytes | src/kernel/fs/ext4.c:191-212 | an index entry byte by byte |
| Ext4Exact.LookupIs | src/kernel/fs/ext4.c:164-186 | a block in an extent lies as far behind its start as behind its first block; a length above 0x8000 says unwritten |
| Ext4.ByteIsThere | src/kernel/fs/ext4.c:654-685 | byte r of a block is that byte of the block the first extent holding it says, zero in an unwritten extent or a hole |
| Ext4Tree.LeafAgrees | src/kernel/fs/ext4.c:164-186 | the leaf loop is lookup in the list of extents |
| Ext4Tree.LeafExact | src/kernel/fs/ext4.c:164-186 | it is so exactly when no extent has the length 0x8000 and none ends at block 2^32 |
| Ext4Tree.Outside | src/kernel/fs/ext4.c:146-213 | below a node nothing lies outside its key range |
| Ext4Tree.OneChild | src/kernel/fs/ext4.c:146-213 | the child whose key range holds the block decides |
| Ext4Tree.WalkIsLookup | src/kernel/fs/ext4.c:146-213 | for every readable tree of depth at most 5 the walk is lookup in the flat list of its extents |
| Ext4Exact.FollowsChild | src/kernel/fs/ext4.c:146-213 | below an entry the driver follows the tree exactly when it goes to the block the entry names and follows the tree from there |
| Ext4Exact.WalkExact | src/kernel/fs/ext4.c:146-213 | for every tree of depth at most 5 with non-empty key ranges and extents that do not overlap, the driver goes where the tree points and finds what its extents say, at every block, exactly when the tree is readable: no index pointer and no extent in it is one the driver misreads |
| Ext4.Volume.ReadBlock | src/kernel/fs/ext4.c:78-90 | the block, or an error exactly past the device or on a fault |
| Ext4.SearchLeaf | src/kernel/fs/ext4.c:164-186 | the leaf loop on the buffer |
| Ext4.FindIndex | src/kernel/fs/ext4.c:191-205 | the index loop on the buffer |
| Ext4.MapWalk | src/kernel/fs/ext4.c:146-213 | the recursion that overwrites its scratch block tells what the walk over the disk gives |
| Ext4.File.Map | src/kernel/fs/ext4.c:216-223 | for every inode the answer of the walk, which for a readable tree is what the flat list of extents says |
| Ext4.File.ReadChunk | src/kernel/fs/ext4.c:654-685 | one round of the read loop yields the next bytes of what the walk shows of the file; for a readable tree only a fault stops it |
| Ext4.File.Read | src/kernel/fs/ext4.c:631-691 | exactly the bytes the walk shows at the position, which for a readable tree are the logical bytes of the file, zeros for holes and unwritten extents; an error moves nothing; without a fault it ends early only in front of a block for which the walk finds neither a block of the device nor a hole |
| RamfsNames.LessTotal | src/kernel/string.c:30-46 | names are ordered |
| RamfsNames.LessTransitive | src/kernel/string.c:30-46 | and the order is transitive |
| RamfsNames.LessIs | src/kernel/string.c:30-46 | a name comes after what it begins with, and otherwise the first byte in which two differ decides |
| RamfsTree.LinkKeeps | src/kernel/fs/ramfs.c:40-49 | linking a child at its place keeps every list sorted and linked, every node on its parent only |
| RamfsTree.CutKeeps | src/kernel/fs/ramfs.c:51-61 | so does unlinking a node without children |
| RamfsTree.Later | src/kernel/fs/ramfs.c:40-49 | later on the list means greater name |
| RamfsTree.OneEntry | src/kernel/fs/ramfs.c:100-130 | a name is that of one node at most |
| RamfsTree.LinkedEntries | src/kernel/fs/ramfs.c:40-49 | a create adds one entry, and every other name stands for the node it stood for |
| RamfsTree.CutEntries | src/kernel/fs/ramfs.c:51-61 | a removal takes one entry away, and every other name stands for the node it stood for |
| RamfsScan.AddedScan | src/kernel/fs/ramfs.c:100-130 | a create leaves every directory scan under way in order |
| RamfsScan.CutScan | src/kernel/fs/ramfs.c:366-396 | so does an rmdir, which drops only its own node from what a scan still owes |
| RamfsScan.CutHandles | src/kernel/fs/ramfs.c:366-396 | a node nothing refers to can go: no handle and no cursor stands on it |
| RamfsScan.FileOpened | src/kernel/fs/ramfs.c:203-238 | the reference count stays the number of handles and cursors on the node |
| RamfsScan.FileClosed | src/kernel/fs/ramfs.c:240-252 | and so on close |
| RamfsScan.DirOpened | src/kernel/fs/ramfs.c:398-425 | and on opendir |
| RamfsScan.DirClosed | src/kernel/fs/ramfs.c:457-470 | and on closedir, for the directory and the cursor alike |
| RamfsScan.CursorMoved | src/kernel/fs/ramfs.c:428-455 | and when the cursor moves |
| RamfsScan.ScanMoves | src/kernel/fs/ramfs.c:428-455 | the next entry is above all returned so far and none that was there all along is skipped |
| RamfsScan.ScanEnds | src/kernel/fs/ramfs.c:428-455 | at the end every entry that was there all along has been returned |
| Ramfs.Ramfs.constructor | src/kernel/fs/ramfs.c:167-189 | the empty tree meets the invariant |
| Ramfs.Ramfs.ChildFind | src/kernel/fs/ramfs.c:30-37 | the child of that name, or none |
| Ramfs.Ramfs.FindPlace | src/kernel/fs/ramfs.c:40-47 | the place of the name in the sorted list |
| Ramfs.Ramfs.LinkChild | src/kernel/fs/ramfs.c:40-49 | the pointer changes of linking |
| Ramfs.Ramfs.UnlinkChild | src/kernel/fs/ramfs.c:51-61 | the pointer changes of unlinking |
| Ramfs.Ramfs.Create | src/kernel/fs/ramfs.c:100-130 | the new node takes its place in name order and is what its name stands for, every other name stands for what it did; every refusal has its code: a bad name, a parent that is no directory, a name in use, no memory; every scan, count and file is kept |
| Ramfs.Ramfs.Rmdir | src/kernel/fs/ramfs.c:366-396 | it succeeds exactly for a directory other than the root, empty and unreferenced; only that node and its name go; every refusal has its code and changes nothing |
| Ramfs.Ramfs.Open | src/kernel/fs/ramfs.c:203-238 | a truncating open empties the file, an appending one starts at its end; other files stay; the count follows |
| Ramfs.Ramfs.Close | src/kernel/fs/ramfs.c:240-252 | the handle is gone and the count follows |
| Ramfs.Ramfs.Opendir | src/kernel/fs/ramfs.c:398-425 | a scan begins, owing every entry the directory has now |
| Ramfs.Ramfs.Closedir | src/kernel/fs/ramfs.c:457-470 | handle and cursor are gone and the counts follow |
| Ramfs.Ramfs.Readdir | src/kernel/fs/ramfs.c:428-455 | names come in strictly increasing order under any creates and rmdirs between calls, and at the end each entry present throughout has been returned, exactly once |
| Ramfs.Ramfs.Grow | src/kernel/fs/ramfs.c:132-150 | room for the bytes; the contents of every other file stay, and those of the file if its size is below 2^32 |
| Ramfs.MovedExact | src/kernel/fs/ramfs.c:143-144 | a new buffer holds the bytes of the old one, whatever else is in it, exactly when the size is below 2^32 |
| Ramfs.Ramfs.Read | src/kernel/fs/ramfs.c:254-273 | exactly the bytes at the position; the count is as many as there are, of which the buffer gets all exactly below 2^32 |
| Ramfs.Ramfs.Write | src/kernel/fs/ramfs.c:275-304 | the file becomes the old bytes with the data spliced in behind a zero-filled gap, if size, gap and length are each below 2^32; its new size and the position are right for any; other files stay; an error changes nothing |
| Ramfs.StoredExact | src/kernel/fs/ramfs.c:293-300 | the two fills give every buffer the written bytes exactly when gap and length are below 2^32 |
| Ramfs.Ramfs.Store | src/kernel/fs/ramfs.c:293-303 | the two fills and the new size, for a buffer that is large enough |

## Left out

- Claims after a device error on a FAT32 volume: a failed device stays failed in the model, and every statement is about volumes without a failure so far. Crash consistency and clusters leaked by an error are not modelled.
- What the FAT32 mount does not check is taken for granted: a table with room for every cluster, more than seven reserved sectors for the backup FSInfo, cluster numbers below the end marks, a volume of less than 2^32 sectors inside its device. Finding and decoding the boot sector is not modelled.
- FAT32 handles: one open handle for each file, whose directory entry is a slot of another live chain.
- Fat32Insert.PlaceSlots: the directory ends at least one name and one cluster before 2^32 bytes, as offsets of entries have 32 bits in the code.
- Fat32Insert.PutSlots: the same room.
- Fat32Insert.DirInsert: the same room.
- Fat32Insert.CreateDir: the same room in the parent.
- FAT32 path walking, open, stat, unlink, rmdir and readdir are not modelled, as they only iterate the lookups and slot updates proved here.
- Fat32Visible.InsertedShows: assumes a directory without torn long-name records and with nothing but end marks behind the first one. A new directory is so, insertions keep it so unless they skip an end mark, and updates of an entry keep it so (`Fat32Patched.PatchedKeeps`).
- Fat32File.FatFile.Write: on NOSPC only a prefix of the data is in the file and clusters may have been added behind its size, as in the code.
- The error path of a device that fails in the middle of `fat32_fat_set` leaves copies of the table different; nothing is claimed then.
- Scheduler: a CPU's read of its own current task is one atomic step; registers, stacks, the idle tasks' setup, `kmalloc` and stack pages in `task_create_ex` and the boot order are left out, and the round-robin choice of a CPU is any online CPU. Lock waiting and liveness are out.
- The scheduler's clock never reaches 2^64 (`TimerIrq` is taken only below it); a sum of clock and duration may wrap and does in `SchedTime.SleepsAtLeast`.
- SchedLists.Kernel.StealOne: the linked queues are searched without steps of other CPUs in between; the interleavings are covered by the transition system.
- SchedLists.Kernel.WakeSleepers: the rounds of one pass on the linked list run without steps of other CPUs in between; the interleavings are covered by the transition system.
- SchedLists.Kernel.ScheduleFromIrq: the sections of one call are taken one after the other without steps of other CPUs in between; the interleavings are covered by the transition system.
- Conversion of milliseconds to ticks: the header promises rounding up, the code rounds down (src/inc/timer.h:19, src/kernel/acpi/timer.c:56); no result depends on it.
- Heap: sequential use, as the code has no lock; the pages come from a supply of distinct page addresses at least two pages below 2^64.
- KernelHeap.Heap.Kfree: the pointer is 0 or stands behind bytes last written as a header, and what then looks like the header of a used block is that of a live one. A payload that its owner made to look like a header is outside this.
- Pages for page tables come from a supply of distinct aligned addresses; the TLB is never stale, as `map_page` invalidates what it changes; entry bits other than present, writable, user, huge and the address are carried as one number; large pages never occur in a tree the kernel builds itself.
- Vmm.InitVmm: the framebuffer ends below 2^48 and the image is page-aligned and fits the 48-bit space, so that the code's sums do not wrap; the physical memory is a whole number of pages, which it is by construction.
- Vmm.MapFramebuffer: the framebuffer ends below 2^48.
- Vmm.MapKernelImage: the range does not run over the end of the 48-bit space.
- After an access has gone astray nothing more is claimed: the bytes it leaves in a table or in a page in use are not followed. The pages in use while an image is loaded are a parameter (`held`), used once in every round; the managed memory ends below 2^47.
- ElfLoader.Loader.MapImage: requires that the end of the program headers does not wrap, as the code would read outside the buffer, and starts from a whole identity map; pages mapped before a refusal stay mapped, as in the code. Reading the file and the user stack are left out.
- Vfs.Mounts.Mount: the driver lookup and the driver's callback result are parameters, and mount and unmount run alone; open, close, read, write and chdir wrappers are left out.
- Pmm.InitPmm: descriptors are a sequence, and the lookup of the allocator is left out.
- Devfs.BlockRead: a length of fewer than 2^32 blocks, on a device whose size in bytes fits 64 bits.
- Devfs.BlockWrite: the same.
- Devfs: the node tree, open and close.
- Partitions: the header, the CRC and the entry loop of a GPT, the names and the disk list.
- Ext4Tree.WalkIsLookup: for trees the driver can read; which they are is `Ext4Exact.WalkExact`.
- ext4: superblock, inode and directory decoding and path walking; 64-bit products of block numbers; directory iteration, which need not terminate on arbitrary data.
- Ramfs.Ramfs.Write: the end of the data is below 2^63, where the code's doubling of the buffer still ends.
- ramfs: path walking, seek, stat and unmount; node numbers are not used twice, where the code may reuse a freed address.
- Buffers that only pass data through are sequences where the original has pointers; the bitmap, the path buffers and the ext4 scratch block are arrays.
- Hardware setup, port I/O, assembly, the boot loader, console, keyboard, `csos.cfg`, ACPI tables, the device list and the string library: plumbing around the parts modelled.
