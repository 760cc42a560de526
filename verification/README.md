# open98: a verified model of its memory, file and scheduling core

The project models five components of the open98 kernel and proves what they are for.

* **liballoc** (`LiballocSpec`, `LiballocLinks`, `LiballocState`, `LiballocHint`, `Liballoc`): the two-level heap. A heap
  state is described twice: by the headers in memory, which the methods of `Liballoc.Heap` splice through addresses as the C
  code does, and by a list of majors with their minors. `HeapOk` says that the first represents the second, that all
  extents are disjoint, ordered and inside their major, that every counter is the sum it stands for, and that every
  payload is tagged with the way back to its header. Each splice of the code is one lemma that keeps `HeapOk`.
* **FAT32** (`FatTable`, `FatNames`, `FatDirectory`, `FatShort`, `FatDirScan`, `FatDisk`, `FatFiles`, `FatGroup`,
  `FatLayout`, `FatVolume`, `FatStream`): from sectors to whole files of one directory. The disk is an array of 512-byte
  sectors. `FsOk` says that the table in memory is exactly partitioned into acyclic chains, that every directory cluster
  is a sequence of free slots and complete groups, and that each entry owns one chain. Writing, deleting and reading are
  stated on the listing and on the bytes of every file. The format is that of the Microsoft FAT32 File System Specification 1.03.
* **Page tables over the frame bitmap** (`Pmm`, `VmmState`, `Vmm`): the four-level tree of section 4.5 of the Intel SDM,
  volume 3A, built on demand in frames that `Pmm.FrameAllocator` hands out. Every pagemap refines a plain map from
  36-bit page numbers to entries, frames with their flags, and all pagemaps agree on the upper half.
* **printf's integer core** (`PrintfText`, `PrintfStandard`, `PrintfFormat`, `PrintfDirective`, `PrintfPieces`,
  `PrintfWritten`, `Printf`): the 32-character number buffer, the directive loop and `vsnprintf`. Section 7.21.6.1 of
  ISO/IEC 9899:2011 is written down on its own, both for reading a directive and for the text it asks for: numerals of any
  length, a negative `*` precision as if there were none. The exact condition for the code's reading and the code's text to be the standard's is proved.
  `PrintfWritten` says of both, conversion letter by conversion letter, which characters come out and what they read as.
* **Round-robin scheduler** (`Scheduler`): 64 slots, loads and timer ticks, with fairness over every run.

Code that changes state is modelled by classes and methods; what a method does is stated by a function or predicate on
values, and the properties are lemmas about those. Where such a function follows the steps of the code, lemmas say what it
comes to in bytes, indices and characters, without it. Addresses, table entries and sizes are unbounded numbers; where a
width matters it is written out (`Printf`, `ToInt` in liballoc) or bounded by a precondition.

## What the code needs of its callers

These conditions are preconditions because the code goes wrong without them. Where a lemma says exactly when, it is named.

* liballoc: `req_size + 112` does not exceed the largest page multiple of an `unsigned int`: by `LiballocState.PagesForBound`
  exactly then the size of a fresh major fits its `unsigned int`. The page hook follows
  `ntoskrnl/mm/liballoc.h:59`: asked for n pages it returns n fresh ones or NULL. Its answer is the parameter `grant`.
  The caller of `free` passes NULL or a pointer whose header can still be read: not one inside a block placed since or in a
  page given back. There the source reads bytes that are no header (`ntoskrnl/mm/liballoc.c:594`).
  The caller of `realloc` passes NULL or a live block, and the inner `malloc` succeeds: the code copies to the new block
  without looking (`ntoskrnl/mm/liballoc.c:785-786`).
* FAT32: entries 0 and 1 of the table are nonzero, all entries are below 2^28 and free, in range or an end of chain.
  The table may have more entries than the volume has clusters, as formatted volumes do, but links stay on the volume.
  The search for a free cluster knows nothing of that (`ntoskrnl/drv/filesystem/fat32/fat32.c:251-271`): it takes a spare entry
  behind the hint before it looks at freed clusters before it. `FatTable.SearchesStay` says exactly how many searches in a row stay on the volume.
  The writer needs no more than that, for it never looks for 0 either. A name has 1 to 194 characters in 32..127.
  Its length is no multiple of 13: `FatNames.NameTerminated` shows that the name reads back exactly then. It takes at most
  15 slots: `FatNames.NumbersReadBack` shows that the slot numbers read back exactly then.
* Page tables: flags are below 4096 with bit 0 set, for they are also the flags of new tables. Free frames are zero pages,
  because `ntoskrnl/mm/vmm.c:24` does not clear them; `VmmState.NewTableShowsItsFrame` shows what happens otherwise.
  Tables are reached through the copy of memory at PHYS_MEM_OFFSET, which every pagemap shares, but `vmm_virt_to_phys` reads
  its last level without that offset (`ntoskrnl/mm/vmm.c:92-95`). By `VmmState.PageShowsFrame` that is right, whatever else is in
  memory, exactly if the loaded pagemap maps the table's frame to itself; `Vmm.KernelMapSees` says for which frames the
  map made at start-up does, and `Vmm.NewMapSees` for which a new pagemap does: those of the framebuffer. `vmm_create_new_pagemap`
  translates and so needs it for every frame that is or may become a table.
* `MmInitializePmm`: the bitmap's byte count is rounded down before it is rounded up to a page;
  `Pmm.BitmapCovers` says exactly when it still has a bit for every frame.

## Model

| member | source | states |
|---|---|---|
| LiballocState.AlignUp | ntoskrnl/mm/liballoc.c:23-33 | the aligned payload address is a multiple of 16 and 16 to 31 bytes above the end of the header |
| LiballocState.UnalignAfterAlign | ntoskrnl/mm/liballoc.c:23-41 | UNALIGN gives back the address that ALIGN was applied to |
| LiballocState.PayloadInside | ntoskrnl/mm/liballoc.c:241-247 | the payload starts at the multiple of 16 that lies 56 to 71 bytes above the header, and with its tag byte lies inside the minor |
| LiballocState.ExtentsApart | ntoskrnl/mm/liballoc.c:316-555 | any two live minors, of one major or of two, occupy disjoint addresses, headers included |
| LiballocState.PayloadsClear | ntoskrnl/mm/liballoc.c:316-555 | no payload byte is a header or tag byte of any live minor, a payload byte of another one, or part of a major's header |
| LiballocSpec.MinorsOrdered | ntoskrnl/mm/liballoc.c:436-524 | the minors of a major are strictly sorted by address with disjoint extents |
| LiballocSpec.GapAtMostFree | ntoskrnl/mm/liballoc.c:330-360 | every gap of a major is at most its size less its usage |
| LiballocState.SkipSound | ntoskrnl/mm/liballoc.c:330-343 | CASE 1 hops over a major only if none of its gaps can hold the block |
| LiballocSpec.PagesFor | ntoskrnl/mm/liballoc.c:175-193 | a fresh major has the fewest pages, but at least 16, that hold both headers and the block |
| LiballocState.PagesForBound | ntoskrnl/mm/liballoc.c:175-208 | the size of a fresh major fits its unsigned int exactly for requests up to the bound |
| LiballocLinks.InsertRep | ntoskrnl/mm/liballoc.c:366-524 | the writes of CASES 2 to 4 turn headers that represent a heap into headers that represent it with the block in that gap |
| LiballocLinks.RemoveRep | ntoskrnl/mm/liballoc.c:638-653 | the unlinking writes of free turn the represented list into the one without the block; no other header counts as live |
| LiballocLinks.DropRep | ntoskrnl/mm/liballoc.c:657-670 | bypassing an empty major leaves a well-linked list of the other majors |
| LiballocLinks.AppendRep | ntoskrnl/mm/liballoc.c:352-357 | hanging a fresh major behind the last one leaves a well-linked list |
| LiballocLinks.LiveOnce | ntoskrnl/mm/liballoc.c:571-689 | an address is the header of at most one live minor |
| LiballocLinks.InsertNoStale | ntoskrnl/mm/liballoc.c:366-524 | the only header that can be read inside a live block is its own, also after a block is placed over old headers |
| LiballocState.PlaceOk | ntoskrnl/mm/liballoc.c:366-524 | placing a block in a gap that holds it keeps the whole heap invariant: links, order, extents, usage, both counters, tags |
| LiballocState.UnlinkOk | ntoskrnl/mm/liballoc.c:638-653 | unlinking any live block keeps the whole heap invariant |
| LiballocState.DropOk | ntoskrnl/mm/liballoc.c:657-670 | giving an empty major back keeps the whole heap invariant, the hint included |
| LiballocState.CountersCover | ntoskrnl/mm/liballoc.c:640-642 | l_inuse, l_allocated and a major's usage never underflow in free |
| LiballocSpec.PlacedThenFreed | ntoskrnl/mm/liballoc.c:316-689 | freeing the block just placed gives the old list of majors back, fresh major or not |
| LiballocState.PlacedApart | ntoskrnl/mm/liballoc.c:316-555 | a new block overlaps no block that was live before |
| LiballocState.FreedKeeps | ntoskrnl/mm/liballoc.c:638-670 | freeing a block keeps every other block live |
| LiballocState.StartsAt | ntoskrnl/mm/liballoc.c:301-314 | the scan begins at the major of l_bestBet if that has more free bytes than the block and its header need, and else at the root |
| LiballocState.PathTaken | ntoskrnl/mm/liballoc.c:301-555 | with such a hint at index b the block goes to the first major from b on that has a gap large enough, or if none has to the first one from 0; with no such hint to the least index with one; in the major, to the first such gap |
| LiballocState.PlacedIsNew | ntoskrnl/mm/liballoc.c:366-524 | the new block is size + 32 bytes right behind the block before it or the header of its major; every other block and major is as it was; a fresh major has one block and the fewest pages, at least 16 |
| LiballocHint.BetIsFirstMost | ntoskrnl/mm/liballoc.c:301-555 | the hint after malloc, from the majors on its path alone: as before if none has more free bytes, else the first of those with the most |
| LiballocHint.FreeMovesBet | ntoskrnl/mm/liballoc.c:657-681 | the hint after free, in all cases: 0 if its major goes, the freed-in major if that has more free bytes as ints, else as before |
| LiballocHint.FreedHoldsOthers | ntoskrnl/mm/liballoc.c:638-670 | after free exactly the other blocks are live |
| LiballocHint.FreedMajors | ntoskrnl/mm/liballoc.c:657-670 | a major goes exactly if its only block is freed; the others stay in their order with their blocks |
| Liballoc.Heap.Align | ntoskrnl/mm/liballoc.c:23-33 | writes only the tag byte, which records the distance from the header's end |
| Liballoc.Heap.AllocateNewPage | ntoskrnl/mm/liballoc.c:175-227 | a NULL answer changes only the warning count; otherwise the header of an empty unlinked major and l_allocated |
| Liballoc.Heap.PlaceInMajor | ntoskrnl/mm/liballoc.c:366-524 | the block goes to the first gap that holds it, and fails exactly when no gap does, changing nothing then |
| Liballoc.Heap.Advance | ntoskrnl/mm/liballoc.c:338-357 | a major without room is left for the next one, for the root if the scan began at the hint, or for a fresh major |
| Liballoc.Heap.Malloc | ntoskrnl/mm/liballoc.c:230-569 | the place that PathTaken gives and the block that PlacedIsNew gives, from the old list and the old hint; pages are asked for only if no major has a gap of size + 40 bytes, NULL exactly if they are then refused; every other byte of memory is unchanged; the hint afterwards is given exactly, also when the call fails |
| Liballoc.Heap.Free | ntoskrnl/mm/liballoc.c:571-689 | exactly the live block leaves the heap, an emptied major goes back, the hint moves as written; any other pointer whose header can still be read, so not one inside a live block, changes nothing but the error counters |
| LiballocState.HintIsBest | ntoskrnl/mm/liballoc.c:318-326 | after a look at some majors the hint is as before if none of them has more free bytes, and else the first of those with the most |
| LiballocState.HintDone | ntoskrnl/mm/liballoc.c:300-555 | where the scan ends fixes which majors it has compared: those from the start to the place, or on to the end and from the root; a fresh one only if the last major passed CASE 1 |
| Liballoc.Heap.MallocThenFree | ntoskrnl/mm/liballoc.c:230-689 | majors, minors, every live header, l_inuse, l_allocated and l_memRoot are as before |
| Liballoc.SameStructure | ntoskrnl/mm/liballoc.c:175-227 | two heaps that represent the same list have the same counters and the same live headers |
| Liballoc.Heap.Memcpy | ntoskrnl/mm/liballoc.c:113-136 | the word-then-byte loop is a byte copy and touches nothing else |
| Liballoc.Heap.Realloc | ntoskrnl/mm/liballoc.c:705-790 | size 0 frees, NULL allocates, shrinking notes the size in that header; growing allocates as Malloc does, takes exactly the old block out, keeps all its bytes in the new one and every byte of every other live block |
| LiballocState.CopiedBytes | ntoskrnl/mm/liballoc.c:785-787 | keeping its bytes means that byte b of the new payload is byte b of the old one, up to the old requested size |
| LiballocState.OthersKeptBytes | ntoskrnl/mm/liballoc.c:785-788 | and that of every other live block each requested byte is where and what it was |
| Liballoc.LowBytes | ntoskrnl/mm/liballoc.c:598-603 | the three overrun comparisons of free together mean that the lowest byte matches |
| FatTable.ChainUnique | ntoskrnl/drv/filesystem/fat32/fat32.c:171-178 | a chain is determined by its first cluster |
| FatTable.ChainNoRepeat | ntoskrnl/drv/filesystem/fat32/fat32.c:171-178 | a chain that ends has no circle |
| FatTable.NewChain | ntoskrnl/drv/filesystem/fat32/fat32.c:246-273 | marking a free cluster adds a one-cluster chain to the partition |
| FatTable.LinkChain | ntoskrnl/drv/filesystem/fat32/fat32.c:993-996 | linking a fresh cluster behind a chain keeps the table partitioned |
| FatTable.DropChain | ntoskrnl/drv/filesystem/fat32/fat32.c:800-814 | zeroing a chain leaves the table partitioned into the others |
| FatTable.SearchStays | ntoskrnl/drv/filesystem/fat32/fat32.c:246-273 | the free entry found belongs to a cluster of the volume exactly if one is left before the first spare free entry on the path of the search |
| FatTable.TakenOnVolume | ntoskrnl/drv/filesystem/fat32/fat32.c:246-273 | each cluster taken leaves one less before the search goes off the volume |
| FatTable.SearchesStay | ntoskrnl/drv/filesystem/fat32/fat32.c:246-273 | n searches in a row all end on the volume exactly if n clusters are left before the search goes off it |
| FatTable.LinksDoNotMatter | ntoskrnl/drv/filesystem/fat32/fat32.c:993-996 | the links that a write makes between its searches change nothing about that |
| FatNames.Write83FileName | ntoskrnl/drv/filesystem/fat32/fat32.c:294-358 | exactly the 11 bytes of the 8.3 name are written |
| FatNames.CheckSumFName | ntoskrnl/drv/filesystem/fat32/fat32.c:278-292 | rotate and add over the 11 bytes, modulo 256 |
| FatNames.WriteLongFileNameEntries | ntoskrnl/drv/filesystem/fat32/fat32.c:420-497 | number, mark, checksum of the name's own 8.3 form and characters of every slot; all other bytes of the slots and of the cluster stay |
| FatNames.ParseLongName | ntoskrnl/drv/filesystem/fat32/fat32.c:180-233 | the name is put together from slots in disk order, unprintable bytes read as 0 |
| FatNames.LongNameRoundTrip | ntoskrnl/drv/filesystem/fat32/fat32.c:180-497 | reading the slots just written gives the name padded with zeros, whatever stale bytes they held |
| FatNames.NumbersReadBack | ntoskrnl/drv/filesystem/fat32/fat32.c:192-193 | the masked slot numbers read back right exactly for up to 15 slots |
| FatNames.NameTerminated | ntoskrnl/drv/filesystem/fat32/fat32.c:187-232 | the name read back is terminated exactly when its length is no multiple of 13 |
| FatNames.ShortNameInUse | ntoskrnl/drv/filesystem/fat32/fat32.c:294-358 | a short slot never looks free |
| FatLayout.ChecksumNext | ntoskrnl/drv/filesystem/fat32/fat32.c:278-292 | one more character c turns a checksum 2h + b into 128b + h + c modulo 256 |
| FatShort.ShortNameFields | ntoskrnl/drv/filesystem/fat32/fat32.c:294-358 | the 8.3 form is the stem in capitals padded to 8, or its first six characters and ~1, and up to three characters of extension padded to 3 |
| FatShort.FieldsReadAsName | ntoskrnl/drv/filesystem/fat32/fat32.c:651-672 | a padded stem and a padded extension read as the stem, a dot and the extension, without the dot if there is none |
| FatShort.ShortNameReadsBack | ntoskrnl/drv/filesystem/fat32/fat32.c:294-358 | the 8.3 form of a name of up to 8 and 3 characters reads back as the name with 97..122 turned into 65..90; longer ones as what is left of them |
| FatLayout.LongNameBytes | ntoskrnl/drv/filesystem/fat32/fat32.c:180-233 | where in the slots each character of a long name is read from |
| FatGroup.FieldsReadBack | ntoskrnl/drv/filesystem/fat32/fat32.c:1005-1020 | the split first cluster and the size read back as they were written |
| FatGroup.GroupReadsBack | ntoskrnl/drv/filesystem/fat32/fat32.c:957-1020 | all slots written for a file read back as one complete group with its name, attributes, first cluster and size |
| FatGroup.ChecksumMatches | ntoskrnl/drv/filesystem/fat32/fat32.c:957-961 | every long-name slot carries the checksum of the 8.3 name in the short slot behind it |
| FatLayout.LongSlotBytes | ntoskrnl/drv/filesystem/fat32/fat32.c:420-497 | every byte of every long-name slot written: number and mark, 0x0F, checksum, thirteen characters at their places; the other three bytes stay |
| FatLayout.ShortSlotBytes | ntoskrnl/drv/filesystem/fat32/fat32.c:1005-1020 | every byte of the short slot written: 8.3 name, attributes, cluster and size with their lowest byte first |
| FatDirectory.InsertGroup | ntoskrnl/drv/filesystem/fat32/fat32.c:956-1023 | filling free slots with a group keeps the cluster a sequence of free slots and groups and adds exactly one listing |
| FatDirectory.RemoveGroup | ntoskrnl/drv/filesystem/fat32/fat32.c:857-861 | zeroing a group's slots takes exactly its listing away |
| FatDirectory.ClearedCluster | ntoskrnl/drv/filesystem/fat32/fat32.c:235-244 | a cleared cluster is an empty piece of directory |
| FatShort.ShortSlotListed | ntoskrnl/drv/filesystem/fat32/fat32.c:621-680 | what a slot without long-name slots lists, from its 32 bytes |
| FatShort.FreeSlotListed | ntoskrnl/drv/filesystem/fat32/fat32.c:629-635 | a slot lists nothing exactly if its first byte is 0 or 0xE5 |
| FatDirScan.ReadDirectoryEntry | ntoskrnl/drv/filesystem/fat32/fat32.c:621-680 | fails exactly for a free slot or a group that runs out of the cluster; else the entry of the group and the slot behind it |
| FatDirScan.ShortName | ntoskrnl/drv/filesystem/fat32/fat32.c:651-672 | the loops compute the name that FieldsReadAsName describes |
| FatDirScan.ListCluster | ntoskrnl/drv/filesystem/fat32/fat32.c:766-792 | the loop lists exactly the groups of a cluster, in order |
| FatDirScan.FindFreeRun | ntoskrnl/drv/filesystem/fat32/fat32.c:378-397 | the first run of that many free slots, or none exists |
| FatDirScan.DeleteInCluster | ntoskrnl/drv/filesystem/fat32/fat32.c:840-881 | the first entry of that name and no other leaves the listing, and exactly the bytes of its slots become 0, or the cluster has none |
| FatDisk.ClustersApart | ntoskrnl/drv/filesystem/fat32/fat32.c:133-140 | different clusters share no sector |
| FatDisk.ClusterWritten | ntoskrnl/drv/filesystem/fat32/fat32.c:28-41 | writing a cluster changes no other cluster and no sector of the table |
| FatDisk.EntryRoundTrip | ntoskrnl/drv/filesystem/fat32/fat32.c:76-88 | a table entry laid out in memory reads back through UtilReadInteger32 |
| FatDisk.TableFlushed | ntoskrnl/drv/filesystem/fat32/fat32.c:43-50 | after a flush the load loop would read exactly the table in memory, and no cluster changed |
| FatLayout.ClusterByte | ntoskrnl/drv/filesystem/fat32/fat32.c:133-169 | byte q of cluster c is byte q % 512 of the sector at the start of the clusters + (c - 2) * sectors per cluster + q / 512 |
| FatLayout.TableBytes | ntoskrnl/drv/filesystem/fat32/fat32.c:570-584 | entry j on disk is four bytes, lowest first, at 4 * (j % 128) of sector j / 128 of the table |
| FatDisk.Disk.FlushFAT | ntoskrnl/drv/filesystem/fat32/fat32.c:43-50 | the first table on disk decodes to the table in memory; clusters stay |
| FatDisk.Disk.LoadFAT | ntoskrnl/drv/filesystem/fat32/fat32.c:570-584 | the table in memory becomes what the first table on disk decodes to |
| FatDisk.Disk.PutCluster | ntoskrnl/drv/filesystem/fat32/fat32.c:159-169 | exactly that cluster changes |
| FatTable.FirstFreeIs | ntoskrnl/drv/filesystem/fat32/fat32.c:251-271 | the entry that the search takes is the first free one from the hint on, or if there is none the first one from 0 |
| FatDisk.Disk.AllocCluster | ntoskrnl/drv/filesystem/fat32/fat32.c:246-273 | 0 exactly when all of the table is full, spare entries included; else the first free entry from the hint on, or from 0; marked as an end, cleared on disk, hint behind it, spare entries as before; one cluster less before the search leaves the volume |
| FatDisk.Disk.ZeroFatChain | ntoskrnl/drv/filesystem/fat32/fat32.c:800-814 | ends on every table, circles included; entries only become 0; on a chain exactly its clusters are freed; the table is flushed |
| FatDisk.ZeroStep | ntoskrnl/drv/filesystem/fat32/fat32.c:807-812 | each round frees an entry or stops, so the loop ends on any table |
| FatDisk.Disk.GetFreeClusters | ntoskrnl/drv/filesystem/fat32/fat32.c:1125-1141 | counts the free entries |
| FatFiles.EmptyVolumeOk | ntoskrnl/drv/filesystem/fat32/fat32.c:608-615 | a volume with a cleared directory in cluster 2 and all else free meets the invariant, lists nothing, and has all but three entries free |
| FatFiles.AllocOk | ntoskrnl/drv/filesystem/fat32/fat32.c:246-273 | taking a free cluster keeps table, directory and files in agreement |
| FatFiles.ExtendDirOk | ntoskrnl/drv/filesystem/fat32/fat32.c:404-413 | a directory grown by a cleared cluster lists the same |
| FatFiles.AppendOk | ntoskrnl/drv/filesystem/fat32/fat32.c:976-998 | one round of the write loop: the chain under construction grows by one cluster with those bytes, nothing else changes |
| FatFiles.InsertOk | ntoskrnl/drv/filesystem/fat32/fat32.c:1001-1023 | writing the directory cluster makes the new chain the file of exactly one new entry |
| FatFiles.RemoveOk | ntoskrnl/drv/filesystem/fat32/fat32.c:860-861 | writing the directory cluster back takes exactly one entry away |
| FatFiles.FreeOk | ntoskrnl/drv/filesystem/fat32/fat32.c:866 | freeing the removed file's chain keeps the table partitioned and the listing |
| FatVolume.Volume.ReadFile | ntoskrnl/drv/filesystem/fat32/fat32.c:901-928 | exactly file_size bytes; byte q is byte q % cluster size of cluster q / cluster size of the entry's chain |
| FatVolume.Volume.PopulateDir | ntoskrnl/drv/filesystem/fat32/fat32.c:743-798 | lists exactly the groups of all clusters of the directory; ShortSlotListed, GroupReadsBack and LongNameBytes say what a group lists |
| FatVolume.RequiredClusters | ntoskrnl/drv/filesystem/fat32/fat32.c:941-943 | the fewest clusters that hold the file, at least one |
| FatVolume.Volume.LocateEntries | ntoskrnl/drv/filesystem/fat32/fat32.c:360-418 | the first free run of the directory; if there is none the directory grows by exactly one cleared cluster, or the call fails with nothing changed because the table is full |
| FatVolume.Volume.WriteData | ntoskrnl/drv/filesystem/fat32/fat32.c:963-998 | a new chain of exactly the required clusters holds the file followed by zeros |
| FatVolume.Volume.WriteFile | ntoskrnl/drv/filesystem/fat32/fat32.c:930-1025 | exactly one listing more with that name, size and first cluster, whose chain holds the file; slots and checksums as written, in slots that were free, with every other byte of the directory as it was; every other chain keeps its bytes; free clusters counted, spare entries untouched; disk table equals memory |
| FatVolume.WrittenMeans | ntoskrnl/drv/filesystem/fat32/fat32.c:930-1025 | the same entry by entry and byte by byte: one entry with name, attributes, first cluster and size at a place, the others around it; the new chain has the fewest clusters, holds the file cluster by cluster and zeros behind it; other chains keep theirs |
| FatVolume.Volume.DeleteFile | ntoskrnl/drv/filesystem/fat32/fat32.c:820-885 | the first entry of that name and its chain go, or nothing changes exactly if there is none; of all bytes of all clusters only the slots of that entry change, to 0; disk table equals memory |
| FatVolume.DeletedMeans | ntoskrnl/drv/filesystem/fat32/fat32.c:820-885 | the same entry by entry: the least entry of that name is gone, exactly the table entries of its chain are 0, all others and the clusters of all other chains are as before |
| FatVolume.Volume.WriteThenRead | ntoskrnl/drv/filesystem/fat32/fat32.c:901-1025 | a file written under a new name is found by it and reads back byte for byte, for every length |
| FatVolume.Volume.WriteThenDelete | ntoskrnl/drv/filesystem/fat32/fat32.c:820-1025 | listing, files and chains are restored; the free clusters too, less one if the directory grew |
| FatStream.File.constructor | ntoskrnl/drv/filesystem/fat32/file.c:108-117 | a fresh stream stands at 0 with the first cluster loaded; its content is file_size bytes, byte q from cluster q / cluster size of the chain |
| FatStream.File.Read | ntoskrnl/drv/filesystem/fat32/file.c:131-186 | ends, and returns the least of what is asked for and what is left, byte k of it being byte fptr + k of the content; fptr moves on by as much |
| FatStream.File.ReadMany | ntoskrnl/drv/filesystem/fat32/file.c:131-186 | reads of whole clusters one after the other give the bytes of one read of the sum of their lengths |
| FatStream.Boundary | ntoskrnl/drv/filesystem/fat32/file.c:149-182 | after whole clusters the buffer index is 0 or the cluster size |
| FatStream.ScaledOffset | ntoskrnl/drv/filesystem/fat32/file.c:11-177 | the word-scaled buffer offset is right for every buffer exactly at the start of a cluster, or if nothing is copied |
| Pmm.OneBit | ntoskrnl/mm/pmm.c:9-11 | BIT_SET and BIT_CLEAR change the bit that BIT_TEST reads and no other bit of the byte |
| Pmm.BitChanged | ntoskrnl/mm/pmm.c:9-11 | exactly one frame changes between used and free |
| Pmm.FrameAllocator.FreePage | ntoskrnl/mm/pmm.c:18-23 | exactly that frame becomes free |
| Pmm.FrameAllocator.AllocPage | ntoskrnl/mm/pmm.c:25-30 | exactly that frame is taken |
| Pmm.FrameAllocator.Pmalloc | ntoskrnl/mm/pmm.c:44-66 | the lowest free frame is taken and no other; it halts exactly when none is free |
| Pmm.HighestBounds | ntoskrnl/mm/pmm.c:84-97 | no usable, reclaimable or kernel region ends above the highest address |
| Pmm.HighestIsOne | ntoskrnl/mm/pmm.c:84-97 | and it is the end of a counted region, or 0 if there is none |
| Pmm.BitmapCovers | ntoskrnl/mm/pmm.c:99 | the bitmap has a bit for every frame exactly if the frame count is a multiple of 8 or the byte count no multiple of a page |
| Pmm.InitializePmm | ntoskrnl/mm/pmm.c:80-122 | exactly the whole pages of usable regions are free, less what the bitmap took from the first region that holds it |
| Pmm.UsableFrames | ntoskrnl/mm/pmm.c:116-119 | the frames of a usable region are those from base / 4096, as many as length / 4096 |
| VmmState.FlagsKeepFrame | ntoskrnl/mm/vmm.c:25 | flags below a page leave the frame in an entry as it is, whatever the low bits of the address |
| VmmState.OrBits | ntoskrnl/mm/vmm.c:53-54 | bit k of an entry is set exactly if it is set in the address or in the flags, for every k |
| VmmState.FlagsAdd | ntoskrnl/mm/vmm.c:53-54 | for an address on a page boundary the entry is its sum with the flags |
| VmmState.TranslationsAreFrames | ntoskrnl/mm/vmm.c:39-59 | the plain map is the map of the whole entries without their flags |
| VmmState.IndicesOf | ntoskrnl/mm/vmm.c:44-47 | the four bit fields of an address are those of its page number |
| VmmState.IndicesTell | ntoskrnl/mm/vmm.c:44-47 | pages with the same four indices are the same |
| VmmState.PathUnique | ntoskrnl/mm/vmm.c:14-29 | a last-level table is reached by one path, of one pagemap or, in the upper half, of all |
| VmmState.TableAddedOk | ntoskrnl/mm/vmm.c:22-26 | putting a free frame in as a missing table keeps every table's one parent |
| VmmState.TableAddedKeeps | ntoskrnl/mm/vmm.c:22-26 | and changes no translation of any pagemap |
| VmmState.NewTableShowsItsFrame | ntoskrnl/mm/vmm.c:24 | a new table answers with what its frame held, so an unmapped page stays unmapped exactly if that entry is not present |
| VmmState.OnePageChanges | ntoskrnl/mm/vmm.c:53-54 | writing a page's entry changes that page only, for its own pagemap in the lower half and for all in the upper; both in the map of entries and in that of frames |
| VmmState.RootAddedOk | ntoskrnl/mm/vmm.c:165-173 | a top level with the kernel's upper entries keeps the invariant of all tables |
| VmmState.RootAddedMaps | ntoskrnl/mm/vmm.c:165-173 | it translates the kernel's upper half and nothing else; other pagemaps are unchanged |
| VmmState.UpperHalfAgrees | ntoskrnl/mm/vmm.c:162-189 | in every state that the operations keep, every pagemap agrees with the kernel's on every upper-half page |
| Vmm.PageTables.GetNextLevel | ntoskrnl/mm/vmm.c:14-29 | the table that a present entry names, or else the lowest free frame linked in as its address plus the flags; the state after is given exactly |
| Vmm.PageTables.MapPage | ntoskrnl/mm/vmm.c:39-59 | the page's entry in the pagemap is the address plus the flags, if that is on a page boundary, and no other page's changes; in other pagemaps only if the page is in the upper half; new tables are linked with the same flags; it can fail only with fewer than three free frames |
| Vmm.PageTables.UnmapPage | ntoskrnl/mm/vmm.c:61-79 | exactly that page leaves the map of entries, that of the others only in the upper half |
| VmmState.PageShowsFrame | ntoskrnl/mm/vmm.c:14-96 | the words at the address of a page read as the entries of a table, whatever the other frames hold, exactly if the loaded pagemap maps the page to the table's frame |
| Vmm.PageTables.VirtToPhys | ntoskrnl/mm/vmm.c:81-96 | what comes of the word that the loaded pagemap shows at the last-level table's physical address, or a fault; that is the mapped frame or 0 if the table's frame is mapped to itself; no translation of any pagemap changes though tables may be added |
| Vmm.PageTables.MapThenTranslate | ntoskrnl/mm/vmm.c:39-96 | after mapping a page, an address of it translates to the start of the page that the physical address lies in, where the last-level table can be read |
| Vmm.PageTables.UnmapThenTranslate | ntoskrnl/mm/vmm.c:61-96 | after unmapping it, to 0 |
| Vmm.KernelMapSees | ntoskrnl/mm/vmm.c:184-203 | the map made at start-up maps exactly frames 1 to 2^20 - 1 to themselves, and the same ones at PHYS_MEM_OFFSET |
| Vmm.NewMapSees | ntoskrnl/mm/vmm.c:162-182 | a new pagemap maps exactly the frames of the framebuffer to themselves, and keeps the copy at PHYS_MEM_OFFSET |
| Vmm.PageTables.CreateNewPagemap | ntoskrnl/mm/vmm.c:162-182 | under a loaded pagemap that shows all tables, a new pagemap with the entries of the kernel's upper half and the framebuffer mapped to itself with flags 7 and nothing else; all others unchanged |
| Vmm.PageTables.InitializeVmm | ntoskrnl/mm/vmm.c:184-203 | all upper entries are filled, and the kernel's map is exactly the identity below 4 GiB less page 0 and its copy at PHYS_MEM_OFFSET, both with flags 3, and the image at KERNEL_MEM_OFFSET with flags 7 |
| PrintfText.DigitsReadBack | ntoskrnl/lib/printf.c:408-416 | the digits emitted, read in order, are the value, in every base up to 16 |
| PrintfText.DigitsFit | ntoskrnl/lib/printf.c:388-416 | a 64-bit value has at most 22 digits in base 8 and above, so the buffer holds them |
| PrintfStandard.TakesBackZeros | ntoskrnl/lib/printf.c:331-346 | making room for a hexadecimal prefix removes up to two padding zeros and never a digit |
| PrintfStandard.MeetsStandard | ntoskrnl/lib/printf.c:265-419 | the code's text is the standard's whenever sign, prefix, zeros and digits fit 32 characters |
| PrintfStandard.NtoaIsStandard | ntoskrnl/lib/printf.c:298-419 | exactly when the two texts are equal: the number fits, or it is one too long with a space for its sign and a space of padding before it |
| PrintfStandard.ModerateFits | ntoskrnl/lib/printf.c:298-419 | width and precision up to 29 always fit, and the text is at least as long as the width |
| PrintfStandard.BodyReadsBack | ntoskrnl/lib/printf.c:386-419 | the digits of the text, padding zeros and octal prefix included, read back as the value |
| Printf.NtoaAbs | ntoskrnl/lib/printf.c:144-147 | the absolute value, also of the lowest signed one |
| Printf.OutRev | ntoskrnl/lib/printf.c:265-294 | the buffer reversed, padded to the width on the side that the flags say |
| Printf.NtoaFormat | ntoskrnl/lib/printf.c:298-382 | never indexes the buffer past 31, and puts out the assembled number |
| Printf.Ntoa | ntoskrnl/lib/printf.c:386-419 | puts out the text that the standard lemmas are about |
| PrintfDirective.NumberRead | ntoskrnl/lib/printf.c:253-261 | _atoi takes all the digits there are and gives their value, however many, modulo 2^32 |
| Printf.Atoi | ntoskrnl/lib/printf.c:253-261 | the loop computes the function that NumberRead is about |
| Printf.ReadDirective | ntoskrnl/lib/printf.c:899-990 | the steps compute the function that ParseWritten and ReadingAgrees are about |
| PrintfDirective.ParseWritten | ntoskrnl/lib/printf.c:899-990 | wherever a directive of the standard stands, its flags, width, precision, size and conversion character are recovered from the text, numerals modulo 2^32 and a negative `*` precision as 0 |
| PrintfDirective.ReadingAgrees | ntoskrnl/lib/printf.c:899-990 | that is the reading of the standard exactly if both numerals are below 2^32 and no `*` gives a negative precision |
| PrintfDirective.ZeroPrecisionTexts | ntoskrnl/lib/printf.c:386-419 | precision 0 instead of none gives the same text exactly if a digit is shown anyway and no zeros are padded |
| PrintfDirective.IntegerDirective | ntoskrnl/lib/printf.c:899-1083 | for d, i, u, o, x and X in any format the output is the text that the standard asks for, read its way, exactly if both numerals are below 2^32 and the number is within the condition of NtoaIsStandard, or, for a negative `*` precision, within that of ZeroPrecisionTexts |
| PrintfWritten.DigitValues | ntoskrnl/lib/printf.c:412-413 | what each of the sixteen digits counts, in small and in capital letters |
| PrintfWritten.FieldsWritten | ntoskrnl/lib/printf.c:915-957 | which arguments the stars take, and that they are ints |
| PrintfWritten.IntegerWritten | ntoskrnl/lib/printf.c:993-1083 | the standard's text, letter by letter: d, i and u write digits that read in base 10, o in base 8, x with a to f and X with A to F in base 16; what they read as is the argument modulo 2^8, 2^16, 2^32 or 2^64 by length modifier, signed for d and i only; sign, prefix, zeros and spaces are those of the flags, width and precision |
| PrintfWritten.IntegerComesOut | ntoskrnl/lib/printf.c:899-1083 | the same of what the code writes, wherever its text is the standard's |
| PrintfWritten.ModerateAgrees | ntoskrnl/lib/printf.c:899-1083 | which it is for every width and precision from 0 to 29, negative widths included |
| PrintfWritten.BinaryWritten | ntoskrnl/lib/printf.c:1013-1016 | b writes an unsigned int in base 2 |
| PrintfDirective.NegativePrecisionLosesZero | ntoskrnl/lib/printf.c:945-950 | `%.*d` with -1 and 0 writes nothing where the standard asks for 0 |
| PrintfDirective.StringDirective | ntoskrnl/lib/printf.c:899-1166 | a string of less than 2^32 characters comes out as the standard asks exactly if the width is below 2^32 and, where a long or negative precision cuts it too early, the width holds it and padding stands in for what is cut off: spaces behind the cut, or on the right nothing but spaces |
| PrintfWritten.StringWritten | ntoskrnl/lib/printf.c:1129-1166 | the standard's text: all of the string, or as many characters as the precision says, in the width, on the side that the flags and the sign of the width say |
| PrintfWritten.NullWritten | ntoskrnl/lib/printf.c:1128-1134 | a null pointer shows as (null) in the width, whatever the precision |
| PrintfDirective.PlainStringAgrees | ntoskrnl/lib/printf.c:899-1166 | numerals below 2^32 and no negative `*` are enough for that |
| PrintfDirective.NegativePrecisionHidesString | ntoskrnl/lib/printf.c:945-950 | `%.*s` with -1 shows nothing where the standard asks for the whole string |
| PrintfPieces.CharDirective | ntoskrnl/lib/printf.c:899-1127 | a character comes out as the standard asks exactly if the width is below 2^32 |
| PrintfWritten.CharWritten | ntoskrnl/lib/printf.c:1103-1126 | it is the lowest byte of the argument, in the width |
| PrintfPieces.FormatIsStandard | ntoskrnl/lib/printf.c:872-1208 | a format of literal text, `%%` and directives gives the standard's texts one after the other, each directive with its own arguments, if each of them comes out as the standard asks |
| PrintfFormat.RenderEnds | ntoskrnl/lib/printf.c:883-1208 | whether a format is read past its NUL, because it breaks off in a directive, depends on the format alone |
| Printf.Sink.Put | ntoskrnl/lib/printf.c:195-201 | the buffer holds the first characters of the text and is untouched from its bound on |
| Printf.Convert | ntoskrnl/lib/printf.c:993-1207 | one directive puts out its text |
| Printf.Vsnprintf | ntoskrnl/lib/printf.c:872-1215 | the buffer gets the first min(L, n - 1) characters of the text and NUL, nothing at or past n is written, and L is returned, as an int from 2^31 on, the same for every n and every buffer |
| Scheduler.StepOk | ntoskrnl/ps/sched.c:21-124 | the first count slots are exactly the initialised ones and at most one runs, after every load and tick |
| Scheduler.StepCurrent | ntoskrnl/ps/sched.c:21-124 | loads do not disturb who runs, and a tick runs whom it dispatches |
| Scheduler.TickedSlots | ntoskrnl/ps/sched.c:21-105 | a tick slot by slot: pid, page map and flags stay, the running slot is stopped with the given registers, and the next slot in use runs, slot 0 after the last or if none ran; nothing changes with no task or with one that runs |
| Scheduler.NextInTurn | ntoskrnl/ps/sched.c:43-88 | after any loads the next dispatch goes to the next slot in use, from the last one, slot 63 included, to slot 0 |
| Scheduler.DispatchedSoon | ntoskrnl/ps/sched.c:21-105 | over every run every loaded slot is dispatched by one of the next 64 ticks, unless it runs alone |
| Scheduler.LoneTaskRunsOn | ntoskrnl/ps/sched.c:44-103 | that exception is real |
| Scheduler.ResumesWhereItStopped | ntoskrnl/ps/sched.c:54-103 | over every run a slot holds the registers of its last preemption, or of its load |
| Scheduler.NextStopped | ntoskrnl/ps/sched.c:61-85 | the first stopped slot behind i, from 0 again if there is none; nothing is looked at behind slot 63 |
| Scheduler.NextFound | ntoskrnl/ps/sched.c:59-85 | in a proper queue that is the successor of the slot just stopped |
| Scheduler.Scheduler.ScheduleThreads | ntoskrnl/ps/sched.c:21-105 | one tick, as TickedSlots says, with the slot switched to and the registers it resumes with |
| Scheduler.Scheduler.LoadTask | ntoskrnl/ps/sched.c:107-124 | slot count takes pid, registers, page map and flags of the task, stopped, and no other slot changes; a full queue changes nothing |
| Scheduler.Scheduler.ThreadsInit | ntoskrnl/ps/sched.c:126-137 | all slots are uninitialised, which is a proper queue exactly if the count was 0, since it is not reset |

## Left out

- Locks: `ntoskrnl/ke/mutex.c` takes a mutex by value and so locks a copy; every operation here is atomic.
- The page hooks of `ntoskrnl/mm/heap.c` and requests for more than one frame in `ntoskrnl/mm/pmm.c`: they do not meet what their callers rely on.
- Liballoc.Heap.Realloc: the branch that goes on after finding a bad magic number, and the write through NULL when the inner malloc fails, are not modelled.
- Headers of the heap are kept in maps by address and the other bytes of memory in a sequence, so a stray write over a live header is not expressed; headers under a new block are dropped from the map; calloc would only add an easy member.
- FAT32 buffers of one cluster that are only read, and `currbuf`, are sequences; directory entries are read into values, and their names are not freed.
- FatDisk.Disk.GetSector: the disk layer below it is exact; `ntoskrnl/drv/filesystem/ata.c:181` is so only for one sector per cluster.
- FatVolume.Volume.WriteFile: the case that no cluster is left for the directory is excluded, since the code goes on with the null pointer that LocateEntries gives it; the path with a cluster set by the caller, which nothing uses, and FatMakeDirectory are not modelled.
- FatVolume.Volume.PopulateDir: groups that span two clusters are not modelled; the writer never makes one.
- FatInitialize but for its load loop, partition lookup, drive letters, path lookup and the wrappers above it.
- FatStream.File.Read: reads that begin inside a cluster are excluded, since the offset into `currbuf` is scaled by 4; `FatStream.ScaledOffset` says when that matters.
- Vmm.PageTables.CreateNewPagemap: the framebuffer's physical address lies in the lower half; above it the loop would map into all pagemaps.
- Page contents other than tables, how the processor combines the flags of the four levels, vmm_memcpy, the TLB and the load of CR3; 64-bit wrap-around of addresses.
- Printf.Vsnprintf: f, F, e, E, g, G and p end the modelled run with `Elsewhere`, and a read past the format's NUL with `Overrun`; up to there every write is still within bounds. The counter does not wrap at 2^64.
- PrintfDirective.StringDirective: strings of 2^32 characters and more, whose length the code cuts off to an unsigned int.
- PrintfDirective.ParseWritten: the directives are those of the standard with the conversions that the code has itself; malformed ones are only followed, by `PrintfFormat.Parse` and `Render`.
- PrintfStandard.NtoaIsStandard: base 2 is followed by the code model, but the standard of 2011 has no such conversion.
- printf's other output functions, and how va_list fetches arguments: an argument is a 64-bit word or a string with its NUL. `long` has 64 bits.
- Scheduler: the register switch itself, page maps and interrupt acknowledgement; the messages of all components.
- ATA, AHCI, PCI, ACPI, PIT, input, video, windows, ELF, ustar, IDT, GDT and assembly: hardware, user interface or unfinished code.
