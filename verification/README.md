# A verified model of the kernel's stateful core

This project models six parts of a small x86_64 kernel and proves what they are for.

- **FAT32 volume** (`Fat*.dfy`). The disk is a sequence of 512-byte sectors. The allocation table, the
  cluster contents, the bytes of a file and the listing of a directory are functions of it, and every driver
  routine is a method on the sectors proved against them. Formats follow the Microsoft FAT Specification
  (2005), sections 4 to 7.
- **Memory stack** (`Pmm.dfy`, `HeapSpec.dfy`, `Heap.dfy`, `VmmSpec.dfy`, `Vmm.dfy`, `Elf.dfy`). The frame
  bitmap stands for a sequence of used marks; the heap's block list tiles the pages it owns; the four-level
  page tables (section 4.5 of the Intel SDM, volume 3A) refine a flat map from pages to entries, for all
  pagemaps at once; the ELF loader puts file bytes behind that map.
- **Scheduler and big kernel lock** (`SchedSpec.dfy`, `Sched.dfy`, `Lock.dfy`). The ring is a circular doubly
  linked list of objects whose contents step exactly as a machine over sequences does; safety, bounded bypass
  and the reaper are proved of that machine. The lock protocol is a second machine, one memory access per
  step, with the timer interrupt free to strike between any two.
- **Undo log over a write-back cache** (`UndoLog.dfy`). A one-block dirty cache agrees with a flat byte array,
  and the saved-data log replayed backwards restores the device.
- **Dirty rectangle** (`GpipeSpec.dfy`, `Gpipe.dfy`). No interleaving of drawing, taking and row-by-row
  presenting loses a pixel.
- **Line drawing** (`LineSpec.dfy`, `Gpipe.dfy`). The integer line loop ends where it should, in as many steps
  as it should, half a pixel at most off the line.

Three shapes recur. A `...Spec` module holds values, functions and lemmas. A class holds the state that the
kernel updates in place; each of its methods ties the new state to a specification function of the old one.
Chains, ring positions and tree owners that the code never stores are ghost parameters or ghost fields.

Sector and device I/O succeed. Outcomes of `kmalloc` and `malloc` that a routine outside the heap sees, and
clock readings, are inputs. Machine integers are unbounded unless wrap-around can be reached; there it is
written out (`Heap.Round`, `Heap.PagesFor`, `FatFile.ReadLength`, `FatFile.Resized`, the byte counter of the heap,
the range checks of `Vmm`, the 32-bit file offsets of `Elf`).

## Properties that the code does not have

Each comes with the exact condition under which it holds, and with an input for which it fails.

- `fat32_file_write` computes the end of the write in 32 bits. The file's contents are the old ones with the
  written bytes in place if and only if the end fits (`FatFile.WriteOnVolume`, `FatFile.WriteContents`; an input
  that fails: `FatFile.WritePastLimit`).
- `fat32_file_read` computes `off + len` in 32 bits. A read is right if and only if that sum does not wrap or
  the file fills its clusters (`FatFile.ReadContents`; an input that fails: `FatFile.ReadPastEnd`).
- `free_chain` on a cyclic or broken chain still frees exactly what is reachable, but leaves the free count one
  too high; it is exact if and only if the walk is clean (`FatVolume.Volume.FreeChain`; an input that fails:
  `FatTable.SelfLink`).
- A leaf with a long name is inserted into the listing if and only if the short name made for it is one that the
  scan shows (`FatCreate.CreateEntry`, with `FatShortName.ShortOfShown` and `FatShortName.CandidateShown` for
  which leaves those are; inputs that fail: `FatShortName.HiddenLeaves`, `FatCreate.UnlistedLeaf`).
- `pmm_init` counts free pages region by region: right if and only if no two usable regions overlap
  (`Pmm.Allocator.Init`, `MemoryMap.TotalCounts`; an input that fails: `MemoryMap.OverlapMiscounts`).
- `kmalloc` rounds up in 64 bits: it has room for the request if and only if that does not wrap
  (`Heap.RoundFits`, `Heap.PagesForFits`, both over every size).
- `vmm_virt_to_phys` and `vmm_destroy_pagemap` keep bit 63 of a leaf: the frame comes out right if and only if
  the page is executable, and the frame of any other page is not freed (`Vmm.HighPartExact`,
  `Vmm.HighPartLeaks`; an input that fails: `Vmm.HighPartWrong`).
- `gpipe_mark_dirty` stores four fields. A take loses nothing if and only if it does not come between them, which
  is so when marking is done under the lock or by a task that the timer does not preempt (`GpipeSpec.TornMark`;
  an input that fails: `GpipeSpec.LostSquare`).
- The repository's README says that executable segments are never writable. A segment's pages are both if and
  only if its header asks for both (`Elf.WriteXorExecute`).
- A task that sleeps zero milliseconds at uptime zero is never woken (`SchedSpec.NeverWoken`); every other
  sleeper is, at the first call that is not too early (`SchedSpec.ScheduleSafe`).
- A task that asks for the lock while it holds it never gets it (`Lock.ReentryStuck`; a run that gets there:
  `Lock.ReentryReached`).

## Model

| member | source | states |
|---|---|---|
| FatLayout.Geometry.FatLbaInjective | kernel/src/fs/fat32.c:157-185 | table sectors of different copies or indices are different sectors |
| FatLayout.Geometry.LbaDisjoint | kernel/src/fs/fat32.c:153-155 | sectors of different clusters are different sectors |
| FatLayout.FatIsFlat | kernel/src/fs/fat32.c:157-168 | with every copy of the table taken as one run of bytes, entry c is the low 28 bits of the little-endian word at byte 4c |
| FatLayout.ClusterIsFlat | kernel/src/fs/fat32.c:153-155 | byte i of cluster c lies in sector fat_start + num_fats * fat_size + (c - 2) * sectors_per_cluster + i / 512 |
| FatTable.ZerosCounted | kernel/src/fs/fat32.c:248-251 | the free count is the number of clusters from 2 on whose entry is zero |
| FatTable.WalkedEnd | kernel/src/fs/fat32.c:1001-1010 | a zeroing walk that comes to rest has zeroed exactly what was reachable from its start |
| FatTable.WalkedBump | kernel/src/fs/fat32.c:1001-1010 | a zeroing walk that meets a zero was cyclic or broken, and has zeroed exactly what was reachable |
| FatTable.ChainIsClean | kernel/src/fs/fat32.c:1001-1010 | from the head of a chain exactly the chain's clusters are reachable, and the walk ends |
| FatTable.SelfLink | kernel/src/fs/fat32.c:1001-1010 | a table for which the walk is not clean: one cluster linked to itself |
| FatTable.ChainUnique | kernel/src/fs/fat32.c:273-306 | a first cluster determines the chain |
| FatVolume.TablePatched | kernel/src/fs/fat32.c:170-185 | patching one sector in every copy sets one entry and keeps the copies equal |
| FatVolume.BytesPatched | kernel/src/fs/fat32.c:170-185 | that patch, on the bytes of any copy: only bytes 4c to 4c + 3 change, and not the top four bits |
| FatVolume.Volume.Mount | kernel/src/fs/fat32.c:203-225 | no FSInfo for sector numbers 0 and 0xFFFF; otherwise counters and hint come from a signed FSInfo sector and only from one; a hint below 2 or unknown is not honoured |
| FatVolume.Volume.FatGet | kernel/src/fs/fat32.c:157-168 | the low 28 bits of the four little-endian bytes from byte 4c of the table on, in every copy alike |
| FatVolume.Volume.FatSet | kernel/src/fs/fat32.c:170-185 | exactly one entry of the table changes, in all copies; in each copy only its four bytes do, and not their top four bits; clusters and FSInfo do not |
| FatVolume.Volume.FsinfoSave | kernel/src/fs/fat32.c:187-201 | afterwards the disk says what memory says, or the sector was not signed |
| FatVolume.Volume.FindFree | kernel/src/fs/fat32.c:231-246 | the first free cluster from the hint on, else the first before it; none only if no entry is zero |
| FatVolume.Volume.AllocCluster | kernel/src/fs/fat32.c:231-254 | the first free cluster from the hint on, else the first before it, becomes an end of chain and nothing else changes; 0 only on a full disk, with nothing changed; an exact count stays exact |
| FatVolume.Volume.FreeWalk | kernel/src/fs/fat32.c:1001-1010 | ends on every in-range table; zeroes exactly what is reachable; the count is exact if and only if the walk is clean |
| FatVolume.Volume.FreeChain | kernel/src/fs/fat32.c:1001-1010 | the same, with FSInfo saved |
| FatVolume.Volume.ReadCluster | kernel/src/fs/fat32.c:141-145 | the bytes of the cluster |
| FatVolume.Volume.WriteCluster | kernel/src/fs/fat32.c:147-151 | exactly that cluster's bytes change; table and FSInfo do not |
| FatContent.OtherChainKept | kernel/src/fs/fat32.c:308-371 | a chain apart from one that grew and was written is still a chain with the same bytes |
| FatContent.ChainAppend | kernel/src/fs/fat32.c:353-362 | linking a free cluster behind the last gives a longer chain and touches no other entry |
| FatContent.WrittenMore | kernel/src/fs/fat32.c:339-363 | a chunk written behind another extends it |
| FatFile.Follow | kernel/src/fs/fat32.c:323-334 | the next cluster, the chain grown by a free one at its end; 0 only on a full disk |
| FatFile.Seek | kernel/src/fs/fat32.c:320-334 | arrives at the cluster and offset of the byte, or the disk is full |
| FatFile.Transfer | kernel/src/fs/fat32.c:336-364 | the chain's bytes are the old ones with the first `done` bytes of the buffer written over them; short only on a full disk |
| FatFile.UpdateDirentCluster | kernel/src/fs/fat32.c:256-263 | only the cluster field of that directory entry changes |
| FatFile.UpdateDirentSize | kernel/src/fs/fat32.c:265-271 | only the size field of that directory entry changes |
| FatFile.EnsureStart | kernel/src/fs/fat32.c:314-319 | a file without clusters gets one, also in its directory entry; fails only on a full disk |
| FatFile.FileWrite | kernel/src/fs/fat32.c:308-371 | for every offset and length: the chain grows only over free clusters; its bytes change exactly at [off, off+done); no other cluster but the directory entry's changes; node and directory entry agree; the size is raised to the 32-bit end of the write; an exact free count stays exact; short only on a full disk or without a buffer |
| FatFile.ReadLoop | kernel/src/fs/fat32.c:293-303 | the slice of the chain's bytes |
| FatFile.FileRead | kernel/src/fs/fat32.c:273-306 | the slice of the file's bytes of the length that the 32-bit clamp gives |
| FatFile.WriteThenRead | kernel/src/fs/fat32.c:273-371 | a read returns exactly the bytes that the write before it reported as written if and only if nothing was written, the end fits 32 bits, or the file reached beyond the offset before; otherwise it returns nothing |
| FatFile.WriteOnVolume | kernel/src/fs/fat32.c:308-371 | on a well-formed volume, for every length: the file shows the old contents with [off, off+done) replaced, as far as its size admits, and all of it if and only if off + done fits 32 bits; every other file keeps chain and contents, and the volume stays well-formed, also when growth stops early |
| FatFile.WriteContents | kernel/src/fs/fat32.c:308-371 | at an offset within the file, the contents are the old ones with exactly [off, off+done) replaced if and only if off + done fits 32 bits, and cut at the size in any case |
| FatFile.WritePastLimit | kernel/src/fs/fat32.c:366-369 | an input for which all bytes are reported as written and the file is as it was |
| FatFile.Resize | kernel/src/fs/fat32.c:366-369 | node and directory entry get the 32-bit end of the write if that is greater than the size |
| FatFile.ReadContents | kernel/src/fs/fat32.c:276-277 | a read returns the file's bytes if and only if off + len fits 32 bits or the file fills its clusters |
| FatFile.ReadPastEnd | kernel/src/fs/fat32.c:276-277 | an input for which a read returns a byte past the end |
| FatFile.WriteKeepsVolume | kernel/src/fs/fat32.c:308-371 | a write keeps all chains acyclic, in range, long enough and disjoint, and every other file's chain and bytes |
| FatListing.ScanEntered | kernel/src/fs/fat32.c:871-943 | scanning a long-name run and its short entry lists one item under the leaf's own name, whatever was scanned before |
| FatListing.InsertListing | kernel/src/fs/fat32.c:638-675 | a run written into free slots inserts exactly that leaf if and only if its short entry is shown; nothing live comes to lie behind an end mark |
| FatListing.RemoveListing | kernel/src/fs/fat32.c:1017-1087 | marking a shown entry and long-name entries before it takes exactly that item out of the listing |
| FatListing.GatherChunk | kernel/src/fs/fat32.c:914-924 | gathering undoes filling: thirteen stored characters come back in place |
| FatDirEntry.FieldBytes | kernel/src/fs/fat32.c:45-59 | first cluster and size by their bytes: the low half of the cluster at 26, the high half at 20, the size at 28 |
| FatListing.CharOffsets | kernel/src/fs/fat32.c:61-70 | the thirteen characters lie at 1 to 9, 14 to 24 and 28 to 30 |
| FatListing.ShownBytes | kernel/src/fs/fat32.c:893-932 | by its bytes, exactly which entries the scan lists |
| FatListing.ChecksumNotices | kernel/src/fs/fat32.c:606-611 | changing any one character of a name of any length changes its checksum |
| FatListing.ChecksumOfReadme | kernel/src/fs/fat32.c:606-611 | the checksum of README.TXT is 0x73 |
| FatShortName.ToShortName | kernel/src/fs/fat32.c:395-413 | the upper-case 8.3 form: eight characters before the first dot and three after it, padded |
| FatShortName.ShortBase | kernel/src/fs/fat32.c:395-403 | each of the first eight characters is the upper-case one at its place before the dot, or a space |
| FatShortName.ShortExt | kernel/src/fs/fat32.c:405-412 | each of the last three is the upper-case one at its place after the first dot, or a space |
| FatShortName.UpperLetters | kernel/src/fs/fat32.c:390-393 | a to z become A to Z, nothing else changes |
| FatShortName.ShortReadsBack | kernel/src/fs/fat32.c:373-413 | a name comes back from its short form if and only if it has at most eight and three characters, no space, no lower-case letter and no dot without extension |
| FatShortName.BaseUpper | kernel/src/fs/fat32.c:415-422 | the upper-case base without spaces, cut at the given length |
| FatShortName.BaseParts | kernel/src/fs/fat32.c:415-422 | the base of a name is put together from the bases of its parts |
| FatShortName.BaseOne | kernel/src/fs/fat32.c:415-422 | a space gives nothing, any other character its upper case, and a dot ends the base |
| FatShortName.IntToDec | kernel/src/fs/fat32.c:565-572 | decimal digits |
| FatShortName.DecimalInjective | kernel/src/fs/fat32.c:565-572 | different numbers have different digits |
| FatShortName.DecimalValue | kernel/src/fs/fat32.c:565-572 | the digits of a number stand for it |
| FatShortName.CandidatesDiffer | kernel/src/fs/fat32.c:574-604 | the 999 tilde candidates are pairwise distinct for every base |
| FatShortName.CandidateIs | kernel/src/fs/fat32.c:585-598 | as much of the base as fits before the tilde and the number, in eight characters |
| FatShortName.CandidateFree | kernel/src/fs/fat32.c:574-604 | with fewer than 999 live short entries some candidate is not present |
| FatShortName.ShortOfShown | kernel/src/fs/fat32.c:871-943 | exactly which leaves have a plain 8.3 name that the scan shows |
| FatShortName.CandidateShown | kernel/src/fs/fat32.c:574-604 | exactly which leaves have tilde names that the scan shows |
| FatShortName.OrdinaryLeaf | kernel/src/fs/fat32.c:574-604 | a leaf that starts with none of space, dot and 0xE5 has both |
| FatShortName.HiddenLeaves | kernel/src/fs/fat32.c:574-604 | leaves for which one of the two names is not shown |
| FatScan.LfnChecksum | kernel/src/fs/fat32.c:606-611 | the rotating checksum of all eleven characters |
| FatScan.FormatName | kernel/src/fs/fat32.c:373-381 | base, and dot and extension if there is one |
| FatScan.ScanEntry | kernel/src/fs/fat32.c:884-940 | one step of the directory scanner |
| FatScan.ScanDir | kernel/src/fs/fat32.c:871-943 | the listing of the whole chain's entries |
| FatScan.ShortNameExists | kernel/src/fs/fat32.c:543-563 | true exactly if a live short entry has that name |
| FatScan.FindCandidate | kernel/src/fs/fat32.c:585-603 | the first tilde candidate that its search does not find, each search with its own memory; none only with 999 live entries or more |
| FatScan.GenShortName | kernel/src/fs/fat32.c:574-604 | the plain 8.3 name unless that is found, then a tilde name; with fewer than 999 live entries never a name that is present, unless the search for it had no memory |
| FatCreate.SearchSlots | kernel/src/fs/fat32.c:482-515 | the run of free slots found, across cluster boundaries; a short one ends at the directory's end |
| FatCreate.GrowDirectory | kernel/src/fs/fat32.c:516-541 | the directory is longer by a cluster of blank entries, or the disk is full |
| FatCreate.FindFreeDirSlots | kernel/src/fs/fat32.c:482-541 | as many free slots in a row as needed, the directory grown by blanks if it must be; an exact free count stays exact; fails only for too long a run, no buffer or a full disk |
| FatCreate.LfnFillChunk | kernel/src/fs/fat32.c:620-636 | thirteen characters: name, one NUL, filler; the other bytes stay |
| FatCreate.WriteRawEntry | kernel/src/fs/fat32.c:613-618 | exactly that entry of the directory changes |
| FatCreate.WriteRun | kernel/src/fs/fat32.c:655-670 | the run in the slots, numbered down to 1, first one marked, all with the checksum |
| FatCreate.WriteLfnAndShort | kernel/src/fs/fat32.c:638-675 | the listing gains exactly the leaf if and only if the short entry is shown, also across clusters and when the chain grows; other clusters stay; nothing live behind an end mark; an exact free count stays exact; fails only without buffer or on a full disk, with the listing as it was |
| FatCreate.CreateEntry | kernel/src/fs/fat32.c:754-770 | short name and entries together: the listing gains the leaf if and only if the short name that was made is shown, which of the two it is follows from the directory, and a leaf that starts with none of space, dot and 0xE5 is always gained |
| FatCreate.UnlistedLeaf | kernel/src/fs/fat32.c:638-675 | a leaf that is written and not listed |
| FatRemove.LbaToClusterInverts | kernel/src/fs/fat32.c:1012-1015 | the cluster of any sector of a cluster |
| FatRemove.GatherRun | kernel/src/fs/fat32.c:1036-1068 | the long-name entries right before the target; a valid run within the cluster is found whole |
| FatRemove.TombedListing | kernel/src/fs/fat32.c:1017-1087 | removal commutes with listing |
| FatRemove.MarkRemovedWithLfn | kernel/src/fs/fat32.c:1017-1087 | the listing loses exactly the target; a valid run in the target's cluster goes whole; otherwise at most long-name entries right before it |
| FatRemove.FreeFile | kernel/src/fs/fat32.c:1114-1118 | exactly the file's clusters become free; other chains and all contents stay |
| FatRemove.RemoveSingleNode | kernel/src/fs/fat32.c:1114-1123 | exactly the file's clusters become free, the listing loses exactly its entry, and an exact free count stays exact |
| UndoSpec.ReplayReversedAt | kernel/limine-binary/limine.c:328-334 | a reversed replay leaves at each byte what was saved first |
| UndoSpec.ReplayRestores | kernel/limine-binary/limine.c:524-574 | a reversed replay restores the original from any mixture of old and new bytes |
| UndoSpec.SaveKeeps | kernel/limine-binary/limine.c:467-500 | saving what is there before writing keeps the log able to restore |
| UndoDevice.Device.FlushCache | kernel/limine-binary/limine.c:266-285 | the disk becomes what the reader sees |
| UndoDevice.Device.CacheBlock | kernel/limine-binary/limine.c:287-326 | fails exactly past the end; never changes what the reader sees |
| UndoDevice.Device.Read | kernel/limine-binary/limine.c:445-465 | the bytes that the reader sees; fails exactly when the range leaves the device |
| UndoDevice.Device.WriteLoop | kernel/limine-binary/limine.c:502-522 | the flat array with the range written; every disk byte is old, seen before, or in the range |
| UndoDevice.Device.Write | kernel/limine-binary/limine.c:467-522 | all or nothing for the reader; the log can still restore the original |
| UndoDevice.Device.ReverseLog | kernel/limine-binary/limine.c:328-334 | the log reversed in place |
| UndoDevice.Device.RestoreEntry | kernel/limine-binary/limine.c:536-552 | one saved range written back, retry included |
| UndoDevice.Device.RestoreAll | kernel/limine-binary/limine.c:534-553 | the log written back in order, each entry as far as the device reaches |
| UndoDevice.Device.Uninstall | kernel/limine-binary/limine.c:524-574 | the cache is dropped and the disk is the replay of the log |
| UndoDevice.Device.Rollback | kernel/limine-binary/limine.c:524-574 | after any writes, reversal and replay leave every byte of the device as at the start |
| PageMarks.FillCount | kernel/src/mm/pmm.c:125-152 | taking a free run costs exactly its length, giving a used run back regains it |
| PageMarks.ClearCounted | kernel/src/mm/pmm.c:113-115 | the count of free pages is the number of pages not marked |
| PageMarks.TakeThenGive | kernel/src/mm/pmm.c:125-152 | giving back what was taken restores the marks |
| MemoryMap.OpenedAt | kernel/src/mm/pmm.c:69-78 | a page is free exactly if a usable region covers it |
| MemoryMap.NextUnopened | kernel/src/mm/pmm.c:69-78 | a region finds all its pages unopened if and only if it shares none with an earlier one |
| MemoryMap.TotalCounts | kernel/src/mm/pmm.c:69-78 | counting region by region is right if and only if no two regions overlap, and never too low |
| MemoryMap.OverlapMiscounts | kernel/src/mm/pmm.c:69-78 | a map for which the count is too high |
| Pmm.Allocator.BmSet | kernel/src/mm/pmm.c:13-13 | exactly that page is marked used |
| Pmm.Allocator.BmClear | kernel/src/mm/pmm.c:14-14 | exactly that page is marked free |
| Pmm.Allocator.BmGet | kernel/src/mm/pmm.c:15-15 | that page's mark |
| Pmm.BitsChanged | kernel/src/mm/pmm.c:13-15 | setting or clearing a bit of a byte does that and leaves the other seven |
| Pmm.Allocator.Highest | kernel/src/mm/pmm.c:25-37 | the greatest end of a usable region |
| Pmm.Allocator.PlaceBitmap | kernel/src/mm/pmm.c:47-59 | the first usable region above 1 MiB with room, or none has |
| Pmm.Allocator.OpenRegions | kernel/src/mm/pmm.c:69-78 | usable pages are free, no others; the counter is the sum of the regions' pages |
| Pmm.Allocator.MarkOwn | kernel/src/mm/pmm.c:80-88 | the bitmap's own pages are used, and the counter follows the marks |
| Pmm.Allocator.Init | kernel/src/mm/pmm.c:21-91 | a page is free exactly if a usable region covers it and the bitmap does not; the counter is the number of clear bits if and only if no two usable regions overlap |
| Pmm.Allocator.AllocPage | kernel/src/mm/pmm.c:93-103 | the lowest free page from 256 on; none only if there is none; the counter stays exact |
| Pmm.Allocator.FreePage | kernel/src/mm/pmm.c:105-111 | that page is free, if it exists; the counter stays exact |
| Pmm.Allocator.FindRun | kernel/src/mm/pmm.c:128-140 | the lowest free run from page 256 on, or there is none |
| Pmm.Allocator.AllocPages | kernel/src/mm/pmm.c:125-141 | the lowest free run from page 256 on is taken; fails only for no pages or if no run exists |
| Pmm.Allocator.FreePages | kernel/src/mm/pmm.c:143-152 | exactly those pages are free, as far as they exist; the counter stays exact |
| HeapSpec.SplitTiles | kernel/src/mm/heap.c:107-120 | splitting keeps the exact tiling of the owned pages |
| HeapSpec.MergeTiles | kernel/src/mm/heap.c:122-143 | joining touching neighbours keeps the tiling |
| HeapSpec.CoalescedUnique | kernel/src/mm/heap.c:126-143 | joining a block with all the free neighbours that touch it has one result only |
| HeapSpec.GrowTiles | kernel/src/mm/heap.c:82-105 | a new group extends the tiling by exactly its pages |
| HeapSpec.DropTiles | kernel/src/mm/heap.c:69-79 | taking a block out with exactly its pages keeps the tiling |
| HeapSpec.ExactCover | kernel/src/mm/heap.c:51-67 | disjoint groups inside a block whose lengths add up to its own cover every byte of it and nothing else |
| HeapSpec.ReclaimExact | kernel/src/mm/heap.c:47-67 | a block whose registered groups add up to its length consists of exactly their bytes |
| HeapSpec.ReclaimComplete | kernel/src/mm/heap.c:47-67 | registered groups inside a block that cover it add up to its length |
| HeapSpec.ReclaimTest | kernel/src/mm/heap.c:47-67 | the test of heap_try_reclaim, which compares lengths, passes if and only if every byte of the block lies in a registered group inside it |
| HeapSpec.MarkAllocs | kernel/src/mm/heap.c:157-163 | handing a block out adds exactly one allocation, taking it back removes exactly it |
| Heap.RoundFits | kernel/src/mm/heap.c:148-148 | rounding gives the least multiple of 16 with room for the request if it does not wrap, and no room if and only if it does |
| Heap.PagesForFits | kernel/src/mm/heap.c:82-85 | the page count holds request and header if and only if no sum wraps, and is then the least that does |
| Heap.SplitTaken | kernel/src/mm/heap.c:107-120 | a block with 48 bytes to spare is cut to the size, with a free block from its end to the old end right behind it; any other block stays whole |
| Heap.KernelHeap.Register | kernel/src/mm/heap.c:35-45 | the group takes the first free entry of the table, a full table forgets it; registered groups stay owned and disjoint |
| Heap.KernelHeap.NewBlock | kernel/src/mm/heap.c:82-105 | a new group of pages not owned before, registered if there is an entry free; fails exactly if the frame allocator has no such run; free pages plus heap pages is constant |
| Heap.KernelHeap.Take | kernel/src/mm/heap.c:157-163 | the block is cut to the size if it has 48 bytes to spare, with the rest as a free block right behind it, and otherwise only marked; so less than 48 bytes more than the size are handed out; one more allocation; the tiling stays; the byte counter stays exact until it overflows |
| Heap.KernelHeap.Coalesce | kernel/src/mm/heap.c:126-143 | a stretch of free blocks, each touching the next, around the given one is one block, all other blocks are as they were, and the neighbours left are used or do not touch it; allocations, used bytes and tiling stay |
| Heap.KernelHeap.Kmalloc | kernel/src/mm/heap.c:145-189 | one new, disjoint, aligned allocation of at least the request rounded to 16 and less than 48 bytes more, cut from the first block that fits or from a new group coalesced at the tail, with the rest left as a free block; null if and only if the size is zero or no block fits and the frame allocator has no run, and then nothing changes; pages conserved |
| Heap.KernelHeap.Collect | kernel/src/mm/heap.c:51-63 | the registered groups inside the block and the sum of their lengths |
| Heap.KernelHeap.ReleaseSlot | kernel/src/mm/heap.c:74-79 | exactly the group's pages go back; pages conserved |
| Heap.KernelHeap.TryReclaim | kernel/src/mm/heap.c:47-80 | the block goes if and only if every byte of it lies in a registered group inside it, and then exactly its pages go back |
| Heap.KernelHeap.Kfree | kernel/src/mm/heap.c:215-229 | exactly that allocation is gone; the block has joined its free neighbours and left if and only if whole registered groups make it up; tiling, byte counter and page sum kept |
| Heap.KernelHeap.Krealloc | kernel/src/mm/heap.c:199-213 | a block with room stays in place; otherwise null exactly when kmalloc has nothing, with nothing changed, or one allocation exchanged for another with the old payload copied and every other payload untouched; size zero frees |
| Heap.CopyKeeps | kernel/src/mm/heap.c:210-210 | copying into a larger payload moves the bytes and touches no other payload |
| Heap.PayloadsApart | kernel/src/mm/heap.c:145-189 | live payloads are 16-byte aligned, disjoint and in owned pages |
| VmmSpec.WalkOwned | kernel/src/mm/vmm.c:126-143 | a walk arrives at the table that belongs to its pagemap and indices |
| VmmSpec.HookWalk | kernel/src/mm/vmm.c:113-122 | a new table changes exactly one walk |
| VmmSpec.HookSame | kernel/src/mm/vmm.c:113-122 | get_or_create changes no translation of any pagemap |
| VmmSpec.StoreOnePage | kernel/src/mm/vmm.c:139-139 | a store into a leaf table changes exactly one page of one pagemap |
| VmmSpec.PlantTree | kernel/src/mm/vmm.c:325-341 | a new root has an empty user half and disturbs no other pagemap |
| VmmSpec.RangeInjective | kernel/src/mm/vmm.c:183-214 | pages of a user-half range have different indices, aliasing addresses included |
| VmmSpec.SpanPages | kernel/src/mm/vmm.c:186-188 | the pages of a range are those that share a byte with it |
| VmmSpec.LeafIsWalk | kernel/src/mm/vmm.c:163-179 | the flat map is the processor's walk: four entries, each picked by nine bits of the address, 39, 30, 21 and 12 up; nothing unless the first three are present |
| VmmSpec.MakeEntryReads | kernel/src/mm/vmm.c:139-139 | frame, low flags and no-execute bit read back from a stored entry |
| VmmSpec.ReflagKeepsFrame | kernel/src/mm/vmm.c:206-207 | new flags, same frame |
| Vmm.Paging.AllocTable | kernel/src/mm/vmm.c:101-107 | a frame that no table uses; none only if none is free |
| Vmm.Paging.GetOrCreate | kernel/src/mm/vmm.c:113-122 | the next table, made if missing; no translation changes; null only if no page is free |
| Vmm.Paging.Map | kernel/src/mm/vmm.c:126-143 | exactly that page of that pagemap gets the entry; on failure every translation is as before and no page is free; pages conserved |
| Vmm.Paging.Unmap | kernel/src/mm/vmm.c:145-161 | exactly that page of that pagemap is gone |
| Vmm.Paging.VirtToPhys | kernel/src/mm/vmm.c:163-179 | the leaf under the mask that keeps bit 63, and the offset |
| Vmm.HighPartExact | kernel/src/mm/vmm.c:178-178 | the mask gives the frame of a mapped page if and only if it is executable |
| Vmm.HighPartWrong | kernel/src/mm/vmm.c:178-178 | a mapping whose translation is wrong |
| Vmm.HighPartLeaks | kernel/src/mm/vmm.c:364-367 | through the mask the frame of a mapped page is freed if and only if the page is present and executable |
| Vmm.Paging.FreeLeaves | kernel/src/mm/vmm.c:363-367 | exactly the frames that the mask finds in the present entries of a leaf table become free |
| Vmm.Paging.Protect | kernel/src/mm/vmm.c:183-214 | exactly the pages before the first absent one get the flags and keep their frames; succeeds if and only if all are present |
| Vmm.Paging.CheckUserRange | kernel/src/mm/vmm.c:249-279 | true if and only if the range is not empty, does not wrap and every page of it is a present user page, writable if asked |
| Vmm.Paging.UnmapRange | kernel/src/mm/vmm.c:216-247 | of every page of the range the leaf is 0 if it was present and as it was otherwise, so that no address of the range translates; every other page of every pagemap is as before; exactly the frames mapped become free if asked |
| Vmm.Paging.CreatePagemap | kernel/src/mm/vmm.c:325-341 | an empty user half, the active kernel half, and every other pagemap as before |
| Vmm.Paging.Mprotect | kernel/src/kernel/usermode.c:447-476 | all of the range or nothing, and which of the two, for every argument; every page of it keeps its frame, stays a present user page and is writable and executable exactly as asked |
| Vmm.MprotectLeaf | kernel/src/kernel/usermode.c:465-467 | a protected page keeps its frame, stays a user page and is writable and executable as asked |
| ElfSpec.ConsumedStep | kernel/src/loader/elf_loader.c:87-101 | the chunks of the pages follow one another in the file |
| ElfSpec.ChunkIsImage | kernel/src/loader/elf_loader.c:87-101 | a page's chunk at its offset is what the segment has at those addresses |
| ElfSpec.InPlaceBytes | kernel/src/loader/elf_loader.c:60-111 | read through the page tables, a segment in place gives file bytes and zeroes |
| Elf.WriteXorExecute | kernel/src/loader/elf_loader.c:53-58 | present, user, writable if and only if the header asks for it, executable if and only if the header asks for it |
| Elf.InPlaceGranted | kernel/src/loader/elf_loader.c:53-58 | every leaf of a segment in place grants exactly the rights that its header asks for |
| Elf.Loader.MapPage | kernel/src/loader/elf_loader.c:103-107 | exactly that page is mapped to the new contents, or nothing changes, the frame is free again and at most one frame is left |
| Elf.Loader.LoadPage | kernel/src/loader/elf_loader.c:79-107 | a zeroed frame with the file's bytes at the offset, mapped; fails only if the file is too short or at most one frame is left, and then maps nothing |
| Elf.Loader.MapSegment | kernel/src/loader/elf_loader.c:60-111 | every page of the segment is in place, and every leaf of it is writable if and only if the header asks for it and executable if and only if the header asks for it; fails only if the file lacks the bytes or at most one frame is left; pages outside it and older frames stay, also on failure |
| Elf.Loader.LoadSegments | kernel/src/loader/elf_loader.c:142-155 | all loadable segments are in place together, each leaf with exactly its header's rights; the top is the least page boundary at or above them; fails only on a header that cannot be served or with at most one frame left; pages outside them, other pagemaps and older frames stay, also on failure |
| Elf.LoadedBytes | kernel/src/loader/elf_loader.c:142-155 | at every address of a loaded segment's pages the file's byte where the file part reaches, zero elsewhere |
| SchedSpec.ScanFinds | kernel/src/kernel/sched.c:239-245 | the first eligible task along the ring |
| SchedSpec.ChoiceSound | kernel/src/kernel/sched.c:236-259 | only ready tasks are chosen, and idle only if no other task is ready |
| SchedSpec.ChoiceNearest | kernel/src/kernel/sched.c:236-259 | the nearest eligible task along the ring other than the current one; idle if there is none, even while the current task could run on |
| SchedSpec.ScheduleSafe | kernel/src/kernel/sched.c:223-282 | after a switch exactly the current task runs and the one that ran before is ready; the dead stay dead and are not chosen; a sleeper wakes if and only if it is due; every other task is as it was |
| SchedSpec.BypassStep | kernel/src/kernel/sched.c:223-282 | each call brings a waiting task's turn nearer or is its turn |
| SchedSpec.BetweenWaits | kernel/src/kernel/sched.c:327-356 | other tasks running, blocking, exiting and being reaped never push a waiting task back |
| SchedSpec.BoundedBypass | kernel/src/kernel/sched.c:223-282 | a task that stays ready runs within as many calls as its ring distance, and idle is not chosen before |
| SchedSpec.ReapExact | kernel/src/kernel/sched.c:327-356 | the positions left are exactly the current one and those of tasks that are not dead, in order; the same tasks are current and idle |
| SchedSpec.ReapKeepsLiving | kernel/src/kernel/sched.c:327-356 | every task that is current or not dead is still in the ring |
| SchedSpec.ReapCount | kernel/src/kernel/sched.c:327-356 | the ring is shorter by the number of dead tasks other than the current one |
| SchedSpec.StepSafe | kernel/src/kernel/sched.c:223-356 | every step keeps the invariant and death |
| SchedSpec.RunSafe | kernel/src/kernel/sched.c:223-356 | over every run the invariant holds and death is final |
| SchedSpec.NeverWoken | kernel/src/kernel/pit.c:76-84 | over every run: a task that sleeps zero milliseconds at uptime zero stays asleep for ever |
| SchedSpec.PassedOver | kernel/src/kernel/sched.c:364-369 | a sleeper with wake time zero is passed over by every call |
| SchedSpec.ReapOfRemove | kernel/src/kernel/sched.c:340-351 | removing one dead task and starting over makes no difference to the result |
| Scheduler.RunQueue.Insert | kernel/src/kernel/sched.c:48-62 | the circle has the task at its tail, linked both ways |
| Scheduler.RunQueue.Remove | kernel/src/kernel/sched.c:64-80 | the circle without exactly that task, linked both ways |
| Scheduler.RunQueue.UpdateBlocked | kernel/src/kernel/sched.c:358-372 | exactly the due sleepers become ready with their wake time cleared, every other node is as it was |
| Scheduler.RunQueue.Scan | kernel/src/kernel/sched.c:229-245 | walking the links finds what the sequence scan finds |
| Scheduler.RunQueue.Schedule | kernel/src/kernel/sched.c:223-282 | the linked ring steps exactly as the machine does |
| Scheduler.RunQueue.Sleep | kernel/src/kernel/pit.c:76-84 | only the current task changes: blocked, with its wake time |
| Scheduler.RunQueue.Exit | kernel/src/kernel/sched.c:288-303 | only the current task changes: dead |
| Scheduler.RunQueue.Reaper | kernel/src/kernel/sched.c:327-356 | ends; every node that was current or not dead is still in the ring and no other is; linked both ways, in the old order |
| Lock.StepKeeps | kernel/src/kernel/lock.h:11-44 | every access, interrupt and switch keeps the protocol's invariant |
| Lock.RunKeeps | kernel/src/kernel/lock.h:11-44 | the invariant holds in every reachable state |
| Lock.HolderRuns | kernel/src/kernel/lock.h:33-44 | a held lock is held by exactly one activation, of the task the CPU is on; that is current_task except, with interrupts off, between choice and switch |
| Lock.FreeAtSwitch | kernel/src/kernel/sched.c:276-281 | the lock is free across every context switch and whenever timer_isr calls the scheduler |
| Lock.TimerCalls | kernel/src/main.c:127-132 | over every run: timer_isr calls the scheduler if and only if the lock is free and the current task is not a kernel one |
| Lock.Preempts | kernel/src/main.c:123-133 | wherever interrupts are on, the lock is free and no kernel task is current, a timer interrupt leads into the scheduler |
| Lock.Enters | kernel/src/kernel/sched.c:226-227 | a call of the scheduler that finds the lock free has it after three steps, with interrupts off and nothing else changed |
| Lock.Switches | kernel/src/kernel/sched.c:261-281 | from there three steps put the CPU on the stack of any other task, with the lock free and the old stack parked |
| Lock.KeepsOn | kernel/src/kernel/sched.c:247-259 | or two steps lead back to where the task was, with the lock free |
| Lock.NeverSpins | kernel/src/kernel/lock.h:11-26 | a task that does not hold the lock finds it free at both accesses, wherever the timer strikes |
| Lock.ReentryStuck | kernel/src/kernel/lock.h:11-26 | over every run: a holder that asks again, itself or by calling the scheduler, never gets it, and no other task runs again |
| Lock.ReentryReached | kernel/src/kernel/lock.h:11-26 | a run that gets there |
| GpipeSpec.StepKeeps | kernel/src/main.c:135-154 | every step keeps: a visible difference between the buffers is dirty, pending or owed |
| GpipeSpec.RunKeeps | kernel/src/main.c:135-154 | no interleaving loses an update |
| GpipeSpec.QuietShowsAll | kernel/src/main.c:135-154 | once all is quiet the screen shows the back buffer |
| GpipeSpec.TornMark | kernel/src/graphics/api/gpipe.c:131-134 | a take loses nothing if and only if it does not come between the four stores of a mark |
| GpipeSpec.LostSquare | kernel/src/graphics/api/gpipe.c:131-134 | an input for which a take between any two of the stores loses a pixel |
| GpipeSpec.DrawIsThreeSteps | kernel/src/graphics/api/gpipe_prim.c:40-122 | a drawing call is a run of the protocol |
| GpipeSpec.Marked | kernel/src/graphics/api/gpipe.c:104-135 | marking keeps what was dirty and adds the visible part |
| GpipeSpec.MarkedLeast | kernel/src/graphics/api/gpipe.c:104-135 | no smaller rectangle has what was dirty and the visible part |
| Gpipe.Context.MarkDirty | kernel/src/graphics/api/gpipe.c:104-135 | the dirty rectangle after marking |
| Gpipe.Context.Pixel | kernel/src/graphics/api/gpipe_prim.c:40-46 | exactly that pixel, if visible, and its mark |
| Gpipe.Context.PixelBlend | kernel/src/graphics/api/gpipe_prim.c:48-70 | exactly that pixel, blended, and its mark |
| Gpipe.BlendChannels | kernel/src/graphics/api/gpipe_prim.c:55-68 | each channel is the mean of source and destination by the source's alpha, rounded down and between the two; full alpha gives the source, none the destination |
| Gpipe.Context.Clear | kernel/src/graphics/api/gpipe_prim.c:72-80 | every pixel, and a full mark |
| Gpipe.Context.RectFill | kernel/src/graphics/api/gpipe_prim.c:94-105 | exactly the visible part of the rectangle, and its mark |
| Gpipe.Context.Line | kernel/src/graphics/api/gpipe_prim.c:107-122 | whenever no sum overflows: max(dx, dy) steps from end to end, each point within half a pixel, exactly the visible ones coloured and all marked |
| Gpipe.ParseBmp | kernel/src/graphics/api/gpipe_prim.c:164-185 | a bitmap that passes the checks lies within its data |
| Gpipe.BmpHeader | kernel/src/graphics/api/gpipe_prim.c:169-181 | the header fields by their bytes; rows are padded to the least multiple of four |
| Gpipe.BmpPixel | kernel/src/graphics/api/gpipe_prim.c:187-202 | which three bytes make up which pixel: blue, green, red; bottom row first unless the height is negative |
| Gpipe.PixIs | kernel/src/graphics/api/gpipe_prim.c:40-46 | pixel (x, y) of a buffer is word y * pw + x |
| Gpipe.Context.BmpDraw | kernel/src/graphics/api/gpipe_prim.c:164-206 | the bitmap pixel for pixel where visible, and its mark; a rejected one changes nothing |
| Gpipe.Context.TakeDirty | kernel/src/graphics/api/gpipe.c:167-174 | the dirty rectangle is handed over and empty |
| Gpipe.Context.CopyRow | kernel/src/graphics/api/gpipe.c:137-147 | one row of the rectangle on the screen |
| Gpipe.Context.PresentRect | kernel/src/graphics/api/gpipe.c:176-181 | exactly the rectangle on the screen |
| Gpipe.Context.Draw | kernel/src/graphics/api/gpipe_prim.c:40-206 | every drawing call, at any moment of the protocol, keeps: a visible difference is dirty, pending or owed |
| Gpipe.Context.Compose | kernel/src/main.c:146-150 | a round of the compositor keeps that too, and shows the back buffer when no drawing call is half done |
| LineSpec.StepStaysOnLine | kernel/src/graphics/api/gpipe_prim.c:113-121 | one pass steps along the major axis, keeps the error term right and stays within half a pixel |
| LineSpec.MinorBound | kernel/src/graphics/api/gpipe_prim.c:107-122 | the minor axis never overshoots and arrives with the major one |
| LineSpec.Arrived | kernel/src/graphics/api/gpipe_prim.c:107-122 | the end is reached after exactly max(dx, dy) steps |
| LineSpec.ErrorBound | kernel/src/graphics/api/gpipe_prim.c:107-122 | the doubled error is at most three times the longer distance |

## Left out

- Failing sector and device I/O, and what half-done operations leave behind then.
- Hardware: AHCI, interrupt controllers, timers, TLB and CR3 instructions, FPU state, assembly entry paths; a
  context switch is one step.
- FAT32: recursion of the scan into subdirectories and joining of path names, the table of open nodes and its
  limit, the create path for names that need no long entry, the dot entries of mkdir, the recursive remove
  command, dir_is_empty.
- FatVolume.Volume.Mount: the geometry is an argument; how its fields are read from the boot sector is not modelled.
- FatFile.FileWrite: bytes between the old end and a later offset are whatever the clusters held, as in the code.
- FatRemove.MarkRemovedWithLfn: started at the target's own cluster, the only way the driver calls it.
- Heap: block headers are a sequence in list order, not bytes in memory; magic numbers, the count of used blocks
  and kcalloc are not modelled.
- Heap.KernelHeap.Kfree: pointers must be null or belong to a block of the list; what a stale header's magic
  number says is not modelled.
- Heap.KernelHeap.Krealloc: pointers must be null or live, for the same reason.
- Pmm.Allocator.Init: usable regions must be page-aligned, as the boot protocol promises (the bitmap's own pages
  could otherwise lie beyond the last one it describes); ends of regions do not wrap.
- Vmm.Paging.Map: lower-half pages; the kernel half of a pagemap is opaque and, in its top-level entries, closed
  to users. Huge pages, write-combining, SYS_BRK, SYS_MMAP and the outer loops of vmm_destroy_pagemap are out.
- Vmm.Paging.Unmap: lower-half pages, as for mapping.
- Vmm.Paging.VirtToPhys: lower-half pages, as for mapping.
- Vmm.Paging.Protect: lower-half pages and ranges that do not wrap; SYS_MPROTECT calls it on no others.
- Vmm.Paging.UnmapRange: lower-half pages and ranges that do not wrap; frames to be freed must not be page tables.
- Elf.Loader.LoadSegments: segments must not share pages and have 32-bit file offsets; the ELF header checks,
  the load bias and the start-up record are out.
- Undo log: loading and storing the log file, choosing the block size.
- GpipeSpec.StepKeeps: a mark is one step, which `GpipeSpec.TornMark` says when it may be.
- GpipeSpec.RunKeeps: the same.
- Dirty rectangle: gpipe_present (copy, then clear), circles and text are out, as is overflow of `x + w`.
- Gpipe.Context.Compose: the cursor is not drawn.
- Gpipe.ParseBmp: the row size is not cut to 32 bits, which matters for widths above 715 million pixels.
- Gpipe.Context.Line: coordinates are 32-bit integers and three times the longer distance is one, so that no sum
  of the loop overflows.
- Scheduler: priorities do not exist; creating a task is its insertion at the tail; freeing its memory is out.
- Lock: the second lock, fs_lock, which no interrupt path takes.
