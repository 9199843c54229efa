# Proofs about BRTOS and its libraries

A Dafny model of seven parts of this real-time operating system tree, with proofs of what they are for:

- **FAT file system** (`FatTable`, `FatVolume`, `FatChain`, `FatLayout`, `FatFile`, `FatSeekMap`, `FatNames`, `FatPattern`).
  A drive is a sequence of 512-byte sectors whose transfers may fail at any time, unless the drive is called reliable. On top
  of it lie, one refinement after the other: the write-back sector window with mirrored tables; packed table entries of 12, 16
  and 32 bits; cluster chains; files with a sector buffer of their own; seek maps; long file names; wildcard search.
  `File.Content()` is the byte sequence that a file is, and the contracts of `File.Read`, `File.Write` and `File.Seek` speak
  of that sequence alone. `OnlyFile` says what an operation may change besides, `OthersKept`
  and `Spared` what one that fails leaves of the other files and of its own.
- **Block allocator** (`UmmHeap`, `UmmRuns`). `Allocator.Live()` is the map of live allocations, from start block to size, that the linked
  blocks of the heap refine. `Areas`, `FreeList` and `Members` are the invariant of the address-ordered list, of the free list,
  and of the two together. `UmmRuns.Run` is about whole runs of an application that allocates, releases and writes.
- **Random numbers** (`Pcg`). The full period of the 64-bit congruential generator, for every odd increment, and what rests on
  it: the rejection loop of the bounded generator terminates, and all its results are equally frequent over a period.
- **Soft timers** (`SoftTimers`). Two binary heaps of timers and the loop that calls the expired ones.
- **Calendar** (`Calendar`). Loops that take a time apart, the closed form that puts it together, and ISO 8601 weeks
  (section 7.23 of ISO/IEC 9899:1999).
- **Tokenizer** (`Strtok`; section 7.21.5.8 of ISO/IEC 9899:1999) and **delay list** (`DelayList`).

Where a contract speaks through a function of the model, a lemma says without that function what it is: table entries in bytes and
bits (`FatVolume.FatOfBytes`, `FatVolume.FatIsBits`), file bytes in places on the drive (`FatLayout.ByteOnDrive`), outputs in bits
of the state (`Pcg.OutputBits`), allocations in bytes of the heap (`UmmRuns.KeptInside`), directory entries in bytes
(`FatNames.PartBytes`), times in known dates (`Calendar.KnownCentury` and others).

Code that works in place is modelled in place: classes with the fields of the source, arrays, loops with invariants. Each such
method is tied to a function of the old contents, and the lemmas are about those functions. A parameter or variable marked
`ghost` is not part of the program. The table format follows the Microsoft FAT32 File System Specification, version 1.03,
sections "FAT Data Structure" and "FAT Long Directory Entries".

What mounting a volume has checked is a requirement here (`Geometry.Sound`, `ClustersFit`): the table holds all entries, the
clusters lie on the drive, and clusters are a power of two sectors, so that the masks of the source are remainders. A heap has at
most 32767 blocks and there are at most 128 timer blocks, as the widths of the link words and slot numbers demand.

Where code and comments or expectations disagree, the model follows the code:

- `create_chain` does not count the first cluster taken on an empty volume (`FatChain.TakeKeepsCount` has the exact condition,
  `FatChain.EmptyVolumeMiscounts` the failing case).
- A long name of 254 or 255 characters can be stored, but `pick_lfn` refuses its last entry: it asks for room for a terminator
  behind the one it has just taken (`FatNames.ReadName`: names come back if and only if they have at most 253 characters;
  `FatNames.LongNameRefused` is the failing case).
- Building a seek map fails on a chain whose end mark is the number of its last cluster plus one, and on no other
  (`FatSeekMap.CreateLinkMap`, failing case `FatSeekMap.UnclearEnd`). Only marks outside the range that the format names can be
  so: chains that `create_chain` ended are always mapped (`FatSeekMap.MarksAreClear`).
- `umm_blocks` returns 16 bits: requests above 524276 bytes get a wrong number of blocks (`UmmHeap.Blocks`), and some of them,
  524277 bytes being the first, no block at all. Unless such a request is refused, no areas can be read off the heap afterwards
  (`UmmHeap.CountWrapsToZero`, `UmmHeap.EmptySplitCorrupts`, `UmmHeap.EmptyGrowthCorrupts`; `Allocator.Malloc` has both
  directions).
- Callers are told to use `umm_info` to see whether a pointer is on the free list, but it compares with the first byte of a block
  where `umm_malloc` answers the fifth, so it finds no pointer that `umm_malloc` ever returned (`UmmHeap.Allocator.Info`).
- A timer whose callback answers 0 leaves its block in a state at which the search for a vacant block stops with an error, so
  `OSTimerSet` fails unless an unused block comes before it (`SoftTimers.RetiredEndsSearch`, failing case
  `SoftTimers.SetAfterRetired`).
- `OSTimerStart` puts a timer that is running already into a list once more, after which the lists are not in order
  (`SoftTimers.TimerService.Start`, `SoftTimers.TimerService.RestartDoubles`).
- Neither `OSTimerSet` nor a callback's answer is clipped as in `OSTimerStart`. The remaining time of a timer set for a whole
  round of the tick counter or more is reported short (`SoftTimers.RemainingAtOnce`), and one set for two rounds or more gets a
  timeout that no tick reaches (`SoftTimers.DeadlineIsReached`).

Check everything with `dafny verify dfyconfig.toml` (Dafny 4.11).

## Model

| member | source | states |
|---|---|---|
| Arith.MaskIsRemainder | brtos/modules/FatFS/ff.c:3573 | masking with the cluster size minus one is the remainder, masking with its complement takes it off (also line 4014) |
| FatTable.StoredEntryReadsBack | brtos/modules/FatFS/ff.c:986-1111 | a value stored in an entry of 12, 16 or 32 bits reads back cut to 12, 16 or 28 bits |
| FatTable.OtherEntriesKept | brtos/modules/FatFS/ff.c:1074-1107 | storing one entry leaves the value of every other entry, at every width, 12-bit neighbours in a shared byte included |
| FatTable.Other12Kept | brtos/modules/FatFS/ff.c:1075-1087 | the same for a 12-bit store of which only the first byte arrived |
| FatTable.TopNibbleKept | brtos/modules/FatFS/ff.c:1102-1105 | a 32-bit store keeps the top four bits on the drive |
| FatTable.EntryIsBits | brtos/modules/FatFS/ff.c:986-1023 | with the table read as one little-endian number, an entry of width w is its bits from w times its number on, 28 of them where w is 32 |
| FatTable.EntryOfBytes | brtos/modules/FatFS/ff.c:606-622 | the value of an entry in its bytes, lowest first |
| FatTable.EntryBytes | brtos/modules/FatFS/ff.c:643-656 | the bytes of an entry that has a given value |
| FatVolume.Volume.constructor | brtos/modules/FatFS/ff.c:868-918 | a mounted volume with a clean window shows the drive as it is |
| FatVolume.Volume.DiskRead | brtos/modules/FatFS/diskio.h:34 | the drive: consecutive sectors are read, or the transfer fails with anything in the buffer |
| FatVolume.Volume.DiskWrite | brtos/modules/FatFS/diskio.h:35 | the drive: consecutive sectors are written and no other changes, or the transfer fails and they hold anything |
| FatVolume.Volume.WriteMirrors | brtos/modules/FatFS/ff.c:868-892 | the second table copy follows the window; no sector outside that copy changes |
| FatVolume.Volume.SyncWindow | brtos/modules/FatFS/ff.c:868-892 | writing the window back leaves the logical volume (drive overlaid with the dirty window) unchanged outside the second table copy; afterwards the copies agree; a failure leaves the window dirty |
| FatVolume.Volume.MoveWindow | brtos/modules/FatFS/ff.c:897-918 | afterwards the window shows the asked sector of the unchanged logical volume; on failure nothing is lost and the window points nowhere or where it was |
| FatVolume.Volume.StoreByte | brtos/modules/FatFS/ff.c:1079-1086 | a byte stored through the window is that byte of the table, wherever sectors end |
| FatVolume.Volume.StoreWord | brtos/modules/FatFS/ff.c:643-647 | a word stored through the window is that word of the table |
| FatVolume.Volume.StoreDword | brtos/modules/FatFS/ff.c:650-656 | a double word stored through the window is that double word of the table |
| FatVolume.FatWithEntry | brtos/modules/FatFS/ff.c:1062-1111 | a changed entry in the bytes of the table is a changed number in the table of cluster numbers |
| FatVolume.StoredEntries | brtos/modules/FatFS/ff.c:1062-1111 | after a store, complete or broken off by a failed transfer, no other cluster number has changed |
| FatVolume.FatOfBytes | brtos/modules/FatFS/ff.c:986-1023 | what the table says of a cluster, in the bytes on the drive |
| FatVolume.FatIsBits | brtos/modules/FatFS/ff.c:986-1023 | the same in bits of the whole table |
| FatVolume.BytesOfFat | brtos/modules/FatFS/ff.c:1062-1111 | the bytes on the drive when the table says a given number of a cluster |
| FatVolume.Volume.GetFat | brtos/modules/FatFS/ff.c:986-1051 | answers the number of the cluster in the table of the logical volume, 1 out of range, 0xFFFFFFFF only for a failed transfer; changes neither the table nor any data sector |
| FatVolume.Volume.GetFat12 | brtos/modules/FatFS/ff.c:1003-1010 | the 12-bit entry, though its two bytes may lie in two sectors |
| FatVolume.Volume.TableWord | brtos/modules/FatFS/ff.c:1013-1014 | the word of the table at an aligned place, through the window |
| FatVolume.Volume.GetFat16 | brtos/modules/FatFS/ff.c:1012-1015 | the 16-bit entry |
| FatVolume.Volume.GetFat32 | brtos/modules/FatFS/ff.c:1017-1020 | the 32-bit entry without its top four bits |
| FatVolume.Volume.PutFat | brtos/modules/FatFS/ff.c:1062-1111 | the entry takes the value cut to its width, all others keep theirs even when a transfer fails half way, no data sector changes, mirrors still agree, the four bytes of a 32-bit entry are those of the value, lowest first, with the top nibble kept |
| FatVolume.Volume.PutFat12 | brtos/modules/FatFS/ff.c:1075-1087 | the 12-bit store, and what a failure between its two bytes leaves |
| FatVolume.Volume.PutFat16 | brtos/modules/FatFS/ff.c:1089-1094 | the 16-bit store |
| FatVolume.Volume.PutFat32 | brtos/modules/FatFS/ff.c:1096-1107 | the 32-bit store |
| FatChain.LinkedExtends | brtos/modules/FatFS/ff.c:1366-1373 | linking a free cluster behind the last cluster makes the chain one longer and keeps it a chain |
| FatChain.LinkedKeepsWellFormed | brtos/modules/FatFS/ff.c:1312-1384 | a table of disjoint acyclic chains stays one: the stretched or new chain gains one free cluster, every other chain is the same |
| FatChain.CreateChain | brtos/modules/FatFS/ff.c:1312-1384 | which cluster is taken (the first free one going round from the hint or the tail), when it answers 0 (no cluster free), 1 or the cluster already following, that used entries never change, the free count and the hint |
| FatChain.TakenIsFirst | brtos/modules/FatFS/ff.c:1322-1363 | no free cluster is nearer, going round from the cluster to stretch, from the one taken last, or from the first |
| FatChain.MarkNumbers | brtos/modules/FatFS/ff.c:1366 | the end mark is all ones in 12, 16 or 28 bits |
| FatChain.FindFree | brtos/modules/FatFS/ff.c:1352-1363 | the cyclic scan stops at the first free cluster, and answers 0 only if there is none in the whole range |
| FatChain.TakeCluster | brtos/modules/FatFS/ff.c:1366-1383 | the cluster found is marked last and linked; counts move only on success |
| FatChain.AllFreeCount | brtos/modules/FatFS/ff.c:1377 | the count of free clusters is the whole range exactly on an empty volume |
| FatChain.TakeKeepsCount | brtos/modules/FatFS/ff.c:1375-1378 | a right count of free clusters stays right if and only if some cluster was in use before |
| FatChain.UnknownCountStays | brtos/modules/FatFS/ff.c:1375-1378 | a count that is not known stays so |
| FatChain.EmptyVolumeMiscounts | brtos/modules/FatFS/ff.c:1377 | the failing case: the first cluster of an empty volume is taken and the count does not move |
| FatChain.RemovedFreesChain | brtos/modules/FatFS/ff.c:1256-1289 | removing a chain from its head frees exactly its clusters |
| FatChain.RemovedFreesSuffix | brtos/modules/FatFS/ff.c:1250-1289 | removing from the k-th cluster on frees exactly the clusters from there |
| FatChain.RemovedKeepsWellFormed | brtos/modules/FatFS/ff.c:1232-1303 | the table stays a set of disjoint chains: this one is cut before the removed part, the others are the same |
| FatChain.RemoveChain | brtos/modules/FatFS/ff.c:1232-1303 | ends on every table, cyclic and cross-linked ones included, with the table that the walk describes; every chain in which clst follows pclst, or is first, is cut there; a right free count stays right |
| FatChain.RemovedIsCut | brtos/modules/FatFS/ff.c:1232-1303 | on a chain the answer is OK, the clusters from the given one on are free, the one before ends the chain with the end mark, nothing else changes |
| FatChain.CutChainAt | brtos/modules/FatFS/ff.c:4413-4424 | the calls of f_unlink and f_truncate: afterwards exactly the clusters cut off are free besides those that were, the rest is a chain, all disjoint chains are kept |
| FatChain.FreeFrom | brtos/modules/FatFS/ff.c:1256-1289 | the loop of it: each pass frees one more entry |
| FatLayout.SectorAt | brtos/modules/FatFS/ff.c:968-976 | where the o-th sector of the k-th cluster of a file lies |
| FatLayout.ClustersInRow | brtos/modules/FatFS/ff.c:968-976 | cluster 2 is at the start of the data area, each next one a cluster size later |
| FatLayout.ByteOnDrive | brtos/modules/FatFS/ff.c:968-976 | on which sector, and where on it, byte p of a file is, in numbers |
| FatLayout.SectorsDistinct | brtos/modules/FatFS/ff.c:968-976 | no sector occurs twice in an acyclic chain |
| FatLayout.SectorsDisjoint | brtos/modules/FatFS/ff.c:968-976 | files on disjoint chains share no sector |
| FatLayout.PartialWrite | brtos/modules/FatFS/ff.c:3643-3651 | changing part of one sector is overwriting those bytes of the file |
| FatLayout.DirectlyWritten | brtos/modules/FatFS/ff.c:3607-3627 | writing whole sectors past the buffer, and refilling the buffer from them, is overwriting those bytes of the file |
| FatLayout.CopiedIn | brtos/modules/FatFS/ff.c:3635-3651 | copying into the buffer is overwriting bytes of the file, though a sector past the end was never loaded |
| FatLayout.DirectlyRead | brtos/modules/FatFS/ff.c:3492-3510 | whole sectors read past a dirty buffer and patched from it are the bytes of the file |
| FatLayout.LongerFile | brtos/modules/FatFS/ff.c:3587-3594 | a chain that gained a cluster keeps its sectors in place and gets new ones at the end |
| FatLayout.ByteInCluster | brtos/modules/FatFS/ff.c:1407 | offset / sector size / cluster size is the cluster of the byte |
| FatLayout.OverwriteTwice | brtos/modules/FatFS/ff.c:3570-3571 | two adjacent writes are one write of both |
| FatFile.File.constructor | brtos/modules/FatFS/ff.c:3446-3466 | an opened file has the bytes its chain holds on the drive |
| FatFile.File.Flush | brtos/modules/FatFS/ff.c:3599-3602 | writing the buffer back changes no byte of the file |
| FatFile.ClusterToSector | brtos/modules/FatFS/ff.c:968-976 | the first sector of a cluster, 0 for an invalid number |
| FatFile.NextCluster | brtos/modules/FatFS/ff.c:3575-3592 | follows the chain or stretches it by one free cluster; 0 only with no cluster free; whatever happens, other chains and the links before are kept |
| FatFile.File.StretchTo | brtos/modules/FatFS/ff.c:3587-3594 | the file keeps its bytes when its chain grows, and on its sectors also when that fails |
| FatFile.File.ClusterForWrite | brtos/modules/FatFS/ff.c:3574-3595 | the current cluster is that of the byte at the pointer, appended if needed; the drive is full only behind the last cluster and with none free |
| FatFile.File.StartSector | brtos/modules/FatFS/ff.c:3572-3606 | at a sector boundary: the buffer is written back and the sector is the right one of the file; full likewise |
| FatFile.File.PutSectors | brtos/modules/FatFS/ff.c:3607-3627 | whole sectors go to the drive; the buffer stays in step; a failure touches no other byte |
| FatFile.File.LoadForWrite | brtos/modules/FatFS/ff.c:3635-3641 | the buffer agrees with the file wherever the file has bytes |
| FatFile.File.CopyIn | brtos/modules/FatFS/ff.c:3643-3652 | part of a sector goes to the buffer |
| FatFile.File.WriteSectors | brtos/modules/FatFS/ff.c:3572-3641 | at a sector boundary: whole sectors are written, or the drive is full, or the buffer is made ready for a part of one |
| FatFile.File.WriteStep | brtos/modules/FatFS/ff.c:3572-3652 | one pass of the loop overwrites some of the bytes, or finds the drive full behind the last cluster, or fails and harms only bytes that it was to write |
| FatFile.File.WriteAll | brtos/modules/FatFS/ff.c:3570-3653 | the loop overwrites exactly the bytes from the pointer on, as many as there is room for |
| FatFile.File.WriteClipped | brtos/modules/FatFS/ff.c:3565-3656 | f_write from the check of the file size on: all bytes are written unless the file is at 4 GiB or fills its room |
| FatFile.File.Write | brtos/modules/FatFS/ff.c:3546-3658 | f_write: the file becomes its old bytes with data overwritten at the pointer, all of it if the file stays below 4 GiB and within its room (the clusters of the file and all free ones), else exactly as much as both allow; nothing but this file and its table entries changes; after a failure, which is blamed on a transfer or an error mark, the bytes counted are written, no byte outside the request is harmed, and all other files are kept; refused without write access |
| FatFile.File.SparedByte | brtos/modules/FatFS/ff.c:3546-3658 | what a failure spares, byte by byte: in the buffer where that is dirty, else on the drive |
| FatFile.File.ClusterForRead | brtos/modules/FatFS/ff.c:3472-3488 | the current cluster is that of the byte at the pointer |
| FatFile.File.GetSectors | brtos/modules/FatFS/ff.c:3492-3511 | whole sectors, with a dirty buffer taken into account, are the bytes of the file |
| FatFile.File.MoveBuffer | brtos/modules/FatFS/ff.c:3513-3523 | the buffer changes sectors without a byte of the file changing, on the drive not even when that fails |
| FatFile.File.FindSector | brtos/modules/FatFS/ff.c:3470-3491 | the sector at the pointer is the right one of the file |
| FatFile.File.ReadSectors | brtos/modules/FatFS/ff.c:3470-3523 | at a sector boundary: whole sectors are delivered or the buffer moves to the right sector |
| FatFile.File.ReadStep | brtos/modules/FatFS/ff.c:3470-3532 | one pass delivers the next bytes of the file or loses none |
| FatFile.File.FromBuffer | brtos/modules/FatFS/ff.c:3525-3532 | part of a sector comes from the buffer |
| FatFile.File.ReadAll | brtos/modules/FatFS/ff.c:3468-3533 | the loop delivers exactly the bytes from the pointer on; a failure delivers the first of them |
| FatFile.File.Read | brtos/modules/FatFS/ff.c:3446-3536 | f_read delivers exactly the bytes from the pointer on, up to the end of the file, and changes none; after a failure those delivered are right and the drive with the dirty buffer still holds the file |
| FatFile.File.FollowTo | brtos/modules/FatFS/ff.c:4044-4049 | following the chain on a file opened for reading |
| FatFile.File.SeekStep | brtos/modules/FatFS/ff.c:4032-4050 | the next cluster: only a file open for writing is stretched, and only one at the end of its chain finds the drive full |
| FatFile.File.SeekLoop | brtos/modules/FatFS/ff.c:4029-4057 | the cluster following loop lands on the target, or at the end of the last cluster with none free |
| FatFile.File.SeekTo | brtos/modules/FatFS/ff.c:4010-4058 | from the current cluster or from the first, the same place is reached |
| FatFile.File.Seek | brtos/modules/FatFS/ff.c:4000-4077 | f_lseek: the pointer is the offset asked for (clipped to the file when reading, to the room when writing), the bytes up to the old end are kept, after a failure too, and so are all other files; the buffer shows the sector at the pointer |
| FatFile.File.Land | brtos/modules/FatFS/ff.c:4059-4074 | the size follows the pointer and the buffer moves |
| FatFile.StaysApart | brtos/modules/FatFS/ff.c:3546-3658 | a chain disjoint from this file's stays disjoint and intact |
| FatFile.OtherFileKept | brtos/modules/FatFS/ff.c:3546-3658 | whatever a file operation does, every file on another chain keeps its clusters and its bytes |
| FatFile.OthersKeptInTable | brtos/modules/FatFS/ff.c:1366-1384 | so they do when a store into the table fails half way |
| FatFile.ClustersConserved | brtos/modules/FatFS/ff.c:1312-1384 | a file operation neither loses nor makes clusters: those of the file and the free ones stay as many |
| FatFile.UpToRoom | brtos/modules/FatFS/ff.c:3587-3592 | a file never outgrows its room, and fills it when no cluster is free |
| FatFile.RoomInBytes | brtos/modules/FatFS/ff.c:3587-3592 | the room of a file is its clusters and all free ones, in bytes |
| FatFile.TableStaysWellFormed | brtos/modules/FatFS/ff.c:3546-3658 | and the table stays a set of disjoint acyclic chains |
| FatFile.BystanderKept | brtos/modules/FatFS/ff.c:3446-3658 | a second open file, its dirty buffer included, stays valid with the same bytes, whatever the answer was |
| FatFile.WriteBeside | brtos/modules/FatFS/ff.c:3546-3658 | f_write with two files open: one gets the bytes, the other keeps its own, after a failed write too |
| FatFile.WriteThenRead | brtos/modules/FatFS/ff.c:3446-4078 | write, seek back, read: the data comes back, all of it if there is room, and without an error if transfers succeed and the table holds no error mark |
| FatFile.ReadBack | brtos/modules/FatFS/ff.c:3446-4078 | seek to a place in the file and read: the bytes from there on |
| FatFile.WriteAnew | brtos/modules/FatFS/ff.c:3546-3658 | a write that succeeds leaves a file that can be read back |
| FatSeekMap.FragmentsExpand | brtos/modules/FatFS/ff.c:3955-3967 | the fragments of a chain stand for exactly that chain |
| FatSeekMap.RunIsConsecutive | brtos/modules/FatFS/ff.c:3958-3963 | a fragment is a maximal run of consecutive clusters |
| FatSeekMap.FragmentsAreLong | brtos/modules/FatFS/ff.c:3955-3967 | no two fragments next to each other could be one |
| FatSeekMap.ClmtClust | brtos/modules/FatFS/ff.c:1397-1415 | through the table, an offset gives the cluster number offset / cluster size of the chain, 0 past its end |
| FatSeekMap.CreateLinkMap | brtos/modules/FatFS/ff.c:3950-3974 | the table built holds the fragments of the chain if it fits; the needed size is reported; nothing past the given size is written; it fails on exactly those chains whose end mark reads as one more consecutive cluster |
| FatSeekMap.MarksAreClear | brtos/modules/FatFS/ff.c:3958-3967 | no chain ended by a mark as the format names them, those of create_chain included, is refused |
| FatSeekMap.UnclearEnd | brtos/modules/FatFS/ff.c:3958-3963 | a table with another mark whose chain is refused |
| FatSeekMap.FinishTable | brtos/modules/FatFS/ff.c:3969-3974 | size and end mark complete the table, or it is reported as too small |
| FatSeekMap.FastPlace | brtos/modules/FatFS/ff.c:3978-3995 | the cluster and the buffer of the place |
| FatSeekMap.FastSeek | brtos/modules/FatFS/ff.c:3975-3996 | fast seek clips at the end of the file, keeps its bytes and makes the cluster of the byte before the pointer current |
| FatSeekMap.CurrentCluster | brtos/modules/FatFS/ff.c:4000-4077 | after any operation, a normal seek included, the current cluster is number (pointer - 1) / cluster bytes of the chain, so both kinds of seek select the same one |
| FatNames.PutLfn | brtos/modules/FatFS/ff.c:1707-1733 | an entry gets the thirteen characters of its part, terminator and padding behind the name, and the last-entry flag exactly for the highest ordinal; nothing outside it changes |
| FatNames.PartBytes | brtos/modules/FatFS/ff.c:1627-1735 | an entry byte by byte: number and flag, attribute, checksum, and five, six and two characters, low byte first |
| FatNames.PartsNeeded | brtos/modules/FatFS/ff.c:2301 | a name has as many entries as thirteen characters each need |
| FatNames.PickChars | brtos/modules/FatFS/ff.c:1681-1691 | the characters of any entry go to their place in the buffer; what follows a 0 must be padding |
| FatNames.PickLfn | brtos/modules/FatFS/ff.c:1670-1699 | accepts an entry, whatever it holds, exactly when it is consistent and fits, and never writes outside the buffer |
| FatNames.AcceptableBytes | brtos/modules/FatFS/ff.c:1668-1698 | which entries are accepted, in their bytes |
| FatNames.PartAcceptable | brtos/modules/FatFS/ff.c:1670-1699 | a stored part is accepted, except the last part of a name longer than 253 characters |
| FatNames.LongNameRefused | brtos/modules/FatFS/ff.c:1693-1696 | the failing case: the last entry of a name of 254 characters |
| FatNames.PartPicked | brtos/modules/FatFS/ff.c:1670-1699 | an accepted part puts its piece of the name into the buffer |
| FatNames.WriteName | brtos/modules/FatFS/ff.c:2300-2314 | the entries of a name, last part first |
| FatNames.ReadPart | brtos/modules/FatFS/ff.c:2128-2135 | the ordinal and checksum bookkeeping of one entry |
| FatNames.ReadName | brtos/modules/FatFS/ff.c:2107-2142 | reading what was written back restores name and terminator if and only if the name has at most 253 characters, for all names up to 255 |
| FatPattern.AnyAhead | brtos/modules/FatFS/ff.c:2542-2546 | a ? counted into the number of characters to skip |
| FatPattern.ManyAhead | brtos/modules/FatFS/ff.c:2542-2546 | a * turned into an unbounded skip |
| FatPattern.Needs | brtos/modules/FatFS/ff.c:2541-2556 | a pattern needs as many characters as it has before its first * |
| FatPattern.NoLater | brtos/modules/FatFS/ff.c:2556 | the early stop: a mismatch at the end of the name cannot become a match further on |
| FatPattern.Analyze | brtos/modules/FatFS/ff.c:2542-2546 | a run of wildcards is the skip it is counted into |
| FatPattern.TryAt | brtos/modules/FatFS/ff.c:2540-2554 | one try matches exactly if the pattern means the rest of the name |
| FatPattern.PatternMatching | brtos/modules/FatFS/ff.c:2522-2559 | answers 1 exactly when the name matches under the declarative meaning, for all patterns and names, and terminates |
| UmmHeap.LiveAreasDisjoint | brtos/hal/MemoryAllocation/umm_malloc.c:159-165 | allocated areas lie inside the heap and share no block |
| UmmHeap.UserWritesKeepHeap | brtos/hal/MemoryAllocation/umm_malloc.c:119-137 | the application may write anything into its areas: the heap stays well formed with the same allocations |
| UmmHeap.DisconnectedKeeps | brtos/hal/MemoryAllocation/umm_malloc.c:673-682 | unlinking a free area: the free list loses just that, the area is allocated, no other allocation changes |
| UmmHeap.SplitKeeps | brtos/hal/MemoryAllocation/umm_malloc.c:660-669 | splitting an allocation off the end of a free area |
| UmmHeap.GrownKeeps | brtos/hal/MemoryAllocation/umm_malloc.c:913-918 | cutting an allocation off the unmarked tail |
| UmmHeap.MergedUpKeeps | brtos/hal/MemoryAllocation/umm_malloc.c:700-701 | an area joins the one before it |
| UmmHeap.TakenUpKeeps | brtos/hal/MemoryAllocation/umm_malloc.c:686-703 | a free area after an allocated one is unlinked and joins it |
| UmmHeap.MergedDownKeeps | brtos/hal/MemoryAllocation/umm_malloc.c:707-713 | a freed area joins the free area before it |
| UmmHeap.PushedKeeps | brtos/hal/MemoryAllocation/umm_malloc.c:763-768 | a freed area goes to the head of the free list |
| UmmHeap.FitOrTail | brtos/hal/MemoryAllocation/umm_malloc.c:833-862 | the scan of the free list ends at the tail exactly when no marked area is large enough |
| UmmHeap.CoveredStep | brtos/hal/MemoryAllocation/umm_malloc.c:585-613 | walking over an area counts its blocks as used or free |
| UmmHeap.InitialisedIsWellFormed | brtos/hal/MemoryAllocation/umm_malloc.c:904-909 | the first allocation turns a zeroed heap into a well-formed one |
| UmmHeap.Blocks | brtos/hal/MemoryAllocation/umm_malloc.c:638-656 | the smallest number of blocks that holds the bytes, right exactly up to 524276 bytes: beyond, the 16-bit result wraps around |
| UmmHeap.CountHolds | brtos/hal/MemoryAllocation/umm_malloc.c:638-656 | the blocks counted hold the bytes asked for, one less would not |
| UmmHeap.CountWrapsToZero | brtos/hal/MemoryAllocation/umm_malloc.c:638-656 | exactly which sizes are counted as no blocks, 524277 bytes being the first |
| UmmHeap.EmptySplitCorrupts | brtos/hal/MemoryAllocation/umm_malloc.c:868-883 | allocating no blocks from a free area breaks the heap: there is no way to read areas off its links |
| UmmHeap.EmptyGrowthCorrupts | brtos/hal/MemoryAllocation/umm_malloc.c:890-919 | so does allocating no blocks from the tail |
| UmmHeap.Allocator.constructor | brtos/hal/MemoryAllocation/umm_malloc.c:532-535 | a heap of zeroed blocks has no allocation |
| UmmHeap.Allocator.MakeNewBlock | brtos/hal/MemoryAllocation/umm_malloc.c:660-669 | the link words that a split rewrites |
| UmmHeap.Allocator.DisconnectFromFreeList | brtos/hal/MemoryAllocation/umm_malloc.c:673-682 | the link words that unlinking rewrites |
| UmmHeap.Allocator.AssimilateUp | brtos/hal/MemoryAllocation/umm_malloc.c:686-703 | a live area takes in a free one after it and no other allocation changes; afterwards no free area follows |
| UmmHeap.Allocator.AssimilateDown | brtos/hal/MemoryAllocation/umm_malloc.c:707-713 | the link words that joining downwards rewrites |
| UmmHeap.Allocator.PushFree | brtos/hal/MemoryAllocation/umm_malloc.c:763-768 | the link words that pushing on the free list rewrites |
| UmmHeap.Allocator.Release | brtos/hal/MemoryAllocation/umm_malloc.c:752-769 | a live area becomes free, joined with a free one before it |
| UmmHeap.Allocator.Free | brtos/hal/MemoryAllocation/umm_malloc.c:717-795 | umm_free removes exactly the given allocation from the map of live ones; all others keep place and data; the heap stays well formed |
| UmmHeap.Allocator.FindFit | brtos/hal/MemoryAllocation/umm_malloc.c:833-855 | the scan finds the first free area that is large enough |
| UmmHeap.Allocator.TakeFree | brtos/hal/MemoryAllocation/umm_malloc.c:862-883 | the end of a free area becomes an allocation of exactly the blocks asked for; none asked for breaks the heap |
| UmmHeap.Allocator.Grow | brtos/hal/MemoryAllocation/umm_malloc.c:913-918 | the link words that cutting off the tail rewrites |
| UmmHeap.Allocator.CutTail | brtos/hal/MemoryAllocation/umm_malloc.c:913-918 | the tail moves up behind the blocks allocated |
| UmmHeap.Allocator.Initialise | brtos/hal/MemoryAllocation/umm_malloc.c:904-909 | the lazy initialisation |
| UmmHeap.Allocator.TakeTail | brtos/hal/MemoryAllocation/umm_malloc.c:884-919 | an allocation at the end of the heap, refused exactly if not more than one block beyond it is left; none asked for breaks the heap |
| UmmHeap.Allocator.Malloc | brtos/hal/MemoryAllocation/umm_malloc.c:799-926 | for every size: NULL if and only if the size is 0 or no marked area fits and the tail test fails, and then nothing changes; otherwise, if and only if the blocks counted are not 0, the heap stays in order and gains exactly one allocation of them, at the end of the first area on the free list that holds them or at the tail, with all others keeping place and data; up to 524276 bytes, the bytes asked for lie in it from the first byte behind its link words on; if no blocks are counted the heap is broken |
| UmmHeap.Allocator.Store | brtos/hal/MemoryAllocation/umm_malloc.c:119-137 | the application may write into its allocations: heap and allocations stay as they are, and so does all other user data |
| UmmHeap.Allocator.Info | brtos/hal/MemoryAllocation/umm_malloc.c:565-624 | the statistics: used blocks are those of the live allocations, used and free ones make up the heap without block 0; a pointer is found exactly if it is the first byte of a free area, so never one that umm_malloc returned; the statistics then cover the areas up to that one |
| UmmRuns.AfterAlloc | brtos/hal/MemoryAllocation/umm_malloc.c:799-926 | one more allocation keeps what a run has established |
| UmmRuns.AfterRelease | brtos/hal/MemoryAllocation/umm_malloc.c:717-795 | so does a release |
| UmmRuns.AfterPut | brtos/hal/MemoryAllocation/umm_malloc.c:119-137 | so does a write of the application |
| UmmRuns.Run | brtos/hal/MemoryAllocation/umm_malloc.c:717-926 | over every run of allocations, releases and writes: the heap stays valid and holds just the allocations not released, each with the blocks counted for it and everything last written into it, up to the first allocation granted for a size that is counted as 0 blocks |
| UmmRuns.KeptApart | brtos/hal/MemoryAllocation/umm_malloc.c:799-926 | allocations kept by a run are inside the heap, share no block and no byte, and are large enough |
| UmmRuns.KeptInside | brtos/hal/MemoryAllocation/umm_malloc.c:511-547 | the bytes of an allocation lie in the heap and are link words of no area |
| UmmRuns.KeptData | brtos/hal/MemoryAllocation/umm_malloc.c:799-926 | what was last put into a block of it is there |
| Pcg.Doubling | libs/pcg-rand/pcg_basic.c:63 | 2^k steps are one affine step with multiplier 1 modulo 2^(k + 2) and an odd multiple of 2^k as increment |
| Pcg.Jump | libs/pcg-rand/pcg_basic.c:63 | 2^k steps move every state by an odd multiple of 2^k |
| Pcg.Reach | libs/pcg-rand/pcg_basic.c:63 | some number of steps below 2^k leads to any value modulo 2^k |
| Pcg.NeverTwice | libs/pcg-rand/pcg_basic.c:63 | and only one does |
| Pcg.FullPeriod | libs/pcg-rand/pcg_basic.c:60-67 | every state is reached from every state, for every odd increment |
| Pcg.OnlyOnce | libs/pcg-rand/pcg_basic.c:60-67 | no state repeats within 2^64 steps |
| Pcg.RotationsUndo | libs/pcg-rand/pcg_basic.c:66 | a rotation can be undone |
| Pcg.SourceHasOutput | libs/pcg-rand/pcg_basic.c:60-67 | for every output and every choice of the other 32 bits there is a state |
| Pcg.SourceOfState | libs/pcg-rand/pcg_basic.c:60-67 | and every state is one of those |
| Pcg.OutputsAreUniform | libs/pcg-rand/pcg_basic.c:56-67 | every output comes from exactly 2^32 of the 2^64 states |
| Pcg.WitnessOutput | libs/pcg-rand/pcg_basic.c:64-66 | a state whose output is the largest 32-bit number |
| Pcg.AcceptedIsUniform | libs/pcg-rand/pcg_basic.c:81-93 | among the outputs not dropped each result occurs equally often |
| Pcg.BoundedIsUniform | libs/pcg-rand/pcg_basic.c:75-97 | over all states, and so over a period, each result of the bounded generator is accepted equally often |
| Pcg.ThresholdIsRemainder | libs/pcg-rand/pcg_basic.c:83-95 | the 32-bit threshold is 2^32 modulo bound |
| Pcg.StepIsInjective | libs/pcg-rand/pcg_basic.c:45-48 | seeds of one sequence that differ before a step differ after it |
| Pcg.RotationNumber | libs/pcg-rand/pcg_basic.c:66 | the rotation in numbers: the part above comes down, the part below goes to the top |
| Pcg.XorShiftedBits | libs/pcg-rand/pcg_basic.c:64 | bit j of the xorshift is bit j + 27 of the state against bit j + 45 |
| Pcg.OutputBits | libs/pcg-rand/pcg_basic.c:60-67 | each bit of the output in bits of the state |
| Pcg.Rng.constructor | libs/pcg-rand/pcg_basic.c:42-49 | seeding makes the increment odd and determines the state |
| Pcg.Rng.Random | libs/pcg-rand/pcg_basic.c:60-67 | bit by bit the output of the old state: bits of the xorshift, moved to the right by the top five bits; the next state in numbers |
| Pcg.Rng.BoundedRandom | libs/pcg-rand/pcg_basic.c:79-110 | terminates for every state and bound; answers the first output not below 2^32 mod bound, modulo bound |
| SoftTimers.RaisedHeap | brtos/brtos/stimer.c:64-72 | one swap upwards moves the only misplaced slot to the parent |
| SoftTimers.LoweredHeap | brtos/brtos/stimer.c:74-94 | one swap downwards moves it to the earlier child |
| SoftTimers.RootFirst | brtos/brtos/stimer.c:173-177 | slot 1 holds the timer that expires first |
| SoftTimers.Subir | brtos/brtos/stimer.c:64-72 | the same timers, and a heap if only the last slot was out of place |
| SoftTimers.Descer | brtos/brtos/stimer.c:74-94 | the list is a heap of the same timers again |
| SoftTimers.RemainingCountsDown | brtos/brtos/stimer.c:446-476 | ticks passed and ticks remaining make up the time set, across the wrap of the counter |
| SoftTimers.RemainingAtOnce | brtos/brtos/stimer.c:401-412 | right after setting a timer its remaining time is the one set if and only if that is less than a round |
| SoftTimers.DeadlineIsReached | brtos/brtos/stimer.c:401-412 | the timeout is a value the tick counter reaches if and only if the timer is set for less than two rounds |
| SoftTimers.ExpiresAfterWait | brtos/brtos/stimer.c:401-412 | a timer is due when its wait is over, and in every round after; the list it joins is that of the round its timeout is in |
| SoftTimers.RetiredEndsSearch | brtos/brtos/stimer.c:365-392 | a block given back ends the search for a vacant one, exactly if no vacant one comes before it |
| SoftTimers.TimerService.RestartDoubles | brtos/brtos/stimer.c:505-520 | a timer that was in either list is in one of them twice, or in both: the lists are not in order |
| SoftTimers.Insert | brtos/brtos/stimer.c:406-415 | the list gains the timer, and stays a heap if it was one without it |
| SoftTimers.RemoveRoot | brtos/brtos/stimer.c:259-261 | the last timer replaces the first |
| SoftTimers.TimerService.constructor | brtos/brtos/stimer.c:97-119 | no timer runs |
| SoftTimers.TimerService.Arm | brtos/brtos/stimer.c:502-534 | the timer joins the heap of its round and no other moves; the lists are in order afterwards if and only if it was in neither and has a callback |
| SoftTimers.TimerService.Start | brtos/brtos/stimer.c:488-542 | OSTimerStart with its clipping and its error, for every timer; the same condition |
| SoftTimers.TimerService.Set | brtos/brtos/stimer.c:349-438 | OSTimerSet: which block is taken, when it is refused (a block given back ends the search), and the heap the timer joins |
| SoftTimers.TimerService.Get | brtos/brtos/stimer.c:446-476 | OSTimerGet |
| SoftTimers.TimerService.TakeFirst | brtos/brtos/stimer.c:259-279 | the first timer leaves and the rest is a heap |
| SoftTimers.TimerService.Rearm | brtos/brtos/stimer.c:263-279 | the first timer is rearmed in this round |
| SoftTimers.TimerService.Postpone | brtos/brtos/stimer.c:253-279 | the first timer is rearmed in the next round |
| SoftTimers.TimerService.Retire | brtos/brtos/stimer.c:268-279 | the first timer is given back |
| SoftTimers.TimerService.Expire | brtos/brtos/stimer.c:250-281 | what one expired timer becomes, by the answer of its callback |
| SoftTimers.TimerService.Drain | brtos/brtos/stimer.c:241-282 | the expiry loop terminates; each due timer is called exactly once, in the order of the timeouts; both lists stay heaps with every armed timer in exactly one; afterwards nothing in the current list is due; timers not due are untouched |
| SoftTimers.CalledOne | brtos/brtos/stimer.c:241-282 | one more call keeps all that |
| SoftTimers.CallsInOrder | brtos/brtos/stimer.c:241-282 | calls are of due timers, none twice, in the order of their timeouts |
| SoftTimers.CalledAgain | brtos/brtos/stimer.c:250-266 | a timer whose callback asked for more is set again, in the list of its round |
| SoftTimers.DueIsRetired | brtos/brtos/stimer.c:268-275 | a due timer whose callback answers 0 is given back |
| SoftTimers.SetAfterRetired | brtos/brtos/stimer.c:349-438 | the failing case: after the first of two blocks was used and given back, OSTimerSet answers an error |
| Calendar.YearStep | libs/time_lib.c:63-73 | the twelve months make up the year |
| Calendar.MonthOfDay | libs/time_lib.c:70-74 | a day lies in one month only |
| Calendar.MultiplesStep | libs/time_lib.c:164-166 | the three corrections count the years divisible by 4, 100 and 400 |
| Calendar.ClosedFormIsSum | libs/time_lib.c:159-166 | the closed form equals the sum of the year sizes since 1970, for every year |
| Calendar.GregorianCycle | libs/time_lib.c:159-166 | 400 years have 146097 days |
| Calendar.DaysBeforeMonths | libs/time_lib.c:70-74 | the days before each month |
| Calendar.TowardsZero | libs/time_lib.c:108-147 | division and remainder as C has them |
| Calendar.InstantUnique | libs/time_lib.c:99-147 | an instant has one broken-down time with all fields in range |
| Calendar.KnownEpoch | libs/time_lib.c:51-79 | 1 January 1970 is second 0, a Thursday |
| Calendar.KnownLeapDay | libs/time_lib.c:51-79 | 29 February 2000 is second 951782400, a Tuesday |
| Calendar.KnownBillion | libs/time_lib.c:51-79 | second 1000000000 |
| Calendar.KnownLastSigned | libs/time_lib.c:51-79 | second 2147483647 |
| Calendar.KnownCentury | libs/time_lib.c:51-79 | 1 March 2100 is second 4107542400: 2100 is no leap year |
| Calendar.GmtimeR | libs/time_lib.c:51-79 | the fields are in range, agree with each other and name the given instant |
| Calendar.LocaltimeR | libs/time_lib.c:81-86 | the same for local time |
| Calendar.NormaliseClock | libs/time_lib.c:108-125 | clock fields out of range are brought into range; the carry accounts for the difference |
| Calendar.NormaliseDate | libs/time_lib.c:126-147 | date fields out of range are brought into range; the day named stays the same |
| Calendar.DayNumber | libs/time_lib.c:154-178 | the closed form gives the day counted month by month; an early overflow is a real one |
| Calendar.Mktime | libs/time_lib.c:99-205 | the fields are normalised to the same instant; the answer is that instant as a time, less the daylight bias where it is in force, -1 exactly if it is before 1970 or does not fit |
| Calendar.BackAndForth | libs/time_lib.c:81-205 | mktime of localtime_r gives the time back exactly if it and the local time fit, else -1 |
| Calendar.ForthAndBack | libs/time_lib.c:51-205 | after mktime the fields are those that gmtime_r gives for its answer |
| Calendar.WeekOf | libs/time_lib.c:412-436 | within two passes: the year and the number of the week's Thursday |
| Calendar.FirstWeek | libs/time_lib.c:412-436 | week 1 is the one with 4 January |
| Calendar.WeeksFollow | libs/time_lib.c:412-436 | a week runs from Monday to Sunday across the new year; the next has the next number or is week 1 |
| Strtok.Tokenizer.Strtok | libs/string_lib.c:393-453 | one call finds the first maximal run behind the cursor, ends it with a 0, and moves the cursor; no run, no token and no change |
| Strtok.NextRun | libs/string_lib.c:414-453 | the run found is the next maximal run of the whole text |
| Strtok.NextToken | libs/string_lib.c:403-453 | a call that continues where the one before stopped |
| Strtok.AllTokens | libs/string_lib.c:393-453 | repeated calls give exactly the maximal delimiter-free runs, in order, then none; only the byte behind each token changes |
| DelayList.List.constructor | brtos/brtos/includes/BRTOS.h:1396-1403 | the empty list |
| DelayList.List.IncludeTask | brtos/brtos/includes/BRTOS.h:1388-1403 | the task comes last; head, tail and all links agree |
| DelayList.List.RemoveHead | brtos/brtos/includes/BRTOS.h:1361-1372 | the first task leaves |
| DelayList.List.RemoveBehind | brtos/brtos/includes/BRTOS.h:1373-1385 | a task behind another leaves |
| DelayList.List.RemoveTask | brtos/brtos/includes/BRTOS.h:1359-1385 | the task is gone, the others keep their order; head, tail and all links agree |
| DelayList.WithoutKeepsOrder | brtos/brtos/includes/BRTOS.h:1359-1385 | removal keeps the order of the others |
| DelayList.IncludeThenRemove | brtos/brtos/includes/BRTOS.h:1359-1403 | a task that comes and goes leaves the list as it was |
| DelayList.AfterHolds | brtos/brtos/includes/BRTOS.h:1359-1403 | after any run the list holds, once, just the tasks included since they were last removed |
| DelayList.RunOne | brtos/brtos/includes/BRTOS.h:1359-1403 | one operation does what the sequence says |
| DelayList.Run | brtos/brtos/includes/BRTOS.h:1359-1403 | any interleaving of inserts and removals takes the linked list to the sequence it describes |

## Left out

FAT file system:

- The tiny-buffer and exFAT configurations, mounting, formatting, partitioning, paths and directories other than long-name entries, volume labels, re-entrancy and file locks.
- `f_sync`, `f_close`, `f_truncate`, `f_expand` and trimming; `f_read` and `f_write` with a seek map attached to the file.
- Sector sizes other than 512 bytes, and drivers: a drive is a sequence of sectors whose transfers succeed, or fail leaving arbitrary data.
- User buffers are sequences of bytes rather than pointers, so a buffer that overlaps the file object is not modelled.
- Bytes between the old end of a file and a pointer placed behind it: they are whatever the clusters held.
- FatFile.File.Write: after a failure the end mark of the chain is left open, and of the bytes that the request was to write behind those counted nothing is said.
- FatFile.File.Seek: the file pointer takes its final value only at the end, where the code moves it along while it follows the chain.
- FatFile.File.constructor: stands for `f_open` of an existing file; the directory entry that names the first cluster and the size is a parameter.
- FatNames.ReadName: the entries are taken from one run of bytes; moving the window over directory sectors and comparing the checksum with the short name are not modelled.
- FatNames.WriteName: likewise, and allocating the directory entries is not modelled.
- FatPattern.PatternMatching: one character is one unit, as with single-byte or Unicode names; double-byte code pages are not modelled, and upper-casing is a parameter.
- The FSInfo sector: the count of free clusters, the hint and their change flag are kept, but never written.

Block allocator:

- Best fit, `umm_realloc`, `umm_calloc` and printing; the shipped configuration is first fit.
- UmmRuns.Run: stops where the allocator has broken its heap.
- Freeing a pointer that is not live.

Random numbers:

- The global generator and its wrappers: they only pass an object on. A bound of 0, which divides by zero.

Soft timers:

- The loop that runs a missed round and the switch of the two lists (lines 194-239 and 284-295), `OSTimerStop`, waking the timer task, and callbacks that call the timer functions themselves.
- SoftTimers.TimerService.Drain: the tick does not change during one drain, and callbacks are seen only through their answers.
- SoftTimers.TimerService.Set: when it starts a timer it needs a slot left in the lists, which have one less than there are timer blocks, because the code writes past them otherwise; the null handle pointer is not modelled.
- SoftTimers.TimerService.Start: with a slot left in the lists, for the same reason.

Calendar:

- `strftime` apart from the week computation, `str2time` and the static buffers.
- Calendar.Mktime: integers do not overflow while fields are normalised, and a daylight bias is not negative, as the source assumes.
- Calendar.GmtimeR: `time_t` is an integer of any size that is cut to 32 bits, as the code does.

Strings and delay list:

- Simple string functions, among them `memmove`.
- Strtok.Tokenizer.Strtok: a text ends in a 0, as every C string does.
- DelayList.List.RemoveTask: only for a task that is in the list; the macros do not check. DelayList.List.IncludeTask: only for one that is not.
- The scheduler, critical sections, semaphores, mutexes, queues and hardware ports: every kernel call is atomic here.
