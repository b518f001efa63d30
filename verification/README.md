# Nachos, modelled in Dafny

A model of the storage stack, paged memory, thread synchronization, mail delivery, scheduler,
clock and multiplier of a Nachos teaching operating system, with proofs of what they promise.
`dafny verify dfyconfig.toml` checks all of it.

## What is modelled

**Storage.** `BitMap.dfy` (free-sector bitmap), `SynchDisk.dfy` (eight-entry write-back cache),
`FileHeader.dfy` with `BlockMap.dfy` and `Growth.dfy` (two-level file headers), `OpenFile.dfy` with
`Contents.dfy` and `Writing.dfy` (bytes of a file), `Directory.dfy`, `MapBytes.dfy`, `Tree.dfy`,
`Volume.dfy` and `FileSystem.dfy` (files by path); `Stray.dfy`, `StrayVolume.dfy` and `Shortfalls.dfy` have what goes
wrong. Each layer is a class whose methods are proved against a simpler
thing: a set of sectors, a flat disk, a list of blocks, a byte sequence, a tree of names. The
invariant of the top layer says that the marked bits are exactly the disjoint union of the
sectors of all live files, that the bytes of file 0 encode these marks, and that every directory's
bytes list exactly its files. A disk determines all of this (`FileSystems.DiskDetermines`). Formatting, Create, Open, writing and Remove keep it.

**Memory.** `Paging.dfy` is the state of TLB, page tables, frame table, frames and backing stores as a
value, with what every step of a fault does to what the address spaces see; `Machine.dfy` is the
code on it. Every run of one program returns what a flat byte array would, whatever mix of LRU
and FIFO replacement it meets. `Replacement.dfy` proves that these policies, and the choice of a frame,
pick the page they are named for, in every run.

**Threads.** `Semaphore.dfy` (semaphores and locks), `ReadersWriters.dfy`, `SynchList.dfy` and `PostOffice.dfy` are
machines of steps that any number of threads take in any order; their theorems are about every
run. `List.dfy`, `Scheduler.dfy` and `Interrupt.dfy` are the linked list, the ready list and the event queue as
classes. `Mult.dfy` and `Itoa.dfy` are two self-contained loops.

An `Outcome` is a returned value or `Halted`: a failing ASSERT, or an access outside an array.
Big invariants are stated behind `Look`, `Peek` or `Inside` (`Outcomes.dfy`) so that proofs that only pass them
on stay small; `hide` statements serve the same end.

## Where the code does not do what its comments say

- `FindN` never returns -1 for two or more sectors: it runs past the last bit and the range check
  of `Test` halts the kernel (`BitMaps.BitMap.FindN`); `Shortfalls.NoTwoTogether` is such a run.
- `Allocate` counts clear bits after the run is reserved, so it refuses files for which there is
  room, and wastes a run that starts at sector 0 (`FileHeaders.FileHeader.Allocate`, `Growths.AllocateFound`);
  `Shortfalls.FitsButRefused` is a run in which a file is refused.
- A refused extension leaves its blocks in a header that is then written back, while the bitmap
  file does not know them. `OpenFiles.OpenFile.WriteAt` states exactly when: the write reaches past the end and
  asks for more blocks than a header can take, and the header is not full already;
  `Shortfalls.RefusedWrite` is such a run.
- Creating a directory for which there is no room goes on to write an empty table through the sector
  its header was meant for, which is clear and holds any bytes. `Strays.StrayExact` says when all files are
  as they were: if and only if those bytes, taken for a header, ask for no blocks that they would
  get, and lead to clear sectors only. A length of 0 or less is harmless, as on a blank disk;
  `StrayVolumes.LostFile` is a volume at which a live file is destroyed. When no sector is clear at all, the
  source opens sector -1, which no array has: `Halted`.
- A path below a file that is no directory is not refused: the bytes of that file are taken for a
  table. `FileSystems.FileSystem.CreateBelow` states what follows. Create returns FALSE, and changes nothing, if these bytes
  list the name already, no sector is clear, they have no free entry, or Allocate refuses (for a
  directory the point above applies as well). Otherwise it marks sectors for a file that no directory
  lists, and writes the table over the file the path leads through: if that is empty nothing is
  written; if it is shorter than the table it grows, into the first clear sectors of a bitmap that
  does not know of the new file yet, so that the new header itself is overwritten; else its first
  bytes are overwritten. The kernel halts if and only if there are too few clear sectors for that.
  What is left is a consistent volume if and only if the file grew into exactly the sectors meant
  for the new one, which `FileSystems.TwinnedExact` spells out; then there is just no new file. `Shortfalls.EmptyParent` and
  `Shortfalls.ShortParent` are runs of both kinds.
- Evicting a frame clears an entry of the current page table whoever owns the frame. Coherence
  survives if and only if the condition of `Paging.AllocatedExact` holds; `Machines.LostWrite` is a run of
  two programs in which a byte that was stored is gone.
- `V` can yield to the thread it woke before it counts up. `Semaphores.LostWakeUp` gives the run in which the
  wake-up is lost, and the condition under which none is.

## Model

| member | source | states |
|---|---|---|
| `BitMaps.BitMap.constructor` | code/userprog/bitmap.cc:20-32 | a new bitmap has no bit set |
| `BitMaps.BitMap.Mark` | code/userprog/bitmap.cc:46-51 | adds exactly that bit to the set of marked bits; the words still encode the set |
| `BitMaps.BitMap.Clear` | code/userprog/bitmap.cc:60-65 | takes exactly that bit out of the set |
| `BitMaps.BitMap.Test` | code/userprog/bitmap.cc:74-83 | tells membership in the set |
| `BitMaps.BitMap.Find` | code/userprog/bitmap.cc:94-103 | returns and marks the first clear bit; -1, and no change, exactly when all bits are set |
| `BitMaps.BitMap.NumClear` | code/userprog/bitmap.cc:111-119 | the number of bits minus the size of the set |
| `BitMaps.BitMap.TestRun` | code/userprog/bitmap.cc:170-172 | tells whether cnt bits from i on are clear; halts exactly when it has to look past the last bit |
| `BitMaps.BitMap.MarkRun` | code/userprog/bitmap.cc:174-175 | adds exactly the bits of the run |
| `BitMaps.BitMap.FindN` | code/userprog/bitmap.cc:167-179 | reserves the first run of cnt clear bits; without one it halts on the range check for cnt of two or more, and returns -1 for one bit |
| `BitMaps.BitMap.WriteBack` | code/userprog/bitmap.cc:161-165 | the words handed out encode the set |
| `BitMaps.BitMap.FetchFrom` | code/userprog/bitmap.cc:148-152 | words that encode a set become that set |
| `BitMaps.BitUpdate` | code/userprog/bitmap.cc:46-65 | changing one bit of one word changes membership of that number and of no other |
| `SynchDisks.SynchDisk.constructor` | code/filesys/synchdisk.cc:42-61 | an empty cache shows the disk as it is |
| `SynchDisks.SynchDisk.PickVictim` | code/filesys/synchdisk.cc:236-244 | the first invalid entry, or else the first with the least lru stamp |
| `SynchDisks.SynchDisk.CacheMiss` | code/filesys/synchdisk.cc:235-262 | the victim is written back when dirty and the sector loaded; the disk as seen through the cache does not change |
| `SynchDisks.SynchDisk.ScanRead` | code/filesys/synchdisk.cc:98-107 | a hit delivers what the flat disk holds in that sector and stamps that entry only; there is a hit exactly when an entry holds it |
| `SynchDisks.SynchDisk.ScanWrite` | code/filesys/synchdisk.cc:142-152 | a hit changes the flat disk in exactly that sector, and that entry becomes dirty with the data and a new stamp |
| `SynchDisks.SynchDisk.ReadSector` | code/filesys/synchdisk.cc:93-127 | returns the last data written to the sector, for every sequence of reads, writes and evictions |
| `SynchDisks.SynchDisk.WriteSector` | code/filesys/synchdisk.cc:137-174 | the flat disk changes in exactly that sector |
| `SynchDisks.WriteBackKeeps` | code/filesys/synchdisk.cc:245-252 | writing a dirty victim back loses nothing: table and disk stand for the same flat disk |
| `SynchDisks.SwapInKeeps` | code/filesys/synchdisk.cc:253-261 | loading a sector into the victim entry keeps one entry per sector and the flat disk |
| `SynchDisks.StampKeeps` | code/filesys/synchdisk.cc:104-104 | a new lru stamp changes nothing that is seen |
| `SynchDisks.StoreKeeps` | code/filesys/synchdisk.cc:146-149 | overwriting a cached sector is writing it on the flat disk |
| `BlockMaps.IndexCountRoundsUp` | code/filesys/filehdr.cc:45-47 | the number of index blocks of a file of more than six blocks, rounded up as in the source |
| `Outcomes.DivRoundUpLeast` | code/threads/utility.h:40-40 | the least number of pieces of a size that hold n |
| `BlockMaps.ReferencesDiffer` | code/filesys/filehdr.cc:210-227 | in a well-formed file no two blocks and no two index blocks are the same sector, and no block is an index block |
| `BlockMaps.BlocksFrame` | code/filesys/filehdr.cc:210-227 | the block list depends on the header and the index blocks only |
| `BlockMaps.AppendDirect` | code/filesys/filehdr.cc:301-308 | a sector in the next direct slot is appended to the block list |
| `BlockMaps.AppendIndexed` | code/filesys/filehdr.cc:309-352 | numbers written into a new or half-full index block are appended to the block list, old entries kept |
| `FileContents.EncodeHdr` | code/filesys/filehdr.cc:195-199 | a header written to a sector is read back as the same header, whatever its time stamps |
| `FileContents.HdrLayout` | code/filesys/filehdr.h:63-75 | the fields of a header lie behind 76 bytes of time stamps, little-endian |
| `Sectors.SectorByte` | code/filesys/filehdr.cc:195-199 | the words of a sector lie one behind the other, least significant byte first |
| `FileContents.RawBlock` | code/filesys/openfile.cc:140-142 | block b of the file is the b-th slice of its bytes |
| `FileContents.BlockWrite` | code/filesys/openfile.cc:200-202 | writing the sector of one block splices its bytes into the file and changes no reference |
| `FileContents.HeaderWrite` | code/filesys/filehdr.cc:195-199 | rewriting the header sector changes neither blocks nor bytes |
| `FileContents.SectorSpan` | code/filesys/openfile.cc:179-181 | the sectors first to last cover the bytes of the request and no sector too many |
| `FileContents.CutOut` | code/filesys/openfile.cc:137-145 | the bytes wanted are where the source cuts them out of the sectors read |
| `FileContents.FramedWrite` | code/filesys/openfile.cc:188-202 | a buffer with its partial edge sectors read in, overwritten with the data and stored, is the byte splice |
| `FileContents.EdgesFrame` | code/filesys/openfile.cc:185-193 | the two conditional reads of edge sectors suffice, in every alignment case |
| `FileContents.WrittenAll` | code/filesys/openfile.cc:199-202 | after the last sector the whole buffer is spliced in |
| `Growths.FoundFresh` | code/userprog/bitmap.cc:94-103 | a series of Finds yields distinct sectors that were clear, until the bitmap is full; then there were fewer clear bits than Finds |
| `Growths.TracksDirect` | code/filesys/filehdr.cc:301-308 | one more direct slot keeps the history of an extension |
| `Growths.TracksOpen` | code/filesys/filehdr.cc:313-325 | a new index block with its entries keeps it |
| `Growths.TracksContinue` | code/filesys/filehdr.cc:335-348 | filling up a half-full index block keeps it |
| `Growths.TracksHalfFull` | code/filesys/filehdr.cc:335-338 | the half-full index block is on the disk, and its entries are the last blocks of the file |
| `Growths.TracksShort` | code/filesys/filehdr.cc:314-323 | an index block that could not be found means that the extension starves: no clear bit is left for the last index block it opens |
| `Growths.TracksRoom` | code/filesys/filehdr.cc:314-314 | with a clear bit left, all sectors asked for so far were found |
| `Growths.GrownResult` | code/filesys/filehdr.cc:299-359 | an extension takes exactly the blocks and index blocks needed; it is an append of fresh distinct sectors if they were to be had, and else leaves -1 among the blocks |
| `Growths.GrownExtends` | code/filesys/filehdr.cc:299-359 | no sector of anybody else is touched or taken |
| `Growths.GrownShort` | code/filesys/filehdr.cc:303-303 | a Find that failed is recorded as block -1 |
| `Growths.ExtendDone` | code/filesys/filehdr.cc:353-358 | the outcome as a whole, for every sectorNum and bitmap |
| `Growths.StoredAll` | code/filesys/filehdr.cc:64-125 | after the loops of Allocate all references are distinct and were clear |
| `Growths.AllocateRun` | code/filesys/filehdr.cc:48-51 | the consecutive path uses exactly the run FindN reserved |
| `Growths.AllocateFound` | code/filesys/filehdr.cc:48-51 | a run found at sector 0 is not used, and stays marked |
| `Growths.AllocateRefused` | code/filesys/filehdr.cc:54-62 | when Allocate returns FALSE, and that the disk is untouched then |
| `Growths.AllocateNoRun` | code/filesys/filehdr.cc:49-49 | without a run of two or more sectors the kernel halts |
| `Growths.AllocateShort` | code/filesys/filehdr.cc:101-120 | after a wasted run, the Find path halts when the last index block finds no sector |
| `Growths.FindsMore` | code/userprog/bitmap.cc:94-103 | a series of Finds only adds marks, and adds some when a bit is clear |
| `Growths.ReservedSize` | code/filesys/filehdr.cc:49-54 | what NumClear counts after FindN |
| `Growths.AllocateUndone` | code/filesys/filehdr.cc:40-174 | Deallocate can follow a successful Allocate, and gives back exactly what it took |
| `Growths.ReleaseBlock` | code/filesys/filehdr.cc:134-174 | the next data sector is still marked when Deallocate tests it |
| `Growths.ReleaseIndex` | code/filesys/filehdr.cc:168-171 | so is the next index sector |
| `Growths.ReleaseDone` | code/filesys/filehdr.cc:134-174 | in the end exactly the sectors of the file are clear |
| `FileHeaders.FileHeader.FetchFrom` | code/filesys/filehdr.cc:182-186 | the header is what the sector decodes to |
| `FileHeaders.FileHeader.WriteBack` | code/filesys/filehdr.cc:195-199 | only that sector changes, and it decodes to the header |
| `FileHeaders.FileHeader.ByteToSector` | code/filesys/filehdr.cc:210-227 | the sector of the block the offset lies in, direct or through the index block |
| `FileHeaders.FileHeader.FillSlots` | code/filesys/filehdr.cc:317-322 | entries of the index buffer are what the Finds returned, in order |
| `FileHeaders.FileHeader.ExtendDirect` | code/filesys/filehdr.cc:301-308 | direct slots are filled as far as they and the request go |
| `FileHeaders.FileHeader.OpenIndexBlock` | code/filesys/filehdr.cc:313-325 | a new index block is found, filled and written |
| `FileHeaders.FileHeader.ContinueIndexBlock` | code/filesys/filehdr.cc:335-348 | a half-full one is read, filled up and written |
| `FileHeaders.FileHeader.ExtendIndexed` | code/filesys/filehdr.cc:309-352 | the loop over the five index slots stores as many blocks as there is room for |
| `FileHeaders.FileHeader.ExtendLength` | code/filesys/filehdr.cc:299-359 | extendLength is an append of fresh sectors cut off at 166 blocks; with too few clear bits it halts exactly when the last index block finds no sector, and otherwise returns with -1 among the blocks |
| `Growths.FirstsFresh` | code/userprog/bitmap.cc:94-103 | a series of Finds from a bitmap yields the first clear sectors, all different, and -1 exactly when they run out |
| `FileHeaders.FileHeader.StrayDirect` | code/filesys/filehdr.cc:301-308 | free direct slots get the first clear sectors, in order |
| `FileHeaders.FileHeader.ExtendStray` | code/filesys/filehdr.cc:299-359 | the same code on a header that may be anything: asked for nothing it sets the length, without room it fills up the last index block only, in direct slots it stores the first clear sectors, otherwise it halts or adds marks |
| `FileHeaders.FileHeader.AllocateDirect` | code/filesys/filehdr.cc:67-90 | direct slots of a new file, from the run or by Find |
| `FileHeaders.FileHeader.AllocateIndexBlock` | code/filesys/filehdr.cc:95-121 | one index block of a new file with its entries |
| `FileHeaders.FileHeader.AllocateIndexed` | code/filesys/filehdr.cc:92-123 | all index blocks of a new file |
| `FileHeaders.FileHeader.HandOut` | code/filesys/filehdr.cc:64-126 | the second half of Allocate, after the space checks |
| `FileHeaders.FileHeader.Allocate` | code/filesys/filehdr.cc:40-126 | exactly when Allocate succeeds, returns FALSE or halts, a run at sector 0 with too few bits beside it included; on success all sectors are distinct, were clear and are marked, and only index blocks were written |
| `FileHeaders.FileHeader.Deallocate` | code/filesys/filehdr.cc:134-174 | no ASSERT fails, and the bitmap loses exactly the sectors of the file |
| `FreeMaps.FreeMapFile.Fetch` | code/filesys/filesys.cc:208-210 | the bitmap as stored |
| `FreeMaps.FreeMapFile.Store` | code/filesys/filesys.cc:234-234 | the bitmap of that object is stored |
| `FreeMaps.FreeMapFile.ExtendWrapper` | code/filesys/filesys.cc:467-478 | header and bitmap are stored exactly when the extension succeeded as a whole |
| `Writing.EnoughBlocks` | code/filesys/openfile.cc:163-166 | the number of sectors asked for covers the new end |
| `Writing.ExtendStores` | code/filesys/openfile.cc:167-170 | growing keeps the bytes of the file as a prefix and every sector marked for others |
| `Writing.RoomyExtend` | code/filesys/openfile.cc:167-174 | with room in the bitmap the extension returns, and fails exactly when the header is full |
| `Writing.UnsavedGrowth` | code/filesys/openfile.cc:171-174 | after a failed extension the stored bitmap still covers the file exactly when no block was added |
| `Writing.GrownExtended` | code/filesys/filesys.cc:467-478 | the new marks are the new sectors, and they were clear |
| `Writing.GrowthWritten` | code/filesys/openfile.cc:153-210 | the pieces of a growing write amount to the promise of WriteAt |
| `Writing.GrownContents` | code/filesys/openfile.cc:163-174 | splicing into the grown file is appending to what came before the position |
| `OpenFiles.OpenFile.constructor` | code/filesys/openfile.cc:30-38 | the open file has the header of its sector and position 0 |
| `OpenFiles.OpenFile.ReadBlocks` | code/filesys/openfile.cc:139-142 | the sectors of the request, one after the other |
| `OpenFiles.OpenFile.ReadBytes` | code/filesys/openfile.cc:133-145 | exactly the bytes asked for |
| `OpenFiles.OpenFile.ReadAt` | code/filesys/openfile.cc:119-151 | returns the slice of the file, cut off at its end; 0 at or beyond the end; of the disk only the header sector may change |
| `OpenFiles.OpenFile.WriteBlocks` | code/filesys/openfile.cc:199-202 | the buffer is spliced into the file |
| `OpenFiles.OpenFile.FillBuffer` | code/filesys/openfile.cc:183-193 | the buffer agrees with the file around the bytes to be written |
| `OpenFiles.OpenFile.WriteInside` | code/filesys/openfile.cc:179-207 | a write within the file is the byte splice |
| `OpenFiles.OpenFile.Grow` | code/filesys/openfile.cc:163-175 | the header grows as far as needed or as it has room |
| `OpenFiles.OpenFile.WriteGrowing` | code/filesys/openfile.cc:163-207 | a write past the end grows the file first |
| `OpenFiles.OpenFile.WriteAt` | code/filesys/openfile.cc:153-210 | the contents become old[..pos] + data + old[pos+n..], or old[..pos] + data when it grows; nothing at or beyond the end; what is cut off when the header is full; others keep their sectors; the bitmap covers the file unless a growing write was refused half way |
| `OpenFiles.OpenFile.Read` | code/filesys/openfile.cc:78-84 | ReadAt at the position, which advances by what was read |
| `OpenFiles.OpenFile.Write` | code/filesys/openfile.cc:86-92 | WriteAt at the position, which advances by what was written |
| `MapBytes.MapRoundTrip` | code/userprog/bitmap.cc:148-165 | words written as bytes are read back as the same words |
| `MapBytes.BitPlace` | code/userprog/bitmap.cc:161-165 | bit i of the map is bit i mod 8 of byte i / 8 |
| `FsTest.CopyIn` | code/filesys/fstest.cc:62-66 | data written in pieces of any size is the contents of the file |
| `FsTest.PrintOut` | code/filesys/fstest.cc:90-94 | reading in pieces of any size until nothing comes yields the whole file |
| `FsTest.CopyThenPrint` | code/filesys/fstest.cc:32-98 | what was copied in is printed out, whatever the two transfer sizes |
| `Volumes.MountedElsewhere` | code/filesys/filesys.cc:221-232 | writing unmarked sectors changes no file |
| `Volumes.MountedChange` | code/filesys/filesys.cc:467-478 | a file that grows into clear sectors leaves all other files and the partition of the marks intact |
| `Volumes.MountedAdd` | code/filesys/filesys.cc:232-234 | so does a new file |
| `Volumes.MountedDrop` | code/filesys/filesys.cc:358-363 | clearing exactly the sectors of a file takes it off the volume and keeps the others |
| `Volumes.MountedStamp` | code/filesys/openfile.cc:147-148 | reading a file changes no file |
| `Volumes.MountedConfined` | code/filesys/openfile.cc:195-207 | overwriting bytes of a file changes no other file |
| `Volumes.MountedWritten` | code/filesys/openfile.cc:153-210 | a write that grows keeps the volume, unless it is refused with room left in the header |
| `Volumes.MarksDetermined` | code/filesys/filesys.cc:176-374 | the marks are determined by the files |
| `Volumes.Handed` | code/filesys/filehdr.cc:40-126 | what a successful Allocate means once sector 0 is taken: the first run of clear sectors of that length, and nothing else |
| `Volumes.SnugWritten` | code/filesys/openfile.cc:163-175 | after a write a header still has exactly the blocks its length needs |
| `Volumes.PresentSame` | code/filesys/filehdr.cc:182-186 | the sectors of a disk leave no choice what file a header stands for |
| `Trees.SameEntry` | code/filesys/filesys.cc:429-465 | whether a path is there is told by the table of its directory, so that two trees on one disk agree, by induction on the path |
| `Volumes.Succeeds` | code/filesys/filehdr.cc:40-126 | a run and room beside it suffice for Allocate |
| `Volumes.AllocateExact` | code/filesys/filehdr.cc:40-126 | the outcome of Allocate as a function of bitmap and size |
| `Directories.EncodeEntry` | code/filesys/directory.cc:75-79 | an entry is read back from its 48 bytes |
| `Directories.EntryLayout` | code/filesys/directory.cc:75-79 | the flags, the sector number and the name are at offsets 0, 1, 4 and 8 of an entry |
| `Directories.SameKey` | code/filesys/directory.cc:88-95 | two names are one to a directory if and only if strncmp finds no difference in 39 characters |
| `Directories.TableRoundTrip` | code/filesys/directory.cc:62-79 | a table written back is the table fetched |
| `Directories.Directory.constructor` | code/filesys/directory.cc:38-44 | a new table has no entry in use |
| `Directories.Directory.Load` | code/filesys/directory.cc:62-66 | the table is what the bytes decode to |
| `Directories.LookupFirst` | code/filesys/directory.cc:88-117 | the first entry in use with the name decides |
| `Directories.Directory.FindIndex` | code/filesys/directory.cc:88-95 | the first entry in use with that name, or -1 exactly when there is none |
| `Directories.Directory.Find` | code/filesys/directory.cc:105-117 | its sector, or -1 |
| `Directories.Directory.IsDir` | code/filesys/directory.cc:207-219 | its directory flag |
| `Directories.Directory.Add` | code/filesys/directory.cc:130-147 | fails exactly when the name is listed or the table full; else one free entry is filled and the rest kept |
| `Directories.Directory.Remove` | code/filesys/directory.cc:156-165 | fails exactly when the name is not listed; else its entry is freed and the rest kept |
| `Trees.LastSlash` | code/filesys/filesys.cc:431-438 | the position of the last slash, 0 without one |
| `Trees.Parent` | code/filesys/filesys.cc:444-453 | the path of the directory is shorter than the path |
| `Trees.ParentOf` | code/filesys/filesys.cc:444-453 | the parent of p/c is p |
| `Trees.ParentTop` | code/filesys/filesys.cc:444-453 | a name without a slash after its first character belongs to the root |
| `Trees.UnderPrefix` | code/filesys/filesys.cc:331-351 | a path is at or below k if and only if it is k or goes on after k with a slash |
| `Trees.FoundInTable` | code/filesys/filesys.cc:429-465 | a search in the table of the right directory finds exactly the files of the tree |
| `Trees.ParentReachable` | code/filesys/filesys.cc:454-457 | GetParentSector can call itself for the parent |
| `Trees.HierarchyAdd` | code/filesys/filesys.cc:215-245 | adding an entry, and the empty table of a new directory, keeps every directory in step with the tree |
| `Trees.HierarchyDrop` | code/filesys/filesys.cc:361-365 | so does freeing the entry of a file that nothing belongs to |
| `Trees.HierarchyContents` | code/filesys/openfile.cc:153-210 | so does writing a file that is no directory |
| `Trees.UnderChild` | code/filesys/filesys.cc:331-351 | what is below a file of a directory is below the directory |
| `Trees.Siblings` | code/filesys/filesys.cc:331-351 | two files of one directory have nothing below them in common |
| `Trees.ChildAbove` | code/filesys/filesys.cc:331-351 | whatever is below a directory is below one of its files |
| `Trees.PruneNext` | code/filesys/filesys.cc:335-338 | the next file of the table is still there when its turn comes, with all below it |
| `Trees.PruneStep` | code/filesys/filesys.cc:336-347 | removing it keeps the account of what is gone |
| `Trees.PruneFail` | code/filesys/filesys.cc:339-346 | when it cannot be removed, only files strictly below the directory are gone, and one below is held open |
| `Trees.PruneDone` | code/filesys/filesys.cc:335-348 | after the last entry exactly the files below the directory are gone |
| `Trees.RemovalDone` | code/filesys/filesys.cc:300-374 | then the directory itself can go, and nothing but the subtree is gone |
| `Trees.ParentNotBelow` | code/filesys/filesys.cc:316-317 | the directory of a file is not among those the recursion changes, so its table in memory stays current |
| `Trees.RemovalMeans` | code/filesys/filesys.cc:300-374 | Remove in terms of paths: it succeeds if and only if the file exists and neither it nor a path below it is held open; then exactly these are gone, else only paths below it |
| `Trees.RemainsStep` | code/filesys/filesys.cc:338-338 | the recursion changes only directories at or below the one that is removed |
| `FileSystems.FileSystem.Format` | code/filesys/filesys.cc:83-128 | on every disk both ASSERTs hold and a consistent empty file system results, in the first seven sectors |
| `FileSystems.FileSystem.LayOut` | code/filesys/filesys.cc:93-111 | the bitmap marks exactly the two headers and their sectors |
| `FileSystems.FileSystem.AllocateBoth` | code/filesys/filesys.cc:99-100 | both Allocates of the format succeed |
| `FileSystems.FileSystem.FetchDirectory` | code/filesys/filesys.cc:199-200 | the bytes of any file taken for a table; that of a directory is its table; no file and no clear sector changes |
| `FileSystems.FileSystem.StoreDirectory` | code/filesys/filesys.cc:233-233 | only the bytes of that directory change, and they are the table |
| `FileSystems.FileSystem.GetParentSector` | code/filesys/filesys.cc:429-465 | the header sector of the file the path belongs to, directory or not, and -1 exactly when there is none |
| `FileSystems.FileSystem.FindIn` | code/filesys/filesys.cc:203-203 | the sector under the first entry of that name; for a directory what the tree says |
| `FileSystems.FileSystem.PlaceHeader` | code/filesys/filesys.cc:219-232 | the outcome of allocating a header with its data, and the new file beside those of the volume |
| `FileSystems.FileSystem.Enter` | code/filesys/filesys.cc:232-234 | directory and bitmap stored: one file more on the volume |
| `FileSystems.FileSystem.Place` | code/filesys/filesys.cc:207-237 | a header sector, an entry and data sectors are found, or no file and no clear sector is changed |
| `FileSystems.FileSystem.CreateIn` | code/filesys/filesys.cc:207-238 | the same, stored when everything was found |
| `FileSystems.FileSystem.InitDirectory` | code/filesys/filesys.cc:239-245 | a new directory lists nothing |
| `FileSystems.FileSystem.WriteNowhere` | code/filesys/filesys.cc:239-245 | the table of a directory that was not placed, written through the first clear sector: harmless when the bytes there decode to a harmless header; it halts when no sector is clear |
| `FileSystems.FileSystem.CreateNew` | code/filesys/filesys.cc:207-246 | Create once the name is known to be new in a directory |
| `FileSystems.FileSystem.WriteOver` | code/filesys/filesys.cc:233-233 | a table written over a live file: its first bytes are the table, the blocks it lacked are the first clear sectors, no other file changes; it halts exactly when there are too few |
| `FileSystems.FileSystem.StoreMarks` | code/filesys/filesys.cc:234-234 | a bitmap stored in file 0, whatever it marks |
| `FileSystems.FileSystem.CreateBelow` | code/filesys/filesys.cc:175-252 | Create for a path below a file that is no directory: FALSE changes nothing; it halts exactly when the file lacks more blocks than sectors are clear; after TRUE no other file has changed, the table is over the bytes of that file, and some files and tree fit the volume if and only if the file got exactly the sectors meant for the new one |
| `FileSystems.DiskDetermines` | code/filesys/filesys.cc:199-203 | a disk determines its files, its tree and its bitmap |
| `FileSystems.ConsistentMarks` | code/filesys/filesys.cc:234-234 | so at most one bitmap is right for it |
| `FileSystems.BeneathDone` | code/filesys/filesys.cc:232-234 | what the three stores of Create leave of a volume when the parent is no directory |
| `FileSystems.BeneathShows` | code/filesys/filesys.cc:233-233 | the bytes or the length of the file are then not what they were, unless it was empty |
| `FileSystems.TwinnedExact` | code/filesys/filesys.cc:232-234 | when the file gets exactly the sectors meant for the new one: it lacks as many blocks as these are, and of three the last two are adjacent |
| `FileSystems.FileSystem.Create` | code/filesys/filesys.cc:175-252 | the outcome as a function of volume, name and size; success adds exactly that file, in the first clear sector and the first run, and keeps the file system consistent; FALSE changes nothing, unless a directory was asked for and the header in the first clear sector is not harmless |
| `FileSystems.CreatedLength` | code/filesys/filesys.cc:175-252 | the new file has the length asked for |
| `FileSystems.FileSystem.Open` | code/filesys/filesys.cc:263-285 | NULL exactly when there is no such file; else its header |
| `FileSystems.FileSystem.WriteFile` | code/filesys/openfile.cc:153-210 | writing keeps the file system consistent and every other file as it was |
| `FileSystems.FileSystem.Remove` | code/filesys/filesys.cc:300-374 | succeeds exactly when the file exists and nothing from it down is held open; then exactly the subtree is gone; else only files strictly below; the file system stays consistent either way |
| `FileSystems.FileSystem.RemoveFiles` | code/filesys/filesys.cc:331-351 | the files of a directory, by recursion |
| `FileSystems.FileSystem.RemoveLeaf` | code/filesys/filesys.cc:352-365 | one file without files of its own |
| `FileSystems.FileSystem.Deallocate` | code/filesys/filesys.cc:352-363 | its sectors, and no others, become clear |
| `FileSystems.FileSystem.CreateAndRemove` | code/filesys/filesys.cc:175-374 | creating and removing a file restores the tree and the bitmap |
| `FileSystems.FileSystem.ReadAll` | code/filesys/directory.cc:62-66 | all bytes of a file; no file changes |
| `FileSystems.FileSystem.WriteAll` | code/filesys/directory.cc:75-79 | all bytes of a file are overwritten; no other file and no mark changes |
| `FileSystems.FileSystem.FetchMap` | code/userprog/bitmap.cc:148-152 | the bytes of file 0 on the disk are the bitmap |
| `FileSystems.FileSystem.StoreMap` | code/userprog/bitmap.cc:161-165 | the bytes of file 0 on the disk encode exactly the marks |
| `FileSystems.FileSystem.WriteThrough` | code/filesys/openfile.cc:153-210 | the write itself, before the bitmap file is brought up to date |
| `FileSystems.CreateDone` | code/filesys/filesys.cc:215-245 | what Create did to view and tree amounts to its promise |
| `FileSystems.LeafGone` | code/filesys/filesys.cc:352-365 | so for the removal of one file |
| `FileSystems.FirstFits` | code/filesys/filesys.cc:99-99 | the bitmap file gets sector 2 of a new disk |
| `FileSystems.SecondFits` | code/filesys/filesys.cc:100-100 | and the directory sectors 3 to 6 |
| `FileSystems.AlmostRemoved` | code/filesys/filesys.cc:349-365 | after the recursion the header, table and entry read before it are still valid |
| `FileSystems.TreeAgain` | code/filesys/filesys.cc:175-374 | the tree after Create and Remove is the tree before |
| `Paging.StoredOk` | code/machine/translate.cc:306-307 | storing a TLB entry back keeps TLB, page tables and frame table coherent and all memory as seen |
| `Paging.FreedOk` | code/machine/translate.cc:457-492 | taking a frame away keeps them coherent when the current page table does not use that page number for another frame |
| `Paging.AllocatedBad` | code/machine/translate.cc:479-479 | otherwise a frame is left that no page table entry maps to |
| `Paging.AllocatedSeen` | code/machine/translate.cc:425-522 | what any space sees of any page after a frame was taken over: the same, but for the one page the current space may lose |
| `Paging.AllocatedMemory` | code/machine/translate.cc:425-522 | no space sees a change if and only if there is no such page, or it is equal to what the store holds |
| `Paging.FilledOk` | code/machine/translate.cc:494-519 | loading a page into a free frame keeps coherence |
| `Paging.AllocatedExact` | code/machine/translate.cc:425-522 | AllocatePhysicalPage keeps coherence if and only if the frame was free, the current space owned it, or the current space has no page of that number in memory; then no space sees a change |
| `Paging.LoadedOk` | code/machine/translate.cc:308-315 | loading a translation into the TLB keeps coherence |
| `Paging.HitOk` | code/machine/translate.cc:239-263 | use and dirty bits stay equal in TLB, page table and frame table |
| `Paging.FaultOk` | code/machine/translate.cc:270-317 | a fault changes no memory and leaves the translation in the TLB |
| `Paging.AloneIsSafe` | code/machine/translate.cc:425-522 | with one address space every frame can be taken over |
| `Paging.FlushedOk` | code/userprog/addrspace.cc:207-218 | flushing a TLB entry changes no memory |
| `Paging.SwitchOk` | code/userprog/addrspace.cc:226-232 | with an empty TLB another space can be switched to |
| `Paging.BytesSeen` | code/machine/translate.cc:112-131 | the frame shows the bytes of the flat memory |
| `Paging.BytesWritten` | code/machine/translate.cc:172-186 | a store into the frame is a splice of the flat memory of that space and changes no other |
| `Paging.AlignedInPage` | code/machine/translate.cc:215-224 | an aligned access stays within its page |
| `Machines.Machine.constructor` | code/userprog/addrspace.cc:108-116 | nothing in memory: the spaces see their stores |
| `Machines.Machine.ChooseEntry` | code/machine/translate.cc:297-305 | the first invalid TLB entry, or else the first with the least stamp |
| `Machines.Machine.ChooseFrame` | code/machine/translate.cc:428-437 | the first invalid frame, or else the first with the least stamp |
| `Machines.Machine.SwapOut` | code/machine/translate.cc:457-492 | the page goes to its owner, entries and TLB are cleared |
| `Machines.Machine.AllocatePhysicalPage` | code/machine/translate.cc:425-522 | the tables, frames and memory after taking over the chosen frame |
| `Machines.Machine.Refill` | code/machine/translate.cc:306-315 | the TLB entry is stored back and replaced |
| `Machines.Machine.Fault` | code/machine/translate.cc:270-317 | for LRU_TLB and FIFO_TLB: the entry their stamp chooses is replaced and the victim frame taken over; coherence and all memory kept, the page translated afterwards |
| `Machines.Machine.Lookup` | code/machine/translate.cc:228-239 | a valid TLB entry for the page, or none exactly when it is missing |
| `Machines.Machine.Translate` | code/machine/translate.cc:206-268 | which exception, or the physical address with use and dirty bits set |
| `Machines.Machine.Reach` | code/machine/translate.cc:96-111 | one fault suffices; misaligned addresses halt |
| `Machines.Machine.ReadMem` | code/machine/translate.cc:88-135 | the little-endian value in flat memory: bytes signed, halfwords unsigned, words signed; no memory changes |
| `Machines.Machine.WriteMem` | code/machine/translate.cc:148-190 | flat memory of the current space gets the low bytes of the value; no other space sees a change |
| `Machines.StoredByte` | code/machine/translate.cc:172-186 | a store sets byte k of its place to value / 256^k mod 256, and no other byte |
| `Machines.LoadedValue` | code/machine/translate.cc:112-131 | a load returns the number its bytes are, least significant first: bytes signed, halfwords not, words signed; it halts if and only if it is not aligned |
| `Machines.LoadsBack` | code/machine/translate.cc:88-190 | a load of what was stored: the word, the low half, or the low byte as a signed number |
| `Machines.LoadsByte` | code/machine/translate.cc:88-190 | a byte load inside what was stored returns that byte of the value |
| `Machines.LoadsHalves` | code/machine/translate.cc:88-190 | halfword loads from a stored word return its low half at the address and its high half behind it |
| `Machines.Machine.SaveState` | code/userprog/addrspace.cc:207-218 | the TLB is empty and no memory changed |
| `Machines.Machine.Switch` | code/userprog/addrspace.cc:207-232 | a context switch changes no memory |
| `Machines.Machine.Step` | code/machine/translate.cc:88-190 | one access of a program that is alone agrees with flat memory |
| `Machines.Machine.Run` | code/machine/translate.cc:88-317 | every run of one program, with any mix of LRU and FIFO replacement and interruptions, returns what flat memory would |
| `Machines.Reached` | code/machine/translate.cc:215-224 | such a run goes on to the first access that is not aligned, and halts there |
| `Machines.LoadsLast` | code/machine/translate.cc:88-190 | every load in it returns, byte for byte, what was last stored at its addresses |
| `Machines.Machine.Bring` | code/machine/translate.cc:425-522 | a first reference to a page with a free frame: frame table, memory and stores afterwards |
| `Machines.LostWrite` | code/machine/translate.cc:479-479 | a run of two programs, from an empty machine, after which a byte one of them stored is gone: the last fault of the run takes it |
| `Replacement.NextOk` | code/machine/translate.cc:206-317 | misses, references, flushes and switches keep coherence and all memory |
| `Replacement.FaultedFlushed` | code/machine/translate.cc:306-315 | a fault is the flush of one entry, the allocation of a frame and the load of the entry |
| `Replacement.StepStamped` | code/machine/translate.cc:239-263 | every step keeps the stamps in TLB, page table and frame table equal to the time of the last reference |
| `Replacement.StepDated` | code/machine/translate.cc:308-315 | and the entry time in the TLB equal to the time the page last came in |
| `Replacement.OldestEntry` | code/machine/translate.cc:270-317 | in every run from an empty memory: the page that leaves a full TLB is under LRU_TLB the one whose last reference is the oldest, under FIFO_TLB the one that came in first |
| `Replacement.OldestFrame` | code/machine/translate.cc:428-437 | and the page that leaves a full memory is the one whose last reference is the oldest |
| `Semaphores.StepConsistent` | code/threads/synch.cc:64-97 | every step of P and V keeps the value from being negative and the queue equal to the sleepers |
| `Semaphores.AlwaysConsistent` | code/threads/synch.cc:64-97 | so does every run, of any threads with any priorities |
| `Semaphores.Proceeds` | code/threads/synch.cc:64-97 | a thread can go on if and only if it does not sleep; outside it can always call P and V |
| `Semaphores.Accounts` | code/threads/synch.cc:64-97 | in every run the value is the one at first plus the times a V counted up minus the times a P counted down, and each thread sleeps, is woken or waits inside V exactly when the run put it there once more than it took it out |
| `Semaphores.ValueCounts` | code/threads/synch.cc:36-97 | of a new semaphore, after every run: value = initial value + Vs - Ps, counted in the run, and not negative |
| `Semaphores.WokenInOrder` | code/threads/synch.cc:64-97 | in every run sleepers are woken in the order in which they went to sleep |
| `Semaphores.InitConsistent` | code/threads/synch.cc:36-41 | it holds of a new semaphore |
| `Semaphores.StepPromised` | code/threads/synch.cc:64-97 | while threads sleep, at least `value` woken ones are on their way, after every step that does not yield inside V |
| `Semaphores.NoLostWakeUp` | code/threads/synch.cc:64-97 | no wake-up is lost in any run without a V that is outranked |
| `Semaphores.EqualPriorities` | code/threads/scheduler.cc:67-68 | equal priorities exclude that |
| `Semaphores.LostWakeUp` | code/threads/synch.cc:93-96 | whether a V can be lost is decided by the priorities of signaller and first sleeper; the losing run is given |
| `Locks.StepExclusive` | code/threads/synch.cc:111-123 | one unit: in the semaphore, with the holder, or about to be given back; the ASSERT of Release holds |
| `Locks.MutualExclusion` | code/threads/synch.cc:111-128 | in every run, with the holders read off its Acquires and Releases: at most one, OwnerId names it, and the ASSERT of Release does not fail it |
| `Locks.Obtainable` | code/threads/synch.cc:111-117 | a lock that nobody has and nobody is giving back is had by the thread that asks |
| `Locks.InitExclusive` | code/threads/synch.cc:103-107 | it holds of a new lock |
| `ReadersWriters.MoveShares` | code/filesys/synchdisk.cc:187-213 | every step keeps the account of rCntMutex, RW and readerCnt |
| `ReadersWriters.SafeAlways` | code/filesys/synchdisk.cc:187-213 | in every run: at most one writer, no reader beside it, and readerCnt counts the readers once rCntMutex is free |
| `ReadersWriters.Waits` | code/filesys/synchdisk.cc:187-213 | exactly when a thread waits: a writer for readers and writers, the first reader for a writer, other readers only while the count is being changed |
| `ReadersWriters.StartRead` | code/filesys/synchdisk.cc:187-195 | StartRead unhindered: one more reader, and the first one takes RW |
| `ReadersWriters.EndRead` | code/filesys/synchdisk.cc:196-204 | EndRead: one reader less, and the last one gives RW back |
| `ReadersWriters.ReadAndEnd` | code/filesys/synchdisk.cc:187-204 | a read and its end leave counts and semaphores as they were |
| `ReadersWriters.WriteAndEnd` | code/filesys/synchdisk.cc:205-213 | so do a write and its end |
| `ReadersWriters.StartShares` | code/filesys/synchdisk.cc:47-55 | it holds at the start |
| `SynchLists.MovedFits` | code/threads/list.cc:77-90 | each pointer written by the one thread inside leaves the list as the next step needs it; no item is lost, added or moved out of turn |
| `SynchLists.TwoAtOnce` | code/threads/list.cc:85-88 | two threads that link at once lose an element, so the lock is needed |
| `SynchLists.ActOrderly` | code/threads/synchlist.cc:53-82 | every step keeps one lock holder, the condition queue, and pointers that lead through exactly the linked elements |
| `SynchLists.ActCarries` | code/threads/synchlist.cc:53-82 | a step puts the item of a call of Append behind those on their way, or returns the first of these from Remove, or neither |
| `SynchLists.ActAttended` | code/threads/synchlist.cc:53-82 | every step keeps an attendant for every item while threads wait |
| `SynchLists.FirstInFirstOut` | code/threads/synchlist.cc:53-82 | in every run ASSERT(item != NULL) holds; what Remove returned and then the items on their way are what the calls of Append were given, in order; and no thread waits unsignalled while items outnumber signalled consumers |
| `SynchLists.PipeLine` | code/threads/synchlist.cc:25-82 | on a new list, in every run: what Remove returned is a prefix of what Append was called with, and with the lock free the rest is on the list |
| `SynchLists.GetsOn` | code/threads/synchlist.cc:53-82 | exactly which steps a thread can take; each brings it nearer to returning or waiting and moves no other thread but the one it signals |
| `SynchLists.SignalledInOrder` | code/threads/synch.cc:139-155 | in every run waiting threads are signalled in the order in which they came |
| `SynchLists.EmptyOrderly` | code/threads/synchlist.cc:25-30 | it holds of an empty list |
| `PostOffices.PackRoundTrip` | code/network/post.cc:276-278 | header and data put together by Send are what PostalDelivery takes apart |
| `PostOffices.StepSound` | code/network/post.cc:222-246 | no ASSERT of Send, PostalDelivery and Receive fails and the worker never reads an empty buffer |
| `PostOffices.StepCarries` | code/machine/network.cc:60-139 | what is on the way stays the packets of the mails sent and not lost, in order and byte for byte |
| `PostOffices.StepBoxes` | code/network/post.cc:99-139 | every mail in a box is addressed to it |
| `PostOffices.StepInv` | code/network/post.cc:221-291 | every step keeps senders, device, packets and boxes in order |
| `PostOffices.StepPath` | code/network/post.cc:221-320 | for each box, a step puts the mail it sends behind those there and on the way, or returns the first of them, or neither |
| `PostOffices.Flow` | code/network/post.cc:221-320 | in every run, for each box: what it returned, then what it holds, then what is on the way to it, are the mails sent to it and not lost |
| `PostOffices.OpenedInv` | code/network/post.cc:176-199 | they are at the start |
| `PostOffices.Delivery` | code/network/post.cc:221-320 | in every run, read off its Sends and Receives: what a box returned is a prefix of what was sent to it and not lost, and an in-order subsequence of what was sent to it, unaltered |
| `PostOffices.NeverUnsound` | code/network/post.cc:221-291 | after every run, no step that can be taken is unsound |
| `PostOffices.Arrives` | code/network/post.cc:222-246 | from every state device and worker alone bring everything on the way into the boxes |
| `PostOffices.Collected` | code/network/post.cc:309-316 | and then Receive returns all of it |
| `PostOffices.SendReturns` | code/network/post.cc:262-291 | a Send, its interrupt and its end leave the sender as it was and one packet more on the wire, or none if lost |
| `Lists.InsertedSorted` | code/threads/list.cc:181-207 | a sorted list stays sorted, gains exactly the item, and the item comes after all with its key |
| `Lists.List.constructor` | code/threads/list.cc:43-47 | an empty list |
| `Lists.List.IsEmpty` | code/threads/list.cc:157-164 | tells whether the sequence is empty |
| `Lists.List.Append` | code/threads/list.cc:77-90 | the item is last in the sequence |
| `Lists.List.SortedInsert` | code/threads/list.cc:181-207 | the item is before the first greater key |
| `Lists.List.SortedRemove` | code/threads/list.cc:222-243 | the first item and key are taken off, none exactly when the list is empty |
| `Schedulers.NeverPutsBack` | code/threads/scheduler.cc:102-108 | Yield never reaches the branch that puts its candidate back |
| `Schedulers.SwitchedOrdered` | code/threads/scheduler.cc:92-110 | switching to the first of the list keeps every thread in one place |
| `Schedulers.StepOrdered` | code/threads/thread.cc:122-259 | Fork, Yield, Sleep and waking keep each thread running, ready once or blocked, and the list sorted |
| `Schedulers.MadeReadyBest` | code/threads/scheduler.cc:58-79 | a thread made ready gets the CPU if and only if its priority number is less than that of the running one |
| `Schedulers.StepBest` | code/threads/thread.cc:122-259 | after every call no ready thread has a lesser priority number than the running one |
| `Schedulers.StepThreads` | code/threads/thread.cc:122-259 | Sleep blocks the running thread, waking unblocks one, and Fork alone brings in a thread |
| `Schedulers.AlwaysOrdered` | code/threads/thread.cc:122-259 | so does every run; the running thread stays one with the least priority number, and a Yield never puts its candidate back |
| `Schedulers.StartOrdered` | code/threads/scheduler.cc:30-36 | all this holds of one running thread |
| `Schedulers.YieldRotates` | code/threads/thread.cc:209-224 | a Yield among peers: the first runs, the running thread goes behind its peers |
| `Schedulers.TakesTurns` | code/threads/thread.cc:209-224 | the peer at position j runs after exactly j+1 yields, and not before |
| `Schedulers.Scheduler.constructor` | code/threads/scheduler.cc:30-36 | one running thread |
| `Schedulers.Scheduler.ReadyToRun` | code/threads/scheduler.cc:58-79 | the thread is on the list; a better one than the running thread gets the CPU |
| `Schedulers.Scheduler.FindNextToRun` | code/threads/scheduler.cc:92-128 | the first of the list, or none when it is worse than the running thread |
| `Schedulers.Scheduler.Run` | code/threads/scheduler.cc:144-190 | the thread is running |
| `Schedulers.Scheduler.Yield` | code/threads/thread.cc:209-224 | the state after a Yield |
| `Schedulers.Scheduler.Sleep` | code/threads/thread.cc:244-259 | the state after a Sleep with a thread to run |
| `Schedulers.Scheduler.Fork` | code/threads/thread.cc:122-134 | the state after a Fork |
| `Interrupts.DueInserted` | code/machine/interrupt.cc:267-280 | an insertion adds to the due interrupts only if it is due itself |
| `Interrupts.OrderAdded` | code/machine/interrupt.cc:267-280 | scheduling for the future keeps the order of firings |
| `Interrupts.OrderPutBack` | code/machine/interrupt.cc:311-313 | so does putting an interrupt back |
| `Interrupts.OrderFired` | code/machine/interrupt.cc:303-338 | so does firing the first |
| `Interrupts.Interrupt.constructor` | code/machine/interrupt.cc:60-67 | nothing pending at time 0 |
| `Interrupts.Interrupt.Schedule` | code/machine/interrupt.cc:267-280 | the interrupt is pending for its time |
| `Interrupts.Interrupt.CheckIfDue` | code/machine/interrupt.cc:293-339 | fires the first pending interrupt, and only its handler, if and only if it is due or the clock may advance, and an idle machine has more than the timer; the clock then reads the later of now and its time; nothing fires early, ticks add up |
| `Interrupts.Interrupt.Occur` | code/machine/interrupt.cc:317-338 | an interrupt that is due: its handler is called, but when the machine is idle and it is the timer alone, which is put back |
| `Interrupts.Interrupt.FireAll` | code/machine/interrupt.cc:169-170 | the loop ends, and then nothing is due, but the timer alone when idle |
| `Interrupts.Interrupt.OneTick` | code/machine/interrupt.cc:150-179 | the clock advances by one tick of its mode and everything due is handled |
| `Interrupts.Interrupt.Idle` | code/machine/interrupt.cc:210-237 | the machine goes on if and only if something but the timer alone is pending, at the time of the first; otherwise no handler runs |
| `Multiplication.AddPair` | code/machine/mipssim.cc:667-672 | 64-bit addition with carry |
| `Multiplication.ShiftPair` | code/machine/mipssim.cc:674-679 | 64-bit doubling |
| `Multiplication.MultUnsigned` | code/machine/mipssim.cc:660-681 | the loop computes the exact product without sign, early exit included |
| `Multiplication.NegateWords` | code/machine/mipssim.cc:683-691 | the two's complement of the pair |
| `Multiplication.Mult` | code/machine/mipssim.cc:636-693 | hi:lo is the exact 64-bit product of the two words, signed or unsigned, the least integer included |
| `Itoa.ParseOfDigits` | code/userprog/addrspace.cc:38-42 | the digits of a number, read back, are the number |
| `Itoa.RoundTrip` | code/userprog/addrspace.cc:31-53 | what itoa writes parses back to the value, in every base from 2 to 36 |
| `Itoa.Shortest` | code/userprog/addrspace.cc:31-53 | no leading zero is written |
| `Itoa.DigitLetters` | code/userprog/addrspace.cc:41-41 | the digits are 0 to 9 and then a to z |
| `Itoa.WriteDigits` | code/userprog/addrspace.cc:38-42 | the digits, lowest first, with truncating division |
| `Itoa.ReverseInPlace` | code/userprog/addrspace.cc:47-51 | the buffer is reversed and nothing after it touched |
| `Itoa.Itoa` | code/userprog/addrspace.cc:31-53 | in a buffer with room for it, the number and a NUL; an empty string for other bases |
| `Itoa.WordDigits` | code/userprog/addrspace.cc:31-53 | 34 characters are room enough for any word in any base |
| `Strays.LaidBlots` | code/filesys/openfile.cc:161-207 | WriteAt of a table through any header: which sectors get which bytes |
| `Strays.ScribbledDone` | code/filesys/openfile.cc:161-207 | growth and write put together, for any header |
| `Strays.GrownOver` | code/filesys/openfile.cc:163-207 | a file of 1 to 384 bytes grows into the first clear sectors |
| `Strays.Overlain` | code/filesys/openfile.cc:176-207 | a longer file keeps its sectors, and its bytes behind the table |
| `Strays.TableWritten` | code/filesys/openfile.cc:153-210 | a table written through the header of a live file: halting, marks, bytes, and a consistent volume with the changed file |
| `Strays.TableShows` | code/filesys/directory.cc:130-147 | a new entry changes the bytes or the length of the file the table was read from |
| `Strays.NewTable` | code/filesys/filesys.cc:239-245 | the table of a directory that is on no volume does not matter to it |
| `Strays.HarmlessKeeps` | code/filesys/filesys.cc:239-245 | a header that asks for no blocks it would get and leads to clear sectors only does no harm to any file |
| `Strays.LeakShows` | code/filesys/filesys.cc:239-245 | a header that grows leaves marks that belong to no file |
| `Strays.LeakHappens` | code/filesys/filesys.cc:239-245 | and every such header has an outcome |
| `Strays.BlotShows` | code/filesys/filesys.cc:239-245 | a sector in use that is written to: for some bytes of a new table, whose constructor sets only flags, a file changes |
| `Strays.StrayExact` | code/filesys/filesys.cc:239-245 | Create returns with all files as they were, whatever a new table has in it, if and only if the header is harmless |
| `Strays.Overlaid` | code/filesys/directory.cc:62-66 | what FetchFrom leaves in a new table of the bytes of any file |
| `OpenFiles.OpenFile.WriteStray` | code/filesys/openfile.cc:153-210 | WriteAt of 480 bytes at position 0 through a header that may be anything |
| `StrayVolumes.LostFile` | code/filesys/filesys.cc:239-245 | a consistent volume at which creating a directory returns FALSE and destroys the bytes of a file |
| `Shortfalls.NoTwoTogether` | code/userprog/bitmap.cc:167-179 | a run in which FindN(2) halts with every other bit of the bitmap clear |
| `Shortfalls.RefusesLargest` | code/filesys/filehdr.cc:49-57 | Allocate refuses a file for which exactly the sectors needed are clear in a row |
| `Shortfalls.FitsButRefused` | code/filesys/filehdr.cc:49-57 | a run in which it does |
| `Shortfalls.EmptyParent` | code/filesys/filesys.cc:175-252 | Create f, empty, then Create f/x: TRUE, and no files and no tree fit the volume |
| `Shortfalls.ShortParent` | code/filesys/filesys.cc:175-252 | Create f, 300 bytes of zero, then Create f/x: TRUE, there is no f/x, f has 480 bytes, and the volume is consistent |
| `Shortfalls.RefusedWrite` | code/filesys/openfile.cc:163-207 | a run after which a header on the disk has blocks the bitmap does not know |

## Left out

- OpenFiles.OpenFile.WriteAt: asks for enough clear bits for the growth; what extendLength does without them is stated at `FileHeaders.FileHeader.ExtendLength`.
- FileSystems.FileSystem.WriteFile: excludes the refused write that leaves the bitmap behind; directories are written by Create and Remove only.
- FreeMaps.FreeMapFile.ExtendWrapper: works on the words of the bitmap file as an object; `FileSystems.FileSystem.WriteFile` then writes them to file 0, after the data and not before it as the source does.
- FileSystems.FileSystem.Create: takes paths of at most 38 characters, and directories above the parent to exist, as the source does without checking; a path below an ordinary file is `FileSystems.FileSystem.CreateBelow`; after a halt nothing is promised.
- FileSystems.FileSystem.CreateBelow: says nothing of a directory below a file of 1 to 384 bytes, whose header is overwritten before its table is written through it.
- FileHeaders.FileHeader.ExtendStray: a negative number of blocks halts as an access outside the array; the source stores into the fields before it, the number of blocks first.
- FileSystems.FileSystem.Open: below an ordinary file only when nothing in its bytes passes for the name; else the source opens whatever sector these bytes give.
- FileSystems.FileSystem.Remove: the same below an ordinary file; takes the files held open by others as a set that does not change meanwhile.
- Strays.StrayExact: leaves out headers of 164 or 165 blocks and at most 384 bytes that fill up an index block in use.
- OpenFiles.OpenFile.WriteStray: says of a header that grows beyond its direct slots only that the kernel halts or marks are added.
- Machines.Machine.ReadMem: takes the page number to be below the size of the page table, and a state in which the frame that would be chosen can be taken over, which one address space guarantees.
- Machines.Machine.Run: is about one program until it exits; pages freed at exit are not modelled.
- Semaphores.StepConsistent: steps are values; the heap objects, interrupt levels and stacks of the source are not there.
- SynchLists.FirstInFirstOut: takes P and V as atomic, as the comments of Semaphore promise, and so do the readers and writers.
- PostOffices.Delivery: takes the mail boxes as queues and all machines to have the same number of boxes.
- Schedulers.Scheduler.Sleep: needs a ready thread; idling until an interrupt makes one ready is not joined to it.
- Interrupts.Interrupt.OneTick: leaves out the yield a timer handler asks for, and handlers that switch threads.
- Multiplication.Mult: negating the least integer wraps, as the usual compilers make it.
- Concurrent use of the file system and of the disk cache, for which the source picks its victim outside the lock.
- Condition::Broadcast and Barrier, a single-use count under one lock.
- Time stamps in headers, which are arbitrary bytes here, and all printing.
- Disk latency, the timer, console, UNIX files and sockets: foreign calls.
- The inverted page table and SCHED_SLICE, which are not wired in; the rest of the instruction set; system-call plumbing; the COFF tools.
- Uninitialized variables: the number of index blocks of a small file is taken as 0, buffers start with any bytes.
