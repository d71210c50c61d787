# SimpleFS: model and proofs

A Dafny model of SimpleFS, a small FUSE file system in Rust (`src/`), and of the free list of
the older C version (`simplefs.c`). The disk is an array of 512-byte blocks; every operation is
written as the code writes it, block by block, and proved against what the blocks mean.

## Layers

| module | what it is |
|---|---|
| `Wrappers`, `Bytes`, `Device` | words, bitwise operators, little-endian codec; the disk with whole-block reads and writes. A ghost history `hist` records the disk after every block write. |
| `Superblock`, `Inodes`, `DirEntries` | the three record formats |
| `Volume` | the meaning of a disk: `View` reads off a superblock, a set of allocated blocks, a table of inode records and the data blocks. Every write changes exactly one of the four. |
| `Allocator`, `Bitmap` | the set of free blocks both allocators refine; first fit over packed bits |
| `InodeTable`, `Ownership`, `FileData` | records by number, the direct/indirect block map, who holds which block, files as byte strings |
| `Namespace`, `DirView`, `Directory` | the tree of names; directories as finite maps; the slot operations |
| `Invariant`, `Format`, `Operations`, `Growth`, `FileIO`, `Removal`, `FileSystem` | the invariant (`Sound`, and `TreeOk` for the names), what a crash may leave (`Safe`), and the FUSE operations as methods of `SimpleFS` |
| `Conservation`, `RoundTrip`, `PathWalk`, `Paging` | every block accounted for; what pairs of operations undo; path resolution; listings in pages |
| `Machine`, `Refinement`, `Runs` | the file system as its users see it - names, bytes, owners, modes, times, how many blocks are free - and the proof that every run from format refines it |
| `FreeList` | the linked free list of `simplefs.c` |
| `Layout` | the format on the disk in numbers: which byte of which block holds what |

The top result is `Runs.Run`: any sequence of requests, with remounts and panics in it, leaves a
valid state, and its answers, ENOSPC and panics included, are the ones the machine in `Machine`
determines. `SimpleFS.Valid` holds the ownership invariant, the exact counter, zero bytes past
the end of files, and a rooted tree of names. `SafeSince` in the contracts of `Create`, `MkDir`,
`Write` and `SetAttr` says that a crash after any single block write leaves no live inode
pointing at a free or shared block, and a tree whose entries all name live inodes.

## What the code does that its documentation does not say

- **The inode table is too small.** It has 25 blocks, so 150 slots, while `mkdir` numbers
  directories from 500 and `create` numbers files from 1000: those records land in data blocks 89
  to 339 (`Inodes.ShippedSlotsAreDataBlocks`, `Volume.ShippedInodeHitsData`). A number's slot lies
  in the table exactly when it is below six per table block (`Inodes.SlotInTable`), so the table
  size is a parameter of the geometry and the operations are proved under `LayoutOk`, which asks
  for that. For the shipped constants, first fit reaches no block from 89 on while fewer than 90
  blocks are in use (`Bitmap.ShippedFirstFit`).
- **Files end at 10200 bytes.** `README.md` of the repository says 132 KB; `write` stops at 20
  blocks (src/fs.rs:29), as `Conservation.FileShape` and the EFBIG case of `Write` say.
- **Names are cut at 28 bytes.** A new entry has the name it was given exactly for names of 1 to
  28 bytes (`DirEntries.NewEntryNamed`); `Create` and `MkDir` ask for such names.
- **Two panics.** `write` panics exactly when the free blocks end between the eleventh block and
  its indirect block (`FileIO.GrowAnswerSays`); `mkdir` panics exactly when the parent cannot take the
  name, and leaves a directory without a name. Both are answers of the model, and the disk they
  leave is valid.
- **Failures leak.** A `write` that runs out of space leaks every block that was free: it takes
  them one by one and gives none back (`FileIO.GrowFile`). A `create` whose directory is full
  leaves a live file without a name. The contracts say so exactly; nothing else changes.
- **Reformatting does not clear the table.** The recovery branch of `mount` (src/fs.rs:61-66)
  leaves the old records where they are. The result is right if and only if every live one but
  inode 1 is an empty file without blocks (`Format.RootedSound`).
- **A new file changes answers below its name.** `path_resolve` says "no such directory" for
  p/name/x before `name` is created and "not a directory" after
  (`PathWalk.CreateChangesLongerPaths`). What it answers changes exactly for the paths that come to
  the entry; which inode it finds, exactly for those that end there
  (`PathWalk.CreateChangesItsPathsOnly`).

## Model

The main results come first, marked as such; the rest are the steps they are built from, in
the order of the layers.

| member | source | states |
|---|---|---|
| Runs.Run | src/fs.rs:128-591 | **Main.** every run from format keeps the invariant, and its answers and its final state, with owners, modes and times by the clock readings, are those of the machine |
| Runs.Serve | src/fs.rs:128-591 | **Main.** every request has the answer and the effect the machine determines for it, byte counts, times, ENOSPC and panics included; the growing ones are safe at every single write |
| FileSystem.SimpleFS.Create | src/fs.rs:258-313 | **Main.** succeeds exactly for a new name, a free number and a directory with room; then enters an empty file under the least free number of 1000 to 2000, with mode 0o644, owner and group 1000, one link and the current time three times, touching only it and the directory; each failure and what it leaves; safe at every write |
| FileSystem.SimpleFS.MkDir | src/fs.rs:316-383 | **Main.** likewise for a directory: least free number of 500 to 900, mode 0o755, owner and group 1000, two links, 510 bytes in the least free block; panics exactly if the parent has no room; safe at every write |
| FileSystem.SimpleFS.Unlink | src/fs.rs:526-558 | **Main.** ENOENT, EISDIR and success exactly when; success removes the name, frees the blocks, retires the record and stamps the parent with the current time, and touches nothing else |
| FileSystem.SimpleFS.RmDir | src/fs.rs:386-425 | **Main.** ENOENT, ENOTDIR, ENOTEMPTY and success exactly when; success as above |
| FileSystem.SimpleFS.Write | src/fs.rs:428-523 | **Main.** which answer, in numbers: all bytes written, EFBIG exactly past 10200 bytes, the panic exactly when 11 - k blocks are free for a file of k that crosses ten blocks, ENOSPC otherwise; success splices the data into the zero-extended file, takes exactly the blocks needed and touches nothing else; EFBIG changes nothing; ENOSPC and the panic change no file and leak every block that was free; safe at every write |
| FileSystem.SimpleFS.Read | src/fs.rs:213-255 | **Main.** the slice of the file from the offset, cut off at its end |
| FileSystem.SimpleFS.Mount | src/fs.rs:47-75 | **Main.** a new image becomes an empty file system whose root record and layout are given in numbers; an old one is taken as it is, unchanged; a damaged one is formatted over, and valid exactly if no old record but inode 1 holds a block |
| Conservation.BlocksConserved | src/bitmap.rs:77-96 | **Main.** blocks in use = system area + what the sizes of the live inodes ask for + leaked blocks |
| RoundTrip.CreateWriteUnlink | src/fs.rs:545-557 | **Main.** create, writes, unlink in a directory with a free slot succeed exactly for a new name, a free number and writes that fit, and restore the bitmap, the counter and all names |
| RoundTrip.MkDirRmDir | src/fs.rs:412-422 | **Main.** likewise mkdir, rmdir |
| Directory.DirAddEntry | src/directory.rs:146-207 | **Main.** which answer, from the names listed, the blocks and the counter; only success changes anything, and it inserts the name in the first free slot or at the front of the least free block, zero behind it |
| PathWalk.PathResolve | src/directory.rs:238-294 | **Main.** finds exactly what walking the directory maps finds, with the right error otherwise, and depends on the components only |
| PathWalk.CreateChangesItsPathsOnly | src/fs.rs:258-313 | **Main.** creating a file changes the answer exactly for paths that come to its entry, and the inode found exactly for those that end in it |
| PathWalk.UnlinkChangesItsPathsOnly | src/fs.rs:526-558 | **Main.** removing a file changes the answers back, for the same paths |
| Namespace.PathUnique | src/directory.rs:262-291 | **Main.** and by no other path without dots |
| Bitmap.AllocateBlock | src/bitmap.rs:106-147 | **Main.** the least free block below MAX_BLOCKS, whether or not the disk fills its last bitmap block; None changes nothing and means that the counter is 0 or all is marked |
| Bitmap.FirstFitBound | src/bitmap.rs:106-147 | **Main.** the block handed out is at most the number of blocks in use |
| Paging.PagesMakeListing | src/fs.rs:160-181 | **Main.** pages of any capacities of at least one, each resumed at the last cookie, make up every live entry once, in slot order, and end |
| Paging.PageEntries | src/fs.rs:160-181 | a page holds the entries from the offset on, as many as fit, each with number, kind, name and cookie |
| Runs.ValidBlocks | src/fs.rs:454-488 | **Main.** in every reachable state the blocks in use are marked data blocks held once, the counter is exact and the blocks add up |
| Runs.ValidNames | src/fs.rs:616-638 | **Main.** and reachable inodes have exactly one path without dots |
| Runs.Remount | src/fs.rs:47-75 | **Main.** a mount of the image gives back the same superblock, volume and names |
| FreeList.ChainedDisk.ReleaseChain | simplefs.c:353-360 | **Main.** releasing a file's chain adds exactly its blocks, in reverse order in front |
| FreeList.RunList | simplefs.c:353-504 | **Main.** through any sequence of allocations, frees, block writes and releases of file chains: each answer is the one its state gives, an illegal request is refused; the blocks in use are those taken and not given back, by the answers; the list holds the others, each once, in the order it will hand them out, and the counter is their number |
| Device.Disk.constructor | src/disk.rs:58-64 | a new image is all zero |
| Device.Disk.ReadBlock | src/disk.rs:69-82 | a read returns the block and changes nothing |
| Device.Disk.WriteBlock | src/disk.rs:87-102 | a write replaces one block, and its outcome joins the history |
| Superblock.DecodeEncode | src/superblock.rs:39-57 | decoding an encoded superblock gives it back, whatever follows in the block |
| Superblock.ToBytes | src/superblock.rs:60-71 | filling the buffer field by field gives the encoding |
| Superblock.WriteSuperblock | src/superblock.rs:128-133 | block 0 becomes the image of the record; one write |
| Superblock.ReadSuperblock | src/superblock.rs:117-125 | the record in block 0, or the panic exactly on a wrong magic number |
| Superblock.InitSuperblock | src/superblock.rs:88-114 | the layout fits the disk: one bitmap block for 4096 blocks, then the table, then the data area, whose size the counter is |
| Inodes.DecodeEncode | src/inode.rs:100-133 | decoding an encoded inode gives it back, over the full range of every field |
| Inodes.ToBytes | src/inode.rs:136-156 | filling the buffer field by field gives the encoding |
| Inodes.DirBit | src/fs.rs:102-103 | the mask test for a directory is bit 14 of the mode |
| Inodes.NewKinds | src/inode.rs:62-97 | new files are no directories, new directories are |
| Inodes.SlotsDisjoint | src/inode.rs:223-228 | two inode numbers in the same block share no byte, and slots end inside the block |
| Inodes.SlotInTable | src/inode.rs:223-228 | a slot lies in the table if and only if the number is below six per table block |
| Inodes.ShippedSlotsAreDataBlocks | src/superblock.rs:92-94 | with 25 blocks, every number of `mkdir` and `create` has its slot in the data area, from block 89 on |
| Volume.ShippedInodeHitsData | src/inode.rs:239-247 | with the shipped constants, on every disk and for every number of `mkdir` and `create`: the record is written into a data block, which changes exactly if its 84 bytes differ, and nothing else does |
| Format.FormatShipped | src/superblock.rs:92-94 | on a freshly formatted disk of the shipped size each of those records changes a data block |
| Volume.ViewSetSuper | src/superblock.rs:128-133 | writing block 0 changes the superblock and nothing else the disk means |
| Volume.ViewSetBit | src/bitmap.rs:64-97 | changing one bit adds or removes one block number and nothing else |
| Volume.ViewSetInode | src/inode.rs:239-247 | splicing a record into its slot replaces that inode and no other, nor any data |
| Volume.ViewSetData | src/disk.rs:87-102 | writing a block of the data area changes that block only |
| Bytes.FullByte | src/bitmap.rs:122-125 | a byte is 0xFF if and only if all its bits are set |
| Bytes.SpliceSame | src/inode.rs:239-247 | splicing changes a buffer exactly if other bytes were there |
| Bitmap.MaskedBit | src/bitmap.rs:73-91 | or with a mask sets one bit of a byte, and with its complement clears one; the others stay |
| Bitmap.IsAllocated | src/bitmap.rs:47-61 | true exactly for marked blocks and for numbers past the disk |
| Bitmap.MarkAllocated | src/bitmap.rs:64-79 | the block joins the set, then the counter drops by one; the state between the two writes |
| Bitmap.MarkFree | src/bitmap.rs:82-97 | the block leaves the set and the counter rises by one; for a block in use that is the set allocator's free |
| Bitmap.FirstClearBit | src/bitmap.rs:128-131 | the least clear bit of a byte that is not full |
| Bitmap.FindClear | src/bitmap.rs:114-146 | the scan returns the least clear bit of the bitmap area, or none exactly if all are set |
| Bitmap.NoneIffFull | src/bitmap.rs:107-109 | with a correct counter, it is 0 exactly when no block is free |
| Bitmap.ShippedFirstFit | src/superblock.rs:90-99 | no block from 89 on is handed out while fewer than 90 are in use |
| Bitmap.FirstFitAllocates | src/bitmap.rs:106-147 | first fit meets the set allocator's specification |
| Bitmap.MarkBelow | src/bitmap.rs:162-167 | the mark loop sets exactly the bits below the data area |
| Bitmap.InitBitmap | src/bitmap.rs:153-178 | after it, the blocks before the data area are marked and no others |
| InodeTable.ReadInode | src/inode.rs:231-236 | the record of that number |
| InodeTable.WriteInode | src/inode.rs:239-247 | that record is replaced, every other one and every block stays; one write |
| InodeTable.GetBlock | src/inode.rs:176-196 | the block number through the direct or indirect pointers, None for 0 |
| Ownership.WriteUnheld | src/fs.rs:484-486 | writing a block that nobody holds touches no inode |
| Ownership.WriteOwn | src/fs.rs:500-506 | writing a payload block of an inode touches that inode only and keeps every block map |
| Ownership.ChangeOne | src/fs.rs:514-520 | ownership survives when one inode changes to distinct data blocks that nobody else holds |
| FileData.GrowDirect | src/fs.rs:465-466 | block 0 to 9: the inode gains a zero block, all else keeps |
| FileData.GrowIndirect | src/fs.rs:467-473 | block 10: likewise, with a fresh indirect block |
| FileData.GrowPointer | src/fs.rs:474-482 | blocks 11 to 19: likewise, through the indirect block |
| FileData.GrownBytes | src/fs.rs:484-487 | the bytes the file had stay, and a page of zeros follows |
| FileData.UntouchedFile | src/fs.rs:490-520 | an inode out of the frame keeps its bytes and zero tail |
| DirEntries.NewEntryNamed | src/directory.rs:46-58 | a new entry is live and has its name if and only if the name has 1 to 28 bytes |
| DirEntries.DecodeEncode | src/directory.rs:71-79 | decoding an encoded entry gives it back |
| DirEntries.ToBytes | src/directory.rs:82-89 | filling the buffer gives the encoding |
| DirEntries.EntrySplice | src/directory.rs:172-176 | writing one slot changes that slot only |
| DirEntries.EntryCleared | src/directory.rs:222-224 | clearing one name length empties that slot only |
| DirEntries.FindInListing | src/directory.rs:120-140 | a slot is found exactly for the names of the map, with what the map says |
| DirEntries.ListingInsert | src/directory.rs:173-176 | filling a free slot with a new name is insertion, and keeps names distinct |
| DirEntries.ListingPadded | src/directory.rs:194-196 | free slots behind the others do not change the map |
| DirEntries.ListingDelete | src/directory.rs:222-224 | clearing a slot is deletion |
| DirEntries.LiveEntriesInOrder | src/directory.rs:96-117 | the enumeration goes through the slots in order |
| DirEntries.LiveEntriesMembers | src/directory.rs:96-117 | the enumeration has every live entry and no empty one |
| DirEntries.LiveEntriesCount | src/directory.rs:96-117 | and as many entries as the map has names, so each once |
| Namespace.TreeEnter | src/fs.rs:258-383 | entering a detached file or empty directory under a free name keeps a rooted tree |
| Namespace.TreeRemove | src/fs.rs:386-425 | removing a file or an empty directory keeps a rooted tree |
| Namespace.TreeDetached | src/fs.rs:292-294 | writing the record of an inode without a name does not concern the tree |
| Namespace.WalkStays | src/directory.rs:262-291 | no path leaves the tree, dots included |
| Namespace.PathReaches | src/directory.rs:262-291 | every attached inode is reached by the names from the root down |
| Namespace.ReachableIffAttached | src/fs.rs:187-198 | the inodes reachable from inode 1 are exactly the attached ones |
| Namespace.UpFromChild | src/directory.rs:262-291 | p/x/.. is p for every subdirectory x of p |
| DirView.FindIsStep | src/directory.rs:120-140 | `dir_find` is one step of the namespace, dots included |
| DirView.EntriesCount | src/directory.rs:96-117 | a directory has as many live entries as names and two more |
| DirView.EmptyIffTwo | src/fs.rs:404-409 | at most two entries if and only if the directory has nothing but the dots |
| DirView.SlotEdit | src/directory.rs:173-176 | replacing a slot on disk replaces it in the directory and touches no other inode |
| DirView.SlotsExtend | src/directory.rs:189-202 | chaining a block on appends its slots and touches no other inode |
| Directory.DirFind | src/directory.rs:120-140 | the first live slot with the name, and its place; None exactly if there is none |
| Directory.DirLookup | src/directory.rs:96-117 | every live entry in slot order, each with its block and byte offset |
| Directory.FindFreeSlot | src/directory.rs:164-184 | the first free slot, and its place; None exactly if all are taken |
| Directory.AddInSlot | src/directory.rs:173-181 | the slot reuse branch: map insertion, two writes, each leaving the directory as it was or with the name |
| Directory.AddInBlock | src/directory.rs:189-203 | the extension branch: map insertion with one more block, each of its writes staged; fails exactly without a free block, changing nothing |
| Directory.AddAnswerSays | src/directory.rs:146-207 | already there exactly for a listed name; too large exactly for a new name with 150 listed; no free block exactly for a new name with all slots of fewer than ten blocks taken and the counter at 0 |
| Directory.FullEntries | src/directory.rs:164-184 | a slot is free exactly if there are fewer live entries than slots |
| Directory.DirRemoveEntry | src/directory.rs:210-230 | deletes the name and nothing else, or changes nothing if there is no such name |
| Invariant.ReserveBlock | src/fs.rs:349-355 | allocation fails exactly at counter 0; otherwise the block was free, held by nobody and a data block, and the accounts stay right |
| Invariant.ChangedSafe | src/fs.rs:348-379 | a state in which one inode changed within its frame is safe with any tree that fits the change |
| Invariant.StagedSafe | src/directory.rs:189-203 | so is every state of an operation staged between two meanings of one inode |
| Format.FormatNewFs | src/fs.rs:607-647 | on any disk: a root directory as inode 1 in the first data block, exactly the system area and that block marked, and nothing of the old table or data touched; the invariant holds exactly if no other old record holds a block; on a zero disk it does, and nothing is leaked |
| Format.RootedSound | src/fs.rs:61-66 | reformatting over an old table is right if and only if every old live record but inode 1 is an empty file without blocks; the names are right in any case |
| Format.OldBlocksBreakFormat | src/fs.rs:61-66 | one old record with a block breaks it |
| Format.WriteDots | src/fs.rs:626-632 | the block of a new directory holds its two dots |
| Operations.DotBlockLayout | src/fs.rs:357-364 | two entries, named by one dot and two dots, and zeros |
| Operations.DotBlockFolder | src/fs.rs:357-364 | which spell a directory with that self, that parent and no other name |
| Operations.NewDirChange | src/fs.rs:348-369 | block and record together make one new directory that holds that block |
| Operations.NewFileChange | src/fs.rs:292-294 | the record alone makes an empty file that holds nothing |
| Operations.Chmod | src/fs.rs:581-584 | nine bits of the new mode, four of the old, no others |
| Operations.RecordOnly | src/fs.rs:580-586 | a change of mode and time keeps bytes, entries and the invariant |
| Growth.StepDirect | src/fs.rs:465-487 | one round of the grow loop keeps what is on disk and extends the pending file, direct |
| Growth.StepIndirect | src/fs.rs:467-487 | the same with the first indirect block |
| Growth.StepPointer | src/fs.rs:474-487 | the same through the indirect block |
| Growth.PointerOnDisk | src/fs.rs:474-482 | rewriting the indirect block past the block count touches no inode on disk |
| Growth.WriteStep | src/fs.rs:496-512 | one round of the copy loop puts its piece of data in place in the pending file |
| Growth.OnDiskWrite | src/fs.rs:500-506 | meanwhile every other inode is untouched and the file stays owned |
| Growth.WriteDone | src/fs.rs:514-520 | writing the record back makes the file the old bytes, zero-extended, with the data over them |
| FileIO.AttachDirect | src/fs.rs:464-487 | the branch for blocks 0 to 9, every write staged |
| FileIO.AttachIndirect | src/fs.rs:467-487 | the branch for block 10; fails exactly without a second free block |
| FileIO.AttachPointer | src/fs.rs:474-487 | the branch for blocks 11 to 19 |
| FileIO.GrowAnswerSays | src/fs.rs:454-488 | the answers of the loop in numbers: success, the panic and the shortage, each exactly when |
| FileIO.GrowFile | src/fs.rs:454-488 | the whole loop: which answer and how many blocks it takes, in numbers of free blocks; that no block is left free when it fails, and that what is on disk reads as before after every write |
| FileIO.CopyData | src/fs.rs:490-512 | the copy loop puts all the data in place and its `expect` never fires |
| FileIO.ReadFile | src/fs.rs:224-254 | the slice of the file, cut off at its end, across direct and indirect blocks |
| Removal.FreePayload | src/fs.rs:411-416 | exactly the payload blocks are freed and counted |
| Removal.FreeAll | src/fs.rs:544-552 | exactly the blocks the file holds are freed, the indirect one included |
| Removal.UndoneSound | src/fs.rs:411-422 | after the blocks, the record and the name are gone the invariant holds again |
| Removal.RetireThenUnlist | src/fs.rs:554-557 | the order of `unlink` comes to that |
| Removal.UnlistThenRetire | src/fs.rs:418-422 | and so does the order of `rmdir` |
| FileSystem.FindFreeInode | src/fs.rs:277-290 | the least free number of the range, None exactly if all are taken |
| FileSystem.CreatedSays | src/inode.rs:62-79 | the record of a new file, field by field, and its number in 1000 to 2000 |
| FileSystem.MadeDirSays | src/inode.rs:82-97 | the record of a new directory, field by field, its number in 500 to 900 and its block, the least free one |
| FileSystem.SimpleFS.AddName | src/fs.rs:296-309 | entering a name keeps the invariant and the tree, safe at every write |
| FileSystem.SimpleFS.MakeFile | src/fs.rs:292-294 | a file without a name, and nothing else |
| FileSystem.SimpleFS.MakeDir | src/fs.rs:348-369 | a directory without a name, with the least free block, and nothing else |
| FileSystem.SimpleFS.FinishWrite | src/fs.rs:490-520 | copying and the record, once the blocks are there |
| FileSystem.SimpleFS.SetAttr | src/fs.rs:562-591 | permission bits and time change; kind, bytes, entries and all other inodes stay; safe |
| FileSystem.SimpleFS.GetAttr | src/fs.rs:130-139 | the record, or ENOENT exactly if it is free |
| FileSystem.SimpleFS.Lookup | src/fs.rs:187-198 | one step of the namespace, with the record it leads to |
| FileSystem.SimpleFS.ReadDir | src/fs.rs:144-182 | one page of the live entries from an offset; ENOTDIR exactly for files |
| FileSystem.StuckOutcome | src/fs.rs:456-462 | a write that ran out of space leaves every name and byte, and leaks what it marked |
| FileSystem.WriteAnswerSays | src/fs.rs:437-523 | the answer of `write` and the blocks left, in numbers, each exactly when |
| PathWalk.ComponentsSplit | src/directory.rs:249-252 | a slash ends a component; doubled, leading and trailing slashes add none |
| PathWalk.ComponentsOfJoin | src/directory.rs:249-252 | splitting a spelled-out list of names gives it back |
| PathWalk.ResolveIsWalk | src/directory.rs:262-291 | resolution succeeds exactly where walking the directory maps does, with the same inode, parent and last name |
| PathWalk.ResolveErrors | src/directory.rs:262-291 | each error exactly when: a component of no or more than 28 bytes, a missing name, a file in the way, whichever comes first |
| PathWalk.ResolveWithFile | src/directory.rs:262-291 | with and without the entry of a file, resolution answers alike but for paths that come to the entry; there, the two answers are given |
| PathWalk.CreateChangesLongerPaths | src/directory.rs:278-288 | a path that goes on after the entry changes from "no such directory" to "not a directory", so not only paths that end there change |
| Conservation.HeldSetCount | src/fs.rs:447-488 | an inode holds exactly as many blocks as its size says |
| Conservation.FileShape | src/fs.rs:447-488 | a file has one block per 510 bytes, at most 20, and an indirect block if and only if it is longer than 5100 bytes |
| Conservation.WriteLeaksNothing | src/fs.rs:447-520 | a successful write leaks no block |
| Conservation.CreateLeaksNothing | src/fs.rs:292-312 | nor does a successful create |
| Conservation.MkDirLeaksNothing | src/fs.rs:348-382 | nor mkdir |
| Conservation.RemovalLeaksNothing | src/fs.rs:411-422 | nor unlink and rmdir |
| RoundTrip.OthersKeep | src/fs.rs:490-520 | an inode outside the frame of an operation keeps its record, bytes and entries |
| RoundTrip.WrittenShape | src/fs.rs:490-518 | the data is at its offset, a gap in front of it is zero, the rest is as it was |
| RoundTrip.AllIffFit | src/fs.rs:447-462 | a list of writes all succeeds exactly if the farthest one fits |
| RoundTrip.WriteAll | src/fs.rs:428-523 | how many of a list of writes succeed, that the file is then the fold of those, and that a failure leaves no block free or asked for too many |
| Machine.ReadAfterWrite | src/fs.rs:428-523 | in the machine, a write is done exactly when it ends within 10200 bytes and its blocks are free; it then answers the number of bytes and they read back; otherwise no file changes |
| Refinement.GapIsSlot | src/directory.rs:164-184 | a directory has a free slot exactly if its slots outnumber its names and dots |
| Refinement.FreeMoves | src/bitmap.rs:77-96 | the counter moves with what one inode uses when the other blocks in use stay |
| Refinement.CreateRefines | src/fs.rs:292-312 | what create does to the blocks is what the machine does |
| Refinement.NamelessRefines | src/fs.rs:294-309 | likewise for the file a failed create leaves |
| Refinement.MkDirRefines | src/fs.rs:348-382 | likewise mkdir |
| Refinement.NamelessDirRefines | src/fs.rs:371-379 | likewise for the directory a panicking mkdir leaves |
| Refinement.RemovalRefines | src/fs.rs:411-422 | likewise unlink and rmdir |
| Refinement.WriteRefines | src/fs.rs:490-520 | likewise write |
| Refinement.LeakRefines | src/fs.rs:456-462 | a write without space changes the counter only |
| Refinement.SetAttrRefines | src/fs.rs:580-586 | likewise setattr |
| Refinement.ListingComplete | src/fs.rs:160-181 | the live entries are the names of the directory and its dots, each exactly once |
| Refinement.NewRefines | src/fs.rs:607-647 | a formatted disk is the machine's first state |
| Runs.Reach | src/fs.rs:187-198 | looking names up one by one from the root walks the tree |
| Runs.ServeList | src/fs.rs:144-182 | resuming `readdir` until a reply is empty lists the directory |
| Runs.ServeStat | src/fs.rs:130-139 | `getattr` answers the owner, mode, times and size the machine keeps |
| FreeList.DecodeImage | simplefs.c:417-418 | the superblock read back from block 0 is the one in memory |
| FreeList.ChainedDisk.constructor | simplefs.c:425-453 | after format the trailers chain every block but 0 and the root directory's, in order, ending at 0; every payload and the whole root directory block is zero |
| FreeList.ChainedDisk.AllocateBlock | simplefs.c:471-489 | hands out the head of the chain, 0 exactly if none is free; a set allocator |
| FreeList.ChainedDisk.FreeBlock | simplefs.c:491-504 | puts the block, zeroed, in front of the chain; the set grows by it |
| FreeList.ChainedDisk.WriteBlock | simplefs.c:463-469 | an owner writes its block, trailer and all; the free list does not see it |
| FreeList.LinkedIsChain | simplefs.c:353-360 | trailers of blocks in use link a file exactly if the disk chains it |
| FreeList.TakeAnswer | simplefs.c:471-489 | the answer is the head of the list, 0 only when there is none |
| FreeList.ChainedDisk.FreeThenAllocate | simplefs.c:471-504 | a block given back is the next handed out, and the list is as it was |
| Layout.LittleEndian16 | src/inode.rs:136-156 | numbers are stored low byte first, in two bytes |
| Layout.LittleEndian32 | src/superblock.rs:60-71 | in four bytes |
| Layout.LittleEndian64 | src/inode.rs:136-156 | and in eight, negative ones in two's complement |
| Layout.SuperblockLayout | src/superblock.rs:60-71 | which bytes of block 0 hold which field, and zeros behind them |
| Layout.MagicSpelled | src/superblock.rs:74-76 | a superblock is valid exactly if its first thirteen bytes spell the name |
| Layout.RegionLayout | src/superblock.rs:88-99 | where table and data start, in numbers, also for the shipped size |
| Layout.BitmapLayout | src/bitmap.rs:47-61 | which bit of which byte of which block says that a block is in use |
| Layout.TableLayout | src/inode.rs:223-228 | which bytes of which block are the record of an inode |
| Layout.InodeLayout | src/inode.rs:136-156 | which bytes of a record hold which field |
| Layout.BlockMapLayout | src/inode.rs:176-196 | where block k of a file is found and where its byte p |
| Layout.EntryLayout | src/directory.rs:82-89 | which bytes of an entry hold which field |
| Layout.SlotLayout | src/directory.rs:107-110 | which bytes of which block are slot q of a directory |
| Layout.EntryFields | src/directory.rs:46-58 | the fields of a new entry |
| Layout.ChainedLayout | simplefs.c:425-453 | the bytes of block 0 of the C version |
| Layout.TrailerLayout | simplefs.c:20 | the trailer of a block is its last two bytes, low byte first |

## Left out

- Disk system calls, fsync, file descriptors and `Drop`: a disk is an array of blocks whose block writes are atomic and do not fail. `read_partial`, `write_partial` and `set_block` have no callers.
- FUSE replies, `inode_to_attr`, TTLs, `main.rs`: operations return plain results. The reply buffer of `readdir` is a number of entries.
- Clocks: every time is a parameter.
- UTF-8: names are byte strings, so the fall-backs "???", "unknown" and "" do not occur.
- `check_permission` and `open`: bit tests without state.
- An old image with the right magic number and broken contents: `mount` takes it as it is, and nothing is promised of it.
- The shipped table size: the operations are proved under `LayoutOk`, see above for what fails without it.
- What the kernel guarantees is asked for: inode numbers that are live and of the right kind, names of 1 to 28 bytes for `create` and `mkdir`, no `rmdir` of a dot, offsets that are not negative and fit the cast at src/fs.rs:447-448. Access to an inode after its last name is removed is not modelled.
- Crash safety of `unlink` and `rmdir`: they free blocks before they retire the inode, so the invariant holds at their boundaries only.
- Superblock and inode records are values, as local variables of the code; the disk, the buffers and the file system are objects.
- `simplefs_write` of the C version: its tail search does not read the next block (simplefs.c:253-258), so it does not keep the chains `ReleaseChain` asks for. The C directory and its string handling are not modelled either.
- RoundTrip.CreateWriteUnlink: with a directory that has no free slot, the directory keeps the block it grew by; only the names are then as before.
