# Operating-system course projects: models and proofs

The repository holds course projects around the xv6 teaching kernel and a heap allocator. This project models
their algorithms in Dafny and proves what they are for:

- **File system** (`Disk`, `Images`, `Space`, `FileSystem`): sectors, the bitmap, inodes with twelve direct
  pointers and one indirect block. Files are byte sequences because every block has one owner, and fresh blocks
  are zero because a freed block is zeroed. A run of operations on blocks is shown to be the same run on byte
  sequences, read results included, and to stop exactly where the sizes of the files say that it must.
- **Directories and names** (`NameTree`, `Dirents`, `Path`): the directory tree and the link counts over every
  run of create, mkdir, link, unlink and chdir; directory records in file bytes; paths in characters.
- **System calls** (`Syscalls`): the two joined. Create, link, unlink, read and write act on directory records and
  bytes in blocks, and any run of them is the run on names and bytes.
- **Image builder** (`Mkfs`, `RootImage`): the image made of a host directory is where such a run may start, with
  the exact condition.
- **Heap of project 3** (`Tiles`, `NextFit`, `Heap`): the region as tiles, the free list in the headers, next
  fit, coalescing, the slab stack.
- **User allocator** (`KrMalloc`): the circular free list of Kernighan and Ritchie.
- **Buffer cache** (`BufferCache`), **pipe** (`Pipe`), **ticket lock** (`TicketLock`) and **condition
  variable** (`CondVar`): interleaved steps of any number of processes. What a process does under the lock of
  the structure is one step.
- **Stride scheduler** (`Stride`): selection, fairness bounds, the window of pass values.
- **Page tables** (`Vm`): the page allocator, two-level tables, copy, growth, tear-down and roll-back.
- **Shell parser** (`Shell`) and **pattern matcher** (`Grep`): a parser against its grammar, as trees with what they
  stand for, and a printer; a matcher against the language of its patterns.

Classes have the fields the C code updates and methods in its order; ghost fields hold the abstract state. Where a
result is about every run, a datatype (`State`, `World`, `System`, `Draft`) has the steps on plain values; `Run` is
proved to leave just what they leave, and the properties are proved of them. What such a step does is also said
without its functions, on the state before and after alone, in lemmas beside it (`MakeLands`, `AllocedIs`, `RequestIs`,
`ReadIs`, `LineGrammar`). A panic, a failed `assert` or `exit` that a caller can run into is a result (`Stopped`,
`None`, `Bad`, `false`, 0); only duties of the kernel's own code (a held buffer, a mapped parent page, no page mapped
twice) are preconditions. `p4` is the copy of xv6 that is modelled; `p2` and `p3` give the scheduler and the heap.

## What was found

Where the code does not do what its callers expect, a lemma gives the exact condition:

- `balloc` does not compare its result with `sb.size`; it returns a block of the disk exactly if one is free
  (`FileSystem.Disks.Balloc`).
- `writei` and `readi` can fill an empty pointer without `iupdate`; the disk inode agrees afterwards exactly if the
  file grew or no empty pointer was met (`FileSystem.Disks.Writei`).
- `add_dir` of mkfs pads a directory by one block too many exactly if its size is a multiple of 512, which leaves a
  hole (`Mkfs.PaddingMakesHole`).
- Host names that agree in their first 14 characters become one name twice in the root of the image, and only then is
  it no tree of names (`RootImage.ImageIsTree`).
- `ialloc` of mkfs.c does not compare its inode number with `ninodes`. From the first multiple of 8 past the table on
  `winode` writes over the bitmap sector, and later over data blocks; with 200 inodes that is from inode 208 and 216 on
  (`Mkfs.PastTheTable`): the former are wiped out by `balloc`, the latter overwrite a file (`Mkfs.InodeInBitmap`,
  `Mkfs.InodeInFile`). `Builder.Ialloc` stops there instead.
- A process can still create files in its current directory after that was removed; their link counts are then wrong
  for good (`NameTree.MadeInRemoved`).
- `Mem_Init` on a region that is not a multiple of 64 leaves a block of odd length (`Heap.OddRegion`); a second
  `Mem_Init`, although it fails, replaces the size by which `Mem_Free` tests slabs. All slabs can still be freed
  exactly if that size is not 0 and divides the slabs' own; with size 0 `Mem_Free` divides by zero
  (`Heap.Library.MemInit`, `Heap.SlabsPass`, `Heap.Heap.MemFree`).
- `malloc` of umalloc.c wraps for requests above 2^32 - 8 bytes and then returns a bare header (`KrMalloc.UnitsFit`).
  From 2^31 - 15 to 2^32 - 8 bytes, if nothing on the list fits, it asks sbrk for no positive int
  (`KrMalloc.UnitsPositiveInt`, `KrMalloc.Allocator.Malloc`).
- `setupkvm` loses the pages it took when it runs out, so that a failed copy gives all pages back exactly if at least
  13 were free, or none (`Vm.Machine.CopyAndFree`).
- The 64th waiter of a condition variable is refused unless `head` is 0; then it empties the queue (`CondVar.SixtyFourth`).
- The first process has stride 0 until it sets its tickets. A runnable process is never chosen exactly if one with
  stride 0 comes before it (`Stride.Starves`).
- `kill` of a sleeper lets the next choice lower the minimum pass exactly if the sleeper's pass is below it
  (`Stride.KillLowers`).

## Model

| member | source | states |
|---|---|---|
| Disk.WordOfSetWord | p4/xv6/kernel/fs.c:336-340 | storing one entry of an indirect block changes that entry and none of the other 127 |
| Disk.WordBytes | p4/xv6/kernel/fs.c:336-340 | an entry is stored as four bytes, the lowest first |
| Disk.OrMaskBits | p4/xv6/kernel/fs.c:65-67 | or-ing `1 << k` into a byte sets bit k and leaves every other bit |
| Disk.AndNotMaskBits | p4/xv6/kernel/fs.c:91-94 | and-ing `~(1 << k)` clears bit k and leaves every other bit |
| Disk.MarkSetsOneBit | p4/xv6/kernel/fs.c:63-67 | the bitmap write of `balloc` marks its block and no other, whatever byte and sector the two share |
| Disk.UnmarkClearsOneBit | p4/xv6/kernel/fs.c:89-95 | the bitmap write of `bfree` unmarks its block and no other |
| Disk.MarkedIs | p4/xv6/include/fs.h:42-45 | the bit of block b is bit b % 8, counted from the lowest, of byte b % 4096 / 8 of sector b / 4096 + ninodes / 8 + 3 |
| Disk.SlotsDistinct | p4/xv6/kernel/fs.c:312-315 | in a table in which every block has one owner, two slots (direct, indirect or entry) of any two inodes never name the same block |
| Disk.AttachPointer | p4/xv6/kernel/fs.c:325-335 | an unowned zero block put in an empty direct or indirect pointer keeps one owner per block and changes no other slot of any inode, entries of the new indirect block included |
| Disk.AttachEntry | p4/xv6/kernel/fs.c:336-341 | the same for an empty entry of an indirect block |
| Images.AllocPointer | p4/xv6/kernel/fs.c:325-335 | taking any unmarked block for an empty pointer keeps the bitmap equal to metadata plus owned blocks, keeps free blocks zero, and fills just that slot |
| Images.AllocEntry | p4/xv6/kernel/fs.c:336-341 | the same for an entry of the indirect block, whose sector is rewritten |
| Images.WriteOwned | p4/xv6/kernel/fs.c:438-444 | writing within the block of an offset splices the chunk into that file at that offset and changes no byte of any other inode |
| Images.ReadChunk | p4/xv6/kernel/fs.c:411-416 | the bytes copied out of a block are the bytes of the file at that offset |
| Images.SpliceTwice | p4/xv6/kernel/fs.c:438-444 | two adjacent splices are one splice of both chunks |
| Images.SpliceGrows | p4/xv6/kernel/fs.c:446-450 | because bytes past the size are zero, a splice of the capacity followed by the new size is a splice of the file that grows it when needed |
| Images.WriteEnds | p4/xv6/kernel/fs.c:433-450 | the end of a write gives a consistent image, the spliced file, untouched other files; pointers changed exactly if an empty one was met; files without holes stay so |
| Images.FilledIffHole | p4/xv6/kernel/fs.c:325-335 | an inode changes its own pointers in a transfer exactly when the transfer meets an empty one |
| Images.DenseGrows | p4/xv6/kernel/fs.c:433-449 | in a file without holes a write meets an empty pointer only if it grows the file, so `iupdate` then follows |
| Images.DenseStays | p4/xv6/kernel/fs.c:438-449 | a write starting at or before the size leaves a file without holes without holes |
| Images.SnugStays | p4/xv6/kernel/fs.c:438-449 | a file that has no block past its size, and no indirect block it has no use for, has none after a write either |
| Images.IndirectIntact | p4/xv6/kernel/fs.c:366-374 | while the entries are freed one by one the indirect block still holds all of them |
| Images.FreedExactly | p4/xv6/kernel/fs.c:78-97 | after all blocks of an inode are freed the marked blocks are those marked before less those the inode referred to |
| Images.FreedAll | p4/xv6/kernel/fs.c:352-380 | freeing all blocks of an inode keeps ownership, bitmap and every other inode |
| Images.Truncated | p4/xv6/kernel/fs.c:352-380 | the end of `itrunc` is a consistent image with other files as they were |
| Images.OneFileChanged | p4/xv6/kernel/fs.c:420-451 | if an operation keeps the other inodes, the files change at that inode only |
| Images.FreshInode | p4/xv6/kernel/fs.c:155-163 | an emptied free inode leaves the image consistent |
| Images.Relinked | p4/xv6/kernel/sysfile.c:123-124 | storing another link count changes that field of that file and nothing else of any file |
| FileSystem.Disks.Balloc | p4/xv6/kernel/fs.c:53-76 | `balloc` marks the first unmarked block; it returns a block below `sb.size` if and only if there is one, and otherwise the disk is full |
| FileSystem.Disks.Pointer | p4/xv6/kernel/fs.c:325-335 | the pointer is filled only if empty, and then takes one free block; sound bookkeeping, no byte of any file changed; it stops exactly at an empty pointer with no block free |
| FileSystem.Disks.Entry | p4/xv6/kernel/fs.c:336-341 | the same for an indirect entry |
| FileSystem.Disks.Bmap | p4/xv6/kernel/fs.c:319-347 | `bmap` returns the block of the n-th slot, a new zero block if there was none, and changes no byte of any file; it stops exactly past MAXFILE or with fewer blocks free than are missing, the indirect block included, and else takes just those |
| FileSystem.Disks.Iupdate | p4/xv6/kernel/fs.c:171-187 | the disk copy becomes the in-memory copy, other inodes untouched |
| FileSystem.Disks.WriteSector | p4/xv6/kernel/fs.c:438-444 | one pass of the loop of `writei`: it succeeds exactly if the missing blocks are free, and takes just those |
| FileSystem.Disks.ReadSector | p4/xv6/kernel/fs.c:411-416 | one pass of the loop of `readi` gives the bytes at the offset and changes no file; it stops exactly if a missing block is not free |
| FileSystem.Disks.ReadLoop | p4/xv6/kernel/fs.c:411-416 | the loop collects exactly the slice, across blocks and the direct/indirect boundary; it stops exactly if the range needs more blocks than are free, never in a file without holes |
| FileSystem.Disks.Readi | p4/xv6/kernel/fs.c:394-418 | `readi` is a slice of the file cut at its size, -1 exactly past the size or on 32-bit overflow; it stops exactly if the range needs more blocks than were free; in-memory pointers change exactly if an empty one was met |
| FileSystem.Disks.WriteLoop | p4/xv6/kernel/fs.c:438-444 | the loop splices the whole source and takes just the missing blocks; it fails exactly if they are more than were free |
| FileSystem.Disks.Writei | p4/xv6/kernel/fs.c:421-451 | `writei` splices min(n, MAXFILE*BSIZE - off) bytes, keeps every other inode, -1 exactly past the size or on overflow; it stops exactly if the range needs more blocks than were free, and else takes just those; the disk inode equals the in-memory one afterwards if and only if the file grew or no empty pointer was met |
| FileSystem.Disks.Bfree | p4/xv6/kernel/fs.c:79-97 | `bfree` zeroes and unmarks the block and panics exactly if it was free |
| FileSystem.Disks.FreeSlot | p4/xv6/kernel/fs.c:360-375 | a block held by a slot not yet freed is still marked, so the panic is not reached |
| FileSystem.Disks.Itrunc | p4/xv6/kernel/fs.c:352-380 | `itrunc` never panics, empties the inode and unmarks exactly its own blocks, every other file kept |
| FileSystem.Disks.Ialloc | p4/xv6/kernel/fs.c:146-168 | the first free inode becomes an empty file of the given type, none exactly if all are in use |
| FileSystem.Disks.Ilock | p4/xv6/kernel/fs.c:235-265 | the in-memory copy starts equal to the disk copy, and the panic is for a free inode exactly |
| FileSystem.Disks.Iput | p4/xv6/kernel/fs.c:281-300 | the last reference to an inode without links frees it and exactly its blocks; otherwise nothing changes but the count |
| FileSystem.Disks.PerformWrite | p4/xv6/kernel/fs.c:421-451 | between quiet states a write is the abstract write and returns how much it wrote; it stops exactly if the files then took more blocks than the disk has |
| FileSystem.Disks.PerformRead | p4/xv6/kernel/fs.c:394-418 | between quiet states a read answers with the bytes of the abstract file, changes nothing and never stops |
| FileSystem.Disks.PerformCreate | p4/xv6/kernel/fs.c:146-168 | a new inode is a new empty file; it stops exactly if no inode other than 0 was free |
| FileSystem.Disks.PerformLinks | p4/xv6/kernel/sysfile.c:123-131 | a new link count changes that of the abstract file and nothing else |
| FileSystem.Disks.PerformRemove | p4/xv6/kernel/fs.c:280-300 | dropping the last reference to a file without links makes it absent |
| FileSystem.Disks.BlockOf | p4/xv6/kernel/fs.c:475-476 | a block below the size of a directory without holes is its bytes at that offset, and fetching it allocates nothing |
| FileSystem.MadeAndGone | p4/xv6/kernel/sysfile.c:205-209 | a file made, written and read in any way, unlinked and dropped leaves all files as they were, so its inode can be used again |
| FileSystem.CreateIs | p4/xv6/kernel/fs.c:146-168 | an inode made is the first free one from 1 on, has the type and device numbers asked for, one link and no byte, and no other file changes |
| FileSystem.WriteThenRead | p4/xv6/kernel/fs.c:394-451 | what is written is read back, as far as the largest file goes; the file grows to hold it; other bytes, other files and what is no byte stay, and nothing is written past the end of the file |
| FileSystem.Disks.Run | p4/xv6/kernel/fs.c:394-451 | every run of creating, writing, reading, setting link counts and dropping inodes keeps the image consistent, freed blocks used again included, ends in the files of the same run on byte sequences, and gives the bytes that run gives; whether and where it stops is read off the byte sequences: exactly at the first operation that needs an inode or a block more than there are |
| Space.FreeOwned | p4/xv6/kernel/fs.c:56-75 | the unmarked blocks are those of the disk less the metadata and less those an inode slot names |
| Space.OneLess | p4/xv6/kernel/fs.c:63-67 | a block given to a slot is one unmarked block less |
| Space.NeedsInTurn | p4/xv6/kernel/fs.c:438-444 | what a transfer takes is what its first block takes and then what the rest takes, once the first is there |
| Space.NeedsPacked | p4/xv6/kernel/fs.c:319-341 | what a write takes is what a file of the new size takes more than one of the old size |
| Space.NeedsDense | p4/xv6/kernel/fs.c:411-416 | a file without holes has all that a transfer below its size needs |
| Space.OwnedForSizes | p4/xv6/kernel/fs.c:312-341 | the blocks in use are the sum over all inodes of one for each 512 bytes begun and one more past the twelfth |
| Space.FreeAndHeld | p4/xv6/kernel/fs.c:56-75 | free blocks, metadata and what the sizes of the files ask for are together the whole disk |
| Mkfs.NewPointer | p4/xv6/tools/mkfs.c:344-355 | taking `freeblock` for an empty pointer keeps the blocks in use those below it |
| Mkfs.NewEntry | p4/xv6/tools/mkfs.c:356-362 | the same for an entry of the indirect block |
| Mkfs.OneMoreBit | p4/xv6/tools/mkfs.c:319-321 | each turn of the bitmap loop adds one bit |
| Mkfs.BitmapCompletes | p4/xv6/tools/mkfs.c:311-324 | writing the bitmap turns the assembled blocks into a consistent image, all files kept; exactly the inodes padded at a whole number of blocks have other blocks than their size asks for |
| Mkfs.AppendedBuilt | p4/xv6/tools/mkfs.c:338-374 | the end of `iappend` appends to the file, and neither fills nor makes a hole in any |
| Mkfs.PaddingMakesHole | p4/xv6/tools/mkfs.c:188-193 | rounding a directory up by `size/512 + 1` blocks leaves a hole if and only if the size was a multiple of 512 |
| Mkfs.PaddingIsZeros | p4/xv6/tools/mkfs.c:188-193 | the padding reads as zero bytes |
| Mkfs.PaddedBuilt | p4/xv6/tools/mkfs.c:188-193 | the image stays consistent, the directory grows by zero bytes, and it counts as one with a hole from then on exactly if its size was a multiple of 512 |
| Mkfs.Builder.constructor | p4/xv6/tools/mkfs.c:67-95 | an empty image of zero sectors, `freeblock` after the metadata |
| Mkfs.Builder.Ialloc | p4/xv6/tools/mkfs.c:296-308 | the next inode becomes an empty file with one link; it fails exactly past the inode table |
| Mkfs.Builder.Pointer | p4/xv6/tools/mkfs.c:344-355 | a pointer is filled only if empty, no byte of any file changed; it fails exactly if a block is needed and none is left |
| Mkfs.Builder.Entry | p4/xv6/tools/mkfs.c:356-363 | the same for an indirect entry |
| Mkfs.Builder.AppendSector | p4/xv6/tools/mkfs.c:341-372 | one pass of the loop writes its chunk at the offset; it fails exactly if the missing blocks are more than are left |
| Mkfs.Builder.AppendLoop | p4/xv6/tools/mkfs.c:341-372 | the loop writes all bytes at the end of the file; it fails exactly past MAXFILE or if they need more blocks than are left |
| Mkfs.Builder.Iappend | p4/xv6/tools/mkfs.c:328-375 | `iappend` appends its bytes to the file and to no other; it fails exactly past MAXFILE or if the longer file needs more blocks than are left, and `freeblock` moves on by just those |
| Mkfs.Builder.Bitmap | p4/xv6/tools/mkfs.c:318-321 | the sector has exactly the first `used` bits set |
| Mkfs.Builder.Balloc | p4/xv6/tools/mkfs.c:310-324 | for fewer than 4096 used blocks the finished image is what the kernel relies on: consistent, unmarked blocks zero, holes exactly where padding made them |
| Mkfs.Builder.Pad | p4/xv6/tools/mkfs.c:188-193 | the directory grows by zeros, and has a hole afterwards exactly if its size was a multiple of 512 |
| Mkfs.Builder.Run | p4/xv6/tools/mkfs.c:296-375 | any run of `ialloc`, `iappend` and padding followed by `balloc` gives a consistent image that holds the files of the run on byte sequences, without holes exactly if no directory was padded at a multiple of 512; it comes to its end exactly if each call had its inode, room and blocks, and fewer than 4096 blocks are in use |
| Mkfs.NeedsAtEnd | p4/xv6/tools/mkfs.c:340-363 | the blocks an append takes depend on the size and on whether there is an indirect block only |
| Mkfs.WroteTall | p4/xv6/tools/mkfs.c:350-355 | an append makes an indirect block exactly if it goes past the twelfth block |
| Mkfs.PastTheTable | p4/xv6/tools/mkfs.c:250-269 | which inode numbers `winode` would write over the bitmap, and which over data blocks |
| Mkfs.InodeInBitmap | p4/xv6/tools/mkfs.c:257-269 | an inode written to the sector of the bitmap is gone once `balloc` has written that sector |
| Mkfs.InodeInFile | p4/xv6/tools/mkfs.c:257-269 | an inode written to a data block takes the place of 64 bytes of the file that has the block |
| RootImage.EntriesOfRecords | p4/xv6/tools/mkfs.c:182-184 | the records `add_dir` appends to the root are read back as its entries |
| RootImage.CountRoot | p4/xv6/tools/mkfs.c:111-119 | in the root each file is named once, and the root itself once besides `.` |
| RootImage.ImageIsTree | p4/xv6/tools/mkfs.c:97-195 | the image of a host directory of plain files is a tree with right link counts, the start the name results need, if and only if the names still differ once `strncpy` has cut them to 14 characters |
| RootImage.ImageHolds | p4/xv6/tools/mkfs.c:97-195 | in the image a host file name, cut to 14 characters, leads from the root to a plain file with one link and all bytes of the host file, the dots to the root, and any other name nowhere |
| RootImage.PieceIn | p4/xv6/tools/mkfs.c:176-180 | the pieces read from a host file stand one after another in the file |
| RootImage.CopyFile | p4/xv6/tools/mkfs.c:172-180 | a new inode gets all bytes read from the host file, in order; it fails exactly without an inode, past MAXFILE or without the blocks for them |
| RootImage.AddFile | p4/xv6/tools/mkfs.c:172-184 | and the root one more entry, for that inode under the cut name, if there are the blocks for that too |
| RootImage.Dots | p4/xv6/tools/mkfs.c:111-119 | the root starts with `.` and `..`, both itself, if there is a block |
| RootImage.PadRoot | p4/xv6/tools/mkfs.c:188-193 | the padding of the root is free entries |
| RootImage.AddRoot | p4/xv6/tools/mkfs.c:97-195 | `add_dir` of the root: exactly the dots, one entry a file and free entries, and exactly the bytes of the files; it ends after the dots without a directory. It succeeds exactly if there are inodes for the files, none is larger than MAXFILE, and the disk has the blocks for all of them and for the root |
| RootImage.MakeImage | p4/xv6/tools/mkfs.c:199-237 | there is an image if and only if the files and the root fit, by a sum over their sizes, and the blocks in use have their bits in one sector; it holds exactly the files, and is ready for the kernel if and only if the root was not a whole number of blocks before padding |
| RootImage.Boot | p4/xv6/tools/mkfs.c:199-237 | there is a system exactly then; it meets the requirement of `Syscalls.Kernel.Run` if and only if the names differ once cut and the root was not a whole number of blocks |
| Dirents.ParseOfRecord | p4/xv6/kernel/fs.c:519-523 | a name of up to 14 characters and an inode number written as a record are read back |
| Dirents.RecordBytes | p4/xv6/include/fs.h:48-53 | the record is the inode number, low byte first, and the name filled up with zeros to 14 characters |
| Dirents.EntryAt | p4/xv6/kernel/fs.c:513-517 | entry k of the directory is the record at byte 16k |
| Dirents.WriteEntry | p4/xv6/kernel/fs.c:512-523 | writing a record at byte 16k replaces or adds entry k and no other |
| Dirents.ClearedRecord | p4/xv6/kernel/sysfile.c:198-200 | the zeroed record of `sys_unlink` is a free entry |
| Dirents.ScanOfBlocks | p4/xv6/kernel/fs.c:474-491 | `dirlookup` scans whole blocks past the size of the directory and still finds just what its entries hold |
| Path.ElementFirst | p4/xv6/kernel/fs.c:542-562 | a path that starts with an element has that element, cut to DIRSIZ, as its first name |
| Path.Joined | p4/xv6/kernel/fs.c:542-562 | the names of two paths with a slash between them are those of the one and then those of the other |
| Path.Spelled | p4/xv6/kernel/fs.c:542-562 | names spelled as a path come back from it |
| Path.Skipelem | p4/xv6/kernel/fs.c:542-562 | `skipelem` returns 0 exactly if no name is left, else the first name, cut to 14 characters, and the place of the rest, which is the end exactly if it was the last name |
| Path.Namex | p4/xv6/kernel/fs.c:567-600 | `namex` on characters is the walk over the names, from the root for a leading slash and else from the current directory; with `nameiparent` it stops at the last name and returns it |
| NameTree.UpToRoot | p4/xv6/kernel/sysfile.c:242-248 | following `..` from a linked directory reaches the root in exactly as many steps as its depth |
| NameTree.OneName | p4/xv6/kernel/sysfile.c:242-248 | a linked directory other than the root is named by one entry, in the directory its `..` names |
| NameTree.PathStaysLinked | p4/xv6/kernel/fs.c:576-595 | a walk from a linked directory stays in the tree |
| NameTree.NewNameResolves | p4/xv6/kernel/sysfile.c:213-255 | after a name is entered the path leads to its inode |
| NameTree.ClearedNameFails | p4/xv6/kernel/sysfile.c:198-205 | once an entry is cleared the path leads nowhere, even where it passed through what was removed |
| NameTree.NameiByParent | p4/xv6/kernel/fs.c:576-595 | looking a path up is looking its last name up in the directory before it |
| NameTree.CreatedFile | p4/xv6/kernel/sysfile.c:233-253 | a new file keeps the tree and all link counts |
| NameTree.CreatedDir | p4/xv6/kernel/sysfile.c:236-253 | a new directory with `.`, `..` and one more parent link keeps the tree and all link counts |
| NameTree.Linked | p4/xv6/kernel/sysfile.c:125-137 | one more entry and one more count keep the invariant |
| NameTree.UnlinkedFile | p4/xv6/kernel/sysfile.c:198-210 | one entry and one count less keep the invariant |
| NameTree.UnlinkedDir | p4/xv6/kernel/sysfile.c:198-210 | removing an empty directory takes it out of the tree and its `..` off the parent |
| NameTree.Released | p4/xv6/kernel/fs.c:285-297 | freeing an inode without links keeps the invariant, since no linked directory names it |
| NameTree.UnlinkFacts | p4/xv6/kernel/sysfile.c:179-191 | an entry found under a name other than the dots is an ordinary one and its inode has a link, so the panic at line 191 is not reached |
| NameTree.Created | p4/xv6/kernel/sysfile.c:213-255 | create as a whole: invariant kept and the path leads to the new inode |
| NameTree.LinkedPath | p4/xv6/kernel/sysfile.c:111-146 | link as a whole |
| NameTree.UnlinkedPath | p4/xv6/kernel/sysfile.c:165-211 | unlink as a whole |
| NameTree.RootShape | p4/xv6/tools/mkfs.c:97-195 | any inodes whose only directory is the root, with the dots, then entries that are free or name a file in use, names that differ, and each link count the number of entries that name the inode, satisfy the invariant |
| NameTree.RootOnlyIsTree | p4/xv6/tools/mkfs.c:97-195 | of such inodes the names in the root differ if and only if they satisfy the invariant |
| NameTree.NameSpace.constructor | p4/xv6/tools/mkfs.c:97-195 | a name space may start from any such inodes, its processes in the root |
| NameTree.NameSpace.Dirlookup | p4/xv6/kernel/fs.c:465-493 | the first used entry with the name |
| NameTree.NameSpace.Walk | p4/xv6/kernel/fs.c:567-600 | `namex` without nameiparent |
| NameTree.NameSpace.WalkParent | p4/xv6/kernel/fs.c:567-600 | `namex` with nameiparent |
| NameTree.NameSpace.Dirlink | p4/xv6/kernel/fs.c:497-523 | fails exactly if the name is there, else takes the first free entry or the end; it stops only if the directory is full |
| NameTree.NameSpace.Ialloc | p4/xv6/kernel/fs.c:155-167 | the first inode of type 0 |
| NameTree.NameSpace.Create | p4/xv6/kernel/sysfile.c:213-255 | result and new state in every case: missing parent, existing file or other inode, no inode or full directory, success; the tree and counts are kept |
| NameTree.NameSpace.NewInode | p4/xv6/kernel/sysfile.c:236-248 | the inode with its dots and the parent count |
| NameTree.NameSpace.Link | p4/xv6/kernel/sysfile.c:111-146 | fails exactly for a missing or directory source, missing parent or existing target, leaving all as it was; else one link more and the path leads to the inode |
| NameTree.NameSpace.Isdirempty | p4/xv6/kernel/sysfile.c:149-162 | true exactly if every entry after the dots is free |
| NameTree.NameSpace.Unlink | p4/xv6/kernel/sysfile.c:165-211 | fails exactly as the code does and never panics; else the entry is gone, counts follow, an unused inode is freed |
| NameTree.NameSpace.Iput | p4/xv6/kernel/fs.c:281-300 | frees the inode exactly without links and without other references |
| NameTree.NameSpace.PerformChdir | p4/xv6/kernel/sysfile.c:326-342 | the current directory becomes what the path leads to, if that is a directory; the last one is given up, and freed if it was removed and nobody else has it |
| NameTree.StepKeepsTree | p4/xv6/kernel/sysfile.c:111-255 | every create, mkdir, link, unlink, chdir and last iput, from the root or a linked current directory, keeps the directories a tree, each nlink the number of entries that name the inode, and each process in a directory in use; unlink of a current directory takes it out of the tree and keeps its inode |
| NameTree.MakeLands | p4/xv6/kernel/sysfile.c:213-255 | `create` by any path, from the root for a rooted one and else from the current directory: nothing changes if the path leads somewhere or its directory nowhere; it panics exactly without a free inode or with a full directory; else the path leads to the first free inode, of that type, with one link and its dots, and other names and inodes are as they were |
| NameTree.JoinLands | p4/xv6/kernel/sysfile.c:111-146 | `link` by any two paths: nothing changes if the first leads to no file, the second somewhere, or its directory nowhere; it panics exactly on a full directory; else the second path leads to the file too, which has one link more |
| NameTree.RemoveLands | p4/xv6/kernel/sysfile.c:165-211 | `unlink` by any path: nothing changes for a dot name, a path that leads nowhere, or a directory with entries; else the path leads nowhere, and what it led to has one link less, or is freed if that was the last and nobody holds it |
| NameTree.UnlinkThenClose | p4/xv6/kernel/fs.c:281-300 | unlinking an open file and then closing it leaves what unlinking it closed leaves |
| NameTree.ChdirLands | p4/xv6/kernel/sysfile.c:326-342 | `chdir` by any path: nothing changes unless it leads to a directory; that is then the current one, and the one left is freed exactly if it was removed and nobody has it |
| NameTree.WalkOn | p4/xv6/kernel/fs.c:576-595 | a path is walked in one go or in two, with the same end |
| NameTree.ChdirStays | p4/xv6/kernel/fs.c:572-575 | after a chdir to /p the path /p still leads to the directory the process sits in, even where the chdir freed another |
| NameTree.RelativeIsJoined | p4/xv6/kernel/fs.c:572-575 | a process that has changed to /p: create, link, unlink and chdir by relative paths q do just what they do by /p/q |
| NameTree.ChdirThenCall | p4/xv6/kernel/fs.c:572-575 | the chdir and the call by q leave the inodes, or the panic, that the call by /p/q leaves |
| NameTree.LinkedIffCounted | p4/xv6/kernel/sysfile.c:189-210 | a directory in use is linked exactly if its link count is not 0 |
| NameTree.MadeInRemoved | p4/xv6/kernel/sysfile.c:213-255 | what `create` makes in a removed directory has a link count of 1 and no linked directory that names it, so that no tree has right counts any more |
| NameTree.NameSpace.Run | p4/xv6/kernel/sysfile.c:111-255 | every run of these calls, by rooted and relative paths, leaves exactly the inodes of the run on values; after it the directories are a tree rooted at inode 1 and each nlink is the number of entries other than `.` naming the inode. It stops exactly where a call panics, at inodes with none free or with a full directory |
| Syscalls.RecordWritten | p4/xv6/kernel/fs.c:517-520 | a record written to a directory file is an entry put there, other names and counts kept |
| Syscalls.RecordRead | p4/xv6/kernel/fs.c:510-514 | what `readi` gives at byte 16k is entry k |
| Syscalls.LinksSet | p4/xv6/kernel/sysfile.c:123-131 | `iupdate` with another count is that count in the name space |
| Syscalls.InodeMade | p4/xv6/kernel/sysfile.c:233-240 | a new inode on disk is a new node |
| Syscalls.InodeDropped | p4/xv6/kernel/fs.c:285-297 | a freed inode on disk is a free node |
| Syscalls.PutSeen | p4/xv6/kernel/fs.c:421-451 | a write to a plain file changes its bytes and no name |
| Syscalls.GetSeen | p4/xv6/kernel/fs.c:394-418 | the bytes `readi` returns are those of the system of names and bytes |
| Syscalls.TakenIsHeld | p4/xv6/kernel/fs.c:319-341 | the blocks that names and bytes ask for are those the files ask for |
| Syscalls.NothingLost | p4/xv6/kernel/sysfile.c:111-255 | create and link free no inode in use, and take no blocks but for the directories they lengthen |
| Syscalls.MadeHolds | p4/xv6/kernel/sysfile.c:231-240 | what `create` made holds the device numbers it was given and no byte, and no other inode holds anything else than before |
| Syscalls.NamesKeepData | p4/xv6/kernel/sysfile.c:111-255 | an inode keeps what it holds through every call on names that leaves it in use, and holds nothing once it is freed |
| Syscalls.PutThenGet | p4/xv6/kernel/sysfile.c:62-83 | bytes written to an open file are read back, as far as the largest file goes, and nothing else changes |
| Syscalls.Kernel.ScanBlocks | p4/xv6/kernel/fs.c:474-491 | the loop of `dirlookup` over whole blocks |
| Syscalls.Kernel.Dirlookup | p4/xv6/kernel/fs.c:465-493 | `dirlookup` on blocks finds the first used entry of that name, and changes nothing on the disk |
| Syscalls.Kernel.Walk | p4/xv6/kernel/fs.c:567-600 | `namex` on blocks is the walk over names |
| Syscalls.Kernel.WalkParent | p4/xv6/kernel/fs.c:567-600 | the same with nameiparent |
| Syscalls.Kernel.Dirlink | p4/xv6/kernel/fs.c:497-523 | `dirlink` on blocks puts the entry in the first free slot or at the end, fails exactly if the name is there, and stops exactly if the directory is full or the longer directory takes more blocks than the disk has |
| Syscalls.Kernel.Isdirempty | p4/xv6/kernel/sysfile.c:149-162 | `isdirempty` on blocks |
| Syscalls.Kernel.NewInode | p4/xv6/kernel/sysfile.c:233-240 | the first free inode gets the type and device numbers asked for, one link and no byte |
| Syscalls.Kernel.Dots | p4/xv6/kernel/sysfile.c:242-248 | the entries of a new directory and the parent count; it fails exactly without a block |
| Syscalls.Kernel.Create | p4/xv6/kernel/sysfile.c:213-255 | `create` on the disk leaves the names that create leaves on values, a new inode with the device numbers given, and no byte of another file changed; it fails exactly for a missing directory or an existing name that is not a plain file asked for as one, stops exactly where create panics on values or if what it leaves takes more blocks than the disk has, and else returns what the path leads to |
| Syscalls.Kernel.Link | p4/xv6/kernel/sysfile.c:111-146 | the same for link, its failures undone on the disk as well, and exactly the failures of the code |
| Syscalls.Kernel.ClearRecord | p4/xv6/kernel/sysfile.c:198-200 | clearing a record cannot fail, since it lies below the size |
| Syscalls.Kernel.Unlink | p4/xv6/kernel/sysfile.c:165-211 | `sys_unlink` on the disk leaves the names that unlink leaves on values, fails exactly for a dot name, a path that leads nowhere or a directory with entries, never panics, and changes no byte of a file still there |
| Syscalls.Kernel.Chdir | p4/xv6/kernel/sysfile.c:326-342 | `sys_chdir` on the disk, a removed directory that is left freed included |
| Syscalls.Kernel.PerformPut | p4/xv6/kernel/sysfile.c:74-83 | a write on an open file, down to blocks, is a splice of its bytes; it stops exactly if the longer file takes more blocks than the disk has |
| Syscalls.Kernel.PerformGet | p4/xv6/kernel/sysfile.c:62-71 | a read on an open file is a slice of its bytes |
| Syscalls.Kernel.Perform | p4/xv6/kernel/sysfile.c:111-255 | each call on the disk is the step on names and bytes, keeps the tree and the link counts, and leaves blocks, bitmap and inodes consistent; it stops exactly where that step has no result |
| Syscalls.Kernel.Run | p4/xv6/kernel/sysfile.c:62-255 | any run of create, mkdir, link, unlink, chdir, read and write on the disk is the run on names and bytes, reads included: what happens to blocks, bitmap, records and inode fields is never seen. Whether and where it ends early is settled there too: exactly at the first call that needs an inode, an entry or, by a sum over sizes, a block more than there are |
| Tiles.LiveDisjoint | p3/mem/mem.c:266-327 | two blocks of the region, headers included, never overlap |
| Tiles.AllFreeIsWhole | p3/mem/mem.c:361-423 | if every block is free and no neighbours are, there is one block as long as Mem_Init made it |
| Tiles.EndIsNext | p3/mem/mem.c:371-399 | a block ends where another starts exactly if the other comes next, so the scan of nextFitCoalesce finds the neighbours |
| Tiles.ListedAfterRemove | p3/mem/mem.c:425-445 | bypassing a node leaves the list of the other free blocks in address order |
| Tiles.ListedAfterAdd | p3/mem/mem.c:447-488 | linking a node in gives the list of the free blocks in address order |
| Tiles.UnlinkHead | p3/mem/mem.c:427-433 | the head case of removeFreeNode |
| Tiles.UnlinkAfter | p3/mem/mem.c:435-444 | the inner case of removeFreeNode |
| Tiles.LinkFirst | p3/mem/mem.c:451-463 | the empty and front cases of addFreeNode |
| Tiles.LinkAfter | p3/mem/mem.c:465-487 | the inner and end cases of addFreeNode |
| Tiles.SplitListed | p3/mem/mem.c:302-309 | cutting a block keeps list and tiling |
| Tiles.MergeListed | p3/mem/mem.c:401-422 | joining two neighbours keeps list and tiling |
| Tiles.CoalesceAtDone | p3/mem/mem.c:361-423 | if the freed block is the only cause of free neighbours, joining leaves none and nextPtr on the list or NULL |
| Tiles.CleanMagic | p3/mem/mem.c:345-351 | clearing the magic number of a live block keeps all headers right |
| Tiles.TakeExact | p3/mem/mem.c:293-301 | a block that fits exactly becomes live as a whole |
| Tiles.TakePart | p3/mem/mem.c:302-309 | a larger one is cut in two |
| Tiles.LiveAfterFree | p3/mem/mem.c:329-359 | freeing takes one pointer off the live ones and no other |
| NextFit.TakenValid | p3/mem/mem.c:288-311 | taking a block keeps neighbours coalesced and nextPtr on the list |
| NextFit.LiveAfterTaken | p3/mem/mem.c:288-326 | taking adds one pointer to the live ones |
| NextFit.FitIs | p3/mem/mem.c:285-323 | the tile the search on tiles finds is the first with room in cyclic order from nextPtr |
| NextFit.FitNone | p3/mem/mem.c:285-323 | it finds none if no free tile has room |
| NextFit.AllocedIs | p3/mem/mem.c:266-327 | an allocation hands out a live block of exactly the rounded size, every other live block is as before, and nextPtr is left at the lowest free block above it, NULL exactly if there is none; without room only a NULL nextPtr moves, to the lowest free block |
| NextFit.AllocedFirst | p3/mem/mem.c:281-323 | what is handed out was free and had room, and no other such block comes sooner on the way up from nextPtr and on from the lowest |
| NextFit.FreedIs | p3/mem/mem.c:329-423 | after a free nextPtr is at the free block in which the one it was at now lies, or NULL as before |
| NextFit.Allocator.FindChunk | p3/mem/mem.c:273-286 | the search starts at nextPtr, or at the head of the list when that is NULL |
| NextFit.Allocator.constructor | p3/mem/mem.c:120-124 | one free block fills the region |
| NextFit.Allocator.RemoveFreeNode | p3/mem/mem.c:425-445 | the block leaves the list, nothing else changes but links |
| NextFit.Allocator.AddFreeNode | p3/mem/mem.c:447-488 | the block joins the list at its place by address |
| NextFit.Allocator.Neighbours | p3/mem/mem.c:368-399 | the scan reports exactly the free neighbours |
| NextFit.Allocator.TakeNext | p3/mem/mem.c:401-410 | the next block is taken in and nextPtr follows |
| NextFit.Allocator.GiveToPrev | p3/mem/mem.c:412-422 | the block is given to the previous one and nextPtr follows |
| NextFit.Allocator.NextFitCoalesce | p3/mem/mem.c:361-423 | both joins as one function of the tiles |
| NextFit.Allocator.NextFitFree | p3/mem/mem.c:329-359 | a live pointer is freed and coalesced and nextPtr follows to the free block that now has its place, anything whose header lacks the magic number gets -1 |
| NextFit.Allocator.TakeTile | p3/mem/mem.c:290-310 | the chosen chunk becomes live, cut unless it fits, and nextPtr is left just after it |
| NextFit.Allocator.Search | p3/mem/mem.c:285-323 | the loop comes round at most once and stops at the first block with room in cyclic address order, or at none if none has room |
| NextFit.Allocator.NextFitAlloc | p3/mem/mem.c:266-327 | NULL exactly if every free block is shorter than the rounded size, else the first fit going up from nextPtr; tiles and nextPtr afterwards in every case, nextPtr at the lowest free block above what is handed out |
| Heap.SlabsApart | p3/mem/mem.c:111-118 | slabs do not overlap |
| Heap.StackedOnce | p3/mem/mem.c:246-264 | the stack holds each slab once |
| Heap.OddRegion | p3/mem/mem.c:88-122 | the next-fit block has a length of whole 16-byte units if and only if the region is a multiple of 64 |
| Heap.OddBlockLeavesTooLittle | p3/mem/mem.c:302-307 | from a block of other length, and only from such, some request leaves a negative length |
| Heap.Heap.constructor | p3/mem/mem.c:84-128 | slabs fill the first quarter, one free block the rest |
| Heap.Heap.FillSlabs | p3/mem/mem.c:111-118 | the stack holds exactly the slabs that fit |
| Heap.Heap.SlabPush | p3/mem/mem.c:246-252 | the slab goes on top |
| Heap.Heap.SlabPop | p3/mem/mem.c:254-264 | the top slab comes off, NULL exactly if there is none |
| Heap.Heap.MemAlloc | p3/mem/mem.c:131-163 | a slab for the special size while there is one, else next fit |
| Heap.Heap.MemFree | p3/mem/mem.c:165-216 | 0 exactly for live blocks and for live slabs that pass the test, whatever size that test divides by; a division by zero exactly if that size is 0; -1 with nothing changed for NULL, pointers outside, misaligned ones and those that fail the test |
| Heap.Heap.NoOverlap | p3/mem/mem.c:131-163 | the bytes of two live pointers never overlap, whichever pools they come from |
| Heap.Heap.Store | p3/mem/mem.c:131-163 | a caller that writes anywhere in what it was given changes no header and no link of the library |
| Heap.Heap.Run | p3/mem/mem.c:131-216 | any run of allocations, frees, and writes of callers into what they were given leaves the tiles, nextPtr, slab stack and live pointers of the run on values; once nothing is live the region is one free block again and each slab is on the stack once |
| Heap.SlabsPass | p3/mem/mem.c:196-203 | every slab passes the test of Mem_Free if and only if the size it divides by is not 0 and divides the slab size |
| Heap.Library.MemInit | p3/mem/mem.c:54-129 | NULL exactly on the listed conditions; each call, failing or not, replaces the size Mem_Free divides by, and afterwards every slab of the heap in use can be freed if and only if that size is not 0 and divides the slab size |
| KrMalloc.InsertRising | p4/xv6/user/umalloc.c:30-43 | putting a block in its gap, joined with what it touches, keeps one rising cycle from base without adjacent blocks |
| KrMalloc.FreedHeld | p4/xv6/user/umalloc.c:33-42 | the header writes of `free` make exactly that list |
| KrMalloc.StopsAt | p4/xv6/user/umalloc.c:30-32 | the walk of `free` stops at the gap of the block and nowhere else, the wrap included |
| KrMalloc.ClearFits | p4/xv6/user/umalloc.c:30-32 | a block clear of the list fits in that gap |
| KrMalloc.InsertUnits | p4/xv6/user/umalloc.c:33-42 | the free units afterwards are those before and the block |
| KrMalloc.CarvedHeld | p4/xv6/user/umalloc.c:75-84 | the header writes of `malloc` take the upper end, or all, of a block and keep the list |
| KrMalloc.CarveUnits | p4/xv6/user/umalloc.c:75-84 | the free units afterwards are those before less the block handed out |
| KrMalloc.UnitsFit | p4/xv6/user/umalloc.c:69 | the block has room for the request and its header, with less than one unit to spare, if and only if nbytes is at most 2^32 - 8; beyond it is a bare header |
| KrMalloc.UnitsPositiveInt | p4/xv6/user/umalloc.c:52-54 | the request to sbrk is a positive int if and only if nbytes is at most 2^31 - 16 or wraps |
| KrMalloc.Whole | p4/xv6/user/umalloc.c:24-44 | with nothing handed out and memory in one stretch the list is base and one block |
| KrMalloc.TookIs | p4/xv6/user/umalloc.c:74-86 | the fit found after freep is the first one going round, and what malloc leaves is the list without it |
| KrMalloc.PutIs | p4/xv6/user/umalloc.c:30-43 | the place found by free is the only one where the block fits |
| KrMalloc.TakenIs | p4/xv6/user/umalloc.c:74-86 | something fits exactly if a listed block is large enough; what is handed out is the upper end of the first such block going round from freep, freep is left at the block before it, and the rest of the list stays |
| KrMalloc.PutBack | p4/xv6/user/umalloc.c:24-44 | a block given back adds its units to the list, in rising blocks that nowhere touch, and freep is left at the last block below it |
| KrMalloc.RequestIs | p4/xv6/user/umalloc.c:46-90 | when no listed block is large enough: nothing changes if sbrk fails or would be asked for 2 GB or more; else memory grows by max(4096, n) units and the last n of them are handed out |
| KrMalloc.Allocator.Join | p4/xv6/user/umalloc.c:33-42 | the header writes of `free`, in its order, are the function whose list `FreedHeld` describes |
| KrMalloc.Allocator.Release | p4/xv6/user/umalloc.c:24-44 | the walk ends and the block is put back from wherever freep was |
| KrMalloc.Allocator.Free | p4/xv6/user/umalloc.c:24-44 | the list gains the block, the others handed out are untouched |
| KrMalloc.Allocator.Morecore | p4/xv6/user/umalloc.c:46-61 | at least 4096 units come from sbrk and go into the list, which then has a block big enough; nothing changes if sbrk fails or its argument would be no positive int |
| KrMalloc.Allocator.Split | p4/xv6/user/umalloc.c:76-82 | the header writes of malloc, in its order, are the function whose list `CarvedHeld` describes |
| KrMalloc.Allocator.Take | p4/xv6/user/umalloc.c:75-85 | a block is cut from the fit found, disjoint from all others, and freep is left before it |
| KrMalloc.Allocator.Search | p4/xv6/user/umalloc.c:74-89 | the loop ends: it goes round at most twice, and finds the first fit after freep |
| KrMalloc.Allocator.Malloc | p4/xv6/user/umalloc.c:63-90 | NULL exactly if nothing fits and sbrk fails or would be asked for no positive int (told apart by `odd`); otherwise first fit in ring order, in the list as it was or with one morecore block in it |
| KrMalloc.Allocator.Run | p4/xv6/user/umalloc.c:24-90 | any run leaves the list, freep, end of memory and blocks handed out of the run on values, and ends early exactly at the first request to sbrk that is no positive int; blocks never overlap; with all given back and no foreign sbrk the memory is one block |
| BufferCache.Inverse | p4/xv6/kernel/bio.c:126-131 | next and prev undo each other at every node of the ring |
| BufferCache.Unlink | p4/xv6/kernel/bio.c:126-127 | taking a buffer out leaves the ring of the others |
| BufferCache.PushFront | p4/xv6/kernel/bio.c:128-131 | putting it behind the head gives the ring with it first |
| BufferCache.Released | p4/xv6/kernel/bio.c:126-131 | the ring stays in order of release, latest first, and a permutation of all buffers |
| BufferCache.Oldest | p4/xv6/kernel/bio.c:83-90 | the first idle buffer from the back is the idle one released longest ago |
| BufferCache.DiskWritten | p4/xv6/kernel/bio.c:108-115 | a sector written from its buffer leaves every other buffer right |
| BufferCache.Cache.constructor | p4/xv6/kernel/bio.c:40-56 | the ring of all ten buffers |
| BufferCache.Cache.Lookup | p4/xv6/kernel/bio.c:70-80 | the forward scan finds the sector exactly if it is cached |
| BufferCache.Cache.LastIdle | p4/xv6/kernel/bio.c:83-91 | the backward scan |
| BufferCache.Cache.Get | p4/xv6/kernel/bio.c:62-93 | one pass of `bget`: the cached buffer if idle, sleep exactly if it is busy, else the idle buffer released longest ago, panic exactly if all are busy |
| BufferCache.Cache.Transfer | p4/xv6/kernel/bio.c:101-104 | the end of a disk transfer: the sector is written or the buffer filled, and no other buffer is affected |
| BufferCache.Cache.Modify | p4/xv6/kernel/bio.c:10-15 | the holder changes its data; nobody else sees the buffer until it is written |
| BufferCache.Cache.Bwrite | p4/xv6/kernel/bio.c:108-115 | the buffer is marked for writing, busy as the code demands, and the transfer has something to do |
| BufferCache.Cache.ToFront | p4/xv6/kernel/bio.c:126-131 | the six pointer writes move one buffer to the front of the ring and keep the rest in order |
| BufferCache.Cache.Brelse | p4/xv6/kernel/bio.c:118-137 | the buffer is idle, first on the ring with the others in order, and exactly its sleepers awake |
| BufferCache.Cache.Promises | p4/xv6/kernel/bio.c:30-56 | at every moment: a permutation with next and prev inverse, one buffer a sector, idle valid buffers equal to the disk, none dirty, sleepers only on busy buffers |
| BufferCache.Cache.ReadBlock | p4/xv6/kernel/bio.c:97-105 | bread and brelse of a sector nobody holds give what is on the disk, whatever was cached, and change nothing there |
| BufferCache.Cache.WriteBlock | p4/xv6/kernel/bio.c:97-137 | bread, new data, bwrite and brelse put the data on the disk and change nothing else there |
| BufferCache.NothingUnlogged | p4/xv6/kernel/bio.c:96-115 | in whatever step a process comes to have a buffer ready, the log has the sector and data it finds there, as read or as written |
| BufferCache.Cache.Serve | p4/xv6/kernel/bio.c:97-137 | one process that reads and writes blocks one after the other through the cache, while others hold other buffers, sees and leaves what a plain array of sectors would show: the way the file system here uses sectors |
| BufferCache.Cache.Run | p4/xv6/kernel/bio.c:62-137 | every interleaving leaves the buffers, order, holders and disk of the run on values; each read returns what the last write to its sector put there, as on a disk without a cache, in the log of what each step made known; it ends early only with all buffers busy |
| TicketLock.OneTurn | p4/xv6/user/locklib.c:18-22 | among n tickets in a row only the first equals turn if and only if n is at most 2^32 |
| TicketLock.Lock.constructor | p4/xv6/user/locklib.c:10-13 | a lock with an empty line |
| TicketLock.Lock.Take | p4/xv6/user/locklib.c:18 | the ticket drawn is that of the end of the line, wrapped to 32 bits, and the line keeps one ticket a place |
| TicketLock.Lock.Look | p4/xv6/user/locklib.c:20-22 | the spin test passes exactly for the thread at the head of the line, even after tickets wrapped |
| TicketLock.Lock.Release | p4/xv6/user/locklib.c:25-27 | the head of the line leaves and turn is the ticket of the next, also across the wrap |
| TicketLock.OneStep | p4/xv6/user/locklib.c:15-27 | a step of the line: who came goes to its end, who leaves or gets in is its head |
| TicketLock.WhereTheyAre | p4/xv6/user/locklib.c:15-27 | after any steps those who took tickets have left or stand in line, and those who got in have left or are inside, in order |
| TicketLock.InOrder | p4/xv6/user/locklib.c:15-27 | in any interleaving at most one thread is inside, and those who got in are the first of those who took tickets, in that order |
| TicketLock.Lock.Run | p4/xv6/user/locklib.c:10-27 | the wrapping counters do, step by step, what the line of threads does, for every interleaving of fewer than 2^32 threads |
| CondVar.FullTest | p4/xv6/user/cvarlib.c:20-23 | the full test sees 63 waiters, and nothing else, unless head is 0 |
| CondVar.SixtyFourth | p4/xv6/user/cvarlib.c:20-28 | the 64th waiter is let in exactly if head is 0, and the queue then looks empty |
| CondVar.EmptyTest | p4/xv6/user/cvarlib.c:38-40 | head equals tail exactly if nobody waits |
| CondVar.Enqueued | p4/xv6/user/cvarlib.c:25-28 | a waiter goes to the end of the circular queue |
| CondVar.Dequeue1 | p4/xv6/user/cvarlib.c:42-45 | the first waiter comes off |
| CondVar.WakeOne | p4/xv6/kernel/proc.c:424-434 | waking one thread concerns that thread and the signaller only |
| CondVar.WaitSleeps | p4/xv6/user/cvarlib.c:16-31 | a thread with the lock that waits, nobody in its way, is asleep and last in the queue four steps later, has released the lock, and nobody else has moved |
| CondVar.SignalWakes | p4/xv6/user/cvarlib.c:34-47 | a thread with the lock that signals, nobody in its way, has made the longest waiter and nobody else runnable two steps later; without waiters a signal does nothing |
| CondVar.SleeperResumes | p4/xv6/kernel/proc.c:600-608 | a sleeper made runnable goes on and joins the line for the lock again; one that is not does not move |
| CondVar.Monitor.constructor | p4/xv6/user/cvarlib.c:10-14 | no waiters, everybody outside |
| CondVar.Monitor.TakeTicket | p4/xv6/user/locklib.c:18 | the thread joins the line for the user lock, from user code or from cv_wait; every promise is kept |
| CondVar.Monitor.Spin | p4/xv6/user/cvarlib.c:31 | cv_wait returns only with the user lock, taken at its turn |
| CondVar.Monitor.Enqueue | p4/xv6/user/cvarlib.c:16-28 | the waiter is queued, still holding the lock, or refused exactly at 63 waiters |
| CondVar.Monitor.Dequeue | p4/xv6/user/cvarlib.c:34-45 | the waiter queued longest is taken off; nothing happens without waiters |
| CondVar.Monitor.DropLock | p4/xv6/kernel/proc.c:593-598 | the user lock is released under ptable.lock |
| CondVar.Monitor.FallAsleep | p4/xv6/kernel/proc.c:599-605 | the thread sleeps before ptable.lock is free |
| CondVar.Monitor.EnterWake | p4/xv6/kernel/proc.c:424-425 | the signaller gets ptable.lock only when no thread is between its release of the user lock and its sleep |
| CondVar.Monitor.Wake | p4/xv6/kernel/proc.c:424-434 | the dequeued thread is asleep by now and becomes runnable, and nobody else |
| CondVar.Monitor.Target | p4/xv6/kernel/proc.c:428-432 | whoever cv_signal dequeued is SLEEPING whenever proc_wakeup has ptable.lock |
| CondVar.Monitor.Resume | p4/xv6/kernel/proc.c:600-605 | only a thread made runnable leaves ticket_sleep |
| CondVar.Monitor.Promises | p4/xv6/user/cvarlib.c:16-47 | no wake-up is lost: every sleeper is queued or just dequeued by a signaller; one holder of the lock; queued = woken, dequeued and waiting, in order |
| CondVar.Monitor.HolderStep | p4/xv6/user/cvarlib.c:16-45 | what the holder of the lock does in cv_wait, cv_signal and lock_release is one step on values |
| CondVar.Monitor.SleeperStep | p4/xv6/kernel/proc.c:593-608 | and each step through ticket_sleep |
| CondVar.Monitor.WakerStep | p4/xv6/kernel/proc.c:424-434 | and each through proc_wakeup |
| CondVar.Monitor.Run | p4/xv6/user/cvarlib.c:16-47 | every interleaving without the 64th wait leaves the threads, states, lock and queue of the run on values; the threads woken are the first of those queued, in that order |
| Stride.LeastExists | p2/stride/xv6/kernel/proc.c:281-289 | a runnable process of least pass, first in the table, exists if any is runnable |
| Stride.Counted | p2/stride/xv6/kernel/proc.c:302-304 | over a stretch of select and yield a pass grows by stride times selections |
| Stride.StaysClose | p2/stride/xv6/kernel/proc.c:281-304 | two passes that are within a stride of each other stay so |
| Stride.Fair | p2/stride/xv6/kernel/proc.c:281-304 | two processes starting with equal pass satisfy abs(n_i\*stride_i - n_j\*stride_j) <= max(stride_i, stride_j) after any number of selections |
| Stride.ChosenSoon | p2/stride/xv6/kernel/proc.c:281-304 | a process is chosen within as many selections as the others can make before its pass |
| Stride.ChosenWithin | p2/stride/xv6/kernel/proc.c:281-304 | with all passes in a window of 1500 and strides of at least 100 a runnable process is chosen within 16\*(N-1)+1 selections |
| Stride.Starves | p2/stride/xv6/kernel/proc.c:281-304 | a runnable process is chosen sooner or later if and only if no runnable process with stride 0 has a smaller pass, or the same pass and an earlier place |
| Stride.StrideZero | p2/stride/xv6/kernel/proc.c:80-110 | a process of stride 0, as the first one is until it sets its tickets, once chosen is chosen for ever |
| Stride.WindowMoves | p2/stride/xv6/kernel/proc.c:291-304 | a selection moves the window up |
| Stride.StaysAsleep | p2/stride/xv6/kernel/proc.c:361-409 | a sleeper stays as it is through any calls but a wakeup on its channel, an exit that wakes it, or a kill |
| Stride.SleepThenWake | p2/stride/xv6/kernel/proc.c:361-409 | the running process goes to sleep; whatever others do, a wakeup on its channel makes it runnable, at the minimum of that moment, and one on another channel does not |
| Stride.ExitThenReap | p2/stride/xv6/kernel/proc.c:179-266 | the running process exits: its parent is woken at the minimum if it sleeps, nobody else changes, and its slot is held until it is reaped and free then |
| Stride.YieldThenSelect | p2/stride/xv6/kernel/proc.c:274-345 | after a yield the scheduler takes, of that process and all runnable ones, the first with the least pass, which becomes the minimum; that one pays its stride and no other pass changes |
| Stride.StrideOf | p2/stride/xv6/kernel/proc.c:487-501 | the strides settickets gives are 100 to 1500 |
| Stride.KillLowers | p2/stride/xv6/kernel/proc.c:424-442 | after kill of a sleeper the next choice has a pass below the minimum if and only if the sleeper has, and then it is the sleeper |
| Stride.KillLowersMinimum | p2/stride/xv6/kernel/proc.c:424-442 | a table where that happens |
| Stride.Scheduler.constructor | p2/stride/xv6/kernel/proc.c:79-110 | the first process, with stride 0 |
| Stride.Scheduler.Cheapest | p2/stride/xv6/kernel/proc.c:278-289 | the search with -1 for no minimum finds the least pass, first in the table |
| Stride.Scheduler.Select | p2/stride/xv6/kernel/proc.c:274-313 | the chosen process, runnable, of least pass and first with it, runs and pays its stride; globalMinPassVal becomes its old pass and does not fall |
| Stride.Scheduler.Wakeup1 | p2/stride/xv6/kernel/proc.c:398-409 | exactly the sleepers on the channel become runnable, at the current minimum, and nobody else changes |
| Stride.Scheduler.Fork | p2/stride/xv6/kernel/proc.c:136-173 | the child takes the first unused slot, at the current minimum with stride 1500 |
| Stride.Scheduler.SetTickets | p2/stride/xv6/kernel/proc.c:487-501 | accepted exactly for multiples of 10 from 10 to 150 |
| Stride.Scheduler.Kill | p2/stride/xv6/kernel/proc.c:424-442 | kill keeps the invariant if and only if the process does not sleep or its pass is in the window; the next choice lowers the minimum if and only if the sleeper pass is below it |
| Stride.Scheduler.Stretch | p2/stride/xv6/kernel/proc.c:269-345 | the loop of select and yield is the function the fairness lemmas speak of |
| Stride.StepKeeps | p2/stride/xv6/kernel/proc.c:136-442 | every call, kill of a sleeper with its pass in the window among them, keeps runnable and running passes in [globalMinPassVal, globalMinPassVal + 1500] and does not lower globalMinPassVal |
| Stride.Scheduler.Perform | p2/stride/xv6/kernel/proc.c:136-442 | each call of the code is that step on values |
| Stride.Scheduler.Run | p2/stride/xv6/kernel/proc.c:136-442 | every run leaves the table, minimum and running process of the run on values; globalMinPassVal has not fallen and the window holds |
| Vm.PteSet | p4/xv6/kernel/vm.c:91 | writing one page-table entry changes the translation of one page |
| Vm.EntryBits | p4/xv6/kernel/vm.c:318 | the entry of a user page is present, writable and for user mode in bits 0 to 2; that of a kernel page lacks bit 2, and that of the kernel text bit 1 as well |
| Vm.TableMade | p4/xv6/kernel/vm.c:62-69 | a new zeroed table changes no translation |
| Vm.MapUser | p4/xv6/kernel/vm.c:86-91 | mapping a page of nobody's adds that page to the address space and keeps user pages distinct |
| Vm.UnmapUser | p4/xv6/kernel/vm.c:270-274 | unmapping takes exactly that page away |
| Vm.SpaceKept | p4/xv6/kernel/vm.c:52-72 | an address space depends on its directory and tables only, so writes elsewhere do not disturb it |
| Vm.RolledBack | p4/xv6/kernel/vm.c:241-246 | unmapping what allocuvm had added gives the old translations and pages back |
| Vm.CopiedMore | p4/xv6/kernel/vm.c:315-319 | one more page of the parent's bytes |
| Vm.KernelSpace | p4/xv6/kernel/vm.c:126-149 | the kernel map leaves user addresses free under a table that exists |
| Vm.KernelBits | p4/xv6/kernel/vm.c:121-131 | the kernel map gives a page its own frame from USERTOP to PHYSTOP and for the devices, nothing elsewhere; never for user mode, and writable except for the kernel text |
| Vm.Machine.constructor | p4/xv6/kernel/kalloc.c:23-32 | all pages above the kernel are free |
| Vm.Machine.Kalloc | p4/xv6/kernel/kalloc.c:60-70 | the first free page, 0 exactly if there is none |
| Vm.Machine.Kfree | p4/xv6/kernel/kalloc.c:38-54 | the page joins the list, no other page changes |
| Vm.Machine.Walk | p4/xv6/kernel/vm.c:52-72 | the table of a page, made from a free page on demand; 0 exactly if missing and not to be had |
| Vm.Machine.MapPages | p4/xv6/kernel/vm.c:77-98 | exactly the given pages are mapped to the given frames, tables come from the free list, and it fails only when that is empty |
| Vm.TwelveTables | p4/xv6/kernel/vm.c:122-131 | the directory entries the kernel map needs are 12, and 12 are present exactly if all are |
| Vm.Machine.MapStretch | p4/xv6/kernel/vm.c:143-146 | one turn of the loop: the next stretch is mapped, or fewer than 13 pages were there in all |
| Vm.Machine.Setupkvm | p4/xv6/kernel/vm.c:134-149 | a directory with exactly the kernel map, bit by bit, from 13 pages; it fails exactly if fewer are free, and those are then lost |
| Vm.Machine.Unmap | p4/xv6/kernel/vm.c:267-276 | one page is freed and unmapped if it was mapped |
| Vm.Machine.Deallocuvm | p4/xv6/kernel/vm.c:258-278 | exactly the mapped pages from newsz to oldsz are unmapped and freed |
| Vm.Machine.Freevm | p4/xv6/kernel/vm.c:283-295 | exactly the directory, tables and user pages of the address space become free |
| Vm.Machine.MapOne | p4/xv6/kernel/vm.c:318-319 | mapping a user page cannot fail, since its table exists |
| Vm.Machine.Allocuvm | p4/xv6/kernel/vm.c:229-251 | it succeeds exactly if as many pages are free as are new; the new pages are then fresh zero pages that user mode can read and write, and else translations and free pages are as before |
| Vm.Machine.CopyPage | p4/xv6/kernel/vm.c:310-319 | one page of the child is a fresh one with the words of the parent's |
| Vm.Machine.Copyuvm | p4/xv6/kernel/vm.c:299-326 | it succeeds exactly if 13 pages and one a page below sz are free; each such page of the child is then its own fresh page with the parent's words, and user mode can read and write it. Out of pages while copying, the free pages are as before the call |
| Vm.Machine.CopyAndFree | p4/xv6/kernel/vm.c:283-326 | copying, and freeing what was copied, leaves the free pages as they were if and only if at least 13 were free, or none |
| Pipe.Wraps | p4/xv6/kernel/pipe.c:82-90 | wrapping counters change neither the places nor the tests for empty and full |
| Pipe.Store | p4/xv6/kernel/pipe.c:90 | a byte stored with room left disturbs no buffered byte |
| Pipe.Pipe.constructor | p4/xv6/kernel/pipe.c:32-36 | an empty pipe with both ends open |
| Pipe.Pipe.Put | p4/xv6/kernel/pipe.c:90 | one byte is added behind the buffered ones, at its wrapped place |
| Pipe.Pipe.Get | p4/xv6/kernel/pipe.c:113 | the oldest byte written and not yet read comes out |
| Pipe.Pipe.Fill | p4/xv6/kernel/pipe.c:81-91 | bytes go in until none is left or the pipe is full |
| Pipe.Pipe.Write | p4/xv6/kernel/pipe.c:76-95 | pipewrite between two sleeps: bytes go in as far as there is room; it returns if all are in, else fails without readers or when killed, else sleeps; readers are woken unless it failed |
| Pipe.WriteIs | p4/xv6/kernel/pipe.c:76-95 | a write between two sleeps stores as much as there is room for, in order; it returns its whole length exactly if all is in, and else fails or sleeps |
| Pipe.Pipe.Drain | p4/xv6/kernel/pipe.c:110-114 | as many of the buffered bytes as were asked for, in order |
| Pipe.Pipe.Read | p4/xv6/kernel/pipe.c:98-118 | piperead between two sleeps: it sleeps or fails exactly on an empty pipe that may still be written, and fails exactly if also killed; else it returns the oldest bytes, as many as there are or were asked for, and wakes the writers |
| Pipe.ReadIs | p4/xv6/kernel/pipe.c:98-118 | a read between two sleeps: it sleeps or fails exactly on an empty pipe that may still be written, fails exactly if also killed, and else returns the oldest bytes, as many as there are or were asked for |
| Pipe.EndOfFile | p4/xv6/kernel/pipe.c:103-118 | a read of more than no bytes returns none only on an empty pipe without writers |
| Pipe.JustBegun | p4/xv6/kernel/pipe.c:76-118 | a read that begins on a pipe with bytes takes the first of them, as many as it asks for, and a write that begins adds its own as far as there is room |
| Pipe.ClosedEnd | p4/xv6/kernel/pipe.c:58-73 | with the writers closed every sleeping reader is awake and finds the bytes left and then the end of the file; with the readers closed every sleeping writer is awake, and a write that is not done fails |
| Pipe.KilledReturns | p4/xv6/kernel/pipe.c:83-106 | a killed process sleeps no more, whatever happens, and its call returns at its next turn |
| Pipe.Pipe.Close | p4/xv6/kernel/pipe.c:58-73 | closing an end wakes those on the other |
| Pipe.StepKeeps | p4/xv6/kernel/pipe.c:57-118 | after every step at most 512 bytes are in the pipe, and with nobody killed no reader sleeps on a non-empty pipe or one without writers, and no writer on one with room or without readers |
| Pipe.StepMoves | p4/xv6/kernel/pipe.c:76-118 | what was in and what comes in is what goes out and what stays, in order |
| Pipe.Conserved | p4/xv6/kernel/pipe.c:76-118 | over any interleaving the bytes stored by writes are the bytes returned by reads, one after another, and then those still in the pipe |
| Pipe.Pipe.Run | p4/xv6/kernel/pipe.c:57-118 | the ring with its wrapping counters does, step by step, what the queue of bytes does, and its reads return the bytes of the queue |
| Shell.Reparse3 | p4/xv6/user/sh.c:399-445 | a printed command, redirected or in parentheses, is parsed back by parseexec |
| Shell.Reparse2 | p4/xv6/user/sh.c:361-371 | the same for pipes |
| Shell.Reparse1 | p4/xv6/user/sh.c:349-352 | the same for background commands |
| Shell.Reparse0 | p4/xv6/user/sh.c:344-358 | the same for lists |
| Shell.LineGood | p4/xv6/user/sh.c:344-445 | whatever the parser accepts has at most 9 words a command, each a word |
| Shell.LexRender | p4/xv6/user/sh.c:265-307 | printed tokens are read back as those tokens |
| Shell.LexGood | p4/xv6/user/sh.c:265-307 | the tokens of any line are words and symbols |
| Shell.RoundTrip | p4/xv6/user/sh.c:264-445 | parsing the printed form of any well-formed command tree gives that tree |
| Shell.ParsePrintParse | p4/xv6/user/sh.c:264-445 | any line that parses can be printed and parses to the same tree again |
| Shell.ItemsRead | p4/xv6/user/sh.c:415-445 | words and redirections in any order, fewer than MAXARGS words, up to an end: parseexec gives the words in order and around them the redirections in order, the first innermost, `<` to read and `>` and `>>` to write |
| Shell.LineRead | p4/xv6/user/sh.c:344-412 | a line written as a tree of lists, background commands, pipes, blocks and commands is parsed as what the tree stands for |
| Shell.LineTree | p4/xv6/user/sh.c:344-445 | and whatever is accepted is written as such a tree |
| Shell.Grammar | p4/xv6/user/sh.c:344-445 | on tokens the parser accepts a line as a command if and only if the line is written as a tree that stands for it |
| Shell.LexLayout | p4/xv6/user/sh.c:265-307 | tokens with any blanks between them are read as those tokens, and without blanks where neither two words nor `>` and `>` or `>>` meet |
| Shell.LayoutOf | p4/xv6/user/sh.c:265-307 | and every line is its tokens so spaced |
| Shell.LineGrammar | p4/xv6/user/sh.c:264-445 | on characters: a line is accepted as a command if and only if it is a spacing of the tokens of a tree that stands for it |
| Shell.StringsRead | p4/xv6/user/sh.c:448-492 | the strings left by nulterminate are the words of the line, since each NUL falls just after a word |
| Shell.Parser.Peek | p4/xv6/user/sh.c:310-319 | blanks are skipped and the next token is of the given kinds |
| Shell.Parser.GetToken | p4/xv6/user/sh.c:265-307 | the first token of the rest of the line, and what is left after it |
| Shell.Parser.ScanWord | p4/xv6/user/sh.c:294-297 | the longest run of word characters |
| Shell.Parser.Redirections | p4/xv6/user/sh.c:374-396 | the loop of parseredirs |
| Shell.Parser.ExecCmd | p4/xv6/user/sh.c:415-445 | parseexec on characters is the grammar on tokens, redirections before and between the words included |
| Shell.Parser.Block | p4/xv6/user/sh.c:399-412 | parseblock |
| Shell.Parser.PipeCmd | p4/xv6/user/sh.c:361-371 | parsepipe |
| Shell.Parser.Line | p4/xv6/user/sh.c:344-358 | parseline; the mutual recursion ends on every input |
| Shell.Parser.Nulterminate | p4/xv6/user/sh.c:449-492 | NUL after each word and nowhere else |
| Shell.Parser.ParseCmd | p4/xv6/user/sh.c:327-341 | parsecmd panics exactly if the line is not in the grammar, and else leaves the tree with its words as C strings |
| Grep.AtOne | p4/xv6/user/grep.c:92-93 | a literal or dot takes one character |
| Grep.AtStar | p4/xv6/user/grep.c:98-105 | c\* takes any number of characters c stands for |
| Grep.MatchHere | p4/xv6/user/grep.c:84-95 | 1 exactly if a piece at the start of the text is in the language of the pattern, ending the text for a final $ |
| Grep.MatchStar | p4/xv6/user/grep.c:98-105 | 1 exactly if after some run of c the rest matches |
| Grep.Match | p4/xv6/user/grep.c:72-81 | 1 exactly if some part of the text, from the start for a leading ^, is in the language the pattern denotes |

## Left out

- Devices, boot, interrupts, assembly: a disk transfer is one step; `acquire`, `release`, `sleep`, `wakeup` and FetchAndAdd are atomic.
- Byte layout of `struct dinode` in the inode sectors and of the superblock: inodes are an array of records beside the sectors, and xint, xshort, i2b, rinode and winode have no bytes to move, but for inode numbers past the table (`Mkfs.Winode`).
- The inode cache as a table (NINODE, iget, idup, I_BUSY): a cached inode is an object with a reference count, one system call at a time.
- The buffer cache under the file system: `FileSystem` reads and writes sectors directly; `BufferCache.Cache.Serve` says why it may. The two are not one program.
- Reads and writes of device inodes end at the call of the driver.
- Link counts are unbounded; the 16-bit field of the disk inode would wrap.
- Directories made by mkfs below the root.
- NameTree.StepKeepsTree: a call by a relative path of a process whose current directory was removed does nothing in the model, until that process has changed to another directory; `NameTree.MadeInRemoved` says what `create` would do there.
- NameTree.NameSpace.Run: the same calls do nothing.
- Subdirectories of the host directory in mkfs: `RootImage` takes its files as a list of names and contents.
- FileSystem.Disks.Run: states files with just the blocks their sizes ask for, which the image of mkfs has unless a directory was a multiple of 512 bytes; `Readi` and `Writei` themselves allow holes.
- FileSystem.Disks.Pointer: stops when `balloc` hands back a block at or past `sb.size`, which happens exactly on a full disk; the code stores it and goes on.
- FileSystem.Disks.Entry: stops there as well.
- FileSystem.Disks.Bmap: stops there as well.
- FileSystem.Disks.Iput: takes an inode whose copy agrees with the disk; one whose empty pointer `readi` filled without `iupdate` does not occur in files without holes.
- Mkfs.Builder.Ialloc: stops at the end of the inode table, where the code goes on as said above.
- NameTree.NameSpace.Iput: whether there are other references is a flag of the caller, since open files are not modelled.
- Syscalls.Kernel.Run: the same relative calls do nothing; open files are inode numbers with an offset; file descriptors, their offsets and permissions are left out, and a call is one step.
- Crashes in the middle of an operation and disk errors.
- Heap.Heap.constructor: a region is a multiple of 64 bytes; other regions are covered by `Heap.OddRegion` and `Heap.OddBlockLeavesTooLittle` only.
- Heap.Heap.MemFree: does not model frees of pointers that are not live but look so, because the header read is then arbitrary memory.
- Heap.Heap.MemAlloc: does not model zero filling. The fill after the next-fit fallback skips the first 16 bytes of the block, and after a failing `Mem_Init` it has the length of that call's slabs; negative sizes are not modelled either.
- Heap.Library.MemInit: a region is a multiple of 64 bytes; other regions are covered by `Heap.OddRegion` only.
- KrMalloc.Allocator.Malloc: reports a request to sbrk that is no positive int as `odd` and stops there; the process would shrink or stay as it is, and the header written after that is not modelled. Addresses count in headers of 8 bytes, so alignment is not modelled, and `base` lies below all memory from sbrk.
- KrMalloc.Allocator.Run: ends at such a request.
- KrMalloc.Allocator.Morecore: reports such a request and does not make it.
- BufferCache.Cache.Get: one pass under the lock; the retry after sleep is the next pass. Device number -1, which marks an unused buffer, is not asked for.
- Buffers are written after their last change and before brelse, as bio.c asks of its callers.
- CondVar.Monitor.Enqueue: a 64th waiter that the full test does not see does not come; `CondVar.SixtyFourth` says exactly when that would be and what it does. Threads are not killed while they wait, and pids are distinct.
- CondVar.Monitor.Run: such a wait is skipped.
- Pipe.Pipe.Close: no call on the closed end is under way, which file reference counts guarantee; freeing the pipe page is left out.
- Stride: pass values do not overflow, fork is one step, one CPU; wait is the reuse of a zombie's slot.
- Vm.Machine.MapPages: the pages are not mapped yet; on one that is the code panics.
- Vm.Machine.Allocuvm: no page above oldsz is mapped, for the same reason.
- Vm: pages hold words, not bytes; inituvm, loaduvm, copyout and uva2ka are easy members of the same state. The kernel's data are taken to start on a page boundary and sizes to be at most USERTOP.
- Shell.Parser.ExecCmd: words and redirections are collected and the tree built at the end, where the C code fills the exec node in place below the redirections already around it.
- Running the parsed command, prompts, cd.
- grep's line buffer and output.
- p4 process exit, join and growproc, p5/fsck.c, p5/lfsreader.c, p2/shell: plumbing, or properties that do not hold in general.
