# A model of the Mock-OS storage stack

Mock-OS (directory `a3/`) stores files in a layered file system: a write-back
buffer cache over a block device, a bitmap of the sectors in use that is kept in
a file of its own, inodes with a three-tier block index, and directories that
are tables of fixed-size slots in a file.  This project models that stack in
Dafny, layer by layer, and proves that each layer behaves as a simple abstract
object.  Two smaller parts of the same repository are modelled beside it: the
intrusive linked list with its in-place natural merge sort, and the frame
allocator of the shell memory.

All files are verified together: `dafny verify dfyconfig.toml`.

## What is proved

* **Cache.**  Any run of reads and writes is answered as by a device without a
  cache; after closing, the disk holds what such a device would hold.  No sector
  is cached twice, clean slots agree with the disk, a sweep of the clock ends
  after at most 64 second chances, and a slot in use is given up only when all
  64 are in use.  What each request does to slots, reference bits, hand and disk is
  stated exactly; a sector that was just used survives the next miss unless every
  slot is referenced.
* **Bitmap and free map.**  64-bit words simulate a sequence of booleans under
  every update, unused bits stay zero, scan-and-flip finds the least group or
  reports that there is none, a failed allocation changes nothing, and the file
  of the free map always holds the current map, one bit for each sector, in the
  order of the sectors.
* **Inodes.**  A file is a sequence of bytes.  Reading delivers a slice of it,
  writing replaces a range and pads a gap with zeros, for any alignment and
  across all three tiers.  Growing a file from *m* to *n* sectors succeeds
  exactly when `FileCost(n) - FileCost(m)` sectors are free, wherever they lie,
  and takes exactly that many.  Deallocation gives exactly those sectors back,
  each of them marked at that moment.
* **File system.**  Sectors of different files are disjoint, marked and never
  reserved.  A run of create, write and delete operations on any number of files
  acts as on an abstract store (what the files hold, which of them are
  directories, and a count of free sectors) up to the first operation that does
  not fit there; along the run no sector is lost, and after the refused operation
  all files still read as they should.  Mounting a device again and opening its files gives back the
  same free map and the same files.  After a refused write every file, the one to
  be written included, still reads as before.
* **Directories.**  After any run of additions and removals the slots stand for
  a finite map from names to sectors; lookups, emptiness and listings agree with
  that map.  Creating a file enters it under its name, removing it frees all its
  sectors.
* **List sort.**  For any strict weak order `list_sort` leaves a well-linked,
  sorted, stable permutation; a pass over *r* runs counts exactly ⌈*r*/2⌉ runs
  and leaves no more, so it ends.
* **Frames.**  Although the scan goes by single lines, every frame it finds is
  aligned; frames never overlap, and allocation fails exactly when every aligned
  frame is resident.

Four promises of the code do not hold on all inputs.  The model keeps the code's
behaviour, states exactly when they hold, and shows a call that breaks them.

* `inode_reserve_indirect` ignores whether the index block could be allocated
  (a3/fs/inode.c:382).  When there is no free sector it zeroes sector 0, which
  holds the inode of the free map.  `FileSystem.FileSystem.WriteAt`, `Create` and
  `NewFile` state that a refused call leaves sector 0 intact if and only if the
  free sectors do not run out just when an index block is due
  (`RunsOutAtIndexBlock`, a condition on the lengths and the number of free
  sectors only).  `RefusedWriteZeroesSectorZero` formats a device of 128 sectors,
  fills it with one file, and appends a byte.
* A refused reservation has already taken sectors and keeps them
  (a3/fs/inode.c:417-446).  `Reserve.Reserve` states how many sectors are free
  afterwards: none, or, for a length that the index cannot hold, what is left
  when the index is full.  The free map is as it was if and only if the length
  was negative, no sector was free, or the file already had 16635 blocks.  The
  same holds, with the inode's sector given back, for `NewFile`, and it is exactly
  then that no sector is lost.  `RefusedCreationKeepsSectors` formats a device of
  64 sectors and asks for a file of 100.
* `filesys_create` under a name that is taken or invalid gives the inode's sector
  back and keeps the blocks (a3/fs/filesys.c:67-84).  `Directory.Dir.CreateFile`
  states that all files are as before, and that no sector is lost if and only if
  the length was 0.  `RefusedNameKeepsSectors` asks for a file of one sector under
  the empty name.
* `inode_write_at` with size 0 at offset 0 sets the length to 0 and keeps the
  blocks (a3/fs/inode.c:264-273).  `WriteNothingAtZero` states that the file
  system stays consistent if and only if the file was empty;
  `EmptyWriteBreaksFile` does it to a file of one byte.

Where comments and code differ, the model follows the code: `sector_idx < 0` in
`inode_read_at` compares an unsigned value and never breaks the loop (the loop
ends through the chunk size), and `bitmap_scan_and_flip` with a count of 0
delivers the start position, not 0.

## How to read it

| file | contents |
|---|---|
| `Layout.dfy` | bytes, sectors, index blocks and the on-disk inode |
| `BufferCache.dfy` | the cache |
| `Bits.dfy`, `Bitmap.dfy` | bitwise operators on words, and the bitmap |
| `BlockTree.dfy`, `Growth.dfy` | block trees as specification values, and how families of them grow |
| `FileMap.dfy` | an inode as a family of 125 trees, and the bytes of a file |
| `Lookup.dfy` | following block pointers, also when the index holds surplus blocks |
| `InodeIO.dfy` | block lookup, the read and write loops, the list of data sectors |
| `FreeMap.dfy` | the sector allocator and its file |
| `Reserve.dfy`, `Deallocate.dfy` | growing a file and giving its sectors back |
| `FileStore.dfy` | the invariant of a whole set of files, on values |
| `FileSystem.dfy` | the file system as a class, runs, formatting and mounting |
| `DirTable.dfy`, `Directory.dfy` | directory slots as values, and directories over the file system |
| `Merging.dfy`, `LinkedList.dfy` | stable merging of sequences, and the list |
| `FrameStore.dfy` | the frame store of the shell memory |

The device is an array of 512-byte sectors.  `Cache.view` is the logical device;
all layers above the cache speak of it alone.  A block tree is a ghost value
that `Stored` ties to the index sectors.  Long methods start with `hide *` and
call small lemmas (named `…Is`, `…Now`, `…Facts`, `…Step`) that bring back one
fact at a time; where definitions are hidden, sizes such as 512, 128 and 16635
are written out.

## Model

| member | source | states |
|---|---|---|
| `Layout.PointersRoundTrip` | a3/fs/inode.c:12-14 | an index block written to a sector reads back as the same 128 pointers |
| `Layout.ZeroSectorHoldsNoPointer` | a3/fs/inode.c:379-385 | a zeroed sector reads as an index block without any block, so 0 can stand for "not allocated" |
| `Layout.InodeRoundTrip` | a3/fs/inode.h:19-28 | an inode written to its sector reads back unchanged, for every length that is not negative |
| `Layout.PointersLayout` | a3/fs/inode.c:12-14 | pointer *i* of an index block lies in bytes 4*i* to 4*i* + 3 of the sector, lowest byte first |
| `Layout.InodeLayout` | a3/fs/inode.h:19-28 | words 0 to 122 of an inode's sector are the direct blocks, 123 and 124 the indirect ones, 125 the directory flag, 126 the length, 127 the magic number |
| `Layout.InodeNotZero` | a3/fs/inode.h:19-28 | no inode looks like a sector of zeros |
| `Layout.BytesToSectors` | a3/fs/inode.c:22-24 | the least number of sectors that holds so many bytes |
| `BufferCache.Cache.constructor` | a3/fs/cache.c:21-28 | a cold cache: every slot is empty and clean, the hand at slot 0, the logical device is the device |
| `BufferCache.Cache.Flush` | a3/fs/cache.c:31-38 | the slot is written back and becomes clean; coherence and the logical device are kept |
| `BufferCache.Cache.Close` | a3/fs/cache.c:40-47 | afterwards the disk equals the logical device; slots stay cached and become clean, the hand stays |
| `BufferCache.Cache.Lookup` | a3/fs/cache.c:53-64 | the slot that caches the sector, or a miss exactly when no slot does |
| `BufferCache.Cache.Sweep` | a3/fs/cache.c:73-88 | ends after at most 64 second chances; which bits are cleared and where the hand stops |
| `BufferCache.Cache.Evict` | a3/fs/cache.c:71-99 | a free slot, the first in clock order that was empty or unreferenced; nothing logical changes, and on the disk only the victim's sector if it was dirty; a slot in use is given up only if all were in use |
| `BufferCache.SweepEvicts` | a3/fs/cache.c:71-99 | a sweep from any warm-up state, after which the slot under the hand is freed, has all the properties of an eviction |
| `BufferCache.FlushSlot` | a3/fs/cache.c:31-38 | writing a slot back keeps coherence and the logical device |
| `BufferCache.AllClean` | a3/fs/cache.c:40-47 | when every slot is clean, the disk is the logical device |
| `BufferCache.SweepFindsEmptySlot` | a3/fs/cache.c:71-99 | during warm-up the sweep passes one slot at most and stops at the next unused slot |
| `BufferCache.SweptSame` | a3/fs/cache.c:80-87 | a sweep changes nothing but reference bits |
| `BufferCache.FreeSlot` | a3/fs/cache.c:91-98 | giving up a clean slot keeps coherence and the logical device |
| `BufferCache.FillSlot` | a3/fs/cache.c:108-112 | filling a free slot with an uncached sector keeps coherence and the logical device |
| `BufferCache.OverwriteSlot` | a3/fs/cache.c:134-137 | overwriting a cached sector changes that logical sector and no other |
| `BufferCache.Cache.Fetch` | a3/fs/cache.c:102-113 | a hit changes nothing; a miss evicts, writes the victim back and fills its slot from the disk; the warm-up order of the slots is kept |
| `BufferCache.Cache.Read` | a3/fs/cache.c:101-118 | delivers the logical sector and keeps the logical device; the slot that caches it is referenced afterwards; a hit changes no other slot, the hand or the disk, a miss only what an eviction changes |
| `BufferCache.Cache.Write` | a3/fs/cache.c:120-138 | replaces the logical sector; the slot that caches it is referenced and dirty afterwards, the rest as for a read |
| `BufferCache.ReferencedSurvives` | a3/fs/cache.c:71-99 | a referenced slot is given up only when all slots were referenced and it was under the hand |
| `BufferCache.RequestSurvives` | a3/fs/cache.c:71-138 | the sector of one request is still cached after the next, unless every slot was referenced |
| `BufferCache.Cache.Serve` | a3/fs/cache.c:101-138 | any run of requests is answered as by the reference device without a cache |
| `Bits.OrBit` | a3/fs/bitmap.c:147 | bit *i* of a disjunction of words |
| `Bits.AndBit` | a3/fs/bitmap.c:155 | bit *i* of a conjunction of words |
| `Bits.XorBit` | a3/fs/bitmap.c:165 | bit *i* of an exclusive disjunction of words |
| `Bits.NotBit` | a3/fs/bitmap.c:155 | bit *i* of a complement |
| `Bits.BitIs` | a3/fs/bitmap.c:37-39 | bit *i* of a word is the parity of the word divided by 2^*i* |
| `Bits.SameBits` | a3/fs/bitmap.c:24-29 | words are equal when all their bits are |
| `Bitmap.LastMaskBit` | a3/fs/bitmap.c:53-56 | the last mask has exactly the bits in use, also when the last word is full |
| `Bitmap.AndMask` | a3/fs/bitmap.c:169-173 | masking a word is not zero exactly when the bit is set |
| `Bitmap.ImageRoundTrip` | a3/fs/bitmap.c:288-304 | words written as bytes read back unchanged |
| `Bitmap.ImageBit` | a3/fs/bitmap.c:300-304 | bit *i* of the bitmap is bit *i* mod 8 of byte *i* / 8 of its file |
| `Bitmap.FromImageBit` | a3/fs/bitmap.c:288-296 | the same for words that are read from a file |
| `Bitmap.ImageStores` | a3/fs/bitmap.c:300-304 | the file of a bitmap holds its bits in order and zeros after the last |
| `Bitmap.StoredFlags` | a3/fs/bitmap.c:288-296 | a file that holds the bits of a bitmap in order is read as that bitmap |
| `Bitmap.CountFilled` | a3/fs/bitmap.c:273-279 | flipping a group of equal bits moves exactly its size from one count to the other |
| `Bitmap.CountZero` | a3/fs/bitmap.c:199-212 | a count is zero exactly when there is no such bit |
| `Bitmap.BitVector.constructor` | a3/fs/bitmap.c:64-77 | all bits are false and the unused ones zero |
| `Bitmap.BitVector.Mark` | a3/fs/bitmap.c:143-148 | sets that bit and no other |
| `Bitmap.BitVector.Reset` | a3/fs/bitmap.c:151-156 | clears that bit and no other |
| `Bitmap.BitVector.Flip` | a3/fs/bitmap.c:161-166 | flips that bit and no other |
| `Bitmap.BitVector.Test` | a3/fs/bitmap.c:169-173 | the value of the bit |
| `Bitmap.BitVector.SetMultiple` | a3/fs/bitmap.c:185-195 | sets exactly the bits of the range |
| `Bitmap.BitVector.CountBits` | a3/fs/bitmap.c:199-212 | the number of bits of the range with that value |
| `Bitmap.BitVector.Contains` | a3/fs/bitmap.c:216-228 | whether some bit of the range has the value |
| `Bitmap.BitVector.Scan` | a3/fs/bitmap.c:253-266 | the least start of a group, and the error value when there is none, for any number of bits |
| `Bitmap.BitVector.ScanAndFlip` | a3/fs/bitmap.c:273-279 | flips exactly the least group, shifts both counts by its size, or changes nothing |
| `Bitmap.BitVector.Load` | a3/fs/bitmap.c:288-296 | bit *i* becomes bit *i* mod 8 of byte *i* / 8 of the file, as far as it goes; the unused bits are cleared; a short file is reported |
| `Bitmap.BitVector.LastWord` | a3/fs/bitmap.c:293 | masking the last word clears the unused bits and changes no other |
| `BlockTree.LeafInside` | a3/fs/inode.c:28-75 | a data sector of a tree belongs to the tree and is none of its index blocks |
| `BlockTree.LeavesDistinct` | a3/fs/inode.c:28-75 | different indices lead to different sectors |
| `BlockTree.StoredFrame` | a3/fs/inode.c:12-14 | a stored tree depends on its index sectors only |
| `Growth.OthersUntouched` | a3/fs/inode.c:390-395 | while one subtree grows, its siblings keep their sectors and contents |
| `Growth.GrowOne` | a3/fs/inode.c:390-395 | one round of the loop grows the family: old sectors stay, new ones were free and are zero |
| `Growth.NodeGrew` | a3/fs/inode.c:379-399 | writing the grown pointers back completes the growth of the index block |
| `FileMap.DataDistinct` | a3/fs/inode.c:28-75 | different blocks of a file lie in different sectors, across tiers |
| `FileMap.DataInside` | a3/fs/inode.c:28-75 | a data block lies in a marked sector above the reserved ones that is no index block |
| `FileMap.MappedFrame` | a3/fs/inode.c:28-75 | a file stays mapped when its index blocks and marks stay |
| `Lookup.GoodLeads` | a3/fs/inode.c:28-75 | following the pointers of a stored tree leads to its data sectors |
| `Lookup.FamilyFinds` | a3/fs/inode.c:390-395 | what a tree held before it grew is found after further changes that spare its index blocks |
| `Lookup.NodeFinds` | a3/fs/inode.c:379-399 | an index block that keeps its pointers leads to all that its subtrees lead to |
| `Lookup.MappedLocated` | a3/fs/inode.c:28-75 | the lookup finds every block of a mapped file |
| `FileMap.RawWrite` | a3/fs/inode.c:292-317 | overwriting part of one block patches the file there and nowhere else |
| `InodeIO.DirectTier` | a3/fs/inode.c:33-38 | the direct pointer is the sector of the block |
| `InodeIO.IndirectTier` | a3/fs/inode.c:40-52 | the pointer in the indirect block is the sector of the block |
| `InodeIO.DoublyTier` | a3/fs/inode.c:54-71 | the pointer found by quotient and remainder is the sector of the block |
| `InodeIO.IndexToSector` | a3/fs/inode.c:28-75 | the sector of the block in any tier, and -1 beyond all of them; nothing changes |
| `InodeIO.ByteToSector` | a3/fs/inode.c:81-89 | the sector of the byte, and -1 exactly outside the file |
| `InodeIO.ReadChunk` | a3/fs/inode.c:207-243 | a chunk is the next piece of the file, empty exactly at the end |
| `InodeIO.ReadAt` | a3/fs/inode.c:201-247 | exactly the bytes of the file from the offset, cut off at its end |
| `InodeIO.WriteChunk` | a3/fs/inode.c:276-323 | a chunk patches the file at the offset and touches no sector of any other file |
| `InodeIO.WriteInPlace` | a3/fs/inode.c:276-327 | the whole buffer is written, all other bytes and sectors stay |
| `InodeIO.DoublySectors` | a3/fs/inode.c:545-575 | the nested loops list the blocks of the doubly indirect tier in order |
| `InodeIO.DataSectors` | a3/fs/inode.c:510-579 | lists for every index the sector that the lookup delivers |
| `FreeMap.Allocator.constructor` | a3/fs/free-map.c:13-20 | one bit for each sector but the last, with sectors 0 and 1 marked |
| `FreeMap.Allocator.NumFree` | a3/fs/free-map.c:22-24 | the number of free sectors |
| `FreeMap.Allocator.Allocate` | a3/fs/free-map.c:31-41 | first fit, success exactly when there is a group and the map can be written, otherwise map and device unchanged |
| `FreeMap.Allocator.Release` | a3/fs/free-map.c:44-48 | the asserted marks hold; exactly the sectors of the group become free, on disk too |
| `FreeMap.Allocator.Persist` | a3/fs/bitmap.c:300-304 | afterwards bit *i* mod 8 of byte *i* / 8 of the free map's file says whether sector *i* is in use, and the bits after the last sector are 0 |
| `FreeMap.Allocator.OpenMap` | a3/fs/free-map.c:51-57 | the map that the device records is loaded, bit for bit |
| `FreeMap.Allocator.OwnSectors` | a3/fs/free-map.c:64-77 | the file of the free map uses marked sectors above the reserved ones |
| `FreeMap.RecordedFrame` | a3/fs/free-map.c:31-48 | the recorded map does not depend on sectors outside its file |
| `Reserve.FileCostIs` | a3/fs/inode.c:406-447 | n + [n>123] + [n>251]·(1+⌈(n-251)/128⌉) is the sum of the costs of the three tiers |
| `Reserve.SpentStep` | a3/fs/inode.c:387-395 | what one round of the loop adds to the sectors spent |
| `Reserve.AllocateOne` | a3/fs/free-map.c:31-41 | a single sector is found exactly when one is free; it is the lowest, and never 0 or 1; otherwise nothing changes |
| `Reserve.ReserveSector` | a3/fs/inode.c:367-377 | a missing data sector is allocated and zeroed, a present one kept |
| `Reserve.OpenBlock` | a3/fs/inode.c:379-385 | a missing index block is allocated and zeroed; without a free sector, sector 0 is zeroed |
| `Reserve.ReserveKids` | a3/fs/inode.c:387-398 | success exactly when the missing sectors are free, the exact number taken, and the growth of all subtrees; after a failure no sector is free and all old blocks are found |
| `Reserve.ReserveIndirect` | a3/fs/inode.c:360-400 | success exactly when the missing data and index sectors are free; growth; what a failure can spoil, exactly when sector 0 is zeroed, that no sector is then free, and that all old blocks are still found |
| `Reserve.KidsStillFound` | a3/fs/inode.c:390-395 | when the loop gets stuck at one child, all blocks of all children are still found |
| `Reserve.RootsStillFound` | a3/fs/inode.c:417-443 | when the file cannot be completed, all its old blocks are still found from the inode in memory |
| `Reserve.ReserveDirect` | a3/fs/inode.c:415-423 | the same for the direct blocks |
| `Reserve.ReserveRoot` | a3/fs/inode.c:428-443 | the same for the indirect and the doubly indirect block in the inode |
| `Reserve.ReserveTiers` | a3/fs/inode.c:428-446 | the two indirect tiers together, with the exact free count also when they are refused |
| `Reserve.Reserve` | a3/fs/inode.c:406-447 | success exactly when the length is supported and `FileCost(n) - FileCost(m)` sectors are free; growth; the exact free count on success and on failure; the lowest free sectors are taken; when a failure leaves the map as it was; exactly when sector 0 is zeroed; on failure the old blocks are found, and the inode keeps exactly the pointers for which there was a sector |
| `Reserve.KeptIs` | a3/fs/inode.c:406-447 | which pointers of the inode are set after a refusal: direct pointer *r* if *r* < *n* and *r* < *m* + free, the indirect one if *n* > 123 and *m* + free > 123, the doubly indirect one if *n* > 251 and cost(*m*) + free > 252 |
| `Reserve.StuckPointers` | a3/fs/inode.c:417-443 | a pointer that was set stays; one that is set now leads to a sector that was free |
| `BlockTree.LowestTrans` | a3/fs/free-map.c:31-41 | taking the lowest free sectors twice is taking the lowest free sectors |
| `Reserve.RefusalKeepsCount` | a3/fs/inode.c:406-447 | a refused reservation leaves the free count as it was if and only if the length is negative, no sector is free, or the file has 16635 blocks |
| `Reserve.SameCount` | a3/fs/inode.c:406-447 | marks that are only added leave the map as it was exactly when they leave the count as it was |
| `Reserve.StuckOnce` | a3/fs/inode.c:390-395 | the loop can get stuck at one child only |
| `Reserve.LostNode` | a3/fs/inode.c:379-399 | an index block runs out at an index block exactly when it cannot be allocated itself or one of its children does so |
| `Reserve.LostInDoubly` | a3/fs/inode.c:436-440 | running out at an index block, said of the whole file, is running out in the doubly indirect tier |
| `Deallocate.ReleaseOne` | a3/fs/inode.c:454-457 | a sector of a file is marked when it is released; one more is free |
| `Deallocate.DeallocateKids` | a3/fs/inode.c:465-471 | exactly the sectors of the subtrees are released |
| `Deallocate.DeallocateIndirect` | a3/fs/inode.c:449-473 | exactly the sectors of the tree, index blocks included, are released, as many as it costs |
| `Deallocate.DeallocateDirect` | a3/fs/inode.c:484-489 | exactly the direct blocks are released |
| `Deallocate.Deallocate` | a3/fs/inode.c:475-508 | exactly the sectors of the file are released, each marked at that moment; the free count grows by `FileCost`; nothing else changes |
| `FileStore.ReservedBlocks` | a3/fs/inode.c:406-447 | after a reservation every block has a marked sector of its own; old ones stay; new ones were free and read as zeros |
| `FileStore.SectorsGrew` | a3/fs/inode.c:406-447 | exactly the sectors gained become marked, and they were free |
| `FileStore.Extended` | a3/fs/inode.c:263-274 | the extended file is the old one followed by zeros, because the slack of its last sector is zero |
| `FileStore.Overwritten` | a3/fs/inode.c:276-327 | an overwritten file keeps its invariant and is patched |
| `FileStore.UpdateFile` | a3/fs/inode.c:253-327 | a step on one file keeps all others and the disjointness of all |
| `FileStore.RemoveFile` | a3/fs/inode.c:475-508 | releasing one file keeps all others |
| `FileStore.FailureKeepsOthers` | a3/fs/inode.c:360-447 | a failed extension keeps every other file |
| `FileStore.FreeIsNobodys` | a3/fs/free-map.c:31-41 | a free sector belongs to no file |
| `FileStore.Truncated` | a3/fs/inode.c:271-273 | setting the length of a file with blocks to 0 breaks its invariant, whatever trees one looks for |
| `FileStore.StillReads` | a3/fs/inode.c:263-269 | a file that could not be extended reads as before |
| `FileSystem.CreateInode` | a3/fs/inode.c:103-125 | success exactly when the length is supported and the sectors are free; then a file of zeros; exact marks and counts, also on failure |
| `FileSystem.CreateMapFile` | a3/fs/free-map.c:64-77 | on a blank device the free map gets a file that records it; exact marks and free count |
| `FileSystem.FormatFits` | a3/fs/free-map.c:64-77 | the file of the free map always fits on a device that can be formatted |
| `FileSystem.GrowFile` | a3/fs/inode.c:263-274 | the file is padded with zeros, all others stay, or it fails exactly when there are too few sectors; then the others stay, it reads as before and keeps the pointers it has got; it is a directory exactly if it was one; exact free count in both cases |
| `FileSystem.ReleaseFile` | a3/fs/inode.c:182-186 | the inode's sector and all blocks become free, nothing else |
| `FileSystem.RefusedWriteZeroesSectorZero` | a3/fs/inode.c:379-385 | on every device of 128 sectors: format, fill with one file, append a byte; the write is refused and the inode of the free map is gone |
| `FileSystem.RefusedCreationKeepsSectors` | a3/fs/inode.c:415-423 | on every device of 64 sectors: format, ask for a file of 100 sectors; it is refused, there is no file, and one sector is free |
| `FileSystem.EmptyWriteBreaksFile` | a3/fs/inode.c:264-273 | on every device of 64 sectors: format, create a file of one byte, write nothing at offset 0; the invariant is broken |
| `FileSystem.FileSystem.Format` | a3/fs/filesys.c:20-37 | a formatted device satisfies the invariant, holds no file and has no lost sector; exact free count |
| `FileSystem.FileSystem.Mount` | a3/fs/filesys.c:20-37 | the free map is as it was, and the device holds every file of the file system that left it |
| `FileSystem.FileSystem.Open` | a3/fs/inode.c:130-158 | the inode on the device is read and becomes a file; those that are open stay |
| `FileSystem.FileSystem.OpenAll` | a3/fs/inode.c:130-158 | opening all inodes on the device gives all files |
| `FileSystem.Remount` | a3/fs/filesys.c:20-37 | mounting a device again and opening its inodes gives the same files and the same free map |
| `FileSystem.FileSystem.ReadBytes` | a3/fs/inode.c:201-247 | delivers a slice of what the file holds, in any state in which its blocks are found, also after a refused write |
| `FileSystem.FileSystem.ReadAt` | a3/fs/inode.c:201-247 | delivers a slice of the abstract file and changes no file |
| `FileSystem.FileSystem.Create` | a3/fs/inode.c:103-125 | a new file of zeros, a directory exactly if that was asked for; the other inodes stay; exact conditions and counts, also on failure; a failure keeps the other files, and sector 0 unless sectors run out at an index block |
| `FileSystem.FileSystem.Extend` | a3/fs/inode.c:263-274 | the file grows by zeros exactly when there are enough sectors; no other inode changes, and it stays the kind of file it was; exact marks and counts; after a refusal all files read as before and the inode in memory keeps exactly the pointers for which there was a sector |
| `FileSystem.FileSystem.MakeRoom` | a3/fs/inode.c:263-274 | the file is extended if the write ends past its end |
| `FileSystem.FileSystem.Overwrite` | a3/fs/inode.c:276-327 | the range is replaced, no other file changes, no sector is taken |
| `FileSystem.FileSystem.WriteNothingAtZero` | a3/fs/inode.c:264-273 | only the length changes, in memory and on the device; this keeps the invariant if and only if the file was empty |
| `FileSystem.FileSystem.StillIntact` | a3/fs/inode.c:379-385 | after a failure the inode of the free map is intact if and only if sectors did not run out at an index block |
| `FileSystem.FileSystem.WriteAt` | a3/fs/inode.c:253-327 | the old contents, padded with zeros up to the offset, with the buffer over them; success exactly when it fits; no other inode changes, and the file stays the kind it was; exact marks and counts; after a refusal all files, this one included, read as before, and inode, free count, free map and sector 0 are known exactly |
| `FileSystem.FileSystem.Remove` | a3/fs/inode.c:171-189 | the file and its inode disappear, exactly its sectors are released, no other file changes |
| `FileSystem.FileSystem.NewFile` | a3/fs/filesys.c:54-88 | a file of the kind asked for, under the lowest number that was free; success exactly when enough sectors are free; a failure keeps all files and frees that number again, and the invariant, the free map and the absence of lost sectors are kept each under an exact condition |
| `FileSystem.FileSystem.Forget` | a3/fs/filesys.c:83-84 | only the inode's sector is given back; no sector is lost if and only if the file was empty |
| `FileSystem.FileSystem.CreateThenRemove` | a3/fs/inode.c:406-508 | creating and removing a file restores the free map bit for bit |
| `FileSystem.FileSystem.Ownership` | a3/fs/inode.c:360-447 | in every valid state a sector of a file is marked, not reserved, holds no inode and belongs to that file alone |
| `FileSystem.FileSystem.Perform` | a3/fs/inode.c:103-327 | an operation succeeds exactly when the abstract store says it fits, and has its effect on files, their kinds and the free count; when it is refused, all files read as before |
| `FileSystem.FileSystem.Run` | a3/fs/inode.c:103-508 | every run refines the abstract store up to the first operation that does not fit, keeps the invariant and loses no sector; after that operation all files read as the store says |
| `FileSystem.ReleasedAccounted` | a3/fs/inode.c:475-508 | after a removal the marked sectors are again exactly those of the files |
| `FileSystem.GrownAccounted` | a3/fs/inode.c:406-447 | after an extension the marked sectors are again exactly those of the files |
| `FileSystem.AccountedIff` | a3/fs/inode.c:406-447 | if nothing was lost before, sectors are lost exactly when marks were added without an owner |
| `FileSystem.NewAccounted` | a3/fs/filesys.c:67-69 | after a creation the marked sectors are again exactly those of the files |
| `DirTable.SlotRoundTrip` | a3/fs/directory.h:22-26 | a slot written as 36 bytes reads back unchanged |
| `DirTable.SlotLayout` | a3/fs/directory.h:22-26 | bytes 0 to 3 of a slot are the sector, 4 to 34 the name, 35 the flag |
| `DirTable.TableLayout` | a3/fs/directory.h:22-26 | where the fields of slot *i* lie in the directory file |
| `DirTable.PaddedString` | a3/fs/directory.c:294 | a name copied into its field compares equal to itself |
| `DirTable.EntriesAre` | a3/fs/directory.c:179-198 | the map of a directory is exactly its live slots |
| `DirTable.LookupIsMembership` | a3/fs/directory.c:179-198 | the search finds a slot exactly when the name is in the map, with its sector |
| `DirTable.AddEntry` | a3/fs/directory.c:279-296 | filling a free slot adds one name and disturbs no other |
| `DirTable.RemoveEntry` | a3/fs/directory.c:334-338 | clearing a slot removes its name and disturbs no other |
| `DirTable.OpRefines` | a3/fs/directory.c:247-338 | one addition or removal on the slots is one on the map; slot 0 stays |
| `DirTable.RunRefines` | a3/fs/directory.c:247-338 | any run of them refines the map, keeps names distinct and slot 0 untouched |
| `DirTable.ListingIsEntries` | a3/fs/directory.c:351-362 | the listing from the start names each entry exactly once |
| `Directory.TableWritten` | a3/fs/directory.c:292-296 | writing a slot at its offset in the file replaces or appends that slot of the table |
| `Directory.Dir.Lookup` | a3/fs/directory.c:179-198 | finds a name exactly when it is in the map, with its slot |
| `Directory.Dir.IsEmpty` | a3/fs/directory.c:201-212 | true exactly when the map is empty |
| `Directory.Dir.FindFree` | a3/fs/directory.c:286-290 | the first slot that is not in use, or the end; never slot 0 |
| `Directory.Dir.WriteSlot` | a3/fs/directory.c:296 | exactly the 36 bytes of the slot are written, no other file and no other inode changes, and the directory stays one; success exactly when it fits |
| `Directory.Dir.SetParent` | a3/fs/directory.c:266-278 | the parent entry of a subdirectory is set, its other entries and all other files stay |
| `Directory.Dir.Place` | a3/fs/directory.c:279-296 | the entry goes to the first free slot; refused exactly for lack of sectors |
| `Directory.Dir.Add` | a3/fs/directory.c:247-300 | a valid new name is added to the map, and a subdirectory gets its parent; the bytes of both files are stated exactly, no other file or inode changes and no kind; refused exactly for invalid or present names or lack of sectors; all files read as before after a refusal |
| `Directory.Dir.Erase` | a3/fs/directory.c:305-338 | the name, if present, is removed from the map; always succeeds then; only the bytes of its slot change |
| `Directory.Dir.RemoveFile` | a3/fs/directory.c:305-346 | the name and the file go, all its sectors are free again; slot 0 and every slot but the erased one stay, as do all other files and inodes; fails exactly for a name that is not there |
| `Directory.Dir.CreateFile` | a3/fs/filesys.c:54-88 | a plain file of zeros under a new name; slot 0 and every slot in use stay; exact condition; the free count in each case of refusal; under a name that is refused, all files stay and no sector is lost if and only if the length is 0 |
| `Directory.Dir.EnterFile` | a3/fs/filesys.c:71-84 | a new file is entered, slot 0 and every slot in use stay; otherwise its inode's sector is free again, with the exact free count |
| `Directory.AddsSlot` | a3/fs/directory.c:279-296 | the entry goes to the first slot that is free, or a new one; slot 0 and all others stay |
| `Directory.ErasesSlot` | a3/fs/directory.c:334-338 | exactly the slot with that name is marked free |
| `Directory.FormatDisk` | a3/fs/filesys.c:155-162 | a formatted device has one inode, that of an empty root directory of 1000 slots in sector 1, and no lost sector; fails exactly when the root directory does not fit |
| `Directory.RefusedNameKeepsSectors` | a3/fs/filesys.c:67-84 | on every device of 128 sectors: format, create a file of one sector under the empty name; it is refused, no file appears, and a sector is lost |
| `Directory.ParentSet` | a3/fs/directory.c:266-278 | setting the parent entry does not change the map |
| `Directory.Dir.ReadDir` | a3/fs/directory.c:351-362 | the next name of the listing; the position moves just past its slot, or to the end |
| `Directory.Dir.ReadAll` | a3/fs/directory.c:351-362 | reading to the end lists every entry exactly once, in the order of the slots |
| `Directory.CreateDir` | a3/fs/directory.c:52-75 | a directory with that many slots, no entry, and a first slot that points to itself, byte for byte; its inode says that it is one; success exactly when there is room; after a failure all other files read as before |
| `Merging.MergePermutes` | a3/fs/list.c:323-340 | a merge is a permutation |
| `Merging.MergeRuns` | a3/fs/list.c:323-340 | a merge of two runs is a run |
| `Merging.MergeStable` | a3/fs/list.c:323-340 | equivalent elements keep their order in a merge |
| `Merging.MergeInside` | a3/fs/list.c:323-340 | merging two adjacent runs inside a list is stable for the whole list |
| `Merging.RunIsSorted` | a3/fs/list.c:375 | a single run is sorted, for any strict weak order |
| `Merging.RunsConcat` | a3/fs/list.c:358-372 | how many runs two adjacent parts have together |
| `LinkedList.Insert` | a3/fs/list.c:144-152 | the links afterwards are those of the list with the element inserted |
| `LinkedList.Remove` | a3/fs/list.c:216-221 | the links afterwards are those of the list without the element, which keeps its own |
| `LinkedList.Splice` | a3/fs/list.c:157-176 | the links afterwards are those of the list with the range moved, within a list or from one to another |
| `LinkedList.FindEndOfRun` | a3/fs/list.c:304-316 | the end of the maximal run |
| `LinkedList.InplaceMerge` | a3/fs/list.c:323-340 | splicing leaves exactly the stable merge of the two ranges and the rest of the list as it was |
| `LinkedList.PassStep` | a3/fs/list.c:358-372 | one merge of a pass adds one run to the part passed and is stable |
| `LinkedList.TwoRuns` | a3/fs/list.c:363-368 | the two runs found are two maximal runs of the rest |
| `LinkedList.SortPass` | a3/fs/list.c:358-372 | a pass counts exactly half of the runs, rounded up, leaves no more, and is stable |
| `LinkedList.List.constructor` | a3/fs/list.c:54-60 | an empty, well-linked list |
| `LinkedList.List.Sort` | a3/fs/list.c:345-376 | ends, and leaves a well-linked, sorted, stable permutation |
| `FrameStore.FirstTripleAligned` | a3/shellmemory.c:67-87 | the first three free lines in a row start at an aligned line |
| `FrameStore.TripleIffFrame` | a3/shellmemory.c:67-87 | three free lines exist exactly when some aligned frame is not resident |
| `FrameStore.FramesDisjoint` | a3/shellmemory.c:67-87 | resident frames do not overlap and stay out of the variable zone |
| `FrameStore.ShellMemory.constructor` | a3/shellmemory.c:42-47 | all lines are free |
| `FrameStore.ShellMemory.Fits` | a3/shellmemory.c:70-76 | whether three free lines start here, within the frame zone |
| `FrameStore.ShellMemory.Alloc` | a3/shellmemory.c:67-87 | an aligned frame that overlaps no other, out of the variable zone, the first there is; the page's index and valid bits; fails exactly when all are resident |
| `FrameStore.ShellMemory.SetLine` | a3/shellmemory.c:97-102 | the line gets its text, stays in use and is marked valid |
| `FrameStore.ShellMemory.Evict` | a3/pcb.c:183-192 | exactly the three lines of the frame become free, and the page's index and valid bits are cleared |

## Left out

- Open counts and the life of handles (`inode_reopen`, `inode_close`, `dir_open`, `dir_close`, the global `cwd`): reopening does not count the opener, so no law about the last close holds. Giving the sectors of a removed inode back is the explicit operation `Remove`.
- FileSystem.FileSystem.ReadAt: a negative offset with a positive size is not covered, since the code then reads a sector outside the device; the caller's buffer is a returned sequence.
- InodeIO.ReadAt: the same.
- InodeIO.IndexToSector: indices of blocks that the file does not have, but the index could hold, are not covered: no caller asks for one, and the code then follows pointers that were never written.
- FileSystem.FileSystem.WriteAt: offsets are not negative and offset + size stays below 2^31, since beyond that the signed addition of the code overflows.
- FileSystem.FileSystem.Remove: only inodes in sectors 2 and up, since the two reserved sectors are never released.
- FreeMap.Allocator.Release: the reserved sectors and those of the free map's own file are not covered; releasing them would make the allocator hand them out.
- FileSystem.FileSystem.Format: ends before the root directory is created, which `Directory.FormatDisk` adds; the map that is read back afterwards is the one in memory, which is what `OpenMap` states.
- FileSystem.FileSystem.Mount: inodes are not open after mounting; `Open`, `OpenAll` and `Remount` open them.
- FileSystem.FileSystem.Run: ends at the first operation that does not fit; what that leaves is in the contracts of the single operations.
- Reserve.Reserve: lengths below the blocks already mapped are not covered; callers ask for such a length only in the empty write at offset 0, which `WriteNothingAtZero` covers. Of a file that could not be extended it says that it reads as before, not that it can be written.
- Directory.Dir.Erase: the erasing part of `dir_remove`.
- Directory.Dir.RemoveFile: plain files only; for a subdirectory the code closes the inode twice (a3/fs/directory.c:327-344), so what it does is not defined.
- Directory.Dir.CreateFile: plain files only, in a given directory; after a refusal for lack of sectors the free count and the inodes are stated, not that the directory can be written again.
- Directory.Dir.Lookup: the names "." and ".." and the splitting of paths are not modelled.
- InodeIO.WriteChunk: the branch that clears the bounce buffer is modelled, but no call reaches it.
- FrameStore.ShellMemory.Alloc: a process is never called "none".
- Deny-write counters are fields that writes respect; the operations that change them are not modelled.
- Bitmap words are naturals below 2^64 with bitwise operators defined bit by bit; creation in a given buffer and dumps are not modelled.
- List reversal, ordered insertion, removal of duplicates, maximum and minimum: easier uses of the same links.
- The device drivers, partitions, file positions (`file.c`), the utilities in `fsutil.c` and `fsutil2.c`, the schedulers, paging, shells, interpreters, and the directories `a1/` and `a2/`.
- Failing memory allocation, panic messages, hex dumps and debug output.
