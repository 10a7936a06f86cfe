# The file system of a3, modelled and proved

A Dafny model of the teaching file system under `a3/fs`: a write-back buffer cache over a device, a packed
free map that is mirrored to its own file, inodes with a three-level block index, directories of fixed-size
records, files by name with a position, and the doubly linked lists the code uses. Each layer is proved to
be something much simpler, and the layers are proved on top of each other:

| layer | files | what it is proved to be |
|---|---|---|
| cache | `BufferCache.dfy` | the bare device, for every sequence of calls and through every eviction |
| free map | `Bitmap.dfy` | a sequence of booleans; its file always holds it |
| inodes | `IndexTree.dfy`, `Growth.dfy`, `FileContents.dfy`, `InodeFiles.dfy`, `FileSystem.dfy` | a sequence of bytes per file |
| ownership | `Volume.dfy` | every sector has at most one owner and is marked exactly if it has one, over every run |
| placement | `Density.dfy` | files created in one go on a map without holes are never counted as fragmented |
| mounted system | `Filesys.dfy` | the cache, the free map and the inodes in memory together represent a volume, also after a restart |
| directories | `DirectoryEntries.dfy`, `DirectoryNames.dfy`, `Directory.dfy`, `PathNames.dfy` | a map from names to sectors |
| named files | `NamedFiles.dfy`, `Files.dfy`, `Appending.dfy`, `CopyFiles.dfy`, `FragmentCount.dfy` | a map from names to byte strings |
| sessions | `Shell.dfy` | that map and the positions of the open files, over any sequence of commands |
| lists | `ListRuns.dfy`, `LinkedLists.dfy` | sequences of nodes; the natural merge sort is a stable sort |

How the parts fit:

* `Cache`, `Bitmap`, `FileSys`, `Inode`, `OpenedFile` and `LinkedList` are classes whose fields are those of
  the C structs and statics; their methods follow the C functions branch by branch. Each method is proved
  against a pure description of the same step, and the lemmas speak about that description.
* The index of an inode is a ghost tree. The inode itself is treated as a block of level 3 whose 125 entries
  are 123 data sectors, one block of level 1 and one of level 2, so that the direct, the indirect and the
  doubly indirect case share their proofs. `Grown` says what a successful reservation does to a tree and to
  the disk; `Holds` says that the sectors below a tree are the bytes of the file, padded with zeros.
* `inode.c` and `free-map.c` call each other: a write may reserve sectors, a reservation writes the free map
  to its file, and that file is written like any other. The methods of `FileSys` are mutually recursive in
  the same way. Their invariant `Valid` includes that the free map file holds the bytes of the free map.
* `Mounted(fs, v)` ties the state in memory and on the device to a volume `v`; every operation on a mounted
  system is proved to be one step of the volume, and every run of steps keeps the ownership invariant.
* A reservation succeeds exactly when there are enough free sectors (`Room`, `KidsRoom`), and so do the
  operations built on it (`WriteFits`, `CreateFits`, `NameFits`, `CopyFits`).
* List elements carry an integer item, and `less` is any strict weak order on the items. Elements that
  compare equal are different nodes, so that stability says something.

Places where the code does not do what one might expect, each stated where it is proved:

* A write of zero bytes at offset 0 of a non-empty file cuts its length to 0 and keeps its sectors
  (`InodeWriteAt`, `CutIsNoFile`); every other write leaves the length one expects (`LengthAfterWriteIsMax`).
* A write that runs out of sectors rolls nothing back: every free sector has been taken. If the sector that could
  not be taken was to be an index block, its zeros go to sector 0, the inode of the free map, which is lost with
  the next start (`GaveUp`, `Stuck`, `MapIsLost`). `WriteZeroesMapIs` says for which numbers of free sectors this
  happens, and `OneByteMore` gives an input. A create gives back the one sector of its inode (`CreateFile`).
* A failed `filesys_create` with an invalid or existing name gives back the sector of the inode only; the
  sectors of the contents stay marked. The free map is as before exactly when there were none, or at most one
  sector was free (`FilesysCreate`).
* `inode_open` of an inode that is open does not count the new opener, since `inode_reopen` does not
  (`InodeOpen`). So closing the root directory frees its inode under every other user: opening "." or "..",
  removing `./x`, and removing any directory go on with a freed inode (`FilesysOpen`, `OpenPath`, `FilesysRemove`,
  `DirRemove`, outcome `Freed`), unless cwd holds the directory open.
* Opening a path of slashes alone never closes the directory, which stays in cwd (`FilesysOpen`); removing by a
  relative path, or a copy_out of `/`, then closes the inode of cwd (`FilesysRemove`, `CopyOut`).
* `count_fragmented_files` never closes the inodes it opens, so that a later opening of such a file finds one of
  them; where cwd is open, it starts from where cwd has been read to (`CountFragmentedFiles`).
* `dir_add` accepts "." and ".." as names, but `dir_lookup` never finds them among the records
  (`LookupAfterAdd`, `LookupAfterDrop`).
* `copy_in` of an empty file seeks to position -1, against the assertion of `file_seek`; the file is there
  nevertheless (`CopyIn`, outcome `Panicked`).
* `copy_in` reaches the end of its body without a `return` once the copy is done (fsutil2.c:59-63), and the
  shell branches on the value that is not there (interpreter.c:287-289). The outcome `Finished` has no code;
  the only `return 0` is that of a source that cannot be opened.
* `list_splice` within one list leaves a list of the same nodes if and only if the target is not one of the
  nodes moved (`Splice`); the comment does not say so.
* The comment on `bitmap_scan_and_flip` says that a search for a group of 0 bits returns 0; the code returns
  the start of the search (`Scan`, `ScanAndFlip`).

## Model

| member | source | states |
|---|---|---|
| Layout.DecodeEncode | a3/fs/inode.h:10-36 | a block of 128 32-bit words read back from its sector is the block that was written |
| Layout.EncodeDecode | a3/fs/inode.h:10-36 | every sector is a block of words: read as words and written back it is the same sector, so that with DecodeEncode index blocks and sectors correspond one to one (inodes do not: any non-zero flag reads as "directory") |
| Layout.WordRoundTrip | a3/fs/inode.h:10-36 | a word is the sum of its four bytes, lowest first |
| Layout.ZeroIsEmptyBlock | a3/fs/inode.c:420-429 | a sector of zeros is the index block in which nothing is allocated |
| Layout.BytesToSectorsIs | a3/fs/inode.c:21-26 | the number of sectors of a file is the least that holds its bytes |
| BufferCache.Cache.constructor | a3/fs/cache.c:21-28 | an empty cache over a device: what it shows is the device, and its slots are in fill order |
| BufferCache.ClockChoice | a3/fs/cache.c:66-99 | the slot chosen is the first from the hand on, in cyclic order, that is unoccupied or has its access bit clear, and the slot at the hand if a full turn finds none; exactly the slots the hand passed lose their access bit and nothing else of any slot changes |
| BufferCache.DistanceIs | a3/fs/cache.c:84-85 | so many places past the hand, cyclically, lies the slot |
| BufferCache.Cache.FlushSlot | a3/fs/cache.c:31-38 | a dirty slot goes to the device and becomes clean; what the cache shows stays the same |
| BufferCache.Cache.FindSlot | a3/fs/cache.c:53-64 | the occupied slot of a sector, or none, is what the pure lookup finds |
| BufferCache.Cache.SweepClock | a3/fs/cache.c:71-86 | the loop of the clock hand ends (each repeat clears an access bit or finds a slot) with the hand and the bits of the pure choice |
| BufferCache.Cache.EvictSlot | a3/fs/cache.c:71-99 | the chosen slot is written back if dirty, given up, and the hand moves on, exactly as the pure step |
| BufferCache.Cache.ReadSector | a3/fs/cache.c:101-118 | returns what the cache shows for the sector and leaves what it shows unchanged; the state is that of HitStep or MissStep |
| BufferCache.Cache.WriteSector | a3/fs/cache.c:120-138 | changes what the cache shows at this sector only |
| BufferCache.Cache.Close | a3/fs/cache.c:40-47 | afterwards the device itself holds what the cache shows |
| BufferCache.ReadRefines | a3/fs/cache.c:101-118 | a read through any state of the cache gives the sector's contents, and keeps the invariant and everything the cache shows |
| BufferCache.WriteRefines | a3/fs/cache.c:120-138 | a write changes the shown contents of its sector only, through any eviction, and keeps the invariant |
| BufferCache.HitStep | a3/fs/cache.c:101-138 | a call on a cached sector sets the access bit of its slot, a write also the dirty bit and the contents; no other slot, nor the hand, nor the device changes |
| BufferCache.MissStep | a3/fs/cache.c:71-138 | a call on any other sector puts it into the slot the clock chooses, where the hand stays; the device changes only at the sector of that slot, if it is dirty; the slots the hand passes lose their access bit |
| BufferCache.JustUsedStays | a3/fs/cache.c:76-116 | the sector just used is the next to be given up only if every slot has its access bit set |
| BufferCache.CloseKeeps | a3/fs/cache.c:40-47 | flushing every slot keeps what the cache shows and makes the device equal to it |
| BufferCache.RunRefines | a3/fs/cache.c:49-138 | for any sequence of reads and writes the results, and the device after closing, are those of a bare device |
| BufferCache.VictimIsFree | a3/fs/cache.c:71-99 | while some slot is unoccupied, the clock's choice is the next unoccupied one |
| BufferCache.CallKeepsOrder | a3/fs/cache.c:101-138 | reads and writes keep the slots filled in order, with the access bit set at the hand |
| BufferCache.RunNeverWastes | a3/fs/cache.c:66-138 | over every run from an empty cache, no occupied slot is given up while an unoccupied one exists |
| Bitmap.SetWord | a3/fs/bitmap.c:133-156 | setting one bit of a 64-bit word changes this bit of the sequence, no other bit and no tail bit |
| Bitmap.FlipWord | a3/fs/bitmap.c:161-166 | the same for flipping |
| Bitmap.LastMaskKeeps | a3/fs/bitmap.c:53-56 | if the bits past the end are zero, masking the last word changes nothing |
| Bitmap.MaskLastClears | a3/fs/bitmap.c:288-296 | whatever was read, after the mask the bits past the end are zero; if they were zero before, the words are unchanged |
| Bitmap.MaskLastBits | a3/fs/bitmap.c:288-296 | whatever was read, the mask leaves the bits of the bitmap itself as they are |
| Bitmap.BitsDetermineWords | a3/fs/bitmap.c:22-56 | with a clear tail, the words are determined by the bits |
| Bitmap.WordsRoundTrip | a3/fs/bitmap.c:288-304 | words written to a file and read back are the same words |
| Bitmap.ImageBit | a3/fs/bitmap.c:300-304 | bit i of the map lies in byte i / 8 of its file, at position i modulo 8 |
| Bitmap.ElemCountIs | a3/fs/bitmap.c:41-44 | the words of a bitmap are the least number that holds its bits |
| Bitmap.FlipGroupCounts | a3/fs/bitmap.c:273-279 | flipping a group of equal bits changes the number of bits with that value by exactly the size of the group |
| Bitmap.Bitmap.constructor | a3/fs/bitmap.c:64-77 | a new bitmap holds only zeros |
| Bitmap.Bitmap.Mark | a3/fs/bitmap.c:143-148 | bit i becomes true, every other bit stays |
| Bitmap.Bitmap.Reset | a3/fs/bitmap.c:151-156 | bit i becomes false, every other bit stays |
| Bitmap.Bitmap.Flip | a3/fs/bitmap.c:161-166 | bit i is negated, every other bit stays |
| Bitmap.Bitmap.Test | a3/fs/bitmap.c:169-173 | the value of bit i |
| Bitmap.Bitmap.SetMultiple | a3/fs/bitmap.c:185-195 | the bits of a range get the value, all others stay |
| Bitmap.Bitmap.Count | a3/fs/bitmap.c:199-212 | the number of bits of a range that have the value |
| Bitmap.Bitmap.Contains | a3/fs/bitmap.c:216-228 | true exactly when some bit of the range has the value |
| Bitmap.Bitmap.Scan | a3/fs/bitmap.c:253-266 | the least start of a group of equal bits at or after the given one; none exactly when there is no such group; for a group of no bits the start of the search |
| Bitmap.Bitmap.ScanAndFlip | a3/fs/bitmap.c:273-279 | finds that group and flips it, and nothing else; for a group of no bits the answer is the start of the search |
| Bitmap.Bitmap.Load | a3/fs/bitmap.c:288-296 | the bitmap becomes the one in a file's bytes; if the tail of these words is clear, exactly those words |
| FileContents.InodeRoundTrip | a3/fs/inode.h:15-36 | an inode read back from its sector is the inode that was written |
| FileContents.InodeLayout | a3/fs/inode.h:15-28 | where the parts of an inode lie in its sector |
| FileContents.InodeRead | a3/fs/inode.h:15-28 | what is read from a sector as an inode; any flag but 0 stands for a directory |
| FileContents.SpliceIs | a3/fs/inode.c:280-365 | after a write: the data where it has been written, the old bytes elsewhere, zeros between them |
| FileContents.ReadAfterWrite | a3/fs/inode.c:222-365 | a read of what has been written gives it back; elsewhere it gives what was there before, and zeros in a gap |
| FileContents.PatchIsSplice | a3/fs/inode.c:334-355 | writing a chunk into a part of its sector is the splice of that chunk into the file's bytes, and concerns no other sector |
| FileContents.BlockSlice | a3/fs/inode.c:252-268 | the part of a sector that is read is the slice of the file's bytes at that place |
| FileContents.LengthAfterWriteIsMax | a3/fs/inode.c:292-305 | the length that InodeWriteAt leaves behind is max(old, offset + size) if and only if it is not a write of nothing at offset 0 of a non-empty file; that one cuts the file to length 0 |
| IndexTree.LeafInKids | a3/fs/inode.c:30-81 | every leaf of an inode's tree is one of its sectors and is no index block |
| IndexTree.KidsLeavesDiffer | a3/fs/inode.c:30-81 | different byte blocks of a file lie in different sectors |
| IndexTree.KidsLeafOrInner | a3/fs/inode.c:499-565 | every sector of an inode's tree is an index block or one of its leaves |
| IndexTree.CountKids | a3/fs/inode.c:453-497 | the sectors of a filled tree number exactly what the arithmetic of the three levels says |
| IndexTree.BlockIsNextIs | a3/fs/inode.c:420-425 | an index block is next exactly for these numbers of free sectors: those needed up to leaf 123 or 251 + 128 j, and one more at leaf 251 |
| Growth.KidsStep | a3/fs/inode.c:432-443 | growing one more entry of an index block keeps the relation "grown": old leaves stay, new ones are free, distinct and zero, and of all other sectors, in use or free, only the index blocks of the tree and the free map file may have changed |
| Growth.KidsGaveUp | a3/fs/inode.c:432-443 | a reservation that fails at some entry has taken every free sector; of the sectors in use only index blocks of the tree, the free map file and, if an index block was next, sector 0 may have changed, which then holds zeros |
| Growth.NextBelow | a3/fs/inode.c:402-447 | whether an index block is next below the entry that fails is whether one is next below the block, so that every level agrees on it |
| Growth.BlockGaveUp | a3/fs/inode.c:420-439 | the same through an index block: one that could not be taken was itself next, and the code goes on with sector 0 in its place |
| Growth.NodeGrown | a3/fs/inode.c:402-447 | writing a grown index block back gives the grown tree |
| Growth.NodeFresh | a3/fs/inode.c:420-447 | a newly allocated and zeroed index block, grown and written back, is a grown tree |
| Growth.ClaimsCount | a3/fs/free-map.c:31-41 | claiming sectors uses up exactly as many free ones |
| InodeFiles.DirectLeaf | a3/fs/inode.c:38-44 | the direct case of the walk gives the tree's leaf |
| InodeFiles.IndirectLeaf | a3/fs/inode.c:46-57 | the single indirect case gives the tree's leaf |
| InodeFiles.DoublyLeaf | a3/fs/inode.c:59-78 | the doubly indirect case gives the tree's leaf |
| InodeFiles.ChunkWritten | a3/fs/inode.c:307-358 | one chunk written into its sector: the file is the splice, its index is untouched |
| InodeFiles.ExtendedFile | a3/fs/inode.c:292-305 | a file whose tree has grown and whose inode has been written back holds its bytes and zeros after them |
| InodeFiles.RootLeaves | a3/fs/inode.c:577-604 | the entries of the inode and of its first index block are the leaves in order |
| InodeFiles.ZeroIsNoInode | a3/fs/inode.h:15-36 | a sector of zeros is the inode of no file |
| FileSystem.FileSys.constructor | a3/fs/free-map.c:13-20 | a free map in which exactly sectors 0 and 1 are marked, over an empty cache |
| FileSystem.FileSys.IndexToSector | a3/fs/inode.c:30-81 | the three-level walk gives leaf i of the inode's tree; past the end 0, or, where the index block is missing, what sector 0 holds in its place; the mark for "none" from 16635 on |
| FileSystem.FileSys.ByteToSector | a3/fs/inode.c:87-98 | the sector of a byte inside the file; the mark for "none" outside |
| FileSystem.FileSys.InodeReadAt | a3/fs/inode.c:222-274 | delivers as many bytes as asked for, or those up to the end of the file, each the byte of the file at its place, and changes nothing |
| FileSystem.FileSys.ReadChunk | a3/fs/inode.c:246-264 | one chunk read from its sector is that slice of the file |
| FileSystem.FileSys.WriteChunk | a3/fs/inode.c:328-352 | the sector keeps its bytes outside the chunk |
| FileSystem.FileSys.WriteChunks | a3/fs/inode.c:307-364 | the file becomes the splice; only sectors of this file change |
| FileSystem.FileSys.Allocate | a3/fs/free-map.c:31-41 | the lowest group of free sectors is marked, and the free map file follows; nothing changes when there is none or the map cannot be written |
| FileSystem.FileSys.MapWrite | a3/fs/bitmap.c:300-304 | the free map file, which never grows here, holds the bytes of the map afterwards |
| FileSystem.FileSys.Release | a3/fs/free-map.c:44-48 | the sectors become free, the free map file follows, and all other sectors, those released included, keep their contents |
| FileSystem.FileSys.Extend | a3/fs/inode.c:292-305 | succeeds exactly when there is room; then the file is its old bytes and zeros, the old sectors stay, the new ones were free |
| FileSystem.FileSys.InodeWriteAt | a3/fs/inode.c:280-365 | the file becomes the old bytes, zeros in any gap, and the data spliced in, if there is room; no other sector in use changes but the inode's, the file's and the free map's; nothing happens if writing is denied; without room 0 is returned, the length stays, every free sector has been taken, and of the sectors in use only index blocks of the file and the free map file may have changed, and sector 0, which holds zeros exactly if an index block was next and is as before if not; a write of nothing at offset 0 of a non-empty file only sets the length to 0 |
| InodeFiles.CutIsNoFile | a3/fs/inode.c:292-305 | after such a write of nothing, the inode is not a file of any bytes: it keeps sectors its length does not account for |
| FileSystem.FileSys.TakeZeroed | a3/fs/inode.c:406-418 | a sector that was free, the lowest one, is marked and reads as zeros |
| FileSystem.FileSys.ReserveIndirect | a3/fs/inode.c:402-447 | the tree grows to the number of sectors asked for, and succeeds exactly when there is room; a failure takes every free sector, and zeros sector 0 exactly if an index block was next; on an empty tree and a map without holes the sectors are consecutive |
| FileSystem.FileSys.ReserveBlock | a3/fs/inode.c:420-447 | the same for an index block, new or old |
| FileSystem.FileSys.ReserveEntries | a3/fs/inode.c:432-443 | the same for its entries, one after the other |
| FileSystem.FileSys.Reserve | a3/fs/inode.c:453-497 | the inode grows to the sectors of the length asked for, and succeeds exactly when there is room; leaves already there keep their sectors, new ones are free, distinct and zero; a failure takes every free sector, and zeros sector 0 exactly if an index block was next |
| FileSystem.FileSys.ReserveDirect | a3/fs/inode.c:463-475 | the same for the direct blocks |
| FileSystem.FileSys.DeallocateIndirect | a3/fs/inode.c:499-526 | releases exactly the sectors below the entry, each once |
| FileSystem.FileSys.DeallocateBlock | a3/fs/inode.c:506-525 | the same for an index block and what lies below it |
| FileSystem.FileSys.Deallocate | a3/fs/inode.c:528-565 | releases exactly the data and index sectors of the inode, each once, and leaves their contents alone |
| FileSystem.FileSys.InodeClose | a3/fs/inode.c:187-209 | when the last opener closes a removed inode, its sector and its tree become free and keep their contents; otherwise nothing changes on the disk |
| FileSystem.FileSys.CopyEntries | a3/fs/inode.c:579-604 | the entries are copied into their place of the array, the rest stays |
| FileSystem.FileSys.GetDataSectors | a3/fs/inode.c:567-643 | the array is filled exactly with the leaves of the inode, so it agrees with the walk for a single index |
| FileSystem.FileSys.CopyDoubly | a3/fs/inode.c:606-639 | the part of that walk below the doubly indirect block |
| FileSystem.FileSys.InodeCreate | a3/fs/inode.c:112-137 | succeeds exactly when there is room; then the inode is on disk as a file of zeros whose sectors were free |
| FileSystem.FileSys.InodeOpen | a3/fs/inode.c:142-173 | the first open inode of this sector is handed out again, without counting the new opener; a sector that is not open gives a new inode with the contents read from the disk |
| FileSystem.FileSys.FreeMapCreate | a3/fs/free-map.c:64-77 | the free map file is created with the sectors it needs, and holds the map afterwards |
| FileSystem.FileSys.FreeMapOpen | a3/fs/free-map.c:51-57 | the map in memory becomes the one stored in the file |
| Density.KidsDenseStep | a3/fs/inode.c:432-443 | on a map without holes, one more entry takes the next consecutive sectors, index block first |
| Density.DenseLeaf | a3/fs/inode.c:453-497 | leaf i of a file created in one go lies at a place given by a formula in i |
| Density.DenseGaps | a3/fs/fsutil2.c:203-210 | consecutive data sectors are 1 apart, 2 from 122 to 123 and at each later first-level block, 3 from 250 to 251 |
| Density.IsFragmented | a3/fs/fsutil2.c:200-210 | true exactly when two consecutive whole sectors differ by more than 3 in unsigned arithmetic |
| Density.MinusIs | a3/fs/fsutil2.c:205 | the subtraction of two sectors is their difference modulo 2^32 |
| Volume.StepKeeps | a3/fs/inode.c:402-565 | every successful create, write and removal keeps: no sector has two owners, sectors 0 and 1 are in no tree, exactly the owned sectors are marked |
| Volume.RunKeeps | a3/fs/free-map.c:13-48 | the same in every state of every run |
| Volume.FileSize | a3/fs/inode.c:453-497 | however it got there, a file of n sectors owns n data sectors, 1 index block if n > 123, and 1 + ceil((n - 251) / 128) more if n > 251 |
| Volume.FilesDetermineMap | a3/fs/free-map.c:31-48 | the free map is determined by which sectors the files own |
| Volume.OthersUntouched | a3/fs/inode.c:280-365 | a run on one file leaves the sectors of all other files as they were, and their bytes, except that the free map file follows the map |
| Volume.CreateGrowRemove | a3/fs/inode.c:499-565 | creating a file, writing to it any number of times and removing it restores the volume, the free map bit for bit |
| Filesys.ReadFile | a3/fs/file.c:120-123 | delivers as many bytes as asked for, or those up to the end of the file, each the byte of the file at its place, and leaves the whole volume as it is |
| Filesys.OpenFile | a3/fs/inode.c:142-173 | the handle carries the file's inode: the open one if there is one, or a new one |
| Filesys.WriteFile | a3/fs/file.c:147-150 | with room the volume makes the step "write": the file is the splice, every other file keeps its bytes, the free map file follows; without room nothing of the data is written, every free sector is taken, all other files are on the disk as before, and the inode of the free map is overwritten with zeros exactly if an index block was next; a write of nothing at offset 0 of a non-empty file cuts it to length 0; nothing happens if writing is denied |
| Filesys.WriteZeroesMapIs | a3/fs/inode.c:420-425 | the numbers of free sectors with which a write that does not fit overwrites the inode of the free map, and no others |
| Filesys.OneByteMore | a3/fs/inode.c:420-425 | an input: on a full device one byte more for a file of 123 sectors cannot be written, and costs the inode of the free map |
| Filesys.MapIsLost | a3/fs/free-map.c:51-57 | with zeros in sector 0 the device holds no free map file |
| Filesys.CreateFile | a3/fs/filesys.c:69-74 | a new file of zeros in a free sector, exactly when there is room; otherwise every free sector but one is taken, all files are on the disk as before, and the inode of the free map is overwritten with zeros exactly if an index block was next |
| Filesys.CreatedIsNotFragmented | a3/fs/fsutil2.c:184-220 | a file created in one go on a map without holes is never counted as fragmented |
| Filesys.FragmentationTest | a3/fs/fsutil2.c:197-210 | the test of one file agrees with the definition on its leaves |
| Filesys.FragmentedIs | a3/fs/fsutil2.c:203-210 | a file is counted exactly if of two consecutive whole sectors the later one lies more than 3 behind the earlier one, or up to 2^32 - 4 before it |
| Filesys.RemoveFile | a3/fs/inode.c:187-217 | removal and the last close take the file and all its sectors away, and nothing else |
| Filesys.Remount | a3/fs/filesys.c:18-45 | shutting down and starting again from the device alone gives the same volume |
| Filesys.Format | a3/fs/filesys.c:167-175 | formatting gives a volume with exactly the free map file and a root directory of 36000 zeros, and takes exactly the sectors these and their inodes need |
| DirectoryEntries.EntryRoundTrip | a3/fs/directory.h:23-27 | a directory record read back is the record that was written |
| DirectoryEntries.EntryLayout | a3/fs/directory.h:22-26 | where the parts of a record lie |
| DirectoryEntries.NameRoundTrip | a3/fs/directory.c:293-296 | a name of at most 30 bytes is read back as it was stored |
| DirectoryEntries.PutSlot | a3/fs/directory.c:292-296 | writing record k changes record k of the directory only, also where records straddle sectors; at the end it appends one |
| DirectoryNames.FindIsLookup | a3/fs/directory.c:179-198 | the scan finds exactly the names in use, each with its sector |
| DirectoryNames.ValidNameIs | a3/fs/directory.c:257-260 | a name is accepted exactly if it is not empty and the 31 bytes of a record hold it with a NUL behind it |
| DirectoryNames.UnusedFirst | a3/fs/directory.c:286-290 | the slot for a new record is the first one not in use, or the end |
| DirectoryNames.ApplyRefines | a3/fs/directory.c:247-346 | an addition or removal is that of the map from names to sectors: all other names keep their sectors, the parent's slot stays, the directory grows only when every slot is in use |
| DirectoryNames.RunIsMap | a3/fs/directory.c:247-346 | over any run, names in use are unique, slot 0 is never used again, and the directory is the map the run builds |
| DirectoryNames.RunReusesSlots | a3/fs/directory.c:279-296 | freed slots are used again before the directory grows: it never has more slots than at first, or than the most names it held at once and one |
| DirectoryNames.LookupAfterAdd | a3/fs/directory.c:218-239 | a name just added is found with its sector, except that "." and ".." are never looked up among the records although they can be added |
| DirectoryNames.LookupAfterDrop | a3/fs/directory.c:218-239 | a removed name is not found any more, except for those two |
| Directory.ReadSlot | a3/fs/directory.c:187-189 | reads record k, and nothing at the end of the directory |
| Directory.Lookup | a3/fs/directory.c:179-198 | the loop over the records finds what the pure scan finds |
| Directory.LookupInode | a3/fs/directory.c:218-238 | "." gives the directory itself, ".." the inode of the parent's record, any other name what the scan of the records finds |
| Directory.WriteParent | a3/fs/directory.c:266-278 | the record of the parent goes into slot 0 of the new directory, exactly if there is room |
| Directory.FindUnused | a3/fs/directory.c:286-290 | the loop finds the first slot not in use |
| Directory.DirAdd | a3/fs/directory.c:247-300 | fails without any change for a bad or used name; otherwise a directory is told its parent first, and then the name goes into the first unused slot or to the end, exactly if there is room; without room every free sector is taken |
| Directory.DirOpenRoot | a3/fs/directory.c:95-104 | the root directory is opened once and kept in cwd; while it is there it is only counted |
| Directory.DirClose | a3/fs/directory.c:160-166 | the last closing of a directory closes its inode and forgets cwd, and changes nothing on the disk |
| Directory.DirRemove | a3/fs/directory.c:305-346 | succeeds exactly when the name is there; then its record is unused and its file with all its sectors is gone; a directory's inode is freed before it is removed, empty or not, and the code goes on with it |
| PathNames.SplitPath | a3/fs/directory.c:17-48 | the loop over the tokens computes directory and last name as defined on the list of names |
| PathNames.SplitKeepsPath | a3/fs/directory.c:17-48 | both parts together lead along the same names from the same place, and the last name has no slash |
| PathNames.TokensAppend | a3/fs/directory.c:30-46 | the names along two paths with a slash between them are those of the one and then those of the other |
| PathNames.LastName | a3/fs/directory.c:17-48 | the last name is what stands behind the last slash, but for slashes at the end, and the directory leads along the names before it |
| PathNames.RootIs | a3/fs/directory.c:22-27 | a path and its directory begin at the root exactly if the path begins with a slash |
| PathNames.PlainName | a3/fs/directory.c:17-48 | a name without slashes is its own last name |
| NamedFiles.CreatedName | a3/fs/filesys.c:54-94 | entering a new inode under a new name adds this name with zeros to the map from names to contents |
| NamedFiles.WroteName | a3/fs/inode.c:280-365 | writing to the file of a name splices the data into the contents of this name, and changes no other |
| NamedFiles.DroppedName | a3/fs/directory.c:305-346 | removal takes this name out of the map, and no other |
| NamedFiles.FilesysCreate | a3/fs/filesys.c:54-93 | succeeds exactly when the name is valid and new and there is room; a failed create loses no mark and leaves every file on the disk as it was, leaks the sectors of the contents if only the name was bad and all free sectors but one if there was no room, and leaves the free map as it was exactly for an empty file with a bad name, or where at most one sector was free |
| NamedFiles.EnterName | a3/fs/filesys.c:75-92 | dir_add and the release of the inode's sector if it fails: the name stands for zeros, or the sectors of the contents stay marked and all files from before are on the disk |
| NamedFiles.FilesysOpen | a3/fs/filesys.c:100-131 | opens the file of this name, exactly if there is one; for a path of slashes alone the root directory, which then stays open as cwd; for "." and ".." the inode of cwd, if cwd is open, and a freed inode exactly if not; nothing for the empty path |
| NamedFiles.OpenPath | a3/fs/directory.c:107-151 | a path goes on with a freed inode exactly if it begins with a "." or ".." (with two of them where it starts from cwd itself); otherwise it stays at the root exactly if it has no other names, and leads nowhere if it has |
| NamedFiles.WalkOn | a3/fs/directory.c:126-142 | one name of the walk: "." and ".." open the root directory again, uncounted, and close the one before; the inode is freed exactly if that was its last closing |
| NamedFiles.FilesysRemove | a3/fs/filesys.c:137-148 | removes the file of the last name, exactly if there is one and the path before it stays at the root directory; otherwise nothing changes; goes on with a freed inode exactly if the walk does |
| NamedFiles.FormatVolume | a3/fs/filesys.c:167-175 | formatting gives a file system without files |
| NamedFiles.ReopenMap | a3/fs/free-map.c:51-62 | closing and opening the free map changes nothing |
| Files.FileRead | a3/fs/file.c:109-113 | delivers the bytes at the position, up to the end of the file, and moves the position behind them |
| Files.FileSeek | a3/fs/file.c:181-185 | only the position changes |
| Files.FileWrite | a3/fs/file.c:133-138 | the buffer's last byte becomes NUL, the buffer is spliced in at the position, which moves to two bytes before the end of what was written |
| Files.FileClose | a3/fs/file.c:93-99 | the inode is closed with the file; nothing changes on the disk |
| Appending.BuildBuffer | a3/interpreter.c:219-233 | the buffer is as long as the words, a space behind each and one NUL more; each word lies at its place, with a space between two words, and the last two bytes are NUL |
| Appending.BufferIsLaidOut | a3/interpreter.c:222-236 | the payload and two NULs are that buffer |
| Appending.WriteCommand | a3/interpreter.c:219-246 | one write command on an open file: contents and position become those of the full write of its buffer, exactly if there is room |
| Appending.WritesAppend | a3/fs/file.c:133-138 | from position 0, any run of full writes of a payload and two NULs leaves the concatenation of the payloads and two NULs, with the position behind the payloads |
| Appending.RunAppends | a3/fs/file.c:133-138 | the same for the file on the volume, over any run of full writes of which each starts where file_write left the position, two bytes before the end of the write before |
| Appending.WriteCommands | a3/interpreter.c:219-246 | any sequence of write commands on a file just opened: all succeed exactly when everything fits at once, and then the file begins with the concatenation of the payloads and two NULs, is as it was behind them, the position is behind the payloads, and no other file has changed |
| Shell.GetFile | a3/fs/file.c:57-67 | the open file of this name in the table, or none |
| Shell.OpenNamed | a3/fs/fsutil.c:84-92 | the file of the table, or, if the name is there, a new one at position 0 that is entered |
| Shell.CreateNamed | a3/fs/fsutil.c:76-82 | a file of zeros under this name, and no other contents changed, exactly when the name is good and there is room; all open files stay as they are |
| Shell.WriteNamed | a3/fs/fsutil.c:84-94 | the contents of the name, and no others, are overwritten with the words from the position of the table on, exactly if there is room |
| Shell.SessionAppends | a3/fs/fsutil.c:84-94 | any number of write commands to one file that is not open append to each other |
| Shell.RemoveEntry | a3/fs/file.c:40-54 | the open file of this name is closed and leaves the table; the others stay |
| Shell.RemoveNamed | a3/fs/fsutil.c:71-74 | the name is gone from the files and from the table, and no other |
| Shell.RunCommands | a3/interpreter.c:203-246 | any sequence of create, write and rm commands, up to the first with a bad name or without room: after each the system shows what the simple session shows, a map from names to bytes and the positions of the open files |
| Shell.StartFormatted | a3/fs/filesys.c:18-38 | a formatted device shows the empty session |
| CopyFiles.CopyIn | a3/fs/fsutil2.c:19-63 | ends with code 9 exactly for a bad or used name or without room for the file, in the use of a freed inode exactly for "." and "..", with 11 exactly without room for the final NUL, in a failed assertion exactly for an empty source, and otherwise at the end of its body, which returns no code; in the last two cases the file holds the contents and a NUL, and no other file has changed |
| CopyFiles.CopyOut | a3/fs/fsutil2.c:65-118 | writes the bytes of the file that are not NUL; with a path of slashes alone those of the root directory, and closing it then leaves cwd with a freed inode; "." and ".." use a freed inode exactly if cwd is not open |
| CopyFiles.WithoutNulsAt | a3/fs/fsutil2.c:105-112 | of any contents every byte but NUL is written, in order, wherever it stands, and no NUL |
| CopyFiles.WithoutNulsParts | a3/fs/fsutil2.c:105-112 | what is written of two parts is what is written of the one and then of the other |
| CopyFiles.CopyRoundTrip | a3/fs/fsutil2.c:47-112 | what CopyOut writes of the bytes CopyIn leaves (contents x and a NUL) is x without its NULs, and x itself exactly when x has none |
| CopyFiles.CopySurvivesRemount | a3/fs/fsutil2.c:19-118 | copy_in, a shutdown, a new start from the device alone and copy_out give the contents without their NULs |
| FragmentCount.CountFragmentedFiles | a3/fs/fsutil2.c:184-220 | the count is the number of names in the root directory whose files are fragmented, or of those not yet read where cwd is open; the inodes of all files looked at are left open |
| FragmentCount.CreatedNotCounted | a3/fs/fsutil2.c:184-220 | a file created in one go on a map without holes, and entered into the root directory, leaves the count as it was |
| ListRuns.MergeStable | a3/fs/list.c:317-340 | the merge of two sorted runs is sorted, has the same nodes, and keeps equal ones in order |
| ListRuns.StableOrder | a3/fs/list.c:290-298 | of two nodes that compare equal, the one that came first comes first |
| ListRuns.RunIsSorted | a3/fs/list.c:304-315 | a run is sorted, and ends at the end or where the next element is smaller |
| ListRuns.EndOfRunIs | a3/fs/list.c:304-315 | a stretch without a smaller element behind a greater one, up to where there is one, is a run |
| ListRuns.RunCountSplits | a3/fs/list.c:345-374 | the runs are counted one by one |
| ListRuns.SortedIsOneRun | a3/fs/list.c:290-298 | a sequence is sorted exactly when it has at most one run |
| ListRuns.PassHalves | a3/fs/list.c:345-374 | a pass puts out half as many runs as it found, rounding up |
| ListRuns.PassKeeps | a3/fs/list.c:345-374 | a pass keeps the nodes and the order of equal ones, and leaves at most the runs it put out |
| ListRuns.CeilLog2Is | a3/fs/list.c:342-344 | the bound on the passes is the least power of two that reaches the number of runs |
| ListRuns.InsertKeepsOrder | a3/fs/list.c:378-393 | a sorted list stays sorted, and the new element comes behind those equal to it |
| ListRuns.UniqueConserves | a3/fs/list.c:395-416 | kept and dropped nodes together are the nodes of the list |
| ListRuns.UniqueSplits | a3/fs/list.c:408-415 | of any list, sorted or not, the elements behind one that compare equal to it are dropped, and the first that does not is kept and takes its place |
| ListRuns.UniqueIncreases | a3/fs/list.c:395-416 | of a sorted list a strictly increasing one is kept |
| ListRuns.DroppedHasTwin | a3/fs/list.c:395-416 | every dropped node equals one that is kept |
| LinkedLists.LinkedList.constructor | a3/fs/list.c:54-60 | an empty list with well-formed ends |
| LinkedLists.Insert | a3/fs/list.c:144-152 | the node is linked in just before the given one; all links are well formed |
| LinkedLists.Remove | a3/fs/list.c:216-221 | the node is linked out; its old successor is returned |
| LinkedLists.Splice | a3/fs/list.c:157-176 | the nodes of a range are moved just before the given node, of the same list or of another one; in the same list a chain of the same nodes is left if and only if the target is not one of the nodes moved: with the first of them as target the links from the head never reach the tail, with a later one the nodes drop out |
| LinkedLists.SameHead | a3/fs/list.c:93-99 | well-linked nodes are determined by their head |
| LinkedLists.BackIsNoChain | a3/fs/list.c:157-176 | links that come back to a node belong to no list |
| LinkedLists.LinkIn | a3/fs/list.c:171-176 | the second half: the nodes are linked in before the target, or, before one of themselves, lost or turned into a ring |
| LinkedLists.FindEndOfRun | a3/fs/list.c:304-315 | the node at which the run starting at a ends |
| LinkedLists.InplaceMerge | a3/fs/list.c:323-340 | two adjacent runs become their merge, ending at the same node; the rest of the chain stays |
| LinkedLists.SortPass | a3/fs/list.c:355-372 | one round of the outer loop is a pass, and counts the runs it put out |
| LinkedLists.Sort | a3/fs/list.c:345-376 | terminates with the same nodes, sorted and stable, well linked, after at most max(1, ceil(log2 r)) passes for r runs |
| LinkedLists.Reverse | a3/fs/list.c:277-286 | node k is what was node n - 1 - k, with well-formed links |
| LinkedLists.ReversedTwice | a3/fs/list.c:277-286 | reversing twice restores the list |
| LinkedLists.InsertOrdered | a3/fs/list.c:381-393 | the node is linked in before the first greater one, in any list |
| LinkedLists.PushBack | a3/fs/list.c:186-188 | the node is linked in at the end |
| LinkedLists.Unique | a3/fs/list.c:399-416 | the first of each group of equal adjacent nodes stays; the others go, in order, to the end of the other list if there is one |

## Left out

- ReserveIndirect: when a reservation fails, that every free sector has been taken and which sectors in use may have changed is stated, but not what the sectors taken hold.
- IndexToSector: where sector 0 is taken for the doubly indirect block and leads past the end of the device, the answer is not stated.
- Lengths are at most 16635 sectors, offsets are not negative, and sums of offsets and sizes do not leave 32 bits.
- OpenFile: files are opened by name while no inode but the root directory's and those of the table of open files is open; `filesys_chdir` is not modelled, so cwd is the root directory.
- SplitPath: the sizes of the buffers its callers provide are not modelled; `filesys_create` and `filesys_remove` have no room for the NUL of a name as long as the path.
- FilesysCreate: only ordinary files are created in the root directory; with `is_dir`, DirAdd is what is modelled.
- FilesysRemove: paths that lead through an ordinary file are excluded; its bytes would be read as records.
- OpenPath, FilesysOpen, DirRemove: after the outcome `Freed` the C code has no defined behaviour, and nothing is said of it.
- Sort, InsertOrdered and Unique: the items compared are integers under any strict weak order; the embedding of a node in a larger struct is not modelled.
- CopyIn: "." and ".." are excluded where cwd is open, in which case the copy is written over the root directory itself; reading the source file and memory allocation are taken to succeed.
- RunCommands: names are without slashes and not "." or ".."; a session ends at the first create with a bad name or command without room, since the sectors these leak belong to no file.
- `buffer_cache_init` leaves the access bits and the hand as they are; a new `Cache` has them clear, as static storage has at the start.
- The printing in `fsutil2.c` and the degree of fragmentation as a floating-point quotient are not modelled.
- `defragment`, `count_fragmentable_files`, `recover` and the search for files by contents are not modelled; the first two read a sector number that has never been set.
- The device is an array of sectors; partitions, block statistics, memory allocation failure, the other commands of the shell and the kernel are not modelled.
