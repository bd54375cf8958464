# The file system under `a3/fs`, modelled and proved

This project models the file system of the third assignment's shell: a write-back
buffer cache over a disk, a first-fit sector allocator whose bitmap lives in a file
of the file system it serves, inodes with a tree of index blocks, a root directory,
open files with a cursor, the utilities on top, and the intrusive list with its
merge sort. The disk is an array of 512-byte sectors; everything else runs as the
source does, in place, with `class`es for what the source mutates.

How the model hangs together:

* `Words`, `BlockTree`: sectors as words, and the shape of a file's block tree. The
  sectors of a file are numbered by *role*, in the order in which a growing file
  first needs them, so that a whole tree is one sequence and each index block on disk
  is a function of it.
* `Bitmaps`, `Cache`, `CacheRuns`: the packed bitmap against a sequence of booleans;
  the clock cache against a plain device.
* `Volume`, `Growth`, `FileData`, `Ledger`: values. Who owns which sector, what the
  disk must hold, what a write, an extension and a removal mean. `Sound` is the
  invariant of a volume between operations: every sector has at most one role in at
  most one live file, it is marked in the free map exactly if it has one, the disk
  holds every tree, the bytes behind the end of a file are zero, and the free-map
  file holds the free map.
* `Inodes`: the code of `inode.c` and `free-map.c`. Writing a file may reserve
  sectors, reserving allocates, allocating writes the bitmap to its file, and that is
  again a write; the `decreases` clauses show that the recursion is well founded.
* `Runs`: whole runs on inodes. `FsUtil`: overhead, and the layout of one file.
* `ListOrder`, `List`: the merge sort on sequences and on the linked list.
* `EntryTable`, `Directory`, `Names`, `Files`, `Defragment`, `Shell`, `Layout`:
  directories as maps, open files and their cursors, defragmenting, whole sessions by
  name, and how fragmented they leave the volume.

The main results are `Runs.Run` and `Shell.Session` (every run is a run on a map of
byte sequences), `Runs.Lifecycle` (no bit of the free map is lost), `CacheRuns.Serve`
(the cache cannot be told from a plain device), `Defragment.Run` with
`Defragment.RestoredExactly` (what defragmenting keeps, and when),
`Layout.SessionThenDefragment` (no fragmented file is left after any session),
`Shell.ShellWrites` (what a series of shell writes leaves in a file), `Inodes.Remount`,
and `List.LinkedList.Sort`.

Where the code does not do what it is documented to do:

* A write of no bytes at offset 0 to a file that has bytes cuts the file to length 0
  and leaks its sectors (`Inodes.FileSystem.WriteNothing`). All other writes that fit
  mean a splice (`Inodes.FileSystem.WriteAt`), so the precondition there is exact.
* `bitmap_scan_and_flip` is documented to return 0 for a count of zero; it returns the
  start position (`Bitmaps.Bitmap.ScanAndFlip`), which is 0 exactly if the start is.
* `get_write_size` does not always find the largest size that fits
  (`FsUtil.WriteSizeNotMaximal`); it does exactly if the whole buffer is written, or one
  sector more would need the overhead of the whole free space
  (`FsUtil.WriteSizeMaximalExactly`).
* `dir_remove` of an empty directory removes its name but never frees its sectors: the
  directory is opened and closed to see that it is empty, which closes the inode before
  it is marked as removed (`Directory.Dir.Remove`).
* `filesys_create` under a name that is taken or too long loses the sectors of the new
  file, and keeps the volume sound exactly if the size is 0 (`Files.FileTable.CreateRefused`).
* `file_write` leaves the cursor two bytes before the end of what it wrote, which lies
  before the start of the file exactly if the write ends before byte 2
  (`Shell.ForwardExactly`).
* `file_write` zeroes the last byte of its buffer, so that copying a file by reading
  and writing keeps it exactly if it is empty or ends in a zero byte.
* `ASSERT` only prints (`a3/fs/debug.c:58-61`). The conditions are proved instead, as
  preconditions of the calls or as facts about the loop counters.

## Model

| member | source | states |
|---|---|---|
| Words.UnpackPack | a3/fs/inode.c:385-398 | an index block or inode read back from its sector is the one that was stored |
| Words.LittleEndian | a3/fs/inode.c:385-398 | the words of a sector are stored least significant byte first |
| BlockTree.DataRoleGap | a3/fs/inode.c:360-447 | between two adjacent data sectors of a file, in order of allocation, lie at most two index blocks |
| BlockTree.CostParts | a3/fs/inode.c:406-447 | the cost of a tree splits into the direct, the indirect and the doubly indirect part that inode_reserve works off |
| Bitmaps.BitOps | a3/fs/bitmap.c:31-39 | setting, clearing and flipping through a shifted mask touches exactly the named bit of a 64-bit word |
| Bitmaps.MaskLastBits | a3/fs/bitmap.c:53-56 | the last mask keeps exactly the bits below bit_cnt, also when the last word is full |
| Bitmaps.BitsOfImage | a3/fs/bitmap.c:284-304 | the bytes of the word array read back as the same bits, so writing a bitmap and reading it is the identity |
| Bitmaps.ImageIsLittleEndian | a3/fs/bitmap.c:300-304 | the bytes of the word array, least significant first |
| Bitmaps.FlippedCount | a3/fs/bitmap.c:268-279 | flipping a run lowers the number of bits with its value by the length of the run |
| Bitmaps.CountIsFreeList | a3/fs/free-map.c:22-24 | the number of clear bits is the length of the free list |
| Bitmaps.CountIsCardinality | a3/fs/bitmap.c:199-212 | a count is the size of the set of positions it counts |
| Bitmaps.FreeFromTakesHead | a3/fs/bitmap.c:253-279 | marking the least clear bit removes the head of the free list and nothing else |
| Bitmaps.Bitmap.constructor | a3/fs/bitmap.c:64-80 | all bits are clear |
| Bitmaps.Bitmap.Mark | a3/fs/bitmap.c:143-148 | sets exactly the given bit of the sequence that the words spell, padding bits stay zero |
| Bitmaps.Bitmap.Reset | a3/fs/bitmap.c:151-156 | clears exactly the given bit |
| Bitmaps.Bitmap.Flip | a3/fs/bitmap.c:161-166 | toggles exactly the given bit |
| Bitmaps.Bitmap.Test | a3/fs/bitmap.c:169-173 | reads the bit of the sequence |
| Bitmaps.Bitmap.SetMultiple | a3/fs/bitmap.c:185-195 | sets exactly the bits of the range |
| Bitmaps.Bitmap.Count | a3/fs/bitmap.c:199-212 | the number of positions of the range that have the value |
| Bitmaps.Bitmap.Contains | a3/fs/bitmap.c:216-228 | true exactly if the range is not a run of the other value |
| Bitmaps.Bitmap.Scan | a3/fs/bitmap.c:253-266 | the least start of a matching run at or behind start, BITMAP_ERROR exactly if there is none; start itself for a count of zero |
| Bitmaps.Bitmap.ScanAndFlip | a3/fs/bitmap.c:273-279 | flips exactly that run; the count of matching bits falls by cnt; nothing changes on failure; a count of zero returns start and changes nothing |
| Bitmaps.Bitmap.Dump | a3/fs/bitmap.c:300-304 | hands out bitmap_file_size bytes from which the bits can be read back |
| Bitmaps.Bitmap.Load | a3/fs/bitmap.c:288-296 | takes over the bits of the file and clears the padding |
| Cache.SweepOutcome | a3/fs/cache.c:71-88 | the occupied slots are still a prefix, and as long as there is an empty slot the hand stops at the first of them |
| Cache.BufferCache.constructor | a3/fs/cache.c:21-28 | an empty cache over a device shows the device |
| Cache.BufferCache.Lookup | a3/fs/cache.c:53-64 | finds the one slot that holds a sector, or reports a miss exactly if there is none |
| Cache.BufferCache.Sweep | a3/fs/cache.c:74-88 | the hand stops within one turn, having cleared the access bits it passed and nothing else |
| Cache.BufferCache.Flush | a3/fs/cache.c:31-38 | a flush makes the slot clean and changes nothing that a reader could see |
| Cache.BufferCache.Evict | a3/fs/cache.c:71-99 | frees the slot where the hand stops without changing what readers see, and ages exactly the slots the hand passes; gives up an occupied slot only if all are occupied, and one with its access bit set only if all have it set, and then the one where the hand started; writes the disk only if that slot is dirty |
| Cache.BufferCache.Read | a3/fs/cache.c:101-118 | returns what a plain device would hold and changes nothing that a reader could see; a hit sets the sector's access bit, moves nothing and writes nothing to disk; a miss turns the clock on to the first slot that is empty or has its bit clear and loads the sector there with the bit set |
| Cache.BufferCache.Write | a3/fs/cache.c:120-138 | updates that sector of what readers see, by the same rule of the clock, and leaves the disk alone but for a dirty slot given up |
| Cache.BufferCache.Close | a3/fs/cache.c:40-47 | afterwards the disk holds what readers saw |
| CacheRuns.Serve | a3/fs/cache.c:21-138 | in every run of reads, writes and closes each read returns the last bytes written to the sector, or those the disk started with, and after closing the disk holds the same; the clock ticks by its rule at every request |
| CacheRuns.AccessIsFresh | a3/fs/cache.c:74-88 | in every run, the access bit of a slot in use is set exactly if its sector was asked for since the hand last passed the slot |
| CacheRuns.SecondChance | a3/fs/cache.c:71-99 | in every run, such a sector loses its slot only if all 64 slots hold such sectors, and then the hand goes once round |
| CacheRuns.NoNeedlessEviction | a3/fs/cache.c:71-99 | in every run, no sector loses its slot while another slot is empty |
| Volume.WalkDirect | a3/fs/inode.c:33-37 | a direct pointer leads to the data sector with its index |
| Volume.WalkIndirect | a3/fs/inode.c:40-51 | so does the indirect block's pointer |
| Volume.WalkDoubly | a3/fs/inode.c:54-71 | so do the doubly indirect block and its child |
| Volume.EntryIsZeroIfMissing | a3/fs/inode.c:370-384 | a pointer is zero exactly if its sector has not been allocated, so that zero can mean just that |
| Volume.RolesDistinct | a3/fs/inode.c:360-447 | no two roles of a file share a sector |
| Volume.GrantKeepsAccounts | a3/fs/free-map.c:31-41 | granting a clear sector keeps every sector in one role of one file, and marks equal to ownership |
| Volume.ReleaseKeepsAccounts | a3/fs/free-map.c:44-48 | so does giving back a sector of a removed file |
| Volume.AllReleased | a3/fs/inode.c:171-189 | once the inode and all roles are given back the file owns nothing and the others own what they did |
| Growth.TakenKeepsFront | a3/fs/bitmap.c:253-279 | first fit keeps the marked sectors in front of the free ones |
| Growth.OtherFileKept | a3/fs/inode.c:360-447 | what is done to one file leaves the tree and the bytes of every other file alone |
| Growth.ExtensionOk | a3/fs/inode.c:264-274 | a grown tree with the new length in its inode is a well-formed file whose bytes are the old ones, then zeros |
| FileData.SpliceMeans | a3/fs/inode.c:253-327 | byte by byte what a write leaves: its data, the old bytes beside it, zeros in a gap, and the larger of the two lengths |
| FileData.SliceMeans | a3/fs/inode.c:201-247 | byte by byte what a read returns: as many bytes as asked for, or as the file has |
| FileData.SliceInTwoSteps | a3/fs/file.c:111-115 | reading on from where a read ended is one longer read |
| FileData.SliceOfSplice | a3/fs/inode.c:201-327 | reading what was just written returns it |
| FileData.SliceBesideSplice | a3/fs/inode.c:201-327 | reading beside what was written returns the old bytes |
| FileData.WrittenChunk | a3/fs/inode.c:276-323 | a chunk patched into its sector is those bytes of the file and no other byte of any sector |
| FileData.WrittenKeepsOthers | a3/fs/inode.c:276-323 | a write to one file is invisible in every other, however far it has got |
| FileData.WroteInTwoSteps | a3/fs/inode.c:263-327 | extending and then writing is one splice, with zeros in the gap |
| Ledger.SoundAfter | a3/fs/inode.c:253-327 | after an operation on one file the whole volume is sound and the other files read as before |
| Ledger.SoundAfterRemoval | a3/fs/inode.c:171-189 | the same after a removal |
| Ledger.Balance | a3/fs/free-map.c:22-24 | free sectors and owned sectors make up the device |
| Ledger.RemovalFrees | a3/fs/inode.c:449-508 | a removal frees the inode and as many sectors as the tree has |
| Inodes.FileSystem.constructor | a3/fs/free-map.c:13-20 | a new volume has sectors 0 and 1 marked, and the last sector of the device unused |
| Inodes.FileSystem.IndexToSector | a3/fs/inode.c:28-75 | the sector with the index-th data block in all three regions, 0 if it is missing, -1 past the largest file |
| Inodes.FileSystem.ByteToSector | a3/fs/inode.c:81-89 | the sector of a byte of the file, or -1 outside it |
| Inodes.FileSystem.ReadAt | a3/fs/inode.c:201-247 | returns the bytes of the file from the offset on, as many as asked for or as there are, also when the range runs past the end |
| Inodes.FileSystem.GetDataSectors | a3/fs/inode.c:510-579 | entry i is the sector that IndexToSector finds for i, for every i of the file |
| Inodes.FileSystem.WriteInside | a3/fs/inode.c:276-327 | writes all bytes to the file and touches nothing else |
| Inodes.FileSystem.Allocate | a3/fs/free-map.c:31-41 | hands out the first free sector, marks it, and has the marks on disk before it returns; fails, without a change, exactly if no sector is free |
| Inodes.FileSystem.Persist | a3/fs/bitmap.c:300-304 | writing the bitmap fits its file, so it allocates nothing and changes only that file's bytes |
| Inodes.FileSystem.ReserveIndirect | a3/fs/inode.c:360-400 | grows a subtree to the given number of sectors, keeps its pointers, takes the new sectors from the front of the free list, zeroes them |
| Inodes.FileSystem.Reserve | a3/fs/inode.c:406-447 | grows a tree to exactly the sectors that the length needs, whenever that many are free, and keeps the existing pointers |
| Inodes.FileSystem.Extend | a3/fs/inode.c:263-274 | the file has the new length, its old bytes and then zeros; other files keep sectors and bytes |
| Inodes.FileSystem.WriteAt | a3/fs/inode.c:253-327 | a write splices its bytes, leaves zeros in a gap, takes exactly the missing sectors, and leaves every other file alone; re-entered for the free-map file it never extends |
| Inodes.FileSystem.WriteNothing | a3/fs/inode.c:263-274 | the one kind of write that is no splice: no bytes at offset 0 of a file with bytes empties it and breaks the volume's invariant |
| Inodes.FileSystem.Release | a3/fs/free-map.c:44-48 | gives back a marked sector, and the marks are on disk |
| Inodes.FileSystem.DeallocateIndirect | a3/fs/inode.c:449-473 | gives back exactly the roles of the subtree, each once |
| Inodes.FileSystem.Deallocate | a3/fs/inode.c:475-508 | gives back exactly the roles of the file, and no sector remains to be counted |
| Inodes.FileSystem.CreateInode | a3/fs/inode.c:103-125 | a file of zeros with the sectors its length needs |
| Inodes.FileSystem.OpenInode | a3/fs/inode.c:130-158 | the in-memory inode is the one on disk |
| Inodes.FileSystem.Create | a3/fs/filesys.c:65-77 | a new file of zeros; inode and tree come from the front of the free list; other files are untouched |
| Inodes.FileSystem.Write | a3/fs/inode.c:253-327 | the map of all files changes at one file, by a splice, and the free sectors fall by what the tree grows |
| Inodes.FileSystem.Read | a3/fs/inode.c:201-247 | a slice of the file's bytes; nothing changes |
| Inodes.FileSystem.Remove | a3/fs/inode.c:171-196 | the file is gone, the others are untouched, and the free sectors grow by its inode and its tree |
| Inodes.FileSystem.Abandon | a3/fs/filesys.c:85-86 | gives back an inode without its tree: the file is gone, the others are untouched, and the volume is sound exactly if the file had no bytes |
| Inodes.FileSystem.NumFreeSectors | a3/fs/free-map.c:22-24 | the length of the free list |
| Inodes.FileSystem.CreateFreeMap | a3/fs/free-map.c:64-77 | the free-map file marks its own sectors and is on disk |
| Inodes.FileSystem.Format | a3/fs/filesys.c:157-164 | a sound volume with the free map and the root directory's file, in the first sectors of the device |
| Inodes.FileSystem.Shutdown | a3/fs/filesys.c:41-45 | the device then holds what readers saw |
| Inodes.FileSystem.OpenFreeMap | a3/fs/free-map.c:51-57 | reads back the free map that was persisted |
| Inodes.Remount | a3/fs/filesys.c:20-45 | shutting down and mounting the device again gives the same files, the same owners and the same free map |
| Runs.Run | a3/fs/inode.c:103-327 | every run of creates, writes, reads and removes over any number of files is a run of a map from files to bytes with the same answers, and the free sectors are as predicted |
| Runs.Conserved | a3/fs/free-map.c:31-48 | if only a file that is new and gone again gained or lost sectors, no bit has changed |
| Runs.Lifecycle | a3/fs/inode.c:360-508 | creating a file, writing to it any number of times and removing it leaves the free map bit for bit as it was, and all other files |
| FsUtil.OverheadIsCost | a3/fs/fsutil2.c:30-48 | the closed formula is exactly what the allocator takes, for every size |
| FsUtil.WriteSizeFits | a3/fs/fsutil2.c:54-82 | the size that is chosen fits the free space with its overhead, is no larger than the buffer, and with the overhead of the whole free space makes up the free space if the buffer does not fit |
| FsUtil.WriteSizeParts | a3/fs/fsutil2.c:59-82 | the same for free space that is no whole number of sectors |
| FsUtil.WriteSizeMaximalExactly | a3/fs/fsutil2.c:54-82 | for every buffer and every free space: no larger part of the buffer would fit exactly if all of it is written, or one more sector would need the overhead of the whole free space |
| FsUtil.WriteSizeNotMaximal | a3/fs/fsutil2.c:66-73 | which is not always so: with 124 free sectors, 122 are written and 123 would fit |
| FsUtil.ConsecutiveTreeNotFragmented | a3/fs/fsutil2.c:255-261 | in a tree laid out in consecutive sectors every step between data sectors is 1 to 3 |
| FsUtil.TestFragmented | a3/fs/fsutil2.c:255-261 | true exactly if some step is larger than 3 in the source's 32-bit arithmetic; for sectors below 2^31, if some sector lies more than 3 behind the one before |
| FsUtil.FragmentedIsScattered | a3/fs/fsutil2.c:255-261 | the two are the same there, so that a step backwards does not count |
| Layout.FragmentationDegree | a3/fs/fsutil2.c:236-270 | walks the root directory and counts the files of more than one sector, and those with data sectors more than 3 apart, each file once |
| FsUtil.CreateAll | a3/fs/fsutil2.c:310-316 | files created one after the other on one run of free sectors are none of them fragmented, and the free sectors are still one run |
| ListOrder.MergeSorted | a3/fs/list.c:318-340 | merging two sorted ranges gives a sorted one, for any strict weak order |
| ListOrder.MergeStable | a3/fs/list.c:333-339 | merging keeps the order of equivalent elements |
| ListOrder.PassBreaks | a3/fs/list.c:359-372 | the natural runs that a pass leaves are no more than those it counts |
| ListOrder.PassHalves | a3/fs/list.c:359-372 | a pass over r natural runs counts exactly half of r, rounded up |
| ListOrder.PassRearranges | a3/fs/list.c:359-372 | a pass is a stable rearrangement |
| List.Splice | a3/fs/list.c:157-176 | moves the range in front of the element, keeps everything else in order and the links consistent both ways |
| List.SpliceAcross | a3/fs/list.c:157-176 | the same between two lists: the range leaves one and joins the other |
| List.FindEndOfRun | a3/fs/list.c:304-316 | the end of the longest nondecreasing run |
| List.InplaceMerge | a3/fs/list.c:323-340 | by splices alone, the two ranges become their stable merge and the rest of the list stays |
| List.LinkedList.Insert | a3/fs/list.c:144-152 | puts the element in at that place |
| List.LinkedList.Remove | a3/fs/list.c:216-221 | takes that element out and returns the next |
| List.LinkedList.MergePass | a3/fs/list.c:358-372 | merges adjacent runs two by two and counts them |
| List.LinkedList.Sort | a3/fs/list.c:345-376 | terminates with a well-formed list that is sorted, holds the same elements, and is stable, for any strict weak order |
| EntryTable.CStrOfPadded | a3/fs/directory.c:293 | a name of at most 30 bytes survives being stored in its field |
| EntryTable.TableAfterWrite | a3/fs/directory.c:285-295 | writing an entry's bytes at its offset changes that slot alone, also across sector boundaries and at the end of the table |
| EntryTable.ListingAfterAdd | a3/fs/directory.c:291-295 | taking an unused slot adds that name to the map and nothing else |
| EntryTable.ListingAfterRemove | a3/fs/directory.c:333-337 | clearing a slot removes its name and nothing else |
| EntryTable.InOrderAfterAdd | a3/fs/directory.c:285-295 | a name is listed behind those in lower slots and before those in higher ones |
| EntryTable.AppendsToPacked | a3/fs/directory.c:285-295 | taking the least unused slot, a name added to a directory without gaps is listed last |
| EntryTable.InOrderAfterRemove | a3/fs/directory.c:333-337 | a name removed leaves the others in their order |
| Directory.Dir.Lookup | a3/fs/directory.c:178-197 | finds a name exactly if the directory maps it, with its entry and slot |
| Directory.Dir.IsEmpty | a3/fs/directory.c:200-211 | true exactly if the map is empty |
| Directory.Dir.FindFree | a3/fs/directory.c:285-289 | the least unused slot, the end of the table exactly if it is full |
| Directory.Dir.Add | a3/fs/directory.c:246-299 | for a file: fails exactly for an empty, overlong or known name, without a change; otherwise the map gains the name, in the least unused slot; no other slot and no other file changes, and the directory grows only if it was full |
| Directory.Dir.AddDirectory | a3/fs/directory.c:265-299 | for a directory: the same, and its slot 0 gets this directory as parent; no third file changes |
| Directory.ChildIsEmptyDirectory | a3/fs/directory.c:265-277 | a file of zeros so entered is an empty directory whose parent entry leads back |
| Directory.Dir.Remove | a3/fs/directory.c:304-345 | succeeds exactly for a known name that is not a directory with entries; a file is gone with its name, its sectors are free, and all else is as it was; of a directory only the name goes, and its sectors stay marked |
| Directory.Dir.Readdir | a3/fs/directory.c:350-361 | the next slot in use, none skipped; the position is behind it, or at the end |
| Directory.Dir.ListNames | a3/fs/fsutil.c:24-25 | a full pass lists every name once, in the order of the slots |
| Names.FullByCount | a3/fs/directory.c:285-289 | the root directory must grow exactly if there are as many names as slots |
| Names.BareVolumeFree | a3/fs/fsutil2.c:288-308 | if the system's own files come first and there are no others, what is free is one run |
| Files.FileTable.Open | a3/fs/file.c:59-86 | an open file keeps its cursor; a file that is not open starts at 0; fails exactly if there is no such file |
| Files.FileTable.Create | a3/fs/filesys.c:54-90 | the map from names to bytes gains a file of zeros; the sectors taken are predicted, also when the directory grows |
| Files.FileTable.CreateRefused | a3/fs/filesys.c:67-86 | for a taken or overlong name: no file changes, the sectors of the new file are lost, and the volume is sound exactly if the size is 0 |
| Files.FileTable.Read | a3/fs/file.c:111-115 | returns the bytes from the cursor on, as many as asked for or as there are, and moves it past them |
| Files.FileTable.Seek | a3/fs/file.c:183-187 | sets the cursor and nothing else |
| Files.FileTable.Write | a3/fs/file.c:135-140 | splices the terminated buffer in at the cursor, changes the caller's buffer in its last byte and no other, and moves the cursor to two bytes before the end of what was written |
| Files.TerminatedMeans | a3/fs/file.c:136 | a terminated buffer has the same bytes but for the last, which is zero |
| Files.FileTable.Remove | a3/fs/fsutil.c:72-75 | closes and removes the file; fails exactly if there is no such file |
| Files.Format | a3/fs/directory.c:52-75 | a new volume has a root directory of 1000 slots with no names, and the system's files come first |
| Defragment.Unload | a3/fs/fsutil2.c:288-308 | reading and removing while the directory is being read reaches every file once, in the order of the listing, and saves every byte |
| Defragment.Remake | a3/fs/fsutil2.c:313-315 | a saved file is made anew with its last byte zeroed, and is not fragmented if the free sectors are one run |
| Defragment.Run | a3/fs/fsutil2.c:280-321 | every file keeps its name, its length and all bytes but the last, which becomes zero; the listing keeps its order; no sector is lost; it never runs out of space; if the system's files come first, no file is fragmented and what is free is one run |
| Defragment.RestoredExactly | a3/fs/fsutil2.c:315 | defragmenting changes no file exactly if every file is empty or ends in a zero byte |
| Shell.Session | a3/fs/fsutil.c:72-135 | every session of creates, writes, reads, seeks, removals and defragmentings is one on a map from names to bytes with cursors, with the same answers; the system's files move only if the root directory grows |
| Shell.SessionEndsInZero | a3/fs/file.c:135-140 | after every session on a volume whose files end in zero bytes or are empty they still do |
| Shell.DefragmentKeepsFiles | a3/fs/fsutil2.c:280-321 | so that defragmenting after any session changes no file |
| Shell.ReadInTwoSteps | a3/fs/fsutil.c:97-107 | reading m and then n bytes is reading m + n bytes, in answer and cursor |
| Layout.SessionThenDefragment | a3/fs/fsutil2.c:236-321 | on a formatted volume, after any session in which the root directory did not grow, defragmenting changes no file and the fragmentation degree then counts no fragmented file |
| Shell.ForwardExactly | a3/fs/file.c:135-140 | a command leaves some cursor before the start of a file exactly if it is a write that ends before byte 2, or a defragmenting with a file shorter than two bytes |
| Shell.SessionForward | a3/fs/file.c:135-140 | so that a session without such commands keeps every cursor at or behind the start |
| Shell.WriteWordsTame | a3/interpreter.c:222-237 | and the write command is never one of them |
| Shell.JoinedAt | a3/interpreter.c:230-235 | every word of a write command is in its text at its place, with a space between each two |
| Shell.Compose | a3/interpreter.c:222-236 | the buffer of a write command is that text and two zero bytes |
| Shell.WriteWords | a3/interpreter.c:222-237 | the write command is one write of that buffer |
| Shell.ShellWrites | a3/interpreter.c:222-237 | after any session in which a file created empty is only written to by write commands, it holds all their texts one after the other and two zero bytes, and the cursor is behind the texts, whatever happened to other files and even across defragmenting |

## Left out

- Running out of space: `inode_reserve_indirect` ignores a failed allocation of an index block and then writes to sector 0, so operations that extend a file are modelled where enough sectors are free.
- Inodes.FileSystem.Reserve: requires enough free sectors and at most 16635 of them; past that `inode_reserve` fails after having allocated. The same holds for `ReserveIndirect`, `Extend`, `WriteAt`, `Write`, `CreateInode` and `Create`, for `Files.FileTable.Create` and `Files.FileTable.Write`, and for `Shell.Session` and `Shell.WriteWords`.
- Inodes.FileSystem.IndexToSector: requires that the index blocks above the index exist, because the source otherwise reads sector 0 as an index block.
- Inodes.FileSystem.Allocate: one sector at a time; no caller asks for more.
- Inodes.FileSystem.OpenInode: does not model the list of open inodes and its counts. `inode_reopen` does not count, so an inode is open once, writes are not denied, and `dir_open_root` is not shared.
- Directory.Dir.Remove: for a directory, the source goes on to use the inode it has freed; the model has what is on disk.
- Files.FileTable.Read: requires a cursor that is not negative, since the source would then compute a negative offset inside a sector; so do `Write` and `Shell.Session`. `Shell.ForwardExactly` says when that is met.
- Files.FileTable.Seek: requires a position that is not negative, as the source asserts.
- Files.FileTable.Write: leaves out the store before the buffer that `file_write` makes for size 0; the write itself and the cursor of -2 it leaves are modelled.
- 32-bit overflow of offsets and lengths: lengths stay below the largest file, and the sector distance in the fragmentation test is the only place where wrap-around is modelled.
- Memory allocation failures, device I/O, partitions and printing (`block.c`, `ide.c`, `partition.c`, `debug.c`): the disk is an array of sectors.
- Path splitting, the names `.` and `..`, and sessions with directories below the root: `filesys_create` works on the root directory only.
- FsUtil.WriteSizeFits: leaves out the last switch of `get_write_size`, which mixes bytes and sectors; no claim holds there. The same holds for `WriteSizeMaximalExactly`.
- FsUtil.TestFragmented: requires a sector, since `num_sectors - 1` underflows for an empty file; so does `Layout.FragmentationDegree`, which also leaves out the printed percentage.
- `copy_in`, `copy_out`, `find_file` and the three recovery functions of `fsutil2.c`: host files, string search, and recovery that assumes contiguous data.
- The other list operations (reverse, unique, ordered insertion, maximum), which would add easy members.
- The shell's parsing, its memory, and the scheduler and paging of `a1`, `a2` and `a3`.
