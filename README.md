# A Dafny model of the pintos file system and process resources

This project models the file-system core of a pintos kernel, together with
the per-process resources that sit on top of it.

File system:
- the free map (`src/filesys/free-map.c`);
- the 64-entry write-behind buffer cache with second-chance eviction
  (`src/filesys/cache.c`);
- indexed inodes with 12 direct, one single-indirect and one
  double-indirect pointer, which grow on write (`src/filesys/inode.c`);
- hierarchical directories with `.`/`..` and path walking
  (`src/filesys/directory.c`);
- the file-system entry points create, open, remove, format and done
  (`src/filesys/filesys.c`).

Per process:
- the ELF loader checks and the argument stack (`src/userprog/process.c`);
- the two file-descriptor tables (`src/userprog/filedescriptor.c` and
  `src/userprog/fd.c`);
- the memory-map table and its write-back (`src/userprog/mmap.c`).

One Dafny module per source file:

- `Bytes`, `Bitmap`, `Block` (shared): little-endian `u32` words, facts about the bitmap, a block device of 512-byte sectors.
- `FreeMap` (free-map.c): class `FreeMap` with field `bits: seq<bool>`; methods allocate and release.
- `Cache` (cache.c): class `BufferCache` over a `Device`; every reader's view of a sector (`View`) is an invariant of every operation.
- `InodeDisk`, `InodeFile` (inode.c): the on-disk record and index as values; `Tree` (every owned sector allocated and owned once), `Content` (the bytes a file reads as).
- `Inode` (inode.c): class `InodeTable`: the open-inode list and the methods that read, write, grow and free inodes on the device and the free map.
- `InodeAsWritten` (inode.c): three code paths of inode.c modelled as written, to exhibit the first three findings: the single-indirect and double-indirect failure paths of `extend_inode`, and `inode_close`'s release loop.
- `Directory` (directory.c): class `Directories`: each directory file as a sequence of `DirEntry` records, inode parents and removed marks; path resolution as functions.
- `FileSys` (filesys.c): class `FileSystem` joining directories, free map and cache.
- `Loader` (process.c): header and segment rules as predicates; `load_segment` and `pass_argument` as loops.
- `FdList`, `FileDescriptor`, `Fd`, `Mmap` (filedescriptor.c, fd.c, mmap.c): lists the methods reassign.

### Conventions

**Sentinel.** `SENTINEL` is `UINT32_MAX`. inode.c calls it `EXTEND_ERROR`.
It is also the value of `-1` stored in a `block_sector_t`.

**Free-map call signatures.** inode.c and filesys.c call
`free_map_allocate (1, &s)` and `free_map_release (s, 1)`, but free-map.h
declares `free_map_allocate (void)` and `free_map_release (sector)`. The
model reads each two-argument allocate call as "take one sector; on
success store it in `s` and answer true; on failure answer false and
leave `s` as it was":
- `Allocate` returns a sector, or `SENTINEL` when the map is full, and the
  caller stores the sector only when it is not `SENTINEL`;
- so in `filesys_create` (filesys.c:60-71) a full map leaves
  `inode_sector` at 0, and line 70 releases nothing
  (`FileSys.FileSystem.Reserve` fails with the map unchanged);
- the other reading, `s = free_map_allocate ()`, would set `inode_sector`
  to `UINT32_MAX` on a full map, and line 71 would then call
  `free_map_release (UINT32_MAX)`, whose ASSERT (free-map.c:105) fails.
  The model does not take that reading.
- A release call `free_map_release (s, 1)` is `Release(s)`.

**Inode layer and the cache.** The inode layer works on the logical disk,
that is, what readers see through the cache. `Cache.BufferCache.Delete`,
`Writeback` and `FlushPass` are proved to leave every reader's view
unchanged. So the `cache_delete` loop in `inode_close` does not change the
logical disk. In `FileSys.FileSystem` the inode layer's device
(`inodes.disk`) is a separate object from the cache's device
(`cache.dev`); the two are not composed (see "Left out").

**Accessors without a contract.** These are modelled by accessor functions
with no contract of their own:
- `free_map_inuse` (`FreeMap.FreeMap.InUse`);
- `inode_get_inumber`, `inode_length` and `inode_get_parent`;
- `bytes_to_sectors` (`InodeDisk.SectorsOf`).

### Where the model departs from the source

- **`inode_create`** (inode.c:112-152) ignores `extend_inode`'s result and
  always reports success. The model does the same (`Inode.InodeTable.Create`
  ensures `success`). A block that could not be allocated stays a hole,
  which reads as zeros.
- **`filesys_create`** (filesys.c:57-76) records the thread's current
  directory as the new inode's parent, not the directory the entry is added
  to. The model follows the code: `Parent(s) == start.value`.
- **`dir_chdir`** (directory.c:293-371) stores the directory it reached
  in `*dir` at line 368 also when the walk fails at line 340 or 360. The
  early returns at lines 303-304, 308-309 and 321-322 leave `*dir` as it
  was. The model's `ChangeDir` promises the directory only on success.
- **`cache_install`** (cache.c:308-324) returns unless `ahead_sector` is
  `UINT32_MAX` and equal to a sector that is not `UINT32_MAX`. That cannot
  happen, so read-ahead is never started (`Cache.BufferCache.Install`).
- **`inode_open`** on an inode that is open and removed: `inode_reopen`
  returns null without counting the opener, yet `inode_open` hands back the
  handle. `Inode.InodeTable.Open` models this as written.
- **`filesys_open`** (filesys.c:83-111) leaves `*isdir` untouched when the
  lookup fails. The model returns `None` in that case.
- **Corrected code paths.** Where a finding (see "Findings") shows a bug,
  the rest of the model builds on the corrected member and the as-written
  member stands beside it. In particular:
  - `FreeMap.FreeMap.Allocate` leaves the map unchanged on failure, which is
    the corrected rollback of free-map.c:89-92. `Inode.InodeTable.ExtendDirect`,
    `ExtendSingle`, `ExtendDouble`, `Extend` and the short write of
    `WriteAt` rest on that promise.
  - `Inode.InodeTable.StageSingle` and `Inode.InodeTable.StageDouble`, and
    through them `ExtendSingle`, `ExtendDouble`, `ExtendSecond` and
    `Extend`, give back the index sectors they took when a later allocation
    fails and leave the record unchanged. inode.c:463-487 and 488-526 as
    written keep them (`InodeAsWritten.ExtendSingleAsWritten`,
    `InodeAsWritten.ExtendDoubleAsWritten`).
  - `FileSys.FileSystem.Create` gives back every sector of the new inode
    when `dir_add` fails; `FileSys.FileSystem.CreateAsWritten` releases only
    the record's sector, as filesys.c:70-71 does.

## Model

| member | source | states |
|---|---|---|
| Bitmap.FirstFree | src/filesys/free-map.c:65-81 | the search `bitmap_scan_and_flip (free_map, 0, 1, false)` performs: -1 exactly when every bit is set, otherwise a clear bit with every lower bit set |
| Bitmap.CountSet | src/filesys/free-map.c:101-109 | setting or clearing one bit changes the number of sectors in use by exactly that bit |
| Bitmap.AllSetIff | src/filesys/free-map.c:36-45 | every sector is in use exactly when the count of set bits is the map's size |
| Bytes.DecodeEncode | src/filesys/inode.c:36-45 | decoding the little-endian bytes of a word sequence gives the words back |
| Bytes.EncodeDecode | src/filesys/inode.c:36-45 | re-encoding the decoded words of a byte sequence gives the bytes back |
| Bytes.AllOnesAreSentinels | src/filesys/inode.c:472 | a sector filled with 0xff bytes holds EXTEND_ERROR in every word |
| FreeMap.FreeMap.Init | src/filesys/free-map.c:20-31 | a new map has one bit per device sector, and only the free-map and root-directory sectors are in use |
| FreeMap.TakeFreeFresh | src/filesys/free-map.c:65-81 | the cnt sectors taken one by one with a first-fit scan are distinct, ascending and were free; marking them raises the count in use by cnt |
| FreeMap.TakeFreeStep | src/filesys/free-map.c:65-81 | each iteration takes the first free bit of the map as the previous iterations left it |
| FreeMap.FreeMap.ScanAndFlip | src/filesys/free-map.c:67 | `bitmap_scan_and_flip` returns the first free sector and sets its bit, or -1 leaving the map unchanged |
| FreeMap.FreeMap.ScanLoop | src/filesys/free-map.c:63-82 | the loop succeeds exactly when cnt sectors are free; it took the first-fit sectors and set their bits |
| FreeMap.FreeMap.AllocateMultiple | src/filesys/free-map.c:53-98 | cnt = 0 gives NULL; enough free sectors give the cnt lowest free ones, now in use; otherwise NULL with the map exactly as before |
| FreeMap.FreeMap.Rollback | src/filesys/free-map.c:85-96 | resetting exactly the sectors this call set restores the map the call started from |
| FreeMap.RollbackAsWritten | src/filesys/free-map.c:85-96 | as written: for a failure at i = 0 the one pass resets the unassigned slot `sectors[0]`, so that sector ends free and every other bit is kept; for a failure after sectors were taken, the passes after the first read the array freed by `free (sectors)` inside the loop, and no map is given (undefined in C) |
| FreeMap.RollbackFreesFreeMapSector | src/filesys/free-map.c:85-96 | on a full map, when the stale slot holds sector 0, the failed allocation frees the free map's own inode sector: one sector fewer is in use and the next allocation hands sector 0 out |
| FreeMap.FreeMap.AllocateMultipleAsWritten | src/filesys/free-map.c:53-98 | as written: on success the same as the corrected version; on a full map the map ends as RollbackAsWritten leaves it (the stale slot freed); on a later failure only the first pass's reset of `sectors[0]` is promised |
| FreeMap.FreeMap.Allocate | src/filesys/free-map.c:36-45 | returns -1 exactly when every sector is in use, with the map unchanged (the corrected rollback, see "Findings"); otherwise the first free sector, now in use, with nothing else changed |
| FreeMap.FreeMap.Release | src/filesys/free-map.c:101-109 | requires the bit to be set (the ASSERT); clears exactly that bit |
| Cache.SlotOfNone | src/filesys/cache.c:193-210 | `scan_cache` finds nothing exactly when no entry caches the sector |
| Cache.SecondChance | src/filesys/cache.c:150-189 | the victim is the first entry with a clear ref bit, and every entry before it has its ref bit cleared; when all are referenced, all are cleared and the head is taken |
| Cache.RemoveView | src/filesys/cache.c:150-189 | writing a dirty victim back, then unlinking it, leaves every sector's view unchanged |
| Cache.DropInv | src/filesys/cache.c:215-241 | freeing an entry's slot, writing it back and unlinking it keeps the cache invariant and every view, and leaves the sector uncached |
| Cache.FlushInv | src/filesys/cache.c:275-302 | writing one dirty entry to the device and marking it clean keeps the invariant and every view |
| Cache.CleanView | src/filesys/cache.c:275-302 | once no entry is dirty, the view of every sector is the device's own contents |
| Cache.BufferCache.Init | src/filesys/cache.c:29-47 | an empty cache with every buffer slot free, in which every view is the device's contents |
| Cache.BufferCache.Scan | src/filesys/cache.c:193-210 | returns -1 exactly when the sector is not cached, otherwise the index of the entry caching it |
| Cache.BufferCache.Evict | src/filesys/cache.c:150-189 | the second-chance victim is unlinked after the ref bits it passed are cleared; it is written to the device exactly when dirty |
| Cache.BufferCache.ClaimSlot | src/filesys/cache.c:115-134 | takes a free buffer slot, evicting first when all 64 are taken, without changing any view |
| Cache.BufferCache.Allocate | src/filesys/cache.c:115-145 | a miss loads the sector into a clean, unreferenced entry at the tail of cache_list; every view is kept |
| Cache.BufferCache.Install | src/filesys/cache.c:308-324 | the guard never lets a read-ahead start |
| Cache.BufferCache.Lookup | src/filesys/cache.c:58-66 | afterwards an entry caches the sector, and every view is kept |
| Cache.BufferCache.Read | src/filesys/cache.c:58-79 | returns bytes ofs..ofs+size of the sector as readers see it, changes no view and sets the entry's ref bit |
| Cache.BufferCache.Write | src/filesys/cache.c:83-108 | the sector's view becomes the old view with data spliced in at ofs; every other view is unchanged; the entry is dirty and referenced |
| Cache.BufferCache.Drop | src/filesys/cache.c:220-240 | frees the entry's slot, writes the entry back when dirty and unlinks it; views unchanged |
| Cache.BufferCache.Delete | src/filesys/cache.c:215-241 | afterwards the sector is uncached and the device holds what readers saw; an uncached sector changes nothing |
| Cache.BufferCache.Writeback | src/filesys/cache.c:245-272 | stops the flusher, empties the cache and frees every slot; the device then holds every sector as readers saw it |
| Cache.BufferCache.FlushPass | src/filesys/cache.c:275-302 | one flusher pass leaves no entry dirty, and the device holds what readers saw, which they still see |
| InodeDisk.DecodeEncodeInode | src/filesys/inode.c:36-45 | reading back a written `struct inode_disk` gives the same length, parent, pointers and magic |
| InodeDisk.SlotPartition | src/filesys/inode.c:537-582 | block indexes below 12 are direct, 12..139 single-indirect and the rest double-indirect; the slot determines the index back |
| InodeDisk.SlotOfIndex | src/filesys/inode.c:537-582 | every valid slot is the slot of its own index |
| InodeDisk.GetSectorSlot | src/filesys/inode.c:537-582 | `get_sector` returns the direct pointer, the word of the single-indirect sector, or the word of the second-level sector named by the double-indirect sector, with EXTEND_ERROR for a missing index sector |
| InodeDisk.ByteToSector | src/filesys/inode.c:78-86 | a position at or past the length maps to -1 |
| InodeDisk.Fill | src/filesys/inode.c:472 | a fresh index sector holds EXTEND_ERROR in all 128 words |
| InodeDisk.SetWord | src/filesys/inode.c:481 | storing a pointer into an index sector changes that word only |
| InodeDisk.Needed | src/filesys/inode.c:443-535 | extending one block needs 1 to 3 fresh sectors: the data sector plus each index sector not yet there |
| InodeDisk.CommitGrown | src/filesys/inode.c:528-533 | zeroing the new data sector and writing the record completes a staged extension: the block maps to the zero sector, other blocks are unchanged, and the tree stays owned |
| InodeDisk.GrownContent | src/filesys/inode.c:443-535 | growing a file changes none of the bytes it reads as, because the hole read as zeros and the new sector is zeros |
| InodeDisk.OwnedStep | src/filesys/inode.c:457-459 | filling a free pointer slot with a newly allocated sector keeps every owned sector allocated and owned once |
| InodeDisk.FreeNotOwned | src/filesys/free-map.c:65-81 | a sector the free map shows free is owned by no inode |
| InodeFile.NewRecord | src/filesys/inode.c:130-138 | a new record has the given length and parent, the magic number and every pointer EXTEND_ERROR |
| InodeFile.NewRecordTree | src/filesys/inode.c:130-138 | a new record owns no sector, so it is a sound tree with no block past its length, and it reads as zeros |
| InodeFile.GrownStep | src/filesys/inode.c:140-141 | each iteration of inode_create's loop keeps the tree sound, owns no block past the next sector boundary, and keeps the file reading as zeros |
| InodeFile.RecordWrite | src/filesys/inode.c:531 | writing the record's own sector changes no block mapping and no byte of the file |
| InodeFile.Released | src/filesys/inode.c:255-275 | the sectors inode_close hands back for a removed inode, in its order: data blocks below the length, double-indirect children, the double-indirect, the single-indirect and the record |
| InodeFile.ReleasedOwned | src/filesys/inode.c:255-275 | each of those sectors is in use or EXTEND_ERROR, and no sector appears twice |
| InodeFile.ReleasedAll | src/filesys/inode.c:255-275 | for an inode with no block past its length, a sector is released exactly when the inode owns it |
| InodeFile.ReleasedIndex | src/filesys/inode.c:255-275 | the released sequence lists the blocks below the length first, then the 128 second-level slots, then the double-indirect, single-indirect and record sectors |
| InodeFile.TreeKept | src/filesys/filesys.c:143-144 | creating the root after the free map's file (or writing any sectors that are not index sectors of an inode) leaves its tree sound, its pointers and every block mapping unchanged |
| InodeFile.WriteChunk | src/filesys/inode.c:380-383 | writing a chunk into a mapped sector sets exactly those bytes of the file and keeps the tree and its mappings |
| InodeFile.ChunkWritten | src/filesys/inode.c:359-386 | a chunk written after n bytes extends the "first n bytes written" relation to n + c |
| InodeFile.SetLength | src/filesys/inode.c:388-392 | a new length written to the record changes no byte of the file and keeps it trimmed |
| Inode.Position | src/filesys/inode.c:163-172 | the scan of open_inodes finds the first handle for the sector, or -1 exactly when none is open |
| Inode.InodeTable.Init | src/filesys/inode.c:96-104 | the open-inode list starts empty |
| Inode.InodeTable.Lookup | src/filesys/inode.c:163-172 | returns the position of the open inode for the sector |
| Inode.InodeTable.Open | src/filesys/inode.c:157-194 | an open, not-removed inode gains an opener; an unopened one is read from its sector and pushed on the front with one opener |
| Inode.InodeTable.Reopen | src/filesys/inode.c:197-212 | null stays null; a removed inode gives null and is unchanged; otherwise the opener count goes up by one |
| Inode.InodeTable.Remove | src/filesys/inode.c:286-293 | marks exactly that inode removed |
| Inode.InodeTable.Close | src/filesys/inode.c:226-282 | drops one opener; the last closer unlinks the inode, and if it was removed frees exactly the sectors it owns |
| Inode.InodeTable.Free | src/filesys/inode.c:255-275 | clears in the free map exactly the sectors the inode owns, skipping holes, and leaves every other bit as it was |
| Inode.InodeTable.FreeData | src/filesys/inode.c:258-259 | the loop clears the data sector of every block below the length, in order, skipping EXTEND_ERROR |
| Inode.InodeTable.FreeIndex | src/filesys/inode.c:261-269 | clears the second-level sectors and then the double-indirect sector, or nothing when there is no double-indirect sector |
| Inode.InodeTable.FreeSecond | src/filesys/inode.c:264-267 | the loop clears every second-level sector the double-indirect sector lists, in slot order, skipping empty slots |
| Inode.DropListed | src/filesys/inode.c:241-245 | taking the last closer's inode off the open list keeps every listed inode open once, with a well-formed record |
| Inode.InodeTable.DenyWrite | src/filesys/inode.c:401-410 | increments the deny count, which must stay at most the opener count |
| Inode.InodeTable.AllowWrite | src/filesys/inode.c:415-425 | decrements a positive deny count |
| Inode.InodeTable.ReadAt | src/filesys/inode.c:298-341 | returns min(size, length - offset) bytes, or none at or past the end, each the file's byte at its position |
| Inode.InodeTable.WriteAt | src/filesys/inode.c:348-397 | a denied inode writes nothing; otherwise the first `written` bytes land at offset, the length grows to cover them, the tree stays sound, and a short write means fewer than 3 free sectors remained |
| Inode.InodeTable.WriteChunks | src/filesys/inode.c:359-386 | the chunk loop writes a prefix of data and keeps the tree; it stops early only when the free map cannot extend the file |
| Inode.InodeTable.WriteStep | src/filesys/inode.c:361-385 | one iteration writes a non-empty chunk, or fails with nothing changed when extension fails |
| Inode.InodeTable.Store | src/filesys/inode.c:383 | writing into the data sector at off sets exactly those bytes of the file |
| Inode.InodeTable.Place | src/filesys/inode.c:363-380 | finds the sector for off, extending the file when it is a hole, without changing any byte the file reads as |
| Inode.InodeTable.Create | src/filesys/inode.c:112-152 | always succeeds; the record with the given length and parent is on its sector, and the file reads as zeros with no block past its length; the free map gains exactly the sectors the new inode owns, none of which was in use before, and nothing for a zero length; its first block is mapped whenever a sector was free; no other sector in use changes |
| Inode.InodeTable.Grow | src/filesys/inode.c:140-141 | inode_create's loop visits every 512-byte step below the length and keeps the record under construction sound; it takes no sector exactly when the length is 0 |
| Inode.InodeTable.CreateStep | src/filesys/inode.c:140-141 | one iteration of the growth loop in inode_create keeps the record under construction sound |
| Inode.InodeTable.ExtendDirect | src/filesys/inode.c:454-462 | allocates one free sector, or fails with the map unchanged and full |
| Inode.InodeTable.ExtendSingle | src/filesys/inode.c:463-487 | allocates the single-indirect sector if missing, and the data sector, and writes the index sector; a failure leaves disk and map unchanged (corrected, see "Findings") |
| Inode.InodeTable.LinkData | src/filesys/inode.c:479-484 | allocates the data sector and writes its pointer into the index sector buffer |
| Inode.InodeTable.ExtendDouble | src/filesys/inode.c:488-526 | allocates the double-indirect, second-level and data sectors as needed and writes both index sectors; a failure leaves disk and map unchanged (corrected, see "Findings") |
| Inode.InodeTable.ExtendSecond | src/filesys/inode.c:504-522 | the second-level step of the double-indirect case: allocates the second-level sector when slot o is empty, links the data sector below it and writes both index sectors; a failure leaves disk and map unchanged (corrected, see "Findings") |
| Inode.InodeTable.Extend | src/filesys/inode.c:443-535 | on success block pos maps to a new zeroed sector and no byte of the file changes; on failure nothing changes and fewer free sectors remained than needed (corrected, see "Findings") |
| Inode.InodeTable.StageDirect | src/filesys/inode.c:454-462 | the direct case before the commit |
| Inode.InodeTable.StageSingle | src/filesys/inode.c:463-487 | the single-indirect case before the commit, giving back the index sector when the data allocation fails |
| Inode.InodeTable.StageDouble | src/filesys/inode.c:488-526 | the double-indirect case before the commit, giving back new index sectors when a later allocation fails, and the record unchanged (corrected, see "Findings") |
| Inode.InodeTable.Commit | src/filesys/inode.c:528-533 | zeroes the data sector and writes the record, completing the growth |
| InodeAsWritten.ExtendSingleAsWritten | src/filesys/inode.c:463-487 | as written: when the data allocation fails, the record keeps the new single-indirect pointer and that sector stays in use unwritten |
| InodeAsWritten.ExtendDoubleAsWritten | src/filesys/inode.c:488-526 | as written: a missing double-indirect sector goes straight into the record and a missing second-level sector into the in-memory table; a later failure gives neither back, so they stay in use, and the record keeps the new double-indirect pointer |
| InodeAsWritten.ExtendDoubleStale | src/filesys/inode.c:488-526 | a file with blocks 0..139 mapped, written at byte 71680 with one free, never-written sector: the extension fails, the record keeps that sector as its double-indirect sector, every second-level slot reads sector 0, and the record is no longer a sound tree |
| InodeAsWritten.ExtendSecondLeaks | src/filesys/inode.c:504-522 | with a double-indirect sector but an empty slot o and one free sector: the extension fails with the record unchanged, and that sector stays in use though no pointer of the inode holds it |
| InodeAsWritten.ExtendSingleStale | src/filesys/inode.c:463-487 | on a disk whose last free sector was never written, that failure maps all 128 single-indirect blocks to sector 0, and the record is no longer a sound tree |
| InodeAsWritten.CloseDataArgsAsWritten | src/filesys/inode.c:258-259 | as written, the release loop passes `byte_to_sector` of every block below the length, holes included |
| InodeAsWritten.CloseHoleAsWritten | src/filesys/inode.c:258-259 | a 512-byte file whose one block is a hole hands EXTEND_ERROR to free_map_release, which lies past the free map |
| Directory.Blank | src/filesys/directory.c:36-40 | a directory file of n entries has n records, none in use |
| Directory.FindName | src/filesys/directory.c:103-124 | the first in-use record of that name, or -1 exactly when there is none |
| Directory.FirstFreeSlot | src/filesys/directory.c:196-199 | the first record not in use, or the end of the file |
| Directory.NextInUse | src/filesys/directory.c:277-285 | the first in-use record at or after i, or -1 exactly when there is none |
| Directory.ListingInUse | src/filesys/directory.c:272-287 | repeated readdir from record i lists the names of the in-use records after i, in order |
| Directory.AddFinds | src/filesys/directory.c:168-212 | after dir_add the name is found at the slot it was put in, no other record changes, and every other name is found where it was |
| Directory.RemoveFindsNothing | src/filesys/directory.c:255-258 | clearing the name's record makes it unfound, and every other name is found where it was |
| Directory.Tokens | src/filesys/directory.c:320-328 | strtok_r with "/" gives non-empty components without '/' |
| Directory.SlashesNoTokens | src/filesys/directory.c:320-323 | a path made only of '/' has no component |
| Directory.TokensJoin | src/filesys/directory.c:320-328 | joining components with '/' and splitting again gives them back |
| Directory.Copy | src/filesys/directory.c:307-310 | the path copy keeps at most PGSIZE - 1 characters and is a prefix of the name |
| Directory.Directories.ResolveAppend | src/filesys/directory.c:325-366 | walking a + b is walking a, then b from where a ended |
| Directory.Directories.DotStays | src/filesys/directory.c:343-347 | a "." component does not move the walk |
| Directory.Directories.ResolveInUse | src/filesys/directory.c:349-364 | in a name space whose entries and parents name sectors in use, the walk ends at a sector in use |
| Directory.Directories.UpFromRootAsWritten | src/filesys/directory.c:36-40 | with the root's parent 0, as `dir_create` leaves it, ".." of the root is the free map's inode and "../x" is looked up there |
| Directory.Directories.UpFromRoot | src/filesys/directory.c:140-144 | with the root its own parent, ".." of the root is the root and "../x" is x in the root |
| Directory.Directories.UpStays | src/filesys/directory.c:349-356 | any number of ".." from a root that is its own parent stays at the root |
| Directory.Directories.SlashesOnly | src/filesys/directory.c:320-323 | a non-empty path of only '/' leaves `path` NULL at the strlen, and the corrected walk fails there |
| Directory.Directories.AbsoluteTarget | src/filesys/directory.c:312-317 | a path starting with '/' ends at the same place whatever the current directory |
| Directory.Directories.Lookup | src/filesys/directory.c:103-124 | found exactly when an in-use record has the name; gives that record and its byte offset |
| Directory.Directories.DirLookup | src/filesys/directory.c:130-160 | ".." gives the parent and "." the directory itself (null once removed), both as directories; any other name gives its in-use entry's sector and kind, or nothing exactly when there is no such entry |
| Directory.Directories.OpenCur | src/filesys/directory.c:373-381 | the root when the thread has no directory, otherwise a reopen of it, which fails exactly when it is removed |
| Directory.Directories.OpenDir | src/filesys/directory.c:44-60 | null inode gives null; otherwise a new handle at position 0 |
| Directory.Directories.ReopenDir | src/filesys/directory.c:72-76 | null exactly when the directory's inode is removed, otherwise a new handle at position 0 |
| Directory.Directories.CreateInode | src/filesys/inode.c:112-152 | the directory view of inode_create: length / 28 blank records and the given parent |
| Directory.Directories.Create | src/filesys/directory.c:36-40 | entry_cnt blank records with parent 0 |
| Directory.Directories.Add | src/filesys/directory.c:168-212 | succeeds exactly when the name is valid, not "." or "..", not present and the record write completes; the entry goes into the first free slot; on failure the records are unchanged, with the record write taken as all-or-nothing (see "## Left out") |
| Directory.Directories.ReadDir | src/filesys/directory.c:272-287 | returns the next in-use name after pos and moves pos past it; otherwise moves pos to the end and fails |
| Directory.Directories.Remove | src/filesys/directory.c:217-267 | refuses "/", a missing name and a non-empty directory; otherwise clears that record and marks its inode removed; on failure nothing changes, with the record write taken as all-or-nothing (see "## Left out") |
| Directory.Directories.Clear | src/filesys/directory.c:255-258 | marks the name's record free and its inode removed; afterwards the name is not found, and parents are unchanged |
| Directory.Directories.StepDir | src/filesys/directory.c:343-365 | one iteration: "." stays, ".." goes to the parent, a name goes into the directory of that entry, if there is one |
| Directory.Directories.Walk | src/filesys/directory.c:325-366 | the loop reaches the last component exactly when every component is short enough and the components before the last resolve |
| Directory.Directories.ChangeDir | src/filesys/directory.c:293-371 | succeeds exactly when the path (at most PGSIZE - 1 characters) resolves up to its last component, which becomes filename, from the root when it starts with '/' |
| Directory.ChdirHandleAsWritten | src/filesys/directory.c:303-368 | as written, the caller's directory handle is closed once or twice by dir_chdir and the caller's dir_close |
| Directory.ChdirHandle | src/filesys/directory.c:313-368 | with *dir set on every return after the copy, the caller's handle is closed exactly once: either by dir_chdir or by the caller |
| Directory.ChdirHandleDiffers | src/filesys/directory.c:313-322 | the two differ exactly for an absolute path whose first component is longer than NAME_MAX, and there the code as written closes the handle twice |
| Directory.CloseTwice | src/filesys/directory.c:313-322 | for "/" followed by a component longer than NAME_MAX, the caller's handle is closed twice |
| FileSys.BitmapFileSize | src/filesys/free-map.c:144 | the free-map file holds one bit per sector, rounded up to whole 32-bit words |
| FileSys.ClosedCreate | src/filesys/filesys.c:68 | a new inode with blank records and a parent in use keeps every entry and parent pointing at sectors in use |
| FileSys.ClosedAdd | src/filesys/filesys.c:69 | adding an entry for a sector in use keeps every entry pointing at sectors in use |
| FileSys.ClosedEnter | src/filesys/filesys.c:68-69 | adding the new inode's entry and then its blank records and parent keeps every entry, file and parent at sectors in use |
| FileSys.ClosedGrow | src/filesys/filesys.c:67-68 | taking more sectors from the free map keeps every entry, file and parent at sectors in use |
| FileSys.ClosedClear | src/filesys/filesys.c:131 | clearing an entry keeps every entry, file and parent at sectors in use |
| FileSys.ClosedFormat | src/filesys/filesys.c:143-144 | after formatting, the free map's file and the empty root are the only inodes, and both sit at sectors in use |
| FileSys.FileSystem.TargetInUse | src/filesys/filesys.c:63-66 | the directory a path walk ends in is a sector in use |
| FileSys.FileSystem.Reserve | src/filesys/filesys.c:63-67 | succeeds exactly when the walk resolves the path and a sector is free; then the first free sector is taken and the walk's directory and last component are returned; on failure the free map is unchanged |
| FileSys.FileSystem.Install | src/filesys/filesys.c:68-69 | creates the inode, which takes exactly the sectors it owns, and adds its entry; succeeds exactly when the name is valid and absent and the record is written; a failure leaves the directory view unchanged, with the record write taken as all-or-nothing (see "## Left out") |
| FileSys.FileSystem.MakeInode | src/filesys/filesys.c:68 | inode_create at the sector just taken: the free map gains exactly the sectors the new inode owns, and the file reads as zeros |
| FileSys.FileSystem.Enter | src/filesys/filesys.c:69 | dir_add of the new entry: on success the name looks up to the new inode, which has blank records and its parent, and no other directory changes; on failure the view is unchanged, with the record write taken as all-or-nothing (see "## Left out") |
| FileSys.FileSystem.Create | src/filesys/filesys.c:57-76 | succeeds exactly when the path resolves, a sector is free, the name is valid and absent, and the record write completes; then the first free sector holds an inode of the given size that reads as zeros, the free map keeps every sector it had and has taken every sector of the new inode, and the name looks it up; on failure the directory view is as before (the record write taken as all-or-nothing, see "## Left out"), no sector in use before is released, and when the record write did not fail the free map is exactly as before |
| FileSys.FileSystem.Discard | src/filesys/filesys.c:70-71 | giving back the inode just made returns the free map to what it was before its sector was taken |
| FileSys.FileSystem.CreateAsWritten | src/filesys/filesys.c:57-76 | the same outcome as Create; when dir_add refuses the name after inode_create ran, the free map is the earlier map plus every block sector of the new inode, and with a non-zero size and two free sectors at least one sector stays in use that was free before |
| FileSys.FileSystem.InstallAsWritten | src/filesys/filesys.c:68-71 | after the sector is taken: on failure the free map is the earlier map plus the new inode's block sectors |
| FileSys.FileSystem.ReleaseRecord | src/filesys/filesys.c:70-71 | releasing only the record's sector leaves every block sector of the inode in use, among them its first block when one was mapped |
| FileSys.FileSystem.Open | src/filesys/filesys.c:83-111 | "/" opens the root as a directory; any other name is the lookup of its last component in the directory the walk ends in |
| FileSys.FileSystem.Remove | src/filesys/filesys.c:117-136 | succeeds exactly when the name is not "/", the walk succeeds and dir_remove would; then the name is gone and no other directory changes; on failure nothing in the directory view or the free map changes (the record write taken as all-or-nothing, see "## Left out"); the free map never gains a sector |
| FileSys.FileSystem.Unlink | src/filesys/filesys.c:131 | dir_remove in the walk's directory: succeeds exactly when the entry is removable and its record is written; then the name no longer looks up; on failure the records and removed marks are unchanged, with the record write taken as all-or-nothing (see "## Left out") |
| FileSys.FileSystem.FormatAsWritten | src/filesys/filesys.c:139-148 | formats as written: the free map's file of bitmap size at sector 0 and an empty root at sector 1 whose parent is sector 0; the free map holds exactly the root's sector and the sectors the free map's file owns |
| FileSys.FileSystem.Format | src/filesys/filesys.c:139-148 | formats with the root as its own parent; the free map holds exactly the root's sector and the sectors the free map's file owns |
| FileSys.FileSystem.MakeFiles | src/filesys/filesys.c:143-144 | free_map_create's inode_create then dir_create: both inodes are sound and the free map gains only the free map's file's sectors |
| FileSys.FileSystem.MakeRoot | src/filesys/filesys.c:144 | creating the empty root takes no sector and leaves the free map's file's tree and mappings unchanged |
| FileSys.FileSystem.Done | src/filesys/filesys.c:44-51 | the cache is written back and emptied, and the device holds every sector as readers saw it |
| Loader.HeaderAcceptedIff | src/userprog/process.c:338-344 | a header is accepted exactly when the ident starts "\177ELF\1\1\1", the type is 2, the machine is 3, the version is 1, phentsize is 32 and phnum is at most 1024 |
| Loader.DecodePhdr | src/userprog/process.c:354-362 | the program header's fields are its eight little-endian words in order |
| Loader.PhdrRoundTrip | src/userprog/process.c:354-362 | decoding an encoded header gives it back, and the other way round |
| Loader.ValidateSegmentIff | src/userprog/process.c:431-472 | a segment is valid exactly when offset and vaddr agree modulo the page size, offset is within the file, memsz is positive and at least filesz, and the segment lies in user space above page 0 |
| Loader.PageRoundUp | src/userprog/process.c:389-397 | ROUND_UP gives the least page multiple at or above x |
| Loader.SplitSound | src/userprog/process.c:376-405 | the split of a valid segment meets load_segment's assertions and covers exactly the pages of the segment, all in user space |
| Loader.PlanFailsIff | src/userprog/process.c:350-407 | loading fails exactly when some header is PT_DYNAMIC, PT_INTERP, PT_SHLIB or an invalid PT_LOAD |
| Loader.LoadSegment | src/userprog/process.c:488-531 | one page per PGSIZE of the segment; page k reads min(read_bytes left, PGSIZE) bytes from ofs + k * PGSIZE and zeroes the rest |
| Loader.TokensNonEmptyNoSpace | src/userprog/process.c:585-592 | strtok_r with " " gives non-empty arguments without a space |
| Loader.TitleIsFirstToken | src/userprog/process.c:615-625 | get_title gives the command line's leading spaces followed by its first argument |
| Loader.PushStrings | src/userprog/process.c:584-593 | the arguments are copied, with their terminating NUL, downward from PHYS_BASE, and argv[k] is the address of argument k |
| Loader.StoreWords | src/userprog/process.c:598-600 | argv[0..argc] is stored as words at the base, and no other byte changes |
| Loader.VectorLayout | src/userprog/process.c:595-611 | the word-aligned vector, argv, argc and return slot fit below the strings and above 0 |
| Loader.FrameAssembled | src/userprog/process.c:595-611 | strings, vector, argv pointer, argc and return slot in place make the frame `_start` expects |
| Loader.PushVector | src/userprog/process.c:595-611 | on top of the strings, builds the argument frame |
| Loader.BuildFrame | src/userprog/process.c:575-612 | the strings and the vector together make the frame |
| Loader.PassArgument | src/userprog/process.c:575-612 | esp points at a frame holding argc, argv and the NUL-terminated arguments of the command line |
| FdList.RemoveAt | src/userprog/filedescriptor.c:51 | unlinking entry i keeps the order of the others |
| FdList.Find | src/userprog/filedescriptor.c:38-45 | the first entry with that fd, or -1 exactly when there is none |
| FdList.AppendNextIncreasing | src/userprog/filedescriptor.c:10-26 | appending the next fd keeps the fds strictly increasing |
| FdList.RemoveIncreasing | src/userprog/filedescriptor.c:30-55 | closing any fd keeps them strictly increasing |
| FdList.CloseLastReissues | src/userprog/filedescriptor.c:10-26 | after closing the last fd, the next open reissues it exactly when it directly follows its predecessor (or is 3) |
| FileDescriptor.FileDescriptorTable.Open | src/userprog/filedescriptor.c:10-26 | the new fd is 3 for an empty list, otherwise one past the last, and is appended |
| FileDescriptor.FileDescriptorTable.Close | src/userprog/filedescriptor.c:30-55 | returns null exactly when no entry has the fd; otherwise unlinks that entry and returns its file |
| FdList.FileOf | src/userprog/filedescriptor.c:64-71 | the search fd_convert and fd_get_file share: null exactly when no entry has the fd; otherwise the file of the first entry for fd |
| FileDescriptor.FileDescriptorTable.Convert | src/userprog/filedescriptor.c:58-72 | fd_convert is that search over the process's list: null exactly when no entry has the fd; otherwise a file the fd maps to |
| FileDescriptor.FileDescriptorTable.Collapse | src/userprog/filedescriptor.c:76-90 | closes every file in list order and empties the list |
| Fd.FdTable.Allocate | src/userprog/fd.c:8-22 | the new fd is 3 for an empty list, otherwise one past the last, above every fd in the list, and is appended |
| Fd.FdTable.GetFile | src/userprog/fd.c:24-38 | fd_get_file is the same search over fd.c's list: null exactly when no entry has the fd; otherwise a file the fd maps to |
| Fd.FdTable.Pop | src/userprog/fd.c:40-60 | null exactly when no entry has the fd; otherwise unlinks that entry and returns its file |
| Fd.FdTable.Collapse | src/userprog/fd.c:62-76 | closes every file in list order and empties the list |
| Mmap.PageCount | src/userprog/mmap.c:78-91 | the loop visits ceil(fsize / PGSIZE) pages, none for a non-positive size |
| Mmap.WritesOnlyDirtyPages | src/userprog/mmap.c:67-92 | every write-back goes to the mapping's file and is of a present, dirty page of the mapping, with the page's read bytes and file offset |
| Mmap.DirtyPagesWritten | src/userprog/mmap.c:67-92 | every present, dirty page of the mapping is written back to the mapping's file |
| Mmap.Writeback | src/userprog/mmap.c:67-92 | the loop issues exactly those writes and visits every page of the file |
| Mmap.MapTable.Allocate | src/userprog/mmap.c:12-24 | the new mapid is 0 for an empty list, otherwise one past the last, above every mapid in the list, and is appended |
| Mmap.MapTable.Get | src/userprog/mmap.c:49-63 | null exactly when no mapping has the id; otherwise a mapping with that id |
| Mmap.MapTable.Destroy | src/userprog/mmap.c:28-46 | writes back every mapping in list order, each to its own file, closes each file once and empties the list |

## Left out

- Locks and concurrency. Every operation runs to completion on its own: `free_map_lock`, `inodes_lock` and the per-inode locks are left out, and so are the cache's flusher and read-ahead threads. `FlushPass` is one iteration of `flush_cache`'s loop, and the timer sleep is left out.
- `bitmap_write`, `bitmap_read`, `free_map_open`, `free_map_close` and the free-map file's I/O are left out. The model assumes the bitmap write succeeds. If it failed, `free_map_allocate_multiple` would leave the flipped bit set without recording the sector.
- FreeMap.FreeMap.AllocateMultipleAsWritten: for a failure after sectors were taken (i >= 1), promises only the first rollback pass's reset of `sectors[0]`, because the later passes read the array that `free (sectors)` in the loop released, which C leaves undefined. `FreeMap.RollbackAsWritten` gives no map (`None`) there for the same reason. No caller in the core reaches that case, since `free_map_allocate` asks for one sector.
- `free_map_create`: only the creation of the free-map inode is modelled, inside `FormatAsWritten` and `Format`. Writing the bitmap to that file (`bitmap_write`, free-map.c:152) is not modelled, so the free map's file reads as zeros in the model.
- `inode_init`, `free_map_init`'s device query and `filesys_init` are left out. The model starts from a constructed device, free map and cache.
- Failures of `malloc`, `calloc` and `palloc_get_page` are left out. Every allocation of kernel memory succeeds in the model.
- Negative `off_t` values are left out. Sizes and offsets are `nat`, which matches the ASSERT in `inode_create`.
- The `next_sector` read-ahead argument of `cache_read` and `cache_write` is taken and ignored, because `cache_install` never starts a read-ahead.
- The buffer cache is zero-filled when created. The source allocates it with `palloc_get_page (0)`, whose contents no reader sees before a load.
- Inode.InodeTable.WriteAt: requires `offset + size <= MAX_LENGTH` (8,460,288 bytes). The source does not check this: `extend_inode` would index past the double-indirect range.
- Inode.InodeTable.WriteAt: the soundness of the inode's block tree is a precondition, not an invariant kept for every open inode. Cross-inode disjointness of sectors is not modelled.
- Inode.InodeTable.Close: requires the removed inode's tree to be sound, with no block past its length. The source asserts neither.
- Inode.InodeTable.ReadAt: requires the inode's pointers to lie on the device.
- Inode.InodeTable.WriteAt: does not state that other inodes' bytes are unchanged; only the written inode's contents are specified.
- The directory layer keeps each directory file as a sequence of 28-byte `DirEntry` records. The byte layout of those records inside the inode is not composed with the inode model. `Records` is what `inode_read_at` gives record by record.
- Directory.Directories.Add: `written` stands for "`inode_write_at` wrote the whole record". It is a parameter, not derived from the inode model. The record write is modelled as all-or-nothing: on failure the records are unchanged. The source does not promise that. `inode_write_at` (inode.c:359-392) writes one sector's chunk at a time and stops at the first failed `extend_inode`, keeping the chunks already written. A 28-byte record that crosses a sector boundary into a hole below the directory's length can therefore be left half-written. For example, record 54 covers bytes 1512-1539: its `in_use` byte (1531) lies in sector 2 and its `parent_sector` in sector 3. `dir_add` (directory.c:208) then returns false with `in_use` already set. Such holes arise when `inode_create`'s loop runs out of free sectors. A failed `dir_add` can thus leave an in-use entry behind, which `filesys_create` (filesys.c:70-71) then points at a released sector. The model's `NamesOver` invariant rules such an entry out.
- Directory.Directories.Remove: the same `written` parameter stands for the record write, also modelled as all-or-nothing. As written, a half-written record can leave `in_use` cleared while `dir_remove` (directory.c:257-258) returns false, and the inode is then never marked removed. The failure clause (records and removed marks unchanged) holds only when the failed write wrote nothing.
- FileSys.FileSystem.Install: its failure clause (directory view unchanged) rests on `Directory.Directories.Add`'s all-or-nothing record write; a half-written record is not modelled.
- FileSys.FileSystem.Enter: the same, for its failure clause (view unchanged).
- FileSys.FileSystem.Create: the same, for its failure clause (directory view as before).
- FileSys.FileSystem.Remove: its failure clause (directory view unchanged) rests on `Directory.Directories.Remove`'s all-or-nothing record write; a half-written record is not modelled.
- FileSys.FileSystem.Unlink: the same, for its failure clause (records and removed marks unchanged).
- FileSys.FileSystem.Create: the same `written` parameter stands for the record write. The growth of the directory file that `dir_add`'s `inode_write_at` may cause is not modelled. So the contract only says that the free map keeps its sectors and takes the new inode's, not that nothing else is taken; and after a failed record write it says that no sector is released, not that the map is unchanged.
- FileSys.FileSystem.Enter: leaves the free map alone, because the directory file's growth is not modelled. `Install`'s exact accounting of the free map therefore covers the new inode only; `Create` states the weaker promise that holds of the source.
- FileSys.FileSystem.CreateAsWritten: the exact free map after a failure is stated only when `dir_add` refused the name without writing, for the same reason.
- FileSys.FileSystem.Create: requires `initial_size <= MAX_LENGTH`, as `Inode.InodeTable.Create` does. The source does not check this: `extend_inode` would index past the double-indirect range.
- Inode.InodeTable.Create: requires `length <= MAX_LENGTH` for the same reason.
- FileSys.FileSystem.Remove: says only that the free map never gains a sector and is unchanged on failure. Releasing the removed inode's sectors happens in `inode_close` (directory.c:265), which the file-system model does not hold open handles for; and `dir_remove`'s record write can itself extend the directory file. `Inode.InodeTable.Close` states the release for the inode layer.
- FileSys.FileSystem.FormatAsWritten: requires a freshly initialised free map (only sectors 0 and 1 in use), a directory view that knows no other inode, and a bitmap file that fits an inode (`bitmap_file_size <= MAX_LENGTH`). `Format` requires the same.
- Open counts of directory handles, `dir_close` and `dir_get_inode` are not modelled in the directory layer.
- The `struct dir` leak in `dir_remove` is not modelled: when the entry is an empty directory, the `edir` opened at directory.c:245 is never closed on the way to lines 256-265 (only the refusal at line 249 closes it).
- Directory handles are counted only for the caller's handle in `dir_chdir` (`Directory.ChdirHandleAsWritten` and `Directory.ChdirHandle`, see "Findings"). `ChangeDir` and the file-system entry points do not track handles, and the double close itself is not carried into them.
- Inode I/O that bypasses the cache is not modelled apart: inode.c reads and writes records and index sectors with `block_read` and `block_write` straight on the device at lines 145, 189, 264, 391, 475, 482, 502, 512, 519-520, 530-531, 554, 570 and 574, while file data goes through `cache_read` and `cache_write`. The model gives the whole inode layer one device, the disk as readers see it through the cache. That matches the source only while the cache holds no stale copy of a sector the inode layer writes directly.
- FileSys.FileSystem.Valid: the inode layer's device (`inodes.disk`) is a separate object from the cache's device (`cache.dev`), and the cache's invariant is required by `Done` alone. The file-system entry points do not pass their inode I/O through `Cache.BufferCache`.
- `filesys_open` returns an inode sector and whether it is a directory. `file_open` and `dir_open` on the result are not modelled.
- The thread's current directory (`thread_current ()->dir`) is a parameter of the file-system operations.
- Loader: reading the headers from the file is not modelled. That covers the `file_ofs` range check and short reads at process.c:356-361. `Plan` starts from the headers already read.
- Loader: `setup_stack`, `install_page`, `palloc` and the page-table updates of `load_segment` are not modelled. `LoadSegment` gives the pages it would fill.
- Loader.PassArgument: requires the frame to fit in one page below PHYS_BASE. The source does not check this, and `argv` is a single page.
- Mmap.Writeback: clearing a written page (`pagedir_clear_page`) and freeing its supplemental entry (`spage_free`) are not modelled. The page table is given as the functions `present`, `dirty` and `spage`.
- Mmap.MapTable.Destroy: `file_close` is modelled only as the list of files closed.
- `File` values are opaque (`nat`). The file layer (`file.c`) is not part of this model.
- Block device I/O: `block_read` and `block_write` are sequence reads and updates on `Device.blocks`.

## Findings

| source | as written | input that shows it | evidently intended | confidence | as-written member | corrected member |
|---|---|---|---|---|---|---|
| src/filesys/inode.c:463-487 | when the single-indirect sector is missing, `extend_inode` allocates it straight into `idisk->single_indirect`; if the data allocation then fails, the pointer stays in the record and the sector stays in use, unwritten | a file of 12 direct blocks grown at byte 6144 when exactly one sector is free and that sector holds zeros: all 128 single-indirect blocks then map to sector 0, the free map's inode | give the index sector back and leave the record unchanged when a later allocation fails | not executed | InodeAsWritten.ExtendSingleStale | Inode.InodeTable.StageSingle |
| src/filesys/inode.c:488-526 | when the double-indirect sector is missing, `extend_inode` allocates it straight into `idisk->double_indirect` (line 497), and a missing second-level sector straight into `indir_d[idx_double]` (line 507); when a later allocation fails (lines 507, 516), `double_end` gives neither back, the record keeps the double-indirect pointer, and the second-level sector is linked from nowhere, because `indir_d` is written only on success (line 520) | a file with blocks 0..139 mapped, written at byte 71680 when exactly one sector is free and that sector holds zeros: the record keeps it as its double-indirect sector, and every second-level slot then reads sector 0; with the double-indirect sector present and slot 0 empty, the one free sector stays in use and no pointer holds it | give back the index sectors taken and leave the record unchanged when a later allocation fails | not executed | InodeAsWritten.ExtendDoubleStale, InodeAsWritten.ExtendSecondLeaks | Inode.InodeTable.StageDouble, Inode.InodeTable.ExtendDouble, Inode.InodeTable.ExtendSecond, Inode.InodeTable.Extend |
| src/filesys/inode.c:258-259 | `inode_close` passes `byte_to_sector` of every block below the length to `free_map_release`, including holes, which map to EXTEND_ERROR | a 512-byte file created when the free map was full (inode_create ignores the failure), then removed and closed: `free_map_release (UINT32_MAX)` indexes past the bitmap | skip holes and release only the sectors the inode owns | not executed | InodeAsWritten.CloseHoleAsWritten | Inode.InodeTable.Free |
| src/filesys/free-map.c:85-96 | the rollback loop runs `j <= i`, so it also resets `sectors[i]`, which was never assigned; and it calls `free (sectors)` inside the loop, so for a failure at i >= 1 every later pass reads the freed array and frees it again | `free_map_allocate (1, &s)` on a full map, when the stale slot holds 0: sector 0, the free map's own inode, is marked free (i = 0; a failure at i >= 1 needs cnt > 1, which no caller in the core passes) | reset only `sectors[0..i-1]` and free the array once after the loop, leaving the map as it was before the call | not executed | FreeMap.RollbackFreesFreeMapSector | FreeMap.FreeMap.AllocateMultiple, FreeMap.FreeMap.Allocate, Inode.InodeTable.ExtendDirect, Inode.InodeTable.ExtendSingle, Inode.InodeTable.ExtendDouble, Inode.InodeTable.Extend, Inode.InodeTable.WriteAt |
| src/filesys/directory.c:36-40 | `dir_create` gives every directory parent 0, so `do_format` (filesys.c:144) leaves the root's parent as sector 0, the free map's inode | `cd ..` from the root, or opening "../x" from the root, looks in the free-map file as if it were a directory | the root is its own parent, so ".." from the root stays at the root | not executed | Directory.Directories.UpFromRootAsWritten | Directory.Directories.UpFromRoot |
| src/filesys/directory.c:320-323 | `strtok_r` returns NULL for a path made only of '/', and `strlen (path)` then dereferences NULL | `filesys_open ("//")` or `filesys_create ("//", 0, false)` | fail the walk when the path has no component | not executed | Directory.Directories.SlashesOnly | Directory.Directories.ChangeDir |
| src/filesys/filesys.c:68-71 | when `dir_add` fails after `inode_create` has built an inode of `initial_size` bytes, line 71 releases only `inode_sector`; the data and index sectors `inode_create` took (inode.c:140-141) stay in use, and no inode owns them | `filesys_create ("a", 512, false)` in a directory that already holds "a", with at least two free sectors: the new file's one data sector stays marked in use for good | give back every sector the new inode owns, as `inode_remove` and `inode_close` of it would, so that the free map is as it was before the call | not executed | FileSys.FileSystem.CreateAsWritten | FileSys.FileSystem.Create |
| src/filesys/directory.c:313-322 | for a path starting with '/', `dir_chdir` closes the caller's directory at line 315; when the first component is longer than NAME_MAX it returns at line 322 without storing the root it opened in `*dir`, so `*dir` still names the closed directory, and `filesys_create` (filesys.c:73) or `filesys_remove` (filesys.c:133) closes it a second time | `filesys_create ("/aaaaaaaaaaaaaaa", 0, false)`: a first component of 15 characters | store the handle dir_chdir holds in `*dir` on that return too, so that the caller's directory is closed exactly once | not executed | Directory.CloseTwice | Directory.ChdirHandle |
