# A verified model of the OuO_FS storage engine

OuO_FS is a Unix-like file system server written in C for a simulated machine. These Dafny files
model its storage engine from the disk sectors up to path names, and prove what its layers promise:

- **The two cache levels.** 16 cached inodes sit on 32 cached blocks, which sit on the disk. Each level is a
  doubly linked recency list between two sentinels, kept in step with a chained hash table. The caches are
  classes whose methods splice links in place. Each method is proved to leave a plain map from block numbers
  and inode numbers to values as it was (transparency) and to keep the list in order of last use (LRU).
- **The block allocator.** Bit-packed bitmaps refine sets of numbers; `extend` and `free_inode` keep block ownership
  (every block of an allocated inode is its own, in range and marked used) and lose no block except in one case, which
  is characterised exactly.
- **Byte transfers.** The chunked loops of `ReadHandler` and `WriteHandler` refine slices of, and overwrites in, a
  flat byte sequence, and touch no other file.
- **Path names.** `resolvePath` terminates on every image, follows at most 20 links, and is a fold of directory lookups.
- **Whole runs and restarts.** `Operations.Follows` says what each operation makes of inodes, blocks and bitmaps, and
  `Files.Effect` what that is to somebody who sees files only. `Runs.Run` proves that a run of any length goes through such
  states, whatever the caches and the disk do below, what every run keeps, and when blocks are lost in it; `Budget` tells that
  beforehand. `Lifetime.LiveAndRestart` goes from the disk `mkyfs` writes over any run and a sync to a new server on the
  same disk, and says what that server has in common with the old one.
- **Examples.** Where the code falls short of a promise, the exact condition is proved, and `Examples` follows a run on a
  freshly formatted disk into that case.

Specifications are functions and predicates over sequences, sets and maps; methods are proved against them, and the
lemmas state what follows. `dafny verify dfyconfig.toml` checks everything.

## Layers

| file | C code | content |
|---|---|---|
| Sequences | | vocabulary on sequences and sets |
| Layout, Bitmap | filesystem.h, block.h, block.c | encodings, inode slots, bitmaps |
| RecencyQueue, HashTable, LruOrder, LruCache | lrucache.c, block.c | lists, tables, LRU theory, one cache |
| BlockCache, FileSystem | lrucache.c, block.c, yfs.c | disk and block cache; inode cache on top, `sync` |
| BlockMap, Growth | block.c | block maps, ownership, the effect of allocation on them |
| Allocator, Conservation | block.c | `extend`, `free_inode` and their laws |
| ByteIO, Transfers | yfs.c | `ReadHandler`, `WriteHandler` and their laws |
| Naming, Paths | yfs.c | meaning of paths; the lookup functions |
| Residency, Creation | lrucache.c, yfs.c | lifetime of handles; `addEntry`, `createFile` as users of them |
| Mount, Restart | block.c, yfs.c | `init_inode_block`; sync and restart |
| Operations, Files, Budget | block.c, yfs.c | what operations do, caches left aside; as seen in files; in numbers of free blocks |
| Runs | yfs.c | runs of operations |
| Mkyfs, Boot | samples/mkyfs.c, block.c | the disk as formatted; a server started on it |
| Lifetime, Examples | yfs.c, block.c | from formatting to restart; runs into the quirks listed below |

## What the model takes the C code to mean

Where the code as written cannot run, or its text differs from its evident intent, the model does this:

- The `search_*_hashTable` functions return the cached entry itself, although their callers in lrucache.c declare
  the result as a wrapper (lrucache.c:170,181,196,207).
- `init_lru` creates both sentinels of each list (lrucache.c:47-50 assigns the heads twice). The block queue uses the
  block sentinels throughout (lrucache.c:128,157-158).
- Both hash tables are empty before the first `get_block` (block.c:113 comes before block.c:125-126).
- Shorts have two bytes and ints four, least significant byte first, in two's complement, with no padding between fields.
- `WriteSector` may fail at any call, and then leaves anything at all in that sector. The block cache then grows past 32 entries,
  by at most one for each failure.

Where the code can run, the model does what it does, and the quirks are results:

- The estimate of `extend` forgets the indirect block of a file of exactly 12 blocks (block.c:354 against
  block.c:383): `Conservation.EstimateShort`, `Allocator.Extend`, `Growth.CutShortLeaks`, `Examples.BlockLost`.
- The growth test of `WriteHandler` counts whole blocks, one too many (yfs.c:615): `Transfers.WriteWhole`,
  `Transfers.LostTail`, `Examples.WriteLost`.
- Neither `extend` nor `free_inode` clears a block that is to become a data block beyond the 12 direct ones (block.c:399-408): what a freed
  file left there is read through another file: `Growth.ExtendedBytes`, `Examples.Leftover`.
- `init_inode_block` does not mark indirect blocks (block.c:179-191): `Mount.RebuildExact`, `Mount.RebuildSound`,
  `Examples.OwnershipLost`.
- `extend` sets sizes past 140 blocks without mapping them (block.c:399,410). The model allows this; reads and writes there
  are the ERROR that the program returns (yfs.c:577,636).
- A relative symbolic link is resolved from the link itself (yfs.c:127). `Naming.Resolve` does the same; statements about
  the meaning of links are for absolute ones.
- `addEntry` never looks at the last entry of a directory (yfs.c:224), so that entry is replaced when no other slot is free.
  An entry in use is lost if and only if no slot is free: `Creation.SlotInUse`, `Creation.AddToListing`,
  `Examples.ParentLost` (the first file created in the root directory takes the place of "..").
- `evict_inode` writes a clean inode back, too (lrucache.c:253-256).

## Model

| member | source | states |
|---|---|---|
| RecencyQueue.Queue.Enqueue | lrucache.c:118-126 | The entry joins the list at the tail; both link directions, the counter and the listed order stay in step. |
| RecencyQueue.Queue.Dequeue | lrucache.c:106-117 | The oldest entry leaves and is unlinked; an empty list is unchanged. |
| RecencyQueue.Queue.Remove | lrucache.c:127-134 | An entry leaves from any position, the order of the others is kept; the sentinels are ignored. |
| HashTable.Bucket.Search | block.c:248-258 | Finds the value under the key in the chain, none exactly when the key is absent. |
| HashTable.Bucket.Insert | block.c:218-234 | The chain maps the key to the new value, replaced or pushed, and every other key as before. |
| HashTable.Bucket.Delete | block.c:280-298 | The chain no longer maps the key; every other key as before. |
| HashTable.Table.Search | block.c:236-258 | The table is a map: the entry stored under the key, in whichever bucket. |
| HashTable.Table.Insert | block.c:201-234 | The table's map is updated at one key; keys stay in their own bucket. |
| HashTable.Table.Delete | block.c:260-298 | The table's map loses one key. |
| LruOrder.RunIsMostRecent | lrucache.c:169-193 | LRU stack property: after any history an initially empty cache of cap entries holds the cap most recently used keys, in order of last use. |
| LruOrder.Residency | lrucache.c:169-242 | A key is cached if and only if it was used and fewer than cap other keys were used since. |
| LruOrder.AccessKeeps | lrucache.c:180-242 | Whether or not write-backs succeed, one more access keeps a held key held while fewer than cap others have been seen. |
| LruOrder.StandsBefore | lrucache.c:169-179 | Behind a key in the recency order stand exactly the keys used since its last use. |
| LruOrder.AccessInOrder | lrucache.c:169-193 | An access keeps a list of keys in the order of their last access, whether the key was listed or not. |
| LruOrder.RestInOrder | lrucache.c:220-263 | Evicting or deleting a key leaves the others in the order of their last access. |
| LruCache.Cache.Get | lrucache.c:169-179 | A hit moves the entry to the tail and returns it; a miss returns the head sentinel and changes nothing. |
| LruCache.Cache.Enter | lrucache.c:184-186 | List and table gain the same entry, at the tail and under its key. |
| LruCache.Cache.Leave | lrucache.c:237-238 | List and table lose the same entry. |
| Layout.InodeRoundTrip | filesystem.h:46-53 | Decoding an encoded inode gives it back. |
| Layout.InodeBytesRoundTrip | filesystem.h:46-53 | Encoding a decoded slot gives its 64 bytes back: no bit of a slot is lost. |
| Layout.SlotLayout | filesystem.h:46-53 | Where each field of inode k stands on the disk: in block 1 + k / 8, from byte 64 * (k % 8) on, type, links, reuse count, size, the 12 direct numbers, the indirect one, byte by byte. |
| Layout.SlotIsolation | lrucache.c:251-256 | Writing inode i into its slot changes no other inode, the header included, and no block beyond the inode table; slots lie in blocks 1 to NUM_BLOCKS_FOR_INODES. |
| Layout.PutSlotSame | lrucache.c:255-256 | Writing an unchanged inode back changes no byte. |
| Layout.IntIsolation | block.c:396-405 | A block number stored in an indirect block is read back, and the other 127 are as before. |
| Layout.IntLayout | block.c:393-405 | Entry k of an indirect block is the int in its bytes 4k to 4k + 3, for reading and writing. |
| Layout.InodeBlockCounts | block.c:330-331 | The two ways the program counts inode blocks agree. |
| Bitmap.OneMember | block.c:83-91 | Setting or clearing a bit changes membership of exactly that number. |
| Bitmap.SetUsed | block.c:83-86 | The set gains the number if it is in range, the byte array changes in that bit only. |
| Bitmap.SetFree | block.c:88-91 | The set loses the number. |
| Bitmap.IsFree | block.c:92-96 | 1 if and only if a free number in range, 0 if and only if a used one, -1 out of range. |
| Bitmap.FindFree | block.c:97-106 | The least free number; -1 if and only if there is none. |
| Bitmap.TakeOne | block.c:83-106 | Marking a free number lowers the free count by one. |
| BlockCache.Disk.WriteSector | lrucache.c:231-235 | Returns 0 with the sector written, or another code with the sector in any state; no other sector changes. |
| BlockCache.BlockStore.EvictBlock | lrucache.c:220-242 | A full cache writes its oldest block back if dirty and drops it; if that fails it keeps it; every logical block stays. |
| BlockCache.BlockStore.SetBlockLru | lrucache.c:180-187 | A missed block enters after an eviction; order as LRU prescribes, other entries the same objects. |
| BlockCache.BlockStore.GetBlock | block.c:62-77 | Returns the logical block, resident; no logical block changes; the order is that of one access, which is noted in the history. |
| BlockCache.BlockStore.GetLru | lrucache.c:169-179 | A hit returns the logical block and touches it; a miss returns the sentinel. |
| BlockCache.BlockStore.Flush | yfs.c:1115-1128 | 0: every sector is its logical block and no entry is dirty; -1: a write failed; no logical block changes. |
| FileSystem.Server.EvictInode | lrucache.c:243-263 | A full inode cache writes the oldest inode through get_block into its slot and drops it; logical inodes and data stay. A clean inode is written through, too: the block with its slot is accessed. |
| FileSystem.Server.SetInodeLru | lrucache.c:206-212 | A missed inode enters after an eviction; order as LRU prescribes; logical state unchanged. |
| FileSystem.Server.GetInodeLru | lrucache.c:195-205 | A hit returns the logical inode and touches it; a miss returns the sentinel. |
| FileSystem.Server.GetUseInode | block.c:13-39 | The logical inode as a resident handle, the same one while resident; NULL if and only if the inode is free (and not cached); no logical inode, block or bit changes; the order is that of one access. The blocks accessed are the one with the slot and that of the inode evicted, and none on a hit. |
| FileSystem.Server.GetNewInode | block.c:40-60 | The least inode number not in use, marked and cached; NULL if and only if there is none. |
| FileSystem.Server.GetBlock | block.c:62-77 | Above the inode cache: no logical inode changes either, the inode cache is untouched, and the block cache notes one access, to this block. |
| FileSystem.Server.SyncInodes | yfs.c:1088-1113 | Every dirty inode reaches its slot in the cached inode table, though get_block reorders and evicts blocks meanwhile; logical state unchanged. |
| FileSystem.Server.Sync | yfs.c:1081-1129 | 0: no entry dirty, every sector its logical block, every slot its logical inode (but a pending one's); -1: a sector write failed. Logical state unchanged either way. |
| FileSystem.Server.Release | block.c:457-458 | A clean inode leaves list and table; the logical state stays. |
| FileSystem.WriteBackAgrees | lrucache.c:251-256 | Copying one cached inode into its slot keeps all cached and uncached inodes and all data blocks in agreement. |
| BlockMap.Replace | block.c:321-463 | Changing one inode, its own blocks and free blocks keeps block ownership and leaves every other file the same bytes. |
| BlockMap.BytePlace | yfs.c:566-587 | Where on the disk byte p of a file is: in the block direct[p / 512] names or, from byte 6144 on, the one the indirect block names in its int p / 512 - 12, at offset p % 512. |
| BlockMap.FreedSound | block.c:415-463 | Freeing a file keeps block ownership and touches no other file. |
| BlockMap.FreedExact | block.c:415-463 | After freeing a file every marked block beyond the table has an owner if and only if that was so before. |
| Growth.GrowDirect | block.c:364-378 | One round of the direct loop extends the block map by a fresh zeroed block and keeps the rest. |
| Growth.GrowIndirect | block.c:382-391 | Taking a fresh indirect block keeps the map. |
| Growth.GrowEntry | block.c:399-408 | One round of the indirect loop extends the map by a fresh block and keeps the rest. |
| Growth.GrowingSound | block.c:363-411 | Stopped at any point, extend has kept block ownership and changed no other file. |
| Growth.ExtendedSound | block.c:363-411 | A completed extension keeps block ownership and changes no other file. |
| Growth.ExtendedCount | block.c:339-411 | The free count drops by the new data blocks, plus one exactly if an indirect block is first needed. |
| Growth.ExtendedBytes | block.c:363-411 | Every byte of the old blocks is preserved; new direct blocks read as zeros; new blocks beyond these were free and read as what they held before. |
| Growth.ExtendedOwns | block.c:363-411 | The old block map is a prefix of the new one; the file owns its old blocks and the ones taken, all distinct. |
| Growth.ExtendedLowest | block.c:363-408 | The blocks an extension takes are the lowest free ones, in ascending order of the file's new blocks. |
| Growth.ExtendedExact | block.c:321-412 | After a completed extension no block is lost if and only if none was lost before. |
| Growth.CutShortLeaks | block.c:384-409 | An extension cut short leaves blocks marked that belong to nobody. |
| Allocator.CountFree | block.c:330-337 | The number of free blocks. |
| Allocator.GrowDirects | block.c:363-379 | The direct loop reaches the new size or entry 12, or stops with no free block left. |
| Allocator.GrowEntries | block.c:394-409 | The indirect loop reaches the new size or entry 140, or stops with no free block left. |
| Allocator.Extend | block.c:321-412 | 0 if and only if Fits; then an exact extension. Refused: nothing has changed. Cut short: the file as before and the disk full. Block ownership kept, other files untouched. No block lost afterwards if and only if none was lost before and the extension was not cut short. |
| Allocator.ComesUpShort | block.c:358-409 | Past the estimate, an allocation fails only for a file of exactly 12 blocks with exactly the estimated number of free blocks. |
| Allocator.Suffices | block.c:358-411 | In that case it must fail. |
| Allocator.FreeInode | block.c:415-463 | -1 if and only if the inode is free, so the error returns of the loops are never taken for a sound file; frees exactly the file's own blocks and its number, clears every field of the inode but the reuse count, drops it from the cache; data and other files untouched; blocks lost if and only if some were before; synced: if no sector write has failed, everything logical is on the disk. |
| Conservation.FitsExactly | block.c:321-412 | Up to 140 blocks extend succeeds if and only if as many blocks are free as it takes. |
| Conservation.EstimateShort | block.c:349-361 | The estimate falls short if and only if a file of exactly 12 blocks grows into the indirect range with exactly the estimated number of blocks free; for such growth one block more than estimated is necessary and sufficient. |
| Conservation.ExtendThenFree | block.c:321-463 | Extending and then freeing a file frees what freeing it at once would have freed: the bitmap before, for a file of size 0. |
| Conservation.AllocateAndFree | block.c:321-463 | extend on a file of size 0, free_inode, get_use_inode: bitmap restored, inode gone, the last call NULL. |
| Transfers.ReadTwice | yfs.c:539-602 | Two calls of ReadHandler, the second from where the first ended, return together what one call for the combined size returns. |
| ByteIO.BlockWrite | yfs.c:628-661 | Writing within the j-th block changes exactly those bytes of the file and no block number of it. |
| ByteIO.BlockWriteSound | yfs.c:628-661 | And no other file. |
| ByteIO.FetchBlock | yfs.c:568-586 | The cached copy of the file's j-th block, through direct entry or indirect block. |
| ByteIO.ReadHandler | yfs.c:539-602 | Returns the slice of the contents and leaves the rest of the buffer; ERROR if and only if the inode is free or the range leaves the block map; logical state unchanged. Byte by byte: buf[p] is byte position + p of the file. |
| ByteIO.PastMapMeans | yfs.c:562-577 | A transfer leaves the block map if and only if some byte asked for lies within the file's size, but beyond its 140th block. |
| ByteIO.WriteHandler | yfs.c:604-664 | The exact number of bytes, the exact overwrite of the file's blocks, the exact effect of the extension before it (cut short, it leaves no free block); other files, inodes and block ownership untouched; no block lost afterwards if and only if none was lost before and the extension was not cut short. |
| ByteIO.WriteLoop | yfs.c:622-663 | The loop overwrites the file's bytes from position on and nothing else. |
| ByteIO.ResizedBytes | yfs.c:615-618 | Whatever becomes of the extension, old bytes stay, new direct blocks are zero, and the size changes exactly if it succeeded. |
| ByteIO.ResizedExact | yfs.c:615-618 | Making room for a write loses blocks if and only if its extension is cut short. |
| ByteIO.CutShortBytes | block.c:384-409 | An extension cut short leaves size, blocks and bytes of the file as they were. |
| Transfers.StoredExactly | yfs.c:622-663 | With file size S: 0 from S on, otherwise the size asked for, limited by the end of the block in which the file ends. |
| Transfers.WrittenBytes | yfs.c:604-664 | Byte by byte: what was written, around it what was there, zeros in new direct blocks. |
| Transfers.WritesAllWhen | yfs.c:604-664 | The arithmetic of WriteWhole: all bytes given lie within count and size if and only if the file need not grow, or the growth test fires and the blocks are there. |
| Transfers.WriteWhole | yfs.c:604-664 | WriteHandler returns the number of bytes given with all of them in the contents if and only if the file need not grow, or the growth test fires and enough blocks are free. |
| Transfers.LostTail | yfs.c:615 | With enough free blocks, WriteWhole's condition fails if and only if the write ends past the file but not past the next block boundary. |
| Transfers.WriteThenRead | yfs.c:539-664 | After a write, any uses of other inodes and a sync, a read at the same place gives the bytes written, clipped at the size. |
| ByteIO.ReadElsewhere | yfs.c:604-664 | A read of another range sees what it saw before the write. |
| Naming.SearchFinds | yfs.c:23-34 | The lookup loop gives the first entry of that name, 0 if there is none. |
| Naming.EntryLayout | filesystem.h:86-89 | Entry i of a directory is its bytes 32i to 32i + 31: the inode number in two bytes, then 30 bytes of name. |
| Naming.NamedMeans | yfs.c:29 | A name matches an entry if and only if its bytes agree up to the 30th and, if it is shorter, a zero byte follows. |
| Naming.FindAnswers | yfs.c:11-35 | Lookup in a directory answers from that directory's own entries: the number of the first match, 0 without one. |
| Naming.Resolve | yfs.c:58-134 | Terminates by links left and path length; never more than 20 links. |
| Naming.ResolveIsWalk | yfs.c:58-134 | Where no link is met, resolution is a fold of findInumInDir over the components. |
| Naming.RelativePath | yfs.c:37-52 | A relative path without links is walked from the directory given, the empty path being that directory. |
| Naming.AbsolutePath | yfs.c:37-52 | A path with leading slashes is walked from the root, slashes alone being the root. |
| Naming.JoinedNames | yfs.c:55-81 | The components of names joined by slashes are those names. |
| Naming.WalkConcat | yfs.c:58-134 | Walking two lists of names is walking one after the other. |
| Naming.ZeroAbsorbs | yfs.c:11-35 | With a header slot of size 0, every name looked up in inode 0 gives 0. |
| Naming.MissingName | yfs.c:58-134 | A missing name makes the whole path resolve to 0. |
| Naming.AbsoluteLink | yfs.c:94-125 | An absolute link: resolution of its target's components and the rest from the root, with one link less. |
| Naming.RelativeLink | yfs.c:94-127 | A relative link without further links: its target's components and the rest are walked from the link itself, with one link less. |
| Naming.TargetText | yfs.c:101-108 | A link's target is its text up to the first zero byte. |
| Naming.SelfLink | yfs.c:95-98 | A link to itself is an error after exactly 20 expansions. |
| Naming.ResolveThrough | yfs.c:58-134 | Links included, resolving a longer path is resolving its beginning and going on from there. |
| Naming.ParentThenName | yfs.c:136-187 | resolvePath is looking up getFilename in getParentInum, for single separators and no trailing slash. |
| Naming.LastStep | yfs.c:83-127 | The last step, unless it ends in a link, is findInumInDir. |
| Paths.FindInumInDir | yfs.c:11-35 | The number of the first matching entry of that directory, 0, or -1 for errors; logical state unchanged. |
| Paths.ResolvePath | yfs.c:37-134 | The loop computes Naming.ResolvePath on every image and terminates. Without links: the walk from the directory given for a relative path, from the root for an absolute one. Logical state unchanged. |
| Paths.GetParentInum | yfs.c:136-179 | Resolution of the path before its last slash; the root if that is the first byte; undefined without a slash. |
| Paths.GetFilename | yfs.c:180-187 | The part after the last slash, the whole path without one. |
| Residency.KeepBlock | lrucache.c:169-242 | A block handle stays the resident copy over any accesses to fewer than 32 other blocks, failing write-backs included. |
| Residency.KeepInode | lrucache.c:195-263 | An inode handle stays the resident copy over any uses of fewer than 16 other inodes. |
| Residency.AccessBlocks | block.c:62-77 | After any run of accesses from an empty cache the recency list is the 32 most recently used blocks in order, if no write fails. |
| Residency.UseInodes | block.c:13-39 | After any run of inode uses from an empty cache the recency list is the 16 most recently used allocated inodes in order, whatever the block cache and the disk do below. |
| Creation.UseSecond | yfs.c:202-219 | A second inode handle leaves the first one good. |
| Creation.AddEntry | yfs.c:200-246 | Succeeds exactly when the directory has room and both inodes are allocated. Both handles are good when used after the nested reads and the write; the directory is the old one overwritten in the chosen slot; the link count of the entry's inode is one higher, in 16 bits, and no other field of any inode has changed. On failure directory and inodes are as before. |
| Creation.SlotInUse | yfs.c:222-235 | The slot chosen holds an entry in use if and only if every slot of the directory does; it is the last one then, and otherwise the first free one or the last. |
| Creation.SlotMeans | yfs.c:219-233 | The same for any size: every slot before the one chosen is in use and within the block map; it is free or the last; none is chosen only if a slot before the last lies beyond the map. |
| Creation.AddToListing | yfs.c:200-246 | Every entry of the directory but one survives, the new one is there, and the one replaced was in use if and only if the directory was full. |
| Creation.LastNameLost | yfs.c:222-235 | In a full directory the name that only the last entry has is found before and no longer found after. |
| Creation.CreateFile | yfs.c:248-278 | Succeeds if and only if the name is not found (without error), an inode number is free and the directory has room; then the inode with the first number free has the type asked for, one link, size 0 and a reuse count one higher, in 32 bits, and its entry stands in the parent; no other inode changes. On failure the bitmap, all reuse counts, all allocated inodes and the directory are as before, and if an inode had been taken, all is synced. No inode is left pending; ownership and other files kept. |
| Creation.CreateWhen | yfs.c:249-278 | That condition spelled out: no entry of the name or one with a number of at most 0, a free inode number, a parent of directory type, and the chosen slot within 140 blocks. |
| Creation.CreatedEntry | yfs.c:189-198 | An entry made for a name matches it, cut off at 30 characters. |
| Creation.CreatedBytes | yfs.c:189-198 | The entry's bytes: the number, at most 30 bytes of the name, zeros. |
| Creation.CreatedIsFound | yfs.c:248-278 | A created file is found by findInumInDir under its name. |
| Mount.RebuildInode | block.c:154-198 | One inode: number marked, data blocks marked, an allocated inode entered into the cache as by one access. |
| Mount.InitInodeBlock | block.c:108-199 | Inodes and header fields as they stand in the bytes of the image; bitmaps hold the reserved blocks, data blocks and allocated inodes of it; cached are the last 16 allocated inodes, in order. |
| Mount.RebuildExact | block.c:154-198 | The rebuilt block bitmap is the one in memory before, without the indirect blocks; with them marked it would be equal. |
| Mount.RebuildSound | block.c:179-191 | Block ownership holds after mounting if and only if no file needs an indirect block. |
| Restart.SyncedImage | yfs.c:1081-1129 | The disk after a successful sync holds the header, every logical inode, byte by byte in its slot, and every data block, and can be mounted, lost blocks or not. |
| Restart.StartAgain | block.c:108-199 | From any healthy server that has kept its header and brought everything onto the disk, by sync or by free_inode: a new server there has the same inodes, files and numbers. |
| Restart.SyncAndRestart | yfs.c:1081-1129 | From any healthy server that has kept its header: a new server on the synced disk has the same inodes, files and inode bitmap, and exactly the reserved and owned blocks in use without the indirect ones; it is healthy if there are none of these. |
| Residency.CachesInStep | lrucache.c:78-263 | In every valid state both lists are well formed between their sentinels, the counters are their lengths, the keys in the tables are exactly the listed keys, none twice, listed in the order of their last access; at most 16 inodes, at most 32 blocks plus one per failed write. |
| Mkyfs.Written | samples/mkyfs.c:62-117 | The image mkyfs builds can be mounted: header fields, root directory and free inodes decode as intended, and the root's block lies beyond the inode table. |
| Mkyfs.ImageBytes | samples/mkyfs.c:62-100 | The image in bytes: the header's two ints, the root inode's fields, free inodes, the bytes of "." and ".." in the block after the table. |
| Boot.FormattedSound | samples/mkyfs.c:62-100 | A formatted disk has sound block ownership, no leaks, and no indirect block. |
| Boot.Start | block.c:108-199 | Mounting an image with sound ownership and no indirect blocks gives a server in the state every run starts from, with the same bitmap. |
| Boot.Boot | block.c:108-199 | A formatted disk, mounted, is such a start. |
| Boot.BootFresh | samples/mkyfs.c:62-117 | The disk mkyfs writes, mounted, is healthy and leak-free, with the reserved blocks and the root's block in use. |
| Operations.UntouchedText | yfs.c:539-664 | An untouched file has the same contents. |
| Operations.LifeStep | yfs.c:248-278 | An operation brings at most one inode to life: creation does, for the first free number, if the name is not found and the directory has room; freeing ends it; nothing else matters. |
| Operations.LifeOf | block.c:13-60 | At any point of a run an inode is allocated if and only if a step before created it, or it was so at the start, and no step since freed it. |
| Operations.CountsStep | yfs.c:265-277 | Creation sets kind and one link and raises the reuse count by one. No other operation changes a reuse count, nor kind or links of an inode that stays allocated. |
| Operations.CountsKept | yfs.c:200-664 | Through any run a file that is not freed keeps kind, links and reuse count. |
| Operations.CreatedFile | yfs.c:248-278 | After any run a file created in it and not freed since has the kind asked for, one link, and a reuse count one higher than before its creation. |
| Operations.ReuseOf | yfs.c:270-272 | Through any run the reuse count of an inode rises by the number of its creations, in 32 bits; failed ones do not count. |
| Files.WriteEffect | yfs.c:604-664 | The text of a file after a write: its exact size, the bytes written, and every other byte as before or, in new direct blocks, zero. |
| Files.ExtendEffect | block.c:321-412 | The text of a file after an extension: longer, its beginning as before, zeros in new direct blocks. |
| Files.CutShortEffect | block.c:384-409 | An extension cut short does not change the text. |
| Files.CreateEffect | yfs.c:248-278 | Creation puts the entry of a new, empty file over the first free or the last slot of the parent's text, or changes no text. |
| Files.Refines | yfs.c:200-664 | Every operation on inodes and blocks is an operation on a map from numbers to texts. |
| Files.RunEffects | yfs.c:200-664 | So is every step of every run. |
| Budget.NextLedger | block.c:321-463 | Sizes and free count after an operation are a function of sizes and free count before it; so is whether it runs out of blocks. |
| Budget.Foreseen | block.c:321-412 | Without creations, a run loses blocks if and only if the sizes and the free count at its start say so. |
| Budget.NeedsMet | block.c:321-412 | No run loses blocks that starts with enough free ones for the blocks of all its writes and extensions. |
| Runs.Step | yfs.c:200-664 | One operation does to the file system what Follows says, keeps the invariant (nothing pending, inode numbers in use exactly the allocated ones, caches, ownership), and freedom from leaks if and only if it does not run out of blocks half way. After a step that syncs everything is on the disk, unless a sector write failed. |
| Runs.Run | yfs.c:200-664 | Every run goes through states each of which is what its operation makes of the one before; every run keeps cache validity, transparency and block ownership; files no operation targets stay the same. The used blocks are exactly the reserved and owned ones if and only if they were and no extension runs out half way, which Budget decides beforehand. Reads, lookups and syncs change no logical state. After a last step that syncs (sync, freeing a file, a creation taken back) everything is on the disk, unless a sector write failed. |
| Runs.FreeThenRun | block.c:415-463 | After freeing an inode and any run, get_use_inode on it is not NULL if and only if a step of the run created a file when that number was the first one free, and no later step freed it. |
| Lifetime.Use | samples/mkyfs.c:62-117 | mkyfs, mount, any run: a healthy server, with lost blocks if and only if an extension ran out half way. |
| Lifetime.LiveAndRestart | yfs.c:1081-1129 | mkyfs, mount, any run that leaves inode 0 alone, sync, a new start: same inodes, files and inode bitmap; the block bitmap without the indirect blocks, and equal to the old one otherwise if no extension ran out of blocks half way, as none does with blocks for everything. If not, a sector write has failed. |
| Examples.ParentLost | yfs.c:222-235 | On a formatted disk the first create in the root directory makes ".." unfindable. |
| Examples.ParentLookedUp | yfs.c:11-35 | The same through findInumInDir, before and after. |
| Examples.WriteLost | yfs.c:615 | On any healthy server a write of up to 512 bytes to an empty file returns 0 and changes no file. |
| Examples.WriteLostAtFirst | yfs.c:615 | Such a server is there after mkyfs, mount and the first creation. |
| Examples.EstimateMissed | block.c:349-409 | A formatted disk with 13 free blocks, a file extended to 12 blocks and then by one byte: the estimate is met, extend runs out, the file is as long as before and no block is free. |
| Examples.BlockLost | block.c:349-409 | A server gets there, and has lost a block. |
| Examples.OwnershipLost | block.c:179-191 | A formatted disk, a file extended to 13 blocks, sync, a new start: block ownership no longer holds, unless a sector write failed. |
| Examples.Leftover | block.c:399-408 | A formatted disk with 14 free blocks, two files, the second filled and freed: a byte of it is the last byte of the first, which was never written. |
| Examples.LeftoverRead | yfs.c:539-602 | ReadHandler returns that byte. |

## Left out

- Message passing, the descriptor table and `main` (iolib.c, yfs.c:280-520, yfs.c:1048-1078): plumbing over an unseen kernel.
- `UnlinkHandler`, `RmDirHandler`, `MkDirHandler`, `LinkHandler`, `SymLinkHandler`: their loops skip or overwrite the last
  entry, and directory removal writes into the wrong inode; statements about link counts would be about other code.
- `OpenHandler`, `CreateHandler`, `ReadLinkHandler`, `ChDirHandler`, `StatHandler`, `SeekHandler`: short compositions of modelled functions.
- The branch of `set_block_lru` and `set_inode_lru` for a key that is already cached (lrucache.c:187-192, 213-218): callers reach the functions
  only after a miss.
- `clear_inode_cache`, `clear_block_cache`, `clear_inode_block_hashTable`: shutdown only.
- `malloc` and `free`: memory never runs out, and freed entries are simply no longer reachable.
- The inode_* and block_* copies of the list and table code are one generic class each.
- A read or write with a negative position; sums of position and size past the int range; disks of 2^31 blocks or more.
- Allocator.Extend: newsize below 2^31, so that the size field can hold it.
- Allocator.FreeInode: for files of at most 140 blocks; beyond that the C loop reads past the end of the indirect block.
- Mount.InitInodeBlock: for images whose header and inodes are sensible, for the same reason; the program checks nothing.
- Paths.ResolvePath: where the C program has no defined behaviour (a component over 30 characters, an entry that names no allocated inode, a link
  longer than a block) the outcome is Undefined; that joining a link's target and the rest needs one byte more than is allocated (yfs.c:104-112)
  is not modelled.
- Creation.AddEntry: for directories of at least one entry; on an empty one the program looks at an entry it never filled in.
- FileSystem.Server.Sync: an inode edited without its dirty flag (createFile does this until addEntry sets it) is not covered by the promise
  about slots until the flag is set or the inode is freed. The model keeps such inodes in a set, Pending; one that is evicted is
  written but stays in the set until then. Between operations the set is empty (`Runs.Healthy`).
- Runs.Run: operations with inode numbers in range, sizes of at most 140 blocks, files other than directories created, and inode 0
  not freed. The results that operations return are not part of the trail; `Runs.DoWrite`, `Runs.DoExtend` and `Runs.DoCreate` state
  them.
- Lifetime.LiveAndRestart: for runs that do not target inode 0, which is the disk's header; `inum` is checked by none of the modelled
  functions, and a write to inode 0 would change the header fields.
- Files.Refines: of bytes between the end of a file and the end of its last block, and in new blocks beyond the direct ones, which show when the
  file grows, the view in files says nothing; Growth.ExtendedBytes does.
- Budget.Foreseen: for runs without creations, whose success depends on names; Budget.NeedsMet is for all runs.
- Mkyfs.Written: the memory mkyfs gets from malloc is taken to be zero, as its own comment does (samples/mkyfs.c:80); disks for which root directory
  and inode table do not fit are left out.
- Boot.Boot: for at most 32768 inodes, which is what an inode number in a directory entry can name.
