# TocinOS in Dafny

A Dafny 4.11 model of the parts of the TocinOS kernel in which a linked,
bit-packed or block-mapped structure has to agree with something simple: a set
of blocks, a map, a flat array of bytes. Each part is modelled in the form the
kernel has it, as classes with in-place updates and loops, and proved against a
specification about which the promised properties are proved as lemmas.

| module | what it models |
|---|---|
| `BuddyTree`, `Buddy` | the page allocator: blocks as nodes of a binary tree, free lists threaded through page descriptors, splitting and coalescing |
| `Ext2Disk`, `Ext2Bitmap`, `Ext2Map`, `Ext2File`, `Ext2Fs` | the ext2 driver: write-through block cache, block bitmaps with counters, the indirect block map, file reads and writes |
| `Ext2Records`, `Ext2Dir` | variable-length directory records, lookup and insertion |
| `Ext2Example` | the smallest file system of that model: its invariants can be met, and a file on it reads back |
| `Ext4Extents` | the extent tree walk |
| `CacheSpec`, `FsCache` | the file-system page cache: hash chains and an LRU list against a map with a recency order |
| `PageCache`, `PageRuns` | the virtual-memory page cache: entry pool, hash chains, LRU list and frame ownership; its runs as a client sees them |
| `BootMap`, `Pmm` | from the firmware memory map through normalisation to the bitmap page allocator |
| `Sparse`, `Tmpfs` | tmpfs files as sparse lists of blocks against a flat array |
| `VmaList`, `Vma` | the address-space list, first-fit search, merging, unmapping, stack growth |
| `FatChain`, `Vfs` | FAT cluster chains read through VFS descriptors |
| `Line` | Bresenham lines as a trace of points |
| `Checksum` | the Internet checksum (sections 1 and 2 of RFC 1071) and its use in the IPv4 header (section 3.1 of RFC 791) |
| `Links`, `Bytes`, `Arith`, `Options` | lists threaded through pools; bytes, words and bits; quotients and remainders; optional values |

Pointers into static pools are indices, with -1 for NULL; a pool is a sequence
per field. Allocation that may fail is a nondeterministic choice or a parameter.
32-bit arithmetic is written out (`% U32`) wherever a sum can overflow. Where a
promise of the code fails, a lemma gives an input and another the exact condition
under which it holds:

| promise | fails at | holds exactly |
|---|---|---|
| reads of ext2, FAT and tmpfs are clipped at the end of the file | `Bytes.ReadCountExample` | `Bytes.ReadCountExact`, `Tmpfs.ReadClipped`, `Vfs.CountExact` |
| the free-region search is first fit | `VmaList.OverflowExample` | `VmaList.FreeExact` |
| merging areas keeps file offsets | `VmaList.MergeExample` | `VmaList.MergeOffsets` |
| seeks outside the file are refused | `Vfs.SeekExamples` | `Vfs.SeekExact`, `Vfs.SeekAll` |
| a block has room for the pages asked for | `Buddy.OrderExample` | `Buddy.OrderHolds` |
| tmpfs files stay in their size limit | `Tmpfs.LimitExample` | `Tmpfs.LimitExact`, `Tmpfs.Instance.Write` |
| truncated bytes are gone | `Tmpfs.TruncateExample` | `Tmpfs.Instance.Truncate` |
| an ext2 write sets the size of a file | `Ext2Fs.GrowthExample` | `Ext2Fs.GrowthExact` |
| the blocks of an extent are found | `Ext4Extents.HitsExample` | `Ext4Extents.HitsExact` |
| the bytes of an ext2 read or write lie from its offset on | `Ext2Fs.PlaceExample` | `Ext2Fs.PlaceExact` |
| a descriptor moves with its file | `Vfs.FollowsExample` | `Vfs.FollowsExact`, `Vfs.Vfs.Read` |
| unmapping a range takes out the areas in it | `Vma.UnmapsExample` | `Vma.UnmapsExact` |
| normalising the firmware map keeps its memory | `BootMap.KeptExample` | `BootMap.KeptExact` |

Where code and comments disagree the code is followed: `MAX_ORDER` 11 is
commented as 8 MB blocks, but the largest block is 2^10 pages, 4 MiB; the two
searches in an extent node are called binary searches and are linear;
flushing a cached page marks it clean without writing it anywhere.

## Model

| member | source | states |
|---|---|---|
| `BuddyTree.FreeRunIsFreeBlock` | kernel/mm/buddy.c:176-237 | Because frees merge as far as they can, an aligned run of 2^k pages without a live page lies inside one single free block. |
| `BuddyTree.Completeness` | kernel/mm/buddy.c:129-171 | No block of order k or more is free if and only if every aligned run of 2^k pages contains an allocated page. |
| `BuddyTree.Canonicity` | kernel/mm/buddy.c:176-237 | The live allocations alone determine the set of free blocks: two canonical tilings with the same live blocks are equal. |
| `BuddyTree.SplitTiles` | kernel/mm/buddy.c:148-161 | Replacing a block by its two halves, or two buddies by their parent, keeps the blocks tiling the window exactly. |
| `BuddyTree.SplitHeld` | kernel/mm/buddy.c:148-161 | One step of the split loop keeps tiling and canonicity with the left half in hand. |
| `BuddyTree.MergeHeld` | kernel/mm/buddy.c:199-232 | One step of the coalescing loop keeps tiling and canonicity with the merged block in hand. |
| `BuddyTree.UsedPagesAdd` | kernel/mm/buddy.c:163-168 | A live block adds exactly its own 2^k pages to the used pages, which is what the counters count. |
| `BuddyTree.InitialInv` | kernel/mm/buddy.c:109-120 | The 31 top-order blocks of the window 4 MiB to 128 MiB are a canonical tiling with nothing live. |
| `Buddy.BuddyAddress` | kernel/mm/buddy.c:42-46 | From the 4 MiB base, XOR of a block's address with its size is the address of its buddy, for every block below the top order. |
| `Buddy.BlockBytes` | kernel/mm/buddy.c:34-46 | A block is the 2^k pages of bytes from its address on, inside the window, and blocks without a common page share no byte. |
| `Buddy.GetOrder` | kernel/mm/buddy.c:266-276 | The least order whose block holds the size, capped at the top order. |
| `Buddy.OrderHolds` | kernel/mm/buddy.c:242-249 | The order computed for a page count, in 32-bit arithmetic, has room for it if and only if the count is at most 1024. |
| `Buddy.OrderExample` | kernel/mm/buddy.c:242-249 | For 1025 pages the order is the largest, of 1024 pages; for 2^20 + 1 pages it is 0. |
| `Buddy.Allocator.RemoveFromFreeList` | kernel/mm/buddy.c:51-65 | Takes exactly that block off its doubly linked list and out of the free set; links, heads and counts stay exact. |
| `Buddy.Allocator.AddToFreeList` | kernel/mm/buddy.c:70-81 | Puts exactly that block on the list of its order and into the free set. |
| `Buddy.Allocator.constructor` | kernel/mm/buddy.c:15-17 | Static storage before initialisation: not initialised. |
| `Buddy.Allocator.Init` | kernel/mm/buddy.c:86-124 | After the first call everything is free as top-order blocks; later calls change nothing. |
| `Buddy.Allocator.Split` | kernel/mm/buddy.c:148-161 | Carves the block of the wanted order out of a larger one in hand, every right half going on its free list. |
| `Buddy.Allocator.FindList` | kernel/mm/buddy.c:134-142 | Finds the smallest non-empty list that can serve the order; there is none if and only if every aligned run of that order holds a live page. |
| `Buddy.Allocator.Take` | kernel/mm/buddy.c:144-170 | The block returned was not live, overlaps no live page, and becomes live; counters follow. |
| `Buddy.Allocator.Alloc` | kernel/mm/buddy.c:129-171 | Returns 0 if and only if uninitialised, the order is too large, or every aligned run of that order holds a live page; otherwise a fresh block cut from the smallest free block that fits, and the invariant of all states holds again. |
| `Buddy.Allocator.InList` | kernel/mm/buddy.c:207-216 | The walk finds a descriptor if and only if it is on the list. |
| `Buddy.Allocator.Coalesce` | kernel/mm/buddy.c:198-232 | Merges until the buddy is not free: the block in hand has no free buddy below the top order. |
| `Buddy.Allocator.Free` | kernel/mm/buddy.c:176-237 | Removes exactly the given block from the live set and restores the canonical tiling and all counters; calls that name no page change nothing. |
| `Buddy.Allocator.PutBack` | kernel/mm/buddy.c:234-236 | Returns the merged block to its list; the state is canonical again. |
| `Buddy.Allocator.RoundTrip` | kernel/mm/buddy.c:129-237 | Allocating and freeing at once restores the same free blocks, live blocks and counters. |
| `Buddy.Allocator.Run` | kernel/mm/buddy.c:129-237 | Over any run of allocations and frees the free blocks depend only on the blocks held at the end, and when all are given back the allocator is in its initial state. |
| `Buddy.Allocator.AllocPages` | kernel/mm/buddy.c:242-249 | Like Alloc for a page count; the block has room for the request if and only if it is at most 1024 pages. |
| `Buddy.Allocator.FreePages` | kernel/mm/buddy.c:254-261 | Gives back what AllocPages returned for the same count. |
| `Ext2Disk.Device.constructor` | kernel/ext2.c:53-61 | The empty cache is coherent with any disk. |
| `Ext2Disk.Device.Find` | kernel/ext2.c:66-74 | Finds the one entry holding the block if there is one and stamps it as most recently used. |
| `Ext2Disk.Device.GetFree` | kernel/ext2.c:79-100 | An unused entry, or the least recently used one, dropped without write-back; the cache stays coherent. |
| `Ext2Disk.Device.Read` | kernel/ext2.c:132-175 | Whatever the history of hits, misses and evictions, the result is the disk's block; fails if and only if the block is past the end. |
| `Ext2Disk.Device.Write` | kernel/ext2.c:180-210 | Writes through: exactly that block of the disk changes and every cached copy still equals the disk. |
| `Ext2Bitmap.WithBitAt` | kernel/ext2.c:630-632 | Setting or clearing one bit of a bitmap changes that bit and no other. |
| `Ext2Bitmap.BitPlace` | kernel/ext2.c:683-691 | Bit 8 j + b of a bitmap is bit b of byte j, counted from the low end. |
| `Ext2Bitmap.FindClear` | kernel/ext2.c:625-630 | The search that skips 0xFF bytes finds the lowest clear bit, and fails if and only if no bit is clear. |
| `Ext2Bitmap.CountSet` | kernel/ext2.c:630-641 | Taking a clear bit lowers the number of clear bits by one. |
| `Ext2Bitmap.CountClear` | kernel/ext2.c:686-700 | Giving back a set bit raises it by one. |
| `Ext2Bitmap.BlockNoInverse` | kernel/ext2.c:643-668 | The block-number formula of allocation and the division of free are inverse. |
| `Ext2Bitmap.BlockOrder` | kernel/ext2.c:643-646 | Block numbers count up from the first data block through each bitmap and on into the next. |
| `Ext2Bitmap.MarkedUse` | kernel/ext2.c:630-691 | Marking a block used or free changes the state of that block and of no other. |
| `Ext2Bitmap.MarkedCounted` | kernel/ext2.c:639-641 | After an allocation each group counter is again the number of clear bits of its bitmap and the superblock counter their sum. |
| `Ext2Bitmap.UnmarkedCounted` | kernel/ext2.c:698-700 | The same after a free. |
| `Ext2Fs.EveryGroup` | kernel/ext2.c:611-613 | The rounds of the group search, starting at any preferred group, visit every group. |
| `Ext2Fs.FileSystem.AllocBlock` | kernel/ext2.c:603-656 | Returns 0 if and only if the free counter is 0; otherwise a block whose bit was clear, the lowest of its group, in the preferred group if that has one, now marked; counters stay exact. |
| `Ext2Fs.FileSystem.TakeFrom` | kernel/ext2.c:619-648 | In a group whose counter is not zero a clear bit is found and taken. |
| `Ext2Fs.GroupCheck` | kernel/ext2.c:666-672 | In 32-bit arithmetic the group test rejects exactly the numbers outside the groups, and group and index are those of the block. |
| `Ext2Fs.FileSystem.FreeBlock` | kernel/ext2.c:661-703 | Succeeds if and only if the block is not 0 and is marked used, so a second free is refused; then exactly that bit is cleared and counters stay exact. |
| `Ext2Map.PathAddress` | kernel/ext2.c:465-518 | Every block index inside the capacity has a path of pointer indices, and the path leads back to the index. |
| `Ext2Map.AddressPath` | kernel/ext2.c:465-518 | Every path of the direct, single, double and triple trees is the path of exactly one index. |
| `Ext2Map.MapCases` | kernel/ext2.c:465-518 | The walk along the path is the nested pointer lookups of the four cases. |
| `Ext2Map.PointerStored` | kernel/ext2.c:436-453 | A pointer stored in word i of an indirect block is the one read at index i, and the other pointers stay. |
| `Ext2Map.MapSingle` | kernel/ext2.c:474-479 | Word i of the block of slot 12, low byte first, is block 12 + i of the file. |
| `Ext2Map.MapDouble` | kernel/ext2.c:481-494 | With n words to a block, words i and then j, from the block of slot 13 on, lead to block 12 + n + i n + j; a zero on the way is a hole. |
| `Ext2Map.MapTriple` | kernel/ext2.c:496-517 | Words i, j and k, from the block of slot 14 on, lead to block 12 + n + n n + i n n + j n + k; a zero on the way is a hole. |
| `Ext2Map.PastCapacity` | kernel/ext2.c:496-517 | Past the triple indirect tree every lookup gives 0. |
| `Ext2Map.MapFrame` | kernel/ext2.c:465-518 | A lookup depends on the pointer blocks it visits and on nothing else on the disk. |
| `Ext2Fs.FileSystem.ReadIndirect` | kernel/ext2.c:436-453 | The pointer at an index of a block, 0 for block 0, an unreadable block or an index past the block. |
| `Ext2Fs.FileSystem.GetInodeBlock` | kernel/ext2.c:465-518 | Computes the block map: the pointer found along the path of the index. |
| `Bytes.ReadCountExact` | kernel/ext2.c:541-551 | The 32-bit bound check clips a read at the end of the file if and only if offset + size does not overflow or the range lies inside the file. |
| `Bytes.ReadCountExample` | kernel/ext2.c:541-551 | In a file of 100 bytes a read of 2^32 - 10 bytes at 50 is not clipped. |
| `Bytes.LittleEndian` | kernel/ext2.c:452-452 | Words are read low byte first. |
| `Bytes.BitValue` | kernel/ext2.c:630-630 | Bit i of x is the last binary digit of x / 2^i. |
| `Ext2Fs.FileSystem.ReadFile` | kernel/ext2.c:530-594 | Returns the bytes of the file from the offset on, holes as zeros, all that the bound check allows unless a block lies past the device. |
| `Ext2File.OverwriteKeeps` | kernel/ext2.c:760-777 | Writing one mapped block changes that block of the file, no other, keeps the file sound and leaves everybody else's blocks alone. |
| `Ext2File.AddedKeeps` | kernel/ext2.c:738-777 | A new block in a direct slot does the same to a hole. |
| `Ext2File.FilePlace` | kernel/ext2.c:562-588 | Byte k of block i of a file, at position i times the block size plus k, is byte k of the block the map names, and 0 in a hole. |
| `Ext2File.WroteMore` | kernel/ext2.c:726-780 | One more block of a transfer extends the written range byte by byte, in 32-bit positions. |
| `Ext2Fs.FileSystem.NewBlock` | kernel/ext2.c:738-754 | A block for a direct slot; past slot 11 or with no free block nothing is left changed. |
| `Ext2Fs.FileSystem.WriteBlock` | kernel/ext2.c:726-780 | One round: the file block is the old one with the bytes stored, other blocks are unchanged; refused if and only if the block is a hole that cannot be filled. |
| `Ext2Fs.FileSystem.WriteFile` | kernel/ext2.c:716-790 | The n bytes reported are in place, in 32-bit positions, and every other byte of the file is unchanged; fewer than asked only at a hole with no free block or past slot 11; the low size word follows the end of the write in 32 bits, and the size is then the larger of the old size and the true end if and only if GrowthFits; sector count follows; blocks of others are untouched. |
| `Ext2Fs.GrowthExact` | kernel/ext2.c:782-787 | For every end of a write, past 2^32 too: the size set is the larger of old size and end if and only if, below 2^32, there is no high word or the end is inside the low word, and from 2^32 on, the high word is 1, or more and the low word is not raised. |
| `Ext2Fs.GrowthExample` | kernel/ext2.c:782-787 | In a file of 4 GiB and 100 bytes a write that ends at byte 200 raises the size by 100; 32 bytes written at 0xFFFFFFF0 leave a size of 0xFFFFFFF8 as it is. |
| `Ext2Fs.PlaceExact` | kernel/ext2.c:726-728 | Byte k of a transfer lies at position offset + k, for all of its n bytes, if and only if offset + n is at most 2^32. |
| `Ext2Fs.PlaceExample` | kernel/ext2.c:726-728 | Of 32 bytes written at 0xFFFFFFF0 the last 16 land at the start of the file. |
| `Ext2Fs.FileSystem.WriteThenRead` | kernel/ext2.c:530-790 | Reading back the range of a write returns exactly the bytes it reported as written if its end is below 2^32; past that, the same or, from an offset past the size, nothing. |
| `Ext2Fs.OtherFile` | kernel/ext2.c:716-790 | A write changes no byte of any file that shares no block with this one, and that file stays sound and apart. |
| `Ext2Records.AddAtKeeps` | kernel/ext2.c:1355-1378 | Splitting a record, or taking over a dead one, keeps the records tiling the block and adds exactly the new entry. |
| `Ext2Records.ChangedRecord` | kernel/ext2.c:1342-1389 | Seen from the start of the block, the records still tile it and its entries are the old ones with the new one put in. |
| `Ext2Records.SameRecord` | kernel/ext2.c:1344-1353 | A record depends on its own bytes only. |
| `Ext2Records.RecordLayout` | include/kernel/ext2.h:184-190 | Bytes that spell inode number, record length, name length, file type and name are read as that entry. |
| `Ext2Records.RoomExact` | kernel/ext2.c:1344-1352 | There is room if and only if some record of the block is dead and long enough, or live with that much behind its own header and name. |
| `Ext2Records.InsertedFind` | kernel/ext2.c:902-967 | With a new name put in anywhere, it resolves to the new entry and every other name as before. |
| `Ext2Dir.StrNCmp` | kernel/ext2.c:875-885 | 0 if and only if the texts agree up to a NUL. |
| `Ext2Dir.TextEqual` | kernel/ext2.c:943-945 | For a name without NUL that is equality of all characters. |
| `Ext2Dir.FindInBlock` | kernel/ext2.c:934-963 | On any block: the first live entry of that name before a record that does not fit, that record, or nothing. |
| `Ext2Dir.BlocksOfLeast` | kernel/ext2.c:921-933 | The search looks at the least number of blocks that reach the size. |
| `Ext2Dir.FindEntry` | kernel/ext2.c:902-967 | On any inode: the first entry of that name before a hole or a corrupt record; 1 if there is none, -1 for a corrupt record, an unreadable block or an inode that is no directory. |
| `Ext2Records.ScanTiled` | kernel/ext2.c:934-963 | In a block tiled by records a search finds the first entry of that name in the list of its entries and never a corrupt record. |
| `Ext2Dir.DirScanIs` | kernel/ext2.c:902-967 | On a directory without holes the lookup finds the first entry of that name in the list of all its entries. |
| `Ext2Dir.FindRoom` | kernel/ext2.c:1342-1389 | Finds the first record that can give the bytes, and fails if and only if no record of the block can. |
| `Ext2Dir.BlockInsert` | kernel/ext2.c:1355-1385 | Writing the changed block puts exactly one entry into the directory, keeps it a directory and leaves others alone. |
| `Ext2Dir.BlockAppend` | kernel/ext2.c:1394-1429 | So does a new block at the end. |
| `Ext2Dir.Grow` | kernel/ext2.c:1394-1429 | Extends the directory by a block with the entry; fails if and only if no block is free or twelve are in use. |
| `Ext2Dir.AddDirEntry` | kernel/ext2.c:1280-1430 | Adds exactly one entry, records still tiling every block; fails, changing nothing, if and only if no block has room and the directory cannot grow. |
| `Ext2Dir.AddedResolves` | kernel/ext2.c:902-1430 | After an insertion the lookup resolves the new name to the new entry and every other name to what it did before. |
| `Ext4Extents.FindIdx` | kernel/ext2.c:1044-1055 | The last index entry that starts at or before the block. |
| `Ext4Extents.FindExtent` | kernel/ext2.c:1026-1039 | The last extent of the node that passes the 32-bit test; -1 if and only if none does. |
| `Ext4Extents.HitsExact` | kernel/ext2.c:1031-1032 | For every block number the test says whether the extent covers the block if and only if the extent is empty or ends below block 2^32. |
| `Ext4Extents.HitsExample` | kernel/ext2.c:1031-1032 | An extent of the last ten blocks below 2^32 passes the test for no block. |
| `Ext4Extents.Within` | kernel/ext2.c:1060-1102 | In a tree of any depth the extents below an entry lie in its range. |
| `Ext4Extents.SearchFrom` | kernel/ext2.c:1071-1089 | Only the subtree of the last index at or before the block can hold it. |
| `Ext4Extents.ExtentGetBlock` | kernel/ext2.c:1060-1102 | On an ordered tree of any depth, whose subtrees may be unreadable or lack the magic number, the walk ends; if an extent of the flattened list covers the block the result is its start plus the distance from its first block, modulo 2^32, and a result other than 0 means that one does; such subtrees count as holes; 0 without the magic number. |
| `Ext4Extents.FlattenApart` | kernel/ext2.c:1060-1102 | The extents of a tree of any depth follow each other without overlap. |
| `Ext4Extents.SearchBlock` | kernel/ext2.c:1097-1101 | Block k of an extent lies k blocks behind its start. |
| `Ext4Extents.SearchInjective` | kernel/ext2.c:1097-1101 | No two logical blocks of an extent share a physical one. |
| `Ext4Extents.HeaderLayout` | kernel/ext2.c:977-983 | Bytes that spell magic number, entries, room and depth are read as those. |
| `Ext4Extents.ExtentLayout` | kernel/ext2.c:994-999 | Bytes that spell first block, length, high and low part of the start are read as that extent. |
| `Ext4Extents.IndexLayout` | kernel/ext2.c:986-991 | Bytes that spell first block, low and high part of the node below are read as that index, its low 32 bits leading on. |
| `Ext4Extents.NodeRoom` | kernel/ext2.c:977-999 | A node of a given size is well-shaped exactly when its entries fit whole behind the header; the sixty bytes in an inode hold four. |
| `Ext4Extents.BadNode` | kernel/ext2.c:1080-1088 | A node past the device, or one that does not start with the bytes 0A F3, leaves the tree well-formed and contributes no extent. |
| `CacheSpec.RunSafe` | kernel/fs_cache.c:173-407 | After any run of page writes, reads, flushes and invalidations, file flushes and file drops, a page written and not since flushed, invalidated or dropped is cached with its last bytes; a clean one is cached with them or not at all; a dropped one is not cached. |
| `CacheSpec.PageRunSafe` | kernel/fs_cache.c:173-345 | The same for runs of page operations alone, with the representation invariant. |
| `CacheSpec.FlushesKeep` | kernel/fs_cache.c:287-300 | Flushing pages of a file keeps every page and all bytes, and marks no page dirty and none of another file clean. |
| `CacheSpec.InvalidatesKeep` | kernel/fs_cache.c:396-407 | Dropping pages of a file changes no page of another. |
| `CacheSpec.ReadReturns` | kernel/fs_cache.c:173-186 | What a read returns after any such run, in terms of the caller's own history of calls. |
| `CacheSpec.VictimIsLru` | kernel/fs_cache.c:126-168 | The victim is the least recently used page that is clean and not locked. |
| `CacheSpec.MakeRoomKeeps` | kernel/fs_cache.c:126-168 | Making room fails if and only if the cache is full of dirty pages, and drops at most one clean page. |
| `CacheSpec.WriteExact` | kernel/fs_cache.c:191-257 | A write takes place if and only if the page is cached, or memory is left and the cache is not full of dirty pages; it then reads back, and no dirty page is lost for it. |
| `CacheSpec.StepSpares` | kernel/fs_cache.c:126-345 | A page leaves the cache if and only if it is invalidated, or is the least recently used clean page when a new page comes to a full cache; no other page changes. |
| `CacheSpec.RecencyOrder` | kernel/fs_cache.c:28-85 | After any run, file flushes and drops taken as the page operations they come down to, the LRU order is the order of last use. |
| `FsCache.Cache.LruRemove` | kernel/fs_cache.c:28-43 | Unlinks exactly that entry from the LRU list. |
| `FsCache.Cache.LruAdd` | kernel/fs_cache.c:48-59 | Links the entry in at the head. |
| `FsCache.Cache.Lookup` | kernel/fs_cache.c:64-85 | Walks the hash chain to the entry of the key, if the page is cached. |
| `FsCache.Cache.FindEntry` | kernel/fs_cache.c:64-85 | A hit returns the entry of the key and makes it the most recently used. |
| `FsCache.Cache.constructor` | kernel/fs_cache.c:90-121 | Nothing is cached. |
| `FsCache.Cache.FindVictim` | kernel/fs_cache.c:127-132 | Finds the victim of the specification, walking from the tail. |
| `FsCache.Cache.EvictLru` | kernel/fs_cache.c:126-168 | Takes exactly the victim out of chain, list and counters. |
| `FsCache.Cache.HashRemove` | kernel/fs_cache.c:133-149 | Unlinks the entry from its hash chain. |
| `FsCache.Cache.ReadPage` | kernel/fs_cache.c:173-186 | Refines the read of the specification: same result, same new order. |
| `FsCache.Cache.WritePage` | kernel/fs_cache.c:191-257 | Refines the write: succeeds, and changes pages and order, exactly as the specification. |
| `FsCache.Cache.WriteNew` | kernel/fs_cache.c:198-239 | Refines the write of a page that is not cached. |
| `FsCache.Cache.FlushPage` | kernel/fs_cache.c:262-282 | Refines the flush; the page becomes clean and the dirty counter follows. |
| `FsCache.Cache.FlushFile` | kernel/fs_cache.c:287-300 | Flushes every dirty page of the file; none is left. |
| `FsCache.Cache.InvalidatePage` | kernel/fs_cache.c:305-345 | Refines the invalidation; counters stay exact. |
| `FsCache.Cache.DropFile` | kernel/fs_cache.c:396-407 | Drops every page of the file; none is left. |
| `FsCache.Execute` | kernel/fs_cache.c:64-407 | The implementation, driven by any sequence of page calls, file flushes and file drops, stays in step with the specification. |
| `FsCache.FlushSeqRuns` | kernel/fs_cache.c:287-300 | A file flush is the run of the flushes of the pages it visits. |
| `FsCache.InvalidateSeqRuns` | kernel/fs_cache.c:396-407 | A file drop is the run of the invalidations of the pages it visits. |
| `PageCache.FreedAtMostOnce` | kernel/mm/page_cache.c:276-311 | In every reachable state a frame has been freed at most as often as it was handed in, and less often while an entry holds it. |
| `PageCache.Victim` | kernel/mm/page_cache.c:371-398 | The least recently used entry that is not locked, referenced elsewhere or (when shrinking) dirty. |
| `PageCache.EvictLoses` | kernel/mm/page_cache.c:371-398 | If any cached entry is not busy, evicting makes room. |
| `PageCache.EvictDone` | kernel/mm/page_cache.c:375-386 | There is no victim if and only if every entry is locked, referenced elsewhere or, when shrinking, dirty. |
| `PageCache.EvictOldest` | kernel/mm/page_cache.c:371-398 | Evictions go from the least recently used end: an entry older than one that left stays only if it is locked, referenced or, when shrinking, dirty. |
| `PageCache.Cache.constructor` | kernel/mm/page_cache.c:179-208 | Every pool entry is on the free list. |
| `PageCache.Cache.LruTouch` | kernel/mm/page_cache.c:59-86 | Moves the entry to the head; access times stay in LRU order. |
| `PageCache.Cache.LruAdd` | kernel/mm/page_cache.c:91-104 | Links the entry in at the head. |
| `PageCache.Cache.LruRemove` | kernel/mm/page_cache.c:109-126 | Unlinks exactly that entry. |
| `PageCache.Cache.EntryFree` | kernel/mm/page_cache.c:167-172 | Pushes the entry on the free list. |
| `PageCache.Cache.Reserve` | kernel/mm/page_cache.c:133-162 | A free entry is at hand afterwards unless the pool is exhausted and every cached entry is busy. |
| `PageCache.Cache.Lookup` | kernel/mm/page_cache.c:213-230 | Lookup is lookup in a map; a hit becomes the most recently used entry. |
| `PageCache.Cache.Insert` | kernel/mm/page_cache.c:235-271 | NULL, changing nothing, if and only if the key is new, the pool full and every entry busy; a cached key keeps its entry and all frames; a new one gets an entry with the frame, and of the others exactly those that eviction spares keep their entries, keys and frames. |
| `PageCache.EvictKeeps` | kernel/mm/page_cache.c:375-395 | Evictions only take entries away, and never a locked or referenced one, nor a dirty one when shrinking. |
| `PageCache.Cache.Enter` | kernel/mm/page_cache.c:251-270 | Fills one free entry, links it in and maps its key to it; no other entry of the pool changes. |
| `PageCache.Cache.Remove` | kernel/mm/page_cache.c:276-311 | The entry leaves chain, list and map and joins the free list; its frame goes back to the physical allocator if and only if nobody else holds it and it is not 0. |
| `PageCache.Cache.MarkDirty` | kernel/mm/page_cache.c:316-321 | Marks exactly that entry dirty. |
| `PageCache.Cache.AddRef` | kernel/mm/demand.c:131-140 | A mapping takes one more reference on a cached page. |
| `PageCache.Cache.FindVictim` | kernel/mm/page_cache.c:376-387 | Finds the victim, walking from the tail. |
| `PageCache.Cache.Evict` | kernel/mm/page_cache.c:371-398 | Removes victims one after the other, up to the number asked for; every locked or referenced entry stays, and if fewer went, only such are left. |
| `PageCache.Cache.Shrink` | kernel/mm/page_cache.c:454-473 | Every dirty, locked or referenced entry stays, and if fewer went than asked for, only such are left. |
| `PageCache.Cache.InvalidateInode` | kernel/mm/page_cache.c:430-449 | Exactly the pages of the inode leave; the others keep their order. |
| `PageRuns.Run` | kernel/mm/page_cache.c:211-472 | Over any run of insertions, lookups, references, dirty marks, removals, evictions, shrinks and invalidations every result is what the client's own history allows: a page removed or never inserted is not found; one inserted or found is found again with its frame until pages are reclaimed, and then with it or not at all; a shrink loses no page marked dirty; one referenced is found until removed. |
| `PageRuns.Insert` | kernel/mm/page_cache.c:235-271 | One insertion: what was known of every page still holds, and the frame met is the old one or, where the page was not cached, the new one. |
| `PageRuns.Lookup` | kernel/mm/page_cache.c:211-228 | One lookup: what was known of every page still holds and says what is found. |
| `PageRuns.Hold` | kernel/mm/demand.c:121-145 | A lookup that takes a reference: from then on the page is known to stay. |
| `PageRuns.MarkDirty` | kernel/mm/page_cache.c:316-321 | A lookup that marks the page dirty: from then on a shrink cannot lose it. |
| `PageRuns.Remove` | kernel/mm/page_cache.c:276-311 | One removal: that page is gone, the others are as known. |
| `PageRuns.Reclaim` | kernel/mm/page_cache.c:371-472 | An eviction loses no referenced page, a shrink none that is referenced or dirty. |
| `PageRuns.Invalidate` | kernel/mm/page_cache.c:430-449 | The pages of the inode are gone, the others are as known. |
| `PageRuns.InsertFollows` | kernel/mm/page_cache.c:235-271 | An insertion touches no other page but by eviction. |
| `PageRuns.EvictFollows` | kernel/mm/page_cache.c:371-472 | What is known of a page survives evictions, except that a page neither referenced nor, for a shrink, dirty may be gone. |
| `BootMap.Normalised` | boot/uefi/tocinboot.c:653-694 | Unless a descriptor wraps or memory is all of one kind, the normal form puts every address in memory of every kind as often as the firmware map does, is sorted by base and has no two mergeable neighbours. |
| `BootMap.KeptExact` | boot/uefi/tocinboot.c:684-692 | For descriptors in bounds that describe each address once, normalisation keeps the memory if and only if it is not all of one kind. |
| `BootMap.KeptExample` | boot/uefi/tocinboot.c:684-692 | Two halves of memory of one kind are merged to an entry of length 0. |
| `BootMap.CoalesceEither` | boot/uefi/tocinboot.c:684-692 | The merge pass either keeps the memory, sorted and fully merged, or loses the last address of some kind. |
| `BootMap.CanonicalForm` | boot/uefi/tocinboot.c:653-694 | Two firmware maps without overlaps that describe the same memory have the same normal form, however ordered or split. |
| `BootMap.NormalFormUnique` | boot/uefi/tocinboot.c:673-692 | A sorted, disjoint, fully merged map is determined by the memory it describes. |
| `BootMap.Collect` | boot/uefi/tocinboot.c:658-671 | Filters and converts the descriptors; -1 if and only if the nonempty ones exceed the capacity. |
| `BootMap.KindTable` | boot/uefi/tocinboot.c:627-646 | The kinds of the UEFI memory types 0 to 10 and of all others, as numbers. |
| `BootMap.InsertInPlace` | boot/uefi/tocinboot.c:675-682 | Moves one entry into the sorted part. |
| `BootMap.InsertionSort` | boot/uefi/tocinboot.c:673-683 | Sorts the array in place into the insertion sort of its entries. |
| `BootMap.CoalesceInPlace` | boot/uefi/tocinboot.c:685-692 | Compacts the array in place into its merged form. |
| `BootMap.Normalize` | boot/uefi/tocinboot.c:653-694 | The whole function: -1 if and only if the nonempty descriptors exceed the capacity, otherwise the result of the three passes, which is the normal form when no descriptor wraps at 64 bits and memory is not all of one kind. |
| `BootMap.UsableFits` | kernel/bootinfo.c:67-78 | A map that describes every address at most once has a usable total below 2^64. |
| `BootMap.UsableConserved` | boot/uefi/tocinboot.c:653-694 | Normalisation conserves usable memory: its bytes are 4096 times the usable firmware pages. |
| `BootMap.UsableBytes` | kernel/bootinfo.c:67-78 | The 64-bit total of the usable entries. |
| `Pmm.Allocator.constructor` | kernel/mm/pmm.c:14-16 | No page is used and the counter is 0. |
| `Pmm.Allocator.Init` | kernel/mm/pmm.c:21-35 | Exactly the first 2 MiB are used and the counter is exact. |
| `Pmm.Allocator.SetPageUsed` | kernel/mm/pmm.c:132-137 | Marks exactly that page; the counter runs ahead of the used pages by one more if and only if the page was used already. |
| `Pmm.Allocator.ReserveRange` | kernel/mm/pmm.c:42-60 | Marks exactly the pages that share a byte with the range; the counter stays the number of set bits. |
| `Pmm.Allocator.InitFromBootinfo` | kernel/mm/pmm.c:70-96 | Reserves exactly the first 2 MiB, every page touching a non-usable entry and every page of the framebuffer. |
| `Pmm.Allocator.AllocPage` | kernel/mm/pmm.c:101-113 | The lowest free page, now used; 0 if and only if there is none. |
| `Pmm.Allocator.FreePage` | kernel/mm/pmm.c:118-127 | Clears exactly that page and keeps the counter exact; freeing a free page changes nothing, freeing a reserved page gives up its reservation, and only page 0 must not be freed. |
| `Pmm.Allocator.Run` | kernel/mm/pmm.c:101-127 | Over any run in which callers free only pages they hold, every page handed out is aligned, in memory and not reserved. |
| `Pmm.NotForbiddenIsSafe` | kernel/mm/pmm.c:70-96 | A page that is not reserved has no byte in a non-usable firmware descriptor or in the framebuffer. |
| `Pmm.Boot` | kernel/mm/pmm.c:21-127 | From firmware map to allocator: after normalising, initialising and any run, nothing handed out overlaps non-usable memory or the framebuffer, and the usable total is the firmware's, modulo 2^64 only if the map describes an address twice. |
| `Tmpfs.Instance.constructor` | kernel/fs/tmpfs.c:625-657 | An empty instance: nothing used. |
| `Tmpfs.Instance.CreateInode` | kernel/fs/tmpfs.c:156-177 | A new, empty file, or NULL and no change when allocation fails; in every state. |
| `Tmpfs.Instance.FreeInode` | kernel/fs/tmpfs.c:182-201 | Gives back every data block of a file and none of another inode; the used size stays 4096 times the allocated blocks and other files are unchanged. |
| `Tmpfs.Instance.NextOrNew` | kernel/fs/tmpfs.c:417-460 | The next node of the list, created at its end unless allocation fails. |
| `Tmpfs.Instance.StoreChunk` | kernel/fs/tmpfs.c:433-446 | Stores bytes into one block, allocating it zeroed on first use; the used size stays exact. |
| `Tmpfs.Instance.WalkTo` | kernel/fs/tmpfs.c:411-429 | Reaches the block of the offset; no byte of the file changes. |
| `Tmpfs.Instance.WriteFrom` | kernel/fs/tmpfs.c:431-461 | The copy loop writes a prefix of the buffer at its place and nothing else. |
| `Tmpfs.Instance.WriteChunk` | kernel/fs/tmpfs.c:433-448 | One block's worth of the copy: the bytes written so far are extended by exactly what fits, or allocation fails. |
| `Tmpfs.Instance.Advance` | kernel/fs/tmpfs.c:451-460 | Moves to the following node; no byte of the file changes. |
| `Tmpfs.Instance.Write` | kernel/fs/tmpfs.c:386-470 | In every state, for every offset and size: the bytes of the file change exactly in the n bytes written, and the size is the larger of the old one and the 32-bit end; refused exactly for directories, or when the 32-bit end is past the size limit or without space; other files are unchanged; a valid instance stays valid if and only if the new size is in the limit and no byte other than 0 was written behind it, as always when the end does not wrap. |
| `Tmpfs.Instance.Put` | kernel/fs/tmpfs.c:398-470 | The write past the refusals: the bytes in place, the size the 32-bit end, the list reaching it, and exactly when a file in order stays so. |
| `Tmpfs.LimitExact` | kernel/fs/tmpfs.c:392-395 | The limit test is right if and only if offset + size is not from 2^32 to 2^32 plus 1 MiB. |
| `Tmpfs.LimitExample` | kernel/fs/tmpfs.c:392-395 | Two pages at 0xFFFFF000 pass the limit test, and whatever part of them is stored the file is not sound if the bytes are not 0. |
| `Tmpfs.ShortExact` | kernel/fs/tmpfs.c:397-406 | The space test refuses if and only if the file must grow and no number of blocks that reaches the end fits beside the used size. |
| `Tmpfs.RoundUpLeast` | kernel/fs/tmpfs.c:398-399 | Rounding up gives the least whole number of blocks that holds the size. |
| `Tmpfs.Instance.Read` | kernel/fs/tmpfs.c:334-381 | Returns the slice of the flat array; the count is what the 32-bit bound check and the list allow. |
| `Tmpfs.ReadClipped` | kernel/fs/tmpfs.c:340-347 | That count is the number of bytes before the end of the file if and only if offset + size does not overflow, lies inside the file or past it, or the list ends with the file. |
| `Tmpfs.Instance.Truncate` | kernel/fs/tmpfs.c:475-520 | In every state: keeps every byte up to the end of the last block kept and sets the size; the list reaches the size if and only if it did before; a valid instance stays valid if and only if moreover there were only zeros from the size to the end of the block, as for size 0. |
| `Tmpfs.TruncatedBytes` | kernel/fs/tmpfs.c:487-505 | Keeping the blocks that reach the size keeps the bytes up to the end of the last one and makes all others 0. |
| `Tmpfs.TailIff` | kernel/fs/tmpfs.c:487-505 | What is kept is zero behind the size if and only if the old bytes from there to the end of the block were. |
| `Tmpfs.TruncateExample` | kernel/fs/tmpfs.c:475-520 | Truncated to 5 bytes and then written at 9, a file shows its old byte 6 again. |
| `Tmpfs.Instance.Run` | kernel/fs/tmpfs.c:334-520 | Over any run of writes, reads and truncations to 0 on any files, wrapping or not: a file is a byte at every position and a 32-bit size; every write stores a prefix of its bytes there, every read returns the bytes there, to the end of the file and past it only when its own end wraps; the instance stays valid while no write wraps. |
| `Tmpfs.Instance.ZeroPast` | kernel/fs/tmpfs.c:386-470 | In a valid instance a file is a flat array: its bytes past the size are 0. |
| `Tmpfs.ReadBounds` | kernel/fs/tmpfs.c:340-347 | A read returns what lies before the end of the file, and more, up to what was asked, only when its end wraps. |
| `Tmpfs.Instance.PerformWrite` | kernel/fs/tmpfs.c:386-470 | One write of such a run: that file changes, at the offset, by the bytes reported, and takes the 32-bit end as size if larger. |
| `Tmpfs.Instance.PerformRead` | kernel/fs/tmpfs.c:334-381 | One read: the bytes of the file from the offset on, as many as ReadBounds says. |
| `Tmpfs.Instance.PerformClear` | kernel/fs/tmpfs.c:475-520 | One truncation to 0: that file is all zeros of size 0, the others as before. |
| `VmaList.ClashIsOverlap` | kernel/mm/vma.c:194-206 | In a sorted list looking at the two neighbours sees an overlap with any area. |
| `VmaList.InsertSorted` | kernel/mm/vma.c:173-228 | An accepted insertion keeps the list sorted, aligned and disjoint. |
| `VmaList.InsertMaps` | kernel/mm/vma.c:173-228 | It maps the new area and changes the mapping of no other address. |
| `VmaList.RemoveMaps` | kernel/mm/vma.c:233-253 | A removal unmaps that area and changes no other address. |
| `VmaList.MergeMaps` | kernel/mm/vma.c:258-305 | Joining two mergeable neighbours keeps the (flags, fd) of every address. |
| `VmaList.MergeOffsets` | kernel/mm/vma.c:263-288 | File offsets, 32-bit sums which the merge test does not look at, survive a merge if and only if the parts were adjacent in the file, modulo 2^32. |
| `VmaList.MergeExample` | kernel/mm/vma.c:263-288 | Two pages of a file, mapped in reverse order, pass the merge test; merged, the second shows file offset 0x2000 and not 0. |
| `VmaList.UnmapMaps` | kernel/mm/vma.c:598-642 | Unmapping unmaps the areas inside the range as a whole and changes nothing else. |
| `VmaList.GrowSorted` | kernel/mm/demand.c:223-241 | A fault in the page below a stack, in no area, leaves room for it: the grown list is sorted and contains the address. |
| `VmaList.FreeLeast` | kernel/mm/vma.c:493-516 | If some place fits, the search returns the least one. |
| `VmaList.FreeExact` | kernel/mm/vma.c:493-516 | The search is first fit if and only if a place fits or no 32-bit sum overflows. |
| `VmaList.OverflowExample` | kernel/mm/vma.c:513-515 | A request for 3 GiB from the default base overflows: it fits nowhere, yet the base is returned. |
| `Vma.AddressSpace.constructor` | kernel/mm/vma.c:36-56 | An empty list and a pool of free areas. |
| `Vma.AddressSpace.Create` | kernel/mm/vma.c:102-119 | A proper area from the pool, in no list; NULL if and only if the range is improper or the pool is empty. |
| `Vma.AddressSpace.Free` | kernel/mm/vma.c:90-95 | The area goes back to the pool and the list is unchanged. |
| `Vma.AddressSpace.Find` | kernel/mm/vma.c:137-148 | The area that contains the address, if any does. |
| `Vma.AddressSpace.FindNearest` | kernel/mm/vma.c:153-168 | The first area that ends after the address. |
| `Vma.AddressSpace.FindFreeRegion` | kernel/mm/vma.c:493-516 | Computes the 32-bit search that FreeExact characterises. |
| `Vma.AddressSpace.FindPlace` | kernel/mm/vma.c:185-192 | Where an area with that start belongs. |
| `Vma.AddressSpace.Insert` | kernel/mm/vma.c:173-228 | Refuses if and only if the new area overlaps one in the list; otherwise the list with it put in its place, links and count exact. |
| `Vma.AddressSpace.Remove` | kernel/mm/vma.c:233-253 | The list without that area, links and count exact. |
| `Vma.AddressSpace.Absorb` | kernel/mm/vma.c:269-281 | One merge: the two areas become one, the second goes back to the pool. |
| `Vma.AddressSpace.Merge` | kernel/mm/vma.c:258-305 | Merges with the mergeable neighbours; count and links follow. |
| `Vma.MergedIs` | kernel/mm/vma.c:258-305 | The area is joined with each neighbour that touches it with the same flags and descriptor, with no other, and nothing else changes. |
| `Vma.MergedMaps` | kernel/mm/vma.c:258-305 | After vma_merge the list is sorted and every address is mapped as before. |
| `Vma.AddressSpace.Mmap` | kernel/mm/vma.c:521-593 | Fails, changing nothing, exactly under the stated conditions; otherwise the list with the new area, its flags made from prot and flags, at the address decided on; without a fixed address user space stays below the kernel base, with one if and only if the area ends below it. |
| `Vma.VmFlagsMean` | kernel/mm/vma.c:551-567 | Bit by bit, which request sets which flag of the area. |
| `Vma.MapBits` | include/kernel/memory.h:365-366 | The fixed and the anonymous request are bits 0x10 and 0x20. |
| `Vma.RoundUpLeast` | kernel/mm/vma.c:532-532 | The rounded length is the least whole number of pages that holds it; within a page of 2^32 it is 0. |
| `Vma.PageOfGreatest` | kernel/mm/vma.c:603-603 | The page of an address starts at the greatest multiple of the page size not above it. |
| `Vma.AddressSpace.MapAt` | kernel/mm/vma.c:569-580 | The area is created and inserted unless it is improper, overlaps or the pool is empty. |
| `Vma.MmapFindsGap` | kernel/mm/vma.c:521-593 | Without a fixed address a request succeeds if and only if some gap fits, and then at or below it; the overflow of the search does no harm here. |
| `Vma.AddressSpace.Munmap` | kernel/mm/vma.c:598-642 | An area goes if and only if it begins in the range and every page of it holds a byte of the range, and the end of the range does not wrap; all others are left as they were, in order. |
| `Vma.UnmapsExact` | kernel/mm/vma.c:603-630 | The 32-bit test on the rounded range selects exactly those areas. |
| `Vma.UnmapsExample` | kernel/mm/vma.c:603-630 | Unmapping 3 GiB from 1 GiB on wraps and takes out no area. |
| `Vma.AddressSpace.UnmapOne` | kernel/mm/vma.c:610-637 | One area: removed if and only if it lies inside the range. |
| `Vma.AddressSpace.StackGrowth` | kernel/mm/demand.c:223-241 | The stack grows by one page exactly for a fault in the page below it; the list stays sorted and linked. |
| `Vma.AddressSpace.Fault` | kernel/mm/demand.c:324-352 | A fault changes the list only by growing a stack, if and only if no area contains the address and some area, the first that ends behind it, is a stack starting in the next page; in an area it is refused if and only if the permissions deny it, outside one it is handled only by growing. |
| `Vma.DeniedMeans` | kernel/mm/demand.c:341-352 | In an area made by mmap a write needs PROT_WRITE, and a user access any of the three protection bits. |
| `Vma.StackMeans` | kernel/mm/vma.c:561-561 | A stack is an area with flag 0x800, which mmap gives exactly to requests with bit 0x400. |
| `FatChain.ChainDistinct` | kernel/fat.c:216-268 | A cluster chain that ends has no cluster twice. |
| `FatChain.ChainUnique` | kernel/fat.c:216-268 | The table determines the chain of a first cluster. |
| `FatChain.TableEntry32` | kernel/fat.c:255-268 | Entry c of a FAT32 table is the word at byte 4 c of the table, of which the low 28 bits count. |
| `FatChain.TableEntry16` | kernel/fat.c:243-254 | Entry c of a FAT16 table is the word at byte 2 c of the table. |
| `FatChain.ClusterPlace` | kernel/fat.c:205-211 | Cluster 2 begins at the start of the data, and each later one right behind the one before. |
| `FatChain.ByteFlat` | kernel/fat.c:434-452 | Byte off of the i-th cluster of a file is the byte that far behind the first sector of that cluster. |
| `FatChain.ContentSplit` | kernel/fat.c:418-462 | Two adjacent slices of a file make one slice. |
| `FatChain.SectorPiece` | kernel/fat.c:439-452 | A piece inside a sector of a cluster is that piece of the file. |
| `FatChain.Advance` | kernel/fat.c:454-458 | Moving to the next cluster at its end, and only then, matches the position. |
| `Vfs.ReadRound` | kernel/fat.c:434-459 | One round of the read loop returns the bytes at the position and keeps the cursor on its cluster. |
| `Vfs.Vfs.FatRead` | kernel/fat.c:418-462 | Returns the slice at the position as far as bound check and chain go; the cursor matches the new position. |
| `Vfs.Vfs.FatSeek` | kernel/fat.c:477-500 | The position clipped to the size, and the cursor on the cluster that holds it. |
| `Vfs.Vfs.constructor` | kernel/vfs.c:64-103 | No descriptor is open; 0, 1 and 2 are reserved. |
| `Vfs.Vfs.AllocFd` | kernel/vfs.c:234-244 | The lowest descriptor whose bit is clear, -1 if and only if none is. |
| `Vfs.Vfs.FreeFd` | kernel/vfs.c:249-255 | Clears exactly that bit. |
| `Vfs.Vfs.Open` | kernel/vfs.c:311-347 | A descriptor that was not open, at position 0; fails if and only if the file is not found or all are open. |
| `Vfs.Vfs.Close` | kernel/vfs.c:352-379 | Closes exactly that descriptor; refused if and only if it is not open. |
| `Vfs.Vfs.Read` | kernel/vfs.c:384-441 | Returns the slice at the file's position, with its length as an int; the file's position moves behind it, the descriptor's only for a positive count, so the two agree afterwards if and only if they did before and the count is below 2^31; other descriptors are unchanged; -1, changing nothing, if the descriptor is not open. |
| `Vfs.FollowsExact` | kernel/vfs.c:433-439 | The count of a read is below 2^31 if and only if the request is, or the rest of the chain, or the rest of the file and the request does not wrap. |
| `Vfs.FollowsExample` | kernel/vfs.c:433-439 | A read of 2^31 bytes from the start of a file of 0x90000000 bytes returns them all, a negative int, and leaves the descriptor behind. |
| `Vfs.Vfs.Seek` | kernel/vfs.c:482-523 | Moves descriptor and file to the target, counted from the descriptor's position where asked and computed in 32 bits, and returns it as an int; refused, changing nothing, exactly past the end of the file, for an unknown base or a descriptor that is not open. |
| `Vfs.SeekExact` | kernel/vfs.c:496-516 | For each of the three bases: seeks of every int offset are accepted exactly inside the file if and only if the base is at most 2^31 and the size less than 2^31 past it. |
| `Vfs.SeekCall` | kernel/vfs.c:496-516 | For one offset: the 32-bit test is right if and only if the true target is a 32-bit number or its remainder is past the end. |
| `Vfs.SeekMeans` | kernel/vfs.c:496-507 | Counted from the start, from the position or back from the end, the target is the place meant. |
| `Vfs.SeekAll` | kernel/vfs.c:496-516 | All seeks are right if and only if the size is below 2^31 and the position at most 2^31. |
| `Vfs.SeekExamples` | kernel/vfs.c:496-516 | A seek before the start of a file of 0x90000000 bytes is accepted, and one past its end from position 0xFFFFF000, where a read of 2^31 bytes at the last byte ends with the descriptor in step. |
| `Vfs.Vfs.ReadAll` | kernel/vfs.c:384-441 | Any way of splitting reads yields one slice of the file; it is all that was asked for, clipped at the end of the file, if and only if at every read the sum in 32 bits does not wrap, the position is past the end or the chain ends with the file; with requests below 2^31 the descriptor stays in step. |
| `Vfs.CountExact` | kernel/fat.c:418-432 | The count of one read is the clipped one if and only if that holds; otherwise the read goes on to the end of the chain. |
| `Line.DrawLine` | kernel/drivers/vesa_driver.c:151-179 | For all endpoints on whose line no int computation overflows: exactly max(dx, dy) + 1 points from first to last, each within half a pixel of the ideal line. |
| `Line.ShortFits` | kernel/drivers/vesa_driver.c:151-179 | No computation overflows if 2 abs(dx - dy) + max(dx, dy) fits an int and 3 max(dx, dy) twice an int. |
| `Line.HorizontalFits` | kernel/drivers/vesa_driver.c:151-179 | On a horizontal line no computation overflows if and only if 2 dx fits an int. |
| `Line.Step` | kernel/drivers/vesa_driver.c:151-179 | One pass keeps the deviation abs(2(b dx - a dy)) within max(dx, dy) and always steps along the longer axis. |
| `Line.Shorter` | kernel/drivers/vesa_driver.c:151-179 | Both axes run out together. |
| `Checksum.FoldValue` | kernel/tcpip.c:84-86 | Folding ends and keeps the sum modulo 65535, distinguishing zero. |
| `Checksum.ZeroIff` | kernel/tcpip.c:174-177 | A block verifies to 0 if and only if its words sum to a nonzero multiple of 65535. |
| `Checksum.IpChecksum` | kernel/tcpip.c:71-89 | The loops compute the one's complement of the folded sum; the 32-bit accumulator does not overflow. |
| `Checksum.SumWords` | kernel/tcpip.c:76-83 | The sum adds up word by word, low byte first; an odd last byte counts as if a zero followed. |
| `Checksum.FilledVerifies` | kernel/tcpip.c:141-142 | A header filled with its own checksum verifies to 0. |
| `Checksum.OneWordError` | kernel/tcpip.c:174-177 | Overwriting one word of a verifying block goes unnoticed if and only if 0x0000 and 0xFFFF are exchanged. |
| `Checksum.ByteOrderIndependent` | kernel/tcpip.c:71-89 | The little-endian result stored back is the network-order checksum of RFC 1071. |
| `Checksum.HtonlInverse` | kernel/tcpip.c:220-229 | Conversion to network order and back is the identity. |
| `Checksum.HtonlBytes` | kernel/tcpip.c:220-225 | In network order the high byte of a word comes first. |
| `Checksum.SentIsDelivered` | kernel/tcpip.c:125-207 | What ip_send builds for ICMP, TCP or UDP, ip_receive delivers with the same addresses, protocol and length at its destination; other protocols are accepted and passed to nobody; elsewhere the packet is dropped. |
| `Checksum.DamagedIsDropped` | kernel/tcpip.c:166-177 | A sent packet with one word of its header overwritten is dropped everywhere, unless 0x0000 and 0xFFFF were exchanged. |
| `Checksum.ShortIsDropped` | kernel/tcpip.c:166-169 | A packet too short for a header is dropped. |

## Left out

- Pmm.Allocator.FreePage: addresses from 128 MiB on, which index past the bitmap, are not modelled.
- Pmm.Allocator.SetPageUsed: page numbers past the bitmap are not modelled.
- Buddy.Allocator.Free: frees name a live block with the order it was allocated with; the kernel trusts its callers there.
- Buddy.Allocator.FreePages: the same, for the page count it was allocated with.
- Ext2Fs.FileSystem.FreeBlock: callers do not free a bitmap block or a number past the device.
- Ext2Fs.FileSystem.ReadFile: block I/O inside the device succeeds, partial I/O failures are not modelled; the count is a number, negative as a C int from 2^31 on, as for WriteFile.
- Ext2Disk.Device.Read: the 32-bit wrap of the sector number is not modelled: a block number past the device is refused here, while from 2^32 sectors on the driver would read another block.
- Ext2Disk.Device.Write: the same.
- Ext2Fs.FileSystem.WriteFile: takes a sound file (its blocks marked used, data apart from pointers, no block twice); writing the inode back to the inode table is not modelled.
- Mounting: the ext2 model starts from a file system whose counters, bitmaps and layout agree.
- Ext2Dir.AddDirEntry: directories without holes, whole blocks long, names up to 255 bytes; writing the inode back is not modelled.
- Ext4Extents.ExtentGetBlock: trees with ordered keys whose extents end below logical block 2^32 - 1; on a tree whose depth fields do not fall the loop need not end.
- Ext2Dir.FindEntry: directories below 2^32 bytes by a block, with the names it compares inside their blocks; the kernel does not check the latter.
- Vma.AddressSpace.Mmap: MAP_LOCKED prefaulting is left out.
- Vma.AddressSpace.Munmap: the list effect; unmapping and freeing the pages is left out, and areas that stick out of the range stay, as the kernel does not split them.
- Vma.AddressSpace.Fault: whether demand paging inside an area the permissions allow ends in success or out of memory is left open, as is a failure to map the page of a grown stack.
- Tmpfs.Instance.Write: the count is a number, negative as a C int from 2^31 on; the used size is a number, its 32-bit wrap-around is not modelled.
- Tmpfs.Instance.Truncate: the kernel calls it with size 0 only; other sizes are stated with their exact condition.
- Vfs.Vfs.FatRead: FAT16 and FAT32 chains whose capacity is below 4 GiB, on a volume all of whose chain is on the device.
- Vfs.Vfs.Open: what the root directory search finds is a parameter.
- Vfs.Vfs.Read: keyboard input on descriptor 0 is left out.
- Line.DrawLine: endpoints on whose line an int computation overflows, which C leaves undefined.
- BootMap.Normalize: descriptors come as a sequence, decoding the firmware's descriptor stride is left out; what the map says when a descriptor wraps at 64 bits is not stated.
- FsCache.Cache.WritePage: whole pages; there is no write-back to disk in the kernel to model, and timestamps are left out.
- Access counters, reference counts, LRU clocks and statistics are unbounded numbers: their 32-bit wrap-around is not modelled.
- One mounted file system, one tmpfs instance and one address space: pools and caches shared between several are not modelled.
- JBD2 journaling, inode allocation, path resolution, `ext2_read_dir`, `ext2_create` and `ext2_sync`.
- `total_vm`, `sys_brk`, `sys_mprotect` and `mm_clone` in kernel/mm/vma.c; copy-on-write and swapping in kernel/mm/demand.c.
- tmpfs directories and link counts; FAT12 entries; mount-point matching in the VFS.
- Page-cache synchronisation to files, the slab allocator, the scheduler, processes, IPC, ELF loading, drivers, shells and user programs.
