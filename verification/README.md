# Verified model of the LemonShark kernel's memory and storage core

This project models, in Dafny, the parts of the LemonShark RISC-V kernel that manage memory and disk space, and
proves what they promise over whole runs:

- the **free-list heap allocator** (`HeapTiles`, `FreeList`): an address-ordered, intrusive free list with
  four-way splitting and four-way coalescing. `FreeList` is the pointer-manipulating code over word memory;
  `HeapTiles` is the heap it stands for, a sequence of contiguous free and live tiles;
- **LemonFS**: little-endian codecs and on-disk records (`Codec`, `Records`), the disk layout (`Layouts`), inode
  table and bitmap regions (`Disks`), the superblock (`Superblocks`), the write-back inode cache (`InodeCaches`), the
  filesystem object (`Filesystems`, `Mounts`, `DirReaders`), and the bytes it leaves on the device (`Images`). Device,
  bitmaps and cache stand for a volume of inodes and data blocks (`Volumes`), and the volume for a tree of directories
  and file contents (`Trees`, `Views`); every operation is specified by what it does to that tree;
- **physical and virtual memory**: range normalization and subtraction (`PhysicalRanges`), the bitmap-backed frame
  allocator (`FrameAllocator`), Sv39 page tables (`PageTables`) and the boot mapping (`PageTableInit`);
- the **bitmap** that the last two share (`Bitmaps`), over bit operations on mathematical integers (`Bits`).

`Guards` and `Options` are small helpers. `dafny verify dfyconfig.toml` verifies everything.

## Findings

- `Layout::new` can run for ever (filesystem/src/layout.rs:118-159). With r blocks left after the superblock, the
  inode bitmap and the inode table, its search stops exactly when r < 2 or r mod 4097 is not 1
  (`Layouts.SearchTerminatesIff`). With the 4096 inodes that formatting uses, 4686 is the smallest device it never
  returns on (`Layouts.SmallestUnsupportedDevice`). Mounting can run into the same search: a superblock for that
  device passes every check that precedes it (`Superblocks.ValidationCanHang`).
- `alloc` rounds the requested size up to 8 but `init` does not round the heap
  (allocator/src/lib.rs:133-151, 233-235), so a heap whose size is not a multiple of 8 turns away requests that would
  fit, and no other heap does (`HeapTiles.FreshHeapTurnsAwayIff`, `HeapTiles.UnroundedRequest`).
- Creating and resolving take paths apart differently (filesystem/src/filesystem.rs:536-538, 665): a path that was
  just created resolves exactly when it contains a slash and does not end in one (`Trees.CreateResolvesIff`).
- A comment in filesystem/src/dir_entry.rs:11 says that the block size is a multiple of the size of a directory
  entry. It is not (512 and 28): entries are written at byte `size % 512` but read 18 to a block. The next entry fits
  into its block exactly while the directory holds fewer than 18 (`Views.EntryFitsIff`); writing a 19th panics, and a
  fresh filesystem gets there by sixteen creates (`Mounts.FullDirectoryIsReachable`). The model follows the code.
- The branch of `remove_dir_entry` that gives back the parent's last block (filesystem/src/filesystem.rs:623-637) is
  unreachable while directories hold at most 18 entries, because the two dot entries are never removed.
- Boot identity-maps every managed frame (src/page_table.rs:49-62), but Sv39 accepts only sign-extended 39-bit
  addresses: a frame can be reached at its own address exactly when it lies below 2^38 (`PageTableInit.BootKernel`).
  Nothing in the boot sequence keeps RAM below that (`PageTableInit.HighFramesBoot`).

## Model

| member | source | states |
|---|---|---|
| `FreeList.FreeListAllocator.Init` | allocator/src/lib.rs:133-151 | the heap becomes one free block, at the aligned start, of the size the source gives it; nothing outside the heap is written |
| `FreeList.FreeListAllocator.Alloc` | allocator/src/lib.rs:233-328 | in the caller's terms: the least multiple of the alignment asked for and of 8 with the 16 bytes before it and the rounded size free, null exactly when there is none; one tile goes from free to live and nothing else changes; writes only free memory |
| `FreeList.FreeListAllocator.Dealloc` | allocator/src/lib.rs:335-406 | reads back the start and size its `alloc` stored; all bytes of that tile become free, no other tile changes, neighbours are merged; writes only memory that is free afterwards |
| `FreeList.FreeListAllocator.ClientWrite` | allocator/src/lib.rs:44-58 | an arbitrary client write inside a live payload leaves list, headers and tiles intact |
| `FreeList.FreeListAllocator.Used` | allocator/src/lib.rs:157-170 | `used` is exactly the sum of the live extents |
| `FreeList.FreeListAllocator.Stats` | allocator/src/lib.rs:183-203 | free bytes are the bytes that are free, used bytes all others; number and largest of the free blocks are those of the tiles |
| `FreeList.SumFreeCounts` | allocator/src/lib.rs:161-170 | the bytes counted as free are, as a set, the free bytes of the heap |
| `FreeList.CountsMean` | allocator/src/lib.rs:183-203 | the number of free blocks, and the largest, which is at least as large as any and the size of one |
| `FreeList.AlignUpIsUp` | allocator/src/lib.rs:7-13 | the bit-mask `align_up` is the least multiple at or above the address, for every power of two |
| `FreeList.AllocSparesLive` | allocator/src/lib.rs:243-315 | no word of another allocation's header or payload changes in `alloc` |
| `FreeList.DeallocSparesLive` | allocator/src/lib.rs:335-406 | no word of another allocation's header or payload changes in `dealloc` |
| `HeapTiles.AllocKeepsInv` | allocator/src/lib.rs:243-312 | carving keeps the tiling: contiguous, 8-aligned, blocks of at least 24 bytes, no two free ones touching |
| `HeapTiles.AllocTakes` | allocator/src/lib.rs:243-312 | the tile taken holds 16 bytes of header, the payload and fewer than 24 bytes more on either side; no other byte changes hands |
| `HeapTiles.DeallocKeepsInv` | allocator/src/lib.rs:352-405 | releasing keeps the tiling, whichever neighbours are merged |
| `HeapTiles.DeallocReturns` | allocator/src/lib.rs:335-406 | exactly the bytes of the released tile become free; all other live tiles stay |
| `HeapTiles.AllocIsLeast` | allocator/src/lib.rs:69-85 | the address returned is the least aligned one whose header and payload lie in free memory |
| `HeapTiles.AllocFailsIffImpossible` | allocator/src/lib.rs:205-220 | null exactly when no such address exists anywhere in the heap |
| `HeapTiles.UnroundedRequest` | allocator/src/lib.rs:233-235 | with heap bounds that are multiples of 8 both hold for the size as requested, not only as rounded |
| `HeapTiles.FreshHeapTurnsAwayIff` | allocator/src/lib.rs:133-151 | a fresh heap turns away a request whose bytes are free exactly when its size is not a multiple of 8 |
| `HeapTiles.DeallocUndoesAlloc` | allocator/src/lib.rs:256-312 | `dealloc` right after `alloc` restores the tiles exactly, in all four split cases |
| `HeapTiles.DrainRestoresInitial` | allocator/src/lib.rs:335-406 | freeing all live allocations of any run, in any order, restores the one initial block |
| `HeapTiles.RunKeepsInv` | allocator/src/lib.rs:233-406 | the invariant holds after every legal run of allocations and releases |
| `HeapTiles.SumsTile` | allocator/src/lib.rs:157-170 | free and live bytes add up to the heap |
| `HeapTiles.ChainDisjoint` | allocator/src/lib.rs:119-151 | tiles ascend strictly and are pairwise disjoint |
| `HeapTiles.TileAt` | allocator/src/lib.rs:119-151 | every address of the heap lies in some tile |
| `HeapTiles.TilingIsCanonical` | allocator/src/lib.rs:119-151 | free bytes and live tiles determine the whole tiling, so what `alloc` and `dealloc` say of them fixes the new heap |
| `Filesystems.Filesystem.BitmapsMean` | filesystem/src/filesystem.rs:375-381 | between calls an inode bit is set exactly for the root and what exactly one non-dot entry names, a data bit exactly for a block that one slot of one allocated inode holds |
| `Volumes.OwnedMeans` | filesystem/src/filesystem.rs:754-765 | the ownership invariant, spelled out without its ghost owner map |
| `Volumes.ExtendKeepsOwned` | filesystem/src/filesystem.rs:851-885 | writing at the end of an inode, in its last block or a fresh one, keeps ownership and the prefix of used slots |
| `Volumes.ExtendAppends` | filesystem/src/inode.rs:48-57 | the inode's bytes grow by exactly the chunk written |
| `Volumes.ExtendSparesOthers` | filesystem/src/filesystem.rs:872-881 | no other inode's bytes change |
| `Volumes.ExtendTakes` | filesystem/src/filesystem.rs:851-881 | writing at the end takes as many blocks as the new bytes need |
| `Volumes.DropNodeKeepsOwned` | filesystem/src/filesystem.rs:642-652 | freeing an inode with all its blocks keeps ownership |
| `Volumes.DropReturns` | filesystem/src/filesystem.rs:642-652 | freeing an inode returns as many blocks as its bytes took |
| `Volumes.BlocksConserved` | filesystem/src/filesystem.rs:845-881 | blocks in use are exactly as many as the bytes of all inodes take |
| `Filesystems.Filesystem.WriteAtEnd` | filesystem/src/filesystem.rs:851-881 | one block's worth of an append: takes the lowest free block only at a block boundary, fails only when no block is free and then changes nothing |
| `Filesystems.Filesystem.AppendToFile` | filesystem/src/filesystem.rs:833-888 | the file becomes old ++ new and nothing else in the tree changes, exactly when it stays within 8192 bytes and there are as many free blocks as the new bytes need; else old ++ the prefix up to the block boundary at which the device is full; every other error leaves the volume as it was |
| `Filesystems.Filesystem.ReadFile` | filesystem/src/filesystem.rs:890-916 | returns exactly the bytes of the file the path resolves to, or the error resolution gives |
| `Filesystems.Filesystem.NewDirEntry` | filesystem/src/filesystem.rs:663-739 | which error comes exactly when; on success the lowest free inode is entered in the parent as an empty file or a directory of its dots and nothing else changes; the new path resolves to it, and older paths resolve as before |
| `Filesystems.Filesystem.WriteDirEntry` | filesystem/src/filesystem.rs:745-776 | pushes the entry's bytes onto the directory, or says which of the three errors applies and changes nothing |
| `Filesystems.Filesystem.RemoveDirEntry` | filesystem/src/filesystem.rs:583-655 | the parent's list is the old one swap-removed, the file's inode and as many blocks as it took are freed, nothing else changes; a directory is refused |
| `Filesystems.Filesystem.ResolvePath` | filesystem/src/filesystem.rs:533-566 | the parent that all components but the last lead to and what the last names there; `NotFound` exactly when a component is missing, `NotADirectory` exactly when one before the last is a file, and no other error |
| `Filesystems.Filesystem.ReadDirEntry` | filesystem/src/filesystem.rs:779-810 | returns the directory's entries in the tree |
| `Filesystems.Filesystem.NewInode` | filesystem/src/filesystem.rs:501-513 | allocates the lowest free inode, none only when all are taken |
| `Filesystems.Filesystem.Flush` | filesystem/src/filesystem.rs:1014-1050 | the device then holds the whole volume, byte by byte: superblock, both bitmaps, inode table, files and directories at the offsets of the format; the volume is what it was |
| `Filesystems.PersistedImage` | filesystem/src/layout.rs:161-169 | every byte offset of the disk format: LEMON and twelve words in block 0, eight bits to a byte of a bitmap, seven inodes of 72 bytes to a block, entries of 28 bytes, files 512 bytes to a block |
| `Trees.SplitsAgree` | filesystem/src/filesystem.rs:536-538 | on paths with a slash not at the end, both ways of taking a path apart agree |
| `Trees.ComponentsSplit` | filesystem/src/filesystem.rs:536-538 | the components of two paths joined by a slash are those of the one and then those of the other |
| `Trees.OneComponent` | filesystem/src/filesystem.rs:536-538 | without a slash the path is its only component, the empty path has none |
| `Trees.WalkMeans` | filesystem/src/filesystem.rs:538-552 | for every list of components: where they lead, `NotFound` exactly when one is missing, `NotADirectory` exactly when one is a file |
| `Trees.ResolveMeans` | filesystem/src/filesystem.rs:533-566 | the same for resolving any path, without mention of the walk |
| `Trees.CreateResolvesIff` | filesystem/src/filesystem.rs:663-739 | a path just created resolves to its inode exactly when it has a slash and not at its end |
| `Trees.CreateKeepsPaths` | filesystem/src/filesystem.rs:533-566 | whatever resolved before a create resolves as before |
| `Trees.RemoveKeepsPaths` | filesystem/src/filesystem.rs:583-655 | after a remove a path resolves to something exactly when it did before and was not the removed file |
| `Trees.AppendKeepsPaths` | filesystem/src/filesystem.rs:833-888 | appending moves no path |
| `Trees.CreateKeepsWellFormed` | filesystem/src/filesystem.rs:663-739 | creating keeps names unique, every inode named exactly once, all of them hanging off the root, and `..` the parent |
| `Trees.RemoveKeepsWellFormed` | filesystem/src/filesystem.rs:597-652 | swap-removal keeps names unique, every inode named exactly once, all of them hanging off the root, and `..` the parent |
| `Trees.RunKeepsWellFormed` | filesystem/src/filesystem.rs:583-888 | the directory invariant holds after every run of creates, appends and removes |
| `Trees.EveryInodeHasAPath` | filesystem/src/filesystem.rs:533-566 | the directories form a tree: every allocated inode but the root is what some path resolves to |
| `Trees.FileHistory` | filesystem/src/filesystem.rs:833-888 | a file that a run does not remove holds what it held and all that was appended to it, in order |
| `Trees.WellFormedMeans` | filesystem/src/filesystem.rs:663-776 | an inode is allocated exactly when it is the root or named by one non-dot entry |
| `Trees.DotsMean` | filesystem/src/filesystem.rs:730-736 | in every directory `.` is the directory itself and `..` the one that names it, the root for the root |
| `Views.EntryFitsIff` | filesystem/src/filesystem.rs:754-773 | the next entry of a directory fits before the end of its block exactly when the directory holds fewer than 18 |
| `Mounts.FullDirectoryIsReachable` | filesystem/src/filesystem.rs:663-776 | a run of creates that fills the root directory of an empty filesystem |
| `Mounts.Remount` | filesystem/src/filesystem.rs:411-442 | flush then mount gives back the same volume, tree, layout and bitmaps |
| `Mounts.Mount` | filesystem/src/filesystem.rs:411-489 | mounting succeeds exactly when the superblock is the canonical one for the device and slot 0 is a directory; says which error otherwise |
| `Mounts.SamePersisted` | filesystem/src/filesystem.rs:411-442 | a device holds no volume but the one that was flushed to it |
| `Mounts.Format` | filesystem/src/filesystem.rs:449-467 | succeeds exactly when the device can be partitioned for 4096 inodes and leaves an empty root directory on it, byte by byte, in regions without a block to spare |
| `InodeCaches.INodeCache.Get` | filesystem/src/inode_cache.rs:39-54 | caches the inode; the logical table does not change |
| `InodeCaches.INodeCache.GetMut` | filesystem/src/inode_cache.rs:58-76 | as `Get`, and the inode counts as dirty |
| `InodeCaches.INodeCache.Drain` | filesystem/src/inode_cache.rs:92-97 | hands out each dirty inode once, in order, and clears the dirty set |
| `InodeCaches.WriteBack` | filesystem/src/filesystem.rs:1020-1022 | after draining, every slot on disk holds the logical inode and nothing outside the table changed |
| `Disks.PutInodeChangesOneSlot` | filesystem/src/layout.rs:161-169 | writing one inode slot changes the decoding of no other |
| `Disks.WriteBitmap` | filesystem/src/filesystem.rs:1094-1114 | the region holds the bitmap's words and then zeros; no other block changes |
| `Disks.ReadBitmap` | filesystem/src/filesystem.rs:1065-1092 | yields the bits stored in the region, ignoring what lies beyond them; fails exactly when the region is too small |
| `Disks.BitmapRoundTrip` | filesystem/src/filesystem.rs:1065-1114 | reading what was written gives the same bitmap, for every length |
| `Superblocks.Validate` | filesystem/src/filesystem.rs:282-359 | accepts a superblock exactly when it is the one `from_layout` gives for the canonical layout; says which error otherwise |
| `Superblocks.ValidationCanHang` | filesystem/src/filesystem.rs:343-356 | a superblock that passes every check before the layout search, which then never ends |
| `Superblocks.NothingTruncated` | filesystem/src/filesystem.rs:264-280 | below 2^32 blocks the casts of `from_layout` lose nothing |
| `Layouts.SearchTerminatesIff` | filesystem/src/layout.rs:130-147 | the exact condition under which the layout search ends |
| `Layouts.SupportedIff` | filesystem/src/layout.rs:130-147 | `New` returns exactly when its search stops |
| `Layouts.SmallestUnsupportedDevice` | filesystem/src/layout.rs:118-159 | 4686 blocks is the smallest device on which formatting never ends |
| `Layouts.FixedPointIsUnique` | filesystem/src/layout.rs:130-147 | a number of bitmap blocks that describes the rest of the device is ceil(r / 4097) |
| `Layouts.StepGetsCloser` | filesystem/src/layout.rs:140-146 | each step strictly decreases a measure of the distance to the fixed point |
| `Layouts.CanonicalPartitions` | filesystem/src/layout.rs:149-158 | the regions partition the device and are large enough |
| `Layouts.CanonicalIffPossible` | filesystem/src/layout.rs:118-159 | a layout is found exactly when some partition of the device exists |
| `Layouts.CanonicalIsBest` | filesystem/src/layout.rs:118-159 | no partition of the device has smaller inode regions or more data blocks |
| `Layouts.New` | filesystem/src/layout.rs:118-159 | the loop computes the canonical layout: none exactly when no partition of the device exists, else one whose metadata regions have no block to spare |
| `DirReaders.Collect` | filesystem/src/filesystem.rs:145-201 | the lazy reader yields what the eager one returns, in order, for every directory inode, each entry with a place whose bytes decode to it |
| `DirReaders.ReadEntries` | filesystem/src/filesystem.rs:779-810 | the eager reader returns the listing, whatever the size and pattern of empty slots |
| `DirReaders.DirEntryReader.Next` | filesystem/src/filesystem.rs:178-200 | each call yields the next entry of the listing and where it lies, then nothing |
| `Records.InodeRoundTrip` | filesystem/src/inode.rs:119-147 | decoding an encoded inode gives it back |
| `Records.EncodedInode` | filesystem/src/inode.rs:119-127 | size at byte 0, block number k at 4 + 4k, directory flag at 68 |
| `Records.DecodedInode` | filesystem/src/inode.rs:129-146 | the decoder reads the same bytes |
| `Records.EntryRoundTrip` | filesystem/src/dir_entry.rs:54-65 | decoding an encoded entry gives it back |
| `Records.EncodedEntry` | filesystem/src/dir_entry.rs:54-58 | name in bytes 0 to 23, inode number in bytes 24 to 27 |
| `Records.NameRoundTrip` | filesystem/src/dir_entry.rs:34-47 | a name is read back exactly when it has at most 24 bytes and no NUL |
| `Records.SuperRoundTrip` | filesystem/src/filesystem.rs:227-261 | decoding an encoded superblock gives it back |
| `Records.DecodedSuper` | filesystem/src/filesystem.rs:244-260 | magic number in bytes 0 to 7, then the twelve fields in order |
| `Codec.WordsRoundTrip` | filesystem/src/bytereader.rs:16-63 | decoding encoded 32-bit words gives them back, whatever follows them |
| `Codec.LEByte` | filesystem/src/bytereader.rs:55-63 | byte k of an encoded integer is its digit k to the base 256 |
| `Codec.FromLEIsWeighted` | filesystem/src/bytereader.rs:16-26 | a decoded integer is the sum of its bytes weighted with powers of 256 |
| `Codec.ByteWriter.WriteWords` | filesystem/src/bytereader.rs:55-58 | each word lies at its offset from the cursor, least significant byte first, and no other byte changes |
| `PhysicalRanges.NormalizeRanges` | virtual_memory/src/physical_range.rs:70-85 | the result is sorted, disjoint, not touching, and covers the same addresses |
| `PhysicalRanges.NormalIsCanonical` | virtual_memory/src/physical_range.rs:70-85 | a normal form is determined by the addresses it covers |
| `PhysicalRanges.NormalizationDependsOnCoverOnly` | virtual_memory/src/physical_range.rs:70-85 | normalization depends on the covered addresses alone |
| `PhysicalRanges.UsableMemoryRanges` | virtual_memory/src/physical_range.rs:99-148 | a page is in the result exactly when all its bytes are memory and none is reserved |
| `PhysicalRanges.CoveringPagesExact` | virtual_memory/src/physical_range.rs:55-60 | the covering pages are exactly the pages the range touches, and the one error is overflow |
| `PhysicalRanges.FromStartSize` | virtual_memory/src/physical_range.rs:26-36 | a range of exactly the given addresses, or which of the two errors applies |
| `FrameAllocator.PageFrameAllocator.constructor` | src/page_frame_allocator.rs:76-101 | manages exactly the usable pages |
| `FrameAllocator.PageFrameAllocator.Alloc` | src/page_frame_allocator.rs:103-105 | the lowest free frame; none exactly when all are out |
| `FrameAllocator.PageFrameAllocator.Free` | src/page_frame_allocator.rs:107-114 | true exactly for outstanding frames; otherwise nothing changes |
| `FrameAllocator.OutstandingIsManaged` | src/page_frame_allocator.rs:103-114 | in every run outstanding frames are managed frames |
| `FrameAllocator.NoDoubleHandout` | src/page_frame_allocator.rs:103-114 | in every run a frame handed out twice was given back in between |
| `FrameAllocator.ManagedFrameIsSafe` | src/page_frame_allocator.rs:76-87 | no byte of a managed frame is reserved, FDT or kernel |
| `PageTables.PageTable.Map` | virtual_memory/src/lib.rs:210-236 | for every virtual address: those of the page translate to the frame with the permissions given (a leaf without any faults), all others as before; the frames taken are those needed |
| `PageTables.WalkIsMapping` | virtual_memory/src/lib.rs:210-236 | the three-level walk finds exactly the mappings with permissions and faults elsewhere |
| `PageTables.MapChangesOnePage` | virtual_memory/src/lib.rs:210-236 | adding one mapping changes the translation of exactly one page |
| `PageTables.TablesAreMinimal` | virtual_memory/src/lib.rs:191-227 | tables allocated are the distinct L2 indices plus the distinct (L2, L1) pairs mapped |
| `PageTables.VpnIsDigit` | virtual_memory/src/lib.rs:31-39 | shifting and masking extracts base-512 digits |
| `PageTables.PartsRoundTrip` | virtual_memory/src/lib.rs:45-47 | the parts of an address built from parts are those parts |
| `PageTables.AddressRoundTrip` | virtual_memory/src/lib.rs:31-47 | an address built from its own parts is that address modulo 2^39 |
| `PageTables.LeafFacts` | virtual_memory/src/lib.rs:140-167 | a leaf entry is valid, points to the frame and has the flags given |
| `PageTables.LeafRights` | virtual_memory/src/lib.rs:106-145 | a leaf permits reading, writing, executing and user access exactly as its flags say |
| `PageTables.MappedGrants` | virtual_memory/src/lib.rs:140-167 | what is mapped is found at level 0, at its frame, with its permissions |
| `PageTableInit.Init` | src/page_table.rs:26-73 | maps exactly the kernel at both addresses, all managed frames, the FDT and MMIO, never a page twice, each with its permissions |
| `PageTableInit.BootTranslates` | src/page_table.rs:34-73 | after boot the walk takes managed frames and MMIO to themselves for reading and writing, the FDT for reading only, the kernel at both addresses for everything; user mode gets nothing |
| `PageTableInit.BootMapsNothingElse` | src/page_table.rs:34-75 | no other page is found |
| `PageTableInit.BootKernel` | src/page_frame_allocator.rs:89-101 | from memory map to page table: every frame that can ever be handed out holds no reserved, FDT or kernel byte, and translates to itself for reading and writing exactly when it lies below 2^38; MMIO, FDT and both kernel addresses translate with their permissions, and nothing else does |
| `PageTableInit.HighFramesBoot` | src/page_table.rs:34-73 | a machine with RAM at 2^38 that meets everything boot asks for |
| `Bitmaps.Bitmap.FindFree` | bitmap/src/lib.rs:90-100 | the lowest clear bit; none exactly when all are set |
| `Bitmaps.Bitmap.SetBit` | bitmap/src/lib.rs:61-68 | adds exactly one index to the set |
| `Bitmaps.Bitmap.Unset` | bitmap/src/lib.rs:71-78 | removes exactly one index from the set |
| `Bitmaps.Bitmap.DrainOnes` | bitmap/src/lib.rs:103-117 | yields the set in ascending order and leaves it empty |
| `Bitmaps.FromWords` | bitmap/src/lib.rs:32-54 | succeeds exactly for the right number of words and clears the padding |
| `Bitmaps.PackedIsCanonical` | bitmap/src/lib.rs:46-51 | with padding clear, the words are determined by the set |

## Left out

- FreeList.FreeListAllocator.Init: needs a heap of at least 48 bytes, since a smaller one becomes a block too small for its own header, and memory is word-granular: a client write replaces whole words inside a payload.
- FreeList.FreeListAllocator.Alloc: addresses are mathematical with a no-wrap bound on heap end plus request; zero-size layouts, which `GlobalAlloc` forbids, are excluded.
- Filesystems.Filesystem.NewDirEntry: the source panics on a 19th directory entry, and in `mkdir` on a device without a free block; both are preconditions, stated only for calls that get that far. Path components are NUL-free.
- Filesystems.Filesystem.WriteDirEntry: requires that the entry fits before the end of its block, where the source panics.
- Filesystems.Filesystem.ReadFile: works on bytes; the per-block UTF-8 decoding of the source, which panics on text that a block boundary splits, is not modelled.
- Superblocks.Validate: a superblock that passes all earlier checks must be for a device on which the layout search ends; `Mounts.Mount` and `Mounts.Format` inherit this.
- PageTableInit.Init: assumes page-aligned kernel bounds below 2^32, kernel, FDT and MMIO pages mutually disjoint, MMIO outside RAM, identity-mapped addresses below 0x7F_0000_0000 and enough free frames; the snapshot of managed ranges is taken before the first mapping.
- Bitmaps.Bitmap.SetBit: bitmaps and frame arenas are values, since each is owned by exactly one structure; updating in place and aliasing are not modelled. The moving fields of the directory reader are grouped in one value.
- The block device is a sequence of 512-byte blocks; device errors do not exist, as in the source's trait.
- VirtIO, MMIO, SBI calls, interrupts, timers, control registers and TLB flushes.
- The device tree: memory, reserved, FDT and MMIO ranges are inputs.
- Shell, kernel log, directory dumps and the tree printer.
- Locking wrappers around allocator and filesystem, and the host-side image builder.
- The scheduler stub and the identity mapping of single pages after boot.
