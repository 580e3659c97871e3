/** The bytes of a device that holds a volume. */
module Images {
  import opened Bits
  import opened Codec
  import opened Records
  import opened Layouts
  import opened Bitmaps
  import opened Disks
  import opened Superblocks
  import opened Volumes
  import opened Trees
  import opened Views
  import opened DirReaders

  // ---------------------------------------------------------------------------------------
  // What the bytes are
  // ---------------------------------------------------------------------------------------

  /** Block 0: the letters LEMON, version 2, the block size and the layout. */
  ghost predicate SuperImage(b: Block, l: Layout, total: int, inodes: int) {
    && b[..8] == [0x4c, 0x45, 0x4d, 0x4f, 0x4e, 0, 0, 0]
    && Stored32(b, 8, 2) && Stored32(b, 12, 512) && Stored32(b, 16, total) && Stored32(b, 20, inodes)
    && Stored32(b, 24, l.inodeBitmapStart) && Stored32(b, 28, l.inodeBitmapBlocks)
    && Stored32(b, 32, l.dataBitmapStart) && Stored32(b, 36, l.dataBitmapBlocks)
    && Stored32(b, 40, l.inodeTableStart) && Stored32(b, 44, l.inodeTableBlocks)
    && Stored32(b, 48, l.dataStart) && Stored32(b, 52, l.dataBlocks)
  }

  /** Bit `i` of the bitmap stored from block `start` on. */
  ghost predicate StoredBit(disk: seq<Block>, start: int, i: int)
    requires 0 <= i && 0 <= start + i / 4096 < |disk|
  {
    Bit(disk[start + i / 4096][i % 4096 / 8], i % 8)
  }

  /** The region from block `start` on stores the first `len` bits of a set, eight to a byte. */
  ghost predicate BitmapImage(disk: seq<Block>, start: int, bits: set<int>, len: int) {
    forall i :: 0 <= i < len ==> 0 <= start + i / 4096 < |disk| && (StoredBit(disk, start, i) <==> i in bits)
  }

  /** The table stores seven inodes to a block, 72 bytes apart. */
  ghost predicate TableImage(disk: seq<Block>, l: Layout, nodes: map<int, INode>) {
    forall i :: i in nodes ==>
      0 <= i && 0 <= l.inodeTableStart + i / 7 < |disk| && InodeBytes(disk[l.inodeTableStart + i / 7], 72 * (i % 7), nodes[i])
  }

  /** Slot `k` of the inode holds a block of the device. */
  ghost predicate HasBlock(disk: seq<Block>, n: INode, k: int) {
    0 <= k < 16 && |n.blocks| == 16 && 0 < n.blocks[k] < |disk|
  }

  /** Files lie in the blocks of their inodes, 512 bytes to a block. */
  ghost predicate FileImage(disk: seq<Block>, nodes: map<int, INode>, files: map<int, seq<byte>>) {
    forall i, p :: i in files && 0 <= p < |files[i]| ==>
      i in nodes && HasBlock(disk, nodes[i], p / 512) && disk[nodes[i].blocks[p / 512]][p % 512] == files[i][p]
  }

  /** Directories lie in the first block of their inodes, 28 bytes to an entry. */
  ghost predicate DirImage(disk: seq<Block>, nodes: map<int, INode>, dirs: map<int, seq<DirEntry>>) {
    forall i, m :: i in dirs && 0 <= m < |dirs[i]| ==> i in nodes && EntryIn(disk, nodes[i], m, dirs[i][m])
  }

  ghost predicate EntryIn(disk: seq<Block>, n: INode, m: int, e: DirEntry) {
    HasBlock(disk, n, 0) && EntryBytes(disk[n.blocks[0]], 28 * m, e)
  }

  /** All that the device stores for a volume of `count` inodes, byte by byte: superblock, both bitmaps, the inode
      table and, between calls, every file and every directory. */
  ghost predicate Image(v: Volume, l: Layout, disk: seq<Block>, count: int) {
    && |disk| > 0 && SuperImage(disk[0], l, |disk|, count)
    && BitmapImage(disk, l.inodeBitmapStart, v.nodes.Keys, count)
    && BitmapImage(disk, l.dataBitmapStart, v.owner.Keys, l.dataBlocks)
    && TableImage(disk, l, v.nodes)
    && (Sound(v) ==> FileImage(disk, v.nodes, TreeOf(v).files) && DirImage(disk, v.nodes, TreeOf(v).dirs))
  }

  // ---------------------------------------------------------------------------------------
  // Superblock
  // ---------------------------------------------------------------------------------------

  lemma MagicBytes(s: seq<byte>)
    requires 8 <= |s| && Join4(s[0], s[1], s[2], s[3]) + 0x1_0000_0000 * Join4(s[4], s[5], s[6], s[7]) == MAGIC
    ensures s[..8] == [0x4c, 0x45, 0x4d, 0x4f, 0x4e, 0, 0, 0]
  {
    JoinDigits(s[0], s[1], s[2], s[3]);
    JoinDigits(s[4], s[5], s[6], s[7]);
    hide Join4;
    assert Join4(s[4], s[5], s[6], s[7]) == 0x4e && Join4(s[0], s[1], s[2], s[3]) == 0x4f4d454c;
  }

  lemma JoinDigits(a: byte, b: byte, c: byte, d: byte)
    ensures var v := Join4(a, b, c, d);
      0 <= v < 0x1_0000_0000 && v % 256 == a && v / 256 % 256 == b && v / 256 / 256 % 256 == c && v / 256 / 256 / 256 == d
  {
    var cd: int := c + 256 * d;
    var bcd: int := b + 256 * cd;
    DivModUnique(Join4(a, b, c, d), 256, bcd, a);
    DivModUnique(bcd, 256, cd, b);
    DivModUnique(cd, 256, d, c);
  }

  lemma SuperIs(b: Block, l: Layout, total: int, inodes: int)
    requires Partitions(l, total, inodes) && 0 <= inodes < U32_LIMIT && total < U32_LIMIT
    requires DecodeSuper(b[..SUPERBLOCK_BYTES]) == FromLayout(total, inodes, l)
    ensures SuperImage(b, l, total, inodes)
  {
    hide DecodeSuper, Stored32, Partitions;
    NothingTruncated(total, inodes, l);
    DecodedSuper(b);
    MagicBytes(b);
  }

  // ---------------------------------------------------------------------------------------
  // Bitmaps
  // ---------------------------------------------------------------------------------------

  lemma BitOfPair(a: byte, rest: nat, k: nat)
    ensures Bit(a + 256 * rest, k) <==> if k < 8 then Bit(a, k) else Bit(rest, k - 8)
  {
    assert Pow2(8) == 256;
    BitOfSum(a, rest, 8, 256, k);
  }

  lemma BitOfJoin(a: byte, b: byte, c: byte, d: byte, k: nat)
    requires k < 32
    ensures Bit(Join4(a, b, c, d), k) <==>
      if k < 8 then Bit(a, k) else if k < 16 then Bit(b, k - 8) else if k < 24 then Bit(c, k - 16) else Bit(d, k - 24)
  {
    hide Bit;
    var cd: nat := c + 256 * d;
    var bcd: nat := b + 256 * cd;
    BitOfPair(a, bcd, k);
    if k >= 8 { BitOfPair(b, cd, k - 8); }
    if k >= 16 { BitOfPair(c, d, k - 16); }
  }

  lemma StoredBitIs(disk: seq<Block>, start: int, words: seq<u32>, i: nat)
    requires 0 <= start && i < 32 * |words| && |words| <= WORDS_PER_BLOCK * (|disk| - start) && RegionWords(disk, start, |words|) == words
    ensures 0 <= start + i / 4096 < |disk| && (StoredBit(disk, start, i) <==> Bit(words[i / 32], i % 32))
  {
    var w, b := i / 32, disk[start + i / 4096];
    assert w / WORDS_PER_BLOCK == i / 4096 && 4 * (w % WORDS_PER_BLOCK) + i % 32 / 8 == i % 4096 / 8 && i % 32 % 8 == i % 8;
    var at := 4 * (w % WORDS_PER_BLOCK);
    assert words[w] == WordAt(b, w % WORDS_PER_BLOCK);
    FourBytes(b, at);
    BitOfJoin(b[at], b[at + 1], b[at + 2], b[at + 3], i % 32);
  }

  lemma BitmapIs(disk: seq<Block>, start: int, b: Bitmap)
    requires b.Valid() && 0 <= start && |b.words| <= WORDS_PER_BLOCK * (|disk| - start) && RegionWords(disk, start, |b.words|) == b.words
    ensures BitmapImage(disk, start, b.Set(), b.len)
  {
    forall i | 0 <= i < b.len ensures 0 <= start + i / 4096 < |disk| && (StoredBit(disk, start, i) <==> i in b.Set()) {
      StoredBitIs(disk, start, b.words, i);
    }
  }

  // ---------------------------------------------------------------------------------------
  // Files and directories
  // ---------------------------------------------------------------------------------------

  lemma SlotOnDisk(v: Volume, disk: seq<Block>, i: int, k: int)
    requires Owned(v) && DataOn(v, disk) && i in v.nodes && 0 <= k < 16 && 512 * k < v.nodes[i].size
    ensures HasBlock(disk, v.nodes[i], k) && disk[v.nodes[i].blocks[k]] == BlockOf(v, v.nodes[i].blocks[k])
  {
    NodeShaped(v, i);
    assert Held(v, i, k);
    SlotOwner(v, i, k);
  }

  lemma FileIs(v: Volume, disk: seq<Block>)
    requires Owned(v) && DataOn(v, disk)
    ensures FileImage(disk, v.nodes, TreeOf(v).files)
  {
    var files := TreeOf(v).files;
    forall i, p | i in files && 0 <= p < |files[i]|
      ensures i in v.nodes && HasBlock(disk, v.nodes[i], p / 512) && disk[v.nodes[i].blocks[p / 512]][p % 512] == files[i][p]
    {
      NodeShaped(v, i);
      SlotOnDisk(v, disk, i, p / 512);
      assert files[i][p] == ByteAt(v, v.nodes[i], p);
    }
  }

  lemma DirIs(v: Volume, disk: seq<Block>)
    requires Sound(v) && DataOn(v, disk)
    ensures DirImage(disk, v.nodes, TreeOf(v).dirs)
  {
    var dirs := TreeOf(v).dirs;
    forall i, m | i in dirs && 0 <= m < |dirs[i]|
      ensures i in v.nodes && EntryIn(disk, v.nodes[i], m, dirs[i][m])
    {
      DirBytes(v, i);
      SlotOnDisk(v, disk, i, 0);
      EntryOnDisk(v, i, m, disk[v.nodes[i].blocks[0]]);
    }
  }

  lemma EntryOnDisk(v: Volume, i: int, m: int, b: Block)
    requires i in v.nodes && v.nodes[i].isDirectory && |v.nodes[i].blocks| == 16 && b == BlockOf(v, v.nodes[i].blocks[0])
    requires 0 <= m < |TreeOf(v).dirs[i]| && v.nodes[i].size == ENTRY_BYTES * |TreeOf(v).dirs[i]| <= BLOCK
    ensures EntryBytes(b, 28 * m, TreeOf(v).dirs[i][m])
  {
    var s := Content(v, v.nodes[i]);
    assert s[ENTRY_BYTES * m..ENTRY_BYTES * m + ENTRY_BYTES] == b[28 * m..28 * m + ENTRY_BYTES];
    DecodedEntry(b, 28 * m);
  }
}
