/** The on-disk records: inodes, directory entries and the superblock, each as the value the encoder
    writes and the decoder reads, with the methods that move the cursors. */
module Records {
  import opened Codec

  // ---------------------------------------------------------------------------------------
  // Inodes
  // ---------------------------------------------------------------------------------------

  const INODE_BLOCKS: int := 16
  const INODE_BYTES: int := 69  // bytes written; the record occupies 72

  /** `blocks[k]` is a block number, or 0 for an empty slot. */
  datatype INode = INode(size: int, blocks: seq<int>, isDirectory: bool) {
    ghost predicate Encodable() { 0 <= size < U32_LIMIT && |blocks| == INODE_BLOCKS && Words(blocks) }
  }

  function EncodeInode(n: INode): (s: seq<byte>)
    requires |n.blocks| == INODE_BLOCKS
    ensures |s| == INODE_BYTES
  {
    LE(n.size, 4) + EncodeWords(n.blocks) + [if n.isDirectory then 1 else 0]
  }

  function DecodeInode(s: seq<byte>): (n: INode)
    requires |s| == INODE_BYTES
    ensures n.Encodable()
  {
    Limits();
    FromLEBelow(s[..4]);
    INode(FromLE(s[..4]), DecodeWords(s[4..68], 16), s[68] != 0)
  }

  lemma InodeRoundTrip(n: INode)
    requires n.Encodable()
    ensures DecodeInode(EncodeInode(n)) == n
  {
    var s := EncodeInode(n);
    Limits();
    FromLEOfLE(n.size, 4);
    WordsRoundTrip(n.blocks, []);
    assert s[..4] == LE(n.size, 4);
    assert s[4..68] == EncodeWords(n.blocks) + [];
  }

  /** The 69 bytes from `at` on are the record of `n`: the size, sixteen block numbers, and the directory flag. */
  ghost predicate InodeBytes(s: seq<byte>, at: int, n: INode) {
    && 0 <= at && at + 69 <= |s| && |n.blocks| == 16 && Stored32(s, at, n.size)
    && (forall k :: 0 <= k < 16 ==> Stored32(s, at + 4 + 4 * k, n.blocks[k]))
    && (s[at + 68] != 0 <==> n.isDirectory)
  }

  lemma DecodedInode(s: seq<byte>, at: int)
    requires 0 <= at && at + INODE_BYTES <= |s|
    ensures InodeBytes(s, at, DecodeInode(s[at..at + INODE_BYTES]))
  {
    var w := s[at..at + INODE_BYTES];
    assert w[..4] == s[at..at + 4];
    FourBytes(s, at);
    SliceOfSlice(s, at, at + INODE_BYTES, 4, 68);
    forall k | 0 <= k < 16 ensures Stored32(s, at + 4 + 4 * k, DecodeInode(w).blocks[k]) {
      WordOfSlice(s, at + 4, 16, k);
      FourBytes(s, at + 4 + 4 * k);
    }
  }

  lemma EncodedInode(n: INode)
    requires n.Encodable()
    ensures InodeBytes(EncodeInode(n), 0, n) && EncodeInode(n)[68] == if n.isDirectory then 1 else 0
  {
    InodeRoundTrip(n);
    assert EncodeInode(n)[0..0 + INODE_BYTES] == EncodeInode(n);
    DecodedInode(EncodeInode(n), 0);
  }

  method WriteInode(w: ByteWriter, n: INode)
    requires |n.blocks| == INODE_BLOCKS && w.pos + INODE_BYTES <= |w.bytes|
    modifies w
    ensures w.bytes == Splice(old(w.bytes), old(w.pos), EncodeInode(n))
  {
    ghost var buf, at := w.bytes, w.pos;
    w.WriteInt(n.size, 4);
    w.WriteWords(n.blocks);
    SpliceTwice(buf, at, LE(n.size, 4), EncodeWords(n.blocks));
    w.WriteBytes([if n.isDirectory then 1 else 0]);
    SpliceTwice(buf, at, LE(n.size, 4) + EncodeWords(n.blocks), [if n.isDirectory then 1 else 0]);
  }

  method ReadInode(r: ByteReader) returns (n: INode)
    requires r.pos + INODE_BYTES <= |r.bytes|
    modifies r
    ensures n == DecodeInode(r.bytes[old(r.pos)..old(r.pos) + INODE_BYTES])
  {
    ghost var s := r.bytes[r.pos..r.pos + INODE_BYTES];
    assert r.bytes[r.pos..r.pos + 4] == s[..4] && r.bytes[r.pos + 4..r.pos + 68] == s[4..68];
    assert r.bytes[r.pos + 68..r.pos + 69] == s[68..69];
    var size := r.ReadInt(4);
    var blocks := r.ReadWords(16);
    var flag := r.ReadBytes(1);
    n := INode(size, blocks, flag[0] != 0);
  }

  // ---------------------------------------------------------------------------------------
  // Directory entries
  // ---------------------------------------------------------------------------------------

  const NAME_BYTES: int := 24
  const ENTRY_BYTES: int := 28

  datatype DirEntry = DirEntry(raw: seq<byte>, inode: int) {
    ghost predicate Encodable() { |raw| == NAME_BYTES && 0 <= inode < U32_LIMIT }

    /** `DirEntry::name`: as many leading bytes as there are non-zero bytes. */
    function name(): seq<byte> { raw[..NonZero(raw)] }
  }

  function NonZero(s: seq<byte>): (n: nat)
    ensures n <= |s|
  {
    if s == [] then 0 else (if s[0] != 0 then 1 else 0) + NonZero(s[1..])
  }

  function Zeros(n: nat): (s: seq<byte>)
    ensures |s| == n && forall i :: 0 <= i < n ==> s[i] == 0
  {
    seq(n, _ => 0)
  }

  /** `DirEntry::new`: truncate to 24 bytes, pad with zeros. */
  function NewEntry(name: seq<byte>, inode: int): (e: DirEntry)
    ensures |e.raw| == NAME_BYTES
  {
    var len := if |name| <= NAME_BYTES then |name| else NAME_BYTES;
    DirEntry(name[..len] + Zeros(NAME_BYTES - len), inode)
  }

  lemma {:induction false} NonZeroCounts(s: seq<byte>, n: nat)
    ensures NonZero(s + Zeros(n)) == NonZero(s)
    ensures NonZero(s) == |s| <==> 0 !in s
    decreases |s|, n
  {
    if s == [] {
      assert s + Zeros(n) == Zeros(n);
      if n > 0 {
        NonZeroCounts([], n - 1);
        assert Zeros(n)[1..] == [] + Zeros(n - 1);
      }
    } else {
      NonZeroCounts(s[1..], n);
      assert (s + Zeros(n))[1..] == s[1..] + Zeros(n);
      assert s == [s[0]] + s[1..];
    }
  }

  /** A name is read back exactly when it fits and holds no NUL. */
  lemma NameRoundTrip(name: seq<byte>, inode: int)
    ensures NewEntry(name, inode).name() == name <==> |name| <= NAME_BYTES && 0 !in name
  {
    var len := if |name| <= NAME_BYTES then |name| else NAME_BYTES;
    var raw := NewEntry(name, inode).raw;
    NonZeroCounts(name[..len], NAME_BYTES - len);
    if |name| <= NAME_BYTES {
      assert name[..len] == name;
      assert 0 !in name ==> raw[..len] == name;
    }
  }

  function EncodeEntry(e: DirEntry): (s: seq<byte>)
    requires |e.raw| == NAME_BYTES
    ensures |s| == ENTRY_BYTES
  {
    e.raw + LE(e.inode, 4)
  }

  function DecodeEntry(s: seq<byte>): (e: DirEntry)
    requires |s| == ENTRY_BYTES
    ensures e.Encodable()
  {
    Limits();
    FromLEBelow(s[NAME_BYTES..]);
    DirEntry(s[..NAME_BYTES], FromLE(s[NAME_BYTES..]))
  }

  lemma EntryRoundTrip(e: DirEntry)
    requires e.Encodable()
    ensures DecodeEntry(EncodeEntry(e)) == e
  {
    Limits();
    FromLEOfLE(e.inode, 4);
    assert EncodeEntry(e)[..NAME_BYTES] == e.raw && EncodeEntry(e)[NAME_BYTES..] == LE(e.inode, 4);
  }

  /** The 28 bytes from `at` on are the record of `e`: 24 bytes of name, then the inode number. */
  ghost predicate EntryBytes(s: seq<byte>, at: int, e: DirEntry) {
    0 <= at && at + 28 <= |s| && s[at..at + 24] == e.raw && Stored32(s, at + 24, e.inode)
  }

  lemma DecodedEntry(s: seq<byte>, at: int)
    requires 0 <= at && at + ENTRY_BYTES <= |s|
    ensures EntryBytes(s, at, DecodeEntry(s[at..at + ENTRY_BYTES]))
  {
    var w := s[at..at + ENTRY_BYTES];
    assert w[..NAME_BYTES] == s[at..at + 24] && w[NAME_BYTES..] == s[at + 24..at + 24 + 4];
    FourBytes(s, at + 24);
  }

  lemma EncodedEntry(e: DirEntry)
    requires e.Encodable()
    ensures EntryBytes(EncodeEntry(e), 0, e)
  {
    EntryRoundTrip(e);
    assert EncodeEntry(e)[0..0 + ENTRY_BYTES] == EncodeEntry(e);
    DecodedEntry(EncodeEntry(e), 0);
  }

  // ---------------------------------------------------------------------------------------
  // The superblock
  // ---------------------------------------------------------------------------------------

  const SUPERBLOCK_BYTES: int := 56

  datatype SuperBlock = SuperBlock(
    magic: int, version: int, blockSize: int, totalBlocks: int, inodeCount: int,
    inodeBitmapStart: int, inodeBitmapBlocks: int, dataBitmapStart: int, dataBitmapBlocks: int,
    inodeTableStart: int, inodeTableBlocks: int, dataStart: int, dataBlocks: int)

  /** The twelve `u32` fields after the magic, in the order they are written. */
  function SuperWords(b: SuperBlock): (ws: seq<int>)
    ensures |ws| == 12
  {
    [b.version, b.blockSize, b.totalBlocks, b.inodeCount, b.inodeBitmapStart, b.inodeBitmapBlocks,
     b.dataBitmapStart, b.dataBitmapBlocks, b.inodeTableStart, b.inodeTableBlocks, b.dataStart, b.dataBlocks]
  }

  function EncodeSuper(b: SuperBlock): (s: seq<byte>)
    ensures |s| == SUPERBLOCK_BYTES
  {
    LE(b.magic, 8) + EncodeWords(SuperWords(b))
  }

  function DecodeSuper(s: seq<byte>): (b: SuperBlock)
    requires |s| == SUPERBLOCK_BYTES
    ensures b.inodeCount >= 0
  {
    var v := DecodeWords(s[8..], 12);
    SuperBlock(FromLE(s[..8]), v[0], v[1], v[2], v[3], v[4], v[5], v[6], v[7], v[8], v[9], v[10], v[11])
  }

  /** The first 56 bytes are the record of `b`: an eight-byte magic number, then twelve words. */
  ghost predicate SuperBytes(s: seq<byte>, b: SuperBlock) {
    && 56 <= |s| && b.magic == Join4(s[0], s[1], s[2], s[3]) + 0x1_0000_0000 * Join4(s[4], s[5], s[6], s[7])
    && Stored32(s, 8, b.version) && Stored32(s, 12, b.blockSize) && Stored32(s, 16, b.totalBlocks) && Stored32(s, 20, b.inodeCount)
    && Stored32(s, 24, b.inodeBitmapStart) && Stored32(s, 28, b.inodeBitmapBlocks)
    && Stored32(s, 32, b.dataBitmapStart) && Stored32(s, 36, b.dataBitmapBlocks)
    && Stored32(s, 40, b.inodeTableStart) && Stored32(s, 44, b.inodeTableBlocks)
    && Stored32(s, 48, b.dataStart) && Stored32(s, 52, b.dataBlocks)
  }

  lemma DecodedSuper(s: seq<byte>)
    requires SUPERBLOCK_BYTES <= |s|
    ensures SuperBytes(s, DecodeSuper(s[..SUPERBLOCK_BYTES]))
  {
    var w := s[..SUPERBLOCK_BYTES];
    EightBytes(s);
    var v := DecodeWords(w[8..], 12);
    assert w[..8] == s[..8] && w[8..] == s[8..8 + 4 * 12];
    hide FromLE, Stored32, WordAt;
    forall k | 0 <= k < 12 ensures Stored32(s, 8 + 4 * k, v[k]) {
      WordOfSlice(s, 8, 12, k);
      FourBytes(s, 8 + 4 * k);
    }
  }

  lemma SuperRoundTrip(b: SuperBlock)
    requires 0 <= b.magic < U32_LIMIT * U32_LIMIT && Words(SuperWords(b))
    ensures DecodeSuper(EncodeSuper(b)) == b
  {
    var s := EncodeSuper(b);
    Limits();
    FromLEOfLE(b.magic, 8);
    WordsRoundTrip(SuperWords(b), []);
    assert s[..8] == LE(b.magic, 8);
    assert s[8..] == EncodeWords(SuperWords(b)) + [];
  }
}
