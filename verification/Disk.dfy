/** What lies on the block device: inode table, bitmap regions and superblock. */
module Disks {
  import opened Codec
  import opened Records
  import opened Layouts
  import opened Bitmaps

  const BLOCK: int := 512
  const WORDS_PER_BLOCK: int := 128

  type Block = s: seq<byte> | |s| == BLOCK witness Zeros(BLOCK)

  datatype Error =
    | NotADirectory | IsDirectory | FileTooLarge | NoSpaceLeft | EntryExists | EmptyName | NameTooLong
    | NotFound | NoFreeInodeBlocks | NoFreeInodes | OperationNotSupported | CorruptedRoot
    | InvalidSuperblock | DeviceTooSmall | UnsupportedFilesystemVersion(version: int)

  datatype Outcome<+T> = Success(value: T) | Failure(error: Error)

  // ---------------------------------------------------------------------------------------
  // The inode table
  // ---------------------------------------------------------------------------------------

  /** The table lies on the disk and has room for `count` inodes. */
  ghost predicate HasTable(disk: seq<Block>, l: Layout, count: int) {
    0 <= l.inodeTableStart && l.inodeTableStart + l.inodeTableBlocks <= |disk| && count <= 7 * l.inodeTableBlocks
  }

  /** `Layout::inode_to_block`: block number and byte offset. */
  function InodeToBlock(l: Layout, i: int): (p: (int, int))
    requires 0 <= i
    ensures 0 <= p.1 <= 432 && p.0 >= l.inodeTableStart
  {
    (l.inodeTableStart + i / 7, i % 7 * 72)
  }

  /** Different inodes share no byte of the table. */
  lemma SlotsDisjoint(l: Layout, i: int, j: int)
    requires 0 <= i && 0 <= j && i != j
    ensures var a, b := InodeToBlock(l, i), InodeToBlock(l, j);
      a.0 != b.0 || a.1 + 72 <= b.1 || b.1 + 72 <= a.1
  {
  }

  lemma SlotInTable(disk: seq<Block>, l: Layout, count: int, i: int)
    requires HasTable(disk, l, count) && 0 <= i < count
    ensures 0 <= InodeToBlock(l, i).0 < l.inodeTableStart + l.inodeTableBlocks <= |disk|
  {
  }

  /** The inode in slot `i`. */
  function InodeAt(disk: seq<Block>, l: Layout, i: int): (n: INode)
    requires 0 <= i && 0 <= InodeToBlock(l, i).0 < |disk|
    ensures n.Encodable()
  {
    var (b, at) := InodeToBlock(l, i);
    DecodeInode(disk[b][at..at + INODE_BYTES])
  }

  /** The disk after `write_inode_to_disk`. */
  function PutInode(disk: seq<Block>, l: Layout, i: int, n: INode): (d: seq<Block>)
    requires 0 <= i && 0 <= InodeToBlock(l, i).0 < |disk| && n.Encodable()
    ensures |d| == |disk|
  {
    var (b, at) := InodeToBlock(l, i);
    disk[b := Splice(disk[b], at, EncodeInode(n))]
  }

  lemma SpliceElsewhere(buf: seq<byte>, at: int, s: seq<byte>, lo: int, hi: int)
    requires 0 <= at && at + |s| <= |buf| && 0 <= lo <= hi <= |buf| && (hi <= at || at + |s| <= lo)
    ensures Splice(buf, at, s)[lo..hi] == buf[lo..hi]
  {
  }

  /** Writing one slot gives back the inode written, and changes no other slot. */
  lemma PutInodeChangesOneSlot(disk: seq<Block>, l: Layout, i: int, n: INode, j: int)
    requires 0 <= i && 0 <= InodeToBlock(l, i).0 < |disk| && n.Encodable()
    requires 0 <= j && 0 <= InodeToBlock(l, j).0 < |disk|
    ensures InodeAt(PutInode(disk, l, i, n), l, j) == if i == j then n else InodeAt(disk, l, j)
  {
    var (b, at) := InodeToBlock(l, i);
    var (c, to) := InodeToBlock(l, j);
    if i == j {
      InodeRoundTrip(n);
    } else {
      SlotsDisjoint(l, i, j);
      if b == c { SpliceElsewhere(disk[b], at, EncodeInode(n), to, to + INODE_BYTES); }
    }
  }

  method ReadInodeAt(disk: seq<Block>, l: Layout, i: int) returns (n: INode)
    requires 0 <= i && 0 <= InodeToBlock(l, i).0 < |disk|
    ensures n == InodeAt(disk, l, i)
  {
    var (b, at) := InodeToBlock(l, i);
    var r := new ByteReader.At(disk[b], at);
    n := ReadInode(r);
  }

  method WriteInodeToDisk(disk: seq<Block>, l: Layout, i: int, n: INode) returns (d: seq<Block>)
    requires 0 <= i && 0 <= InodeToBlock(l, i).0 < |disk| && n.Encodable()
    ensures d == PutInode(disk, l, i, n)
  {
    var (b, at) := InodeToBlock(l, i);
    var w := new ByteWriter.At(disk[b], at);
    WriteInode(w, n);
    d := disk[b := w.bytes];
  }

  // ---------------------------------------------------------------------------------------
  // Bitmap regions
  // ---------------------------------------------------------------------------------------

  /** The first `n` words stored from block `start` on. */
  function RegionWords(disk: seq<Block>, start: int, n: nat): (ws: seq<u32>)
    requires 0 <= start && n <= WORDS_PER_BLOCK * (|disk| - start)
    ensures |ws| == n
  {
    seq(n, k requires 0 <= k < n => WordAt(disk[start + k / WORDS_PER_BLOCK], k % WORDS_PER_BLOCK))
  }

  lemma WordAfterSplice(buf: Block, k: int, v: u32, j: int)
    requires 0 <= k < WORDS_PER_BLOCK && 0 <= j < WORDS_PER_BLOCK
    ensures WordAt(Splice(buf, 4 * k, LE(v, 4)), j) == if j == k then v else WordAt(buf, j)
  {
    if j == k {
      Limits();
      FromLEOfLE(v, 4);
    } else {
      SpliceElsewhere(buf, 4 * k, LE(v, 4), 4 * j, 4 * j + 4);
    }
  }

  lemma ZeroWord(buf: Block, k: int)
    requires 0 <= k < WORDS_PER_BLOCK && buf == Zeros(BLOCK)
    ensures WordAt(buf, k) == 0
  {
    var s := buf[4 * k..4 * k + 4];
    assert FromLE(s[4..]) == 0 && FromLE(s[3..]) == 0 by { assert s[3..][1..] == s[4..]; }
    assert FromLE(s[1..]) == 0 by { assert s[1..][1..] == s[2..] && s[2..][1..] == s[3..]; }
  }

  /** Encode words from `from` on into a zeroed block until either runs out. */
  method FillBlock(words: seq<u32>, from: int) returns (buf: Block, next: int)
    requires 0 <= from <= |words|
    ensures next == if from + WORDS_PER_BLOCK <= |words| then from + WORDS_PER_BLOCK else |words|
    ensures Holds(buf, words, from)
  {
    buf, next := Zeros(BLOCK), from;
    forall k | 0 <= k < WORDS_PER_BLOCK ensures WordAt(buf, k) == 0 { ZeroWord(buf, k); }
    for slot := 0 to WORDS_PER_BLOCK
      invariant next == from + slot <= |words|
      invariant forall k :: 0 <= k < WORDS_PER_BLOCK ==> WordAt(buf, k) == if k < slot then words[from + k] else 0
    {
      if next == |words| {
        break;
      }
      forall k | 0 <= k < WORDS_PER_BLOCK
        ensures WordAt(Splice(buf, 4 * slot, LE(words[next], 4)), k) == if k == slot then words[next] else WordAt(buf, k)
      {
        WordAfterSplice(buf, slot, words[next], k);
      }
      buf := Splice(buf, 4 * slot, LE(words[next], 4));
      next := next + 1;
    }
  }

  /** Store a bitmap in its region, padding the region with zero words. */
  method WriteBitmap(disk: seq<Block>, start: int, blocks: int, bitmap: Bitmap) returns (d: seq<Block>)
    requires 0 <= start && 0 <= blocks && start + blocks <= |disk| && |bitmap.words| * 4 <= blocks * BLOCK
    ensures |d| == |disk| && forall b :: 0 <= b < |disk| && !(start <= b < start + blocks) ==> d[b] == disk[b]
    ensures RegionWords(d, start, |bitmap.words|) == bitmap.words
    ensures forall k :: |bitmap.words| <= k < WORDS_PER_BLOCK * blocks ==> RegionWords(d, start, WORDS_PER_BLOCK * blocks)[k] == 0
  {
    d := disk;
    var words := bitmap.words;
    var next := 0;
    for offset := 0 to blocks
      invariant |d| == |disk| && forall b :: 0 <= b < |disk| && !(start <= b < start + offset) ==> d[b] == disk[b]
      invariant next == if WORDS_PER_BLOCK * offset <= |words| then WORDS_PER_BLOCK * offset else |words|
      invariant Filled(d, start, offset, words)
    {
      var buf, n := FillBlock(words, next);
      d, next := d[start + offset := buf], n;
    }
    FilledRegion(d, start, blocks, words);
  }

  /** The first `offset` blocks of the region hold `words`, then zeros. */
  ghost predicate Filled(d: seq<Block>, start: int, offset: int, words: seq<u32>)
    requires 0 <= start && 0 <= offset && start + offset <= |d|
  {
    forall b :: 0 <= b < offset ==> Holds(d[start + b], words, WORDS_PER_BLOCK * b)
  }

  /** A block holds `words` from `from` on, then zeros. */
  ghost predicate Holds(buf: Block, words: seq<u32>, from: int)
    requires 0 <= from
  {
    forall k :: 0 <= k < WORDS_PER_BLOCK ==> WordAt(buf, k) == if from + k < |words| then words[from + k] else 0
  }

  lemma FilledWord(d: seq<Block>, start: int, blocks: int, words: seq<u32>, k: int)
    requires 0 <= start && 0 <= blocks && start + blocks <= |d| && Filled(d, start, blocks, words)
    requires 0 <= k < WORDS_PER_BLOCK * blocks
    ensures WordAt(d[start + k / WORDS_PER_BLOCK], k % WORDS_PER_BLOCK) == if k < |words| then words[k] else 0
  {
    var b, s := k / WORDS_PER_BLOCK, k % WORDS_PER_BLOCK;
    assert k == WORDS_PER_BLOCK * b + s && b < blocks;
    assert Holds(d[start + b], words, WORDS_PER_BLOCK * b);
  }

  lemma FilledRegion(d: seq<Block>, start: int, blocks: int, words: seq<u32>)
    requires 0 <= start && 0 <= blocks && start + blocks <= |d| && Filled(d, start, blocks, words)
    requires |words| * 4 <= blocks * BLOCK
    ensures RegionWords(d, start, |words|) == words
    ensures forall k :: |words| <= k < WORDS_PER_BLOCK * blocks ==> RegionWords(d, start, WORDS_PER_BLOCK * blocks)[k] == 0
  {
    var region := RegionWords(d, start, WORDS_PER_BLOCK * blocks);
    forall k | 0 <= k < WORDS_PER_BLOCK * blocks ensures region[k] == if k < |words| then words[k] else 0 {
      FilledWord(d, start, blocks, words, k);
    }
    assert RegionWords(d, start, |words|) == region[..|words|];
  }

  /** Load a bitmap of `len` bits; whatever the region holds beyond them is ignored. */
  method ReadBitmap(disk: seq<Block>, start: int, blocks: int, len: nat) returns (r: Outcome<Bitmap>)
    requires 0 <= start && 0 <= blocks && start + blocks <= |disk|
    ensures r.Success? <==> WordCount(len) * 4 <= blocks * BLOCK
    ensures r.Success? ==> r.value.Valid() && r.value.len == len
    ensures r.Success? ==> r.value.Set() == Ones(RegionWords(disk, start, WordCount(len)), len)
    ensures r.Failure? ==> r.error == InvalidSuperblock
  {
    var wordCount := WordCount(len);
    if wordCount * 4 > blocks * BLOCK {
      return Failure(InvalidSuperblock);
    }
    var words: seq<u32> := [];
    for offset := 0 to DivCeil(wordCount * 4, BLOCK)
      invariant |words| == if WORDS_PER_BLOCK * offset <= wordCount then WORDS_PER_BLOCK * offset else wordCount
      invariant forall k :: 0 <= k < |words| ==> words[k] == WordAt(disk[start + k / WORDS_PER_BLOCK], k % WORDS_PER_BLOCK)
    {
      words := TakeWords(disk, start, offset, words, wordCount);
    }
    assert words == RegionWords(disk, start, wordCount);
    var b := FromWords(len, words);
    return Success(b.value);
  }

  method TakeWords(disk: seq<Block>, start: int, offset: int, soFar: seq<u32>, wordCount: nat) returns (words: seq<u32>)
    requires 0 <= start && 0 <= offset && start + offset < |disk| && |soFar| == WORDS_PER_BLOCK * offset <= wordCount
    requires forall k :: 0 <= k < |soFar| ==> soFar[k] == WordAt(disk[start + k / WORDS_PER_BLOCK], k % WORDS_PER_BLOCK)
    ensures |words| == if |soFar| + WORDS_PER_BLOCK <= wordCount then |soFar| + WORDS_PER_BLOCK else wordCount
    ensures forall k :: 0 <= k < |words| ==> words[k] == WordAt(disk[start + k / WORDS_PER_BLOCK], k % WORDS_PER_BLOCK)
  {
    words := soFar;
    var remaining := wordCount - |soFar|;
    for slot := 0 to if remaining < WORDS_PER_BLOCK then remaining else WORDS_PER_BLOCK
      invariant |words| == |soFar| + slot
      invariant forall k :: 0 <= k < |words| ==> words[k] == WordAt(disk[start + k / WORDS_PER_BLOCK], k % WORDS_PER_BLOCK)
    {
      assert (|soFar| + slot) / WORDS_PER_BLOCK == offset && (|soFar| + slot) % WORDS_PER_BLOCK == slot;
      words := words + [WordAt(disk[start + offset], slot)];
    }
  }

  /** A bitmap read from a region that stores `bitmap` is `bitmap`. */
  lemma StoredBitmapIsRead(disk: seq<Block>, start: int, bitmap: Bitmap, r: Bitmap)
    requires bitmap.Valid() && r.Valid() && r.len == bitmap.len
    requires 0 <= start && |bitmap.words| <= WORDS_PER_BLOCK * (|disk| - start)
    requires RegionWords(disk, start, |bitmap.words|) == bitmap.words
    requires r.Set() == Ones(RegionWords(disk, start, |bitmap.words|), r.len)
    ensures r == bitmap
  {
    PackedIsCanonical(r.words, bitmap.words, bitmap.len);
  }

  /** Reading what was written gives the same bitmap, whatever its length. */
  method BitmapRoundTrip(disk: seq<Block>, start: int, blocks: int, bitmap: Bitmap) returns (r: Outcome<Bitmap>)
    requires 0 <= start && 0 <= blocks && start + blocks <= |disk| && bitmap.Valid() && |bitmap.words| * 4 <= blocks * BLOCK
    ensures r == Success(bitmap)
  {
    var d := WriteBitmap(disk, start, blocks, bitmap);
    r := ReadBitmap(d, start, blocks, bitmap.len);
    StoredBitmapIsRead(d, start, bitmap, r.value);
  }
}
