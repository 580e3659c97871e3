/** The filesystem object: device, bitmaps and cache, presented as a volume and, through it, as a tree. */
module Filesystems {
  import opened Guards
  import opened Codec
  import opened Records
  import opened Layouts
  import opened Bitmaps
  import opened Options
  import opened Disks
  import opened InodeCaches
  import opened Superblocks
  import opened Volumes
  import opened Trees
  import opened Views
  import opened DirReaders
  import opened Images

  /** A device small enough for 32-bit block numbers, laid out the canonical way. */
  ghost predicate Geometry(l: Layout, total: int, count: int) {
    0 < total < U32_LIMIT && 0 < count < U32_LIMIT && Supported(total, count) && Canonical(total, count) == Some(l)
  }

  lemma Regions(l: Layout, total: int, count: int)
    requires Geometry(l, total, count)
    ensures 0 < count && Partitions(l, total, count) && 1 <= l.inodeTableStart && l.inodeTableStart + l.inodeTableBlocks == l.dataStart < total
  {
    CanonicalPartitions(total, count);
  }

  /** Device, bitmaps and cache stand for the volume `v`: the inode bitmap for the allocated inodes, the data
      bitmap for the blocks in use, cache over disk for the inodes. */
  ghost predicate Represents(v: Volume, l: Layout, disk: seq<Block>, ib: Bitmap, db: Bitmap, inodes: seq<Option<INode>>, dirty: Bitmap) {
    forall n {:trigger Open(OnDevice, n)} :: Open(OnDevice, n) ==>
      && Sizes(v, l, disk, ib, db, dirty)
      && Coherent(inodes, dirty.Set(), disk, l, ib.len)
      && v.data == disk[l.dataStart..]
      && (forall i :: i in v.nodes <==> i in ib.Set())
      && (forall d :: d in v.owner <==> d in db.Set())
      && (forall i :: i in v.nodes ==> NodeIs(v, inodes, disk, l, i))
  }

  ghost predicate Sizes(v: Volume, l: Layout, disk: seq<Block>, ib: Bitmap, db: Bitmap, dirty: Bitmap) {
    && 0 < ib.len && Geometry(l, |disk|, ib.len) && 0 <= l.dataStart <= |disk|
    && ib.Valid() && db.Valid() && dirty.Valid() && db.len == l.dataBlocks && dirty.len == ib.len && v.base == l.dataStart
  }

  ghost predicate NodeIs(v: Volume, inodes: seq<Option<INode>>, disk: seq<Block>, l: Layout, i: int)
    requires i in v.nodes
  {
    0 <= i && 0 <= InodeToBlock(l, i).0 < |disk| && v.nodes[i] == Logical(inodes, disk, l, i)
  }

  lemma CacheOk(v: Volume, l: Layout, disk: seq<Block>, ib: Bitmap, db: Bitmap, inodes: seq<Option<INode>>, dirty: Bitmap)
    requires Represents(v, l, disk, ib, db, inodes, dirty)
    ensures Sizes(v, l, disk, ib, db, dirty) && Coherent(inodes, dirty.Set(), disk, l, dirty.len)
    ensures forall i :: i in v.nodes <==> i in ib.Set()
    ensures forall d :: d in v.owner <==> d in db.Set()
  {
    assert Open(OnDevice, 0);
  }

  lemma NodeOk(v: Volume, l: Layout, disk: seq<Block>, ib: Bitmap, db: Bitmap, inodes: seq<Option<INode>>, dirty: Bitmap, i: int)
    requires Represents(v, l, disk, ib, db, inodes, dirty) && i in v.nodes
    ensures 0 <= i < ib.len && NodeIs(v, inodes, disk, l, i)
  {
    assert Open(OnDevice, 0);
  }

  lemma DataIs(v: Volume, l: Layout, disk: seq<Block>, ib: Bitmap, db: Bitmap, inodes: seq<Option<INode>>, dirty: Bitmap)
    requires Represents(v, l, disk, ib, db, inodes, dirty)
    ensures 0 <= l.dataStart <= |disk| && v.base == l.dataStart && v.data == disk[l.dataStart..]
  {
    assert Open(OnDevice, 0);
  }

  /** Caching more, or marking more dirty, changes nothing. */
  lemma Recached(v: Volume, l: Layout, disk: seq<Block>, ib: Bitmap, db: Bitmap, inodes: seq<Option<INode>>, dirty: Bitmap,
                 inodes': seq<Option<INode>>, dirty': Bitmap)
    requires Represents(v, l, disk, ib, db, inodes, dirty) && dirty'.Valid() && dirty'.len == dirty.len
    requires Coherent(inodes', dirty'.Set(), disk, l, dirty.len)
    requires forall j :: 0 <= j < dirty.len ==> SameLogical(inodes, inodes', disk, l, j)
    ensures Represents(v, l, disk, ib, db, inodes', dirty')
  {
    assert Open(OnDevice, 0);
    forall i | i in v.nodes ensures NodeIs(v, inodes', disk, l, i) {
      assert NodeIs(v, inodes, disk, l, i) && SameLogical(inodes, inodes', disk, l, i);
    }
  }

  lemma Assigned(v: Volume, l: Layout, disk: seq<Block>, ib: Bitmap, db: Bitmap, inodes: seq<Option<INode>>, dirty: Bitmap, i: int, n: INode)
    requires Represents(v, l, disk, ib, db, inodes, dirty) && i in v.nodes && Cached(inodes, i)
    requires dirty.Valid() && Coherent(inodes[i := Some(n)], dirty.Set(), disk, l, dirty.len)
    ensures Represents(v.(nodes := v.nodes[i := n]), l, disk, ib, db, inodes[i := Some(n)], dirty)
  {
    assert Open(OnDevice, 0);
    var w, inodes' := v.(nodes := v.nodes[i := n]), inodes[i := Some(n)];
    forall j | j in w.nodes ensures NodeIs(w, inodes', disk, l, j) {
      assert NodeIs(v, inodes, disk, l, j);
    }
  }

  lemma BlockWritten(v: Volume, l: Layout, disk: seq<Block>, ib: Bitmap, db: Bitmap, inodes: seq<Option<INode>>, dirty: Bitmap, b: int, buf: Block)
    requires Represents(v, l, disk, ib, db, inodes, dirty) && v.base <= b < v.base + |v.data|
    ensures 0 <= b < |disk| && Represents(v.(data := v.data[b - v.base := buf]), l, disk[b := buf], ib, db, inodes, dirty)
  {
    assert Open(OnDevice, 0);
    Regions(l, |disk|, ib.len);
    var w, disk' := v.(data := v.data[b - v.base := buf]), disk[b := buf];
    forall i | 0 <= i < ib.len ensures 0 <= InodeToBlock(l, i).0 < l.dataStart && InodeAt(disk', l, i) == InodeAt(disk, l, i) {
      SlotInTable(disk, l, ib.len, i);
    }
    assert w.data == disk'[l.dataStart..];
    forall j | j in w.nodes ensures NodeIs(w, inodes, disk', l, j) { assert NodeIs(v, inodes, disk, l, j); }
  }

  lemma Reowned(v: Volume, l: Layout, disk: seq<Block>, ib: Bitmap, db: Bitmap, inodes: seq<Option<INode>>, dirty: Bitmap,
                owner: map<int, Ref>, db': Bitmap)
    requires Represents(v, l, disk, ib, db, inodes, dirty) && db'.Valid() && db'.len == db.len
    requires forall d :: d in owner <==> d in db'.Set()
    ensures Represents(v.(owner := owner), l, disk, ib, db', inodes, dirty)
  {
    assert Open(OnDevice, 0);
    forall j | j in v.nodes ensures NodeIs(v.(owner := owner), inodes, disk, l, j) { assert NodeIs(v, inodes, disk, l, j); }
  }

  lemma TableBeforeData(v: Volume, l: Layout, disk: seq<Block>, ib: Bitmap, db: Bitmap, inodes: seq<Option<INode>>, dirty: Bitmap, i: int)
    requires Represents(v, l, disk, ib, db, inodes, dirty) && 0 <= i < ib.len
    ensures 0 <= InodeToBlock(l, i).0 < l.dataStart <= |disk|
  {
    assert Open(OnDevice, 0);
    Regions(l, |disk|, ib.len);
    SlotInTable(disk, l, ib.len, i);
  }

  lemma Created(v: Volume, l: Layout, disk: seq<Block>, ib: Bitmap, db: Bitmap, inodes: seq<Option<INode>>, dirty: Bitmap,
                i: int, n: INode, disk': seq<Block>, ib': Bitmap, inodes': seq<Option<INode>>)
    requires Represents(v, l, disk, ib, db, inodes, dirty) && 0 <= i < ib.len && n.Encodable()
    requires ib'.Valid() && ib.Valid() && ib'.len == ib.len && ib'.Set() == ib.Set() + {i}
    requires 0 <= InodeToBlock(l, i).0 < |disk| && disk' == PutInode(disk, l, i, n)
    requires dirty.Valid() && Coherent(inodes', dirty.Set(), disk', l, ib.len) && Cached(inodes', i) && inodes'[i].value == n
    requires |inodes'| >= |inodes| && forall j :: 0 <= j < |inodes'| && j != i ==> inodes'[j] == if j < |inodes| then inodes[j] else None
    ensures Represents(v.(nodes := v.nodes[i := n]), l, disk', ib', db, inodes', dirty)
  {
    assert Open(OnDevice, 0);
    TableBeforeData(v, l, disk, ib, db, inodes, dirty, i);
    var w := v.(nodes := v.nodes[i := n]);
    assert w.data == disk'[l.dataStart..];
    forall j | j in w.nodes ensures NodeIs(w, inodes', disk', l, j) {
      if j != i {
        assert NodeIs(v, inodes, disk, l, j);
        PutInodeChangesOneSlot(disk, l, i, n, j);
      }
    }
  }

  lemma Dropped(v: Volume, l: Layout, disk: seq<Block>, ib: Bitmap, db: Bitmap, inodes: seq<Option<INode>>, dirty: Bitmap,
                i: int, ib': Bitmap, dirty': Bitmap)
    requires Represents(v, l, disk, ib, db, inodes, dirty) && 0 <= i < |inodes|
    requires ib'.Valid() && ib.Valid() && ib'.len == ib.len && ib'.Set() == ib.Set() - {i}
    requires dirty'.Valid() && dirty'.len == dirty.len && Coherent(inodes[i := None], dirty'.Set(), disk, l, ib.len)
    ensures Represents(v.(nodes := v.nodes - {i}), l, disk, ib', db, inodes[i := None], dirty')
  {
    assert Open(OnDevice, 0);
    var w := v.(nodes := v.nodes - {i});
    forall j | j in w.nodes ensures NodeIs(w, inodes[i := None], disk, l, j) { assert NodeIs(v, inodes, disk, l, j); }
  }

  // ---------------------------------------------------------------------------------------
  // Flushed devices
  // ---------------------------------------------------------------------------------------

  /** The superblock stored in block 0. */
  function StoredSuper(disk: seq<Block>): SuperBlock
    requires |disk| > 0
  {
    DecodeSuper(disk[0][..SUPERBLOCK_BYTES])
  }

  ghost predicate StoresBitmap(disk: seq<Block>, start: int, blocks: int, b: Bitmap) {
    && 0 <= start && 0 <= blocks && start + blocks <= |disk| && b.Valid() && 4 * |b.words| <= blocks * BLOCK
    && RegionWords(disk, start, |b.words|) == b.words
  }

  /** The device holds everything there is to know about the volume `v`. */
  ghost predicate Persisted(v: Volume, l: Layout, disk: seq<Block>, ib: Bitmap, db: Bitmap) {
    && Represents(v, l, disk, ib, db, [], NewBitmap(ib.len))
    && |disk| > 0 && StoredSuper(disk) == FromLayout(|disk|, ib.len, l)
    && StoresBitmap(disk, l.inodeBitmapStart, l.inodeBitmapBlocks, ib)
    && StoresBitmap(disk, l.dataBitmapStart, l.dataBitmapBlocks, db)
  }

  /** The bytes of a device that holds everything. */
  lemma PersistedImage(v: Volume, l: Layout, disk: seq<Block>, ib: Bitmap, db: Bitmap)
    requires Persisted(v, l, disk, ib, db)
    ensures Image(v, l, disk, ib.len)
  {
    hide Represents, SuperImage, BitmapImage, TableImage, FileImage, DirImage, Sound, RegionWords, TreeOf;
    var clean := NewBitmap(ib.len);
    CacheOk(v, l, disk, ib, db, [], clean);
    Regions(l, |disk|, ib.len);
    SuperIs(disk[0], l, |disk|, ib.len);
    BitmapIs(disk, l.inodeBitmapStart, ib);
    BitmapIs(disk, l.dataBitmapStart, db);
    assert v.nodes.Keys == ib.Set() && v.owner.Keys == db.Set();
    TableIs(v, l, disk, ib, db);
    if Sound(v) { ContentIs(v, l, disk, ib, db); }
  }

  lemma TableIs(v: Volume, l: Layout, disk: seq<Block>, ib: Bitmap, db: Bitmap)
    requires Represents(v, l, disk, ib, db, [], NewBitmap(ib.len))
    ensures TableImage(disk, l, v.nodes)
  {
    hide Represents, DecodeInode, InodeBytes;
    forall i | i in v.nodes
      ensures 0 <= i && 0 <= l.inodeTableStart + i / 7 < |disk| && InodeBytes(disk[l.inodeTableStart + i / 7], 72 * (i % 7), v.nodes[i])
    {
      NodeOk(v, l, disk, ib, db, [], NewBitmap(ib.len), i);
      DecodedInode(disk[l.inodeTableStart + i / 7], 72 * (i % 7));
    }
  }

  lemma ContentIs(v: Volume, l: Layout, disk: seq<Block>, ib: Bitmap, db: Bitmap)
    requires Represents(v, l, disk, ib, db, [], NewBitmap(ib.len)) && Sound(v)
    ensures FileImage(disk, v.nodes, TreeOf(v).files) && DirImage(disk, v.nodes, TreeOf(v).dirs)
  {
    hide Represents, FileImage, DirImage, WellFormed;
    DataIs(v, l, disk, ib, db, [], NewBitmap(ib.len));
    assert DataOn(v, disk);
    FileIs(v, disk);
    DirIs(v, disk);
  }

  lemma StillStored(d: seq<Block>, d': seq<Block>, start: int, blocks: int, b: Bitmap)
    requires StoresBitmap(d, start, blocks, b) && |d'| == |d|
    requires forall x :: start <= x < start + blocks ==> d'[x] == d[x]
    ensures StoresBitmap(d', start, blocks, b)
  {
    forall k | 0 <= k < |b.words| ensures RegionWords(d', start, |b.words|)[k] == RegionWords(d, start, |b.words|)[k] {
      assert 0 <= k / WORDS_PER_BLOCK < blocks;
    }
  }

  /** Write the superblock over block 0. */
  method WriteSuperblock(disk: seq<Block>, b: SuperBlock) returns (d: seq<Block>)
    requires |disk| > 0 && Typed(b)
    ensures |d| == |disk| && StoredSuper(d) == b && forall x :: 0 < x < |disk| ==> d[x] == disk[x]
  {
    var buf := Splice(Zeros(BLOCK), 0, EncodeSuper(b));
    assert buf[..SUPERBLOCK_BYTES] == EncodeSuper(b);
    TypedWords(b);
    SuperRoundTrip(b);
    d := disk[0 := buf];
  }

  /** Bitmaps fit their regions. */
  lemma BitmapsFit(l: Layout, total: int, ib: Bitmap, db: Bitmap)
    requires Partitions(l, total, ib.len) && ib.Valid() && db.Valid() && db.len == l.dataBlocks
    ensures 4 * |ib.words| <= l.inodeBitmapBlocks * BLOCK && 4 * |db.words| <= l.dataBitmapBlocks * BLOCK
  {
    WordsFit(ib.len, l.inodeBitmapBlocks);
    WordsFit(db.len, l.dataBitmapBlocks);
  }

  lemma WordsFit(len: nat, blocks: int)
    requires len <= blocks * BITS_PER_BLOCK
    ensures WordCount(len) * 4 <= blocks * BLOCK && WordCount(len) <= WORDS_PER_BLOCK * blocks
  {
  }

  /** Write superblock and bitmaps: everything before the inode table. */
  method WriteMetadata(disk: seq<Block>, l: Layout, ib: Bitmap, db: Bitmap) returns (d: seq<Block>)
    requires 0 < ib.len && Geometry(l, |disk|, ib.len) && ib.Valid() && db.Valid() && db.len == l.dataBlocks
    ensures |d| == |disk| && StoredSuper(d) == FromLayout(|disk|, ib.len, l)
    ensures StoresBitmap(d, l.inodeBitmapStart, l.inodeBitmapBlocks, ib) && StoresBitmap(d, l.dataBitmapStart, l.dataBitmapBlocks, db)
    ensures forall x :: 0 <= l.inodeTableStart <= x < |disk| ==> d[x] == disk[x]
  {
    Regions(l, |disk|, ib.len);
    NothingTruncated(|disk|, ib.len, l);
    BitmapsFit(l, |disk|, ib, db);
    var d1 := WriteSuperblock(disk, FromLayout(|disk|, ib.len, l));
    var d2 := WriteBitmap(d1, l.inodeBitmapStart, l.inodeBitmapBlocks, ib);
    assert StoresBitmap(d2, l.inodeBitmapStart, l.inodeBitmapBlocks, ib);
    d := WriteBitmap(d2, l.dataBitmapStart, l.dataBitmapBlocks, db);
    StillStored(d2, d, l.inodeBitmapStart, l.inodeBitmapBlocks, ib);
  }

  /** Writing inodes back to the table, and anything before it, leaves the same volume behind, with the cache
      clean or empty. */
  lemma Flushed(v: Volume, l: Layout, disk: seq<Block>, ib: Bitmap, db: Bitmap, inodes: seq<Option<INode>>, dirty: Bitmap,
                disk': seq<Block>, clean: Bitmap, kept: seq<Option<INode>>)
    requires Represents(v, l, disk, ib, db, inodes, dirty) && WrittenBack(inodes, disk, disk', l, ib.len) && |disk'| == |disk|
    requires forall b :: 0 <= l.dataStart <= b < |disk| ==> disk'[b] == disk[b]
    requires clean.Valid() && clean.len == ib.len && clean.Set() == {} && (kept == inodes || kept == [])
    ensures Represents(v, l, disk', ib, db, kept, clean)
  {
    assert Open(OnDevice, 0);
    assert disk'[l.dataStart..] == disk[l.dataStart..];
    forall i | i in v.nodes ensures NodeIs(v, kept, disk', l, i) { assert NodeIs(v, inodes, disk, l, i); }
  }

  lemma FlushKeeps(v: Volume, l: Layout, disk: seq<Block>, ib: Bitmap, db: Bitmap, inodes: seq<Option<INode>>, dirty: Bitmap,
                   table: seq<Block>, all: seq<Block>, clean: Bitmap)
    requires Represents(v, l, disk, ib, db, inodes, dirty) && WrittenBack(inodes, disk, table, l, ib.len)
    requires |table| == |disk| == |all| && 0 <= l.inodeTableStart <= l.dataStart
    requires forall b :: 0 <= l.dataStart <= b < |disk| ==> table[b] == disk[b]
    requires forall b :: 0 <= l.inodeTableStart <= b < |table| ==> all[b] == table[b]
    requires clean.Valid() && clean.len == ib.len && clean.Set() == {}
    ensures Represents(v, l, all, ib, db, inodes, clean) && Represents(v, l, all, ib, db, [], NewBitmap(ib.len))
  {
    hide Represents;
    TableKept(inodes, disk, table, all, l, ib.len);
    Flushed(v, l, disk, ib, db, inodes, dirty, all, clean, inodes);
    Flushed(v, l, disk, ib, db, inodes, dirty, all, NewBitmap(ib.len), []);
  }

  /** What appending `bytes` to inode `i` does.  A directory or a file that would grow too large stays as it is.
      Otherwise the file grows by `bytes` if there are enough free blocks for them, and else by the `m` bytes up to
      the block boundary at which the device is full; nothing else in the tree changes. */
  ghost predicate Appended(v: Volume, w: Volume, i: int, bytes: seq<byte>, r: Outcome<int>, m: int) {
    var t := TreeOf(v);
    if i in t.dirs then r == Failure(IsDirectory) && w == v
    else
      && i in t.files
      && if |t.files[i]| + |bytes| > 8192 then r == Failure(FileTooLarge) && w == v
         else
           && 0 <= m <= |bytes| && TreeOf(w) == AppendFile(t, i, bytes[..m])
           && FreeBlocks(w) == FreeBlocks(v) - (BlocksFor(|t.files[i]| + m) - BlocksFor(|t.files[i]|))
           && if BlocksFor(|t.files[i]| + |bytes|) - BlocksFor(|t.files[i]|) <= FreeBlocks(v) then m == |bytes| && r == Success(|bytes|)
              else m < |bytes| && r == Failure(NoSpaceLeft) && Full(w) && (|t.files[i]| + m) % 512 == 0
  }

  lemma MoreBlocks(a: int, b: int)
    requires 0 <= a < b && a % 512 == 0
    ensures BlocksFor(a) < BlocksFor(b)
  {
  }

  /** Whether an append ran to its end is what counting free blocks says. */
  lemma EnoughIff(v: Volume, w: Volume, len: int, m: int, n: int)
    requires Owned(w) && 0 <= len && 0 <= m <= n && FreeBlocks(w) == FreeBlocks(v) - (BlocksFor(len + m) - BlocksFor(len))
    requires m < n ==> Full(w) && (len + m) % 512 == 0
    ensures m == n <==> BlocksFor(len + n) - BlocksFor(len) <= FreeBlocks(v)
  {
    hide Owned, Full, FreeBlocks;
    FullIff(w);
    if m < n { MoreBlocks(len + m, len + n); }
  }

  /** What removing entry `basename` of directory `d`, which names inode `i`, does: a directory is refused; a
      file goes, its entry `m` swap-removed. */
  ghost predicate Removed(v: Volume, w: Volume, d: int, basename: seq<byte>, i: int, r: Outcome<()>, m: int) {
    var t := TreeOf(v);
    if i in t.dirs then r == Failure(OperationNotSupported) && w == v
    else
      && r.Success? && CanRemove(t, d, m) && t.dirs[d][m].name() == basename && t.dirs[d][m].inode == i
      && TreeOf(w) == RemoveFile(t, d, m) && i in t.files && FreeBlocks(w) == FreeBlocks(v) + BlocksFor(|t.files[i]|)
  }

  /** What creating the path of components `parts` does, and when it fails. */
  ghost predicate Made(t: Tree, t': Tree, parts: seq<seq<byte>>, isDirectory: bool, r: Outcome<int>, inodesLeft: bool)
    requires parts != []
  {
    var name, walk := parts[|parts| - 1], Walk(t, 0, parts[..|parts| - 1]);
    if |name| > NAME_BYTES then r == Failure(NameTooLong)
    else if walk.Failure? then r == walk
    else
      && walk.value in t.dirs
      && if Listed(t.dirs[walk.value], name) then r == Failure(EntryExists)
         else if r.Failure? then r.error == NoFreeInodes && !inodesLeft
         else CanLink(t, walk.value, name, r.value) && t' == Linked(t, walk.value, name, r.value, isDirectory)
  }

  /** Which error a create gives when, said without walking. */
  ghost predicate Refused(t: Tree, parts: seq<seq<byte>>, r: Outcome<int>)
    requires parts != []
  {
    var name, parents := parts[|parts| - 1], parts[..|parts| - 1];
    && (r == Failure(NameTooLong) <==> |name| > 24)
    && (r == Failure(NotFound) <==> |name| <= 24 && Missing(t, parents))
    && (r == Failure(NotADirectory) <==> |name| <= 24 && Blocked(t, parents))
    && (r == Failure(EntryExists) <==> |name| <= 24 && exists c :: Reaches(t, parents, c) && c in t.dirs && Listed(t.dirs[c], name))
  }

  lemma MadeRefuses(t: Tree, t': Tree, parts: seq<seq<byte>>, isDirectory: bool, r: Outcome<int>, inodesLeft: bool)
    requires WellFormed(t) && parts != [] && Made(t, t', parts, isDirectory, r, inodesLeft)
    ensures Refused(t, parts, r)
  {
    hide Walk, Missing, Blocked, Reaches, Listed, WellFormed, CanLink, Linked;
    var parents := parts[..|parts| - 1];
    var walk := Walk(t, 0, parents);
    WalkMeans(t, parents);
    if walk.Success? {
      assert Reaches(t, parents, walk.value);
      assert forall c :: Reaches(t, parents, c) ==> c == walk.value;
    }
  }

  /** Inode `i` is an empty file, or a directory of its two dots. */
  ghost predicate Fresh(t: Tree, i: int, isDirectory: bool) {
    if isDirectory then i in t.dirs && |t.dirs[i]| == 2 && i !in t.files else i in t.files && t.files[i] == [] && i !in t.dirs
  }

  lemma MadePaths(t: Tree, path: seq<byte>, d: int, i: int, isDirectory: bool)
    requires WellFormed(t) && Components(path) != []
    requires var parts := Components(path);
      CanLink(t, d, parts[|parts| - 1], i) && Walk(t, 0, parts[..|parts| - 1]) == Success(d)
    ensures var t' := Linked(t, d, Components(path)[|Components(path)| - 1], i, isDirectory);
      && (Resolve(t', path).Success? <==> Proper(path)) && (Proper(path) ==> Resolve(t', path).value.inode == i) && Fresh(t', i, isDirectory)
      && forall p :: Resolve(t, p).Success? ==> Resolve(t', p) == Resolve(t, p)
  {
    var name := Components(path)[|Components(path)| - 1];
    CreateResolvesIff(t, path, d, i, isDirectory);
    assert Fresh(Linked(t, d, name, i, isDirectory), i, isDirectory);
    hide *;
    forall p | Resolve(t, p).Success? ensures Resolve(Linked(t, d, name, i, isDirectory), p) == Resolve(t, p) {
      CreateKeepsPaths(t, d, name, i, isDirectory, p);
    }
  }

  class Filesystem {
    var disk: seq<Block>
    var inodeBits: Bitmap
    var dataBits: Bitmap
    const cache: INodeCache
    const layout: Layout
    ghost var vol: Volume

    ghost predicate Rep()
      reads this, cache
    {
      cache.layout == layout && Represents(vol, layout, disk, inodeBits, dataBits, cache.inodes, cache.dirty)
    }

    /** A filesystem over `disk` with the given bitmaps and an empty cache. */
    constructor Attach(disk: seq<Block>, inodeBits: Bitmap, dataBits: Bitmap, layout: Layout, ghost vol: Volume)
      requires Represents(vol, layout, disk, inodeBits, dataBits, [], NewBitmap(inodeBits.len))
      ensures Rep() && fresh(cache) && this.vol == vol && this.disk == disk && this.layout == layout
      ensures this.inodeBits == inodeBits && this.dataBits == dataBits
    {
      this.disk, this.inodeBits, this.dataBits, this.layout, this.vol := disk, inodeBits, dataBits, layout, vol;
      cache := new INodeCache(layout, inodeBits.len);
    }

    lemma Facts()
      requires Rep()
      ensures vol.base == layout.dataStart > 0 && vol.base + |vol.data| == |disk| < U32_LIMIT && |vol.data| == layout.dataBlocks == dataBits.len
      ensures forall b :: vol.base <= b < |disk| ==> disk[b] == BlockOf(vol, b)
      ensures forall i :: i in vol.nodes ==> 0 <= i < inodeBits.len < U32_LIMIT && vol.nodes[i].Encodable()
    {
      hide Canonical, Supported, DecodeInode, InodeToBlock;
      assert Open(OnDevice, 0);
      Regions(layout, |disk|, inodeBits.len);
      forall i | i in vol.nodes ensures 0 <= i < inodeBits.len < U32_LIMIT && vol.nodes[i].Encodable() {
        assert NodeIs(vol, cache.inodes, disk, layout, i);
      }
    }

    // -------------------------------------------------------------------------------------
    // One step at a time
    // -------------------------------------------------------------------------------------

    /** `lookup_inode` */
    method LookupInode(i: int) returns (n: INode)
      requires Rep() && i in vol.nodes
      modifies cache
      ensures Rep() && n == vol.nodes[i] && i < |cache.inodes| && |cache.inodes| >= old(|cache.inodes|)
    {
      ghost var inodes, dirty := cache.inodes, cache.dirty;
      CacheOk(vol, layout, disk, inodeBits, dataBits, inodes, dirty);
      NodeOk(vol, layout, disk, inodeBits, dataBits, inodes, dirty, i);
      n := cache.Get(i, disk);
      Recached(vol, layout, disk, inodeBits, dataBits, inodes, dirty, cache.inodes, cache.dirty);
      NodeOk(vol, layout, disk, inodeBits, dataBits, cache.inodes, cache.dirty, i);
    }

    /** Assign to the inode that `lookup_inode_mut` lends. */
    method Store(i: int, n: INode)
      requires Rep() && i in vol.nodes && n.Encodable()
      modifies this`vol, cache
      ensures Rep() && vol == old(vol).(nodes := old(vol).nodes[i := n]) && |cache.inodes| >= old(|cache.inodes|)
    {
      ghost var inodes, dirty := cache.inodes, cache.dirty;
      CacheOk(vol, layout, disk, inodeBits, dataBits, inodes, dirty);
      NodeOk(vol, layout, disk, inodeBits, dataBits, inodes, dirty, i);
      var _ := cache.GetMut(i, disk);
      Recached(vol, layout, disk, inodeBits, dataBits, inodes, dirty, cache.inodes, cache.dirty);
      inodes := cache.inodes;
      cache.Assign(i, n, disk);
      Assigned(vol, layout, disk, inodeBits, dataBits, inodes, cache.dirty, i, n);
      vol := vol.(nodes := vol.nodes[i := n]);
    }

    /** Write a data block. */
    method WriteBlock(b: int, buf: Block)
      requires Rep() && vol.base <= b < vol.base + |vol.data|
      modifies this`disk, this`vol
      ensures Rep() && vol == old(vol).(data := old(vol).data[b - old(vol).base := buf])
    {
      BlockWritten(vol, layout, disk, inodeBits, dataBits, cache.inodes, cache.dirty, b, buf);
      disk := disk[b := buf];
      vol := vol.(data := vol.data[b - vol.base := buf]);
    }

    /** Take the lowest free data block, for `ref`. */
    method AllocBlock(ghost ref: Ref) returns (r: Option<int>)
      requires Rep()
      modifies this`dataBits, this`vol
      ensures Rep()
      ensures r.None? ==> vol == old(vol) && forall d :: 0 <= d < |vol.data| ==> d in vol.owner
      ensures r.Some? ==> 0 <= r.value < |vol.data| && r.value !in old(vol).owner && vol == old(vol).(owner := old(vol).owner[r.value := ref])
      ensures r.Some? ==> forall d :: 0 <= d < r.value ==> d in old(vol).owner
    {
      CacheOk(vol, layout, disk, inodeBits, dataBits, cache.inodes, cache.dirty);
      Facts();
      var free := dataBits.FindFree();
      if free.None? {
        return None;
      }
      ghost var owner := vol.owner[free.value := ref];
      Reowned(vol, layout, disk, inodeBits, dataBits, cache.inodes, cache.dirty, owner, dataBits.SetBit(free.value));
      dataBits := dataBits.SetBit(free.value);
      vol := vol.(owner := owner);
      return Some(free.value);
    }

    /** Give a data block back. */
    method FreeBlock(d: int)
      requires Rep() && d in vol.owner
      modifies this`dataBits, this`vol
      ensures Rep() && vol == old(vol).(owner := old(vol).owner - {d})
    {
      CacheOk(vol, layout, disk, inodeBits, dataBits, cache.inodes, cache.dirty);
      Reowned(vol, layout, disk, inodeBits, dataBits, cache.inodes, cache.dirty, vol.owner - {d}, dataBits.Unset(d));
      dataBits := dataBits.Unset(d);
      vol := vol.(owner := vol.owner - {d});
    }

    /** Allocate the lowest free inode: set its bit, write it through, cache it. */
    method NewInode(n: INode) returns (r: Option<int>)
      requires Rep() && n.Encodable()
      modifies this`disk, this`inodeBits, this`vol, cache
      ensures Rep() && |cache.inodes| >= old(|cache.inodes|) && inodeBits.len == old(inodeBits.len)
      ensures r.None? ==> vol == old(vol) && forall i :: 0 <= i < inodeBits.len ==> i in vol.nodes
      ensures r.Some? ==> 0 <= r.value < inodeBits.len && r.value !in old(vol).nodes && vol == old(vol).(nodes := old(vol).nodes[r.value := n])
      ensures r.Some? ==> forall i :: 0 <= i < r.value ==> i in old(vol).nodes
    {
      hide Represents, PutInode;
      CacheOk(vol, layout, disk, inodeBits, dataBits, cache.inodes, cache.dirty);
      var free := inodeBits.FindFree();
      if free.None? {
        return None;
      }
      var i: int := free.value;
      TableBeforeData(vol, layout, disk, inodeBits, dataBits, cache.inodes, cache.dirty, i);
      var written := WriteInodeToDisk(disk, layout, i, n);
      ghost var inodes := cache.inodes;
      cache.RegisterNewInode(i, n, disk, written);
      Created(vol, layout, disk, inodeBits, dataBits, inodes, cache.dirty, i, n, written, inodeBits.SetBit(i), cache.inodes);
      disk, inodeBits := written, inodeBits.SetBit(i);
      vol := vol.(nodes := vol.nodes[i := n]);
      return Some(i);
    }

    /** Clear the inode's bit and forget it. */
    method DropInode(i: int)
      requires Rep() && i in vol.nodes && i < |cache.inodes|
      modifies this`inodeBits, this`vol, cache
      ensures Rep() && vol == old(vol).(nodes := old(vol).nodes - {i}) && inodeBits.len == old(inodeBits.len)
    {
      CacheOk(vol, layout, disk, inodeBits, dataBits, cache.inodes, cache.dirty);
      ghost var inodes, dirty := cache.inodes, cache.dirty;
      cache.Remove(i, disk);
      Dropped(vol, layout, disk, inodeBits, dataBits, inodes, dirty, i, inodeBits.Unset(i), cache.dirty);
      inodeBits := inodeBits.Unset(i);
      vol := vol.(nodes := vol.nodes - {i});
    }

    // -------------------------------------------------------------------------------------
    // Reading
    // -------------------------------------------------------------------------------------

    /** What holds between calls. */
    ghost predicate Valid()
      reads this, cache
    {
      Rep() && Sound(vol)
    }

    /** Between calls an inode bit is set exactly for the root and for what exactly one entry other than the
        dots names, and a data bit exactly for a block that one slot of one allocated inode holds. */
    lemma BitmapsMean(i: int, d: int)
      requires Valid()
      ensures inodeBits.Valid() && dataBits.Valid()
      ensures i in inodeBits.Set() <==> i == 0 || exists c, m :: Names(TreeOf(vol), c, m, i)
      ensures forall c, m, c', m' :: Names(TreeOf(vol), c, m, i) && Names(TreeOf(vol), c', m', i) ==> c == c' && m == m'
      ensures d in dataBits.Set() <==> 0 <= d < |vol.data| && exists j, k :: Held(vol, j, k) && vol.nodes[j].blocks[k] == vol.base + d
      ensures forall j, k, j', k' :: Held(vol, j, k) && Held(vol, j', k') && vol.nodes[j].blocks[k] == vol.nodes[j'].blocks[k'] ==> j == j' && k == k'
    {
      CacheOk(vol, layout, disk, inodeBits, dataBits, cache.inodes, cache.dirty);
      WellFormedMeans(TreeOf(vol), i);
      OwnedMeans(vol, d);
      if i in vol.nodes { FileNode(vol, i); }
    }

    method ReadDirEntry(i: int) returns (es: seq<DirEntry>)
      requires Valid() && i in vol.nodes
      modifies cache
      ensures Valid() && es == Entries(TreeOf(vol), i) && |cache.inodes| >= old(|cache.inodes|)
    {
      Facts();
      NodeOnDisk(vol, disk, i);
      if vol.nodes[i].isDirectory { ListingIsDirectory(vol, disk, i); }
      var n := LookupInode(i);
      es := ReadEntries(disk, n);
    }

    /** Walk from the root through directories. */
    method WalkDown(parts: seq<seq<byte>>) returns (r: Outcome<int>)
      requires Valid()
      modifies cache
      ensures Valid() && r == Walk(TreeOf(vol), 0, parts) && |cache.inodes| >= old(|cache.inodes|)
      ensures r.Success? ==> r.value in TreeOf(vol).dirs
    {
      DirOk(TreeOf(vol), 0);
      var current := 0;
      for k := 0 to |parts|
        invariant Valid() && current in TreeOf(vol).dirs && |cache.inodes| >= old(|cache.inodes|)
        invariant Walk(TreeOf(vol), 0, parts) == Walk(TreeOf(vol), current, parts[k..])
      {
        assert parts[k..][0] == parts[k] && parts[k..][1..] == parts[k + 1..];
        var entries := ReadDirEntry(current);
        var next := FindEntry(entries, parts[k]);
        if next.None? {
          return Failure(NotFound);
        }
        LookupAllocated(TreeOf(vol), current, parts[k]);
        var n := LookupInode(next.value);
        if !n.isDirectory {
          return Failure(NotADirectory);
        }
        current := next.value;
      }
      return Success(current);
    }

    method ResolvePath(path: seq<byte>) returns (r: Outcome<Resolved>)
      requires Valid()
      modifies cache
      ensures Valid() && r == Resolve(TreeOf(vol), path) && Resolves(TreeOf(vol), path, r) && |cache.inodes| >= old(|cache.inodes|)
      ensures r.Success? ==> r.value.inode in vol.nodes && r.value.parent in TreeOf(vol).dirs
    {
      ResolveMeans(TreeOf(vol), path);
      hide Resolves;
      var (prefix, basename) := SplitLast(path);
      var parent := WalkDown(Components(prefix));
      if parent.Failure? {
        return Failure(parent.error);
      }
      var entries := ReadDirEntry(parent.value);
      var file := FindEntry(entries, basename);
      if file.None? {
        return Failure(NotFound);
      }
      LookupAllocated(TreeOf(vol), parent.value, basename);
      return Success(Resolved(parent.value, basename, file.value));
    }

    method ReadFile(path: seq<byte>) returns (r: Outcome<seq<byte>>)
      requires Valid()
      modifies cache
      ensures Valid()
      ensures var target := Resolve(TreeOf(vol), path);
        r == if target.Failure? then Failure(target.error)
             else if target.value.inode in TreeOf(vol).files then Success(TreeOf(vol).files[target.value.inode])
             else Failure(IsDirectory)
    {
      var resolved := ResolvePath(path);
      if resolved.Failure? {
        return Failure(resolved.error);
      }
      var i := resolved.value.inode;
      var n := LookupInode(i);
      if n.isDirectory {
        return Failure(IsDirectory);
      }
      Facts();
      var text := ReadContent(disk, n, vol, i);
      return Success(text);
    }

    // -------------------------------------------------------------------------------------
    // Appending
    // -------------------------------------------------------------------------------------

    /** Write `chunk` at the write position of inode `i`, in the block it ends in or, at a block boundary, in
        the lowest free one. */
    method WriteAtEnd(i: int, chunk: seq<byte>) returns (ok: bool, ghost d: int)
      requires Rep() && Owned(vol) && i in vol.nodes && vol.nodes[i].size < INODE_BLOCKS * BLOCK
      requires 0 < |chunk| <= BLOCK - vol.nodes[i].size % BLOCK
      modifies this`disk, this`dataBits, this`vol, cache
      ensures Rep() && |cache.inodes| >= old(|cache.inodes|)
      ensures !ok ==> vol == old(vol) && Full(vol) && vol.nodes[i].size % BLOCK == 0
      ensures ok ==> CanExtend(old(vol), i, chunk, d) && vol == Extend(old(vol), i, chunk, d)
      ensures ok && old(vol).nodes[i].size % BLOCK == 0 ==> forall e :: 0 <= e < d ==> e in old(vol).owner
    {
      hide Represents, Owned, Splice;
      NodeShaped(vol, i);
      Facts();
      var n := LookupInode(i);
      var slot, offset := n.size / BLOCK, n.size % BLOCK;
      assert n.size == BLOCK * slot + offset;
      var b := n.blocks[slot];
      if b == 0 {
        var free := AllocBlock(Ref(i, slot));
        if free.None? {
          d := 0;
          return false, d;
        }
        b := layout.dataStart + free.value;
      } else {
        SlotOwner(vol, i, slot);
        assert vol.owner[b - vol.base := Ref(i, slot)] == vol.owner;
      }
      d := b - vol.base;
      Facts();
      WriteBlock(b, Splice(disk[b], offset, chunk));
      Store(i, INode(n.size + |chunk|, n.blocks[slot := b], n.isDirectory));
      return true, d;
    }

    /** The loop of `append_to_file`: block by block until `bytes` are written or no block is free.  `m` counts
        what was written. */
    method AppendBytes(i: int, bytes: seq<byte>) returns (ok: bool, ghost m: int)
      requires Valid() && i in vol.nodes && i in TreeOf(vol).files && |TreeOf(vol).files[i]| + |bytes| <= INODE_BLOCKS * BLOCK
      modifies this`disk, this`dataBits, this`vol, cache
      ensures Valid() && 0 <= m <= |bytes| && TreeOf(vol) == AppendFile(old(TreeOf(vol)), i, bytes[..m])
      ensures ok ==> m == |bytes|
      ensures !ok ==> m < |bytes| && Full(vol) && (|old(TreeOf(vol)).files[i]| + m) % BLOCK == 0
      ensures var len := |old(TreeOf(vol)).files[i]|; FreeBlocks(vol) == FreeBlocks(old(vol)) - (BlocksFor(len + m) - BlocksFor(len))
    {
      hide Represents, Owned, WellFormed, FreeBlocks, BlocksFor;
      ghost var t := TreeOf(vol);
      var written := 0;
      AppendNothing(t, i);
      while written < |bytes|
        invariant Valid() && i in vol.nodes && 0 <= written <= |bytes| && TreeOf(vol) == AppendFile(t, i, bytes[..written])
        invariant FreeBlocks(vol) == FreeBlocks(old(vol)) - (BlocksFor(|t.files[i]| + written) - BlocksFor(|t.files[i]|))
      {
        FileNode(vol, i);
        var n := LookupInode(i);
        var size := Min(|bytes| - written, BLOCK - n.size % BLOCK);
        var chunk := bytes[written..written + size];
        ghost var v := vol;
        var done, d := WriteAtEnd(i, chunk);
        if !done {
          return false, written;
        }
        ExtendTakes(v, i, chunk, d);
        ExtendFile(v, i, chunk, d);
        AppendTwice(t, i, bytes[..written], chunk);
        assert bytes[..written] + chunk == bytes[..written + size];
        written := written + size;
      }
      assert bytes[..|bytes|] == bytes;
      return true, written;
    }

    method AppendToInode(i: int, bytes: seq<byte>) returns (r: Outcome<int>, ghost m: int)
      requires Valid() && i in vol.nodes
      modifies this`disk, this`dataBits, this`vol, cache
      ensures Valid() && Appended(old(vol), vol, i, bytes, r, m)
    {
      m := 0;
      FileNode(vol, i);
      var n := LookupInode(i);
      if n.isDirectory {
        return Failure(IsDirectory), m;
      }
      if n.size + |bytes| > INODE_BLOCKS * BLOCK {
        return Failure(FileTooLarge), m;
      }
      ghost var v := vol;
      var ok;
      ok, m := AppendBytes(i, bytes);
      EnoughIff(v, vol, n.size, m, |bytes|);
      return if ok then Success(|bytes|) else Failure(NoSpaceLeft), m;
    }

    /** Append to the file at `path`. */
    method AppendToFile(path: seq<byte>, bytes: seq<byte>) returns (r: Outcome<int>, ghost m: int)
      requires Valid()
      modifies this`disk, this`dataBits, this`vol, cache
      ensures Valid()
      ensures Resolve(old(TreeOf(vol)), path).Failure? ==> r == Failure(Resolve(old(TreeOf(vol)), path).error) && vol == old(vol)
      ensures Resolve(old(TreeOf(vol)), path).Success? ==>
        Appended(old(vol), vol, Resolve(old(TreeOf(vol)), path).value.inode, bytes, r, m)
    {
      m := 0;
      var resolved := ResolvePath(path);
      if resolved.Failure? {
        return Failure(resolved.error), m;
      }
      r, m := AppendToInode(resolved.value.inode, bytes);
    }

    // -------------------------------------------------------------------------------------
    // Creating
    // -------------------------------------------------------------------------------------

    /** Push an entry onto a directory, into block `d`.  The entry must fit before the end of the block: the
        source panics otherwise. */
    method WriteDirEntry(e: DirEntry, i: int) returns (r: Outcome<()>, ghost d: int)
      requires Rep() && Owned(vol) && i in vol.nodes && e.Encodable()
      requires vol.nodes[i].isDirectory && vol.nodes[i].size < INODE_BLOCKS * BLOCK ==> vol.nodes[i].size % BLOCK + ENTRY_BYTES <= BLOCK
      modifies this`disk, this`dataBits, this`vol, cache
      ensures Rep() && |cache.inodes| >= old(|cache.inodes|)
      ensures r.Failure? ==> vol == old(vol)
      ensures if !old(vol).nodes[i].isDirectory then r == Failure(NotADirectory)
              else if old(vol).nodes[i].size >= INODE_BLOCKS * BLOCK then r == Failure(NoFreeInodeBlocks)
              else r.Success? || (r.error == NoSpaceLeft && Full(vol) && vol.nodes[i].size % BLOCK == 0)
      ensures r.Success? ==> CanExtend(old(vol), i, EncodeEntry(e), d) && vol == Extend(old(vol), i, EncodeEntry(e), d)
    {
      d := 0;
      var n := LookupInode(i);
      if !n.isDirectory {
        return Failure(NotADirectory), d;
      }
      NodeShaped(vol, i);
      if n.size / BLOCK >= INODE_BLOCKS {
        return Failure(NoFreeInodeBlocks), d;
      }
      var ok;
      ok, d := WriteAtEnd(i, EncodeEntry(e));
      return if ok then Success(()) else Failure(NoSpaceLeft), d;
    }

    /** Some inode is free. */
    ghost predicate InodesLeft()
      reads this
    {
      exists i :: 0 <= i < inodeBits.len && i !in vol.nodes
    }

    /** Write `.` and `..` into the empty directory `i`. */
    method WriteDots(i: int, d: int) returns (ghost p: int)
      requires Rep() && Owned(vol) && i in vol.nodes && d in vol.nodes && vol.nodes[i].isDirectory && vol.nodes[i].size == 0 && !Full(vol)
      modifies this`disk, this`dataBits, this`vol, cache
      ensures Rep() && |cache.inodes| >= old(|cache.inodes|) && CanDot(old(vol), i, d, p) && vol == Dot(old(vol), i, d, p)
    {
      Facts();
      ghost var v := vol;
      var a, b := NewEntry(DOT, i), NewEntry(DOT_DOT, d);
      var first, second;
      ghost var q;
      first, p := WriteDirEntry(a, i);
      ExtendKeepsOwned(v, i, EncodeEntry(a), p);
      second, q := WriteDirEntry(b, i);
    }

    /** Allocate an inode and enter it in directory `d`.  A 19th entry, or a new directory on a full device,
        makes the source panic. */
    method AddEntry(d: int, name: seq<byte>, isDirectory: bool) returns (r: Outcome<int>)
      requires Valid() && d in vol.nodes && d in TreeOf(vol).dirs && GoodName(name) && !Listed(TreeOf(vol).dirs[d], name)
      requires InodesLeft() ==> |TreeOf(vol).dirs[d]| < MAX_ENTRIES && (isDirectory ==> !Full(vol))
      modifies this`disk, this`inodeBits, this`dataBits, this`vol, cache
      ensures Valid() && inodeBits.len == old(inodeBits.len)
      ensures r.Failure? ==> r.error == NoFreeInodes && vol == old(vol) && !InodesLeft()
      ensures r.Success? ==> CanLink(old(TreeOf(vol)), d, name, r.value) && TreeOf(vol) == Linked(old(TreeOf(vol)), d, name, r.value, isDirectory)
      ensures r.Success? ==> forall i :: 0 <= i < r.value ==> i in old(vol).nodes
    {
      Facts();
      ghost var v := vol;
      DirBytes(v, d);
      var inode := NewInode(EmptyNode(isDirectory));
      if inode.None? {
        return Failure(NoFreeInodes);
      }
      var i := inode.value;
      AddNodeKeepsOwned(v, i, isDirectory);
      var entered;
      ghost var p, q;
      entered, p := WriteDirEntry(NewEntry(name, i), d);
      if isDirectory {
        ExtendKeepsOwned(AddNode(v, i, isDirectory), d, EncodeEntry(NewEntry(name, i)), p);
        ExtendWithinBlock(AddNode(v, i, isDirectory), d, EncodeEntry(NewEntry(name, i)), p);
        q := WriteDots(i, d);
        EnterDirSound(v, d, name, i, p, q);
      } else {
        EnterSound(v, d, name, i, p);
      }
      return Success(i);
    }

    /** The checks before a create: the directory to create in, if there is nothing against it. */
    method ParentFor(parts: seq<seq<byte>>) returns (r: Outcome<int>)
      requires Valid() && parts != []
      modifies cache
      ensures Valid() && (r.Success? ==> r.value in vol.nodes)
      ensures var name, walk := parts[|parts| - 1], Walk(TreeOf(vol), 0, parts[..|parts| - 1]);
        if |name| > NAME_BYTES then r == Failure(NameTooLong)
        else if walk.Failure? then r == walk
        else walk.value in TreeOf(vol).dirs && r == if Listed(TreeOf(vol).dirs[walk.value], name) then Failure(EntryExists) else walk
    {
      var name := parts[|parts| - 1];
      if |name| > NAME_BYTES {
        return Failure(NameTooLong);
      }
      var walk := WalkDown(parts[..|parts| - 1]);
      if walk.Failure? {
        return walk;
      }
      var current := walk.value;
      var parent := LookupInode(current);
      DirBytes(vol, current);
      NodeShaped(vol, current);
      assert parent.blocks[1] == 0;  // so `has_space` holds
      var entries := ReadDirEntry(current);
      var existing := FindEntry(entries, name);
      DirOk(TreeOf(vol), current);
      LookupMisses(entries, name);
      return if existing.Some? then Failure(EntryExists) else walk;
    }

    /** `create_file` and `mkdir`.  A path that was created resolves exactly when it has a slash and not at its
        end; whatever resolved before resolves as before. */
    method NewDirEntry(path: seq<byte>, isDirectory: bool) returns (r: Outcome<int>)
      requires Valid() && forall k :: 0 <= k < |Components(path)| ==> 0 !in Components(path)[k]
      requires forall d :: Creating(TreeOf(vol), path, d) && InodesLeft() ==>
        |TreeOf(vol).dirs[d]| < MAX_ENTRIES && (isDirectory ==> !Full(vol))
      modifies this`disk, this`inodeBits, this`dataBits, this`vol, cache
      ensures Valid() && (r.Failure? ==> vol == old(vol))
      ensures Components(path) == [] ==> r == Failure(EmptyName)
      ensures Components(path) != [] ==> Made(old(TreeOf(vol)), TreeOf(vol), Components(path), isDirectory, r, old(InodesLeft()))
      ensures Components(path) != [] ==> Refused(old(TreeOf(vol)), Components(path), r)
      ensures r.Success? ==> forall i :: 0 <= i < r.value ==> i in old(vol).nodes
      ensures r.Success? ==> Fresh(TreeOf(vol), r.value, isDirectory)
      ensures r.Success? ==> (Resolve(TreeOf(vol), path).Success? <==> Proper(path))
      ensures r.Success? && Proper(path) ==> Resolve(TreeOf(vol), path).value.inode == r.value
      ensures forall p :: Resolve(old(TreeOf(vol)), p).Success? ==> Resolve(TreeOf(vol), p) == Resolve(old(TreeOf(vol)), p)
    {
      hide Represents, Owned, WellFormed, Resolve, Walk, Components, TreeOf, Linked, Refused, Fresh;
      var parts := Components(path);
      if parts == [] {
        return Failure(EmptyName);
      }
      ghost var t, left := TreeOf(vol), InodesLeft();
      var parent := ParentFor(parts);
      if parent.Failure? {
        MadeRefuses(t, t, parts, isDirectory, parent, left);
        return parent;
      }
      assert Creating(TreeOf(vol), path, parent.value);
      ComponentsArePlain(path, |parts| - 1);
      r := AddEntry(parent.value, parts[|parts| - 1], isDirectory);
      MadeRefuses(t, TreeOf(vol), parts, isDirectory, r, left);
      if r.Success? { MadePaths(t, path, parent.value, r.value, isDirectory); }
    }

    // -------------------------------------------------------------------------------------
    // Removing
    // -------------------------------------------------------------------------------------

    /** Zero and release the blocks of inode `i`, then the inode. */
    method FreeNode(i: int, n: INode)
      requires Rep() && Owned(vol) && i in vol.nodes && n == vol.nodes[i] && i < |cache.inodes|
      modifies this`disk, this`inodeBits, this`dataBits, this`vol, cache
      ensures Rep() && vol == DropNode(old(vol), i)
    {
      hide Represents, Owned, DropNode;
      ghost var v := vol;
      NodeShaped(v, i);
      FreedNone(v, i);
      for k := 0 to INODE_BLOCKS
        invariant Rep() && vol == Freed(v, i, k) && i < |cache.inodes|
      {
        if n.blocks[k] != 0 {
          FreedMore(v, i, k);
          WriteBlock(n.blocks[k], Zeros(BLOCK));
          Facts();
          FreeBlock(n.blocks[k] - layout.dataStart);
        } else {
          FreedSame(v, i, k);
        }
      }
      FreedAll(v, i);
      DropInode(i);
    }

    /** Swap-remove entry `m` of directory `d`, found at `place`. */
    method Unlink(d: int, parent: INode, place: PositionDirEntry)
      requires Rep() && Owned(vol) && OneBlock(vol, d) && vol.nodes[d] == parent && 2 * ENTRY_BYTES < parent.size <= MAX_ENTRIES * ENTRY_BYTES
      requires 0 <= place.logicalIndex < parent.size / ENTRY_BYTES
      requires place.blockIndex == parent.blocks[0] && place.byteOffset == ENTRY_BYTES * place.logicalIndex
      modifies this`disk, this`vol, cache
      ensures Rep() && vol == Unlinked(old(vol), d, place.logicalIndex) && |cache.inodes| >= old(|cache.inodes|)
    {
      hide Represents, Owned, EntryAt, EncodeEntry, Splice, Zeros;
      var count := parent.size / ENTRY_BYTES;
      var lastSlot, lastOffset := (count - 1) / PER_BLOCK, (count - 1) % PER_BLOCK * ENTRY_BYTES;
      assert lastSlot == 0 && lastOffset == ENTRY_BYTES * (count - 1);
      var block := parent.blocks[lastSlot];
      Facts();
      var last := EntryAt(disk[block], count - 1);
      WriteBlock(block, Splice(disk[block], lastOffset, Zeros(ENTRY_BYTES)));
      if place.logicalIndex != count - 1 {
        Facts();
        WriteBlock(place.blockIndex, Splice(disk[place.blockIndex], place.byteOffset, EncodeEntry(last)));
      }
      assert (count - 1) % PER_BLOCK != 0;  // never the only entry of its block: the dots stay
      Facts();
      Store(d, parent.(size := parent.size - ENTRY_BYTES));
    }

    /** Find the entry of the file `basename` in directory `d`. */
    method Locate(d: int, parent: INode, basename: seq<byte>) returns (place: PositionDirEntry)
      requires Valid() && d in vol.nodes && parent == vol.nodes[d] && parent.isDirectory && d in TreeOf(vol).dirs
      requires Lookup(TreeOf(vol).dirs[d], basename).Some? && Lookup(TreeOf(vol).dirs[d], basename).value in TreeOf(vol).files
      ensures CanRemove(TreeOf(vol), d, place.logicalIndex)
      ensures Lookup(TreeOf(vol).dirs[d], basename).value == TreeOf(vol).dirs[d][place.logicalIndex].inode
      ensures TreeOf(vol).dirs[d][place.logicalIndex].name() == basename && |parent.blocks| == INODE_BLOCKS
      ensures place.blockIndex == parent.blocks[0] && place.byteOffset == ENTRY_BYTES * place.logicalIndex
    {
      Facts();
      ListingIsDirectory(vol, disk, d);
      DirOk(TreeOf(vol), d);
      LookupMisses(TreeOf(vol).dirs[d], basename);
      var found := FindPosition(disk, parent, basename);
      place := found.value;
      PlaceInDirectory(vol, disk, d, place);
      FileEntry(TreeOf(vol), d, place.logicalIndex);
    }

    /** Remove inode `i` and entry `basename` of directory `d`, under which `i` is listed. */
    method RemoveListed(d: int, basename: seq<byte>, i: int) returns (r: Outcome<()>, ghost m: int)
      requires Valid() && d in vol.nodes && i in vol.nodes && d in TreeOf(vol).dirs && Lookup(TreeOf(vol).dirs[d], basename) == Some(i)
      modifies this`disk, this`inodeBits, this`dataBits, this`vol, cache
      ensures Valid() && Removed(old(vol), vol, d, basename, i, r, m)
    {
      ghost var v := vol;
      m := 0;
      var node := LookupInode(i);
      var parent := LookupInode(d);
      FileNode(v, i);
      if node.isDirectory {
        return Failure(OperationNotSupported), m;
      }
      var place := Locate(d, parent, basename);
      m := place.logicalIndex;
      RemovedTree(v, d, m);
      DirBytes(v, d);
      UnlinkedNodes(v, d, m, i);
      DropReturns(Unlinked(v, d, m), i);
      Unlink(d, parent, place);
      FreeNode(i, node);
      return Success(()), m;
    }

    /** Remove the file at `path`. */
    method RemoveDirEntry(path: seq<byte>) returns (r: Outcome<()>, ghost m: int)
      requires Valid()
      modifies this`disk, this`inodeBits, this`dataBits, this`vol, cache
      ensures Valid()
      ensures Resolve(old(TreeOf(vol)), path).Failure? ==> r == Failure(Resolve(old(TreeOf(vol)), path).error) && vol == old(vol)
      ensures Resolve(old(TreeOf(vol)), path).Success? ==>
        var p := Resolve(old(TreeOf(vol)), path).value; Removed(old(vol), vol, p.parent, p.basename, p.inode, r, m)
    {
      m := 0;
      var resolved := ResolvePath(path);
      if resolved.Failure? {
        return Failure(resolved.error), m;
      }
      r, m := RemoveListed(resolved.value.parent, resolved.value.basename, resolved.value.inode);
    }

    // -------------------------------------------------------------------------------------
    // Flushing
    // -------------------------------------------------------------------------------------

    /** Write everything to the device; the volume stays what it was. */
    method Flush()
      requires Rep()
      modifies this`disk, cache
      ensures Rep() && Persisted(vol, layout, disk, inodeBits, dataBits) && |disk| == |old(disk)|
      ensures Image(vol, layout, disk, inodeBits.len)
    {
      hide Represents, WrittenBack, StoresBitmap, Coherent, Pending, Cached, Geometry, FromLayout, StoredSuper, Image;
      ghost var v, was, inodes, dirty := vol, disk, cache.inodes, cache.dirty;
      CacheOk(v, layout, was, inodeBits, dataBits, inodes, dirty);
      Regions(layout, |disk|, inodeBits.len);
      var drained := cache.Drain(disk);
      var table := WriteBack(drained, disk, layout, inodes, dirty.Set(), inodeBits.len);
      var all := WriteMetadata(table, layout, inodeBits, dataBits);
      FlushKeeps(v, layout, was, inodeBits, dataBits, inodes, dirty, table, all, cache.dirty);
      disk := all;
      PersistedImage(vol, layout, disk, inodeBits, dataBits);
    }
  }

  /** The part of an inode's content that lies in slot `k`. */
  lemma ContentBlock(v: Volume, n: INode, k: int, len: int)
    requires |n.blocks| == INODE_BLOCKS && 0 <= k < INODE_BLOCKS && 0 <= len <= BLOCK && BLOCK * k + len <= n.size
    ensures Content(v, n)[BLOCK * k..BLOCK * k + len] == BlockOf(v, n.blocks[k])[..len]
  {
    forall p | 0 <= p < len ensures Content(v, n)[BLOCK * k + p] == BlockOf(v, n.blocks[k])[p] {
      assert (BLOCK * k + p) / BLOCK == k && (BLOCK * k + p) % BLOCK == p;
    }
  }

  lemma TableKept(inodes: seq<Option<INode>>, before: seq<Block>, table: seq<Block>, all: seq<Block>, l: Layout, count: int)
    requires WrittenBack(inodes, before, table, l, count) && |all| == |table| && 0 <= l.inodeTableStart
    requires forall x :: 0 <= l.inodeTableStart <= x < |table| ==> all[x] == table[x]
    ensures WrittenBack(inodes, before, all, l, count)
  {
    forall i | 0 <= i < count ensures 0 <= InodeToBlock(l, i).0 < |all| && InodeAt(all, l, i) == InodeAt(table, l, i) { }
  }

  /** The loop of `read_file`. */
  method ReadContent(disk: seq<Block>, n: INode, ghost v: Volume, ghost i: int) returns (text: seq<byte>)
    requires Owned(v) && DataOn(v, disk) && i in v.nodes && v.nodes[i] == n
    ensures text == Content(v, n)
  {
    NodeShaped(v, i);
    NodeOnDisk(v, disk, i);
    text := [];
    var totalBytes := n.size;
    for k := 0 to INODE_BLOCKS
      invariant totalBytes == if BLOCK * k < n.size then n.size - BLOCK * k else 0
      invariant |text| == n.size - totalBytes && text == Content(v, n)[..|text|]
    {
      if n.blocks[k] != 0 {
        var valid := Min(totalBytes, BLOCK);
        ContentBlock(v, n, k, valid);
        SlotOwner(v, i, k);
        totalBytes := totalBytes - valid;
        text := text + disk[n.blocks[k]][..valid];
      }
    }
  }

  method FindEntry(es: seq<DirEntry>, s: seq<byte>) returns (r: Option<int>)
    ensures r == Lookup(es, s)
  {
    for m := 0 to |es|
      invariant Lookup(es, s) == Lookup(es[m..], s)
    {
      assert es[m..][0] == es[m] && es[m..][1..] == es[m + 1..];
      if ByteCompare(s, es[m].name()) {
        return Some(es[m].inode);
      }
    }
    return None;
  }
}
