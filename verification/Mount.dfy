/** Formatting and mounting devices, and what survives a flush and a mount. */
module Mounts {
  import opened Codec
  import opened Records
  import opened Layouts
  import opened Bitmaps
  import opened Options
  import opened Disks
  import opened InodeCaches
  import opened Superblocks
  import opened Volumes
  import opened Trees
  import opened Views
  import opened Images
  import opened Filesystems

  // ---------------------------------------------------------------------------------------
  // Mounting
  // ---------------------------------------------------------------------------------------

  /** The volume on a device, given a guess at the owners of its blocks. */
  ghost function VolumeOn(l: Layout, disk: seq<Block>, ib: Bitmap, db: Bitmap, owner: map<int, Ref>): Volume
    requires ib.Valid() && db.Valid() && 0 <= l.dataStart <= |disk| && forall i :: 0 <= i < ib.len ==> 0 <= InodeToBlock(l, i).0 < |disk|
  {
    Volume(l.dataStart, map i: int | i in ib.Set() :: InodeAt(disk, l, i),
           map d: int | d in db.Set() :: (if d in owner then owner[d] else Ref(0, 0)), disk[l.dataStart..])
  }

  lemma MountRepresents(l: Layout, disk: seq<Block>, ib: Bitmap, db: Bitmap, owner: map<int, Ref>)
    requires 0 < ib.len && Geometry(l, |disk|, ib.len) && ib.Valid() && db.Valid() && db.len == l.dataBlocks
    ensures 0 <= l.dataStart <= |disk| && forall i :: 0 <= i < ib.len ==> 0 <= InodeToBlock(l, i).0 < |disk|
    ensures Represents(VolumeOn(l, disk, ib, db, owner), l, disk, ib, db, [], NewBitmap(ib.len))
  {
    Regions(l, |disk|, ib.len);
    forall i | 0 <= i < ib.len ensures 0 <= InodeToBlock(l, i).0 < |disk| { SlotInTable(disk, l, ib.len, i); }
    var v := VolumeOn(l, disk, ib, db, owner);
    forall i | i in v.nodes ensures NodeIs(v, [], disk, l, i) { }
  }

  /** On a flushed device it is the volume that was flushed. */
  lemma MountedIsPersisted(v: Volume, l: Layout, disk: seq<Block>, ib: Bitmap, db: Bitmap)
    requires Represents(v, l, disk, ib, db, [], NewBitmap(ib.len)) && ib.Valid() && db.Valid() && 0 <= l.dataStart <= |disk|
    requires forall i :: 0 <= i < ib.len ==> 0 <= InodeToBlock(l, i).0 < |disk|
    ensures VolumeOn(l, disk, ib, db, v.owner) == v
  {
    hide Represents, Coherent, InodeAt;
    CacheOk(v, l, disk, ib, db, [], NewBitmap(ib.len));
    DataIs(v, l, disk, ib, db, [], NewBitmap(ib.len));
    var w := VolumeOn(l, disk, ib, db, v.owner);
    forall i | i in v.nodes ensures i in w.nodes && w.nodes[i] == v.nodes[i] { NodeOk(v, l, disk, ib, db, [], NewBitmap(ib.len), i); }
    assert w.nodes == v.nodes;
    assert w.owner == v.owner;
  }

  /** The first inode of the table is a directory. */
  ghost predicate RootOn(disk: seq<Block>, l: Layout) {
    0 <= InodeToBlock(l, 0).0 < |disk| && InodeAt(disk, l, 0).isDirectory
  }

  /** Read the bitmaps of a device with a canonical superblock and put a filesystem on it. */
  method Load(disk: seq<Block>, l: Layout, count: nat, ghost owner: map<int, Ref>) returns (fs: Filesystem)
    requires Geometry(l, |disk|, count)
    ensures fresh(fs) && fresh(fs.cache) && fs.Rep() && fs.disk == disk && fs.layout == l && fs.inodeBits.len == count
    ensures ReadFrom(fs.vol, l, disk, fs.inodeBits, fs.dataBits, owner)
  {
    hide Represents, VolumeOn, Ones, RegionWords, WordCount, Geometry;
    Regions(l, |disk|, count);
    WordsFit(count, l.inodeBitmapBlocks);
    WordsFit(l.dataBlocks, l.dataBitmapBlocks);
    var inodeBits := ReadBitmap(disk, l.inodeBitmapStart, l.inodeBitmapBlocks, count);
    var dataBits := ReadBitmap(disk, l.dataBitmapStart, l.dataBitmapBlocks, l.dataBlocks);
    MountRepresents(l, disk, inodeBits.value, dataBits.value, owner);
    fs := new Filesystem.Attach(disk, inodeBits.value, dataBits.value, l, VolumeOn(l, disk, inodeBits.value, dataBits.value, owner));
  }

  /** Volume and bitmaps are those on the device. */
  ghost predicate ReadFrom(v: Volume, l: Layout, disk: seq<Block>, ib: Bitmap, db: Bitmap, owner: map<int, Ref>) {
    && 0 <= l.dataStart <= |disk| && ib.Valid() && db.Valid() && db.len == l.dataBlocks
    && (forall i :: 0 <= i < ib.len ==> 0 <= InodeToBlock(l, i).0 < |disk|)
    && v == VolumeOn(l, disk, ib, db, owner)
    && 0 <= l.inodeBitmapStart && WordCount(ib.len) <= WORDS_PER_BLOCK * (|disk| - l.inodeBitmapStart)
    && 0 <= l.dataBitmapStart && WordCount(db.len) <= WORDS_PER_BLOCK * (|disk| - l.dataBitmapStart)
    && ib.Set() == Ones(RegionWords(disk, l.inodeBitmapStart, WordCount(ib.len)), ib.len)
    && db.Set() == Ones(RegionWords(disk, l.dataBitmapStart, WordCount(db.len)), db.len)
  }

  /** A device holds no volume but the one that was flushed to it. */
  lemma SamePersisted(v: Volume, l: Layout, disk: seq<Block>, ib: Bitmap, db: Bitmap, v': Volume, l': Layout, ib': Bitmap, db': Bitmap)
    requires Persisted(v, l, disk, ib, db) && StoredSuper(disk).inodeCount == ib'.len && Geometry(l', |disk|, ib'.len)
    requires ReadFrom(v', l', disk, ib', db', v.owner)
    ensures l' == l && ib' == ib && db' == db && v' == v
  {
    CacheOk(v, l, disk, ib, db, [], NewBitmap(ib.len));
    Regions(l, |disk|, ib.len);
    NothingTruncated(|disk|, ib.len, l);
    StoredBitmapIsRead(disk, l.inodeBitmapStart, ib, ib');
    StoredBitmapIsRead(disk, l.dataBitmapStart, db, db');
    MountedIsPersisted(v, l, disk, ib, db);
  }

  /** `Filesystem::new`.  If the superblock passes every check before the layout search, the search must stop. */
  method Mount(disk: seq<Block>, ghost v: Volume, ghost l: Layout, ghost ib: Bitmap, ghost db: Bitmap) returns (r: Outcome<Filesystem>)
    requires |disk| > 0 && ReachesSearch(StoredSuper(disk), |disk|) ==> Supported(|disk|, StoredSuper(disk).inodeCount)
    ensures r.Success? <==>
      |disk| > 0 && IsCanonical(StoredSuper(disk), |disk|, StoredSuper(disk).inodeCount) && RootOn(disk, LayoutOf(StoredSuper(disk)))
    ensures r == Failure(CorruptedRoot) <==>
      |disk| > 0 && IsCanonical(StoredSuper(disk), |disk|, StoredSuper(disk).inodeCount) && !RootOn(disk, LayoutOf(StoredSuper(disk)))
    ensures r.Failure? && r.error != CorruptedRoot ==>
      r.error == if |disk| > 0 && StoredSuper(disk).magic == 0x4e4f4d454c && StoredSuper(disk).version != 2
                 then UnsupportedFilesystemVersion(StoredSuper(disk).version) else InvalidSuperblock
    ensures r.Success? ==> fresh(r.value) && fresh(r.value.cache) && r.value.Rep() && r.value.disk == disk
    ensures r.Success? && Persisted(v, l, disk, ib, db) ==>
      r.value.vol == v && r.value.layout == l && r.value.inodeBits == ib && r.value.dataBits == db
  {
    hide Represents, Persisted, ReadFrom, DecodeSuper, ReachesSearch, IsCanonical, Supported, Geometry, Canonical;
    if |disk| == 0 {
      return Failure(InvalidSuperblock);
    }
    var b := StoredSuper(disk);
    DecodedIsTyped(disk[0][..SUPERBLOCK_BYTES]);
    var valid := Validate(b, |disk|);
    if valid.Failure? {
      return Failure(valid.error);
    }
    CanonicalReachesSearch(b, |disk|);
    CanonicalSuper(b, |disk|);
    var fs := Load(disk, valid.value, b.inodeCount, v.owner);
    Regions(valid.value, |disk|, b.inodeCount);
    SlotInTable(disk, valid.value, b.inodeCount, 0);
    var root := ReadInodeAt(disk, valid.value, 0);
    if !root.isDirectory {
      return Failure(CorruptedRoot);
    }
    if Persisted(v, l, disk, ib, db) {
      SamePersisted(v, l, disk, ib, db, fs.vol, fs.layout, fs.inodeBits, fs.dataBits);
    }
    return Success(fs);
  }

  lemma CanonicalSuper(b: SuperBlock, total: nat)
    requires b.inodeCount >= 0 && Supported(total, b.inodeCount) && IsCanonical(b, total, b.inodeCount)
    ensures Geometry(LayoutOf(b), total, b.inodeCount) && Canonical(total, b.inodeCount) == Some(LayoutOf(b))
  {
    var l := Canonical(total, b.inodeCount).value;
    CanonicalPartitions(total, b.inodeCount);
    NothingTruncated(total, b.inodeCount, l);
  }

  // ---------------------------------------------------------------------------------------
  // Flush, then mount
  // ---------------------------------------------------------------------------------------

  lemma PersistedMounts(v: Volume, l: Layout, disk: seq<Block>, ib: Bitmap, db: Bitmap)
    requires Persisted(v, l, disk, ib, db) && Sound(v)
    ensures var b := StoredSuper(disk);
      b.inodeCount == ib.len && Supported(|disk|, ib.len) && IsCanonical(b, |disk|, ib.len) && LayoutOf(b) == l && RootOn(disk, l)
  {
    CacheOk(v, l, disk, ib, db, [], NewBitmap(ib.len));
    Regions(l, |disk|, ib.len);
    NothingTruncated(|disk|, ib.len, l);
    DirOk(TreeOf(v), 0);
    NodeOk(v, l, disk, ib, db, [], NewBitmap(ib.len), 0);
  }

  /** Flushing and mounting again gives back the same volume, hence the same tree, layout and bitmaps. */
  method Remount(fs: Filesystem) returns (r: Outcome<Filesystem>)
    requires fs.Valid()
    modifies fs`disk, fs.cache
    ensures r.Success? && fresh(r.value) && r.value.Valid() && r.value.vol == old(fs.vol) && TreeOf(r.value.vol) == old(TreeOf(fs.vol))
    ensures r.value.layout == fs.layout && r.value.inodeBits == old(fs.inodeBits) && r.value.dataBits == old(fs.dataBits)
  {
    fs.Flush();
    PersistedMounts(fs.vol, fs.layout, fs.disk, fs.inodeBits, fs.dataBits);
    r := Mount(fs.disk, fs.vol, fs.layout, fs.inodeBits, fs.dataBits);
  }

  // ---------------------------------------------------------------------------------------
  // Formatting
  // ---------------------------------------------------------------------------------------

  const MAX_INODES: nat := 4096

  ghost function EmptyTree(): Tree { Tree(map[0 := DotEntries(0, 0)], map[]) }

  lemma EmptyTreeWellFormed()
    ensures WellFormed(EmptyTree())
  {
    DotsOk(0, 0);
    assert Reached(EmptyTree(), 0, 0);
    Furl(EmptyTree());
  }

  /** The root holds the dots and the files `a`, `b`, ... with inodes 1, 2, ..., `k` of them. */
  ghost predicate Holds(t: Tree, k: int) {
    && 0 <= k <= 16 && 0 in t.dirs && |t.dirs[0]| == 2 + k && (forall i :: Allocated(t, i) ==> 0 <= i <= k)
    && t.dirs[0][0].name() == DOT && t.dirs[0][1].name() == DOT_DOT
    && forall m :: 2 <= m < 2 + k ==> t.dirs[0][m].name() == [95 + m]
  }

  lemma HoldsOneMore(t: Tree, k: int)
    requires WellFormed(t) && Holds(t, k) && 0 <= k < 16
    ensures CanLink(t, 0, [97 + k], k + 1) && Holds(CreateFile(t, 0, [97 + k], k + 1), k + 1)
  {
    NameRoundTrip([97 + k], k + 1);
    forall m | 0 <= m < |t.dirs[0]| ensures t.dirs[0][m].name() != [97 + k] {
      if m >= 2 { assert t.dirs[0][m].name()[0] == 95 + m; }
    }
    var t1 := CreateFile(t, 0, [97 + k], k + 1);
    var es := t1.dirs[0];
    assert es[2 + k] == NewEntry([97 + k], k + 1);
    assert es[0] == t.dirs[0][0] && es[1] == t.dirs[0][1];
    forall m | 2 <= m < 3 + k ensures es[m].name() == [95 + m] {
      if m < 2 + k { assert es[m] == t.dirs[0][m]; }
    }
    assert forall i :: Allocated(t1, i) ==> i == k + 1 || Allocated(t, i);
    assert forall i :: Allocated(t1, i) ==> 0 <= i <= k + 1;
  }

  /** From a root with `k` files, further creates lead to one with 18 entries. */
  lemma {:induction false} FillRoot(t: Tree, k: int) returns (run: seq<Change>)
    requires WellFormed(t) && Holds(t, k) && 0 <= k <= 16
    ensures Legal(t, run) && 0 in Run(t, run).dirs && |Run(t, run).dirs[0]| == MAX_ENTRIES
    decreases 16 - k
  {
    if k == 16 {
      run := [];
    } else {
      HoldsOneMore(t, k);
      var c := Create(0, [97 + k], k + 1, false);
      ApplyKeepsWellFormed(t, c);
      var rest := FillRoot(Apply(t, c), k + 1);
      run := [c] + rest;
      assert run[1..] == rest;
    }
  }

  /** A directory of 18 entries, onto which no further one can be written, is reachable from a formatted device. */
  lemma FullDirectoryIsReachable() returns (run: seq<Change>)
    ensures Legal(EmptyTree(), run) && 0 in Run(EmptyTree(), run).dirs && |Run(EmptyTree(), run).dirs[0]| == MAX_ENTRIES
  {
    EmptyTreeWellFormed();
    DotsOk(0, 0);
    run := FillRoot(EmptyTree(), 0);
  }

  ghost function BlankVolume(l: Layout, disk: seq<Block>): Volume
    requires 0 <= l.dataStart <= |disk|
  {
    Volume(l.dataStart, map[], map[], disk[l.dataStart..])
  }

  lemma BlankRepresents(l: Layout, disk: seq<Block>, count: nat)
    requires 0 < count && Geometry(l, |disk|, count)
    ensures 0 < l.dataStart < |disk| && l.dataBlocks >= 0
    ensures Represents(BlankVolume(l, disk), l, disk, NewBitmap(count), NewBitmap(l.dataBlocks), [], NewBitmap(count))
    ensures Owned(BlankVolume(l, disk)) && DirSizes(BlankVolume(l, disk)) && !Full(BlankVolume(l, disk))
  {
    Regions(l, |disk|, count);
    var v := BlankVolume(l, disk);
    Seal(v);
    assert 0 <= 0 < |v.data| && 0 !in v.owner;
  }

  lemma RootSound(v: Volume, p: int)
    requires Owned(v) && DirSizes(v) && v.nodes == map[] && v.base > 0 && CanDot(AddNode(v, 0, true), 0, 0, p)
    ensures var w := Dot(AddNode(v, 0, true), 0, 0, p); Sound(w) && TreeOf(w) == EmptyTree()
  {
    AddNodeTree(v, 0, true);
    DotTree(AddNode(v, 0, true), 0, 0, p);
    assert TreeOf(v) == Tree(map[], map[]);
    assert TreeOf(v).dirs[0 := []][0 := DotEntries(0, 0)] == EmptyTree().dirs;
    EmptyTreeWellFormed();
  }

  /** `create_empty_root` on a blank filesystem. */
  method CreateEmptyRoot(fs: Filesystem)
    requires fs.Rep() && fs.inodeBits.len > 0 && fs.vol.nodes == map[] && Owned(fs.vol) && DirSizes(fs.vol) && !Full(fs.vol) && fs.vol.base > 0
    modifies fs`disk, fs`inodeBits, fs`dataBits, fs`vol, fs.cache
    ensures fs.Valid() && TreeOf(fs.vol) == EmptyTree() && fs.inodeBits.len == old(fs.inodeBits.len)
  {
    ghost var v := fs.vol;
    var inode := fs.NewInode(EmptyNode(true));
    assert 0 !in v.nodes;
    assert inode == Some(0);
    AddNodeKeepsOwned(v, 0, true);
    ghost var p := fs.WriteDots(0, 0);
    RootSound(v, p);
  }

  /** `Filesystem::format`: a device that mounts as an empty root directory. */
  method Format(disk: seq<Block>) returns (r: Outcome<seq<Block>>, ghost v: Volume, ghost l: Layout, ghost ib: Bitmap, ghost db: Bitmap)
    requires |disk| < U32_LIMIT ==> Supported(|disk|, MAX_INODES)
    ensures r.Success? <==> |disk| < U32_LIMIT && exists p :: Partitions(p, |disk|, 4096)
    ensures r.Failure? ==> r.error == DeviceTooSmall
    ensures r.Success? ==> Persisted(v, l, r.value, ib, db) && Sound(v) && TreeOf(v) == EmptyTree()
    ensures r.Success? ==> |r.value| == |disk| && Partitions(l, |disk|, 4096) && Lean(l, 4096) && Image(v, l, r.value, 4096)
  {
    hide Persisted, Sound, TreeOf, Lean, Canonical, Supported, Image;
    v, l, ib, db := Volume(0, map[], map[], []), Layout(0, 0, 0, 0, 0, 0, 0, 0), NewBitmap(0), NewBitmap(0);
    if |disk| >= U32_LIMIT {
      return Failure(DeviceTooSmall), v, l, ib, db;
    }
    var layout := New(|disk|, MAX_INODES);
    if layout.None? {
      return Failure(DeviceTooSmall), v, l, ib, db;
    }
    var fs := Formatted(disk, layout.value);
    v, l, ib, db := fs.vol, fs.layout, fs.inodeBits, fs.dataBits;
    r := Success(fs.disk);
  }

  /** A filesystem with an empty root directory, flushed to the device. */
  method Formatted(disk: seq<Block>, l: Layout) returns (fs: Filesystem)
    requires Geometry(l, |disk|, MAX_INODES)
    ensures |fs.disk| == |disk| && fs.layout == l && fs.inodeBits.len == MAX_INODES
    ensures Persisted(fs.vol, l, fs.disk, fs.inodeBits, fs.dataBits) && Sound(fs.vol) && TreeOf(fs.vol) == EmptyTree()
    ensures Image(fs.vol, l, fs.disk, MAX_INODES)
  {
    hide Represents, Owned, Geometry, Image;
    BlankRepresents(l, disk, MAX_INODES);
    fs := new Filesystem.Attach(disk, NewBitmap(MAX_INODES), NewBitmap(l.dataBlocks), l, BlankVolume(l, disk));
    CreateEmptyRoot(fs);
    fs.Flush();
    CacheOk(fs.vol, l, fs.disk, fs.inodeBits, fs.dataBits, [], NewBitmap(fs.inodeBits.len));
    SameSize(l, |disk|, |fs.disk|, MAX_INODES);
  }

  lemma SameSize(l: Layout, a: int, b: int, count: int)
    requires Geometry(l, a, count) && Geometry(l, b, count)
    ensures a == b
  {
    Regions(l, a, count);
    Regions(l, b, count);
  }
}
