/** Reading a volume as a tree, and what changes to the volume mean for the tree. */
module Views {
  import opened Codec
  import opened Records
  import opened Disks
  import opened Volumes
  import opened Trees

  // ---------------------------------------------------------------------------------------
  // Directory bytes
  // ---------------------------------------------------------------------------------------

  function EntryAt(s: seq<byte>, m: int): (e: DirEntry)
    requires 0 <= m && ENTRY_BYTES * m + ENTRY_BYTES <= |s|
    ensures e.Encodable()
  {
    DecodeEntry(s[ENTRY_BYTES * m..ENTRY_BYTES * m + ENTRY_BYTES])
  }

  /** The entries in a run of bytes. */
  function Parse(s: seq<byte>): (es: seq<DirEntry>)
    ensures |es| == |s| / ENTRY_BYTES
  {
    seq(|s| / ENTRY_BYTES, m requires 0 <= m < |s| / ENTRY_BYTES => EntryAt(s, m))
  }

  lemma ParsePush(s: seq<byte>, e: DirEntry)
    requires |s| % ENTRY_BYTES == 0 && e.Encodable()
    ensures Parse(s + EncodeEntry(e)) == Parse(s) + [e]
  {
    var r := s + EncodeEntry(e);
    var n := |s| / ENTRY_BYTES;
    assert |s| == ENTRY_BYTES * n;
    EntryRoundTrip(e);
    forall m | 0 <= m < n + 1 ensures Parse(r)[m] == (Parse(s) + [e])[m] {
      if m < n {
        assert r[ENTRY_BYTES * m..ENTRY_BYTES * m + ENTRY_BYTES] == s[ENTRY_BYTES * m..ENTRY_BYTES * m + ENTRY_BYTES];
      } else {
        assert r[ENTRY_BYTES * m..ENTRY_BYTES * m + ENTRY_BYTES] == EncodeEntry(e);
      }
    }
  }

  /** The directory block after `remove_dir_entry`: the last of `n` entries is zeroed, and written over entry
      `m` unless that is the last one. */
  function SwapBytes(buf: Block, n: int, m: int): (r: Block)
    requires 0 <= m < n && ENTRY_BYTES * n <= BLOCK
  {
    var at := ENTRY_BYTES * (n - 1);
    var cleared := Splice(buf, at, Zeros(ENTRY_BYTES));
    if m == n - 1 then cleared else Splice(cleared, ENTRY_BYTES * m, EncodeEntry(EntryAt(buf, n - 1)))
  }

  lemma SwapBytesAt(buf: Block, n: int, m: int, k: int)
    requires 0 <= m < n && ENTRY_BYTES * n <= BLOCK && 0 <= k < n - 1
    ensures EntryAt(SwapBytes(buf, n, m), k) == EntryAt(buf, if k == m then n - 1 else k)
  {
    var at := ENTRY_BYTES * (n - 1);
    var cleared := Splice(buf, at, Zeros(ENTRY_BYTES));
    SpliceElsewhere(buf, at, Zeros(ENTRY_BYTES), ENTRY_BYTES * k, ENTRY_BYTES * k + ENTRY_BYTES);
    if m < n - 1 {
      EntryRoundTrip(EntryAt(buf, n - 1));
      if k != m {
        SpliceElsewhere(cleared, ENTRY_BYTES * m, EncodeEntry(EntryAt(buf, n - 1)), ENTRY_BYTES * k, ENTRY_BYTES * k + ENTRY_BYTES);
      }
    }
  }

  lemma PrefixEntry(buf: seq<byte>, n: int, k: int)
    requires 0 <= k < n && ENTRY_BYTES * n <= |buf|
    ensures |buf[..ENTRY_BYTES * n]| / ENTRY_BYTES == n && Parse(buf[..ENTRY_BYTES * n])[k] == EntryAt(buf, k)
  {
    assert buf[..ENTRY_BYTES * n][ENTRY_BYTES * k..ENTRY_BYTES * k + ENTRY_BYTES] == buf[ENTRY_BYTES * k..ENTRY_BYTES * k + ENTRY_BYTES];
  }

  lemma ParseSwapAt(buf: Block, n: int, m: int, k: int)
    requires 0 <= m < n && ENTRY_BYTES * n <= BLOCK && 0 <= k < n - 1
    ensures Parse(SwapBytes(buf, n, m)[..ENTRY_BYTES * (n - 1)])[k] == Parse(buf[..ENTRY_BYTES * n])[if k == m then n - 1 else k]
  {
    SwapBytesAt(buf, n, m, k);
    PrefixEntry(SwapBytes(buf, n, m), n - 1, k);
    PrefixEntry(buf, n, if k == m then n - 1 else k);
  }

  lemma ParseSwap(buf: Block, n: int, m: int)
    requires 0 <= m < n && ENTRY_BYTES * n <= BLOCK
    ensures |Parse(buf[..ENTRY_BYTES * n])| == n
    ensures Parse(SwapBytes(buf, n, m)[..ENTRY_BYTES * (n - 1)]) == SwapRemove(Parse(buf[..ENTRY_BYTES * n]), m)
  {
    var a, b := Parse(SwapBytes(buf, n, m)[..ENTRY_BYTES * (n - 1)]), Parse(buf[..ENTRY_BYTES * n]);
    assert |a| == n - 1 && |b| == n;
    forall k | 0 <= k < n - 1 ensures a[k] == b[if k == m then n - 1 else k] { ParseSwapAt(buf, n, m, k); }
  }

  // ---------------------------------------------------------------------------------------
  // The tree of a volume
  // ---------------------------------------------------------------------------------------

  ghost function TreeOf(v: Volume): Tree {
    Tree(map i | i in v.nodes && v.nodes[i].isDirectory :: Parse(Content(v, v.nodes[i])),
         map i | i in v.nodes && !v.nodes[i].isDirectory :: Content(v, v.nodes[i]))
  }

  ghost predicate DirSizes(v: Volume) {
    forall i :: i in v.nodes && v.nodes[i].isDirectory ==> v.nodes[i].size % ENTRY_BYTES == 0
  }

  /** Everything that holds between two calls: ownership of blocks, and the directory invariant. */
  ghost predicate Sound(v: Volume) {
    Owned(v) && DirSizes(v) && WellFormed(TreeOf(v))
  }

  lemma FileNode(v: Volume, i: int)
    requires Owned(v) && i in v.nodes
    ensures i in TreeOf(v).files <==> !v.nodes[i].isDirectory
    ensures i in TreeOf(v).dirs <==> v.nodes[i].isDirectory
    ensures i in TreeOf(v).files ==> |TreeOf(v).files[i]| == v.nodes[i].size
  {
    NodeShaped(v, i);
  }

  lemma DirBytes(v: Volume, i: int)
    requires Sound(v) && i in v.nodes && v.nodes[i].isDirectory
    ensures var n := v.nodes[i]; n.size == ENTRY_BYTES * |TreeOf(v).dirs[i]| && 2 * ENTRY_BYTES <= n.size <= MAX_ENTRIES * ENTRY_BYTES
    ensures OneBlock(v, i) && Held(v, i, 0)
  {
    NodeShaped(v, i);
    DirOk(TreeOf(v), i);
    OneBlockHeld(v, i);
  }

  /** An entry written at the end of a directory fits before the end of its block exactly when the directory holds
      fewer than 18 entries. */
  lemma EntryFitsIff(v: Volume, i: int)
    requires Sound(v) && i in v.nodes && v.nodes[i].isDirectory
    ensures v.nodes[i].size % BLOCK + ENTRY_BYTES <= BLOCK <==> |TreeOf(v).dirs[i]| < MAX_ENTRIES
  {
    DirBytes(v, i);
  }

  /** No inode but `i` changed. */
  ghost predicate OthersKept(v: Volume, w: Volume, i: int) {
    && (forall j :: j != i ==> (j in w.nodes <==> j in v.nodes))
    && (forall j :: j != i && j in v.nodes ==> w.nodes[j] == v.nodes[j])
    && (forall j :: j != i && j in v.nodes ==> Content(w, w.nodes[j]) == Content(v, v.nodes[j]))
  }

  lemma FilesBut(v: Volume, w: Volume, i: int)
    requires OthersKept(v, w, i)
    ensures TreeOf(w).files - {i} == TreeOf(v).files - {i} && TreeOf(w).dirs - {i} == TreeOf(v).dirs - {i}
  {
    hide OthersKept, TreeOf;
    forall j | j != i
      ensures j in TreeOf(w).files <==> j in TreeOf(v).files
      ensures j in TreeOf(w).dirs <==> j in TreeOf(v).dirs
      ensures j in TreeOf(w).files ==> TreeOf(w).files[j] == TreeOf(v).files[j]
      ensures j in TreeOf(w).dirs ==> TreeOf(w).dirs[j] == TreeOf(v).dirs[j]
    {
      SameInTree(v, w, i, j);
    }
  }

  lemma SameInTree(v: Volume, w: Volume, i: int, j: int)
    requires OthersKept(v, w, i) && j != i
    ensures j in TreeOf(w).files <==> j in TreeOf(v).files
    ensures j in TreeOf(w).dirs <==> j in TreeOf(v).dirs
    ensures j in TreeOf(w).files ==> TreeOf(w).files[j] == TreeOf(v).files[j]
    ensures j in TreeOf(w).dirs ==> TreeOf(w).dirs[j] == TreeOf(v).dirs[j]
  {
    if j in v.nodes { assert w.nodes[j] == v.nodes[j] && Content(w, w.nodes[j]) == Content(v, v.nodes[j]); }
  }

  lemma DirChanged(v: Volume, w: Volume, i: int)
    requires OthersKept(v, w, i) && i in w.nodes && w.nodes[i].isDirectory && (i in v.nodes ==> v.nodes[i].isDirectory)
    ensures TreeOf(w) == TreeOf(v).(dirs := TreeOf(v).dirs[i := Parse(Content(w, w.nodes[i]))])
  {
    hide OthersKept, Parse, Content;
    FilesBut(v, w, i);
    assert TreeOf(w).files == TreeOf(w).files - {i} && TreeOf(v).files == TreeOf(v).files - {i};
    assert TreeOf(w).dirs == (TreeOf(w).dirs - {i})[i := Parse(Content(w, w.nodes[i]))];
  }

  lemma FileChanged(v: Volume, w: Volume, i: int)
    requires OthersKept(v, w, i) && i in w.nodes && !w.nodes[i].isDirectory && (i in v.nodes ==> !v.nodes[i].isDirectory)
    ensures TreeOf(w) == TreeOf(v).(files := TreeOf(v).files[i := Content(w, w.nodes[i])])
  {
    hide OthersKept, Parse, Content;
    FilesBut(v, w, i);
    assert TreeOf(w).dirs == TreeOf(w).dirs - {i} && TreeOf(v).dirs == TreeOf(v).dirs - {i};
    assert TreeOf(w).files == (TreeOf(w).files - {i})[i := Content(w, w.nodes[i])];
  }

  lemma FileGone(v: Volume, w: Volume, i: int)
    requires OthersKept(v, w, i) && i !in w.nodes && i in v.nodes && !v.nodes[i].isDirectory
    ensures TreeOf(w) == TreeOf(v).(files := TreeOf(v).files - {i})
  {
    FilesBut(v, w, i);
    assert TreeOf(w).dirs == TreeOf(w).dirs - {i} && TreeOf(v).dirs == TreeOf(v).dirs - {i};
    assert TreeOf(w).files == TreeOf(w).files - {i};
  }

  lemma ExtendKept(v: Volume, i: int, chunk: seq<byte>, d: int)
    requires Owned(v) && CanExtend(v, i, chunk, d)
    ensures OthersKept(v, Extend(v, i, chunk, d), i)
  {
    forall j | j in v.nodes && j != i
      ensures var w := Extend(v, i, chunk, d); w.nodes[j] == v.nodes[j] && Content(w, w.nodes[j]) == Content(v, v.nodes[j])
    {
      ExtendSparesOthers(v, i, chunk, d, j);
    }
  }

  /** Appending to a file. */
  lemma ExtendFile(v: Volume, i: int, chunk: seq<byte>, d: int)
    requires Sound(v) && CanExtend(v, i, chunk, d) && !v.nodes[i].isDirectory
    ensures Sound(Extend(v, i, chunk, d)) && TreeOf(Extend(v, i, chunk, d)) == AppendFile(TreeOf(v), i, chunk)
  {
    ExtendKeepsOwned(v, i, chunk, d);
    ExtendKept(v, i, chunk, d);
    ExtendAppends(v, i, chunk, d);
    FileChanged(v, Extend(v, i, chunk, d), i);
    AppendKeepsWellFormed(TreeOf(v), i, chunk);
  }

  /** Pushing an entry onto a directory. */
  lemma ExtendDir(v: Volume, i: int, e: DirEntry, d: int)
    requires Owned(v) && DirSizes(v) && e.Encodable() && CanExtend(v, i, EncodeEntry(e), d) && v.nodes[i].isDirectory
    ensures var w := Extend(v, i, EncodeEntry(e), d);
      Owned(w) && DirSizes(w) && TreeOf(w) == TreeOf(v).(dirs := TreeOf(v).dirs[i := TreeOf(v).dirs[i] + [e]])
  {
    ExtendKeepsOwned(v, i, EncodeEntry(e), d);
    ExtendKept(v, i, EncodeEntry(e), d);
    ExtendAppends(v, i, EncodeEntry(e), d);
    ParsePush(Content(v, v.nodes[i]), e);
    DirChanged(v, Extend(v, i, EncodeEntry(e), d), i);
  }

  /** Allocating an inode. */
  lemma AddNodeTree(v: Volume, i: int, isDirectory: bool)
    requires Owned(v) && DirSizes(v) && i !in v.nodes && v.base > 0
    ensures var w := AddNode(v, i, isDirectory);
      && Owned(w) && DirSizes(w)
      && TreeOf(w) == if isDirectory then TreeOf(v).(dirs := TreeOf(v).dirs[i := []]) else TreeOf(v).(files := TreeOf(v).files[i := []])
  {
    var w := AddNode(v, i, isDirectory);
    AddNodeKeepsOwned(v, i, isDirectory);
    forall j | j in v.nodes ensures Content(w, v.nodes[j]) == Content(v, v.nodes[j]) { SameData(v, w, v.nodes[j]); }
    if isDirectory { DirChanged(v, w, i); } else { FileChanged(v, w, i); }
  }

  /** Replacing the block of a directory. */
  lemma PatchDir(v: Volume, d: int, buf: Block, size: int)
    requires Owned(v) && DirSizes(v) && OneBlock(v, d) && v.nodes[d].isDirectory && 0 < size <= BLOCK && size % ENTRY_BYTES == 0
    ensures var w := Patch(v, d, buf, size);
      && Owned(w) && DirSizes(w) && TreeOf(w) == TreeOf(v).(dirs := TreeOf(v).dirs[d := Parse(buf[..size])])
  {
    PatchKeepsOwned(v, d, buf, size);
    forall j | j in v.nodes && j != d ensures Content(Patch(v, d, buf, size), v.nodes[j]) == Content(v, v.nodes[j]) {
      PatchSparesOthers(v, d, buf, size, j);
    }
    PatchContent(v, d, buf, size);
    DirChanged(v, Patch(v, d, buf, size), d);
  }

  /** Freeing the inode of a file. */
  lemma DropFile(v: Volume, i: int)
    requires Owned(v) && DirSizes(v) && i in v.nodes && !v.nodes[i].isDirectory
    ensures var w := DropNode(v, i); Owned(w) && DirSizes(w) && TreeOf(w) == TreeOf(v).(files := TreeOf(v).files - {i})
  {
    DropNodeKeepsOwned(v, i);
    forall j | j in v.nodes && j != i ensures Content(DropNode(v, i), v.nodes[j]) == Content(v, v.nodes[j]) {
      DropNodeSparesOthers(v, i, j);
    }
    FileGone(v, DropNode(v, i), i);
  }

  /** The volume after swap-removing entry `m` of directory `d`. */
  ghost function Unlinked(v: Volume, d: int, m: int): Volume
    requires OneBlock(v, d) && 0 <= m < v.nodes[d].size / ENTRY_BYTES
  {
    var n := v.nodes[d];
    Patch(v, d, SwapBytes(BlockOf(v, n.blocks[0]), n.size / ENTRY_BYTES, m), n.size - ENTRY_BYTES)
  }

  lemma WholeEntries(size: int)
    requires size % ENTRY_BYTES == 0 && size > ENTRY_BYTES
    ensures size == ENTRY_BYTES * (size / ENTRY_BYTES) && size - ENTRY_BYTES == ENTRY_BYTES * (size / ENTRY_BYTES - 1)
    ensures (size - ENTRY_BYTES) % ENTRY_BYTES == 0
  {
  }

  lemma UnlinkedTree(v: Volume, d: int, m: int)
    requires Owned(v) && DirSizes(v) && OneBlock(v, d) && v.nodes[d].isDirectory && 0 <= m < v.nodes[d].size / ENTRY_BYTES
    requires v.nodes[d].size > ENTRY_BYTES
    ensures var es := Parse(Content(v, v.nodes[d]));
      && |es| == v.nodes[d].size / ENTRY_BYTES && Owned(Unlinked(v, d, m)) && DirSizes(Unlinked(v, d, m))
      && TreeOf(Unlinked(v, d, m)) == TreeOf(v).(dirs := TreeOf(v).dirs[d := SwapRemove(es, m)])
  {
    var n := v.nodes[d].size / ENTRY_BYTES;
    var buf := BlockOf(v, v.nodes[d].blocks[0]);
    assert v.nodes[d].size % ENTRY_BYTES == 0;
    WholeEntries(v.nodes[d].size);
    hide Owned, DirSizes, Content, Parse, SwapBytes, TreeOf;
    PatchContent(v, d, buf, ENTRY_BYTES);
    PatchDir(v, d, SwapBytes(buf, n, m), v.nodes[d].size - ENTRY_BYTES);
    ParseSwap(buf, n, m);
  }

  /** Removing a file: its entry, then its inode. */
  lemma RemovedTree(v: Volume, d: int, m: int)
    requires Sound(v) && CanRemove(TreeOf(v), d, m)
    ensures OneBlock(v, d) && v.nodes[d].size / ENTRY_BYTES == |TreeOf(v).dirs[d]|
    ensures var w := DropNode(Unlinked(v, d, m), TreeOf(v).dirs[d][m].inode);
      Sound(w) && TreeOf(w) == RemoveFile(TreeOf(v), d, m)
  {
    DirBytes(v, d);
    UnlinkedTree(v, d, m);
    DropFile(Unlinked(v, d, m), TreeOf(v).dirs[d][m].inode);
    RemoveKeepsWellFormed(TreeOf(v), d, m);
  }

  lemma UnlinkedNodes(v: Volume, d: int, m: int, i: int)
    requires Sound(v) && CanRemove(TreeOf(v), d, m) && i == TreeOf(v).dirs[d][m].inode
    ensures OneBlock(v, d) && v.nodes[d].size / ENTRY_BYTES == |TreeOf(v).dirs[d]|
    ensures var w := Unlinked(v, d, m); Owned(w) && i != d && i in w.nodes && w.nodes[i] == v.nodes[i]
  {
    DirBytes(v, d);
    UnlinkedTree(v, d, m);
  }

  // ---------------------------------------------------------------------------------------
  // Creating
  // ---------------------------------------------------------------------------------------

  /** Inode `i` added and entered in directory `d`, whose block is `p`. */
  ghost predicate CanEnter(v: Volume, d: int, name: seq<byte>, i: int, isDirectory: bool, p: int) {
    && i !in v.nodes && 0 <= i < U32_LIMIT && d in v.nodes && v.nodes[d].isDirectory && v.base > 0
    && CanExtend(AddNode(v, i, isDirectory), d, EncodeEntry(NewEntry(name, i)), p)
  }

  ghost function Enter(v: Volume, d: int, name: seq<byte>, i: int, isDirectory: bool, p: int): Volume
    requires CanEnter(v, d, name, i, isDirectory, p)
  {
    Extend(AddNode(v, i, isDirectory), d, EncodeEntry(NewEntry(name, i)), p)
  }

  lemma EnterTree(v: Volume, d: int, name: seq<byte>, i: int, isDirectory: bool, p: int)
    requires Owned(v) && DirSizes(v) && CanEnter(v, d, name, i, isDirectory, p)
    ensures var w, t := Enter(v, d, name, i, isDirectory, p), TreeOf(v);
      && Owned(w) && DirSizes(w)
      && TreeOf(w) == if isDirectory then t.(dirs := t.dirs[i := []][d := t.dirs[d] + [NewEntry(name, i)]]) else CreateFile(t, d, name, i)
  {
    AddNodeTree(v, i, isDirectory);
    ExtendDir(AddNode(v, i, isDirectory), d, NewEntry(name, i), p);
  }

  /** `.` and `..` written into an empty directory. */
  ghost predicate CanDot(v: Volume, i: int, d: int, p: int) {
    && i in v.nodes && v.nodes[i].isDirectory && v.nodes[i].size == 0 && 0 <= i < U32_LIMIT && 0 <= d < U32_LIMIT
    && CanExtend(v, i, EncodeEntry(NewEntry(DOT, i)), p)
    && CanExtend(Extend(v, i, EncodeEntry(NewEntry(DOT, i)), p), i, EncodeEntry(NewEntry(DOT_DOT, d)), p)
  }

  ghost function Dot(v: Volume, i: int, d: int, p: int): Volume
    requires CanDot(v, i, d, p)
  {
    Extend(Extend(v, i, EncodeEntry(NewEntry(DOT, i)), p), i, EncodeEntry(NewEntry(DOT_DOT, d)), p)
  }

  lemma PushTwice(t: Tree, t1: Tree, t2: Tree, i: int, a: DirEntry, b: DirEntry)
    requires i in t.dirs && t.dirs[i] == [] && t1 == t.(dirs := t.dirs[i := t.dirs[i] + [a]])
    requires t2 == t1.(dirs := t1.dirs[i := t1.dirs[i] + [b]])
    ensures t2 == t.(dirs := t.dirs[i := [a, b]])
  {
    assert t.dirs[i] + [a] + [b] == [a, b];
    assert t2.dirs == t.dirs[i := [a, b]];
  }

  lemma DotTree(v: Volume, i: int, d: int, p: int)
    requires Owned(v) && DirSizes(v) && CanDot(v, i, d, p)
    ensures var w := Dot(v, i, d, p); Owned(w) && DirSizes(w) && TreeOf(w) == TreeOf(v).(dirs := TreeOf(v).dirs[i := DotEntries(i, d)])
  {
    var a, b := NewEntry(DOT, i), NewEntry(DOT_DOT, d);
    var v1 := Extend(v, i, EncodeEntry(a), p);
    ExtendDir(v, i, a, p);
    ExtendDir(v1, i, b, p);
    assert Content(v, v.nodes[i]) == [];
    PushTwice(TreeOf(v), TreeOf(v1), TreeOf(Dot(v, i, d, p)), i, a, b);
  }

  lemma EnterSound(v: Volume, d: int, name: seq<byte>, i: int, p: int)
    requires Sound(v) && CanEnter(v, d, name, i, false, p) && CanLink(TreeOf(v), d, name, i)
    ensures var w := Enter(v, d, name, i, false, p); Sound(w) && TreeOf(w) == Linked(TreeOf(v), d, name, i, false)
  {
    EnterTree(v, d, name, i, false, p);
    CreateKeepsWellFormed(TreeOf(v), d, name, i, false);
  }

  lemma MakeDirMaps(dirs: map<int, seq<DirEntry>>, i: int, d: int, a: seq<DirEntry>, b: seq<DirEntry>)
    requires i != d
    ensures dirs[i := []][d := a][i := b] == dirs[d := a][i := b]
  {
  }

  lemma EnterDirSound(v: Volume, d: int, name: seq<byte>, i: int, p: int, q: int)
    requires Sound(v) && CanEnter(v, d, name, i, true, p) && CanLink(TreeOf(v), d, name, i) && CanDot(Enter(v, d, name, i, true, p), i, d, q)
    ensures var w := Dot(Enter(v, d, name, i, true, p), i, d, q); Sound(w) && TreeOf(w) == Linked(TreeOf(v), d, name, i, true)
  {
    EnterTree(v, d, name, i, true, p);
    DotTree(Enter(v, d, name, i, true, p), i, d, q);
    MakeDirMaps(TreeOf(v).dirs, i, d, TreeOf(v).dirs[d] + [NewEntry(name, i)], DotEntries(i, d));
    CreateKeepsWellFormed(TreeOf(v), d, name, i, true);
  }
}
