/** The two ways of reading a directory: all at once, and entry by entry. */
module DirReaders {
  import opened Guards
  import opened Codec
  import opened Records
  import opened Options
  import opened Disks
  import opened Volumes
  import opened Views

  const PER_BLOCK: int := 18  // BLOCK / ENTRY_BYTES

  function Min(a: int, b: int): int { if a < b then a else b }

  /** Slots hold block numbers of the device, 0 for none. */
  ghost predicate OnDisk(disk: seq<Block>, n: INode) {
    |n.blocks| == INODE_BLOCKS && 0 <= n.size && forall k :: 0 <= k < INODE_BLOCKS ==> 0 <= n.blocks[k] < |disk|
  }

  // ---------------------------------------------------------------------------------------
  // Rows of entries, one row to a slot
  // ---------------------------------------------------------------------------------------

  /** The first `c` rows, one after the other. */
  function Flat<T>(rows: seq<seq<T>>, c: int): seq<T>
    requires 0 <= c <= |rows|
    decreases c
  {
    if c == 0 then [] else Flat(rows, c - 1) + rows[c - 1]
  }

  lemma {:induction false} FlatPrefix<T>(rows: seq<seq<T>>, c: int)
    requires 0 <= c <= |rows|
    ensures Flat(rows, c) <= Flat(rows, |rows|)
    decreases |rows| - c
  {
    if c < |rows| { FlatPrefix(rows, c + 1); }
  }

  lemma InRow<T>(rows: seq<seq<T>>, c: int, s: int)
    requires 0 <= c < |rows| && 0 <= s < |rows[c]|
    ensures var m := |Flat(rows, c)| + s; m < |Flat(rows, |rows|)| && Flat(rows, |rows|)[m] == rows[c][s]
  {
    FlatPrefix(rows, c + 1);
    assert Flat(rows, c + 1)[|Flat(rows, c)| + s] == rows[c][s];
  }

  /** The beginning of the rows, cut off after `total` elements. */
  function Cut<T>(rows: seq<seq<T>>, total: int): (r: seq<T>)
    requires 0 <= total
  {
    var all := Flat(rows, |rows|);
    all[..Min(total, |all|)]
  }

  function Row(disk: seq<Block>, b: int): (es: seq<DirEntry>)
    requires 0 <= b < |disk|
    ensures |es| == if b == 0 then 0 else PER_BLOCK
  {
    if b == 0 then [] else seq(PER_BLOCK, s requires 0 <= s < PER_BLOCK => EntryAt(disk[b], s))
  }

  function Rows(disk: seq<Block>, n: INode): (rows: seq<seq<DirEntry>>)
    requires OnDisk(disk, n)
    ensures |rows| == INODE_BLOCKS
  {
    seq(INODE_BLOCKS, k requires 0 <= k < INODE_BLOCKS => Row(disk, n.blocks[k]))
  }

  /** The directory: 18 entries for each slot in use, as many as its size calls for if there are that many. */
  function Listing(disk: seq<Block>, n: INode): seq<DirEntry>
    requires OnDisk(disk, n)
  {
    Cut(Rows(disk, n), n.size / ENTRY_BYTES)
  }

  /** `rows` are the rows of the directory; guarded by `OnRows`. */
  ghost predicate RowsOf(rows: seq<seq<DirEntry>>, disk: seq<Block>, n: INode) {
    |rows| == INODE_BLOCKS && forall x {:trigger Open(OnRows, x)} :: Open(OnRows, x) ==> OnDisk(disk, n) && rows == Rows(disk, n)
  }

  lemma RowAt(rows: seq<seq<DirEntry>>, disk: seq<Block>, n: INode, c: int)
    requires RowsOf(rows, disk, n) && 0 <= c < INODE_BLOCKS
    ensures OnDisk(disk, n) && 0 <= n.blocks[c] < |disk| && (n.blocks[c] == 0 ==> rows[c] == [])
    ensures n.blocks[c] != 0 ==> |rows[c]| == PER_BLOCK
  {
    assert Open(OnRows, 0);
  }

  lemma EntryOfRow(rows: seq<seq<DirEntry>>, disk: seq<Block>, n: INode, c: int, s: int)
    requires RowsOf(rows, disk, n) && 0 <= c < INODE_BLOCKS && |n.blocks| == INODE_BLOCKS && 0 < n.blocks[c] < |disk| && 0 <= s < PER_BLOCK
    ensures |rows[c]| == PER_BLOCK && rows[c][s] == EntryAt(disk[n.blocks[c]], s)
  {
    assert Open(OnRows, 0);
  }

  lemma ListingOfRows(rows: seq<seq<DirEntry>>, disk: seq<Block>, n: INode)
    requires RowsOf(rows, disk, n)
    ensures OnDisk(disk, n) && Listing(disk, n) == Cut(rows, n.size / ENTRY_BYTES)
  {
    assert Open(OnRows, 0);
  }

  // ---------------------------------------------------------------------------------------
  // All at once
  // ---------------------------------------------------------------------------------------

  /** The entries of one block, as far as more are wanted. */
  method ReadBlock(disk: seq<Block>, n: INode, c: int, soFar: seq<DirEntry>, ghost rows: seq<seq<DirEntry>>) returns (res: seq<DirEntry>)
    requires RowsOf(rows, disk, n) && |n.blocks| == INODE_BLOCKS && 0 <= c < INODE_BLOCKS && 0 < n.blocks[c] < |disk|
    requires |soFar| <= n.size / ENTRY_BYTES
    ensures |rows[c]| == PER_BLOCK && res == soFar + rows[c][..Min(n.size / ENTRY_BYTES - |soFar|, PER_BLOCK)]
  {
    res := soFar;
    EntryOfRow(rows, disk, n, c, 0);
    for s := 0 to Min(n.size / ENTRY_BYTES - |soFar|, PER_BLOCK)
      invariant |rows[c]| == PER_BLOCK && res == soFar + rows[c][..s]
    {
      EntryOfRow(rows, disk, n, c, s);
      res := res + [EntryAt(disk[n.blocks[c]], s)];
    }
  }

  /** `read_dir_entry` on the inode it looked up. */
  method ReadEntries(disk: seq<Block>, n: INode) returns (res: seq<DirEntry>)
    requires OnDisk(disk, n)
    ensures res == if n.isDirectory then Listing(disk, n) else []
  {
    if n.size == 0 || !n.isDirectory {
      return [];
    }
    ghost var rows := Rows(disk, n);
    res := ReadRows(disk, n, rows);
    ListingOfRows(rows, disk, n);
  }

  method ReadRows(disk: seq<Block>, n: INode, ghost rows: seq<seq<DirEntry>>) returns (res: seq<DirEntry>)
    requires RowsOf(rows, disk, n) && |n.blocks| == INODE_BLOCKS && 0 <= n.size
    ensures res == Cut(rows, n.size / ENTRY_BYTES)
  {
    var maxItems := n.size / ENTRY_BYTES;
    res := [];
    for c := 0 to INODE_BLOCKS
      invariant res == Flat(rows, c) && |res| <= maxItems
    {
      RowAt(rows, disk, n, c);
      FlatPrefix(rows, c + 1);
      if n.blocks[c] != 0 {
        res := ReadBlock(disk, n, c, res, rows);
        if |res| == maxItems {
          return;
        }
      }
    }
  }

  // ---------------------------------------------------------------------------------------
  // Entry by entry
  // ---------------------------------------------------------------------------------------

  datatype PositionDirEntry = PositionDirEntry(entry: DirEntry, blockIndex: int, byteOffset: int, logicalIndex: int)

  /** The reported place is that of entry number `p.logicalIndex`, which lies in slot `c`. */
  ghost predicate InSlot(disk: seq<Block>, n: INode, p: PositionDirEntry, c: int)
    requires OnDisk(disk, n)
  {
    && 0 <= c < INODE_BLOCKS && p.blockIndex == n.blocks[c] != 0
    && 0 <= p.logicalIndex - |Flat(Rows(disk, n), c)| < PER_BLOCK
    && p.byteOffset == ENTRY_BYTES * (p.logicalIndex - |Flat(Rows(disk, n), c)|)
  }

  /** The reported place is that of the entry in the directory, and the entry decodes from the bytes there.
      Guarded by `OnPlaces`. */
  ghost predicate Located(disk: seq<Block>, n: INode, p: PositionDirEntry) {
    forall x {:trigger Open(OnPlaces, x)} :: Open(OnPlaces, x) ==> OnDisk(disk, n) && Decodes(disk, p) && exists c :: InSlot(disk, n, p, c)
  }

  ghost predicate Decodes(disk: seq<Block>, p: PositionDirEntry) {
    && 0 < p.blockIndex < |disk| && 0 <= p.byteOffset <= 484
    && DecodeEntry(disk[p.blockIndex][p.byteOffset..p.byteOffset + ENTRY_BYTES]) == p.entry
  }

  /** Where the reader stands after `k` elements of the rows.  While elements of the current row remain, the
      cursor is just past it; otherwise all rows up to the cursor have been read. */
  ghost predicate At<T>(rows: seq<seq<T>>, total: int, cursor: int, pos: int, len: int, k: int) {
    && 0 <= cursor <= |rows| && 0 <= pos <= len && 0 <= k <= total
    && if pos == len then k == Min(total, |Flat(rows, cursor)|)
       else 0 < cursor && k == |Flat(rows, cursor - 1)| + pos && len == Min(total - |Flat(rows, cursor - 1)|, |rows[cursor - 1]|)
  }

  lemma AtBounds<T>(rows: seq<seq<T>>, total: int, cursor: int, pos: int, len: int, k: int)
    requires At(rows, total, cursor, pos, len, k)
    ensures k <= |Cut(rows, total)| <= total && (pos < len ==> k < |Cut(rows, total)|)
    ensures pos == len && cursor == |rows| ==> k == |Cut(rows, total)|
  {
    FlatPrefix(rows, cursor);
  }

  lemma AtTake<T>(rows: seq<seq<T>>, total: int, cursor: int, pos: int, len: int, k: int)
    requires At(rows, total, cursor, pos, len, k) && pos < len
    ensures At(rows, total, cursor, pos + 1, len, k + 1) && k < |Cut(rows, total)| && Cut(rows, total)[k] == rows[cursor - 1][pos]
  {
    InRow(rows, cursor - 1, pos);
  }

  /** The fields of a reader that move: the next slot, the block loaded last, the next entry in it, the number
      of its entries to yield, and the number of entries still to yield. */
  datatype Cursor = Cursor(slot: int, buf: Block, pos: int, len: int, remaining: int)

  /** A reader that goes through `all`, guarded by `OnRows`. */
  ghost predicate State(disk: seq<Block>, n: INode, all: seq<DirEntry>, total: int, c: Cursor) {
    forall x {:trigger Open(OnRows, x)} :: Open(OnRows, x) ==>
      && OnDisk(disk, n) && 0 <= c.remaining <= total && all == Cut(Rows(disk, n), total)
      && At(Rows(disk, n), total, c.slot, c.pos, c.len, total - c.remaining)
      && (c.pos < c.len ==> 0 < c.slot && n.blocks[c.slot - 1] != 0 && c.buf == disk[n.blocks[c.slot - 1]])
  }

  lemma Bounds(disk: seq<Block>, n: INode, all: seq<DirEntry>, total: int, c: Cursor)
    requires State(disk, n, all, total, c)
    ensures |n.blocks| == INODE_BLOCKS && 0 <= c.slot <= INODE_BLOCKS && 0 <= c.pos <= c.len && 0 <= c.remaining <= total
    ensures c.slot < INODE_BLOCKS ==> 0 <= n.blocks[c.slot] < |disk|
    ensures total - c.remaining <= |all| <= total && (c.pos < c.len ==> 0 < c.slot && c.pos < PER_BLOCK && total - c.remaining < |all|)
    ensures c.pos == c.len && c.slot == INODE_BLOCKS ==> total - c.remaining == |all|
  {
    assert Open(OnRows, 0);
    AtBounds(Rows(disk, n), total, c.slot, c.pos, c.len, total - c.remaining);
  }

  lemma Skipped(disk: seq<Block>, n: INode, all: seq<DirEntry>, total: int, c: Cursor)
    requires State(disk, n, all, total, c) && c.pos == c.len && 0 <= c.slot < |n.blocks| && n.blocks[c.slot] == 0
    ensures State(disk, n, all, total, c.(slot := c.slot + 1))
  {
    assert Open(OnRows, 0);
    assert Flat(Rows(disk, n), c.slot + 1) == Flat(Rows(disk, n), c.slot);
  }

  lemma Loaded(disk: seq<Block>, n: INode, all: seq<DirEntry>, total: int, c: Cursor)
    requires State(disk, n, all, total, c) && c.pos == c.len && 0 <= c.slot < |n.blocks| && 0 < n.blocks[c.slot] < |disk| && c.remaining > 0
    ensures State(disk, n, all, total, Cursor(c.slot + 1, disk[n.blocks[c.slot]], 0, Min(c.remaining, PER_BLOCK), c.remaining))
  {
    assert Open(OnRows, 0);
  }

  lemma Taken(disk: seq<Block>, n: INode, all: seq<DirEntry>, total: int, c: Cursor)
    requires State(disk, n, all, total, c) && 0 <= c.pos < c.len
    ensures State(disk, n, all, total, c.(pos := c.pos + 1, remaining := c.remaining - 1))
  {
    assert Open(OnRows, 0);
    AtTake(Rows(disk, n), total, c.slot, c.pos, c.len, total - c.remaining);
  }

  lemma Opened(disk: seq<Block>, n: INode, all: seq<DirEntry>, total: int, c: Cursor) returns (rows: seq<seq<DirEntry>>)
    requires State(disk, n, all, total, c) && 0 <= c.pos < c.len
    ensures RowsOf(rows, disk, n) && 0 <= total && all == Cut(rows, total) && At(rows, total, c.slot, c.pos, c.len, total - c.remaining)
    ensures |n.blocks| == INODE_BLOCKS && 0 < c.slot <= INODE_BLOCKS && 0 < n.blocks[c.slot - 1] < |disk| && c.buf == disk[n.blocks[c.slot - 1]]
  {
    assert Open(OnRows, 0);
    rows := Rows(disk, n);
  }

  lemma TakenIs(disk: seq<Block>, n: INode, all: seq<DirEntry>, total: int, c: Cursor)
    requires State(disk, n, all, total, c) && 0 <= c.pos < c.len && c.pos < PER_BLOCK
    ensures 0 <= total - c.remaining < |all| && EntryAt(c.buf, c.pos) == all[total - c.remaining]
  {
    hide State, RowsOf, Cut, EntryAt;
    var rows := Opened(disk, n, all, total, c);
    AtTake(rows, total, c.slot, c.pos, c.len, total - c.remaining);
    assert all[total - c.remaining] == rows[c.slot - 1][c.pos];
    EntryOfRow(rows, disk, n, c.slot - 1, c.pos);
  }

  lemma TakenFrom(disk: seq<Block>, n: INode, all: seq<DirEntry>, total: int, c: Cursor)
    requires State(disk, n, all, total, c) && 0 <= c.pos < c.len && c.pos < PER_BLOCK && 0 < c.slot <= |n.blocks|
    ensures Located(disk, n, PositionDirEntry(EntryAt(c.buf, c.pos), n.blocks[c.slot - 1], c.pos * ENTRY_BYTES, total - c.remaining))
  {
    var p := PositionDirEntry(EntryAt(c.buf, c.pos), n.blocks[c.slot - 1], c.pos * ENTRY_BYTES, total - c.remaining);
    TakenSlot(disk, n, all, total, c, p);
    assert p.byteOffset == ENTRY_BYTES * c.pos;
  }

  lemma TakenSlot(disk: seq<Block>, n: INode, all: seq<DirEntry>, total: int, c: Cursor, p: PositionDirEntry)
    requires State(disk, n, all, total, c) && 0 <= c.pos < c.len && c.pos < PER_BLOCK && 0 < c.slot <= |n.blocks|
    requires p.blockIndex == n.blocks[c.slot - 1] && p.byteOffset == c.pos * ENTRY_BYTES && p.logicalIndex == total - c.remaining
    ensures OnDisk(disk, n) && 0 < p.blockIndex < |disk| && c.buf == disk[p.blockIndex] && InSlot(disk, n, p, c.slot - 1)
  {
    hide EntryAt, Cut;
    assert Open(OnRows, 0);
  }

  /** Decode the entry at the cursor. */
  method Take(disk: seq<Block>, n: INode, ghost all: seq<DirEntry>, total: int, c: Cursor) returns (p: PositionDirEntry)
    requires State(disk, n, all, total, c) && c.pos < c.len
    ensures State(disk, n, all, total, c.(pos := c.pos + 1, remaining := c.remaining - 1))
    ensures 0 <= total - c.remaining < |all| && p.entry == all[total - c.remaining]
    ensures p.logicalIndex == total - c.remaining && Located(disk, n, p)
  {
    Bounds(disk, n, all, total, c);
    Taken(disk, n, all, total, c);
    TakenIs(disk, n, all, total, c);
    TakenFrom(disk, n, all, total, c);
    p := PositionDirEntry(EntryAt(c.buf, c.pos), n.blocks[c.slot - 1], c.pos * ENTRY_BYTES, total - c.remaining);
  }

  /** `load_next_block`: load the block of the next slot in use. */
  method LoadNextBlock(disk: seq<Block>, n: INode, ghost all: seq<DirEntry>, ghost total: int, from: Cursor) returns (ok: bool, c: Cursor)
    requires State(disk, n, all, total, from) && from.pos == from.len && from.remaining > 0
    ensures State(disk, n, all, total, c) && c.remaining == from.remaining && ok == (c.pos < c.len) == (total - c.remaining < |all|)
  {
    c := from;
    while c.slot < INODE_BLOCKS
      invariant State(disk, n, all, total, c) && c.pos == c.len && c.remaining == from.remaining
      decreases INODE_BLOCKS - c.slot
    {
      Bounds(disk, n, all, total, c);
      if n.blocks[c.slot] != 0 {
        Loaded(disk, n, all, total, c);
        c := Cursor(c.slot + 1, disk[n.blocks[c.slot]], 0, Min(c.remaining, PER_BLOCK), c.remaining);
        Bounds(disk, n, all, total, c);
        return true, c;
      }
      Skipped(disk, n, all, total, c);
      c := c.(slot := c.slot + 1);
    }
    Bounds(disk, n, all, total, c);
    return false, c;
  }

  /** `next`, on the cursor. */
  method Advance(disk: seq<Block>, n: INode, ghost all: seq<DirEntry>, total: int, from: Cursor) returns (r: Option<PositionDirEntry>, c: Cursor)
    requires State(disk, n, all, total, from)
    ensures State(disk, n, all, total, c) && 0 <= total - from.remaining <= |all| && 0 <= c.remaining
    ensures r.Some? == (total - from.remaining < |all|) && c.remaining == from.remaining - (if r.Some? then 1 else 0)
    ensures r.Some? ==> r.value.logicalIndex == total - from.remaining && r.value.entry == all[total - from.remaining] && Located(disk, n, r.value)
  {
    c := from;
    Bounds(disk, n, all, total, c);
    if c.remaining == 0 {
      return None, c;
    }
    if c.pos >= c.len {
      var loaded;
      loaded, c := LoadNextBlock(disk, n, all, total, c);
      if !loaded {
        return None, c;
      }
    }
    Bounds(disk, n, all, total, c);
    var p := Take(disk, n, all, total, c);
    c := c.(pos := c.pos + 1, remaining := c.remaining - 1);
    return Some(p), c;
  }

  class DirEntryReader {
    const disk: seq<Block>
    const inode: INode
    const total: int
    var cursor: Cursor
    ghost const all: seq<DirEntry>

    /** Entries yielded so far. */
    ghost function Yielded(): int
      reads this
    {
      total - cursor.remaining
    }

    ghost predicate Valid()
      reads this
    {
      State(disk, inode, all, total, cursor)
    }

    constructor (disk: seq<Block>, inode: INode)
      requires OnDisk(disk, inode) && inode.isDirectory
      ensures Valid() && this.disk == disk && this.inode == inode && Yielded() == 0 && all == Listing(disk, inode)
    {
      this.disk, this.inode, all := disk, inode, Listing(disk, inode);
      total := inode.size / ENTRY_BYTES;
      cursor := Cursor(0, Zeros(BLOCK), 0, 0, inode.size / ENTRY_BYTES);
    }

    /** Yields entry after entry of the directory, each with the place it was read from, then nothing. */
    method Next() returns (r: Option<PositionDirEntry>)
      requires Valid()
      modifies this
      ensures Valid() && 0 <= old(Yielded()) <= |all| && cursor.remaining >= 0
      ensures r.Some? == (old(Yielded()) < |all|) && Yielded() == old(Yielded()) + (if r.Some? then 1 else 0)
      ensures r.Some? ==> r.value.logicalIndex == old(Yielded()) && r.value.entry == all[old(Yielded())]
      ensures r.Some? ==> Located(disk, inode, r.value)
    {
      r, cursor := Advance(disk, inode, all, total, cursor);
    }
  }

  /** `find` on the reader, by exact name. */
  method FindPosition(disk: seq<Block>, n: INode, name: seq<byte>) returns (r: Option<PositionDirEntry>)
    requires OnDisk(disk, n) && n.isDirectory
    ensures r.None? ==> forall m :: 0 <= m < |Listing(disk, n)| ==> Listing(disk, n)[m].name() != name
    ensures r.Some? ==> 0 <= r.value.logicalIndex < |Listing(disk, n)| && r.value.entry == Listing(disk, n)[r.value.logicalIndex]
    ensures r.Some? ==> r.value.entry.name() == name && Located(disk, n, r.value)
  {
    hide State, Located, Listing;
    var reader := new DirEntryReader(disk, n);
    while true
      invariant reader.Valid() && reader.disk == disk && reader.inode == n && reader.all == Listing(disk, n) && fresh(reader)
      invariant 0 <= reader.Yielded() <= |reader.all| && forall m :: 0 <= m < reader.Yielded() ==> reader.all[m].name() != name
      decreases reader.cursor.remaining
    {
      var p := reader.Next();
      if p.None? || p.value.entry.name() == name {
        return p;
      }
    }
  }

  /** Running the lazy reader to its end collects exactly what the eager one returns, in order, and every
      place it reports holds the entry it came with. */
  method Collect(disk: seq<Block>, n: INode) returns (ps: seq<PositionDirEntry>)
    requires OnDisk(disk, n) && n.isDirectory
    ensures |ps| == |Listing(disk, n)| && forall m :: 0 <= m < |ps| ==> ps[m].entry == Listing(disk, n)[m]
    ensures forall m :: 0 <= m < |ps| ==> ps[m].logicalIndex == m && Located(disk, n, ps[m])
  {
    hide State, Located, Listing;
    var reader := new DirEntryReader(disk, n);
    ps := [];
    while true
      invariant reader.Valid() && reader.disk == disk && reader.inode == n && reader.all == Listing(disk, n) && fresh(reader)
      invariant |ps| == reader.Yielded() <= |reader.all| && forall m :: 0 <= m < |ps| ==> ps[m].entry == reader.all[m]
      invariant forall m :: 0 <= m < |ps| ==> ps[m].logicalIndex == m && Located(disk, n, ps[m])
      decreases reader.cursor.remaining
    {
      var p := reader.Next();
      if p.None? {
        break;
      }
      ps := ps + [p.value];
    }
  }

  // ---------------------------------------------------------------------------------------
  // Directories of a sound volume
  // ---------------------------------------------------------------------------------------

  lemma {:induction false} OnlyFirst<T>(rows: seq<seq<T>>, c: int)
    requires 0 < c <= |rows| && forall k :: 0 < k < c ==> rows[k] == []
    ensures Flat(rows, c) == rows[0]
  {
    if c > 1 { OnlyFirst(rows, c - 1); } else { assert Flat(rows, 0) == []; }
  }

  /** Disk and volume agree on the data blocks. */
  ghost predicate DataOn(v: Volume, disk: seq<Block>) {
    v.base + |v.data| <= |disk| && forall b :: 0 <= v.base <= b < v.base + |v.data| ==> disk[b] == BlockOf(v, b)
  }

  lemma NodeOnDisk(v: Volume, disk: seq<Block>, i: int)
    requires Owned(v) && i in v.nodes && DataOn(v, disk)
    ensures OnDisk(disk, v.nodes[i])
  {
    NodeShaped(v, i);
    forall k | 0 <= k < INODE_BLOCKS ensures 0 <= v.nodes[i].blocks[k] < |disk| {
      if v.nodes[i].blocks[k] != 0 { SlotOwner(v, i, k); }
    }
  }

  /** What both readers yield for a directory is its entry list in the tree, all of it in the first block. */
  lemma ListingIsDirectory(v: Volume, disk: seq<Block>, i: int)
    requires Sound(v) && i in v.nodes && v.nodes[i].isDirectory && DataOn(v, disk)
    ensures OnDisk(disk, v.nodes[i]) && Listing(disk, v.nodes[i]) == TreeOf(v).dirs[i]
    ensures forall c :: 0 < c < INODE_BLOCKS ==> v.nodes[i].blocks[c] == 0
  {
    var n := v.nodes[i];
    NodeOnDisk(v, disk, i);
    DirBytes(v, i);
    NodeShaped(v, i);
    var rows := Rows(disk, n);
    OnlyFirst(rows, |rows|);
    var count := n.size / ENTRY_BYTES;
    var buf := disk[n.blocks[0]];
    PatchContent(v, i, buf, n.size);
    assert Content(v, n) == buf[..ENTRY_BYTES * count];
    forall m | 0 <= m < count ensures Listing(disk, n)[m] == Parse(Content(v, n))[m] {
      PrefixEntry(buf, count, m);
    }
  }

  /** In a sound volume the place of entry `m` is byte `28 * m` of the directory's block. */
  lemma PlaceInDirectory(v: Volume, disk: seq<Block>, i: int, p: PositionDirEntry)
    requires Sound(v) && i in v.nodes && v.nodes[i].isDirectory && DataOn(v, disk) && Located(disk, v.nodes[i], p)
    ensures |v.nodes[i].blocks| == INODE_BLOCKS && p.blockIndex == v.nodes[i].blocks[0] && p.byteOffset == ENTRY_BYTES * p.logicalIndex
  {
    ListingIsDirectory(v, disk, i);
    assert Open(OnPlaces, 0);
    var n := v.nodes[i];
    var c :| InSlot(disk, n, p, c);
    assert c == 0 && Flat(Rows(disk, n), 0) == [];
  }
}
