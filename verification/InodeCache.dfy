/** The write-back inode cache, against the table it stands for. */
module InodeCaches {
  import opened Records
  import opened Layouts
  import opened Disks
  import opened Bitmaps
  import opened Options

  ghost predicate Cached(inodes: seq<Option<INode>>, i: int) { 0 <= i < |inodes| && inodes[i].Some? }

  /** What inode `i` is: the cached copy, or else the one on disk. */
  ghost function Logical(inodes: seq<Option<INode>>, disk: seq<Block>, l: Layout, i: int): INode
    requires 0 <= i && 0 <= InodeToBlock(l, i).0 < |disk|
  {
    if Cached(inodes, i) then inodes[i].value else InodeAt(disk, l, i)
  }

  /** A clean cached inode equals its slot on disk, and whatever is dirty is cached. */
  ghost predicate Coherent(inodes: seq<Option<INode>>, dirty: set<int>, disk: seq<Block>, l: Layout, count: int) {
    && HasTable(disk, l, count) && |inodes| <= count
    && (forall i :: i in dirty ==> Cached(inodes, i))
    && (forall i :: Cached(inodes, i) ==> inodes[i].value.Encodable())
    && (forall i :: Cached(inodes, i) && i !in dirty ==> inodes[i].value == InodeAt(disk, l, i))
  }

  /** `resize_with(len, Default::default)` */
  function Resize(inodes: seq<Option<INode>>, len: int): (r: seq<Option<INode>>)
    requires |inodes| <= len
    ensures |r| == len && forall i :: 0 <= i < len ==> r[i] == if i < |inodes| then inodes[i] else None
  {
    inodes + seq(len - |inodes|, _ => None)
  }

  class INodeCache {
    var inodes: seq<Option<INode>>
    var dirty: Bitmap
    const layout: Layout

    constructor (layout: Layout, count: nat)
      ensures inodes == [] && dirty == NewBitmap(count) && this.layout == layout
    {
      inodes, dirty, this.layout := [], NewBitmap(count), layout;
    }

    ghost predicate Valid(disk: seq<Block>, count: int)
      reads this
    {
      dirty.Valid() && dirty.len == count && Coherent(inodes, dirty.Set(), disk, layout, count)
    }

    /** Make sure `i` is cached; no inode changes. */
    method Get(i: int, disk: seq<Block>) returns (n: INode)
      requires Valid(disk, dirty.len) && 0 <= i < dirty.len
      modifies this`inodes
      ensures Valid(disk, dirty.len) && |inodes| >= old(|inodes|) && Cached(inodes, i)
      ensures n == inodes[i].value && forall j :: 0 <= j < dirty.len ==> SameLogical(old(inodes), inodes, disk, layout, j)
    {
      SlotInTable(disk, layout, dirty.len, i);
      if |inodes| <= i {
        inodes := Resize(inodes, i + 1);
      }
      if inodes[i].None? {
        var read := ReadInodeAt(disk, layout, i);
        inodes := inodes[i := Some(read)];
      }
      n := inodes[i].value;
    }

    /** As `Get`, and from now on `i` counts as dirty. */
    method GetMut(i: int, disk: seq<Block>) returns (n: INode)
      requires Valid(disk, dirty.len) && 0 <= i < dirty.len
      modifies this
      ensures dirty.len == old(dirty.len) && Valid(disk, dirty.len) && |inodes| >= old(|inodes|) && Cached(inodes, i)
      ensures n == inodes[i].value && i in dirty.Set()
      ensures forall j :: 0 <= j < dirty.len ==> SameLogical(old(inodes), inodes, disk, layout, j)
    {
      n := Get(i, disk);
      dirty := dirty.SetBit(i);
    }

    /** Assign through the reference that `GetMut` lent. */
    method Assign(i: int, n: INode, ghost disk: seq<Block>)
      requires Valid(disk, dirty.len) && Cached(inodes, i) && i in dirty.Set() && n.Encodable()
      modifies this`inodes
      ensures Valid(disk, dirty.len) && inodes == old(inodes)[i := Some(n)]
    {
      inodes := inodes[i := Some(n)];
    }

    /** Forget `i`, changed or not. */
    method Remove(i: int, ghost disk: seq<Block>)
      requires Valid(disk, dirty.len) && 0 <= i < |inodes|
      modifies this
      ensures dirty.len == old(dirty.len) && Valid(disk, dirty.len) && inodes == old(inodes)[i := None]
      ensures dirty.Set() == old(dirty.Set()) - {i}
    {
      inodes := inodes[i := None];
      dirty := dirty.Unset(i);
    }

    /** Cache an inode that has just been written to its slot. */
    method RegisterNewInode(i: int, n: INode, ghost before: seq<Block>, ghost disk: seq<Block>)
      requires Valid(before, dirty.len) && 0 <= i < dirty.len && n.Encodable()
      requires 0 <= InodeToBlock(layout, i).0 < |before| && disk == PutInode(before, layout, i, n)
      modifies this`inodes
      ensures Valid(disk, dirty.len) && |inodes| >= old(|inodes|) && Cached(inodes, i) && inodes[i].value == n
      ensures forall j :: 0 <= j < |inodes| && j != i ==> inodes[j] == if j < old(|inodes|) then old(inodes)[j] else None
    {
      hide InodeAt, PutInode;
      if |inodes| <= i {
        inodes := Resize(inodes, i + 1);
      }
      inodes := inodes[i := Some(n)];
      forall j | Cached(inodes, j) && j !in dirty.Set() ensures inodes[j].value == InodeAt(disk, layout, j) {
        SlotInTable(before, layout, dirty.len, j);
        PutInodeChangesOneSlot(before, layout, i, n, j);
      }
    }

    /** Hand out every dirty inode once, and call them clean. */
    method Drain(ghost disk: seq<Block>) returns (drained: seq<(int, INode)>)
      requires Valid(disk, dirty.len)
      modifies this`dirty
      ensures dirty.Valid() && dirty.len == old(dirty.len) && dirty.Set() == {}
      ensures forall k :: 0 <= k < |drained| ==> Cached(inodes, drained[k].0) && drained[k].1 == inodes[drained[k].0].value
      ensures forall k :: 0 <= k < |drained| ==> drained[k].0 in old(dirty.Set())
      ensures forall i :: i in old(dirty.Set()) ==> Pending(drained, 0, i)
      ensures forall j, k :: 0 <= j < k < |drained| ==> drained[j].0 < drained[k].0
    {
      var ones;
      ghost var was := dirty.Set();
      ones, dirty := dirty.DrainOnes();
      drained := [];
      for k := 0 to |ones|
        invariant |drained| == k
        invariant forall j :: 0 <= j < k ==> Cached(inodes, ones[j]) && drained[j] == (ones[j], inodes[ones[j]].value)
      {
        assert ones[k] in was;
        drained := drained + [(ones[k], inodes[ones[k]].value)];
      }
      forall i | i in was ensures Pending(drained, 0, i) {
        assert i in ones;
        var k :| 0 <= k < |ones| && ones[k] == i;
        assert drained[k].0 == i;
      }
    }
  }

  ghost predicate SameLogical(a: seq<Option<INode>>, b: seq<Option<INode>>, disk: seq<Block>, l: Layout, j: int)
  {
    0 <= j && 0 <= InodeToBlock(l, j).0 < |disk| && Logical(a, disk, l, j) == Logical(b, disk, l, j)
  }

  // ---------------------------------------------------------------------------------------
  // Writing everything back
  // ---------------------------------------------------------------------------------------

  /** Every slot below `count` holds the logical inode. */
  ghost predicate WrittenBack(inodes: seq<Option<INode>>, before: seq<Block>, disk: seq<Block>, l: Layout, count: int) {
    forall i :: 0 <= i < count ==>
      0 <= InodeToBlock(l, i).0 < |disk| == |before| && InodeAt(disk, l, i) == Logical(inodes, before, l, i)
  }

  /** Inode `i` is still to come. */
  ghost predicate Pending(drained: seq<(int, INode)>, k: int, i: int) {
    exists j :: 0 <= k <= j < |drained| && drained[j].0 == i
  }

  /** Write drained inodes to their slots. */
  method WriteBack(drained: seq<(int, INode)>, disk: seq<Block>, l: Layout, ghost inodes: seq<Option<INode>>, ghost dirty: set<int>, ghost count: int)
    returns (d: seq<Block>)
    requires Coherent(inodes, dirty, disk, l, count)
    requires forall k :: 0 <= k < |drained| ==> Cached(inodes, drained[k].0) && drained[k].1 == inodes[drained[k].0].value
    requires forall i :: i in dirty ==> Pending(drained, 0, i)
    ensures |d| == |disk| && WrittenBack(inodes, disk, d, l, count)
    ensures forall b :: 0 <= b < |disk| && !(l.inodeTableStart <= b < l.inodeTableStart + l.inodeTableBlocks) ==> d[b] == disk[b]
  {
    d := disk;
    forall i | 0 <= i < count ensures 0 <= InodeToBlock(l, i).0 < |disk| { SlotInTable(disk, l, count, i); }
    for k := 0 to |drained|
      invariant |d| == |disk|
      invariant forall i :: 0 <= i < count && !Pending(drained, k, i) ==> InodeAt(d, l, i) == Logical(inodes, disk, l, i)
      invariant forall b :: 0 <= b < |disk| && !(l.inodeTableStart <= b < l.inodeTableStart + l.inodeTableBlocks) ==> d[b] == disk[b]
    {
      ghost var was := d;
      SlotInTable(disk, l, count, drained[k].0);
      d := WriteInodeToDisk(d, l, drained[k].0, drained[k].1);
      forall i | 0 <= i < count && !Pending(drained, k + 1, i) ensures InodeAt(d, l, i) == Logical(inodes, disk, l, i) {
        PutInodeChangesOneSlot(was, l, drained[k].0, drained[k].1, i);
      }
    }
  }
}
