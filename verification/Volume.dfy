/** A mounted volume, seen without its cache and metadata regions: the allocated inodes, the data blocks,
    and for each data block in use the one inode slot that holds it. */
module Volumes {
  import opened Guards
  import opened Codec
  import opened Records
  import opened Disks

  /** Slot `slot` of inode `node`. */
  datatype Ref = Ref(node: int, slot: int)

  /** `data[d]` is block number `base + d`; `owner` has a key for every bit set in the data bitmap. */
  datatype Volume = Volume(base: int, nodes: map<int, INode>, owner: map<int, Ref>, data: seq<Block>)

  // ---------------------------------------------------------------------------------------
  // Contents
  // ---------------------------------------------------------------------------------------

  function BlockOf(v: Volume, b: int): Block {
    if v.base <= b < v.base + |v.data| then v.data[b - v.base] else Zeros(BLOCK)
  }

  function ByteAt(v: Volume, n: INode, p: int): byte {
    if 0 <= p / BLOCK < |n.blocks| then BlockOf(v, n.blocks[p / BLOCK])[p % BLOCK] else 0
  }

  /** The bytes of an inode: its blocks one after the other, up to its size. */
  function Content(v: Volume, n: INode): (s: seq<byte>)
    ensures |s| == if n.size < 0 then 0 else n.size
  {
    seq(if n.size < 0 then 0 else n.size, p => ByteAt(v, n, p))
  }

  // ---------------------------------------------------------------------------------------
  // Ownership
  // ---------------------------------------------------------------------------------------

  /** The used slots are the prefix that the size calls for. */
  ghost predicate Shaped(n: INode) {
    && |n.blocks| == INODE_BLOCKS && 0 <= n.size <= INODE_BLOCKS * BLOCK
    && forall k :: 0 <= k < INODE_BLOCKS ==> (n.blocks[k] != 0 <==> BLOCK * k < n.size)
  }

  /** Slot `k` of inode `i` holds a block. */
  ghost predicate Held(v: Volume, i: int, k: int) {
    i in v.nodes && 0 <= k < |v.nodes[i].blocks| && v.nodes[i].blocks[k] != 0
  }

  ghost predicate NodesShaped(v: Volume) { forall i :: i in v.nodes ==> Shaped(v.nodes[i]) }

  ghost predicate SlotsOwn(v: Volume) {
    forall i, k :: Held(v, i, k) ==>
      v.nodes[i].blocks[k] - v.base in v.owner && v.owner[v.nodes[i].blocks[k] - v.base] == Ref(i, k)
  }

  ghost predicate OwnersHold(v: Volume) {
    forall d :: d in v.owner ==>
      0 <= d < |v.data| && Held(v, v.owner[d].node, v.owner[d].slot)
      && v.nodes[v.owner[d].node].blocks[v.owner[d].slot] == v.base + d
  }

  /** Every block in use is held by one slot of one allocated inode, and every held block is in use.  Guarded
      by `OnOwners`, for proofs that only pass the fact on. */
  ghost predicate Owned(v: Volume) {
    forall n {:trigger Open(OnOwners, n)} :: Open(OnOwners, n) ==> v.base > 0 && NodesShaped(v) && SlotsOwn(v) && OwnersHold(v)
  }

  /** A data bit is set exactly when the block is held by some slot, and then by just one. */
  lemma OwnedMeans(v: Volume, d: int)
    requires Owned(v)
    ensures d in v.owner <==> 0 <= d < |v.data| && exists i, k :: Held(v, i, k) && v.nodes[i].blocks[k] == v.base + d
    ensures forall i, k, j, l :: Held(v, i, k) && Held(v, j, l) && v.nodes[i].blocks[k] == v.nodes[j].blocks[l] ==> i == j && k == l
  {
    if d in v.owner {
      OwnerSlot(v, d);
    } else if i, k :| Held(v, i, k) && v.nodes[i].blocks[k] == v.base + d {
      SlotOwner(v, i, k);
    }
    forall i, k, j, l | Held(v, i, k) && Held(v, j, l) && v.nodes[i].blocks[k] == v.nodes[j].blocks[l] ensures i == j && k == l {
      SlotOwner(v, i, k);
      SlotOwner(v, j, l);
    }
  }

  lemma Seal(v: Volume)
    requires v.base > 0 && NodesShaped(v) && SlotsOwn(v) && OwnersHold(v)
    ensures Owned(v)
  {
  }

  lemma NodeShaped(v: Volume, i: int)
    requires Owned(v) && i in v.nodes
    ensures Shaped(v.nodes[i]) && v.base > 0
  {
    assert Open(OnOwners, 0);
  }

  lemma SlotOwner(v: Volume, i: int, k: int)
    requires Owned(v) && Held(v, i, k)
    ensures var d := v.nodes[i].blocks[k] - v.base; d in v.owner && v.owner[d] == Ref(i, k) && 0 <= d < |v.data|
  {
    assert Open(OnOwners, 0);
  }

  lemma OwnerSlot(v: Volume, d: int)
    requires Owned(v) && d in v.owner
    ensures 0 <= d < |v.data| && Held(v, v.owner[d].node, v.owner[d].slot)
    ensures v.nodes[v.owner[d].node].blocks[v.owner[d].slot] == v.base + d
  {
    assert Open(OnOwners, 0);
  }

  // ---------------------------------------------------------------------------------------
  // Appending within one block
  // ---------------------------------------------------------------------------------------

  /** `chunk` goes into data block `d` at the write position of inode `i`: the block the inode ends in, or a
      free one when its blocks are full. */
  ghost predicate CanExtend(v: Volume, i: int, chunk: seq<byte>, d: int) {
    && i in v.nodes && Shaped(v.nodes[i]) && v.nodes[i].size < INODE_BLOCKS * BLOCK && 0 <= d < |v.data|
    && 0 < |chunk| <= BLOCK - v.nodes[i].size % BLOCK
    && if v.nodes[i].size % BLOCK == 0 then d !in v.owner else v.nodes[i].blocks[v.nodes[i].size / BLOCK] == v.base + d
  }

  ghost function Extend(v: Volume, i: int, chunk: seq<byte>, d: int): Volume
    requires CanExtend(v, i, chunk, d)
  {
    var n := v.nodes[i];
    Volume(v.base,
           v.nodes[i := INode(n.size + |chunk|, n.blocks[n.size / BLOCK := v.base + d], n.isDirectory)],
           v.owner[d := Ref(i, n.size / BLOCK)],
           v.data[d := Splice(v.data[d], n.size % BLOCK, chunk)])
  }

  lemma ExtendShaped(n: INode, b: int, more: int)
    requires Shaped(n) && b != 0 && n.size < INODE_BLOCKS * BLOCK && 0 < more <= BLOCK - n.size % BLOCK
    requires n.size % BLOCK != 0 ==> n.blocks[n.size / BLOCK] == b
    ensures Shaped(INode(n.size + more, n.blocks[n.size / BLOCK := b], n.isDirectory))
    ensures n.size % BLOCK == 0 ==> n.blocks[n.size / BLOCK] == 0
  {
    var k := n.size / BLOCK;
    assert n.size == BLOCK * k + n.size % BLOCK;
  }

  lemma ExtendKeepsOwned(v: Volume, i: int, chunk: seq<byte>, d: int)
    requires Owned(v) && CanExtend(v, i, chunk, d)
    ensures Owned(Extend(v, i, chunk, d))
  {
    var w := Extend(v, i, chunk, d);
    forall j | j in w.nodes ensures Shaped(w.nodes[j]) {
      NodeShaped(v, j);
      if j == i { ExtendShaped(v.nodes[i], v.base + d, |chunk|); }
    }
    forall j, l | Held(w, j, l)
      ensures w.nodes[j].blocks[l] - w.base in w.owner && w.owner[w.nodes[j].blocks[l] - w.base] == Ref(j, l)
    {
      ExtendSlots(v, i, chunk, d, j, l);
    }
    forall e | e in w.owner
      ensures 0 <= e < |w.data| && Held(w, w.owner[e].node, w.owner[e].slot)
      ensures w.nodes[w.owner[e].node].blocks[w.owner[e].slot] == w.base + e
    {
      if e != d { ExtendOwners(v, i, chunk, d, e); }
    }
    NodeShaped(v, i);
    Seal(w);
  }

  lemma ExtendSlots(v: Volume, i: int, chunk: seq<byte>, d: int, j: int, l: int)
    requires Owned(v) && CanExtend(v, i, chunk, d) && Held(Extend(v, i, chunk, d), j, l)
    ensures var w := Extend(v, i, chunk, d); 
      w.nodes[j].blocks[l] - w.base in w.owner && w.owner[w.nodes[j].blocks[l] - w.base] == Ref(j, l)
  {
    var n := v.nodes[i];
    ExtendShaped(n, v.base + d, |chunk|) by { NodeShaped(v, i); }
    if !(j == i && l == n.size / BLOCK) {
      SlotOwner(v, j, l);
      if n.size % BLOCK != 0 { SlotOwner(v, i, n.size / BLOCK); }
    }
  }

  lemma ExtendOwners(v: Volume, i: int, chunk: seq<byte>, d: int, e: int)
    requires Owned(v) && CanExtend(v, i, chunk, d) && e in v.owner && e != d
    ensures var w := Extend(v, i, chunk, d); 0 <= e < |w.data| && Held(w, w.owner[e].node, w.owner[e].slot)
    ensures var w := Extend(v, i, chunk, d); w.nodes[w.owner[e].node].blocks[w.owner[e].slot] == w.base + e
  {
    OwnerSlot(v, e);
    ExtendShaped(v.nodes[i], v.base + d, |chunk|) by { NodeShaped(v, i); }
  }

  /** The inode's bytes grow by `chunk`. */
  lemma ExtendAppends(v: Volume, i: int, chunk: seq<byte>, d: int)
    requires Owned(v) && CanExtend(v, i, chunk, d)
    ensures var w := Extend(v, i, chunk, d); Content(w, w.nodes[i]) == Content(v, v.nodes[i]) + chunk
  {
    NodeShaped(v, i);
    var w := Extend(v, i, chunk, d);
    var n, m := v.nodes[i], w.nodes[i];
    var k, at := n.size / BLOCK, n.size % BLOCK;
    assert n.size == BLOCK * k + at;
    forall p | 0 <= p < m.size ensures ByteAt(w, m, p) == (Content(v, n) + chunk)[p] {
      if p < n.size {
        ExtendKeepsByte(v, i, chunk, d, i, p);
      } else {
        assert p / BLOCK == k && p % BLOCK == at + (p - n.size);
        assert ByteAt(w, m, p) == w.data[d][at + (p - n.size)];
        assert w.data[d][at..at + |chunk|][p - n.size] == chunk[p - n.size];
      }
    }
  }

  /** No byte already stored changes, of this inode or of any other. */
  lemma ExtendKeepsByte(v: Volume, i: int, chunk: seq<byte>, d: int, j: int, p: int)
    requires Owned(v) && CanExtend(v, i, chunk, d) && j in v.nodes && 0 <= p < v.nodes[j].size
    ensures var w := Extend(v, i, chunk, d); ByteAt(w, w.nodes[j], p) == ByteAt(v, v.nodes[j], p)
  {
    hide Owned;
    NodeShaped(v, i);
    NodeShaped(v, j);
    var w := Extend(v, i, chunk, d);
    var n := v.nodes[i];
    var k, at, q := n.size / BLOCK, n.size % BLOCK, p / BLOCK;
    assert n.size == BLOCK * k + at && p == BLOCK * q + p % BLOCK;
    SlotOwner(v, j, q);
    var b := v.nodes[j].blocks[q];
    if b == v.base + d {
      SlotOwner(v, i, k);
      assert j == i && q == k && p % BLOCK < at;
    } else {
      assert w.nodes[j].blocks[q] == b;
    }
  }

  lemma ExtendSparesOthers(v: Volume, i: int, chunk: seq<byte>, d: int, j: int)
    requires Owned(v) && CanExtend(v, i, chunk, d) && j in v.nodes && j != i
    ensures var w := Extend(v, i, chunk, d); w.nodes[j] == v.nodes[j] && Content(w, w.nodes[j]) == Content(v, v.nodes[j])
  {
    var w := Extend(v, i, chunk, d);
    forall p | 0 <= p < v.nodes[j].size ensures ByteAt(w, w.nodes[j], p) == ByteAt(v, v.nodes[j], p) {
      ExtendKeepsByte(v, i, chunk, d, j, p);
    }
  }

  // ---------------------------------------------------------------------------------------
  // Allocating and freeing inodes, rewriting a block
  // ---------------------------------------------------------------------------------------

  function EmptyNode(isDirectory: bool): (n: INode)
    ensures Shaped(n) && n.Encodable() && n.size == 0 && n.isDirectory == isDirectory
    ensures forall k :: 0 <= k < INODE_BLOCKS ==> n.blocks[k] == 0
  {
    INode(0, seq(INODE_BLOCKS, _ => 0), isDirectory)
  }

  ghost function AddNode(v: Volume, i: int, isDirectory: bool): Volume {
    v.(nodes := v.nodes[i := EmptyNode(isDirectory)])
  }

  lemma AddNodeKeepsOwned(v: Volume, i: int, isDirectory: bool)
    requires Owned(v) && i !in v.nodes && v.base > 0
    ensures Owned(AddNode(v, i, isDirectory))
  {
    var w := AddNode(v, i, isDirectory);
    forall j | j in w.nodes ensures Shaped(w.nodes[j]) { if j != i { NodeShaped(v, j); } }
    forall j, l | Held(w, j, l)
      ensures w.nodes[j].blocks[l] - w.base in w.owner && w.owner[w.nodes[j].blocks[l] - w.base] == Ref(j, l)
    {
      SlotOwner(v, j, l);
    }
    forall e | e in w.owner
      ensures 0 <= e < |w.data| && Held(w, w.owner[e].node, w.owner[e].slot)
      ensures w.nodes[w.owner[e].node].blocks[w.owner[e].slot] == w.base + e
    {
      OwnerSlot(v, e);
    }
    Seal(w);
  }

  /** Content depends on the data blocks alone. */
  lemma SameData(v: Volume, w: Volume, n: INode)
    requires v.base == w.base && v.data == w.data
    ensures Content(v, n) == Content(w, n)
  {
    forall p | 0 <= p < n.size ensures ByteAt(v, n, p) == ByteAt(w, n, p) { }
  }

  /** Content depends only on the blocks the inode holds. */
  lemma SameBlocks(v: Volume, w: Volume, n: INode)
    requires v.base == w.base && Shaped(n)
    requires forall k :: 0 <= k < INODE_BLOCKS && n.blocks[k] != 0 ==> BlockOf(v, n.blocks[k]) == BlockOf(w, n.blocks[k])
    ensures Content(v, n) == Content(w, n)
  {
    forall p | 0 <= p < n.size ensures ByteAt(v, n, p) == ByteAt(w, n, p) {
      assert p == BLOCK * (p / BLOCK) + p % BLOCK;
    }
  }

  /** Free inode `i` and zero its blocks. */
  ghost function DropNode(v: Volume, i: int): Volume {
    Volume(v.base, v.nodes - {i},
           map d | d in v.owner && v.owner[d].node != i :: v.owner[d],
           seq(|v.data|, d requires 0 <= d < |v.data| => if d in v.owner && v.owner[d].node == i then Zeros(BLOCK) else v.data[d]))
  }

  lemma DropNodeKeepsOwned(v: Volume, i: int)
    requires Owned(v) && i in v.nodes
    ensures Owned(DropNode(v, i))
  {
    var w := DropNode(v, i);
    NodeShaped(v, i);
    forall j | j in w.nodes ensures Shaped(w.nodes[j]) { NodeShaped(v, j); }
    forall j, l | Held(w, j, l)
      ensures w.nodes[j].blocks[l] - w.base in w.owner && w.owner[w.nodes[j].blocks[l] - w.base] == Ref(j, l)
    {
      SlotOwner(v, j, l);
    }
    forall e | e in w.owner
      ensures 0 <= e < |w.data| && Held(w, w.owner[e].node, w.owner[e].slot)
      ensures w.nodes[w.owner[e].node].blocks[w.owner[e].slot] == w.base + e
    {
      OwnerSlot(v, e);
    }
    Seal(w);
  }

  lemma DropNodeSparesOthers(v: Volume, i: int, j: int)
    requires Owned(v) && i in v.nodes && j in v.nodes && j != i
    ensures Content(DropNode(v, i), v.nodes[j]) == Content(v, v.nodes[j])
  {
    var w := DropNode(v, i);
    NodeShaped(v, j);
    forall k | 0 <= k < INODE_BLOCKS && v.nodes[j].blocks[k] != 0
      ensures BlockOf(v, v.nodes[j].blocks[k]) == BlockOf(w, v.nodes[j].blocks[k])
    {
      SlotOwner(v, j, k);
    }
    SameBlocks(v, w, v.nodes[j]);
  }

  /** Inode `i` lives in its first block alone. */
  ghost predicate OneBlock(v: Volume, i: int) {
    i in v.nodes && |v.nodes[i].blocks| == INODE_BLOCKS && 0 < v.nodes[i].size <= BLOCK
    && v.base <= v.nodes[i].blocks[0] < v.base + |v.data|
  }

  lemma OneBlockHeld(v: Volume, i: int)
    requires Owned(v) && i in v.nodes && 0 < v.nodes[i].size <= BLOCK
    ensures OneBlock(v, i) && Held(v, i, 0)
  {
    NodeShaped(v, i);
    SlotOwner(v, i, 0);
  }

  /** Replace the only block of inode `i` and resize it. */
  ghost function Patch(v: Volume, i: int, buf: Block, size: int): Volume
    requires OneBlock(v, i)
  {
    v.(nodes := v.nodes[i := v.nodes[i].(size := size)], data := v.data[v.nodes[i].blocks[0] - v.base := buf])
  }

  lemma PatchKeepsOwned(v: Volume, i: int, buf: Block, size: int)
    requires Owned(v) && OneBlock(v, i) && 0 < size <= BLOCK
    ensures Owned(Patch(v, i, buf, size))
  {
    var w := Patch(v, i, buf, size);
    forall j | j in w.nodes ensures Shaped(w.nodes[j]) { NodeShaped(v, j); }
    forall j, l | Held(w, j, l)
      ensures w.nodes[j].blocks[l] - w.base in w.owner && w.owner[w.nodes[j].blocks[l] - w.base] == Ref(j, l)
    {
      SlotOwner(v, j, l);
    }
    forall e | e in w.owner
      ensures 0 <= e < |w.data| && Held(w, w.owner[e].node, w.owner[e].slot)
      ensures w.nodes[w.owner[e].node].blocks[w.owner[e].slot] == w.base + e
    {
      OwnerSlot(v, e);
    }
    NodeShaped(v, i);
    Seal(w);
  }

  lemma PatchContent(v: Volume, i: int, buf: Block, size: int)
    requires OneBlock(v, i) && 0 < size <= BLOCK
    ensures var w := Patch(v, i, buf, size); Content(w, w.nodes[i]) == buf[..size]
    ensures Content(v, v.nodes[i]) == BlockOf(v, v.nodes[i].blocks[0])[..v.nodes[i].size]
  {
    var w := Patch(v, i, buf, size);
    forall p | 0 <= p < size ensures ByteAt(w, w.nodes[i], p) == buf[p] { assert p / BLOCK == 0 && p % BLOCK == p; }
    var was := BlockOf(v, v.nodes[i].blocks[0]);
    forall p | 0 <= p < v.nodes[i].size ensures ByteAt(v, v.nodes[i], p) == was[p] { assert p / BLOCK == 0 && p % BLOCK == p; }
  }

  lemma PatchSparesOthers(v: Volume, i: int, buf: Block, size: int, j: int)
    requires Owned(v) && OneBlock(v, i) && j in v.nodes && j != i
    ensures Content(Patch(v, i, buf, size), v.nodes[j]) == Content(v, v.nodes[j])
  {
    var w := Patch(v, i, buf, size);
    NodeShaped(v, j);
    NodeShaped(v, i);
    OneBlockHeld(v, i);
    SlotOwner(v, i, 0);
    forall k | 0 <= k < INODE_BLOCKS && v.nodes[j].blocks[k] != 0
      ensures BlockOf(v, v.nodes[j].blocks[k]) == BlockOf(w, v.nodes[j].blocks[k])
    {
      SlotOwner(v, j, k);
    }
    SameBlocks(v, w, v.nodes[j]);
  }

  /** Midway through freeing inode `i`: the blocks of its first `k` slots are zeroed and no longer in use. */
  ghost function Freed(v: Volume, i: int, k: int): Volume {
    Volume(v.base, v.nodes,
           map d | d in v.owner && !(v.owner[d].node == i && v.owner[d].slot < k) :: v.owner[d],
           seq(|v.data|, d requires 0 <= d < |v.data| =>
             if d in v.owner && v.owner[d].node == i && v.owner[d].slot < k then Zeros(BLOCK) else v.data[d]))
  }

  lemma FreedNone(v: Volume, i: int)
    requires Owned(v) && i in v.nodes
    ensures Freed(v, i, 0) == v
  {
    forall d | d in v.owner ensures v.owner[d].slot >= 0 { OwnerSlot(v, d); }
    assert Freed(v, i, 0).owner == v.owner;
    assert Freed(v, i, 0).data == v.data;
  }

  lemma FreedMore(v: Volume, i: int, k: int)
    requires Owned(v) && i in v.nodes && 0 <= k < INODE_BLOCKS && |v.nodes[i].blocks| == INODE_BLOCKS && v.nodes[i].blocks[k] != 0
    ensures var w, b := Freed(v, i, k), v.nodes[i].blocks[k];
      && v.base <= b < v.base + |v.data| && b - v.base in w.owner
      && Freed(v, i, k + 1) == w.(owner := w.owner - {b - v.base}, data := w.data[b - v.base := Zeros(BLOCK)])
  {
    var w, d := Freed(v, i, k), v.nodes[i].blocks[k] - v.base;
    SlotOwner(v, i, k);
    forall e | e in v.owner && v.owner[e] == Ref(i, k) ensures e == d { OwnerSlot(v, e); }
    assert Freed(v, i, k + 1).owner == w.owner - {d};
    assert Freed(v, i, k + 1).data == w.data[d := Zeros(BLOCK)];
  }

  lemma FreedSame(v: Volume, i: int, k: int)
    requires Owned(v) && i in v.nodes && 0 <= k < INODE_BLOCKS && |v.nodes[i].blocks| == INODE_BLOCKS && v.nodes[i].blocks[k] == 0
    ensures Freed(v, i, k + 1) == Freed(v, i, k)
  {
    forall e | e in v.owner ensures v.owner[e] != Ref(i, k) { OwnerSlot(v, e); }
    assert Freed(v, i, k + 1).owner == Freed(v, i, k).owner;
    assert Freed(v, i, k + 1).data == Freed(v, i, k).data;
  }

  lemma FreedAll(v: Volume, i: int)
    requires Owned(v) && i in v.nodes
    ensures var w := Freed(v, i, INODE_BLOCKS); w.(nodes := w.nodes - {i}) == DropNode(v, i)
  {
    NodeShaped(v, i);
    forall d | d in v.owner && v.owner[d].node == i ensures v.owner[d].slot < INODE_BLOCKS { OwnerSlot(v, d); }
    assert Freed(v, i, INODE_BLOCKS).owner == DropNode(v, i).owner;
    assert Freed(v, i, INODE_BLOCKS).data == DropNode(v, i).data;
  }

  /** No data block is free. */
  ghost predicate Full(v: Volume) { forall d :: 0 <= d < |v.data| ==> d in v.owner }

  /** The number of data blocks not in use. */
  ghost function FreeBlocks(v: Volume): int { |v.data| - |v.owner| }

  /** The number of blocks that `n` bytes take. */
  function BlocksFor(n: int): int { (n + 511) / 512 }

  ghost function UpTo(n: nat): set<int> { if n == 0 then {} else UpTo(n - 1) + {n - 1} }

  lemma {:induction false} UpToSize(n: nat)
    ensures |UpTo(n)| == n && forall x :: x in UpTo(n) <==> 0 <= x < n
  {
    if n > 0 { UpToSize(n - 1); }
  }

  lemma FullIff(v: Volume)
    requires Owned(v)
    ensures FreeBlocks(v) >= 0 && (Full(v) <==> FreeBlocks(v) == 0)
  {
    var all := UpTo(|v.data|);
    UpToSize(|v.data|);
    forall d | d in v.owner ensures d in all { OwnerSlot(v, d); }
    assert v.owner.Keys <= all;
    SubsetCard(v.owner.Keys, all);
    assert |v.owner.Keys| == |v.owner|;
    if Full(v) {
      forall d | d in all ensures d in v.owner.Keys { }
      assert v.owner.Keys == all;
    }
  }

  lemma SubsetCard(a: set<int>, b: set<int>)
    requires a <= b
    ensures |a| <= |b| && (|a| == |b| ==> a == b)
  {
    assert b == a + (b - a);
  }

  /** An append takes as many blocks as its bytes need. */
  lemma ExtendTakes(v: Volume, i: int, chunk: seq<byte>, d: int)
    requires Owned(v) && CanExtend(v, i, chunk, d)
    ensures var n := v.nodes[i].size; FreeBlocks(Extend(v, i, chunk, d)) == FreeBlocks(v) - (BlocksFor(n + |chunk|) - BlocksFor(n))
  {
    var n := v.nodes[i].size;
    var w := Extend(v, i, chunk, d);
    if n % BLOCK == 0 {
      assert w.owner.Keys == v.owner.Keys + {d};
    } else {
      SlotOwner(v, i, n / BLOCK);
      assert w.owner.Keys == v.owner.Keys;
    }
    assert |w.owner| == |w.owner.Keys| && |v.owner| == |v.owner.Keys|;
    TakesOne(n, |chunk|);
  }

  /** Slot `k` of an inode is in use exactly when its bytes reach that far. */
  lemma SlotUsed(n: INode, k: int)
    requires Shaped(n) && 0 <= k < INODE_BLOCKS
    ensures n.blocks[k] != 0 <==> k < BlocksFor(n.size)
    ensures 0 <= BlocksFor(n.size) <= INODE_BLOCKS
  {
  }

  lemma {:induction false} FreedCount(v: Volume, i: int, k: int)
    requires Owned(v) && i in v.nodes && 0 <= k <= INODE_BLOCKS
    ensures var b := BlocksFor(v.nodes[i].size); FreeBlocks(Freed(v, i, k)) == FreeBlocks(v) + if k < b then k else b
    decreases k
  {
    NodeShaped(v, i);
    SlotUsed(v.nodes[i], if k == 0 then 0 else k - 1);
    if k == 0 {
      FreedNone(v, i);
    } else {
      FreedCount(v, i, k - 1);
      hide Freed, Owned;
      if v.nodes[i].blocks[k - 1] == 0 {
        FreedSame(v, i, k - 1);
      } else {
        FreedMore(v, i, k - 1);
        OneLess(Freed(v, i, k - 1).owner, v.nodes[i].blocks[k - 1] - v.base);
      }
    }
  }

  lemma OneLess(m: map<int, Ref>, d: int)
    requires d in m
    ensures |m - {d}| == |m| - 1
  {
    assert (m - {d}).Keys == m.Keys - {d};
    assert |m| == |m.Keys| && |m - {d}| == |(m - {d}).Keys|;
  }

  /** Freeing an inode returns the blocks its bytes took. */
  lemma DropReturns(v: Volume, i: int)
    requires Owned(v) && i in v.nodes
    ensures FreeBlocks(DropNode(v, i)) == FreeBlocks(v) + BlocksFor(v.nodes[i].size)
  {
    NodeShaped(v, i);
    SlotUsed(v.nodes[i], 0);
    FreedCount(v, i, INODE_BLOCKS);
    FreedAll(v, i);
  }

  lemma EmptyIff(s: set<int>)
    ensures (forall x :: x !in s) ==> s == {}
  {
    if forall x :: x !in s { assert s == {}; }
  }

  ghost function AnyOf(s: set<int>): (x: int)
    requires s != {}
    ensures x in s
  {
    EmptyIff(s);
    var x :| x in s; x
  }

  /** The blocks that the bytes of all inodes take. */
  ghost function SumBlocks(nodes: map<int, INode>): int
    decreases |nodes|
  {
    if nodes.Keys == {} then 0 else BlocksFor(nodes[AnyOf(nodes.Keys)].size) + SumBlocks(nodes - {AnyOf(nodes.Keys)})
  }

  /** Blocks in use are as many as the bytes of all inodes take: none leaks, none is shared. */
  lemma {:induction false} BlocksConserved(v: Volume)
    requires Owned(v)
    ensures FreeBlocks(v) == |v.data| - SumBlocks(v.nodes)
    decreases |v.nodes|
  {
    if v.nodes.Keys == {} {
      forall d | d in v.owner ensures false { OwnerSlot(v, d); }
      assert v.owner == map[];
    } else {
      var i := AnyOf(v.nodes.Keys);
      DropReturns(v, i);
      DropNodeKeepsOwned(v, i);
      assert (v.nodes - {i}).Keys == v.nodes.Keys - {i};
      BlocksConserved(DropNode(v, i));
    }
  }

  lemma TakesOne(n: int, more: int)
    requires 0 <= n && 0 < more <= 512 - n % 512
    ensures BlocksFor(n + more) == BlocksFor(n) + if n % 512 == 0 then 1 else 0
  {
  }

  /** An append that needs no new block takes none. */
  lemma ExtendWithinBlock(v: Volume, i: int, chunk: seq<byte>, d: int)
    requires Owned(v) && CanExtend(v, i, chunk, d) && v.nodes[i].size % BLOCK != 0
    ensures Extend(v, i, chunk, d).owner == v.owner
  {
    NodeShaped(v, i);
    SlotOwner(v, i, v.nodes[i].size / BLOCK);
  }
}
