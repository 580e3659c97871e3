/** The superblock: what a formatted device says about itself, and when mounting believes it. */
module Superblocks {
  import opened Codec
  import opened Records
  import opened Layouts
  import opened Disks
  import opened Options

  const MAGIC: int := 0x4e4f4d454c
  const FILESYSTEM_VERSION: int := 2

  /** `as u32` */
  function Cast(x: int): int { x % U32_LIMIT }

  function FromLayout(total: int, count: int, l: Layout): SuperBlock {
    SuperBlock(MAGIC, FILESYSTEM_VERSION, BLOCK, Cast(total), Cast(count),
               Cast(l.inodeBitmapStart), Cast(l.inodeBitmapBlocks), Cast(l.dataBitmapStart), Cast(l.dataBitmapBlocks),
               Cast(l.inodeTableStart), Cast(l.inodeTableBlocks), Cast(l.dataStart), Cast(l.dataBlocks))
  }

  /** The layout a superblock describes. */
  function LayoutOf(b: SuperBlock): Layout {
    Layout(b.inodeBitmapStart, b.inodeBitmapBlocks, b.dataBitmapStart, b.dataBitmapBlocks,
           b.inodeTableStart, b.inodeTableBlocks, b.dataStart, b.dataBlocks)
  }

  ghost predicate Small(l: Layout) {
    && 0 <= l.inodeBitmapStart < U32_LIMIT && 0 <= l.inodeBitmapBlocks < U32_LIMIT
    && 0 <= l.dataBitmapStart < U32_LIMIT && 0 <= l.dataBitmapBlocks < U32_LIMIT
    && 0 <= l.inodeTableStart < U32_LIMIT && 0 <= l.inodeTableBlocks < U32_LIMIT
    && 0 <= l.dataStart < U32_LIMIT && 0 <= l.dataBlocks < U32_LIMIT
  }

  /** The ranges of the record's fields. */
  ghost predicate Typed(b: SuperBlock) {
    && 0 <= b.magic < U32_LIMIT * U32_LIMIT && 0 <= b.version < U32_LIMIT && 0 <= b.blockSize < U32_LIMIT
    && 0 <= b.totalBlocks < U32_LIMIT && 0 <= b.inodeCount < U32_LIMIT && Small(LayoutOf(b))
  }

  lemma TypedWords(b: SuperBlock)
    ensures Typed(b) ==> Words(SuperWords(b))
  {
  }

  lemma DecodedIsTyped(s: seq<byte>)
    requires |s| == SUPERBLOCK_BYTES
    ensures Typed(DecodeSuper(s))
  {
    Limits();
    FromLEBelow(s[..8]);
  }

  lemma CastSmall(x: int)
    requires 0 <= x < U32_LIMIT
    ensures Cast(x) == x
  {
  }

  /** A device whose regions partition fewer than 2^32 blocks is described without truncation. */
  lemma NothingTruncated(total: int, count: int, l: Layout)
    requires Partitions(l, total, count) && total < U32_LIMIT && 0 <= count
    ensures Small(l) && LayoutOf(FromLayout(total, count, l)) == l && FromLayout(total, count, l).totalBlocks == total
    ensures count < U32_LIMIT ==> FromLayout(total, count, l).inodeCount == count && Typed(FromLayout(total, count, l))
  {
    hide Cast;
    CastSmall(total);
    CastSmall(l.inodeBitmapStart);
    CastSmall(l.inodeBitmapBlocks);
    CastSmall(l.dataBitmapStart);
    CastSmall(l.dataBitmapBlocks);
    CastSmall(l.inodeTableStart);
    CastSmall(l.inodeTableBlocks);
    CastSmall(l.dataStart);
    CastSmall(l.dataBlocks);
    if count < U32_LIMIT { CastSmall(count); }
  }

  /** The superblock that `format` and `flush` write for a device of `total` blocks and `count` inodes. */
  ghost predicate IsCanonical(b: SuperBlock, total: nat, count: nat) {
    total < U32_LIMIT && 0 < count < U32_LIMIT && Canonical(total, count).Some? && b == FromLayout(total, count, Canonical(total, count).value)
  }

  /** `validate` gets as far as computing the canonical layout: every other check passes. */
  ghost predicate ReachesSearch(b: SuperBlock, deviceBlocks: nat) {
    && b.magic == MAGIC && b.version == FILESYSTEM_VERSION && b.blockSize == BLOCK && b.totalBlocks == deviceBlocks
    && Contiguous(LayoutOf(b), deviceBlocks) && Roomy(LayoutOf(b), b.inodeCount)
  }

  /** A canonical superblock passes all those checks. */
  lemma CanonicalReachesSearch(b: SuperBlock, total: nat)
    requires b.inodeCount >= 0 && IsCanonical(b, total, b.inodeCount)
    ensures ReachesSearch(b, total) && LayoutOf(b) == Canonical(total, b.inodeCount).value
  {
    CanonicalPartitions(total, b.inodeCount);
    NothingTruncated(total, b.inodeCount, Canonical(total, b.inodeCount).value);
  }

  /** So does this one, whereupon the search for the canonical layout goes on for ever. */
  lemma ValidationCanHang(n: nat)
    ensures var b := FromLayout(4686, 4096, Layout(1, 1, 2, 2, 4, 586, 590, 4096));
      Typed(b) && b.inodeCount == 4096 && ReachesSearch(b, 4686) && !Supported(4686, 4096) && !StopsAt(4686 - FixedBlocks(4096), n)
  {
    SmallestUnsupportedDevice(n);
  }

  method Validate(b: SuperBlock, deviceBlocks: nat) returns (r: Outcome<Layout>)
    requires Typed(b) && (ReachesSearch(b, deviceBlocks) ==> Supported(deviceBlocks, b.inodeCount))
    ensures r.Success? <==> IsCanonical(b, deviceBlocks, b.inodeCount)
    ensures r.Success? ==> r.value == Canonical(deviceBlocks, b.inodeCount).value
    ensures b.magic == MAGIC && b.version != FILESYSTEM_VERSION ==> r == Failure(UnsupportedFilesystemVersion(b.version))
    ensures r.Failure? && !(b.magic == MAGIC && b.version != FILESYSTEM_VERSION) ==> r.error == InvalidSuperblock
  {
    hide FromLayout;
    if IsCanonical(b, deviceBlocks, b.inodeCount) { CanonicalReachesSearch(b, deviceBlocks); }
    if b.magic != MAGIC {
      return Failure(InvalidSuperblock);
    }
    if b.version != FILESYSTEM_VERSION {
      return Failure(UnsupportedFilesystemVersion(b.version));
    }
    if b.blockSize != BLOCK || b.totalBlocks != deviceBlocks {
      return Failure(InvalidSuperblock);
    }
    var l := LayoutOf(b);
    if !Contiguous(l, deviceBlocks) || !Roomy(l, b.inodeCount) {
      return Failure(InvalidSuperblock);
    }
    var canonical := New(deviceBlocks, b.inodeCount);
    if canonical.None? || l != canonical.value {
      return Failure(InvalidSuperblock);
    }
    Determined(b, deviceBlocks, b.inodeCount, l);
    return Success(l);
  }

  predicate Contiguous(l: Layout, total: int) {
    && l.inodeBitmapStart == 1 && l.dataBitmapStart == l.inodeBitmapStart + l.inodeBitmapBlocks
    && l.inodeTableStart == l.dataBitmapStart + l.dataBitmapBlocks
    && l.dataStart == l.inodeTableStart + l.inodeTableBlocks && l.dataStart + l.dataBlocks == total
  }

  predicate Roomy(l: Layout, count: int) {
    && count != 0 && count <= l.inodeBitmapBlocks * BLOCK * 8 && l.dataBlocks <= l.dataBitmapBlocks * BLOCK * 8
    && count <= l.inodeTableBlocks * INODES_PER_BLOCK
  }

  lemma Determined(b: SuperBlock, total: int, count: int, l: Layout)
    requires Typed(b) && b.magic == MAGIC && b.version == FILESYSTEM_VERSION && b.blockSize == BLOCK
    requires b.totalBlocks == total && b.inodeCount == count && LayoutOf(b) == l
    ensures b == FromLayout(total, count, l)
  {
  }
}
