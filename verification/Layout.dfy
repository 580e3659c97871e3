/** The on-disk layout: superblock, inode bitmap, data bitmap, inode table, data blocks. */
module Layouts {
  import opened Options

  const BITS_PER_BLOCK: nat := 4096
  const INODES_PER_BLOCK: nat := 7  // an inode occupies 72 of a block's 512 bytes

  function DivCeil(a: nat, b: nat): nat
    requires b > 0
  {
    (a + b - 1) / b
  }

  datatype Layout = Layout(
    inodeBitmapStart: int, inodeBitmapBlocks: int, dataBitmapStart: int, dataBitmapBlocks: int,
    inodeTableStart: int, inodeTableBlocks: int, dataStart: int, dataBlocks: int)

  /** The five regions follow each other without gap or overlap and fill the device, and each is
      large enough for what it describes. */
  ghost predicate Partitions(l: Layout, total: int, inodes: int) {
    && l.inodeBitmapStart == 1 && l.dataBitmapStart == 1 + l.inodeBitmapBlocks
    && l.inodeTableStart == l.dataBitmapStart + l.dataBitmapBlocks
    && l.dataStart == l.inodeTableStart + l.inodeTableBlocks && l.dataStart + l.dataBlocks == total
    && l.dataBlocks > 0 && l.inodeBitmapBlocks >= 0 && l.dataBitmapBlocks > 0 && l.inodeTableBlocks >= 0
    && inodes <= l.inodeBitmapBlocks * BITS_PER_BLOCK && l.dataBlocks <= l.dataBitmapBlocks * BITS_PER_BLOCK
    && inodes <= l.inodeTableBlocks * INODES_PER_BLOCK
  }

  // ---------------------------------------------------------------------------------------
  // How many blocks the data bitmap needs
  // ---------------------------------------------------------------------------------------

  /** With `r` blocks left after the fixed regions, one step of the search. */
  function Next(r: nat, d: nat): nat
    requires d <= r
  {
    DivCeil(r - d, BITS_PER_BLOCK)
  }

  function FixedPoint(r: nat): nat { DivCeil(r, BITS_PER_BLOCK + 1) }

  /** `d` bitmap blocks exactly describe the remaining data blocks in just one way ... */
  lemma FixedPointIsUnique(r: nat, d: nat)
    requires d <= r && Next(r, d) == d
    ensures d == FixedPoint(r) && r % 4097 != 1
  {
  }

  /** ... and `FixedPoint` is that way, unless `r` leaves remainder 1. */
  lemma FixedPointExists(r: nat)
    requires r % 4097 != 1
    ensures FixedPoint(r) <= r && Next(r, FixedPoint(r)) == FixedPoint(r)
  {
    var q, s := r / 4097, r % 4097;
    assert r == 4097 * q + s;
  }

  /** Twice the distance to the fixed point, less one on the side from which the next step cannot overshoot.
      Which side that is depends on the remainder. */
  ghost function Distance(r: nat, d: nat): nat {
    var f := FixedPoint(r);
    if d == f then 0
    else if d > f then 2 * (d - f) - (if r % 4097 == 0 then 1 else 0)
    else 2 * (f - d) - (if r % 4097 == 0 then 0 else 1)
  }

  lemma StepGetsCloser(r: nat, d: nat)
    requires r >= 2 && r % 4097 != 1 && d <= DivCeil(r, BITS_PER_BLOCK)
    ensures d < r && Next(r, d) <= DivCeil(r, BITS_PER_BLOCK)
    ensures Next(r, d) != d ==> Distance(r, Next(r, d)) < Distance(r, d)
  {
    FixedPointExists(r);
  }

  /** The number of bitmap blocks after `n` rounds of the search. */
  ghost function Orbit(r: nat, n: nat): (d: nat)
    ensures d <= DivCeil(r, BITS_PER_BLOCK) <= r
  {
    if n == 0 then DivCeil(r, BITS_PER_BLOCK) else Next(r, Orbit(r, n - 1))
  }

  /** The loop leaves at round `n`: no data blocks remain, or the count reproduces itself. */
  ghost predicate StopsAt(r: nat, n: nat) {
    r - Orbit(r, n) == 0 || Next(r, Orbit(r, n)) == Orbit(r, n)
  }

  lemma {:induction false} Converges(r: nat, n: nat) returns (k: nat)
    requires r >= 2 && r % 4097 != 1
    ensures n <= k && StopsAt(r, k)
    decreases Distance(r, Orbit(r, n))
  {
    StepGetsCloser(r, Orbit(r, n));
    if Next(r, Orbit(r, n)) == Orbit(r, n) { k := n; } else { k := Converges(r, n + 1); }
  }

  /** The search terminates exactly when fewer than two blocks remain or their number is not
      1 modulo 4097; otherwise it goes on for ever. */
  lemma SearchTerminatesIff(r: nat)
    ensures (exists n: nat :: StopsAt(r, n)) <==> r < 2 || r % 4097 != 1
  {
    if r < 2 {
      assert StopsAt(r, 0);
    } else if r % 4097 != 1 {
      var k := Converges(r, 0);
    } else if n: nat :| StopsAt(r, n) {
      if Next(r, Orbit(r, n)) == Orbit(r, n) { FixedPointIsUnique(r, Orbit(r, n)); }
    }
  }

  /** The smallest number of remaining blocks for which the search never ends: it alternates between 1 and 2
      bitmap blocks. */
  lemma SearchCanDiverge(n: nat)
    ensures Orbit(4098, n) == (if n % 2 == 0 then 2 else 1) && !StopsAt(4098, n)
  {
    if n > 0 { SearchCanDiverge(n - 1); }
  }

  // ---------------------------------------------------------------------------------------
  // Layout::new
  // ---------------------------------------------------------------------------------------

  /** Blocks used by the superblock, the inode bitmap and the inode table. */
  function FixedBlocks(inodes: nat): nat { 1 + DivCeil(inodes, BITS_PER_BLOCK) + DivCeil(inodes, INODES_PER_BLOCK) }

  /** Whether `New` returns at all for this device. */
  predicate Supported(total: nat, inodes: nat) {
    var r := total - FixedBlocks(inodes);
    r < 2 || r % 4097 != 1
  }

  /** The layout of a device, as far as there is one. */
  function Canonical(total: nat, inodes: nat): Option<Layout> {
    var r := total - FixedBlocks(inodes);
    if r < 2 then None
    else
      var bitmap, table, d := DivCeil(inodes, BITS_PER_BLOCK), DivCeil(inodes, INODES_PER_BLOCK), FixedPoint(r);
      Some(Layout(1, bitmap, 1 + bitmap, d, 1 + bitmap + d, table, 1 + bitmap + d + table, r - d))
  }

  lemma CanonicalPartitions(total: nat, inodes: nat)
    ensures Canonical(total, inodes).Some? ==> Partitions(Canonical(total, inodes).value, total, inodes)
  {
    var r := total - FixedBlocks(inodes);
    if r >= 2 { assert FixedPoint(r) < r <= 4097 * FixedPoint(r); }
  }

  /** `DivCeil` is the least number of blocks that is enough. */
  lemma DivCeilIsLeast(a: nat, b: nat, n: int)
    requires b == 7 || b == 4096
    ensures a <= n * b <==> DivCeil(a, b) <= n
  {
  }

  /** No partition of the device has smaller inode regions or more data blocks than the canonical one; ... */
  lemma CanonicalIsBest(total: nat, inodes: nat, l: Layout)
    requires Partitions(l, total, inodes)
    ensures Canonical(total, inodes).Some?
    ensures var c := Canonical(total, inodes).value;
      c.inodeBitmapBlocks <= l.inodeBitmapBlocks && c.inodeTableBlocks <= l.inodeTableBlocks && l.dataBlocks <= c.dataBlocks
  {
    DivCeilIsLeast(inodes, BITS_PER_BLOCK, l.inodeBitmapBlocks);
    DivCeilIsLeast(inodes, INODES_PER_BLOCK, l.inodeTableBlocks);
    hide DivCeil, FixedPoint;
    var r := total - FixedBlocks(inodes);
    assert l.dataBlocks + l.dataBitmapBlocks <= r;
    BestSplit(r, l.dataBlocks, l.dataBitmapBlocks);
  }

  lemma BestSplit(r: nat, data: int, d: int)
    requires 0 < data <= 4096 * d && data + d <= r
    ensures data <= r - FixedPoint(r)
  {
  }

  /** ... and there is a canonical one exactly when the device can be partitioned at all. */
  lemma CanonicalIffPossible(total: nat, inodes: nat)
    ensures Canonical(total, inodes).None? <==> forall l :: !Partitions(l, total, inodes)
  {
    hide Partitions, Canonical;
    CanonicalPartitions(total, inodes);
    forall l ensures Partitions(l, total, inodes) ==> Canonical(total, inodes).Some? {
      if Partitions(l, total, inodes) { CanonicalIsBest(total, inodes, l); }
    }
  }

  /** No region of metadata has a block to spare. */
  ghost predicate Lean(l: Layout, inodes: int) {
    4096 * (l.inodeBitmapBlocks - 1) < inodes && 7 * (l.inodeTableBlocks - 1) < inodes && 4096 * (l.dataBitmapBlocks - 1) < l.dataBlocks
  }

  lemma CanonicalIsLean(total: nat, inodes: nat)
    requires Supported(total, inodes) && Canonical(total, inodes).Some?
    ensures Lean(Canonical(total, inodes).value, inodes)
  {
    var r := total - FixedBlocks(inodes);
    DivCeilIsLeast(inodes, BITS_PER_BLOCK, DivCeil(inodes, BITS_PER_BLOCK) - 1);
    DivCeilIsLeast(inodes, INODES_PER_BLOCK, DivCeil(inodes, INODES_PER_BLOCK) - 1);
    FixedPointExists(r);
    DivCeilIsLeast(r - FixedPoint(r), BITS_PER_BLOCK, FixedPoint(r) - 1);
  }

  lemma CanonicalMeans(total: nat, inodes: nat)
    requires Supported(total, inodes)
    ensures var c := Canonical(total, inodes);
      && (c.None? <==> forall l :: !Partitions(l, total, inodes))
      && (c.Some? ==> Partitions(c.value, total, inodes) && Lean(c.value, inodes))
  {
    hide Canonical;
    CanonicalIffPossible(total, inodes);
    CanonicalPartitions(total, inodes);
    if Canonical(total, inodes).Some? { CanonicalIsLean(total, inodes); }
  }

  /** `New` returns exactly on the devices called supported. */
  lemma SupportedIff(total: nat, inodes: nat)
    ensures var r := total - FixedBlocks(inodes); Supported(total, inodes) <==> r < 0 || exists n: nat :: StopsAt(r, n)
  {
    var r := total - FixedBlocks(inodes);
    if r >= 0 { SearchTerminatesIff(r); }
  }

  /** With the 4096 inodes that formatting uses, a device of 4686 blocks is one on which `New` does not return. */
  lemma SmallestUnsupportedDevice(n: nat)
    ensures FixedBlocks(4096) == 588 && !Supported(4686, 4096) && !StopsAt(4686 - FixedBlocks(4096), n)
    ensures forall total: nat :: total < 4686 ==> Supported(total, 4096)
  {
    SearchCanDiverge(n);
  }

  /** The search loop, on the blocks remaining after the fixed regions; its subtraction never underflows. */
  method DataBitmapBlocks(r: nat) returns (d: Option<nat>)
    requires r < 2 || r % 4097 != 1
    ensures d == if r < 2 then None else Some(FixedPoint(r))
  {
    var blocks: nat := DivCeil(r, BITS_PER_BLOCK);
    while true
      invariant blocks <= DivCeil(r, BITS_PER_BLOCK) <= r && (r < 2 ==> blocks == r)
      decreases Distance(r, blocks)
    {
      if r >= 2 { StepGetsCloser(r, blocks); }
      if r - blocks == 0 {
        return None;
      }
      var next := Next(r, blocks);
      if next == blocks {
        FixedPointIsUnique(r, blocks);
        return Some(blocks);
      }
      blocks := next;
    }
  }

  method New(total: nat, inodes: nat) returns (l: Option<Layout>)
    requires Supported(total, inodes)
    ensures l == Canonical(total, inodes)
    ensures l.None? <==> forall p :: !Partitions(p, total, inodes)
    ensures l.Some? ==> Partitions(l.value, total, inodes) && Lean(l.value, inodes)
  {
    hide DivCeil, FixedPoint, Partitions, Lean;
    CanonicalMeans(total, inodes);
    var bitmap, table := DivCeil(inodes, BITS_PER_BLOCK), DivCeil(inodes, INODES_PER_BLOCK);
    if total < 1 + bitmap + table {
      return None;
    }
    var d := DataBitmapBlocks(total - (1 + bitmap + table));
    if d.None? {
      return None;
    }
    var dataStart := 1 + bitmap + table + d.value;
    return Some(Layout(1, bitmap, 1 + bitmap, d.value, 1 + bitmap + d.value, table, dataStart, total - dataStart));
  }
}
