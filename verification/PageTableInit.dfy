/** Building the kernel page table at boot. */
module PageTableInit {
  import opened Guards
  import opened PhysicalRanges
  import opened FrameAllocator
  import opened PageTables
  import Bits

  const UPPER: nat := 0xFFFF_FFFF_0000_0000  // where the kernel is mapped a second time
  const IDENTITY_END: nat := 0x7F_0000_0000  // UPPER modulo 2^39
  const RW: nat := 6    // READ | WRITE
  const RWX: nat := 14  // READ | WRITE | EXECUTE
  const R: nat := 2     // READ

  // ---------------------------------------------------------------------------------------
  // Keys of pages
  // ---------------------------------------------------------------------------------------

  /** Distinct page-aligned addresses below 2^39 have distinct keys. */
  lemma PagesDistinct(a: nat, b: nat)
    requires a % PAGE == 0 && b % PAGE == 0 && a < 0x80_0000_0000 && b < 0x80_0000_0000
    ensures KeyOf(a) == KeyOf(b) ==> a == b
  {
    if KeyOf(a) == KeyOf(b) {
      KeyInjective(a, b);
      PageNumber(a);
      PageNumber(b);
    }
  }

  lemma PageNumber(a: nat)
    requires a % PAGE == 0 && a < 0x80_0000_0000
    ensures a % 0x80_0000_0000 / 4096 * 4096 == a
  {
    Bits.DivModUnique(a, 0x80_0000_0000, 0, a);
  }

  /** The upper-half address of a kernel page uses the top of the 2^39-byte space. */
  lemma UpperKey(p: nat)
    requires p < 0x1_0000_0000
    ensures KeyOf(UPPER + p) == KeyOf(IDENTITY_END + p)
  {
    SameKey(UPPER + p, IDENTITY_END + p, 0x1FF_FFFF);
  }

  lemma SameKey(a: nat, b: nat, n: nat)
    requires a == b + n * 0x80_0000_0000
    ensures KeyOf(a) == KeyOf(b)
  {
    KeyDigits(a);
    KeyDigits(b);
    DigitShift(b, n * 0x1, 0x4000_0000);
    DigitShift(b, n * 0x200, 0x20_0000);
    DigitShift(b, n * 0x4_0000, 0x1000);
  }

  lemma DigitShift(b: nat, x: nat, m: nat)
    requires m > 0
    ensures (b + x * 512 * m) / m % 512 == b / m % 512
  {
    var q := b / m;
    assert b == q * m + b % m;
    Bits.DivModUnique(b + x * 512 * m, m, q + x * 512, b % m) by { assert (q + x * 512) * m == q * m + x * 512 * m; }
    Bits.DivModUnique(q + x * 512, 512, q / 512 + x, q % 512);
  }

  // ---------------------------------------------------------------------------------------
  // Mapping within a frame budget
  // ---------------------------------------------------------------------------------------

  /** The table can still grow to map all of `target`; the clauses are shown only where `OnBudget` asks for them. */
  ghost predicate Ready(table: PageTable, alloc: PageFrameAllocator, target: set<Key>)
    reads table, alloc
  {
    forall n {:trigger Open(OnBudget, n)} :: Open(OnBudget, n) ==> WithinBudget(table, alloc, target)
  }

  ghost predicate WithinBudget(table: PageTable, alloc: PageFrameAllocator, target: set<Key>)
    reads table, alloc
  {
    && table.Valid() && alloc.Valid() && table.mem.Keys <= alloc.Outstanding
    && table.shape.mapped.Keys <= target
    && TableCount(target) <= |FreeFrames(alloc)| + TableCount(table.shape.mapped.Keys)
  }

  method MapOne(table: PageTable, alloc: PageFrameAllocator, virt: nat, phys: nat, flags: nat, ghost target: set<Key>)
    requires Ready(table, alloc, target) && flags < 1024
    requires KeyOf(virt) in target && KeyOf(virt) !in table.shape.mapped
    modifies table, alloc
    ensures Ready(table, alloc, target)
    ensures table.shape.mapped == old(table.shape.mapped)[KeyOf(virt) := LeafOf(phys, flags)]
  {
    assert Open(OnBudget, 0);
    Affordable(table.shape, KeyOf(virt), target);
    KeysAdd(table.shape.mapped, KeyOf(virt), LeafOf(phys, flags));
    table.Map(virt, phys, flags, alloc);
  }

  lemma Affordable(s: Shape, k: Key, target: set<Key>)
    requires Tight(s) && s.mapped.Keys <= target && k in target
    ensures TableCount(s.mapped.Keys) + Needed(s, k) == TableCount(s.mapped.Keys + {k}) <= TableCount(target)
  {
    NeededIsIncrement(s, k);
    TableCountMonotone(s.mapped.Keys + {k}, target);
  }

  lemma KeysAdd(m: map<Key, nat>, k: Key, e: nat)
    ensures m[k := e].Keys == m.Keys + {k}
  {
  }

  // ---------------------------------------------------------------------------------------
  // Mapping regions
  // ---------------------------------------------------------------------------------------

  type Mapping = map<Key, nat>

  /** `p` is a page of `[lo, hi)`. */
  predicate IsPage(lo: int, hi: int, p: nat) { lo <= p < hi && p % PAGE == 0 }

  /** `m` maps the page at `va` to the frame at `phys`. */
  ghost predicate Maps(m: Mapping, va: nat, phys: nat, flags: nat) {
    KeyOf(va) in m && m[KeyOf(va)] == LeafOf(phys, flags)
  }

  ghost predicate Extends(m: Mapping, m': Mapping) {
    forall k :: k in m ==> k in m' && m'[k] == m[k]
  }

  /** From `m` to `m'` exactly the pages of `[lo, hi)` were added, shifted by `offset`. */
  ghost predicate Added(m: Mapping, m': Mapping, lo: int, hi: int, offset: nat, flags: nat) {
    && Extends(m, m')
    && (forall p: nat {:trigger IsPage(lo, hi, p)} :: IsPage(lo, hi, p) ==> Maps(m', offset + p, p, flags))
    && (forall k :: k in m' && k !in m ==> IsKeyOf(lo, hi, offset, k))
  }

  ghost predicate IsKeyOf(lo: int, hi: int, offset: nat, k: Key) {
    exists p: nat {:trigger IsPage(lo, hi, p)} :: IsPage(lo, hi, p) && k == KeyOf(offset + p)
  }

  lemma AddedNone(m: Mapping, lo: int, offset: nat, flags: nat)
    ensures Added(m, m, lo, lo, offset, flags)
  {
  }

  /** Adding the next page of a region. */
  lemma AddedNext(m: Mapping, m1: Mapping, lo: int, p: nat, offset: nat, flags: nat)
    requires Added(m, m1, lo, p, offset, flags) && lo <= p && p % PAGE == 0 && KeyOf(offset + p) !in m1
    ensures Added(m, m1[KeyOf(offset + p) := LeafOf(p, flags)], lo, p + PAGE, offset, flags)
  {
    var m2 := m1[KeyOf(offset + p) := LeafOf(p, flags)];
    forall q: nat {:trigger IsPage(lo, p + PAGE, q)} | IsPage(lo, p + PAGE, q) ensures Maps(m2, offset + q, q, flags) {
      if q < p { assert IsPage(lo, p, q); assert Maps(m1, offset + q, q, flags); } else { assert q == p; }
    }
    forall k | k in m2 && k !in m ensures IsKeyOf(lo, p + PAGE, offset, k) {
      if k in m1 {
        var q: nat :| IsPage(lo, p, q) && k == KeyOf(offset + q);
        assert IsPage(lo, p + PAGE, q);
      } else {
        assert IsPage(lo, p + PAGE, p);
      }
    }
  }

  lemma EarlierPagesDiffer(lo: int, p: nat, offset: nat)
    requires p % PAGE == 0 && offset % PAGE == 0 && offset + p < 0x80_0000_0000
    ensures !IsKeyOf(lo, p, offset, KeyOf(offset + p))
  {
    forall q: nat {:trigger IsPage(lo, p, q)} | IsPage(lo, p, q) ensures KeyOf(offset + q) != KeyOf(offset + p) {
      PageSum(offset, p);
      PageSum(offset, q);
      PagesDistinct(offset + p, offset + q);
    }
  }

  lemma PageSum(a: nat, b: nat)
    requires a % PAGE == 0 && b % PAGE == 0
    ensures (a + b) % PAGE == 0
  {
  }

  /** The pages of `[lo, hi)`, shifted by `offset`, are to be mapped and have not been. */
  ghost predicate Pending(m: Mapping, lo: int, hi: int, offset: nat, target: set<Key>) {
    forall p: nat {:trigger IsPage(lo, hi, p)} :: IsPage(lo, hi, p) ==> KeyOf(offset + p) in target && KeyOf(offset + p) !in m
  }

  /** Identity-map every page of `[lo, hi)`. */
  method IdMapRegion(table: PageTable, alloc: PageFrameAllocator, lo: nat, hi: nat, flags: nat, ghost target: set<Key>)
    requires Ready(table, alloc, target) && flags < 1024
    requires lo % PAGE == 0 && hi % PAGE == 0 && lo <= hi <= IDENTITY_END
    requires Pending(table.shape.mapped, lo, hi, 0, target)
    modifies table, alloc
    ensures Ready(table, alloc, target) && Added(old(table.shape.mapped), table.shape.mapped, lo, hi, 0, flags)
  {
    ghost var before := table.shape.mapped;
    AddedNone(before, lo, 0, flags);
    var page := lo;
    while page < hi
      invariant lo <= page <= hi && page % PAGE == 0
      invariant Ready(table, alloc, target) && Added(before, table.shape.mapped, lo, page, 0, flags)
    {
      MapNext(table, alloc, page, flags, before, lo, hi, target);
      page := page + PAGE;
    }
  }

  method MapNext(table: PageTable, alloc: PageFrameAllocator, page: nat, flags: nat, ghost before: Mapping, ghost lo: nat, ghost hi: nat, ghost target: set<Key>)
    requires Ready(table, alloc, target) && flags < 1024
    requires IsPage(lo, hi, page) && hi <= IDENTITY_END && Pending(before, lo, hi, 0, target)
    requires Added(before, table.shape.mapped, lo, page, 0, flags)
    modifies table, alloc
    ensures Ready(table, alloc, target) && Added(before, table.shape.mapped, lo, page + PAGE, 0, flags)
  {
    assert KeyOf(0 + page) in target && KeyOf(0 + page) !in before;
    EarlierPagesDiffer(lo, page, 0);
    AddedNext(before, table.shape.mapped, lo, page, 0, flags);
    MapOne(table, alloc, page, page, flags, target);
  }

  // ---------------------------------------------------------------------------------------
  // Lists of regions
  // ---------------------------------------------------------------------------------------

  /** `p` is a page of one of the regions. */
  ghost predicate PageOf(rs: seq<PhysRange>, p: nat) { In(rs, p) && p % PAGE == 0 }

  ghost predicate IsKeyIn(rs: seq<PhysRange>, k: Key) {
    exists p: nat {:trigger PageOf(rs, p)} :: PageOf(rs, p) && k == KeyOf(p)
  }

  /** From `m` to `m'` exactly the pages of `rs` were identity-mapped. */
  ghost predicate AddedAll(m: Mapping, m': Mapping, rs: seq<PhysRange>, flags: nat) {
    && Extends(m, m')
    && (forall p: nat {:trigger PageOf(rs, p)} :: PageOf(rs, p) ==> Maps(m', p, p, flags))
    && (forall k :: k in m' && k !in m ==> IsKeyIn(rs, k))
  }

  ghost predicate PendingAll(m: Mapping, rs: seq<PhysRange>, target: set<Key>) {
    forall p: nat {:trigger PageOf(rs, p)} :: PageOf(rs, p) ==> KeyOf(p) in target && KeyOf(p) !in m
  }

  ghost predicate Low(rs: seq<PhysRange>) {
    PageAligned(rs) && Normal(rs) && forall i :: 0 <= i < |rs| ==> rs[i].end <= IDENTITY_END
  }

  lemma LowPage(rs: seq<PhysRange>, p: nat)
    requires Low(rs) && PageOf(rs, p)
    ensures p < IDENTITY_END
  {
    var i :| 0 <= i < |rs| && rs[i].Has(p);
  }

  /** Adding region `r` after the regions `rs`. */
  lemma AddedOneMore(m: Mapping, m1: Mapping, m2: Mapping, rs: seq<PhysRange>, r: PhysRange, flags: nat)
    requires AddedAll(m, m1, rs, flags) && Added(m1, m2, r.start, r.end, 0, flags)
    ensures AddedAll(m, m2, rs + [r], flags)
  {
    InSnoc(rs, r);
    forall p: nat {:trigger PageOf(rs + [r], p)} | PageOf(rs + [r], p) ensures Maps(m2, p, p, flags) {
      if In(rs, p) {
        assert PageOf(rs, p);
        assert Maps(m1, p, p, flags);
      } else {
        assert IsPage(r.start, r.end, p);
        assert Maps(m2, 0 + p, p, flags);
      }
    }
    forall k | k in m2 && k !in m ensures IsKeyIn(rs + [r], k) {
      if k in m1 {
        var p: nat :| PageOf(rs, p) && k == KeyOf(p);
        assert PageOf(rs + [r], p);
      } else {
        var p: nat :| IsPage(r.start, r.end, p) && k == KeyOf(0 + p);
        assert PageOf(rs + [r], p);
      }
    }
  }

  /** The next region is still pending. */
  lemma StillPending(m: Mapping, m1: Mapping, rs: seq<PhysRange>, k: nat, flags: nat, target: set<Key>)
    requires k < |rs| && Low(rs) && PendingAll(m, rs, target) && AddedAll(m, m1, rs[..k], flags)
    ensures Pending(m1, rs[k].start, rs[k].end, 0, target)
  {
    forall p: nat {:trigger IsPage(rs[k].start, rs[k].end, p)} | IsPage(rs[k].start, rs[k].end, p) ensures KeyOf(0 + p) in target && KeyOf(0 + p) !in m1 {
      assert rs[k].Has(p);
      assert PageOf(rs, p);
      if KeyOf(p) in m1 {
        var q: nat :| PageOf(rs[..k], q) && KeyOf(p) == KeyOf(q);
        var i :| 0 <= i < k && rs[..k][i].Has(q);
        assert rs[i].end < rs[k].start;
        PagesDistinct(p, q);
      }
    }
  }

  /** Identity-map every page of every region. */
  method IdMapRanges(table: PageTable, alloc: PageFrameAllocator, rs: seq<PhysRange>, flags: nat, ghost target: set<Key>)
    requires Ready(table, alloc, target) && flags < 1024
    requires Low(rs) && PendingAll(table.shape.mapped, rs, target)
    modifies table, alloc
    ensures Ready(table, alloc, target) && AddedAll(old(table.shape.mapped), table.shape.mapped, rs, flags)
  {
    ghost var before := table.shape.mapped;
    for k := 0 to |rs|
      invariant Ready(table, alloc, target) && AddedAll(before, table.shape.mapped, rs[..k], flags)
    {
      ghost var m1 := table.shape.mapped;
      StillPending(before, m1, rs, k, flags, target);
      IdMapRegion(table, alloc, rs[k].start, rs[k].end, flags, target);
      TakeSnoc(rs, k);
      AddedOneMore(before, m1, table.shape.mapped, rs[..k], rs[k], flags);
    }
    assert rs[..|rs|] == rs;
  }

  // ---------------------------------------------------------------------------------------
  // The kernel image, mapped twice
  // ---------------------------------------------------------------------------------------

  /** The pages of `[lo, hi)` are mapped at their own address and in the upper half, and nothing else is. */
  ghost predicate KernelMapped(m: Mapping, lo: int, hi: int) {
    && (forall p: nat {:trigger IsPage(lo, hi, p)} :: IsPage(lo, hi, p) ==> Maps(m, p, p, RWX) && Maps(m, IDENTITY_END + p, p, RWX))
    && (forall k :: k in m ==> IsKeyOf(lo, hi, 0, k) || IsKeyOf(lo, hi, IDENTITY_END, k))
  }

  ghost predicate KernelBounds(lo: int, hi: int) {
    0 <= lo <= hi <= 0x1_0000_0000 && lo % PAGE == 0 && hi % PAGE == 0
  }

  ghost predicate KernelIn(lo: int, hi: int, target: set<Key>) {
    forall p: nat {:trigger IsPage(lo, hi, p)} :: IsPage(lo, hi, p) ==> KeyOf(p) in target && KeyOf(IDENTITY_END + p) in target
  }

  lemma KernelFresh(m: Mapping, lo: int, hi: int, page: nat)
    requires KernelMapped(m, lo, page) && KernelBounds(lo, hi) && IsPage(lo, hi, page)
    ensures KeyOf(page) !in m && KeyOf(IDENTITY_END + page) !in m && KeyOf(page) != KeyOf(IDENTITY_END + page)
  {
    FreshLow(m, lo, hi, page);
    FreshHigh(m, lo, hi, page);
    PagesDistinct(page, IDENTITY_END + page);
  }

  lemma FreshLow(m: Mapping, lo: int, hi: int, page: nat)
    requires KernelMapped(m, lo, page) && KernelBounds(lo, hi) && IsPage(lo, hi, page)
    ensures KeyOf(page) !in m
  {
    EarlierPagesDiffer(lo, page, 0);
    HalvesDiffer(lo, page, page, hi);
    NotMapped(m, lo, page, KeyOf(page));
  }

  lemma FreshHigh(m: Mapping, lo: int, hi: int, page: nat)
    requires KernelMapped(m, lo, page) && KernelBounds(lo, hi) && IsPage(lo, hi, page)
    ensures KeyOf(IDENTITY_END + page) !in m
  {
    UpperNotLow(lo, page, page, hi);
    EarlierPagesDiffer(lo, page, IDENTITY_END);
    NotMapped(m, lo, page, KeyOf(IDENTITY_END + page));
  }

  lemma NotMapped(m: Mapping, lo: int, hi: int, k: Key)
    requires KernelMapped(m, lo, hi) && !IsKeyOf(lo, hi, 0, k) && !IsKeyOf(lo, hi, IDENTITY_END, k)
    ensures k !in m
  {
  }

  /** Identity pages and upper-half pages never share a key. */
  lemma HalvesDiffer(lo: int, end: nat, p: nat, hi: int)
    requires KernelBounds(lo, hi) && end <= hi && p % PAGE == 0 && p < IDENTITY_END
    ensures !IsKeyOf(lo, end, IDENTITY_END, KeyOf(p))
  {
    forall q: nat {:trigger IsPage(lo, end, q)} | IsPage(lo, end, q) ensures KeyOf(IDENTITY_END + q) != KeyOf(p) {
      PageSum(IDENTITY_END, q);
      PagesDistinct(p, IDENTITY_END + q);
    }
  }

  lemma UpperNotLow(lo: int, end: nat, p: nat, hi: int)
    requires KernelBounds(lo, hi) && end <= hi && p < hi && p % PAGE == 0
    ensures !IsKeyOf(lo, end, 0, KeyOf(IDENTITY_END + p))
  {
    forall q: nat {:trigger IsPage(lo, end, q)} | IsPage(lo, end, q) ensures KeyOf(0 + q) != KeyOf(IDENTITY_END + p) {
      PageSum(IDENTITY_END, p);
      PagesDistinct(q, IDENTITY_END + p);
    }
  }

  lemma KernelNext(m: Mapping, lo: int, page: nat)
    requires KernelMapped(m, lo, page) && lo <= page && page % PAGE == 0
    requires KeyOf(page) !in m && KeyOf(IDENTITY_END + page) !in m && KeyOf(page) != KeyOf(IDENTITY_END + page)
    ensures KernelMapped(m[KeyOf(page) := LeafOf(page, RWX)][KeyOf(IDENTITY_END + page) := LeafOf(page, RWX)], lo, page + PAGE)
  {
    var m1 := m[KeyOf(page) := LeafOf(page, RWX)];
    var m' := m1[KeyOf(IDENTITY_END + page) := LeafOf(page, RWX)];
    assert Maps(m', page, page, RWX) && Maps(m', IDENTITY_END + page, page, RWX);
    ExtendsAdd(m, KeyOf(page), LeafOf(page, RWX), KeyOf(IDENTITY_END + page), LeafOf(page, RWX));
    KernelKept(m, m', lo, page);
    forall k | k in m' ensures IsKeyOf(lo, page + PAGE, 0, k) || IsKeyOf(lo, page + PAGE, IDENTITY_END, k) {
      if k in m {
        WidenKey(lo, page, 0, k);
        WidenKey(lo, page, IDENTITY_END, k);
      } else {
        assert IsPage(lo, page + PAGE, page);
        assert k == KeyOf(0 + page) || k == KeyOf(IDENTITY_END + page);
      }
    }
  }

  lemma ExtendsAdd(m: Mapping, k1: Key, e1: nat, k2: Key, e2: nat)
    requires k1 !in m && k2 !in m
    ensures Extends(m, m[k1 := e1][k2 := e2])
  {
  }

  lemma KernelKept(m: Mapping, m': Mapping, lo: int, page: nat)
    requires KernelMapped(m, lo, page) && Extends(m, m') && page % PAGE == 0
    requires Maps(m', page, page, RWX) && Maps(m', IDENTITY_END + page, page, RWX)
    ensures forall p: nat {:trigger IsPage(lo, page + PAGE, p)} :: IsPage(lo, page + PAGE, p) ==> Maps(m', p, p, RWX) && Maps(m', IDENTITY_END + p, p, RWX)
  {
    AllKept(m, m');
    forall p: nat {:trigger IsPage(lo, page + PAGE, p)} | IsPage(lo, page + PAGE, p) ensures Maps(m', p, p, RWX) && Maps(m', IDENTITY_END + p, p, RWX) {
      if p != page { assert IsPage(lo, page, p); }
    }
  }

  lemma AllKept(m: Mapping, m': Mapping)
    requires Extends(m, m')
    ensures forall va: nat, phys: nat, flags: nat {:trigger Maps(m, va, phys, flags)} :: Maps(m, va, phys, flags) ==> Maps(m', va, phys, flags)
  {
  }

  lemma WidenKey(lo: int, hi: int, offset: nat, k: Key)
    ensures IsKeyOf(lo, hi, offset, k) ==> IsKeyOf(lo, hi + PAGE, offset, k)
  {
    if IsKeyOf(lo, hi, offset, k) {
      var p: nat :| IsPage(lo, hi, p) && k == KeyOf(offset + p);
      assert IsPage(lo, hi + PAGE, p);
    }
  }

  lemma KernelNone(lo: int)
    ensures KernelMapped(map[], lo, lo)
  {
  }

  /** One kernel page, at both of its addresses. */
  method MapKernelPage(table: PageTable, alloc: PageFrameAllocator, page: nat, ghost lo: int, ghost hi: int, ghost target: set<Key>)
    requires Ready(table, alloc, target) && KernelBounds(lo, hi) && IsPage(lo, hi, page)
    requires KernelMapped(table.shape.mapped, lo, page) && KernelIn(lo, hi, target)
    modifies table, alloc
    ensures Ready(table, alloc, target) && KernelMapped(table.shape.mapped, lo, page + PAGE)
  {
    KernelFresh(table.shape.mapped, lo, hi, page);
    KernelNext(table.shape.mapped, lo, page);
    UpperKey(page);
    MapOne(table, alloc, page, page, RWX, target);
    MapOne(table, alloc, UPPER + page, page, RWX, target);
  }

  method MapKernel(table: PageTable, alloc: PageFrameAllocator, lo: nat, hi: nat, ghost target: set<Key>)
    requires Ready(table, alloc, target) && table.shape.mapped == map[] && KernelBounds(lo, hi)
    requires KernelIn(lo, hi, target)
    modifies table, alloc
    ensures Ready(table, alloc, target) && KernelMapped(table.shape.mapped, lo, hi)
  {
    KernelNone(lo);
    var page := lo;
    while page < hi
      invariant lo <= page <= hi && page % PAGE == 0
      invariant Ready(table, alloc, target) && KernelMapped(table.shape.mapped, lo, page)
    {
      MapKernelPage(table, alloc, page, lo, hi, target);
      page := page + PAGE;
    }
  }

  // ---------------------------------------------------------------------------------------
  // Boot
  // ---------------------------------------------------------------------------------------

  /** What the device tree and the linker script provide. */
  datatype Boot = Boot(memory: seq<PhysRange>, reserved: seq<PhysRange>, fdt: PhysRange, fdtPages: PhysRange,
                       mmio: seq<PhysRange>, kernel: PhysRange)

  ghost predicate Disjoint(a: seq<PhysRange>, b: seq<PhysRange>) {
    forall x :: In(a, x) ==> !In(b, x)
  }

  /** Kernel, FDT and MMIO pages are mutually disjoint, MMIO is not RAM, and everything lies low enough. */
  ghost predicate WellPlaced(b: Boot) {
    && KernelBounds(b.kernel.start, b.kernel.end)
    && CoveringPages(b.fdt) == Result.Ok(b.fdtPages) && Low([b.fdtPages]) && Low(b.mmio)
    && Disjoint([b.kernel], [b.fdtPages]) && Disjoint([b.kernel], b.mmio) && Disjoint([b.fdtPages], b.mmio)
    && Disjoint(b.mmio, b.memory)
  }

  /** The frames the allocator manages. */
  ghost predicate ManagedBy(managed: seq<PhysRange>, b: Boot) {
    Low(managed) && forall x :: In(managed, x) <==> UsablePage(b.memory, b.reserved + [b.fdt] + [b.kernel], x)
  }

  /** Managed pages avoid the kernel, the FDT's pages and MMIO. */
  lemma ManagedDisjoint(managed: seq<PhysRange>, b: Boot)
    requires WellPlaced(b) && ManagedBy(managed, b)
    ensures Disjoint(managed, [b.kernel]) && Disjoint(managed, [b.fdtPages]) && Disjoint(managed, b.mmio)
  {
    InOne();
    InSnoc(b.reserved, b.fdt);
    InSnoc(b.reserved + [b.fdt], b.kernel);
    CoveringPagesExact(b.fdt);
    forall x | In(managed, x) ensures !In([b.kernel], x) && !In([b.fdtPages], x) && !In(b.mmio, x) {
      assert Page(x) <= x < Page(x) + PAGE_SIZE;
      assert forall y :: Page(y) == Page(x) ==> !b.fdt.Has(y);
    }
  }

  /** The keys of all pages boot maps. */
  ghost function BootKeys(b: Boot, managed: seq<PhysRange>): set<Key> {
    (set p: nat | p < IDENTITY_END && PageOf([b.kernel] + managed + [b.fdtPages] + b.mmio, p) :: KeyOf(p))
    + (set p: nat | p < 0x1_0000_0000 && PageOf([b.kernel], p) :: KeyOf(IDENTITY_END + p))
  }

  /** Everything mapped so far is a page of `rs` or an upper-half page of the kernel. */
  ghost predicate Only(m: Mapping, kernel: PhysRange, rs: seq<PhysRange>) {
    forall k :: k in m ==> IsKeyIn(rs, k) || IsKeyOf(kernel.start, kernel.end, IDENTITY_END, k)
  }

  lemma FreshRegions(m: Mapping, kernel: PhysRange, rs: seq<PhysRange>, more: seq<PhysRange>, p: nat)
    requires Only(m, kernel, rs) && KernelBounds(kernel.start, kernel.end) && Disjoint(more, rs) && Low(more) && PageOf(more, p)
    requires forall q: nat {:trigger PageOf(rs, q)} :: PageOf(rs, q) ==> q < IDENTITY_END
    ensures KeyOf(p) !in m
  {
    LowPage(more, p);
    HalvesDiffer(kernel.start, kernel.end, p, kernel.end);
    if IsKeyIn(rs, KeyOf(p)) {
      var q: nat :| PageOf(rs, q) && KeyOf(p) == KeyOf(q);
      PagesDistinct(p, q);
    }
  }

  lemma OnlyMore(m: Mapping, m': Mapping, kernel: PhysRange, rs: seq<PhysRange>, more: seq<PhysRange>, flags: nat)
    requires Only(m, kernel, rs) && AddedAll(m, m', more, flags)
    ensures Only(m', kernel, rs + more)
  {
    InConcat(rs, more);
    forall k | k in m' ensures IsKeyIn(rs + more, k) || IsKeyOf(kernel.start, kernel.end, IDENTITY_END, k) {
      if k in m {
        if IsKeyIn(rs, k) { var p: nat :| PageOf(rs, p) && k == KeyOf(p); assert PageOf(rs + more, p); }
      } else {
        var p: nat :| PageOf(more, p) && k == KeyOf(p);
        assert PageOf(rs + more, p);
      }
    }
  }

  lemma KernelStage(m: Mapping, b: Boot)
    requires WellPlaced(b) && KernelMapped(m, b.kernel.start, b.kernel.end)
    ensures Only(m, b.kernel, [b.kernel]) && IdMapped(m, [b.kernel], RWX) && UpperMapped(m, b.kernel)
  {
    InOne();
    forall p: nat {:trigger PageOf([b.kernel], p)} | PageOf([b.kernel], p) ensures Maps(m, p, p, RWX) && Maps(m, IDENTITY_END + p, p, RWX) {
      assert IsPage(b.kernel.start, b.kernel.end, p);
    }
    forall k | k in m ensures IsKeyIn([b.kernel], k) || IsKeyOf(b.kernel.start, b.kernel.end, IDENTITY_END, k) {
      if IsKeyOf(b.kernel.start, b.kernel.end, 0, k) {
        var p: nat :| IsPage(b.kernel.start, b.kernel.end, p) && k == KeyOf(0 + p);
        assert PageOf([b.kernel], p);
      }
    }
  }

  /** All regions lie below the upper-half image of the kernel. */
  ghost predicate Below(rs: seq<PhysRange>) { forall q: nat {:trigger PageOf(rs, q)} :: PageOf(rs, q) ==> q < IDENTITY_END }

  lemma BelowMore(rs: seq<PhysRange>, more: seq<PhysRange>)
    requires Below(rs) && Low(more)
    ensures Below(rs + more)
  {
    InConcat(rs, more);
    forall q: nat {:trigger PageOf(rs + more, q)} | PageOf(rs + more, q) ensures q < IDENTITY_END {
      if PageOf(more, q) { LowPage(more, q); } else { assert PageOf(rs, q); }
    }
  }

  /** The next list of regions is pending: its pages are in the plan and none is mapped yet. */
  lemma NextPending(m: Mapping, b: Boot, managed: seq<PhysRange>, rs: seq<PhysRange>, more: seq<PhysRange>)
    requires WellPlaced(b) && Only(m, b.kernel, rs) && Below(rs) && Low(more) && Disjoint(more, rs)
    requires forall x :: In(more, x) ==> In([b.kernel] + managed + [b.fdtPages] + b.mmio, x)
    ensures PendingAll(m, more, BootKeys(b, managed))
  {
    forall p: nat {:trigger PageOf(more, p)} | PageOf(more, p) ensures KeyOf(p) in BootKeys(b, managed) && KeyOf(p) !in m {
      LowPage(more, p);
      FreshRegions(m, b.kernel, rs, more, p);
      assert PageOf([b.kernel] + managed + [b.fdtPages] + b.mmio, p);
    }
  }

  lemma KernelPending(b: Boot, managed: seq<PhysRange>)
    requires WellPlaced(b)
    ensures KernelIn(b.kernel.start, b.kernel.end, BootKeys(b, managed))
  {
    InOne();
    var rs := [b.kernel] + managed + [b.fdtPages] + b.mmio;
    forall p: nat {:trigger IsPage(b.kernel.start, b.kernel.end, p)} | IsPage(b.kernel.start, b.kernel.end, p)
      ensures KeyOf(p) in BootKeys(b, managed) && KeyOf(IDENTITY_END + p) in BootKeys(b, managed)
    {
      assert rs[0].Has(p);
      assert PageOf(rs, p) && PageOf([b.kernel], p);
    }
  }

  /** Membership in the list of all regions. */
  lemma AllRegions(b: Boot, managed: seq<PhysRange>)
    ensures forall x :: In([b.kernel] + managed + [b.fdtPages] + b.mmio, x) <==>
      In([b.kernel], x) || In(managed, x) || In([b.fdtPages], x) || In(b.mmio, x)
  {
    InConcat([b.kernel], managed);
    InConcat([b.kernel] + managed, [b.fdtPages]);
    InConcat([b.kernel] + managed + [b.fdtPages], b.mmio);
  }

  ghost predicate IdMapped(m: Mapping, rs: seq<PhysRange>, flags: nat) {
    forall p: nat {:trigger PageOf(rs, p)} :: PageOf(rs, p) ==> Maps(m, p, p, flags)
  }

  ghost predicate UpperMapped(m: Mapping, kernel: PhysRange) {
    forall p: nat {:trigger PageOf([kernel], p)} :: PageOf([kernel], p) ==> Maps(m, IDENTITY_END + p, p, RWX)
  }

  /** The complete kernel mapping. */
  ghost predicate BootMapped(m: Mapping, b: Boot, managed: seq<PhysRange>) {
    && IdMapped(m, [b.kernel], RWX) && UpperMapped(m, b.kernel)
    && IdMapped(m, managed, RW) && IdMapped(m, [b.fdtPages], R) && IdMapped(m, b.mmio, RW)
    && m.Keys == BootKeys(b, managed)
  }

  lemma BootComplete(m: Mapping, b: Boot, managed: seq<PhysRange>)
    requires IdMapped(m, [b.kernel], RWX) && UpperMapped(m, b.kernel)
    requires IdMapped(m, managed, RW) && IdMapped(m, [b.fdtPages], R) && IdMapped(m, b.mmio, RW)
    requires m.Keys <= BootKeys(b, managed)
    ensures BootMapped(m, b, managed)
  {
    AllRegions(b, managed);
    forall k | k in BootKeys(b, managed) ensures k in m {
      if p: nat :| p < IDENTITY_END && PageOf([b.kernel] + managed + [b.fdtPages] + b.mmio, p) && k == KeyOf(p) {
        assert PageOf([b.kernel], p) || PageOf(managed, p) || PageOf([b.fdtPages], p) || PageOf(b.mmio, p);
      } else {
        var p: nat :| p < 0x1_0000_0000 && PageOf([b.kernel], p) && k == KeyOf(IDENTITY_END + p);
        assert Maps(m, IDENTITY_END + p, p, RWX);
      }
    }
  }

  // The boot stages, each with everything mapped by the earlier ones.

  ghost predicate KernelDone(m: Mapping, b: Boot) {
    Only(m, b.kernel, [b.kernel]) && IdMapped(m, [b.kernel], RWX) && UpperMapped(m, b.kernel)
  }

  ghost predicate ManagedDone(m: Mapping, b: Boot, managed: seq<PhysRange>) {
    && Only(m, b.kernel, [b.kernel] + managed)
    && IdMapped(m, [b.kernel], RWX) && UpperMapped(m, b.kernel) && IdMapped(m, managed, RW)
  }

  ghost predicate FdtDone(m: Mapping, b: Boot, managed: seq<PhysRange>) {
    && Only(m, b.kernel, [b.kernel] + managed + [b.fdtPages])
    && IdMapped(m, [b.kernel], RWX) && UpperMapped(m, b.kernel) && IdMapped(m, managed, RW) && IdMapped(m, [b.fdtPages], R)
  }

  /** Facts about the regions that all stages use. */
  ghost predicate Regions(b: Boot, managed: seq<PhysRange>) {
    forall n {:trigger Open(OnBoot, n)} :: Open(OnBoot, n) ==> Placement(b, managed)
  }

  ghost predicate Placement(b: Boot, managed: seq<PhysRange>) {
    && WellPlaced(b) && ManagedBy(managed, b) && Below([b.kernel])
    && Disjoint(managed, [b.kernel]) && Disjoint([b.fdtPages], [b.kernel] + managed) && Disjoint(b.mmio, [b.kernel] + managed + [b.fdtPages])
    && (forall x :: In(managed, x) ==> In([b.kernel] + managed + [b.fdtPages] + b.mmio, x))
    && (forall x :: In([b.fdtPages], x) ==> In([b.kernel] + managed + [b.fdtPages] + b.mmio, x))
    && (forall x :: In(b.mmio, x) ==> In([b.kernel] + managed + [b.fdtPages] + b.mmio, x))
  }

  lemma RegionsOk(b: Boot, managed: seq<PhysRange>)
    requires WellPlaced(b) && ManagedBy(managed, b)
    ensures Regions(b, managed)
  {
    KernelBelow(b);
    AllRegions(b, managed);
    ManagedDisjoint(managed, b);
    InConcat([b.kernel], managed);
    InConcat([b.kernel] + managed, [b.fdtPages]);
  }

  lemma ManagedStage(m: Mapping, m': Mapping, b: Boot, managed: seq<PhysRange>)
    requires KernelDone(m, b) && AddedAll(m, m', managed, RW)
    ensures ManagedDone(m', b, managed)
  {
    OnlyMore(m, m', b.kernel, [b.kernel], managed, RW);
  }

  lemma FdtStage(m: Mapping, m': Mapping, b: Boot, managed: seq<PhysRange>)
    requires ManagedDone(m, b, managed) && AddedAll(m, m', [b.fdtPages], R)
    ensures FdtDone(m', b, managed)
  {
    OnlyMore(m, m', b.kernel, [b.kernel] + managed, [b.fdtPages], R);
  }

  lemma ManagedPending(m: Mapping, b: Boot, managed: seq<PhysRange>)
    requires Regions(b, managed) && KernelDone(m, b)
    ensures Low(managed) && PendingAll(m, managed, BootKeys(b, managed))
  {
    assert Open(OnBoot, 0);
    NextPending(m, b, managed, [b.kernel], managed);
  }

  lemma FdtPending(m: Mapping, b: Boot, managed: seq<PhysRange>)
    requires Regions(b, managed) && ManagedDone(m, b, managed)
    ensures CoveringPages(b.fdt) == Result.Ok(b.fdtPages) && Low([b.fdtPages]) && PendingAll(m, [b.fdtPages], BootKeys(b, managed))
  {
    assert Open(OnBoot, 0);
    BelowMore([b.kernel], managed);
    NextPending(m, b, managed, [b.kernel] + managed, [b.fdtPages]);
  }

  lemma MmioPending(m: Mapping, b: Boot, managed: seq<PhysRange>)
    requires Regions(b, managed) && FdtDone(m, b, managed)
    ensures Low(b.mmio) && PendingAll(m, b.mmio, BootKeys(b, managed))
  {
    assert Open(OnBoot, 0);
    BelowMore([b.kernel], managed);
    BelowMore([b.kernel] + managed, [b.fdtPages]);
    NextPending(m, b, managed, [b.kernel] + managed + [b.fdtPages], b.mmio);
  }

  method MapManaged(table: PageTable, alloc: PageFrameAllocator, b: Boot, managed: seq<PhysRange>)
    requires Ready(table, alloc, BootKeys(b, managed)) && Regions(b, managed) && KernelDone(table.shape.mapped, b)
    modifies table, alloc
    ensures Ready(table, alloc, BootKeys(b, managed)) && ManagedDone(table.shape.mapped, b, managed)
  {
    hide Ready, Regions, BootKeys, KernelDone, ManagedDone;
    ghost var m := table.shape.mapped;
    ManagedPending(m, b, managed);
    IdMapRanges(table, alloc, managed, RW, BootKeys(b, managed));
    ManagedStage(m, table.shape.mapped, b, managed);
  }

  method MapFdt(table: PageTable, alloc: PageFrameAllocator, b: Boot, ghost managed: seq<PhysRange>)
    requires Ready(table, alloc, BootKeys(b, managed)) && Regions(b, managed) && ManagedDone(table.shape.mapped, b, managed)
    modifies table, alloc
    ensures Ready(table, alloc, BootKeys(b, managed)) && FdtDone(table.shape.mapped, b, managed)
  {
    ghost var m := table.shape.mapped;
    FdtPending(m, b, managed);
    var pages := CoveringPages(b.fdt).value;
    IdMapRanges(table, alloc, [pages], R, BootKeys(b, managed));
    FdtStage(m, table.shape.mapped, b, managed);
  }

  method MapMmio(table: PageTable, alloc: PageFrameAllocator, b: Boot, ghost managed: seq<PhysRange>)
    requires Ready(table, alloc, BootKeys(b, managed)) && Regions(b, managed) && FdtDone(table.shape.mapped, b, managed)
    modifies table, alloc
    ensures table.Valid() && alloc.Valid() && BootMapped(table.shape.mapped, b, managed) && table.mem.Keys <= alloc.Managed
  {
    ghost var m := table.shape.mapped;
    MmioPending(m, b, managed);
    IdMapRanges(table, alloc, b.mmio, RW, BootKeys(b, managed));
    Finished(table, alloc, m, b, managed);
  }

  lemma Finished(table: PageTable, alloc: PageFrameAllocator, m: Mapping, b: Boot, managed: seq<PhysRange>)
    requires Ready(table, alloc, BootKeys(b, managed)) && FdtDone(m, b, managed) && AddedAll(m, table.shape.mapped, b.mmio, RW)
    ensures table.Valid() && alloc.Valid() && BootMapped(table.shape.mapped, b, managed) && table.mem.Keys <= alloc.Managed
  {
    assert Open(OnBudget, 0);
    OutstandingManaged(alloc);
    BootComplete(table.shape.mapped, b, managed);
  }

  /** Build the kernel page table: the kernel image at both addresses, every frame the allocator may ever
      hand out (so every table frame taken on the way), the FDT and the MMIO regions.  The snapshot of
      managed ranges is taken first; mapping never changes it. */
  method Init(table: PageTable, alloc: PageFrameAllocator, b: Boot)
    requires table.Valid() && alloc.Valid() && table.shape.mapped == map[] && table.mem.Keys <= alloc.Outstanding
    requires WellPlaced(b) && ManagedBy(RangesOf(alloc.arenas), b)
    requires TableCount(BootKeys(b, RangesOf(alloc.arenas))) <= |FreeFrames(alloc)|
    modifies table, alloc
    ensures table.Valid() && alloc.Valid() && BootMapped(table.shape.mapped, b, old(RangesOf(alloc.arenas)))
    ensures table.mem.Keys <= alloc.Managed == FramesOf(old(RangesOf(alloc.arenas)))
    ensures BootGrants(table.root, table.mem, b, old(RangesOf(alloc.arenas)))
  {
    hide BootGrants;
    var managed := alloc.Ranges();
    OutstandingManaged(alloc);
    RegionsOk(b, managed);
    KernelPending(b, managed);
    MapKernel(table, alloc, b.kernel.start, b.kernel.end, BootKeys(b, managed));
    KernelStage(table.shape.mapped, b);
    MapManaged(table, alloc, b, managed);
    MapFdt(table, alloc, b, managed);
    MapMmio(table, alloc, b, managed);
    BootTranslates(table.root, table.mem, table.shape, b, managed);
  }

  lemma KernelBelow(b: Boot)
    requires WellPlaced(b)
    ensures Below([b.kernel])
  {
    InOne();
  }

  const READ_ONLY: Access := Access(true, false, false, false)
  const READ_WRITE: Access := Access(true, true, false, false)
  const ALL_BUT_USER: Access := Access(true, true, true, false)

  lemma FlagRights()
    ensures Rights(R) == READ_ONLY && Rights(RW) == READ_WRITE && Rights(RWX) == ALL_BUT_USER
    ensures Permits(R) && Permits(RW) && Permits(RWX)
  {
    RightsAreBits(R);
    RightsAreBits(RW);
    RightsAreBits(RWX);
  }

  lemma MappedPageGrants(root: Table, mem: Frames, s: Shape, k: Key, page: nat, flags: nat)
    requires Rep(root, mem, s) && k.Valid() && k in s.mapped && s.mapped[k] == LeafOf(page, flags)
    requires flags < 1024 && Permits(flags) && page % PAGE == 0
    ensures Grants(Walk(root, mem, k), page, Rights(flags))
  {
    hide Rep, Walk, LeafOf, Rights, Permits, Grants;
    MappedGrants(root, mem, s, k, page, flags);
    assert page / 4096 * 4096 == page;
  }

  /** The walk takes every page of `rs` to itself. */
  ghost predicate GrantedInPlace(root: Table, mem: Frames, rs: seq<PhysRange>, a: Access) {
    forall p: nat {:trigger PageOf(rs, p)} :: PageOf(rs, p) ==> KeyOf(p).Valid() && Grants(Walk(root, mem, KeyOf(p)), p, a)
  }

  lemma IdGrants(root: Table, mem: Frames, s: Shape, rs: seq<PhysRange>, flags: nat)
    requires Rep(root, mem, s) && IdMapped(s.mapped, rs, flags) && flags < 1024 && Permits(flags)
    ensures GrantedInPlace(root, mem, rs, Rights(flags))
  {
    hide Rep, Walk, KeyOf, LeafOf, Rights, Permits, Grants;
    forall p: nat | PageOf(rs, p) ensures KeyOf(p).Valid() && Grants(Walk(root, mem, KeyOf(p)), p, Rights(flags)) {
      KeyDigits(p);
      MappedPageGrants(root, mem, s, KeyOf(p), p, flags);
    }
  }

  ghost predicate BootGrants(root: Table, mem: Frames, b: Boot, managed: seq<PhysRange>) {
    && GrantedInPlace(root, mem, managed, READ_WRITE) && GrantedInPlace(root, mem, b.mmio, READ_WRITE)
    && GrantedInPlace(root, mem, [b.fdtPages], READ_ONLY) && GrantedInPlace(root, mem, [b.kernel], ALL_BUT_USER)
    && forall p: nat {:trigger PageOf([b.kernel], p)} :: PageOf([b.kernel], p) ==>
         p < 0x1_0000_0000 && KeyOf(UPPER + p).Valid() && Grants(Walk(root, mem, KeyOf(UPPER + p)), p, ALL_BUT_USER)
  }

  /** After boot managed frames and MMIO are granted to themselves for reading and writing, the FDT for reading and
      the kernel for everything, that also in the upper half; never to user mode. */
  lemma BootTranslates(root: Table, mem: Frames, s: Shape, b: Boot, managed: seq<PhysRange>)
    requires Rep(root, mem, s) && BootMapped(s.mapped, b, managed) && WellPlaced(b)
    ensures BootGrants(root, mem, b, managed)
  {
    hide Rep, Walk, KeyOf, LeafOf, Rights, Permits, Grants, GrantedInPlace;
    FlagRights();
    IdGrants(root, mem, s, managed, RW);
    IdGrants(root, mem, s, b.mmio, RW);
    IdGrants(root, mem, s, [b.fdtPages], R);
    IdGrants(root, mem, s, [b.kernel], RWX);
    InOne();
    forall p: nat | PageOf([b.kernel], p)
      ensures p < 0x1_0000_0000 && KeyOf(UPPER + p).Valid() && Grants(Walk(root, mem, KeyOf(UPPER + p)), p, ALL_BUT_USER)
    {
      KeyDigits(UPPER + p);
      UpperKey(p);
      MappedPageGrants(root, mem, s, KeyOf(UPPER + p), p, RWX);
    }
  }

  /** Modulo 2^39 the address lies in one of the regions, or in the kernel's place in the upper half. */
  ghost predicate Planned(b: Boot, managed: seq<PhysRange>, va: nat) {
    var p := va % 0x80_0000_0000 / 4096 * 4096;
    PageOf([b.kernel] + managed + [b.fdtPages] + b.mmio, p) || (p >= 0x7F_0000_0000 && PageOf([b.kernel], p - 0x7F_0000_0000))
  }

  /** Only planned pages are found. */
  lemma BootMapsNothingElse(root: Table, mem: Frames, s: Shape, b: Boot, managed: seq<PhysRange>, va: nat)
    requires Rep(root, mem, s) && BootMapped(s.mapped, b, managed)
    requires KeyOf(va).Valid() && Walk(root, mem, KeyOf(va)).Leaf?
    ensures Planned(b, managed, va)
  {
    hide Rep, Walk, KeyOf, BootKeys, Planned, IdMapped, UpperMapped;
    WalkIsMapping(root, mem, s, KeyOf(va));
    assert KeyOf(va) in s.mapped.Keys;
    PlannedKey(b, managed, va);
  }

  lemma PlannedKey(b: Boot, managed: seq<PhysRange>, va: nat)
    requires KeyOf(va) in BootKeys(b, managed)
    ensures Planned(b, managed, va)
  {
    hide KeyOf, PageOf;
    var regions := [b.kernel] + managed + [b.fdtPages] + b.mmio;
    if q: nat :| q < IDENTITY_END && PageOf(regions, q) && KeyOf(va) == KeyOf(q) {
      PageAligns(regions, q);
      PageFromKey(va, q);
    } else {
      var q: nat :| q < 0x1_0000_0000 && PageOf([b.kernel], q) && KeyOf(va) == KeyOf(IDENTITY_END + q);
      PageAligns([b.kernel], q);
      PageFromKey(va, IDENTITY_END + q);
    }
  }

  lemma PageAligns(rs: seq<PhysRange>, p: nat)
    requires PageOf(rs, p)
    ensures p % 4096 == 0
  {
  }

  lemma PageFromKey(va: nat, q: nat)
    requires KeyOf(va) == KeyOf(q) && q % 4096 == 0 && q < 0x80_0000_0000
    ensures va % 0x80_0000_0000 / 4096 * 4096 == q
  {
    KeyInjective(va, q);
    PageNumber(q);
  }

  // ---------------------------------------------------------------------------------------
  // Boot as a whole
  // ---------------------------------------------------------------------------------------

  /** A page at `p` is granted to itself exactly if the MMU accepts its address. */
  ghost predicate InPlace(table: PageTable, p: nat, a: Access)
    reads table
  {
    if p < 0x40_0000_0000 then Grants(table.Translate(p), p, a) else table.Translate(p) == Fault
  }

  ghost predicate AllInPlace(table: PageTable, rs: seq<PhysRange>, a: Access)
    reads table
  {
    forall p: nat {:trigger PageOf(rs, p)} :: PageOf(rs, p) ==> InPlace(table, p, a)
  }

  /** Frames can be read and written but not executed, and all their bytes are RAM that is neither reserved nor part
      of the FDT or the kernel. */
  ghost predicate UsableFrame(table: PageTable, b: Boot, f: nat)
    reads table
  {
    && InPlace(table, f, Access(true, true, false, false))
    && forall y :: f <= y < f + PAGE ==> In(b.memory, y) && !In(b.reserved, y) && !b.fdt.Has(y) && !b.kernel.Has(y)
  }

  /** From the memory map to a running page table: every frame the allocator can ever hand out is usable, the
      frames that hold the tables among them.  `managed` is what the memory map leaves to manage. */
  method BootKernel(b: Boot, ghost managed: seq<PhysRange>) returns (alloc: PageFrameAllocator, table: PageTable)
    requires WellPlaced(b) && ManagedBy(managed, b) && TableCount(BootKeys(b, managed)) <= |FramesOf(managed)|
    ensures alloc.Valid() && table.Valid() && alloc.Managed == FramesOf(managed) && table.mem.Keys <= alloc.Managed
    ensures forall f :: f in alloc.Managed ==> f >= 0 && UsableFrame(table, b, f)
    ensures AllInPlace(table, b.mmio, Access(true, true, false, false)) && AllInPlace(table, [b.fdtPages], Access(true, false, false, false))
    ensures forall p: nat {:trigger PageOf([b.kernel], p)} :: PageOf([b.kernel], p) ==>
      && Grants(table.Translate(p), p, Access(true, true, true, false))
      && Grants(table.Translate(0xFFFF_FFFF_0000_0000 + p), p, Access(true, true, true, false))
    ensures forall va: nat :: table.Translate(va).Leaf? ==> Planned(b, managed, va)
  {
    alloc := new PageFrameAllocator(b.memory, b.reserved, b.fdt, b.kernel);
    NormalIsCanonical(RangesOf(alloc.arenas), managed);
    OutstandingManaged(alloc);
    assert FreeFrames(alloc) == FramesOf(managed);
    table := new PageTable();
    Init(table, alloc, b);
    BootIsUsable(table, b, managed);
  }

  lemma TranslatesInPlace(table: PageTable, rs: seq<PhysRange>, a: Access)
    requires table.Valid() && GrantedInPlace(table.root, table.mem, rs, a) && Below(rs)
    ensures AllInPlace(table, rs, a)
  {
    hide Rep, Walk, Tight, KeyOf, Grants;
  }

  lemma BootIsUsable(table: PageTable, b: Boot, managed: seq<PhysRange>)
    requires table.Valid() && BootMapped(table.shape.mapped, b, managed) && WellPlaced(b) && ManagedBy(managed, b)
    ensures forall f :: f in FramesOf(managed) ==> f >= 0 && UsableFrame(table, b, f)
    ensures AllInPlace(table, b.mmio, READ_WRITE) && AllInPlace(table, [b.fdtPages], READ_ONLY)
    ensures forall p: nat {:trigger PageOf([b.kernel], p)} :: PageOf([b.kernel], p) ==>
      Grants(table.Translate(p), p, ALL_BUT_USER) && Grants(table.Translate(UPPER + p), p, ALL_BUT_USER)
    ensures forall va: nat :: table.Translate(va).Leaf? ==> Planned(b, managed, va)
  {
    hide Rep, Walk, Tight, KeyOf, Grants, BootMapped, UsablePage, GrantedInPlace, AllInPlace;
    BootTranslates(table.root, table.mem, table.shape, b, managed);
    LowBelow(managed);
    LowBelow(b.mmio);
    LowBelow([b.fdtPages]);
    KernelBelow(b);
    TranslatesInPlace(table, managed, READ_WRITE);
    TranslatesInPlace(table, b.mmio, READ_WRITE);
    TranslatesInPlace(table, [b.fdtPages], READ_ONLY);
    TranslatesInPlace(table, [b.kernel], ALL_BUT_USER);
    FramesUsable(table, b, managed);
    forall p: nat | PageOf([b.kernel], p)
      ensures Grants(table.Translate(p), p, ALL_BUT_USER) && Grants(table.Translate(UPPER + p), p, ALL_BUT_USER)
    {
      OneInPlace(table, [b.kernel], ALL_BUT_USER, p);
    }
    forall va: nat | table.Translate(va).Leaf? ensures Planned(b, managed, va) {
      KeyDigits(va);
      BootMapsNothingElse(table.root, table.mem, table.shape, b, managed, va);
    }
  }

  lemma OneInPlace(table: PageTable, rs: seq<PhysRange>, a: Access, p: nat)
    requires AllInPlace(table, rs, a) && PageOf(rs, p)
    ensures InPlace(table, p, a)
  {
  }

  lemma LowBelow(rs: seq<PhysRange>)
    requires Low(rs)
    ensures Below(rs)
  {
    forall p: nat | PageOf(rs, p) ensures p < IDENTITY_END { LowPage(rs, p); }
  }

  lemma FramesUsable(table: PageTable, b: Boot, managed: seq<PhysRange>)
    requires AllInPlace(table, managed, READ_WRITE) && ManagedBy(managed, b)
    ensures forall f :: f in FramesOf(managed) ==> f >= 0 && UsableFrame(table, b, f)
  {
    hide InPlace, UsablePage;
    forall f | f in FramesOf(managed) ensures f >= 0 && UsableFrame(table, b, f) {
      assert PageOf(managed, f);
      forall y | f <= y < f + PAGE ensures In(b.memory, y) && !In(b.reserved, y) && !b.fdt.Has(y) && !b.kernel.Has(y) {
        ManagedFrameIsSafe(b.memory, b.reserved, b.fdt, b.kernel, f, y);
      }
    }
  }

  // ---------------------------------------------------------------------------------------
  // RAM that the kernel maps and cannot reach
  // ---------------------------------------------------------------------------------------

  const HIGH: PhysRange := Span(0x40_0000_0000, 0x40_0001_0000)

  /** Sixteen pages of RAM at 2^38, with kernel and FDT in pages of their own below. */
  ghost function HighBoot(): Boot {
    Boot([HIGH], [], Span(0x9000_0000, 0x9000_1000), Span(0x9000_0000, 0x9000_1000), [], Span(0x8020_0000, 0x8020_1000))
  }

  /** Nothing in the boot sequence rules out RAM at 2^38: its frames are managed and mapped, and fault, by `BootKernel`. */
  lemma HighFramesBoot()
    ensures WellPlaced(HighBoot()) && ManagedBy([HIGH], HighBoot()) && 0x40_0000_0000 in FramesOf([HIGH])
    ensures TableCount(BootKeys(HighBoot(), [HIGH])) <= |FramesOf([HIGH])|
  {
    InOne();
    HighCovering();
    HighManaged();
    HighKeys();
    HighFrames();
  }

  lemma HighCovering()
    ensures var b := HighBoot(); CoveringPages(b.fdt) == Result.Ok(b.fdtPages)
  {
    var b := HighBoot();
    AlignDownIsPage(b.fdt.start);
    AlignDownIsPage(b.fdt.end + (PAGE_SIZE - 1));
  }

  lemma HighManaged()
    ensures ManagedBy([HIGH], HighBoot())
  {
    var b := HighBoot();
    var taken := b.reserved + [b.fdt] + [b.kernel];
    InOne();
    InSnoc(b.reserved, b.fdt);
    InSnoc(b.reserved + [b.fdt], b.kernel);
    forall x ensures HIGH.Has(x) <==> UsablePage(b.memory, taken, x) {
      if UsablePage(b.memory, taken, x) { assert In(b.memory, x); }
      if HIGH.Has(x) { assert HIGH.start <= Page(x) && Page(x) + PAGE_SIZE <= HIGH.end; }
    }
  }

  /** The sixteen frames are more than the tables need. */
  lemma HighFrames()
    ensures 0x40_0000_0000 in FramesOf([HIGH]) && |FramesOf([HIGH])| >= 7
  {
    InOne();
    var few := {0x40_0000_0000, 0x40_0000_1000, 0x40_0000_2000, 0x40_0000_3000, 0x40_0000_4000, 0x40_0000_5000, 0x40_0000_6000};
    assert few <= FramesOf([HIGH]);
    SubsetSize(few, FramesOf([HIGH]));
  }

  /** Addresses in the same 2 MiB have the same two top digits. */
  lemma TopDigits(va: nat, x: nat)
    requires x <= va < x + 0x20_0000 && x % 0x20_0000 == 0
    ensures KeyOf(va).l2 == x / 0x4000_0000 % 512 && KeyOf(va).l1 == x / 0x20_0000 % 512
  {
    KeyDigits(va);
    Bits.DivModUnique(va, 0x20_0000, x / 0x20_0000, va - x);
  }

  lemma HighPage(p: nat)
    requires var b := HighBoot(); PageOf([b.kernel] + [HIGH] + [b.fdtPages] + b.mmio, p)
    ensures HighBoot().kernel.Has(p) || HIGH.Has(p) || HighBoot().fdtPages.Has(p)
  {
    var b := HighBoot();
    InOne();
    InSnoc([b.kernel], HIGH);
    InSnoc([b.kernel] + [HIGH], b.fdtPages);
    assert [b.kernel] + [HIGH] + [b.fdtPages] + b.mmio == [b.kernel] + [HIGH] + [b.fdtPages];
  }

  lemma KernelPage(p: nat)
    requires PageOf([HighBoot().kernel], p)
    ensures HighBoot().kernel.Has(p)
  {
    InOne();
  }

  lemma HighKey(k: Key)
    requires k in BootKeys(HighBoot(), [HIGH])
    ensures Key2(k.l2, k.l1) in {Key2(2, 1), Key2(2, 128), Key2(256, 0), Key2(510, 1)}
  {
    hide KeyOf, PageOf;
    var b := HighBoot();
    if p: nat :| p < IDENTITY_END && PageOf([b.kernel] + [HIGH] + [b.fdtPages] + b.mmio, p) && k == KeyOf(p) {
      HighPage(p);
      TopDigits(p, if b.kernel.Has(p) then 0x8020_0000 else if HIGH.Has(p) then 0x40_0000_0000 else 0x9000_0000);
    } else {
      var p: nat :| p < 0x1_0000_0000 && PageOf([b.kernel], p) && k == KeyOf(IDENTITY_END + p);
      KernelPage(p);
      TopDigits(IDENTITY_END + p, 0x7F_8020_0000);
    }
  }

  lemma HighKeys()
    ensures TableCount(BootKeys(HighBoot(), [HIGH])) <= 7
  {
    var b := HighBoot();
    var ks := BootKeys(b, [HIGH]);
    var l2s, pairs := {2, 256, 510}, {Key2(2, 1), Key2(2, 128), Key2(256, 0), Key2(510, 1)};
    forall k | k in ks ensures k.l2 in l2s && Key2(k.l2, k.l1) in pairs { HighKey(k); }
    SubsetSize(L2s(ks), l2s);
    SubsetSize(Pairs(ks), pairs);
  }
}
