/** The free-list allocator: an intrusive, address-ordered singly linked list kept inside the
    very memory it hands out.

    Memory is word-granular: every access of the allocator is an aligned 8-byte word, and
    payloads start and end on word boundaries.  A `FreeBlock` at `b` is the three words
    `size` at `b`, the tag of `next` at `b + 8` and its pointer at `b + 16`; the metadata of
    an allocation at `p` is `start_addr` at `p - 16` and `size` at `p - 8`. */
module FreeList {
  import opened HeapTiles
  import Bits
  import opened Options

  type Memory = map<int, int>

  const WORD_BITS: nat := 64
  const TOP: nat := 0x1_0000_0000_0000_0000  // 2^64

  // ---------------------------------------------------------------------------------------
  // Alignment
  // ---------------------------------------------------------------------------------------

  ghost predicate IsPow2(a: nat) { exists k: nat :: a == Bits.Pow2(k) }

  /** `(addr + align - 1) & !(align - 1)` on 64-bit words. */
  function AlignUp(addr: nat, align: nat): nat
    requires 0 < align <= TOP
  {
    Bits.And(addr + align - 1, Bits.Not(align - 1, TOP))
  }

  /** The mask computes the least multiple at or above `addr`, as long as nothing overflows. */
  lemma AlignUpIsUp(addr: nat, align: nat)
    requires IsPow2(align) && addr + align <= TOP
    ensures align > 0 && AlignUp(addr, align) == Up(addr, align)
  {
    var k: nat :| align == Bits.Pow2(k);
    Bits.Pow2Of64();
    WordExponent(k, align);
    Bits.MaskHigh(addr + align - 1, k, align, WORD_BITS, TOP);
  }

  lemma WordExponent(k: nat, align: nat)
    requires align == Bits.Pow2(k) && align <= Bits.Pow2(WORD_BITS)
    ensures k <= WORD_BITS
  {
    if k > WORD_BITS { Bits.Pow2Monotone(WORD_BITS, k - 1); }
  }

  lemma AlignUpPtr(addr: nat)
    requires addr + MIN_ALIGN <= TOP
    ensures AlignUp(addr, MIN_ALIGN) == Up(addr, 8) && Up(addr, 8) % 8 == 0 && addr <= Up(addr, 8) < addr + 8
    ensures addr % 8 == 0 ==> AlignUp(addr, MIN_ALIGN) == addr
  {
    hide AlignUp, Up;
    assert IsPow2(8) by { Bits.Pow2Values(); }
    AlignUpIsUp(addr, 8);
    UpBy8(addr);
  }

  lemma UpBy8(addr: nat)
    ensures Up(addr, 8) % 8 == 0 && addr <= Up(addr, 8) < addr + 8 && (addr % 8 == 0 ==> Up(addr, 8) == addr)
  {
  }

  lemma Pow2Multiple(a: nat)
    requires IsPow2(a) && a >= 8
    ensures a % 8 == 0
  {
    var k: nat :| a == Bits.Pow2(k);
    if k < 3 { Bits.Pow2Monotone(k, 2); }
    Bits.Pow2Adds(3, k - 3);
  }

  // ---------------------------------------------------------------------------------------
  // Words of a block
  // ---------------------------------------------------------------------------------------

  /** `(*a).next` */
  function Next(m: Memory, a: int): Option<int>
    requires a + 8 in m && a + 16 in m
  {
    if m[a + 8] == 0 then None else Some(m[a + 16])
  }

  /** `(*a).next = n`; writing `None` leaves the pointer word as it was. */
  function SetNext(m: Memory, a: int, n: Option<int>): Memory {
    match n
    case None => m[a + 8 := 0]
    case Some(q) => m[a + 8 := 1][a + 16 := q]
  }

  /** The aligned words of `[lo, hi)` are mapped. */
  ghost predicate Mapped(m: Memory, lo: nat, hi: nat) {
    forall a :: a % 8 == 0 && lo <= a && a + 8 <= hi ==> a in m
  }

  ghost predicate Agree(m: Memory, m': Memory, lo: nat, hi: nat) {
    forall a :: lo <= a < hi && a in m ==> a in m' && m'[a] == m[a]
  }

  /** List segment: following `next` from `p` visits exactly the free tiles of `ts`, in order and
      with their sizes, and then stands at `q`; every live tile carries its metadata. */
  ghost predicate Seg(m: Memory, ts: seq<Tile>, p: Option<int>, q: Option<int>)
    decreases |ts|
  {
    if ts == [] then p == q
    else match ts[0]
      case Free(addr, size) =>
        && p == Some(addr) && addr in m && addr + 8 in m && addr + 16 in m
        && m[addr] == size && Seg(m, ts[1..], Next(m, addr), q)
      case Live(addr, size, ptr, len) =>
        && ptr >= META && ptr - 16 in m && ptr - 8 in m
        && m[ptr - 16] == addr && m[ptr - 8] == size && Seg(m, ts[1..], p, q)
  }

  /** The words that make `b` a free block of `size` bytes linking to `n`. */
  ghost predicate Block(m: Memory, b: nat, size: nat, n: Option<int>) {
    b in m && b + 8 in m && b + 16 in m && m[b] == size && Next(m, b) == n
  }

  /** The metadata words in front of `ptr`. */
  ghost predicate Meta(m: Memory, ptr: nat, addr: nat, size: nat) {
    ptr >= META && ptr - 16 in m && ptr - 8 in m && m[ptr - 16] == addr && m[ptr - 8] == size
  }

  lemma SegSingle(m: Memory, t: Tile, p: Option<int>, q: Option<int>)
    ensures Seg(m, [t], p, q) <==>
      if t.Free? then p == Some(t.addr) && Block(m, t.addr, t.size, q)
      else Meta(m, t.ptr, t.addr, t.size) && p == q
  {
    assert [t][1..] == [];
  }

  lemma {:induction false} SegJoin(m: Memory, a: seq<Tile>, b: seq<Tile>, p: Option<int>, x: Option<int>, q: Option<int>)
    requires Seg(m, a, p, x) && Seg(m, b, x, q)
    ensures Seg(m, a + b, p, q)
    decreases |a|
  {
    if a == [] {
      assert a + b == b;
    } else {
      assert (a + b)[1..] == a[1..] + b;
      SegJoin(m, a[1..], b, if a[0].Free? then Next(m, a[0].addr) else p, x, q);
    }
  }

  lemma {:induction false} SegSplit(m: Memory, a: seq<Tile>, b: seq<Tile>, p: Option<int>, q: Option<int>) returns (x: Option<int>)
    requires Seg(m, a + b, p, q)
    ensures Seg(m, a, p, x) && Seg(m, b, x, q)
    decreases |a|
  {
    if a == [] {
      assert a + b == b;
      x := p;
    } else {
      assert (a + b)[1..] == a[1..] + b;
      x := SegSplit(m, a[1..], b, if a[0].Free? then Next(m, a[0].addr) else p, q);
    }
  }

  /** A segment depends only on the words inside its own tiles. */
  lemma {:induction false} SegFrame(m: Memory, m': Memory, ts: seq<Tile>, p: Option<int>, q: Option<int>, lo: nat, hi: nat)
    requires Seg(m, ts, p, q) && Chain(ts, lo, hi) && Agree(m, m', lo, hi)
    ensures Seg(m', ts, p, q)
    decreases |ts|
  {
    if ts != [] {
      ChainOrdered(ts, lo, hi);
      SegFrame(m, m', ts[1..], if ts[0].Free? then Next(m, ts[0].addr) else p, q, ts[0].End(), hi);
    }
  }

  /** The live tiles before the next free one. */
  lemma {:induction false} SkipLive(m: Memory, ts: seq<Tile>, p: Option<int>, q: Option<int>) returns (n: nat)
    requires Seg(m, ts, p, q)
    ensures n <= |ts| && (forall j :: 0 <= j < n ==> ts[j].Live?)
    ensures Seg(m, ts[..n], p, p) && Seg(m, ts[n..], p, q)
    ensures n < |ts| ==> ts[n].Free?
    ensures n == |ts| ==> p == q
    decreases |ts|
  {
    if ts == [] || ts[0].Free? {
      n := 0;
      assert ts[..0] == [] && ts[0..] == ts;
    } else {
      n := SkipLive(m, ts[1..], p, q);
      assert ts[..n + 1][1..] == ts[1..][..n] && ts[n + 1..] == ts[1..][n..];
      n := n + 1;
    }
  }

  /** The address of the last free tile. */
  ghost function LastFree(ts: seq<Tile>): Option<nat> {
    if ts == [] then None
    else if ts[|ts| - 1].Free? then Some(ts[|ts| - 1].addr)
    else LastFree(ts[..|ts| - 1])
  }

  lemma {:induction false} LastFreeThenLive(a: seq<Tile>, b: seq<Tile>)
    requires forall i :: 0 <= i < |b| ==> b[i].Live?
    ensures LastFree(a + b) == LastFree(a)
    decreases |b|
  {
    if b == [] {
      assert a + b == a;
    } else {
      assert (a + b)[..|a + b| - 1] == a + b[..|b| - 1];
      LastFreeThenLive(a, b[..|b| - 1]);
    }
  }

  lemma {:induction false} LastFreeIndex(ts: seq<Tile>) returns (j: nat)
    requires LastFree(ts).Some?
    ensures j < |ts| && ts[j].Free? && LastFree(ts) == Some(ts[j].addr)
    decreases |ts|
  {
    if ts[|ts| - 1].Free? { j := |ts| - 1; } else { j := LastFreeIndex(ts[..|ts| - 1]); }
  }

  /** Redirecting the link that leaves a segment: the head if the segment has no free tile,
      otherwise the `next` field of its last free tile. */
  ghost function RelinkMem(m: Memory, prev: Option<int>, n: Option<int>): Memory {
    if prev.None? then m else SetNext(m, prev.value, n)
  }

  lemma {:induction false} Relink(m: Memory, ts: seq<Tile>, p: Option<int>, q: Option<int>, n: Option<int>, lo: nat, hi: nat)
    requires Seg(m, ts, p, q) && Chain(ts, lo, hi)
    ensures var prev := LastFree(ts);
      && (prev.None? ==> p == q)
      && Seg(RelinkMem(m, prev, n), ts, if prev.None? then n else p, n)
    decreases |ts|
  {
    if ts != [] {
      hide Seg;
      var a, t := ts[..|ts| - 1], ts[|ts| - 1];
      assert ts == a + [t] && ts == a + [t] + [];
      ChainSplit(a, t, [], lo, hi);
      if t.Free? {
        RelinkAtFree(m, a, t, p, q, n, lo);
      } else {
        var x := SegSplit(m, a, [t], p, q);
        SegSingle(m, t, x, q);
        Relink(m, a, p, q, n, lo, t.addr);
        RelinkMeta(m, a, t, n, lo);
        var m': Memory := RelinkMem(m, LastFree(a), n);
        SegSingle(m', t, n, n);
        SegJoin(m', a, [t], if LastFree(a).None? then n else p, n, n);
      }
    }
  }

  lemma RelinkAtFree(m: Memory, a: seq<Tile>, t: Tile, p: Option<int>, q: Option<int>, n: Option<int>, lo: nat)
    requires Seg(m, a + [t], p, q) && Chain(a, lo, t.addr) && t.WellFormed() && t.Free?
    ensures Seg(SetNext(m, t.addr, n), a + [t], p, n)
  {
    hide Seg, Chain;
    var x := SegSplit(m, a, [t], p, q);
    SegSingle(m, t, x, q);
    var m': Memory := SetNext(m, t.addr, n);
    SegFrame(m, m', a, p, x, lo, t.addr);
    SegSingle(m', t, x, n);
    SegJoin(m', a, [t], p, x, n);
  }

  /** Relinking a segment does not touch the metadata of a live tile behind it. */
  lemma RelinkMeta(m: Memory, a: seq<Tile>, t: Tile, n: Option<int>, lo: nat)
    requires t.Live? && t.WellFormed() && Chain(a, lo, t.addr) && Meta(m, t.ptr, t.addr, t.size)
    ensures Meta(RelinkMem(m, LastFree(a), n), t.ptr, t.addr, t.size)
  {
    if LastFree(a).Some? {
      var j := LastFreeIndex(a);
      ChainMember(a, lo, t.addr, j);
    }
  }

  /** Assemble a list from an untouched suffix, a rebuilt middle and a relinked prefix. */
  lemma Splice(m1: Memory, m0: Memory, m: Memory, pre: seq<Tile>, mid: seq<Tile>, post: seq<Tile>,
               lo: nat, a: nat, b: nat, hi: nat, h: Option<int>, x: Option<int>, y: Option<int>)
    requires Chain(pre, lo, a) && Chain(post, b, hi)
    requires Seg(m1, pre, h, x) && Agree(m1, m, lo, a)
    requires Seg(m, mid, x, y)
    requires Seg(m0, post, y, None) && Agree(m0, m, b, hi)
    ensures Seg(m, pre + mid + post, h, None)
  {
    SegFrame(m1, m, pre, h, x, lo, a);
    SegFrame(m0, m, post, y, None, b, hi);
    SegJoin(m, pre, mid, h, x, y);
    SegJoin(m, pre + mid, post, h, y, None);
  }

  lemma InitialTile(m: Memory, b: nat, size: nat)
    requires b % 8 == 0 && size >= FREE_BLOCK && Block(m, b, size, None)
    ensures Inv([Free(b, size)], b, b + size) && Seg(m, [Free(b, size)], Some(b), None)
  {
    SegSingle(m, Free(b, size), Some(b), None);
    assert [Free(b, size)][1..] == [];
  }

  // ---------------------------------------------------------------------------------------
  // Loop positions
  // ---------------------------------------------------------------------------------------

  /** The walk stands before tile `k`: `prev` is the last free tile passed, `current` the link to follow. */
  ghost predicate At(m: Memory, head: Option<int>, ts: seq<Tile>, k: nat, prev: Option<int>, current: Option<int>) {
    && k <= |ts| && prev == LastFree(ts[..k])
    && Seg(m, ts[..k], head, current) && Seg(m, ts[k..], current, None)
    && (k < |ts| ==> ts[k].Free?) && (k == |ts| ==> current == None)
  }

  lemma Slices(ts: seq<Tile>, k: nat, n: nat)
    requires k + n <= |ts|
    ensures ts[..k + n] == ts[..k] + ts[k..][..n] && ts[k + n..] == ts[k..][n..]
    ensures forall j :: k <= j < k + n ==> ts[j] == ts[k..][j - k]
  {
  }

  /** Skip the live tiles that separate the walk from its next free tile. */
  lemma Settle(m: Memory, head: Option<int>, ts: seq<Tile>, k: nat, prev: Option<int>, current: Option<int>) returns (k': nat)
    requires k <= |ts| && prev == LastFree(ts[..k])
    requires Seg(m, ts[..k], head, current) && Seg(m, ts[k..], current, None)
    ensures k <= k' && At(m, head, ts, k', prev, current)
    ensures forall j :: k <= j < k' ==> ts[j].Live?
  {
    var n := SkipLive(m, ts[k..], current, None);
    k' := k + n;
    Slices(ts, k, n);
    SegJoin(m, ts[..k], ts[k..][..n], head, current, current);
    LastFreeThenLive(ts[..k], ts[k..][..n]);
  }

  /** What the walk knows about the free tile it stands on. */
  lemma Here(m: Memory, head: Option<int>, ts: seq<Tile>, k: nat, prev: Option<int>, current: Option<int>)
    requires At(m, head, ts, k, prev, current) && current.Some?
    ensures k < |ts| && ts[k].Free? && current == Some(ts[k].addr)
    ensures var b := ts[k].addr; b in m && b + 8 in m && b + 16 in m && m[b] == ts[k].size
    ensures Seg(m, ts[k + 1..], Next(m, ts[k].addr), None)
  {
    assert ts[k..][1..] == ts[k + 1..];
  }

  /** A walk that has run out of links has passed every tile. */
  lemma AtEnd(m: Memory, head: Option<int>, ts: seq<Tile>, k: nat, prev: Option<int>)
    requires At(m, head, ts, k, prev, None)
    ensures k == |ts|
  {
  }

  /** One step of the walk. */
  lemma Advance(m: Memory, head: Option<int>, ts: seq<Tile>, k: nat, prev: Option<int>, current: Option<int>) returns (k': nat)
    requires At(m, head, ts, k, prev, current) && current.Some?
    ensures k < k' && k < |ts| && ts[k].Free? && current == Some(ts[k].addr)
    ensures ts[k].addr + 8 in m && ts[k].addr + 16 in m
    ensures At(m, head, ts, k', current, Next(m, ts[k].addr))
    ensures forall j :: k < j < k' ==> ts[j].Live?
  {
    Here(m, head, ts, k, prev, current);
    var n := Next(m, ts[k].addr);
    assert ts[..k + 1] == ts[..k] + [ts[k]];
    SegSingle(m, ts[k], current, n);
    SegJoin(m, ts[..k], [ts[k]], head, current, n);
    k' := Settle(m, head, ts, k + 1, current, n);
  }

  /** Writes inside a payload disturb neither the list nor any metadata. */
  lemma PayloadWrite(m: Memory, m': Memory, head: Option<int>, pre: seq<Tile>, t: Tile, post: seq<Tile>, lo: nat, hi: nat, a: int)
    requires t.Live? && t.ptr <= a < t.ptr + t.len && Chain(pre + [t] + post, lo, hi) && Seg(m, pre + [t] + post, head, None)
    requires forall b :: b in m && b != a ==> b in m' && m'[b] == m[b]
    ensures Seg(m', pre + [t] + post, head, None)
  {
    ChainSplit(pre, t, post, lo, hi);
    var x := MetaOf(m, head, pre, t, post);
    SegSingle(m', t, x, x);
    Splice(m, m, m', pre, [t], post, lo, t.addr, t.End(), hi, head, x, x);
  }

  // ---------------------------------------------------------------------------------------
  // Non-interference
  // ---------------------------------------------------------------------------------------

  /** `alloc` leaves every word of every live extent, header and payload, as it was. */
  lemma AllocSparesLive(m: Memory, m': Memory, ts: seq<Tile>, lo: nat, hi: nat, i: nat)
    requires Inv(ts, lo, hi) && i < |ts| && ts[i].Live? && WritesOnly(m, m', ts)
    ensures Agree(m, m', ts[i].addr, ts[i].End())
  {
    forall a | ts[i].Has(a) ensures !FreeByte(ts, a) { LiveNotFree(ts, lo, hi, i, a); }
  }

  /** `dealloc` leaves every word of every other live extent as it was. */
  lemma DeallocSparesLive(m: Memory, m': Memory, ts: seq<Tile>, lo: nat, hi: nat, ptr: nat, j: nat)
    requires Inv(ts, lo, hi) && IsLive(ts, ptr) && j < |ts| && ts[j].Live? && ts[j].ptr != ptr
    requires WritesOnly(m, m', DeallocTiles(ts, ptr))
    ensures Agree(m, m', ts[j].addr, ts[j].End())
  {
    var j' := OtherTileSurvives(ts, lo, hi, ptr, j);
    DeallocKeepsInv(ts, lo, hi, ptr);
    AllocSparesLive(m, m', DeallocTiles(ts, ptr), lo, hi, j');
  }

  // ---------------------------------------------------------------------------------------
  // Requests
  // ---------------------------------------------------------------------------------------

  function RequestAlign(align: nat): nat { if align >= MIN_ALIGN then align else MIN_ALIGN }

  lemma RequestIsWellFormed(align: nat, size: nat)
    requires IsPow2(align) && 0 < size && size + 8 <= TOP
    ensures Request(RequestAlign(align), Up(size, 8)) && IsPow2(RequestAlign(align))
    ensures AlignUp(size, 8) == Up(size, 8) < size + 8
  {
    AlignUpPtr(size);
    assert IsPow2(8) by { Bits.Pow2Values(); }
    if align >= 8 { Pow2Multiple(align); }
  }

  /** `p` would do for a request: it is a multiple of the alignment asked for and of 8, and the 16 bytes before it
      and the size asked for, rounded up to 8, are free. */
  ghost predicate Suits(ts: seq<Tile>, align: nat, size: nat, p: nat)
    requires align > 0
  {
    p % align == 0 && p % 8 == 0 && p >= 16 && forall a :: p - 16 <= a < p + Up(size, 8) ==> FreeByte(ts, a)
  }

  lemma AlignsBoth(align: nat, p: nat)
    requires IsPow2(align) && align > 0
    ensures p % RequestAlign(align) == 0 <==> p % align == 0 && p % 8 == 0
  {
    hide IsPow2;
    if align >= 8 {
      Pow2Multiple(align);
      if p % align == 0 { ModMultiple(p, align); }
    } else {
      SmallPow2(align);
      DividesEight(p, align);
    }
  }

  lemma DividesEight(p: nat, align: nat)
    requires align == 1 || align == 2 || align == 4
    ensures p % 8 == 0 ==> p % align == 0
  {
    if p % 8 == 0 {
      var q := p / 8;
      if align == 2 { Bits.DivModUnique(p, 2, 4 * q, 0); }
      if align == 4 { Bits.DivModUnique(p, 4, 2 * q, 0); }
    }
  }

  lemma SmallPow2(align: nat)
    requires IsPow2(align) && align < 8
    ensures align == 1 || align == 2 || align == 4
  {
    var k: nat :| align == Bits.Pow2(k);
    if k >= 3 { Bits.Pow2Monotone(3, k); Bits.Pow2Values(); }
    assert Bits.Pow2(0) == 1 && Bits.Pow2(1) == 2 && Bits.Pow2(2) == 4;
  }

  /** The outcome of a request in the caller's own terms: the least address that would do, or null if there is none;
      one snug tile changes hands. */
  ghost predicate Granted(ts: seq<Tile>, ns: seq<Tile>, align: nat, size: nat, r: Option<int>)
    requires align > 0
  {
    && (r.None? <==> forall q: nat :: !Suits(ts, align, size, q)) && (r.None? ==> ns == ts)
    && (r.Some? ==>
          && r.value >= 0 && Suits(ts, align, size, r.value) && (forall q: nat :: Suits(ts, align, size, q) ==> r.value <= q)
          && exists t: Tile :: Snug(t, r.value, Up(size, 8)) && Takes(ts, ns, t))
  }

  lemma RequestGranted(ts: seq<Tile>, lo: nat, hi: nat, align: nat, size: nat)
    requires Inv(ts, lo, hi) && IsPow2(align) && align > 0 && Request(RequestAlign(align), Up(size, 8))
    ensures var a, len := RequestAlign(align), Up(size, 8);
      Granted(ts, AllocTiles(ts, a, len), align, size, AllocPtr(ts, a, len))
  {
    hide Inv, FreeByte, IsPow2, Snug, Takes, RequestAlign, Up, FirstFit, Carve, Fit;
    var a, len := RequestAlign(align), Up(size, 8);
    forall q: nat ensures Suits(ts, align, size, q) <==> Allocatable(ts, a, len, q) { AlignsBoth(align, q); }
    AllocFailsIffImpossible(ts, lo, hi, a, len);
    if AllocPtr(ts, a, len).Some? {
      forall q: nat ensures Allocatable(ts, a, len, AllocPtr(ts, a, len).value)
        ensures Allocatable(ts, a, len, q) ==> AllocPtr(ts, a, len).value <= q
      {
        AllocIsLeast(ts, lo, hi, a, len, q);
      }
      var t := AllocTakes(ts, lo, hi, a, len);
    }
  }

  lemma FirstFitIs(ts: seq<Tile>, align: nat, len: nat, k: nat)
    requires align > 0 && k <= |ts|
    requires forall j :: 0 <= j < k ==> Fit(ts[j], align, len).None?
    requires k < |ts| ==> Fit(ts[k], align, len).Some?
    ensures FirstFit(ts, align, len) == k
  {
    var i := FirstFit(ts, align, len);
    assert i < |ts| ==> Fit(ts[i], align, len).Some?;
    assert forall j :: 0 <= j < i ==> Fit(ts[j], align, len).None?;
  }

  /** `FreeBlock::can_allocate` for the block at `addr`. */
  function CanAllocate(addr: nat, size: nat, align: nat, len: nat): (r: Option<int>)
    requires IsPow2(align) && align >= 8 && addr + META + align <= TOP
    ensures r == Fit(Free(addr, size), align, len)
  {
    AlignUpIsUp(addr + META, align);
    var p: nat := AlignUp(addr + META, align);
    if addr + size >= p + len then Some(p) else None
  }

  /** From `m` to `m'` nothing was written outside the free tiles of `ts`. */
  ghost predicate WritesOnly(m: Memory, m': Memory, ts: seq<Tile>) {
    forall a :: a in m && !FreeByte(ts, a) ==> a in m' && m'[a] == m[a]
  }

  // ---------------------------------------------------------------------------------------
  // Rebuilding the list around one tile
  // ---------------------------------------------------------------------------------------

  /** The list stands at free tile `t` between `pre` and `post`. */
  ghost predicate Site(m: Memory, head: Option<int>, pre: seq<Tile>, t: Tile, post: seq<Tile>, lo: nat, hi: nat,
                       prev: Option<int>, next: Option<int>) {
    && t.Free? && t.WellFormed() && Mapped(m, lo, hi) && prev == LastFree(pre)
    && Chain(pre, lo, t.addr) && Chain(post, t.End(), hi)
    && Seg(m, pre, head, Some(t.addr)) && Block(m, t.addr, t.size, next) && Seg(m, post, next, None)
  }

  /** A free block that fits in the tile lies in mapped memory. */
  lemma InTile(m: Memory, pre: seq<Tile>, t: Tile, post: seq<Tile>, lo: nat, hi: nat, b: nat)
    requires Mapped(m, lo, hi) && Chain(pre, lo, t.addr) && Chain(post, t.End(), hi)
    requires b % 8 == 0 && t.addr <= b
    ensures b + FREE_BLOCK <= t.End() ==> b in m && b + 8 in m && b + 16 in m
  {
    ChainOrdered(pre, lo, t.addr);
    ChainOrdered(post, t.End(), hi);
  }

  lemma AtSite(m: Memory, head: Option<int>, ts: seq<Tile>, k: nat, prev: Option<int>, lo: nat, hi: nat)
    requires k < |ts| && ts[k].Free? && At(m, head, ts, k, prev, Some(ts[k].addr)) && Chain(ts, lo, hi) && Mapped(m, lo, hi)
    ensures ts[k].addr + 8 in m && ts[k].addr + 16 in m
    ensures Site(m, head, ts[..k], ts[k], ts[k + 1..], lo, hi, prev, Next(m, ts[k].addr))
  {
    Here(m, head, ts, k, prev, Some(ts[k].addr));
    assert ts == ts[..k] + [ts[k]] + ts[k + 1..];
    ChainSplit(ts[..k], ts[k], ts[k + 1..], lo, hi);
  }

  /** Nothing but the tile itself and the link leading to it has been written. */
  ghost predicate Touch(m: Memory, m': Memory, prev: Option<int>, t: Tile) {
    forall a :: a in m ==>
      a in m' && (!t.Has(a) && (prev.Some? ==> a != prev.value + 8 && a != prev.value + 16) ==> m'[a] == m[a])
  }

  lemma TouchWrites(m: Memory, m': Memory, pre: seq<Tile>, t: Tile, post: seq<Tile>, lo: nat, hi: nat)
    requires Touch(m, m', LastFree(pre), t) && Chain(pre, lo, t.addr) && t.Free?
    ensures WritesOnly(m, m', pre + [t] + post)
  {
    var ts := pre + [t] + post;
    assert ts[|pre|] == t;
    var prev := LastFree(pre);
    if prev.Some? {
      var j := LastFreeIndex(pre);
      ChainMember(pre, lo, t.addr, j);
      assert ts[j] == pre[j];
      assert FreeByte(ts, prev.value + 8) && FreeByte(ts, prev.value + 16);
    }
    forall a | a in m && !FreeByte(ts, a) ensures a in m' && m'[a] == m[a] {
      assert !(ts[|pre|].Free? && ts[|pre|].Has(a));
    }
  }

  lemma CarvedInv(m: Memory, m': Memory, ts: seq<Tile>, k: nat, p: nat, len: nat, lo: nat, hi: nat)
    requires Inv(ts, lo, hi) && k < |ts| && ts[k].Free? && Room(ts[k], p, len) && Touch(m, m', LastFree(ts[..k]), ts[k])
    ensures Inv(ts[..k] + Carve(ts[k], p, len) + ts[k + 1..], lo, hi)
    ensures WritesOnly(m, m', ts)
  {
    ChainMember(ts, lo, hi, k);
    CarveIsChain(ts[k], p, len);
    assert ts == ts[..k] + [ts[k]] + ts[k + 1..];
    ReplaceTile(ts[..k], ts[k], Carve(ts[k], p, len), ts[k + 1..], lo, hi);
    ChainSplit(ts[..k], ts[k], ts[k + 1..], lo, hi);
    TouchWrites(m, m', ts[..k], ts[k], ts[k + 1..], lo, hi);
  }

  /** Relinking stays below the tile it leads to. */
  lemma RelinkBelow(pre: seq<Tile>, lo: nat, a: nat)
    requires Chain(pre, lo, a)
    ensures LastFree(pre).Some? ==> lo <= LastFree(pre).value && LastFree(pre).value + FREE_BLOCK <= a
  {
    if LastFree(pre).Some? {
      var j := LastFreeIndex(pre);
      ChainMember(pre, lo, a, j);
    }
  }

  /** Rebuild the list with `mid` in place of the tile and `x` as the link leading to it. */
  lemma Rebuild(m: Memory, m': Memory, head: Option<int>, pre: seq<Tile>, t: Tile, mid: seq<Tile>, post: seq<Tile>, lo: nat, hi: nat,
                prev: Option<int>, next: Option<int>, x: Option<int>)
    requires Site(m, head, pre, t, post, lo, hi, prev, next)
    requires Seg(m', mid, x, next)
    requires Touch(RelinkMem(m, prev, x), m', None, t)
    ensures Seg(m', pre + mid + post, if prev.None? then x else head, None) && Touch(m, m', prev, t)
  {
    hide Seg, Chain, LastFree;
    var m1: Memory := RelinkMem(m, prev, x);
    Relink(m, pre, head, Some(t.addr), x, lo, t.addr);
    RelinkBelow(pre, lo, t.addr);
    Splice(m1, m, m', pre, mid, post, lo, t.addr, t.End(), hi, if prev.None? then x else head, x, next);
  }

  /** The same when the tile keeps its address, so that the link leading to it stays. */
  lemma RebuildInPlace(m: Memory, m': Memory, head: Option<int>, pre: seq<Tile>, t: Tile, mid: seq<Tile>, post: seq<Tile>, lo: nat, hi: nat,
                       prev: Option<int>, next: Option<int>)
    requires Site(m, head, pre, t, post, lo, hi, prev, next)
    requires Seg(m', mid, Some(t.addr), next) && Touch(m, m', None, t)
    ensures Seg(m', pre + mid + post, head, None) && Touch(m, m', prev, t)
  {
    Splice(m, m, m', pre, mid, post, lo, t.addr, t.End(), hi, head, Some(t.addr), next);
  }

  /** The request fits in the tile at `p`. */
  ghost predicate Room(t: Tile, p: nat, len: nat) {
    t.addr + META <= p && p + len <= t.End() && p % 8 == 0 && len % 8 == 0 && len >= 8
  }

  // The lists made by the four ways to carve a block.

  lemma CarveWhole(m: Memory, m': Memory, head: Option<int>, pre: seq<Tile>, t: Tile, post: seq<Tile>, lo: nat, hi: nat,
                   prev: Option<int>, next: Option<int>, p: nat, len: nat)
    requires Site(m, head, pre, t, post, lo, hi, prev, next) && Room(t, p, len)
    requires p - META - t.addr < FREE_BLOCK && t.End() - (p + len) < FREE_BLOCK
    requires Meta(m', p, t.addr, t.size) && Touch(RelinkMem(m, prev, next), m', None, t)
    ensures Seg(m', pre + Carve(t, p, len) + post, if prev.None? then next else head, None) && Touch(m, m', prev, t)
  {
    var live := Live(t.addr, t.size, p, len);
    assert Carve(t, p, len) == [live];
    SegSingle(m', live, next, next);
    Rebuild(m, m', head, pre, t, [live], post, lo, hi, prev, next, next);
  }

  lemma CarveLeft(m: Memory, m': Memory, head: Option<int>, pre: seq<Tile>, t: Tile, post: seq<Tile>, lo: nat, hi: nat,
                   prev: Option<int>, next: Option<int>, p: nat, len: nat)
    requires Site(m, head, pre, t, post, lo, hi, prev, next) && Room(t, p, len)
    requires var left := p - META - t.addr; left >= FREE_BLOCK && t.End() - (p + len) < FREE_BLOCK
    requires var left: nat := p - META - t.addr; Block(m', t.addr, left, next) && Meta(m', p, t.addr + left, t.size - left)
    requires Touch(m, m', None, t)
    ensures Seg(m', pre + Carve(t, p, len) + post, head, None) && Touch(m, m', prev, t)
  {
    var left := p - META - t.addr;
    var free, live := Free(t.addr, left), Live(t.addr + left, t.size - left, p, len);
    assert Carve(t, p, len) == [free] + [live];
    SegPair(m', free, live, Some(t.addr), next, next);
    RebuildInPlace(m, m', head, pre, t, [free] + [live], post, lo, hi, prev, next);
  }

  lemma CarveRight(m: Memory, m': Memory, head: Option<int>, pre: seq<Tile>, t: Tile, post: seq<Tile>, lo: nat, hi: nat,
                   prev: Option<int>, next: Option<int>, p: nat, len: nat)
    requires Site(m, head, pre, t, post, lo, hi, prev, next) && Room(t, p, len)
    requires p - META - t.addr < FREE_BLOCK && t.End() - (p + len) >= FREE_BLOCK
    requires Block(m', p + len, t.End() - (p + len), next) && Meta(m', p, t.addr, p + len - t.addr)
    requires Touch(RelinkMem(m, prev, Some(p + len)), m', None, t)
    ensures Seg(m', pre + Carve(t, p, len) + post, if prev.None? then Some(p + len) else head, None) && Touch(m, m', prev, t)
  {
    var r := p + len;
    var live, free := Live(t.addr, r - t.addr, p, len), Free(r, t.End() - r);
    assert Carve(t, p, len) == [live] + [free];
    SegPair(m', live, free, Some(r), Some(r), next);
    Rebuild(m, m', head, pre, t, [live] + [free], post, lo, hi, prev, next, Some(r));
  }

  lemma CarveBoth(m: Memory, m': Memory, head: Option<int>, pre: seq<Tile>, t: Tile, post: seq<Tile>, lo: nat, hi: nat,
                   prev: Option<int>, next: Option<int>, p: nat, len: nat)
    requires Site(m, head, pre, t, post, lo, hi, prev, next) && Room(t, p, len)
    requires p - META - t.addr >= FREE_BLOCK && t.End() - (p + len) >= FREE_BLOCK
    requires var left: nat := p - META - t.addr; Block(m', t.addr, left, Some(p + len)) && Meta(m', p, t.addr + left, META + len)
    requires Block(m', p + len, t.End() - (p + len), next) && Touch(m, m', None, t)
    ensures Seg(m', pre + Carve(t, p, len) + post, head, None) && Touch(m, m', prev, t)
  {
    hide Seg, Chain;
    var left, r := p - META - t.addr, p + len;
    var free1, live, free2 := Free(t.addr, left), Live(t.addr + left, META + len, p, len), Free(r, t.End() - r);
    assert Carve(t, p, len) == [free1] + [live] + [free2];
    SegPair(m', free1, live, Some(t.addr), Some(r), Some(r));
    SegSingle(m', free2, Some(r), next);
    SegJoin(m', [free1] + [live], [free2], Some(t.addr), Some(r), next);
    RebuildInPlace(m, m', head, pre, t, [free1] + [live] + [free2], post, lo, hi, prev, next);
  }

  lemma SegPair(m: Memory, a: Tile, b: Tile, p: Option<int>, x: Option<int>, q: Option<int>)
    requires if a.Free? then p == Some(a.addr) && Block(m, a.addr, a.size, x) else Meta(m, a.ptr, a.addr, a.size) && p == x
    requires if b.Free? then x == Some(b.addr) && Block(m, b.addr, b.size, q) else Meta(m, b.ptr, b.addr, b.size) && x == q
    ensures Seg(m, [a] + [b], p, q)
  {
    SegSingle(m, a, p, x);
    SegSingle(m, b, x, q);
    SegJoin(m, [a], [b], p, x, q);
  }

  // ---------------------------------------------------------------------------------------
  // Linking a released tile back in
  // ---------------------------------------------------------------------------------------

  /** Tile `t` has been turned into an unlinked free block; the list skips it from `pre` to `post` by link `x`. */
  ghost predicate Gap(m: Memory, head: Option<int>, pre: seq<Tile>, t: Tile, post: seq<Tile>, lo: nat, hi: nat, x: Option<int>) {
    && t.Free? && t.WellFormed() && Mapped(m, lo, hi) && Coalesced(pre) && Coalesced(post)
    && Chain(pre, lo, t.addr) && Chain(post, t.End(), hi)
    && Seg(m, pre, head, x) && Seg(m, post, x, None) && Block(m, t.addr, t.size, None)
  }

  /** The link into a run of tiles points at its first free tile. */
  lemma Entry(m: Memory, ts: seq<Tile>, p: Option<int>, q: Option<int>, lo: nat, hi: nat) returns (n: nat)
    requires Seg(m, ts, p, q) && Chain(ts, lo, hi)
    ensures n <= |ts| && (forall j :: 0 <= j < n ==> ts[j].Live?)
    ensures n == |ts| ==> p == q
    ensures n < |ts| ==> ts[n].Free? && p == Some(ts[n].addr) && lo <= ts[n].addr && ts[n].End() <= hi
    ensures n < |ts| ==> (p == Some(lo) <==> n == 0)
    ensures Seg(m, ts[..n], p, p) && Seg(m, ts[n..], p, q)
  {
    n := SkipLive(m, ts, p, q);
    if n < |ts| {
      ChainMember(ts, lo, hi, n);
      if n > 0 { ChainMember(ts, lo, hi, 0); }
    }
  }

  lemma AllLive(ts: seq<Tile>)
    requires forall j :: 0 <= j < |ts| ==> ts[j].Live?
    ensures LastFree(ts) == None
  {
    LastFreeThenLive([], ts);
    assert [] + ts == ts;
  }

  /** No neighbour to merge with: the block is linked between `pre` and `post`. */
  lemma JoinNone(m: Memory, m': Memory, head: Option<int>, pre: seq<Tile>, t: Tile, post: seq<Tile>, lo: nat, hi: nat, x: Option<int>)
    requires Gap(m, head, pre, t, post, lo, hi, x)
    requires (pre == [] || pre[|pre| - 1].Live?) && (post == [] || post[0].Live?)
    requires Block(m', t.addr, t.size, x) && Touch(RelinkMem(m, LastFree(pre), Some(t.addr)), m', None, t)
    ensures Seg(m', Release(pre, t.addr, t.size, post), if LastFree(pre).None? then Some(t.addr) else head, None)
    ensures Touch(m, m', LastFree(pre), t)
  {
    hide Seg, Chain, LastFree;
    var b: Option<int> := Some(t.addr);
    Relink(m, pre, head, x, b, lo, t.addr);
    RelinkBelow(pre, lo, t.addr);
    SegSingle(m', t, b, x);
    assert Release(pre, t.addr, t.size, post) == pre + [t] + post;
    Splice(RelinkMem(m, LastFree(pre), b), m, m', pre, [t], post, lo, t.addr, t.End(), hi,
           if LastFree(pre).None? then b else head, b, x);
  }

  /** What follows the free tile at the front of a run. */
  lemma Behind(m: Memory, post: seq<Tile>, x: Option<int>, a: nat, hi: nat)
    requires Seg(m, post, x, None) && Chain(post, a, hi) && post != [] && post[0].Free?
    ensures var r := post[0].addr; r in m && r + 8 in m && r + 16 in m && Seg(m, post[1..], Next(m, r), None)
    ensures post[0].addr == a && post[0].WellFormed() && x == Some(a) && Chain(post[1..], post[0].End(), hi)
  {
  }

  /** The block swallows its right neighbour and takes its place in the list. */
  lemma JoinRight(m: Memory, m': Memory, head: Option<int>, pre: seq<Tile>, t: Tile, post: seq<Tile>, lo: nat, hi: nat, x: Option<int>)
    requires Gap(m, head, pre, t, post, lo, hi, x)
    requires (pre == [] || pre[|pre| - 1].Live?) && post != [] && post[0].Free?
    requires var r := post[0].addr; r + 8 in m && r + 16 in m && Block(m', t.addr, t.size + post[0].size, Next(m, r))
    requires Touch(RelinkMem(m, LastFree(pre), Some(t.addr)), m', None, t)
    ensures Seg(m', Release(pre, t.addr, t.size, post), if LastFree(pre).None? then Some(t.addr) else head, None)
    ensures Touch(m, m', LastFree(pre), t)
  {
    hide Seg, Chain, LastFree;
    Behind(m, post, x, t.End(), hi);
    var b: Option<int> := Some(t.addr);
    var r, f := post[0], Free(t.addr, t.size + post[0].size);
    Relink(m, pre, head, x, b, lo, t.addr);
    RelinkBelow(pre, lo, t.addr);
    SegSingle(m', f, b, Next(m, r.addr));
    assert Release(pre, t.addr, t.size, post) == pre + [f] + post[1..];
    Splice(RelinkMem(m, LastFree(pre), b), m, m', pre, [f], post[1..], lo, t.addr, r.End(), hi,
           if LastFree(pre).None? then b else head, b, Next(m, r.addr));
  }

  /** A run whose last tile is free, up to that tile, and the words of that tile. */
  lemma LastBlock(m: Memory, head: Option<int>, pre: seq<Tile>, a: nat, lo: nat, x: Option<int>) returns (y: Option<int>)
    requires Seg(m, pre, head, x) && Chain(pre, lo, a) && pre != [] && pre[|pre| - 1].Free?
    ensures var l := pre[|pre| - 1]; l.End() == a && l.WellFormed() && l.size >= FREE_BLOCK && Block(m, l.addr, l.size, x)
    ensures var n := |pre| - 1; y == Some(pre[n].addr) && Seg(m, pre[..n], head, y) && Chain(pre[..n], lo, pre[n].addr)
  {
    var b, l := pre[..|pre| - 1], pre[|pre| - 1];
    assert pre == b + [l] && pre == b + [l] + [];
    ChainSplit(b, l, [], lo, a);
    y := SegSplit(m, b, [l], head, x);
    SegSingle(m, l, y, x);
  }

  /** The left neighbour `l` grows over the block, and over the right neighbour if that is free too. */
  lemma JoinLeft(m: Memory, m': Memory, head: Option<int>, pre: seq<Tile>, t: Tile, post: seq<Tile>, lo: nat, hi: nat, x: Option<int>)
    requires Gap(m, head, pre, t, post, lo, hi, x)
    requires pre != [] && pre[|pre| - 1].Free? && (post == [] || post[0].Live?)
    requires var l := pre[|pre| - 1]; Block(m', l.addr, l.size + t.size, x) && Touch(m, m', None, l)
    ensures Seg(m', Release(pre, t.addr, t.size, post), head, None)
  {
    hide Seg, Chain;
    var a, l := pre[..|pre| - 1], pre[|pre| - 1];
    var f := Free(l.addr, l.size + t.size);
    var y := LastBlock(m, head, pre, t.addr, lo, x);
    SegSingle(m', f, y, x);
    assert Release(pre, t.addr, t.size, post) == a + [f] + post;
    Splice(m, m, m', a, [f], post, lo, l.addr, t.End(), hi, head, y, x);
  }

  lemma TouchAgrees(m: Memory, m': Memory, t: Tile, lo: nat, hi: nat)
    requires Touch(m, m', None, t) && (hi <= t.addr || t.End() <= lo)
    ensures Agree(m, m', lo, hi)
  {
  }

  lemma ReleaseBoth(pre: seq<Tile>, t: Tile, post: seq<Tile>)
    requires pre != [] && pre[|pre| - 1].Free? && post != [] && post[0].Free?
    ensures var l := pre[|pre| - 1];
      Release(pre, t.addr, t.size, post) == pre[..|pre| - 1] + [Free(l.addr, l.size + t.size + post[0].size)] + post[1..]
  {
  }

  lemma JoinBoth(m: Memory, m': Memory, head: Option<int>, pre: seq<Tile>, t: Tile, post: seq<Tile>, lo: nat, hi: nat, x: Option<int>)
    requires Gap(m, head, pre, t, post, lo, hi, x)
    requires pre != [] && pre[|pre| - 1].Free? && post != [] && post[0].Free?
    requires var r := post[0].addr; r + 8 in m && r + 16 in m
    requires var l := pre[|pre| - 1];
      Block(m', l.addr, l.size + t.size + post[0].size, Next(m, post[0].addr)) && Touch(m, m', None, l)
    ensures Seg(m', Release(pre, t.addr, t.size, post), head, None)
  {
    hide Seg, Chain, Release, Touch;
    var a, l, r := pre[..|pre| - 1], pre[|pre| - 1], post[0];
    var f := Free(l.addr, l.size + t.size + r.size);
    Behind(m, post, x, t.End(), hi);
    var y := LastBlock(m, head, pre, t.addr, lo, x);
    SegSingle(m', f, y, Next(m, r.addr));
    ReleaseBoth(pre, t, post);
    TouchAgrees(m, m', l, lo, l.addr);
    TouchAgrees(m, m', l, r.End(), hi);
    Splice(m, m, m', a, [f], post[1..], lo, l.addr, r.End(), hi, head, y, Next(m, r.addr));
  }

  /** From the free tile `pre[j]` the link leads to the next free tile of `pre`, or out of it. */
  lemma NextFree(m: Memory, pre: seq<Tile>, j: nat, x: Option<int>, lo: nat, a: nat) returns (n: nat)
    requires Chain(pre, lo, a) && j < |pre| && pre[j].Free? && Seg(m, pre[j..], Some(pre[j].addr), x)
    ensures var b := pre[j].addr; b in m && b + 8 in m && b + 16 in m && m[b] == pre[j].size
    ensures j < n <= |pre|
    ensures n < |pre| ==> pre[n].Free? && Next(m, pre[j].addr) == Some(pre[n].addr) && pre[n].addr < a && Seg(m, pre[n..], Some(pre[n].addr), x)
    ensures n == |pre| ==> Next(m, pre[j].addr) == x && LastFree(pre) == Some(pre[j].addr)
    ensures n < |pre| ==> var b := pre[n].addr; b in m && b + 8 in m && b + 16 in m && m[b] == pre[n].size
  {
    var nx := Next(m, pre[j].addr);
    assert pre[j..][1..] == pre[j + 1..];
    var k := SkipLive(m, pre[j + 1..], nx, x);
    n := j + 1 + k;
    assert pre[j + 1..][k..] == pre[n..];
    if n < |pre| {
      ChainMember(pre, lo, a, n);
    } else {
      assert pre == pre[..j + 1] + pre[j + 1..];
      LastFreeThenLive(pre[..j + 1], pre[j + 1..]);
    }
  }

  /** The metadata read back by `dealloc`, whatever the client wrote into its payloads. */
  lemma MetaOf(m: Memory, head: Option<int>, pre: seq<Tile>, t: Tile, post: seq<Tile>) returns (x: Option<int>)
    requires t.Live? && Seg(m, pre + [t] + post, head, None)
    ensures Meta(m, t.ptr, t.addr, t.size) && Seg(m, pre, head, x) && Seg(m, post, x, None)
  {
    var y := SegSplit(m, pre + [t], post, head, None);
    x := SegSplit(m, pre, [t], head, y);
    SegSingle(m, t, x, y);
  }

  lemma OpenGap(m: Memory, head: Option<int>, ts: seq<Tile>, i: nat, lo: nat, hi: nat) returns (x: Option<int>)
    requires i < |ts| && ts[i].Live? && Inv(ts, lo, hi) && Mapped(m, lo, hi) && Seg(m, ts, head, None)
    ensures ts[i].WellFormed() && lo <= ts[i].addr && ts[i].End() <= hi && Meta(m, ts[i].ptr, ts[i].addr, ts[i].size)
    ensures var b := ts[i].addr;
      Gap(SetNext(m[b := ts[i].size], b, None), head, ts[..i], Free(b, ts[i].size), ts[i + 1..], lo, hi, x)
  {
    hide Seg, Chain, Coalesced;
    var pre, t, post := ts[..i], ts[i], ts[i + 1..];
    assert ts == pre + [t] + post;
    ChainMember(ts, lo, hi, i);
    ChainSplit(pre, t, post, lo, hi);
    CoalescedConcat(pre + [t], post);
    CoalescedConcat(pre, [t]);
    x := MetaOf(m, head, pre, t, post);
    InTile(m, pre, t, post, lo, hi, t.addr);
    var m': Memory := SetNext(m[t.addr := t.size], t.addr, None);
    SegFrame(m, m', pre, head, x, lo, t.addr);
    SegFrame(m, m', post, x, None, t.End(), hi);
  }

  lemma LastIsLive(pre: seq<Tile>, j: nat, lo: nat, a: nat)
    requires Chain(pre, lo, a) && j < |pre| - 1 && LastFree(pre) == Some(pre[j].addr)
    ensures pre[|pre| - 1].Live?
  {
    ChainDisjoint(pre, lo, a, j, |pre| - 1);
  }

  lemma ReleasedWrites(m: Memory, m': Memory, pre: seq<Tile>, t: Tile, post: seq<Tile>, lo: nat, hi: nat)
    requires Chain(pre, lo, t.addr) && Chain(post, t.End(), hi) && Touch(m, m', LastFree(pre), t)
    ensures WritesOnly(m, m', Release(pre, t.addr, t.size, post))
  {
    forall a | a in m && !FreeByte(Release(pre, t.addr, t.size, post), a) ensures a in m' && m'[a] == m[a] {
      if t.Has(a) {
        ReleaseReturns(pre, t, post, lo, hi, a);
      } else if LastFree(pre).Some? && (a == LastFree(pre).value + 8 || a == LastFree(pre).value + 16) {
        var j := LastFreeIndex(pre);
        ChainMember(pre, lo, t.addr, j);
        assert pre[j].Has(a);
        ReleaseReturns(pre, t, post, lo, hi, a);
      }
    }
  }

  lemma GrownWrites(m: Memory, m': Memory, pre: seq<Tile>, t: Tile, post: seq<Tile>, lo: nat, hi: nat)
    requires Chain(pre, lo, t.addr) && Chain(post, t.End(), hi)
    requires pre != [] && pre[|pre| - 1].Free? && Touch(m, m', None, pre[|pre| - 1])
    ensures WritesOnly(m, m', Release(pre, t.addr, t.size, post))
  {
    forall a | a in m && !FreeByte(Release(pre, t.addr, t.size, post), a) ensures a in m' && m'[a] == m[a] {
      if pre[|pre| - 1].Has(a) { ReleaseReturns(pre, t, post, lo, hi, a); }
    }
  }

  /** Writing the header of the released tile (giving `m1`) before inserting it (giving `m2`) stays inside the tile. */
  lemma HeaderWrites(m: Memory, m1: Memory, m2: Memory, ts: seq<Tile>, i: nat, lo: nat, hi: nat)
    requires Chain(ts, lo, hi) && i < |ts|
    requires m1 == SetNext(m[ts[i].addr := ts[i].size], ts[i].addr, None)
    requires WritesOnly(m1, m2, Release(ts[..i], ts[i].addr, ts[i].size, ts[i + 1..]))
    ensures WritesOnly(m, m2, Release(ts[..i], ts[i].addr, ts[i].size, ts[i + 1..]))
  {
    var pre, t, post := ts[..i], ts[i], ts[i + 1..];
    assert ts == pre + [t] + post;
    ChainSplit(pre, t, post, lo, hi);
    forall a | a in m && !FreeByte(Release(pre, t.addr, t.size, post), a) ensures a in m2 && m2[a] == m[a] {
      if t.Has(a) { ReleaseReturns(pre, t, post, lo, hi, a); }
    }
  }

  // ---------------------------------------------------------------------------------------
  // The allocator
  // ---------------------------------------------------------------------------------------

  datatype MemoryStats = MemoryStats(total: nat, used: nat, free: nat, freeBlocks: nat, largestFreeBlock: nat)

  function SaturatingSub(a: nat, b: nat): nat { if a >= b then a - b else 0 }

  function CountFree(ts: seq<Tile>): nat {
    if ts == [] then 0 else (if ts[0].Free? then 1 else 0) + CountFree(ts[1..])
  }

  function Largest(ts: seq<Tile>): nat {
    if ts == [] then 0
    else var r := Largest(ts[1..]); if ts[0].Free? && ts[0].size > r then ts[0].size else r
  }

  ghost function FreeSet(ts: seq<Tile>, lo: int, hi: int): set<int> { set a | lo <= a < hi && FreeByte(ts, a) }

  ghost function BytesOf(t: Tile): set<int> { set a | t.addr <= a < t.End() && t.Has(a) }

  lemma {:induction false} BytesOfTile(t: Tile)
    ensures |BytesOf(t)| == t.size
    decreases t.size
  {
    if t.size > 0 {
      var u := Free(t.addr, t.size - 1);
      BytesOfTile(u);
      var last := t.End() - 1;
      assert last !in BytesOf(u);
      assert BytesOf(t) == BytesOf(u) + {last};
    }
  }

  /** The bytes counted as free are the bytes that are free. */
  lemma {:induction false} SumFreeCounts(ts: seq<Tile>, lo: nat, hi: nat)
    requires Inv(ts, lo, hi)
    ensures SumFree(ts) == |FreeSet(ts, lo, hi)|
    decreases |ts|
  {
    if ts == [] {
      assert FreeSet(ts, lo, hi) == {};
    } else {
      hide FreeSet, Chain, FreeByte;
      var e := ts[0].End();
      RestIs(ts, lo, hi);
      FreeSetSplit(ts, lo, hi);
      SumFreeCounts(ts[1..], e, hi);
      BytesOfTile(ts[0]);
    }
  }

  lemma FreeSetSplit(ts: seq<Tile>, lo: nat, hi: nat)
    requires Chain(ts, lo, hi) && ts != []
    ensures var first, rest := (if ts[0].Free? then BytesOf(ts[0]) else {}), FreeSet(ts[1..], ts[0].End(), hi);
      FreeSet(ts, lo, hi) == first + rest && first !! rest
  {
    ChainMember(ts, lo, hi, 0);
    assert ts == [ts[0]] + ts[1..];
    hide FreeByte;
    forall a ensures FreeByte(ts, a) <==> (ts[0].Free? && ts[0].Has(a)) || FreeByte(ts[1..], a)
      ensures FreeByte(ts[1..], a) ==> ts[0].End() <= a
    {
      FreeByteConcat([ts[0]], ts[1..], a);
      FreeByteOf(ts[0], a);
      if FreeByte(ts[1..], a) { FreeByteInChain(ts[1..], ts[0].End(), hi, a); }
    }
  }

  /** The number of free blocks, and the size of the largest. */
  lemma {:induction false} CountsMean(ts: seq<Tile>)
    ensures CountFree(ts) == |set i | 0 <= i < |ts| && ts[i].Free?|
    ensures forall i :: 0 <= i < |ts| && ts[i].Free? ==> ts[i].size <= Largest(ts)
    ensures Largest(ts) == 0 || exists i :: 0 <= i < |ts| && ts[i].Free? && ts[i].size == Largest(ts)
  {
    if ts != [] {
      var n := |ts| - 1;
      CountsMean(ts[..n]);
      assert ts[..n + 1] == ts;
      StatsSnoc(ts, n);
      var a, b := set i | 0 <= i < |ts[..n]| && ts[..n][i].Free?, set i | 0 <= i < |ts| && ts[i].Free?;
      assert b == a + if ts[n].Free? then {n} else {};
      if Largest(ts) != 0 && Largest(ts) == Largest(ts[..n]) {
        var i :| 0 <= i < n && ts[..n][i].Free? && ts[..n][i].size == Largest(ts[..n]);
        assert ts[i].Free?;
      }
    }
  }

  class FreeListAllocator {
    var head: Option<int>
    var totalSize: nat
    var mem: Memory             // the physical memory the raw pointers refer to

    ghost var lo: nat           // the managed region
    ghost var hi: nat
    ghost var tiles: seq<Tile>  // its current partition

    ghost predicate Valid()
      reads this
    {
      && Inv(tiles, lo, hi) && lo < hi && totalSize == hi - lo
      && Mapped(mem, lo, hi) && Seg(mem, tiles, head, None)
    }

    constructor (memory: Memory)
      ensures head == None && totalSize == 0 && mem == memory
    {
      head, totalSize, mem := None, 0, memory;
      lo, hi, tiles := 0, 0, [];
    }

    method Init(start: nat, end: nat)
      requires 48 <= end - start && end + MIN_ALIGN <= TOP
      requires Mapped(mem, start, end)
      modifies this
      ensures Valid() && start <= lo < start + 8 && hi == lo + (end - start) - 24 <= end
      ensures tiles == [Free(lo, hi - lo)]
      ensures forall a :: a in old(mem) && !(start <= a < end) ==> a in mem && mem[a] == old(mem)[a]
    {
      hide Seg, Chain, Up, AlignUp;
      var heapSize := end - start;
      AlignUpPtr(start);
      var b: nat := AlignUp(start, MIN_ALIGN);
      mem := mem[b := heapSize - FREE_BLOCK];
      mem := SetNext(mem, b, None);
      totalSize := mem[b];
      head := Some(b);
      lo, hi, tiles := b, b + totalSize, [Free(b, totalSize)];
      InitialTile(mem, b, totalSize);
    }

    // -------------------------------------------------------------------------------------
    // Alloc
    // -------------------------------------------------------------------------------------

    // The four ways to carve block `t`; each method is the writes of one branch.

    /** Write the `size` and `next` fields of the block at `b`. */
    method SetBlock(b: nat, size: nat, next: Option<int>)
      requires b + 8 in mem && b + 16 in mem
      modifies this`mem
      ensures Block(mem, b, size, next) && Touch(old(mem), mem, None, Free(b, FREE_BLOCK))
    {
      mem := SetNext(mem[b := size], b, next);
    }

    /** Nothing is left over on either side: unlink the block. */
    method TakeWhole(prev: Option<int>, next: Option<int>, p: nat, len: nat, t: Tile)
      requires Room(t, p, len)
      modifies this`head, this`mem
      ensures Meta(mem, p, t.addr, t.size) && Touch(RelinkMem(old(mem), prev, next), mem, None, t)
      ensures head == (if prev.None? then next else old(head))
    {
      if prev.Some? { mem := SetNext(mem, prev.value, next); } else { head := next; }
      mem := mem[p - 16 := t.addr][p - 8 := t.size];
    }

    /** The front of the block stays free: shrink it in place. */
    method TakeKeepingLeft(next: Option<int>, p: nat, len: nat, t: Tile)
      requires Room(t, p, len) && t.addr + 8 in mem && t.addr + 16 in mem && p - META - t.addr >= FREE_BLOCK
      modifies this`mem
      ensures var left: nat := p - META - t.addr; Block(mem, t.addr, left, next) && Meta(mem, p, t.addr + left, t.size - left)
      ensures Touch(old(mem), mem, None, t)
    {
      var left := p - META - t.addr;
      mem := SetNext(mem[t.addr := left], t.addr, next);
      mem := mem[p - 16 := t.addr + left][p - 8 := t.size - left];
    }

    /** The back of the block stays free: it becomes a block of its own, linked in its place. */
    method TakeKeepingRight(prev: Option<int>, next: Option<int>, p: nat, len: nat, t: Tile)
      requires Room(t, p, len) && p + len + 8 in mem && p + len + 16 in mem && t.End() - (p + len) >= FREE_BLOCK
      requires prev.Some? ==> prev.value + FREE_BLOCK <= t.addr
      modifies this`head, this`mem
      ensures Block(mem, p + len, t.End() - (p + len), next) && Meta(mem, p, t.addr, p + len - t.addr)
      ensures Touch(RelinkMem(old(mem), prev, Some(p + len)), mem, None, t)
      ensures head == (if prev.None? then Some(p + len) else old(head))
    {
      var left := p - META - t.addr;
      var right := p + len;
      WriteBlock(prev, Free(right, t.End() - right), t.End() - right, next);
      mem := mem[p - 16 := t.addr][p - 8 := left + META + len];
    }

    /** Both sides stay free: the block is split in two. */
    method TakeMiddle(next: Option<int>, p: nat, len: nat, t: Tile)
      requires Room(t, p, len) && t.addr + 8 in mem && t.addr + 16 in mem && p - META - t.addr >= FREE_BLOCK
      requires p + len + 8 in mem && p + len + 16 in mem && t.End() - (p + len) >= FREE_BLOCK
      modifies this`mem
      ensures var left: nat := p - META - t.addr; Block(mem, t.addr, left, Some(p + len)) && Meta(mem, p, t.addr + left, META + len)
      ensures Block(mem, p + len, t.End() - (p + len), next)
      ensures Touch(old(mem), mem, None, t)
    {
      var left, right := p - META - t.addr, p + len;
      var bytesRight := t.End() - right;
      SetBlock(t.addr, left, Some(right));
      SetBlock(right, bytesRight, next);
      mem := mem[p - 16 := t.addr + left][p - 8 := t.size - left - bytesRight];
    }

    /** Carve `[p, p + len)` out of the free block `t`. */
    method CarveBlock(prev: Option<int>, next: Option<int>, p: nat, len: nat, t: Tile, ghost pre: seq<Tile>, ghost post: seq<Tile>)
      requires Site(mem, head, pre, t, post, lo, hi, prev, next) && Room(t, p, len)
      modifies this`head, this`mem
      ensures Seg(mem, pre + Carve(t, p, len) + post, head, None) && Touch(old(mem), mem, prev, t)
    {
      hide Seg, Carve;
      ghost var m, h := mem, head;
      RelinkBelow(pre, lo, t.addr);
      InTile(mem, pre, t, post, lo, hi, p + len);
      if p - META - t.addr < FREE_BLOCK {
        if t.End() - (p + len) < FREE_BLOCK {
          TakeWhole(prev, next, p, len, t);
          CarveWhole(m, mem, h, pre, t, post, lo, hi, prev, next, p, len);
        } else {
          TakeKeepingRight(prev, next, p, len, t);
          CarveRight(m, mem, h, pre, t, post, lo, hi, prev, next, p, len);
        }
      } else if t.End() - (p + len) < FREE_BLOCK {
        TakeKeepingLeft(next, p, len, t);
        CarveLeft(m, mem, h, pre, t, post, lo, hi, prev, next, p, len);
      } else {
        TakeMiddle(next, p, len, t);
        CarveBoth(m, mem, h, pre, t, post, lo, hi, prev, next, p, len);
      }
    }

    method TakeBlock(prev: Option<int>, block: nat, p: nat, len: nat, ghost k: nat)
      requires Valid() && At(mem, head, tiles, k, prev, Some(block)) && k < |tiles| && Room(tiles[k], p, len)
      modifies this
      ensures Valid() && lo == old(lo) && hi == old(hi)
      ensures tiles == old(tiles)[..k] + Carve(old(tiles[k]), p, len) + old(tiles)[k + 1..]
      ensures WritesOnly(old(mem), mem, old(tiles))
    {
      Here(mem, head, tiles, k, prev, Some(block));
      AtSite(mem, head, tiles, k, prev, lo, hi);
      CarveBlock(prev, Next(mem, block), p, len, Free(block, mem[block]), tiles[..k], tiles[k + 1..]);
      CarvedInv(old(mem), mem, tiles, k, p, len, lo, hi);
      tiles := tiles[..k] + Carve(tiles[k], p, len) + tiles[k + 1..];
    }

    /** Walk the list to the first block that can hold the request. */
    method FindFit(align: nat, len: nat) returns (prev: Option<int>, current: Option<int>, p: nat, ghost k: nat)
      requires Valid() && Request(align, len) && IsPow2(align) && hi + META + align <= TOP
      ensures At(mem, head, tiles, k, prev, current) && FirstFit(tiles, align, len) == k
      ensures current.Some? ==> k < |tiles| && Fit(tiles[k], align, len) == Some(p)
      ensures current.None? ==> k == |tiles|
    {
      prev, current, p := None, head, 0;
      k := Settle(mem, head, tiles, 0, None, head) by { assert tiles[..0] == [] && tiles[0..] == tiles; }
      while current.Some?
        invariant At(mem, head, tiles, k, prev, current)
        invariant forall j :: 0 <= j < k ==> Fit(tiles[j], align, len).None?
        decreases |tiles| - k
      {
        Here(mem, head, tiles, k, prev, current);
        ChainMember(tiles, lo, hi, k);
        var fit := CanAllocate(current.value, mem[current.value], align, len);
        if fit.Some? {
          FirstFitIs(tiles, align, len, k);
          p := fit.value;
          return;
        }
        ghost var k' := Advance(mem, head, tiles, k, prev, current);
        prev, current, k := current, Next(mem, current.value), k';
      }
      AtEnd(mem, head, tiles, k, prev);
      FirstFitIs(tiles, align, len, |tiles|);
    }

    /** First fit.  Only memory that was free is written. */
    method Alloc(align: nat, size: nat) returns (result: Option<int>)
      requires Valid() && IsPow2(align) && size > 0
      requires hi + META + size + 8 + align <= TOP
      modifies this
      ensures Valid() && lo == old(lo) && hi == old(hi)
      ensures result == AllocPtr(old(tiles), RequestAlign(align), Up(size, 8))
      ensures tiles == AllocTiles(old(tiles), RequestAlign(align), Up(size, 8))
      ensures align > 0 && Granted(old(tiles), tiles, align, size, result)
      ensures WritesOnly(old(mem), mem, old(tiles))
    {
      hide Granted;
      RequestIsWellFormed(align, size);
      RequestGranted(tiles, lo, hi, align, size);
      var a := if align >= MIN_ALIGN then align else MIN_ALIGN;
      var len: nat := AlignUp(size, 8);
      var prev, current, p, k := FindFit(a, len);
      if current.None? {
        return None;
      }
      FitFacts(tiles[k], a, len);
      TakeBlock(prev, current.value, p, len, k);
      return Some(p);
    }

    // -------------------------------------------------------------------------------------
    // Dealloc
    // -------------------------------------------------------------------------------------

    /** Link the new block `t` behind `prev` (or as the head), swallowing the block at `next` if it touches. */
    method LinkBlock(prev: Option<int>, next: Option<int>, t: Tile, ghost pre: seq<Tile>, ghost post: seq<Tile>)
      requires Gap(mem, head, pre, t, post, lo, hi, next) && prev == LastFree(pre) && (pre == [] || pre[|pre| - 1].Live?)
      modifies this`head, this`mem
      ensures Seg(mem, Release(pre, t.addr, t.size, post), head, None) && Touch(old(mem), mem, prev, t)
    {
      ghost var n := Entry(mem, post, next, None, t.End(), hi);
      RelinkBelow(pre, lo, t.addr);
      if next == Some(t.End()) {
        InTile(mem, pre + [t], post[0], post[1..], lo, hi, post[0].addr) by { ChainSplit(pre, t, [], lo, t.End()); assert pre + [t] + [] == pre + [t]; }
        var r := next.value;
        var size, after := mem[r], Next(mem, r);
        WriteBlock(prev, t, t.size + size, after);
        JoinRight(old(mem), mem, old(head), pre, t, post, lo, hi, next);
      } else {
        WriteBlock(prev, t, t.size, next);
        JoinNone(old(mem), mem, old(head), pre, t, post, lo, hi, next);
      }
    }

    /** Give the block at `t.addr` its size and link, and make `prev` (or the head) point to it. */
    method WriteBlock(prev: Option<int>, t: Tile, size: nat, next: Option<int>)
      requires t.size >= FREE_BLOCK && t.addr + 8 in mem && t.addr + 16 in mem
      requires prev.Some? ==> prev.value + FREE_BLOCK <= t.addr
      modifies this`head, this`mem
      ensures Block(mem, t.addr, size, next)
      ensures Touch(RelinkMem(old(mem), prev, Some(t.addr)), mem, None, t)
      ensures head == if prev.None? then Some(t.addr) else old(head)
    {
      SetBlock(t.addr, size, next);
      if prev.Some? { mem := SetNext(mem, prev.value, Some(t.addr)); } else { head := Some(t.addr); }
    }

    /** Let the left neighbour `l` grow over the new block `t`, and over the block at `next` if that touches. */
    method GrowLeft(l: Tile, next: Option<int>, t: Tile, ghost pre: seq<Tile>, ghost post: seq<Tile>)
      requires Gap(mem, head, pre, t, post, lo, hi, next) && pre != [] && l == pre[|pre| - 1] && l.Free?
      modifies this`mem
      ensures Seg(mem, Release(pre, t.addr, t.size, post), head, None) && Touch(old(mem), mem, None, l)
    {
      hide Seg, Release;
      ghost var n := Entry(mem, post, next, None, t.End(), hi);
      ghost var y := LastBlock(mem, head, pre, t.addr, lo, next);
      if next == Some(t.End()) {
        InTile(mem, pre + [t], post[0], post[1..], lo, hi, post[0].addr) by { ChainSplit(pre, t, [], lo, t.End()); assert pre + [t] + [] == pre + [t]; }
        var r := next.value;
        mem := SetNext(mem[l.addr := l.size + t.size + mem[r]], l.addr, Next(mem, r));
        JoinBoth(old(mem), mem, head, pre, t, post, lo, hi, next);
      } else {
        mem := mem[l.addr := l.size + t.size];
        JoinLeft(old(mem), mem, head, pre, t, post, lo, hi, next);
      }
    }

    /** Walk to the last free block below `t`. */
    method FindPrev(t: Tile, ghost pre: seq<Tile>, ghost post: seq<Tile>, ghost x: Option<int>) returns (prev: int, ghost j: nat)
      requires Gap(mem, head, pre, t, post, lo, hi, x) && head.Some? && head.value <= t.addr
      ensures j < |pre| && pre[j].Free? && pre[j].addr == prev && LastFree(pre) == Some(prev)
      ensures prev in mem && prev + 8 in mem && prev + 16 in mem
      ensures mem[prev] == pre[j].size && Next(mem, prev) == x
    {
      ghost var e := Entry(mem, post, x, None, t.End(), hi);
      prev := head.value;
      j := Entry(mem, pre, head, x, lo, t.addr);
      while Next(mem, prev).Some? && Next(mem, prev).value < t.addr
        invariant j < |pre| && pre[j].Free? && pre[j].addr == prev
        invariant Seg(mem, pre[j..], Some(prev), x)
        invariant prev in mem && prev + 8 in mem && prev + 16 in mem && mem[prev] == pre[j].size
        decreases |pre| - j
      {
        ghost var n := NextFree(mem, pre, j, x, lo, t.addr);
        prev := Next(mem, prev).value;
        j := n;
      }
      ghost var n := NextFree(mem, pre, j, x, lo, t.addr);
    }

    /** Insert the unlinked block `t` into the list. */
    method InsertBlock(t: Tile, ghost pre: seq<Tile>, ghost post: seq<Tile>, ghost x: Option<int>)
      requires Gap(mem, head, pre, t, post, lo, hi, x)
      modifies this`head, this`mem
      ensures Seg(mem, Release(pre, t.addr, t.size, post), head, None)
      ensures WritesOnly(old(mem), mem, Release(pre, t.addr, t.size, post))
      ensures forall a :: a in old(mem) ==> a in mem
    {
      ghost var n := Entry(mem, pre, head, x, lo, t.addr);
      ghost var e := Entry(mem, post, x, None, t.End(), hi);
      if head.None? {
        AllLive(pre);
        head := Some(t.addr);
        JoinNone(mem, mem, None, pre, t, post, lo, hi, x);
      } else if t.addr < head.value {
        AllLive(pre);
        LinkBlock(None, head, t, pre, post);
        ReleasedWrites(old(mem), mem, pre, t, post, lo, hi);
      } else {
        var prev, j := FindPrev(t, pre, post, x);
        LastTile(pre, lo, t.addr, j);
        var l, next := Free(prev, mem[prev]), Next(mem, prev);
        if l.End() == t.addr {
          GrowLeft(l, next, t, pre, post);
          GrownWrites(old(mem), mem, pre, t, post, lo, hi);
        } else {
          LastIsLive(pre, j, lo, t.addr);
          LinkBlock(Some(prev), next, t, pre, post);
          ReleasedWrites(old(mem), mem, pre, t, post, lo, hi);
        }
      }
    }

    /** Read the metadata of the allocation at `ptr` and turn its extent into an unlinked block. */
    method OpenBlock(ptr: nat, ghost i: nat) returns (t: Tile, ghost x: Option<int>)
      requires Valid() && LiveAt(tiles, i, ptr) && hi + MIN_ALIGN <= TOP
      modifies this`mem
      ensures t == Free(tiles[i].addr, tiles[i].size) && mem == SetNext(old(mem)[t.addr := t.size], t.addr, None)
      ensures Gap(mem, head, tiles[..i], t, tiles[i + 1..], lo, hi, x)
    {
      x := OpenGap(mem, head, tiles, i, lo, hi);
      AlignUpPtr(tiles[i].addr);
      var size, start := mem[ptr - 8], mem[ptr - 16];
      var newBlock: nat := AlignUp(start, MIN_ALIGN);
      mem := SetNext(mem[newBlock := size], newBlock, None);
      t := Free(newBlock, size);
    }

    method ReleaseAt(ptr: nat, ghost i: nat)
      requires Valid() && LiveAt(tiles, i, ptr) && hi + MIN_ALIGN <= TOP
      modifies this`head, this`mem
      ensures var ns := Release(tiles[..i], tiles[i].addr, tiles[i].size, tiles[i + 1..]); Seg(mem, ns, head, None) && WritesOnly(old(mem), mem, ns)
      ensures forall a :: a in old(mem) ==> a in mem
    {
      var t, x := OpenBlock(ptr, i);
      ghost var m1 := mem;
      InsertBlock(t, tiles[..i], tiles[i + 1..], x);
      HeaderWrites(old(mem), m1, mem, tiles, i, lo, hi);
    }

    /** Return the allocation at `ptr` to the free list, merging it with its free neighbours. */
    method Dealloc(ptr: nat)
      requires Valid() && IsLive(tiles, ptr) && hi + MIN_ALIGN <= TOP
      modifies this
      ensures Valid() && lo == old(lo) && hi == old(hi)
      ensures tiles == DeallocTiles(old(tiles), ptr) && Takes(tiles, old(tiles), old(tiles)[LiveIndex(old(tiles), ptr)])
      ensures WritesOnly(old(mem), mem, tiles)
    {
      hide Takes, Release, FreeByte, Seg, Chain;
      DeallocKeepsInv(tiles, lo, hi, ptr);
      DeallocReturns(tiles, lo, hi, ptr);
      ReleaseAt(ptr, LiveIndex(tiles, ptr));
      tiles := DeallocTiles(tiles, ptr);
    }

    /** The owner of a live allocation writes a word of its payload. */
    method ClientWrite(ghost i: nat, a: nat, v: int)
      requires Valid() && i < |tiles| && tiles[i].Live? && a % 8 == 0 && tiles[i].ptr <= a < tiles[i].ptr + tiles[i].len
      modifies this`mem
      ensures Valid() && mem == old(mem)[a := v]
    {
      ghost var pre, t, post := tiles[..i], tiles[i], tiles[i + 1..];
      mem := mem[a := v];
      assert tiles == pre + [t] + post;
      PayloadWrite(old(mem), mem, head, pre, t, post, lo, hi, a);
    }

    // -------------------------------------------------------------------------------------
    // Accounting
    // -------------------------------------------------------------------------------------

    method FreeBytes() returns (total: nat)
      requires Valid()
      ensures total == SumFree(tiles)
    {
      var stats := Stats();
      return stats.free;
    }

    method Used() returns (used: nat)
      requires Valid()
      ensures used == SumLive(tiles)
    {
      SumsTile(tiles, lo, hi);
      var free := FreeBytes();
      used := SaturatingSub(totalSize, free);
    }

    /** One walk over the list computes all statistics; `used` is exactly what is live. */
    method Stats() returns (s: MemoryStats)
      requires Valid()
      ensures s == MemoryStats(hi - lo, SumLive(tiles), SumFree(tiles), CountFree(tiles), Largest(tiles))
      ensures s.free == |FreeSet(tiles, lo, hi)| && s.used == hi - lo - |FreeSet(tiles, lo, hi)|
    {
      SumFreeCounts(tiles, lo, hi);
      var free, freeBlocks, largest := 0, 0, 0;
      var current := head;
      ghost var k := Settle(mem, head, tiles, 0, None, head) by { assert tiles[..0] == [] && tiles[0..] == tiles; }
      ghost var prev: Option<int> := None;
      StatsLive(tiles, 0, k);
      assert tiles[..0] == [];
      while current.Some?
        invariant At(mem, head, tiles, k, prev, current)
        invariant free == SumFree(tiles[..k]) && freeBlocks == CountFree(tiles[..k]) && largest == Largest(tiles[..k])
        decreases |tiles| - k
      {
        Here(mem, head, tiles, k, prev, current);
        var block := current.value;
        var size := mem[block];
        free, freeBlocks := free + size, freeBlocks + 1;
        if size > largest { largest := size; }
        ghost var k' := Advance(mem, head, tiles, k, prev, current);
        StatsStep(tiles, k, k');
        prev, current, k := current, Next(mem, block), k';
      }
      AtEnd(mem, head, tiles, k, prev);
      assert tiles[..|tiles|] == tiles;
      SumsTile(tiles, lo, hi);
      s := MemoryStats(totalSize, SaturatingSub(totalSize, free), free, freeBlocks, largest);
    }
  }

  /** Sums over a prefix grow only at free tiles. */
  lemma StatsSnoc(ts: seq<Tile>, k: nat)
    requires k < |ts|
    ensures var f := ts[k].Free?; var n := if f then ts[k].size else 0;
      && SumFree(ts[..k + 1]) == SumFree(ts[..k]) + n
      && CountFree(ts[..k + 1]) == CountFree(ts[..k]) + (if f then 1 else 0)
      && Largest(ts[..k + 1]) == if n > Largest(ts[..k]) then n else Largest(ts[..k])
    decreases k
  {
    if k > 0 {
      StatsSnoc(ts[1..], k - 1);
      assert ts[..k + 1][1..] == ts[1..][..k] && ts[..k][1..] == ts[1..][..k - 1];
    } else {
      assert ts[..1] == [ts[0]] && ts[..0] == [] && [ts[0]][1..] == [];
    }
  }

  lemma {:induction false} StatsLive(ts: seq<Tile>, k: nat, k': nat)
    requires k <= k' <= |ts| && forall j :: k <= j < k' ==> ts[j].Live?
    ensures SumFree(ts[..k']) == SumFree(ts[..k]) && CountFree(ts[..k']) == CountFree(ts[..k]) && Largest(ts[..k']) == Largest(ts[..k])
    decreases k' - k
  {
    if k < k' { StatsLive(ts, k, k' - 1); StatsSnoc(ts, k' - 1); }
  }

  lemma StatsStep(ts: seq<Tile>, k: nat, k': nat)
    requires k < k' <= |ts| && ts[k].Free? && forall j :: k < j < k' ==> ts[j].Live?
    ensures SumFree(ts[..k']) == SumFree(ts[..k]) + ts[k].size
    ensures CountFree(ts[..k']) == CountFree(ts[..k]) + 1
    ensures Largest(ts[..k']) == if ts[k].size > Largest(ts[..k]) then ts[k].size else Largest(ts[..k])
  {
    StatsSnoc(ts, k);
    StatsLive(ts, k + 1, k');
  }
}
