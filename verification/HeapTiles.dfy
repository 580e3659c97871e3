/** The heap managed by the free-list allocator, seen as a sequence of contiguous tiles.

    A tile is a free block or the extent of one live allocation.  `alloc` carves one free
    tile, `dealloc` releases one live tile and merges it with its free neighbours.  This
    module proves what every run of these two operations keeps; module `FreeList` shows that
    the pointer-manipulating code performs exactly them. */
module HeapTiles {
  import Bits
  import opened Options

  const META: nat := 16        // size_of::<AllocationMetaData>()
  const FREE_BLOCK: nat := 24  // size_of::<FreeBlock>()
  const MIN_ALIGN: nat := 8

  /** `[addr, addr + size)` is the tile; a live one hands out `[ptr, ptr + len)`. */
  datatype Tile =
    | Free(addr: nat, size: nat)
    | Live(addr: nat, size: nat, ptr: nat, len: nat)
  {
    function End(): nat { addr + size }

    ghost predicate WellFormed() {
      && addr % 8 == 0 && size >= FREE_BLOCK
      && (Live? ==>
            && ptr % 8 == 0 && len % 8 == 0 && len >= 8
            && addr + META <= ptr && ptr + len <= End())
    }

    predicate Has(a: int) { addr <= a < End() }
  }

  // ---------------------------------------------------------------------------------------
  // The invariant
  // ---------------------------------------------------------------------------------------

  /** The tiles are laid end to end from `lo` to `hi`. */
  ghost predicate Chain(ts: seq<Tile>, lo: nat, hi: nat) {
    if ts == [] then lo == hi
    else ts[0].addr == lo && ts[0].WellFormed() && Chain(ts[1..], ts[0].End(), hi)
  }

  /** No two free tiles touch. */
  ghost predicate Coalesced(ts: seq<Tile>) {
    forall i :: 0 < i < |ts| ==> ts[i - 1].Live? || ts[i].Live?
  }

  ghost predicate Inv(ts: seq<Tile>, lo: nat, hi: nat) {
    Chain(ts, lo, hi) && Coalesced(ts)
  }

  function Total(ts: seq<Tile>): nat {
    if ts == [] then 0 else ts[0].size + Total(ts[1..])
  }

  lemma {:induction false} ChainConcat(a: seq<Tile>, b: seq<Tile>, lo: nat, hi: nat)
    ensures Chain(a + b, lo, hi) <==> Chain(a, lo, lo + Total(a)) && Chain(b, lo + Total(a), hi)
    decreases |a|
  {
    if a == [] {
      assert a + b == b;
    } else {
      assert (a + b)[1..] == a[1..] + b;
      if a[0].addr == lo { ChainConcat(a[1..], b, a[0].End(), hi); }
    }
  }

  lemma CoalescedConcat(a: seq<Tile>, b: seq<Tile>)
    ensures Coalesced(a + b)
       <==> Coalesced(a) && Coalesced(b) && (a == [] || b == [] || a[|a| - 1].Live? || b[0].Live?)
  {
    var s := a + b;
    assert forall i :: 0 <= i < |a| ==> s[i] == a[i];
    assert forall i :: 0 <= i < |b| ==> s[|a| + i] == b[i];
    if Coalesced(s) {
      forall i | 0 < i < |b| ensures b[i - 1].Live? || b[i].Live? {
        assert s[|a| + i - 1].Live? || s[|a| + i].Live?;
      }
      if a != [] && b != [] { assert s[|a| - 1].Live? || s[|a|].Live?; }
    }
  }

  /** Splitting a chain at one tile. */
  lemma ChainSplit(pre: seq<Tile>, t: Tile, post: seq<Tile>, lo: nat, hi: nat)
    ensures Chain(pre + [t] + post, lo, hi)
       <==> t.WellFormed() && Chain(pre, lo, t.addr) && Chain(post, t.End(), hi)
  {
    ChainConcat(pre, [t] + post, lo, hi);
    assert pre + [t] + post == pre + ([t] + post);
    assert ([t] + post)[1..] == post;
    if Chain(pre, lo, t.addr) { ChainTotal(pre, lo, t.addr); }
  }

  lemma {:induction false} ChainTotal(ts: seq<Tile>, lo: nat, hi: nat)
    requires Chain(ts, lo, hi)
    ensures hi == lo + Total(ts)
    decreases |ts|
  {
    if ts != [] { ChainTotal(ts[1..], ts[0].End(), hi); }
  }

  lemma {:induction false} ChainMember(ts: seq<Tile>, lo: nat, hi: nat, i: nat)
    requires Chain(ts, lo, hi) && i < |ts|
    ensures ts[i].WellFormed() && lo <= ts[i].addr && ts[i].End() <= hi
    ensures i > 0 ==> ts[0].End() <= ts[i].addr
    decreases |ts|
  {
    ChainOrdered(ts, lo, hi);
    if i > 0 { ChainMember(ts[1..], ts[0].End(), hi, i - 1); }
  }

  lemma {:induction false} ChainOrdered(ts: seq<Tile>, lo: nat, hi: nat)
    requires Chain(ts, lo, hi)
    ensures lo <= hi && (ts != [] ==> lo + ts[0].size <= hi)
    decreases |ts|
  {
    if ts != [] { ChainOrdered(ts[1..], ts[0].End(), hi); }
  }

  /** Tiles are strictly address-ascending and pairwise disjoint. */
  lemma {:induction false} ChainDisjoint(ts: seq<Tile>, lo: nat, hi: nat, i: nat, j: nat)
    requires Chain(ts, lo, hi) && i < j < |ts|
    ensures ts[i].addr < ts[j].addr && ts[i].End() <= ts[j].addr
    decreases |ts|
  {
    if i == 0 { ChainMember(ts, lo, hi, j); } else { ChainDisjoint(ts[1..], ts[0].End(), hi, i - 1, j - 1); }
  }

  /** Every address of the heap lies in some tile (in exactly one, by `ChainDisjoint`). */
  lemma {:induction false} TileAt(ts: seq<Tile>, lo: nat, hi: nat, a: nat) returns (i: nat)
    requires Chain(ts, lo, hi) && lo <= a < hi
    ensures i < |ts| && ts[i].Has(a)
    decreases |ts|
  {
    if a < ts[0].End() { i := 0; } else { i := TileAt(ts[1..], ts[0].End(), hi, a); i := i + 1; }
  }

  // ---------------------------------------------------------------------------------------
  // Alloc
  // ---------------------------------------------------------------------------------------

  /** The least multiple of `align` at or above `a`. */
  function Up(a: nat, align: nat): nat
    requires align > 0
  {
    (a + align - 1) - (a + align - 1) % align
  }

  lemma UpIsLeast(a: nat, align: nat)
    requires align > 0
    ensures Up(a, align) % align == 0 && a <= Up(a, align) < a + align
    ensures forall p: nat :: p % align == 0 && a <= p ==> Up(a, align) <= p
  {
    var x := a + align - 1;
    assert x - x % align == x / align * align;
    Bits.DivModUnique(x - x % align, align, x / align, 0);
    forall p: nat | p % align == 0 && a <= p
      ensures Up(a, align) <= p
    {
      if p < Up(a, align) { MultiplesApart(p, Up(a, align), align); }
    }
  }

  lemma MultiplesApart(p: nat, u: nat, m: nat)
    requires m > 0 && p % m == 0 && u % m == 0 && p < u
    ensures p + m <= u
  {
    var i, j := p / m, u / m;
    assert p == i * m && u == j * m;
    assert (j - i) * m == u - p;
    assert j - i <= 0 ==> (j - i) * m <= 0;
    assert j - i >= 1 ==> (j - i) * m >= m;
  }

  /** Where an allocation of `len` bytes goes in free tile `t`, if it fits. */
  function Fit(t: Tile, align: nat, len: nat): Option<nat>
    requires align > 0
  {
    var p := Up(t.addr + META, align);
    if t.Free? && t.End() >= p + len then Some(p) else None
  }

  /** The tiles replacing free tile `t` when `[p, p + len)` is handed out. */
  function Carve(t: Tile, p: nat, len: nat): seq<Tile>
    requires t.addr + META <= p && p + len <= t.End()
  {
    var left := p - META - t.addr;
    var right := t.End() - (p + len);
    var start := if left >= FREE_BLOCK then t.addr + left else t.addr;
    var end := if right >= FREE_BLOCK then p + len else t.End();
    (if left >= FREE_BLOCK then [Free(t.addr, left)] else [])
    + [Live(start, end - start, p, len)]
    + (if right >= FREE_BLOCK then [Free(p + len, right)] else [])
  }

  /** The index of the first tile in address order that fits, or `|ts|`. */
  function FirstFit(ts: seq<Tile>, align: nat, len: nat): (i: nat)
    requires align > 0
    ensures i <= |ts|
    ensures i < |ts| ==> Fit(ts[i], align, len).Some?
    ensures forall j :: 0 <= j < i ==> Fit(ts[j], align, len).None?
  {
    if ts == [] || Fit(ts[0], align, len).Some? then 0 else 1 + FirstFit(ts[1..], align, len)
  }

  function AllocPtr(ts: seq<Tile>, align: nat, len: nat): Option<nat>
    requires align > 0
  {
    var i := FirstFit(ts, align, len);
    if i == |ts| then None else Fit(ts[i], align, len)
  }

  function AllocTiles(ts: seq<Tile>, align: nat, len: nat): seq<Tile>
    requires align > 0
  {
    var i := FirstFit(ts, align, len);
    if i == |ts| then ts
    else
      UpIsLeast(ts[i].addr + META, align);
      ts[..i] + Carve(ts[i], Fit(ts[i], align, len).value, len) + ts[i + 1..]
  }

  lemma CarveIsChain(t: Tile, p: nat, len: nat)
    requires t.Free? && t.WellFormed() && p % 8 == 0 && len % 8 == 0 && len >= 8
    requires t.addr + META <= p && p + len <= t.End()
    ensures Chain(Carve(t, p, len), t.addr, t.End())
    ensures Coalesced(Carve(t, p, len))
  {
    var c := Carve(t, p, len);
    var k := if p - META - t.addr >= FREE_BLOCK then 1 else 0;
    assert c == c[..k] + [c[k]] + c[k + 1..];
    ChainSplit(c[..k], c[k], c[k + 1..], t.addr, t.End());
  }

  /** Replacing one free tile by a chain over the same extent keeps the invariant. */
  lemma ReplaceTile(pre: seq<Tile>, t: Tile, mid: seq<Tile>, post: seq<Tile>, lo: nat, hi: nat)
    requires Inv(pre + [t] + post, lo, hi) && t.Free?
    requires mid != [] && Chain(mid, t.addr, t.End()) && Coalesced(mid)
    ensures Inv(pre + mid + post, lo, hi)
  {
    ChainSplit(pre, t, post, lo, hi);
    ChainTotal(pre, lo, t.addr);
    ChainTotal(mid, t.addr, t.End());
    ChainConcat(mid, post, t.addr, hi);
    ChainConcat(pre, mid + post, lo, hi);
    assert pre + mid + post == pre + (mid + post);
    CoalescedConcat(pre + [t], post);
    CoalescedConcat(pre, [t]);
    CoalescedConcat(mid, post);
    CoalescedConcat(pre, mid + post);
  }

  /** The request `alloc` works on: `align.max(8)` and the size rounded up to 8. */
  ghost predicate Request(align: nat, len: nat) {
    align >= 8 && align % 8 == 0 && len >= 8 && len % 8 == 0
  }

  lemma ModMultiple(p: nat, align: nat)
    requires align >= 8 && align % 8 == 0 && p % align == 0
    ensures p % 8 == 0
  {
    var q, m := p / align, align / 8;
    assert p == q * (8 * m) == 8 * (q * m);
  }

  lemma FitFacts(t: Tile, align: nat, len: nat)
    requires Request(align, len) && Fit(t, align, len).Some?
    ensures var p := Fit(t, align, len).value;
      t.Free? && p % align == 0 && p % 8 == 0 && t.addr + META <= p && p + len <= t.End()
  {
    UpIsLeast(t.addr + META, align);
    ModMultiple(Fit(t, align, len).value, align);
  }

  lemma AllocKeepsInv(ts: seq<Tile>, lo: nat, hi: nat, align: nat, len: nat)
    requires Inv(ts, lo, hi) && Request(align, len)
    ensures Inv(AllocTiles(ts, align, len), lo, hi)
  {
    var i := FirstFit(ts, align, len);
    if i < |ts| {
      var t := ts[i];
      var p := Fit(t, align, len).value;
      FitFacts(t, align, len);
      ChainMember(ts, lo, hi, i);
      CarveIsChain(t, p, len);
      assert ts == ts[..i] + [t] + ts[i + 1..];
      ReplaceTile(ts[..i], t, Carve(t, p, len), ts[i + 1..], lo, hi);
    }
  }

  // ---------------------------------------------------------------------------------------
  // First fit finds the least possible address, and fails only when there is none
  // ---------------------------------------------------------------------------------------

  ghost predicate FreeByte(ts: seq<Tile>, a: int) {
    exists i :: 0 <= i < |ts| && ts[i].Free? && ts[i].Has(a)
  }

  /** `p` could be handed out: it is aligned and `[p - 16, p + len)` is free memory throughout. */
  ghost predicate Allocatable(ts: seq<Tile>, align: nat, len: nat, p: nat)
    requires align > 0
  {
    p % align == 0 && p >= META && forall a :: p - META <= a < p + len ==> FreeByte(ts, a)
  }

  /** Because free tiles never touch, a free interval lies inside a single free tile. */
  lemma {:induction false} FreeIntervalInOneTile(ts: seq<Tile>, lo: nat, hi: nat, x: nat, y: nat) returns (i: nat)
    requires Inv(ts, lo, hi) && x < y
    requires forall a :: x <= a < y ==> FreeByte(ts, a)
    ensures i < |ts| && ts[i].Free? && ts[i].addr <= x && y <= ts[i].End()
  {
    assert FreeByte(ts, x);
    i :| 0 <= i < |ts| && ts[i].Free? && ts[i].Has(x);
    if ts[i].End() < y {
      var e := ts[i].End();
      assert FreeByte(ts, e);
      var j: nat :| 0 <= j < |ts| && ts[j].Free? && ts[j].Has(e);
      if j < i {
        ChainDisjoint(ts, lo, hi, j, i);
      } else if j > i {
        assert ts[i + 1].Live?;
        ChainMember(ts, lo, hi, i + 1);
        ChainDisjoint(ts, lo, hi, i, i + 1);
        ChainDisjoint(ts, lo, hi, i + 1, j);
      }
    }
  }

  /** The result of `alloc` is allocatable and no smaller address is. */
  lemma AllocIsLeast(ts: seq<Tile>, lo: nat, hi: nat, align: nat, len: nat, q: nat)
    requires Inv(ts, lo, hi) && Request(align, len) && AllocPtr(ts, align, len).Some?
    ensures var p := AllocPtr(ts, align, len).value;
      Allocatable(ts, align, len, p) && (Allocatable(ts, align, len, q) ==> p <= q)
  {
    var i := FirstFit(ts, align, len);
    var p := Fit(ts[i], align, len).value;
    FitFacts(ts[i], align, len);
    forall a | p - META <= a < p + len ensures FreeByte(ts, a) { assert ts[i].Has(a); }
    if Allocatable(ts, align, len, q) {
      var j := FreeIntervalInOneTile(ts, lo, hi, q - META, q + len);
      UpIsLeast(ts[j].addr + META, align);
      if j > i { ChainDisjoint(ts, lo, hi, i, j); }
    }
  }

  /** `alloc` returns null exactly when no address in the whole heap would do. */
  lemma AllocFailsIffImpossible(ts: seq<Tile>, lo: nat, hi: nat, align: nat, len: nat)
    requires Inv(ts, lo, hi) && Request(align, len)
    ensures AllocPtr(ts, align, len).None? <==> !exists q: nat :: Allocatable(ts, align, len, q)
  {
    if AllocPtr(ts, align, len).Some? {
      AllocIsLeast(ts, lo, hi, align, len, 0);
    } else if q: nat :| Allocatable(ts, align, len, q) {
      var j := FreeIntervalInOneTile(ts, lo, hi, q - META, q + len);
      UpIsLeast(ts[j].addr + META, align);
    }
  }

  /** `alloc` works on the size rounded up to 8; with heap bounds that are multiples of 8, every tile also ends on
      one, so what fits unrounded fits rounded. */
  lemma RoundingCostsNothing(ts: seq<Tile>, lo: nat, hi: nat, align: nat, size: nat, q: nat)
    requires Inv(ts, lo, hi) && align >= 8 && align % 8 == 0 && size > 0 && (hi - lo) % 8 == 0
    ensures Allocatable(ts, align, size, q) <==> Allocatable(ts, align, Up(size, 8), q)
  {
    UpIsLeast(size, 8);
    hide Up, Inv, FreeByte;
    if Allocatable(ts, align, size, q) {
      var i := FreeIntervalInOneTile(ts, lo, hi, q - META, q + size);
      EndsAligned(ts, lo, hi, i);
      ModMultiple(q, align);
      RoundedFits(q, size, ts[i].End());
      forall a | q - META <= a < q + Up(size, 8) ensures FreeByte(ts, a) { IsFreeByte(ts, i, a); }
    }
  }

  lemma IsFreeByte(ts: seq<Tile>, i: int, a: int)
    requires 0 <= i < |ts| && ts[i].Free? && ts[i].Has(a)
    ensures FreeByte(ts, a)
  {
  }

  lemma EndsAligned(ts: seq<Tile>, lo: nat, hi: nat, i: nat)
    requires Inv(ts, lo, hi) && i < |ts| && (hi - lo) % 8 == 0
    ensures ts[i].End() % 8 == 0
  {
    ChainMember(ts, lo, hi, 0);
    TileEnd(ts, lo, hi, i);
    if i + 1 < |ts| { ChainMember(ts, lo, hi, i + 1); }
  }

  lemma RoundedFits(q: nat, size: nat, end: nat)
    requires q % 8 == 0 && end % 8 == 0 && q + size <= end
    ensures q + Up(size, 8) <= end
  {
  }

  lemma {:induction false} TileEnd(ts: seq<Tile>, lo: nat, hi: nat, i: nat)
    requires Chain(ts, lo, hi) && i < |ts|
    ensures ts[i].End() == (if i + 1 < |ts| then ts[i + 1].addr else hi) && ts[0].addr == lo
    decreases |ts|
  {
    if i > 0 { TileEnd(ts[1..], ts[0].End(), hi, i - 1); }
  }

  /** First fit for the size as requested: null exactly when no address would do, else the least. */
  lemma UnroundedRequest(ts: seq<Tile>, lo: nat, hi: nat, align: nat, size: nat)
    requires Inv(ts, lo, hi) && align >= 8 && align % 8 == 0 && size > 0 && (hi - lo) % 8 == 0
    ensures var r := AllocPtr(ts, align, Up(size, 8));
      && (r.None? <==> !exists q: nat :: Allocatable(ts, align, size, q))
      && (r.Some? ==> Allocatable(ts, align, size, r.value) && forall q: nat :: Allocatable(ts, align, size, q) ==> r.value <= q)
  {
    var len := Up(size, 8);
    UpIsLeast(size, 8);
    forall q: nat ensures Allocatable(ts, align, size, q) <==> Allocatable(ts, align, len, q) {
      RoundingCostsNothing(ts, lo, hi, align, size, q);
    }
    AllocFailsIffImpossible(ts, lo, hi, align, len);
    if AllocPtr(ts, align, len).Some? {
      forall q: nat ensures Allocatable(ts, align, len, AllocPtr(ts, align, len).value)
        ensures Allocatable(ts, align, len, q) ==> AllocPtr(ts, align, len).value <= q
      {
        AllocIsLeast(ts, lo, hi, align, len, q);
      }
    }
  }

  /** Some request fails although its bytes, unrounded, are free. */
  ghost predicate TurnsAway(ts: seq<Tile>, size: nat, q: nat) {
    size > 0 && AllocPtr(ts, 8, Up(size, 8)).None? && Allocatable(ts, 8, size, q)
  }

  /** A fresh heap turns away requests that would fit unrounded exactly when its size is not a multiple of 8. */
  lemma FreshHeapTurnsAwayIff(lo: nat, n: nat)
    requires lo % 8 == 0 && n >= FREE_BLOCK
    ensures (exists size: nat, q: nat :: TurnsAway([Free(lo, n)], size, q)) <==> n % 8 != 0
  {
    var ts := [Free(lo, n)];
    assert ts[1..] == [] && Inv(ts, lo, lo + n);
    if n % 8 != 0 {
      var size, q := n - META, lo + META;
      forall a | q - META <= a < q + size ensures FreeByte(ts, a) { assert ts[0].Has(a); }
      assert Fit(ts[0], 8, Up(size, 8)).None?;
      assert TurnsAway(ts, size, q);
    } else if size: nat, q: nat :| TurnsAway(ts, size, q) {
      UnroundedRequest(ts, lo, lo + n, 8, size);
    }
  }

  // ---------------------------------------------------------------------------------------
  // Dealloc
  // ---------------------------------------------------------------------------------------

  ghost predicate LiveAt(ts: seq<Tile>, i: int, ptr: nat) {
    0 <= i < |ts| && ts[i].Live? && ts[i].ptr == ptr
  }

  ghost predicate IsLive(ts: seq<Tile>, ptr: nat) {
    exists i :: LiveAt(ts, i, ptr)
  }

  lemma LiveUnique(ts: seq<Tile>, lo: nat, hi: nat, i: nat, j: nat, ptr: nat)
    requires Chain(ts, lo, hi) && LiveAt(ts, i, ptr) && LiveAt(ts, j, ptr)
    ensures i == j
  {
    ChainMember(ts, lo, hi, i);
    ChainMember(ts, lo, hi, j);
    if i < j { ChainDisjoint(ts, lo, hi, i, j); }
    if j < i { ChainDisjoint(ts, lo, hi, j, i); }
  }

  /** The position of the tile that handed out `ptr`. */
  function LiveIndex(ts: seq<Tile>, ptr: nat): (i: nat)
    requires IsLive(ts, ptr)
    ensures LiveAt(ts, i, ptr)
  {
    if ts[0].Live? && ts[0].ptr == ptr then 0
    else
      assert IsLive(ts[1..], ptr) by {
        var i :| LiveAt(ts, i, ptr);
        assert LiveAt(ts[1..], i - 1, ptr);
      }
      1 + LiveIndex(ts[1..], ptr)
  }

  /** Free the `size` bytes at `addr` between `pre` and `post`, merging it with free neighbours. */
  function Release(pre: seq<Tile>, addr: nat, size: nat, post: seq<Tile>): seq<Tile> {
    var mergeLeft := pre != [] && pre[|pre| - 1].Free?;
    var mergeRight := post != [] && post[0].Free?;
    var left := if mergeLeft then pre[|pre| - 1].size else 0;
    var right := if mergeRight then post[0].size else 0;
    (if mergeLeft then pre[..|pre| - 1] else pre)
    + [Free(if mergeLeft then pre[|pre| - 1].addr else addr, left + size + right)]
    + (if mergeRight then post[1..] else post)
  }

  function DeallocTiles(ts: seq<Tile>, ptr: nat): seq<Tile>
    requires IsLive(ts, ptr)
  {
    var i := LiveIndex(ts, ptr);
    Release(ts[..i], ts[i].addr, ts[i].size, ts[i + 1..])
  }

  /** Before a free tile lies a live one or none. */
  lemma WithoutLast(ts: seq<Tile>, lo: nat, hi: nat)
    requires Inv(ts, lo, hi) && ts != [] && ts[|ts| - 1].Free?
    ensures var n, l := |ts| - 1, ts[|ts| - 1];
      l.WellFormed() && l.End() == hi && Inv(ts[..n], lo, l.addr) && (n > 0 ==> ts[n - 1].Live?)
  {
    var front, l := ts[..|ts| - 1], ts[|ts| - 1];
    assert ts == front + [l] && ts == front + [l] + [];
    ChainSplit(front, l, [], lo, hi);
    CoalescedConcat(front, [l]);
  }

  /** After a free tile lies a live one or none. */
  lemma WithoutFirst(ts: seq<Tile>, lo: nat, hi: nat)
    requires Inv(ts, lo, hi) && ts != [] && ts[0].Free?
    ensures ts[0].WellFormed() && ts[0].addr == lo && Inv(ts[1..], ts[0].End(), hi) && (|ts| > 1 ==> ts[1].Live?)
  {
    assert ts == [ts[0]] + ts[1..];
    CoalescedConcat([ts[0]], ts[1..]);
  }

  lemma SingleCoalesced(t: Tile)
    ensures Coalesced([t])
  {
  }

  lemma ReleaseKeepsInv(pre: seq<Tile>, t: Tile, post: seq<Tile>, lo: nat, hi: nat)
    requires Inv(pre + [t] + post, lo, hi)
    ensures Inv(Release(pre, t.addr, t.size, post), lo, hi)
  {
    hide Chain, Coalesced;
    ChainSplit(pre, t, post, lo, hi);
    CoalescedConcat(pre + [t], post);
    CoalescedConcat(pre, [t]);
    var mergeLeft := pre != [] && pre[|pre| - 1].Free?;
    var mergeRight := post != [] && post[0].Free?;
    var pre' := if mergeLeft then pre[..|pre| - 1] else pre;
    var post' := if mergeRight then post[1..] else post;
    if mergeLeft { WithoutLast(pre, lo, t.addr); }
    if mergeRight { WithoutFirst(post, t.End(), hi); }
    var m := Release(pre, t.addr, t.size, post)[|pre'|];
    SingleCoalesced(m);
    ChainSplit(pre', m, post', lo, hi);
    CoalescedConcat(pre', [m]);
    CoalescedConcat(pre' + [m], post');
  }

  lemma DeallocKeepsInv(ts: seq<Tile>, lo: nat, hi: nat, ptr: nat)
    requires Inv(ts, lo, hi) && IsLive(ts, ptr)
    ensures Inv(DeallocTiles(ts, ptr), lo, hi)
  {
    var i := LiveIndex(ts, ptr);
    assert ts == ts[..i] + [ts[i]] + ts[i + 1..];
    ReleaseKeepsInv(ts[..i], ts[i], ts[i + 1..], lo, hi);
  }

  // ---------------------------------------------------------------------------------------
  // Dealloc undoes alloc
  // ---------------------------------------------------------------------------------------

  lemma ReleaseUndoesCarve(pre: seq<Tile>, t: Tile, post: seq<Tile>, p: nat, len: nat)
    requires t.Free? && t.addr + META <= p && p + len <= t.End()
    requires Coalesced(pre + [t] + post)
    ensures var c := Carve(t, p, len);
      var k := if p - META - t.addr >= FREE_BLOCK then 1 else 0;
      Release(pre + c[..k], c[k].addr, c[k].size, c[k + 1..] + post) == pre + [t] + post
  {
    var ts := pre + [t] + post;
    var c := Carve(t, p, len);
    var k := if p - META - t.addr >= FREE_BLOCK then 1 else 0;
    assert ts[|pre|] == t;
    assert |pre| > 0 ==> pre[|pre| - 1] == ts[|pre| - 1] && pre[|pre| - 1].Live?;
    assert |post| > 0 ==> post[0] == ts[|pre| + 1] && post[0].Live?;
    assert k == 0 ==> pre + c[..k] == pre;
    assert k == 1 ==> (pre + c[..k])[..|pre|] == pre;
    assert k + 1 == |c| ==> c[k + 1..] + post == post;
    assert k + 1 < |c| ==> (c[k + 1..] + post)[1..] == post;
  }

  /** Freeing what `alloc` just returned restores every tile, in all four split cases. */
  lemma DeallocUndoesAlloc(ts: seq<Tile>, lo: nat, hi: nat, align: nat, len: nat)
    requires Inv(ts, lo, hi) && Request(align, len) && AllocPtr(ts, align, len).Some?
    ensures var p := AllocPtr(ts, align, len).value;
      var ns := AllocTiles(ts, align, len);
      IsLive(ns, p) && DeallocTiles(ns, p) == ts
  {
    var i := FirstFit(ts, align, len);
    var t := ts[i];
    var p := Fit(t, align, len).value;
    FitFacts(t, align, len);
    AllocKeepsInv(ts, lo, hi, align, len);
    assert ts == ts[..i] + [t] + ts[i + 1..];
    DeallocUndoesCarve(ts[..i], t, ts[i + 1..], lo, hi, p, len);
  }

  lemma DeallocUndoesCarve(pre: seq<Tile>, t: Tile, post: seq<Tile>, lo: nat, hi: nat, p: nat, len: nat)
    requires t.Free? && t.addr + META <= p && p + len <= t.End()
    requires Coalesced(pre + [t] + post) && Chain(pre + Carve(t, p, len) + post, lo, hi)
    ensures var ns := pre + Carve(t, p, len) + post;
      IsLive(ns, p) && DeallocTiles(ns, p) == pre + [t] + post
  {
    hide Chain, Coalesced, Release;
    var c := Carve(t, p, len);
    var k := if p - META - t.addr >= FREE_BLOCK then 1 else 0;
    var ns := pre + c + post;
    var i := |pre| + k;
    assert ns[i] == c[k];
    assert LiveAt(ns, i, p);
    LiveUnique(ns, lo, hi, LiveIndex(ns, p), i, p);
    assert ns[..i] == pre + c[..k] && ns[i + 1..] == c[k + 1..] + post;
    ReleaseUndoesCarve(pre, t, post, p, len);
  }

  // ---------------------------------------------------------------------------------------
  // What alloc takes and dealloc returns
  // ---------------------------------------------------------------------------------------

  lemma FreeByteConcat(a: seq<Tile>, b: seq<Tile>, x: int)
    ensures FreeByte(a + b, x) <==> FreeByte(a, x) || FreeByte(b, x)
  {
    if FreeByte(a, x) {
      var i :| 0 <= i < |a| && a[i].Free? && a[i].Has(x);
      assert (a + b)[i] == a[i];
    }
    if FreeByte(b, x) {
      var i :| 0 <= i < |b| && b[i].Free? && b[i].Has(x);
      assert (a + b)[|a| + i] == b[i];
    }
  }

  lemma FreeByteAround(pre: seq<Tile>, mid: seq<Tile>, post: seq<Tile>, x: int)
    ensures FreeByte(pre + mid + post, x) <==> FreeByte(pre, x) || FreeByte(mid, x) || FreeByte(post, x)
  {
    FreeByteConcat(pre + mid, post, x);
    FreeByteConcat(pre, mid, x);
  }

  lemma FreeByteOf(t: Tile, x: int)
    ensures FreeByte([t], x) <==> t.Free? && t.Has(x)
  {
    assert [t][0] == t;
  }

  lemma FreeByteInChain(ts: seq<Tile>, lo: nat, hi: nat, x: int)
    requires Chain(ts, lo, hi) && FreeByte(ts, x)
    ensures lo <= x < hi
  {
    var i :| 0 <= i < |ts| && ts[i].Free? && ts[i].Has(x);
    ChainMember(ts, lo, hi, i);
  }

  /** The tile of an allocation: 16 bytes of header, the payload, and fewer than 24 bytes more on either side. */
  ghost predicate Snug(t: Tile, p: nat, len: nat) {
    t.Live? && t.ptr == p && t.len == len && t.addr <= p - 16 < t.addr + 24 && p + len <= t.End() < p + len + 24
  }

  /** From `ts` to `ns` just the free bytes of `t` went to the live tile `t`. */
  ghost predicate Takes(ts: seq<Tile>, ns: seq<Tile>, t: Tile) {
    && (forall a :: FreeByte(ns, a) <==> FreeByte(ts, a) && !t.Has(a)) && (forall a :: t.Has(a) ==> FreeByte(ts, a))
    && (forall u: Tile :: u.Live? ==> (u in ns <==> u in ts || u == t))
  }

  lemma CarveFree(t: Tile, p: nat, len: nat, x: int)
    requires t.Free? && t.addr + META <= p && p + len <= t.End()
    ensures var c := Carve(t, p, len); var k := if p - META - t.addr >= FREE_BLOCK then 1 else 0;
      && k < |c| && Snug(c[k], p, len) && t.addr <= c[k].addr && c[k].End() <= t.End()
      && (FreeByte(c, x) <==> t.Has(x) && !c[k].Has(x)) && forall u: Tile :: u.Live? ==> (u in c <==> u == c[k])
  {
    var c := Carve(t, p, len);
    var left, right := p - META - t.addr, t.End() - (p + len);
    var l := if left >= FREE_BLOCK then [Free(t.addr, left)] else [];
    var r := if right >= FREE_BLOCK then [Free(p + len, right)] else [];
    var k := |l|;
    assert c == l + [c[k]] + r;
    FreeByteAround(l, [c[k]], r, x);
    FreeByteOf(c[k], x);
    FreeByteOf(Free(t.addr, left), x);
    FreeByteOf(Free(p + len, right), x);
  }

  /** `alloc` takes header, payload and what is too small to be a block; nothing else changes hands. */
  lemma AllocTakes(ts: seq<Tile>, lo: nat, hi: nat, align: nat, len: nat) returns (t: Tile)
    requires Inv(ts, lo, hi) && Request(align, len) && AllocPtr(ts, align, len).Some?
    ensures Snug(t, AllocPtr(ts, align, len).value, len) && Takes(ts, AllocTiles(ts, align, len), t)
  {
    var i := FirstFit(ts, align, len);
    var p := Fit(ts[i], align, len).value;
    FitFacts(ts[i], align, len);
    assert ts == ts[..i] + [ts[i]] + ts[i + 1..];
    t := CarveTakes(ts[..i], ts[i], ts[i + 1..], lo, hi, p, len);
  }

  lemma CarveTakes(pre: seq<Tile>, f: Tile, post: seq<Tile>, lo: nat, hi: nat, p: nat, len: nat) returns (t: Tile)
    requires f.Free? && f.addr + META <= p && p + len <= f.End() && Chain(pre + [f] + post, lo, hi)
    ensures Snug(t, p, len) && Takes(pre + [f] + post, pre + Carve(f, p, len) + post, t)
  {
    hide Chain, FreeByte, Snug, Carve;
    var c := Carve(f, p, len);
    CarveFree(f, p, len, 0);
    t := c[if p - META - f.addr >= FREE_BLOCK then 1 else 0];
    ChainSplit(pre, f, post, lo, hi);
    var ts, ns := pre + [f] + post, pre + c + post;
    forall a ensures (FreeByte(ns, a) <==> FreeByte(ts, a) && !t.Has(a)) && (t.Has(a) ==> FreeByte(ts, a)) {
      CarveFree(f, p, len, a);
      FreeByteAround(pre, c, post, a);
      FreeByteAround(pre, [f], post, a);
      FreeByteOf(f, a);
      if FreeByte(pre, a) { FreeByteInChain(pre, lo, f.addr, a); }
      if FreeByte(post, a) { FreeByteInChain(post, f.End(), hi, a); }
    }
  }

  lemma LastTile(pre: seq<Tile>, lo: nat, a: nat, j: nat)
    requires Chain(pre, lo, a) && j < |pre|
    ensures pre[j].End() == a <==> j == |pre| - 1
  {
    assert pre == pre[..j] + [pre[j]] + pre[j + 1..];
    ChainSplit(pre[..j], pre[j], pre[j + 1..], lo, a);
    ChainOrdered(pre[j + 1..], pre[j].End(), a);
  }

  /** A release replaces the tile and its `l` free left and `r` free right neighbours by one tile that covers them. */
  lemma ReleaseTiles(pre: seq<Tile>, t: Tile, post: seq<Tile>, lo: nat, hi: nat, l: nat, r: nat) returns (f: Tile)
    requires Chain(pre, lo, t.addr) && Chain(post, t.End(), hi)
    requires l == if pre != [] && pre[|pre| - 1].Free? then 1 else 0
    requires r == if post != [] && post[0].Free? then 1 else 0
    ensures Release(pre, t.addr, t.size, post) == pre[..|pre| - l] + [f] + post[r..]
    ensures f.Free? && f.addr <= t.addr && t.End() <= f.End()
    ensures if l == 1 then f.addr == pre[|pre| - 1].addr && pre[|pre| - 1].End() == t.addr else f.addr == t.addr
    ensures if r == 1 then t.End() == post[0].addr && post[0].End() == f.End() else f.End() == t.End()
  {
    if l == 1 { LastTile(pre, lo, t.addr, |pre| - 1); }
    f := Free(if l == 1 then pre[|pre| - 1].addr else t.addr,
              (if l == 1 then pre[|pre| - 1].size else 0) + t.size + if r == 1 then post[0].size else 0);
  }

  /** After a release the free bytes are those of before and those of the released tile. */
  lemma ReleaseReturns(pre: seq<Tile>, t: Tile, post: seq<Tile>, lo: nat, hi: nat, a: int)
    requires Chain(pre, lo, t.addr) && Chain(post, t.End(), hi)
    ensures FreeByte(Release(pre, t.addr, t.size, post), a) <==> FreeByte(pre, a) || t.Has(a) || FreeByte(post, a)
  {
    hide Release, Chain, FreeByte;
    var l := if pre != [] && pre[|pre| - 1].Free? then 1 else 0;
    var r := if post != [] && post[0].Free? then 1 else 0;
    var f := ReleaseTiles(pre, t, post, lo, hi, l, r);
    var k := |pre| - l;
    assert pre == pre[..k] + pre[k..] && post == post[..r] + post[r..];
    FreeByteConcat(pre[..k], pre[k..], a);
    FreeByteConcat(post[..r], post[r..], a);
    FreeByteAround(pre[..k], [f], post[r..], a);
    FreeByteOf(f, a);
    NoFreeByte(a);
    if l == 1 { assert pre[k..] == [pre[k]]; FreeByteOf(pre[k], a); } else { assert pre[k..] == []; }
    if r == 1 { assert post[..r] == [post[0]]; FreeByteOf(post[0], a); } else { assert post[..r] == []; }
  }

  lemma NoFreeByte(a: int)
    ensures !FreeByte([], a)
  {
  }

  /** `dealloc` returns all bytes of the tile, and nothing else changes hands. */
  lemma DeallocReturns(ts: seq<Tile>, lo: nat, hi: nat, ptr: nat)
    requires Inv(ts, lo, hi) && IsLive(ts, ptr)
    ensures Takes(DeallocTiles(ts, ptr), ts, ts[LiveIndex(ts, ptr)])
  {
    var i := LiveIndex(ts, ptr);
    var pre, t, post, ns := ts[..i], ts[i], ts[i + 1..], DeallocTiles(ts, ptr);
    assert ts == pre + [t] + post;
    ChainSplit(pre, t, post, lo, hi);
    forall a ensures (FreeByte(ts, a) <==> FreeByte(ns, a) && !t.Has(a)) && (t.Has(a) ==> FreeByte(ns, a)) {
      ReleaseReturns(pre, t, post, lo, hi, a);
      FreeByteAround(pre, [t], post, a);
      FreeByteOf(t, a);
      if t.Has(a) { LiveNotFree(ts, lo, hi, i, a); }
    }
    forall u: Tile | u.Live? ensures u in ts <==> u in ns || u == t {
      assert u in pre <==> u in (if pre != [] && pre[|pre| - 1].Free? then pre[..|pre| - 1] else pre);
      assert u in post <==> u in (if post != [] && post[0].Free? then post[1..] else post);
    }
  }

  /** The two tilings of a region have the same free bytes and the same live tiles. */
  ghost predicate SameHeap(a: seq<Tile>, b: seq<Tile>) {
    (forall x :: FreeByte(a, x) <==> FreeByte(b, x)) && forall u: Tile :: u.Live? ==> (u in a <==> u in b)
  }

  /** The free bytes and the live tiles determine the tiling. */
  lemma {:induction false} TilingIsCanonical(a: seq<Tile>, b: seq<Tile>, lo: nat, hi: nat)
    requires Inv(a, lo, hi) && Inv(b, lo, hi) && SameHeap(a, b)
    ensures a == b
    decreases |a|
  {
    if a == [] || b == [] {
      if a != [] { ChainMember(a, lo, hi, 0); }
      if b != [] { ChainMember(b, lo, hi, 0); }
    } else {
      SameFirst(a, b, lo, hi);
      SameRest(a, b, lo, hi);
      TilingIsCanonical(a[1..], b[1..], a[0].End(), hi);
      assert a == [a[0]] + a[1..] && b == [b[0]] + b[1..];
    }
  }

  lemma SameFirst(a: seq<Tile>, b: seq<Tile>, lo: nat, hi: nat)
    requires Inv(a, lo, hi) && Inv(b, lo, hi) && SameHeap(a, b) && a != [] && b != []
    ensures a[0] == b[0]
  {
    if a[0].Live? {
      FirstLive(a, b, lo, hi);
    } else if b[0].Live? {
      FirstLive(b, a, lo, hi);
    } else {
      FirstFree(a, b, lo, hi);
      FirstFree(b, a, lo, hi);
    }
  }

  lemma FirstLive(a: seq<Tile>, b: seq<Tile>, lo: nat, hi: nat)
    requires Chain(a, lo, hi) && Chain(b, lo, hi) && SameHeap(a, b) && a != [] && b != [] && a[0].Live?
    ensures a[0] == b[0]
  {
    assert a[0] in b;
    var j :| 0 <= j < |b| && b[j] == a[0];
    if j > 0 { ChainDisjoint(b, lo, hi, 0, j); }
  }

  lemma FirstFree(a: seq<Tile>, b: seq<Tile>, lo: nat, hi: nat)
    requires Inv(a, lo, hi) && Chain(b, lo, hi) && SameHeap(a, b) && a != [] && b != [] && a[0].Free? && b[0].Free?
    ensures b[0].End() <= a[0].End()
  {
    var e := a[0].End();
    if e < b[0].End() {
      assert b[0].Has(e);
      assert FreeByte(b, e);
      ChainMember(b, lo, hi, 0);
      TileEnd(a, lo, hi, 0);
      ChainMember(a, lo, hi, 1);
      LiveNotFree(a, lo, hi, 1, e);
    }
  }

  lemma SameRest(a: seq<Tile>, b: seq<Tile>, lo: nat, hi: nat)
    requires Inv(a, lo, hi) && Inv(b, lo, hi) && SameHeap(a, b) && a != [] && b != [] && a[0] == b[0]
    ensures Inv(a[1..], a[0].End(), hi) && Inv(b[1..], a[0].End(), hi) && SameHeap(a[1..], b[1..])
  {
    RestIs(a, lo, hi);
    RestIs(b, lo, hi);
  }

  lemma RestIs(a: seq<Tile>, lo: nat, hi: nat)
    requires Inv(a, lo, hi) && a != []
    ensures Inv(a[1..], a[0].End(), hi)
    ensures forall x :: FreeByte(a[1..], x) <==> FreeByte(a, x) && x >= a[0].End()
    ensures forall u: Tile :: u.Live? ==> (u in a[1..] <==> u in a && u != a[0])
  {
    assert a == [a[0]] + a[1..];
    CoalescedConcat([a[0]], a[1..]);
    forall x ensures FreeByte(a[1..], x) <==> FreeByte(a, x) && x >= a[0].End() {
      FreeByteConcat([a[0]], a[1..], x);
      FreeByteOf(a[0], x);
      if FreeByte(a[1..], x) { FreeByteInChain(a[1..], a[0].End(), hi, x); }
    }
    forall u: Tile | u.Live? ensures u in a[1..] <==> u in a && u != a[0] {
      if u in a[1..] {
        var j :| 0 <= j < |a| - 1 && a[1..][j] == u;
        ChainDisjoint(a, lo, hi, 0, j + 1);
      }
    }
  }

  // ---------------------------------------------------------------------------------------
  // Conservation
  // ---------------------------------------------------------------------------------------

  function SumFree(ts: seq<Tile>): nat {
    if ts == [] then 0 else (if ts[0].Free? then ts[0].size else 0) + SumFree(ts[1..])
  }

  function SumLive(ts: seq<Tile>): nat {
    if ts == [] then 0 else (if ts[0].Live? then ts[0].size else 0) + SumLive(ts[1..])
  }

  lemma {:induction false} SumsTile(ts: seq<Tile>, lo: nat, hi: nat)
    requires Chain(ts, lo, hi)
    ensures SumFree(ts) + SumLive(ts) == hi - lo
    decreases |ts|
  {
    if ts != [] { SumsTile(ts[1..], ts[0].End(), hi); }
  }

  // ---------------------------------------------------------------------------------------
  // Whole runs
  // ---------------------------------------------------------------------------------------

  datatype Op = Alloc(align: nat, len: nat) | Dealloc(ptr: nat)

  /** A client asks for non-empty aligned blocks and frees only what it holds. */
  ghost predicate Enabled(ts: seq<Tile>, op: Op) {
    match op
    case Alloc(align, len) => Request(align, len)
    case Dealloc(ptr) => IsLive(ts, ptr)
  }

  ghost function Step(ts: seq<Tile>, op: Op): seq<Tile>
    requires Enabled(ts, op)
  {
    match op
    case Alloc(align, len) => AllocTiles(ts, align, len)
    case Dealloc(ptr) => DeallocTiles(ts, ptr)
  }

  ghost predicate Legal(ts: seq<Tile>, ops: seq<Op>)
    decreases |ops|
  {
    ops == [] || (Enabled(ts, ops[0]) && Legal(Step(ts, ops[0]), ops[1..]))
  }

  ghost function Run(ts: seq<Tile>, ops: seq<Op>): seq<Tile>
    requires Legal(ts, ops)
    decreases |ops|
  {
    if ops == [] then ts else Run(Step(ts, ops[0]), ops[1..])
  }

  lemma {:induction false} RunKeepsInv(ts: seq<Tile>, lo: nat, hi: nat, ops: seq<Op>)
    requires Inv(ts, lo, hi) && Legal(ts, ops)
    ensures Inv(Run(ts, ops), lo, hi)
    decreases |ops|
  {
    if ops != [] {
      match ops[0] {
        case Alloc(align, len) => AllocKeepsInv(ts, lo, hi, align, len);
        case Dealloc(ptr) => DeallocKeepsInv(ts, lo, hi, ptr);
      }
      RunKeepsInv(Step(ts, ops[0]), lo, hi, ops[1..]);
    }
  }

  /** A heap in which nothing is live is the single initial block: however a run interleaved
      its allocations and frees, once everything is freed nothing is lost or fragmented. */
  lemma NothingLiveIsInitial(ts: seq<Tile>, lo: nat, hi: nat)
    requires Inv(ts, lo, hi) && lo < hi
    requires forall p :: !IsLive(ts, p)
    ensures ts == [Free(lo, hi - lo)]
  {
    assert |ts| > 1 ==> ts[0].Live? || ts[1].Live?;
    forall i | 0 <= i < |ts| ensures ts[i].Free? {
      if ts[i].Live? { assert LiveAt(ts, i, ts[i].ptr); assert IsLive(ts, ts[i].ptr); }
    }
    assert Chain(ts[1..], ts[0].End(), hi) && ts[1..] == [];
    assert ts == [ts[0]];
  }

  /** `dealloc` removes exactly its own allocation from the live ones. */
  lemma DeallocLive(ts: seq<Tile>, lo: nat, hi: nat, ptr: nat, q: nat)
    requires Inv(ts, lo, hi) && IsLive(ts, ptr)
    ensures IsLive(DeallocTiles(ts, ptr), q) <==> IsLive(ts, q) && q != ptr
  {
    var i := LiveIndex(ts, ptr);
    var ns := DeallocTiles(ts, ptr);
    var l := if i > 0 && ts[i - 1].Free? then 1 else 0;
    var r := if i + 1 < |ts| && ts[i + 1].Free? then 1 else 0;
    if IsLive(ts, q) && q != ptr {
      var j: nat :| LiveAt(ts, j, q);
      var j' := OtherTileSurvives(ts, lo, hi, ptr, j);
      assert LiveAt(ns, j', q);
    }
    if IsLive(ns, q) {
      var j: nat :| LiveAt(ns, j, q);
      var j' := if j < i - l then j else j + l + r;
      assert LiveAt(ts, j', q);
      if q == ptr { LiveUnique(ts, lo, hi, i, j', q); }
    }
  }

  /** Every other live tile survives a `dealloc` unchanged. */
  lemma OtherTileSurvives(ts: seq<Tile>, lo: nat, hi: nat, ptr: nat, j: nat) returns (j': nat)
    requires Inv(ts, lo, hi) && IsLive(ts, ptr) && j < |ts| && ts[j].Live? && ts[j].ptr != ptr
    ensures var ns := DeallocTiles(ts, ptr); j' < |ns| && ns[j'] == ts[j]
  {
    var i := LiveIndex(ts, ptr);
    var l := if i > 0 && ts[i - 1].Free? then 1 else 0;
    var r := if i + 1 < |ts| && ts[i + 1].Free? then 1 else 0;
    assert LiveAt(ts, i, ptr) && j != i;
    assert l == 1 ==> j != i - 1;
    j' := if j < i then j else j - l - r;
  }

  /** A byte of a live tile is not a free byte. */
  lemma LiveNotFree(ts: seq<Tile>, lo: nat, hi: nat, i: nat, a: int)
    requires Chain(ts, lo, hi) && i < |ts| && ts[i].Live? && ts[i].Has(a)
    ensures !FreeByte(ts, a)
  {
    if FreeByte(ts, a) {
      var j: nat :| j < |ts| && ts[j].Free? && ts[j].Has(a);
      if i < j { ChainDisjoint(ts, lo, hi, i, j); } else { ChainDisjoint(ts, lo, hi, j, i); }
    }
  }

  ghost function Deallocs(ptrs: seq<nat>): seq<Op> {
    seq(|ptrs|, i requires 0 <= i < |ptrs| => Dealloc(ptrs[i]))
  }

  lemma DeallocsTail(ptrs: seq<nat>)
    requires ptrs != []
    ensures Deallocs(ptrs) != [] && Deallocs(ptrs)[0] == Dealloc(ptrs[0]) && Deallocs(ptrs)[1..] == Deallocs(ptrs[1..])
  {
  }

  /** Freeing all live allocations, in any order, restores the initial block. */
  lemma {:induction false} DrainRestoresInitial(ts: seq<Tile>, lo: nat, hi: nat, ptrs: seq<nat>)
    requires Inv(ts, lo, hi) && lo < hi
    requires forall p :: IsLive(ts, p) <==> p in ptrs
    requires forall i, j :: 0 <= i < j < |ptrs| ==> ptrs[i] != ptrs[j]
    ensures Legal(ts, Deallocs(ptrs)) && Run(ts, Deallocs(ptrs)) == [Free(lo, hi - lo)]
    decreases |ptrs|
  {
    if ptrs == [] {
      NothingLiveIsInitial(ts, lo, hi);
    } else {
      hide Inv, IsLive, DeallocTiles;
      var ns := DeallocTiles(ts, ptrs[0]);
      forall p ensures IsLive(ns, p) <==> p in ptrs[1..] { DeallocLive(ts, lo, hi, ptrs[0], p); }
      DeallocKeepsInv(ts, lo, hi, ptrs[0]);
      DrainRestoresInitial(ns, lo, hi, ptrs[1..]);
      DeallocsTail(ptrs);
    }
  }
}
