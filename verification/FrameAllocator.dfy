/** Physical page frames: one bitmap-backed arena per usable range of RAM. */
module FrameAllocator {
  import opened Guards
  import opened PhysicalRanges
  import opened Bitmaps
  import opened Options

  /** The frames of the given ranges, by address. */
  ghost function FramesOf(rs: seq<PhysRange>): set<int> {
    set x: int | 0 <= x < TOP && x % PAGE_SIZE == 0 && In(rs, x)
  }

  datatype FrameArena = FrameArena(range: PhysRange, used: Bitmap) {
    ghost predicate Valid() {
      && range.start % PAGE_SIZE == 0 && range.end % PAGE_SIZE == 0
      && used.Valid() && used.len == (range.end - range.start) / PAGE_SIZE
    }

    /** `x` is a frame of this arena. */
    predicate Frame(x: int) { range.Has(x) && x % PAGE_SIZE == 0 }

    /** Frame `x` of this arena has been handed out. */
    ghost predicate Out(x: int)
      requires Valid()
    {
      Frame(x) && (x - range.start) / PAGE_SIZE in used.Set()
    }

    /** Hand out the lowest free frame of the arena. */
    method Alloc() returns (r: Option<int>, a: FrameArena)
      requires Valid()
      ensures a.Valid() && a.range == range
      ensures r.None? ==> a == this && forall x :: Frame(x) ==> Out(x)
      ensures r.Some? ==> Frame(r.value) && !Out(r.value) && forall x :: Frame(x) && x < r.value ==> Out(x)
      ensures r.Some? ==> forall x :: a.Out(x) <==> Out(x) || x == r.value
    {
      var index := used.FindFree();
      if index.None? {
        ArenaFull(this);
        return None, this;
      }
      FrameIndex(range.start, range.end, index.value);
      SameIndex(range.start, range.start + index.value * PAGE_SIZE);
      return Some(range.start + index.value * PAGE_SIZE), FrameArena(range, used.SetBit(index.value));
    }

    /** Take back a frame; refuse anything that is not an outstanding frame of this arena. */
    method Free(addr: int) returns (ok: bool, a: FrameArena)
      requires Valid()
      ensures a.Valid() && a.range == range && ok == Out(addr) && (!ok ==> a == this)
      ensures forall x :: a.Out(x) <==> Out(x) && x != addr
    {
      if addr % PAGE_SIZE != 0 || !range.Has(addr) {
        return false, this;
      }
      IndexBelow(range.start, range.end, addr);
      SameIndex(range.start, addr);
      var index := (addr - range.start) / PAGE_SIZE;
      if !used.IsSet(index) {
        return false, this;
      }
      return true, FrameArena(range, used.Unset(index));
    }
  }

  lemma ArenaFull(a: FrameArena)
    requires a.Valid() && forall i: nat :: i < a.used.len ==> i in a.used.Set()
    ensures forall x :: a.Frame(x) ==> a.Out(x)
  {
    forall x | a.Frame(x) ensures a.Out(x) {
      IndexBelow(a.range.start, a.range.end, x);
      var j: nat := (x - a.range.start) / PAGE_SIZE;
      assert j in a.used.Set();
    }
  }

  function NewArena(range: PhysRange): (a: FrameArena)
    requires range.start % PAGE_SIZE == 0 && range.end % PAGE_SIZE == 0
    ensures a.Valid() && a.range == range && forall x :: !a.Out(x)
  {
    FrameArena(range, NewBitmap((range.end - range.start) / PAGE_SIZE))
  }

  lemma IndexBelow(start: int, end: int, x: int)
    requires start % PAGE_SIZE == 0 && end % PAGE_SIZE == 0 && start <= x < end
    ensures 0 <= (x - start) / PAGE_SIZE < (end - start) / PAGE_SIZE
  {
  }

  /** No other frame has the index of `y`. */
  lemma SameIndex(start: int, y: int)
    requires start % PAGE_SIZE == 0 && y % PAGE_SIZE == 0 && start <= y
    ensures forall x :: start <= x && x % PAGE_SIZE == 0 && (x - start) / PAGE_SIZE == (y - start) / PAGE_SIZE ==> x == y
  {
    forall x | start <= x && x % PAGE_SIZE == 0 && (x - start) / PAGE_SIZE == (y - start) / PAGE_SIZE ensures x == y {
      assert (x - start) % PAGE_SIZE == 0 && (y - start) % PAGE_SIZE == 0;
    }
  }

  lemma FrameIndex(start: int, end: int, i: nat)
    requires start % PAGE_SIZE == 0 && end % PAGE_SIZE == 0 && i < (end - start) / PAGE_SIZE
    ensures var x := start + i * PAGE_SIZE; start <= x < end && x % PAGE_SIZE == 0 && (x - start) / PAGE_SIZE == i
  {
  }

  // ---------------------------------------------------------------------------------------
  // Many arenas
  // ---------------------------------------------------------------------------------------

  function RangesOf(arenas: seq<FrameArena>): seq<PhysRange> {
    seq(|arenas|, i requires 0 <= i < |arenas| => arenas[i].range)
  }

  /** Arenas over disjoint ranges in ascending order. */
  ghost predicate Arenas(arenas: seq<FrameArena>) {
    && (forall i :: 0 <= i < |arenas| ==> arenas[i].Valid())
    && (forall i, j :: 0 <= i < j < |arenas| ==> arenas[i].range.end < arenas[j].range.start)
  }

  ghost predicate OutAny(arenas: seq<FrameArena>, x: int)
    requires Arenas(arenas)
  {
    exists i :: 0 <= i < |arenas| && arenas[i].Out(x)
  }

  /** All frames handed out. */
  ghost function OutSet(arenas: seq<FrameArena>): set<int>
    requires Arenas(arenas)
  {
    set x: int | 0 <= x < TOP && OutAny(arenas, x)
  }

  /** Handing out the lowest free frame of arena `k`, all lower arenas being exhausted. */
  lemma HandOut(arenas: seq<FrameArena>, k: nat, a: FrameArena, f: int)
    requires Arenas(arenas) && k < |arenas| && a.Valid() && a.range == arenas[k].range && arenas[k].Frame(f)
    requires forall i, x :: 0 <= i < k && arenas[i].Frame(x) ==> arenas[i].Out(x)
    requires !arenas[k].Out(f) && forall x :: arenas[k].Frame(x) && x < f ==> arenas[k].Out(x)
    requires forall x :: a.Out(x) <==> arenas[k].Out(x) || x == f
    ensures Arenas(arenas[k := a]) && RangesOf(arenas[k := a]) == RangesOf(arenas)
    ensures f in FramesOf(RangesOf(arenas)) && f !in OutSet(arenas) && OutSet(arenas[k := a]) == OutSet(arenas) + {f}
    ensures forall x :: x in FramesOf(RangesOf(arenas)) && x < f ==> x in OutSet(arenas)
  {
    hide OutAny, OtherOut;
    forall x ensures OutAny(arenas[k := a], x) <==> OutAny(arenas, x) || x == f {
      OneArena(arenas, k, a, x);
    }
    OneArena(arenas, k, a, f);
    InRange(arenas, k, f);
    LowerFramesOut(arenas, k, f);
  }

  lemma LowerFramesOut(arenas: seq<FrameArena>, k: nat, f: int)
    requires Arenas(arenas) && k < |arenas| && arenas[k].Frame(f)
    requires forall i, x :: 0 <= i < k && arenas[i].Frame(x) ==> arenas[i].Out(x)
    requires forall x :: arenas[k].Frame(x) && x < f ==> arenas[k].Out(x)
    ensures forall x :: x in FramesOf(RangesOf(arenas)) && x < f ==> x in OutSet(arenas)
  {
    forall x | x in FramesOf(RangesOf(arenas)) && x < f ensures x in OutSet(arenas) {
      var i := RangeOf(arenas, x);
      assert i <= k;
      assert arenas[i].Out(x);
    }
  }

  lemma InRange(arenas: seq<FrameArena>, k: nat, x: int)
    requires k < |arenas| && arenas[k].range.Has(x)
    ensures In(RangesOf(arenas), x)
  {
    assert RangesOf(arenas)[k].Has(x);
  }

  lemma RangeOf(arenas: seq<FrameArena>, x: int) returns (i: nat)
    requires In(RangesOf(arenas), x)
    ensures i < |arenas| && arenas[i].range.Has(x)
  {
    i :| 0 <= i < |arenas| && RangesOf(arenas)[i].Has(x);
  }

  lemma TakeBack(arenas: seq<FrameArena>, k: nat, a: FrameArena, f: int)
    requires Arenas(arenas) && k < |arenas| && a.Valid() && a.range == arenas[k].range && a.range.Has(f)
    requires forall x :: a.Out(x) <==> arenas[k].Out(x) && x != f
    ensures Arenas(arenas[k := a]) && RangesOf(arenas[k := a]) == RangesOf(arenas)
    ensures f in OutSet(arenas) <==> arenas[k].Out(f)
    ensures OutSet(arenas[k := a]) == OutSet(arenas) - {f}
  {
    forall x ensures OutAny(arenas[k := a], x) <==> OutAny(arenas, x) && x != f {
      OneArena(arenas, k, a, x);
    }
    OneArena(arenas, k, a, f);
  }

  ghost predicate OtherOut(arenas: seq<FrameArena>, k: nat, x: int)
    requires Arenas(arenas)
  {
    exists i :: 0 <= i < |arenas| && i != k && arenas[i].Out(x)
  }

  /** Replacing arena `k`: the other arenas speak as before, and not about its range. */
  lemma OneArena(arenas: seq<FrameArena>, k: nat, a: FrameArena, x: int)
    requires Arenas(arenas) && k < |arenas| && a.Valid() && a.range == arenas[k].range
    ensures Arenas(arenas[k := a])
    ensures OutAny(arenas, x) <==> arenas[k].Out(x) || OtherOut(arenas, k, x)
    ensures OutAny(arenas[k := a], x) <==> a.Out(x) || OtherOut(arenas, k, x)
    ensures a.range.Has(x) ==> !OtherOut(arenas, k, x)
  {
    var ns := arenas[k := a];
    if OutAny(ns, x) { var i :| 0 <= i < |ns| && ns[i].Out(x); assert i != k ==> arenas[i].Out(x); }
    if OtherOut(arenas, k, x) { var i :| 0 <= i < |arenas| && i != k && arenas[i].Out(x); assert ns[i].Out(x); }
    if a.Out(x) { assert ns[k].Out(x); }
  }

  lemma Exhausted(arenas: seq<FrameArena>)
    requires Arenas(arenas) && forall i, x :: 0 <= i < |arenas| && arenas[i].Frame(x) ==> arenas[i].Out(x)
    ensures OutSet(arenas) == FramesOf(RangesOf(arenas))
  {
    forall x ensures x in OutSet(arenas) <==> x in FramesOf(RangesOf(arenas)) {
      if x in FramesOf(RangesOf(arenas)) { var i := RangeOf(arenas, x); assert arenas[i].Out(x); }
      if x in OutSet(arenas) { var i :| 0 <= i < |arenas| && arenas[i].Out(x); InRange(arenas, i, x); }
    }
  }

  /** Manages all page-aligned portions of RAM which are not reserved. */
  class PageFrameAllocator {
    var arenas: seq<FrameArena>
    ghost const Managed: set<int>    // all frames
    ghost var Outstanding: set<int>  // the frames currently handed out

    /** The invariant, guarded by `OnArenas` so that clients which only pass it along need not look at it. */
    ghost predicate Valid()
      reads this
    {
      forall n {:trigger Open(OnArenas, n)} :: Open(OnArenas, n) ==> Clauses()
    }

    ghost predicate Clauses()
      reads this
    {
      Arenas(arenas) && Managed == FramesOf(RangesOf(arenas)) && Outstanding == OutSet(arenas)
    }

    /** The kernel image, the live FDT and the firmware reservations are never managed. */
    constructor (memory: seq<PhysRange>, reserved: seq<PhysRange>, fdt: PhysRange, kernel: PhysRange)
      ensures Valid() && Outstanding == {}
      ensures forall x :: x in Managed <==> x % PAGE_SIZE == 0 && UsablePage(memory, reserved + [fdt] + [kernel], x)
      ensures PageAligned(RangesOf(arenas)) && Normal(RangesOf(arenas))
      ensures forall x :: In(RangesOf(arenas), x) <==> UsablePage(memory, reserved + [fdt] + [kernel], x)
    {
      var fixedUp := reserved + [fdt] + [kernel];
      var usable := UsableMemoryRanges(memory, fixedUp);
      var list := NewArenas(usable);
      arenas := list;
      Managed, Outstanding := FramesOf(usable), {};
    }

    method Ranges() returns (rs: seq<PhysRange>)
      ensures rs == RangesOf(arenas)
    {
      rs := RangesOf(arenas);
    }

    /** The lowest free frame; none exactly when every managed frame is out. */
    method Alloc() returns (r: Option<int>)
      requires Valid()
      modifies this
      ensures Valid() && RangesOf(arenas) == old(RangesOf(arenas))
      ensures r.None? ==> Outstanding == old(Outstanding) == Managed
      ensures r.Some? ==> r.value in Managed && r.value !in old(Outstanding) && 0 <= r.value < TOP && r.value % PAGE_SIZE == 0
      ensures r.Some? ==> forall x :: x in Managed && x < r.value ==> x in old(Outstanding)
      ensures r.Some? ==> Outstanding == old(Outstanding) + {r.value}
      ensures Step(Managed, old(Outstanding), Allocated(r), Outstanding)
    {
      assert Open(OnArenas, 0);
      for k := 0 to |arenas|
        invariant arenas == old(arenas) && Outstanding == old(Outstanding)
        invariant forall i, x :: 0 <= i < k && arenas[i].Frame(x) ==> arenas[i].Out(x)
      {
        var a;
        r, a := arenas[k].Alloc();
        if r.Some? {
          HandOut(arenas, k, a, r.value);
          arenas := arenas[k := a];
          Outstanding := Outstanding + {r.value};
          return;
        }
      }
      Exhausted(arenas);
      return None;
    }

    /** Returns whether the frame was outstanding; if not, nothing changes. */
    method Free(addr: int) returns (ok: bool)
      requires Valid()
      modifies this
      ensures Valid() && RangesOf(arenas) == old(RangesOf(arenas))
      ensures ok == (addr in old(Outstanding)) && (!ok ==> arenas == old(arenas))
      ensures Outstanding == old(Outstanding) - {addr}
      ensures Step(Managed, old(Outstanding), Freed(addr, ok), Outstanding)
    {
      assert Open(OnArenas, 0);
      for k := 0 to |arenas|
        invariant arenas == old(arenas) && Outstanding == old(Outstanding)
        invariant forall i :: 0 <= i < k ==> !arenas[i].range.Has(addr)
      {
        if arenas[k].range.Has(addr) {
          var a;
          ok, a := arenas[k].Free(addr);
          TakeBack(arenas, k, a, addr);
          arenas := arenas[k := a];
          Outstanding := Outstanding - {addr};
          return;
        }
      }
      return false;
    }
  }

  lemma OutstandingManaged(alloc: PageFrameAllocator)
    requires alloc.Valid()
    ensures alloc.Outstanding <= alloc.Managed == FramesOf(RangesOf(alloc.arenas))
  {
    assert Open(OnArenas, 0);
    forall x | x in OutSet(alloc.arenas) ensures x in alloc.Managed {
      var i :| 0 <= i < |alloc.arenas| && alloc.arenas[i].Out(x);
      InRange(alloc.arenas, i, x);
    }
  }

  method NewArenas(ranges: seq<PhysRange>) returns (arenas: seq<FrameArena>)
    requires PageAligned(ranges) && Normal(ranges)
    ensures RangesOf(arenas) == ranges && Arenas(arenas) && OutSet(arenas) == {}
  {
    arenas := [];
    for k := 0 to |ranges|
      invariant |arenas| == k && forall i :: 0 <= i < k ==> arenas[i].range == ranges[i] && arenas[i].Valid() && forall x :: !arenas[i].Out(x)
    {
      arenas := arenas + [NewArena(ranges[k])];
    }
  }

  // ---------------------------------------------------------------------------------------
  // Whole runs
  // ---------------------------------------------------------------------------------------

  /** What one call of the allocator did. */
  datatype Event = Allocated(frame: Option<int>) | Freed(addr: int, ok: bool)

  /** What `Alloc` and `Free` do to the set of outstanding frames; each of them ensures it. */
  ghost predicate Step(managed: set<int>, out: set<int>, e: Event, out': set<int>) {
    match e
    case Allocated(None) => out' == out == managed
    case Allocated(Some(f)) =>
      f in managed && f !in out && out' == out + {f} && forall x :: x in managed && x < f ==> x in out
    case Freed(a, ok) => ok == (a in out) && out' == out - {a}
  }

  ghost predicate Trace(managed: set<int>, outs: seq<set<int>>, events: seq<Event>) {
    && |outs| == |events| + 1 && outs[0] == {}
    && forall i :: 0 <= i < |events| ==> Step(managed, outs[i], events[i], outs[i + 1])
  }

  lemma {:induction false} OutstandingIsManaged(managed: set<int>, outs: seq<set<int>>, events: seq<Event>, k: nat)
    requires Trace(managed, outs, events) && k < |outs|
    ensures outs[k] <= managed
  {
    if k > 0 {
      OutstandingIsManaged(managed, outs, events, k - 1);
      assert Step(managed, outs[k - 1], events[k - 1], outs[k]);
    }
  }

  /** A frame handed out twice was given back in between. */
  lemma {:induction false} NoDoubleHandout(managed: set<int>, outs: seq<set<int>>, events: seq<Event>, i: nat, j: nat, f: int)
    returns (k: nat)
    requires Trace(managed, outs, events) && i < j < |events|
    requires events[i] == Allocated(Some(f)) && events[j] == Allocated(Some(f))
    ensures i < k < j && events[k] == Freed(f, true)
  {
    assert Step(managed, outs[i], events[i], outs[i + 1]) && Step(managed, outs[j], events[j], outs[j + 1]);
    k := i + 1;
    while f in outs[k + 1]
      invariant i < k < j && f in outs[k]
      decreases j - k
    {
      k := k + 1;
    }
    assert Step(managed, outs[k], events[k], outs[k + 1]);
  }

  /** A managed frame is RAM throughout and touches nothing reserved. */
  lemma ManagedFrameIsSafe(memory: seq<PhysRange>, reserved: seq<PhysRange>, fdt: PhysRange, kernel: PhysRange, f: int, y: int)
    requires f % PAGE_SIZE == 0 && UsablePage(memory, reserved + [fdt] + [kernel], f) && f <= y < f + PAGE_SIZE
    ensures In(memory, y) && !In(reserved, y) && !fdt.Has(y) && !kernel.Has(y)
  {
    assert Page(f) == f;
    InSnoc(reserved, fdt);
    InSnoc(reserved + [fdt], kernel);
  }
}
