/** Physical address ranges: normalisation, and subtraction of reserved memory from RAM. */
module PhysicalRanges {
  import Bits

  const TOP: nat := 0x1_0000_0000_0000_0000  // usize::MAX + 1
  const PAGE_SIZE: nat := 4096

  datatype Span = Span(start: int, end: int) {
    predicate Has(x: int) { start <= x < end }
  }

  /** A non-empty half-open range of addresses whose end is representable. */
  type PhysRange = s: Span | 0 <= s.start < s.end < TOP witness Span(0, 1)

  datatype PhysRangeError = AddressOverflow | EmptyRange

  datatype Result<+T> = Ok(value: T) | Err(error: PhysRangeError)

  /** Some range of `rs` contains `x`. */
  ghost predicate In(rs: seq<PhysRange>, x: int) {
    exists i :: 0 <= i < |rs| && rs[i].Has(x)
  }

  ghost predicate SameCover(a: seq<PhysRange>, b: seq<PhysRange>) {
    forall x :: In(a, x) <==> In(b, x)
  }

  function FromStartSize(start: nat, size: nat): (r: Result<PhysRange>)
    requires start < TOP && size < TOP
    ensures r.Ok? <==> size > 0 && start + size < TOP
    ensures r.Ok? ==> forall x :: r.value.Has(x) <==> start <= x < start + size
    ensures r.Err? ==> r.error == if start + size >= TOP then AddressOverflow else EmptyRange
  {
    if start + size >= TOP then Err(AddressOverflow)
    else if start >= start + size then Err(EmptyRange)
    else Ok(Span(start, start + size))
  }

  // ---------------------------------------------------------------------------------------
  // Page alignment
  // ---------------------------------------------------------------------------------------

  /** The page holding `x`. */
  function Page(x: int): int { x - x % PAGE_SIZE }

  /** `addr & !(PAGE_SIZE - 1)` */
  function AlignDown(addr: nat): nat
  {
    Bits.And(addr, Bits.Not(PAGE_SIZE - 1, TOP))
  }

  /** `addr.checked_add(PAGE_SIZE - 1).map(|addr| addr & !(PAGE_SIZE - 1))` */
  function AlignUp(addr: nat): Result<nat> {
    if addr + (PAGE_SIZE - 1) < TOP then Ok(AlignDown(addr + (PAGE_SIZE - 1))) else Err(AddressOverflow)
  }

  lemma AlignDownIsPage(addr: nat)
    requires addr < TOP
    ensures AlignDown(addr) == Page(addr)
  {
    Bits.Pow2Of64();
    assert Bits.Pow2(12) == PAGE_SIZE by { Bits.Pow2Values(); }
    Bits.MaskHigh(addr, 12, PAGE_SIZE, 64, TOP);
  }

  /** Expand a range to the complete pages which contain it. */
  function CoveringPages(r: PhysRange): Result<PhysRange> {
    AlignDownIsPage(r.start);
    var start := AlignDown(r.start);
    var end := AlignUp(r.end);
    if end.Err? then Err(end.error)
    else
      AlignDownIsPage(r.end + (PAGE_SIZE - 1));
      CoveringBounds(r.start, r.end);
      Ok(Span(start, end.value))
  }

  lemma CoveringBounds(s: int, e: int)
    requires 0 <= s < e && e + (PAGE_SIZE - 1) < TOP
    ensures 0 <= Page(s) <= s && e <= Page(e + (PAGE_SIZE - 1)) < TOP
    ensures Page(s) % PAGE_SIZE == 0 && Page(e + (PAGE_SIZE - 1)) % PAGE_SIZE == 0
  {
  }

  /** Exactly the pages the range touches, or an overflow error. */
  lemma CoveringPagesExact(r: PhysRange)
    ensures var p := CoveringPages(r);
      && (p.Err? <==> r.end + (PAGE_SIZE - 1) >= TOP)
      && (p.Ok? ==> p.value.start % PAGE_SIZE == 0 && p.value.end % PAGE_SIZE == 0)
      && (p.Ok? ==> forall x :: p.value.Has(x) <==> exists y :: r.Has(y) && Page(y) == Page(x))
  {
    CoveringPagesValue(r);
    if r.end + (PAGE_SIZE - 1) < TOP {
      CoveringBounds(r.start, r.end);
      TouchedPages(r);
    }
  }

  lemma CoveringPagesValue(r: PhysRange)
    ensures CoveringPages(r) ==
      if r.end + (PAGE_SIZE - 1) >= TOP then Err(AddressOverflow)
      else Ok(Span(Page(r.start), Page(r.end + (PAGE_SIZE - 1))))
  {
    AlignDownIsPage(r.start);
    if r.end + (PAGE_SIZE - 1) < TOP { AlignDownIsPage(r.end + (PAGE_SIZE - 1)); }
  }

  lemma TouchedPages(r: PhysRange)
    ensures var p := Span(Page(r.start), Page(r.end + (PAGE_SIZE - 1)));
      forall x :: p.Has(x) <==> exists y :: r.Has(y) && Page(y) == Page(x)
  {
    var p := Span(Page(r.start), Page(r.end + (PAGE_SIZE - 1)));
    forall x ensures p.Has(x) <==> exists y :: r.Has(y) && Page(y) == Page(x) {
      if p.Has(x) {
        var y := if r.Has(x) then x else if x < r.start then r.start else r.end - 1;
        SamePage(r.start, r.end, x, y);
        assert r.Has(y) && Page(y) == Page(x);
      } else if y :| r.Has(y) && Page(y) == Page(x) {
        SamePage(r.start, r.end, x, y);
      }
    }
  }

  lemma SamePage(s: int, e: int, x: int, y: int)
    requires s <= y < e
    ensures Page(y) == Page(x) ==> Page(s) <= x < Page(e + (PAGE_SIZE - 1))
    ensures Page(s) <= x < s && y == s ==> Page(y) == Page(x)
    ensures e <= x < Page(e + (PAGE_SIZE - 1)) && y == e - 1 ==> Page(y) == Page(x)
  {
  }

  // ---------------------------------------------------------------------------------------
  // Normal form
  // ---------------------------------------------------------------------------------------

  /** Sorted, disjoint, and with a gap between any two ranges. */
  ghost predicate Normal(rs: seq<PhysRange>) {
    forall i, j :: 0 <= i < j < |rs| ==> rs[i].end < rs[j].start
  }

  /** A covered interval of a normal sequence lies inside one range. */
  lemma {:induction false} IntervalInOne(rs: seq<PhysRange>, a: int, b: int) returns (i: nat)
    requires Normal(rs) && a < b && forall x :: a <= x < b ==> In(rs, x)
    ensures i < |rs| && rs[i].start <= a && b <= rs[i].end
  {
    assert In(rs, a);
    i :| 0 <= i < |rs| && rs[i].Has(a);
    assert !In(rs, rs[i].end);
  }

  /** The normal form is determined by the addresses it covers. */
  lemma {:induction false} NormalIsCanonical(a: seq<PhysRange>, b: seq<PhysRange>)
    requires Normal(a) && Normal(b) && SameCover(a, b)
    ensures a == b
    decreases |a|
  {
    if a == [] {
      if b != [] { StartIn(b); }
    } else {
      StartIn(a);
      assert In(b, a[0].start);
      FirstRange(a, b);
      FirstRange(b, a);
      TailCover(a);
      TailCover(b);
      NormalIsCanonical(a[1..], b[1..]);
    }
  }

  lemma StartIn(a: seq<PhysRange>)
    requires a != []
    ensures In(a, a[0].start)
  {
    assert a[0].Has(a[0].start);
  }

  lemma FirstRange(a: seq<PhysRange>, b: seq<PhysRange>)
    requires Normal(a) && Normal(b) && a != [] && b != [] && SameCover(a, b)
    ensures b[0].start <= a[0].start && a[0].end <= b[0].end
  {
    assert a[0].Has(a[0].start) && In(a, a[0].start);
    var i :| 0 <= i < |b| && b[i].Has(a[0].start);
    forall x | a[0].start <= x < a[0].end ensures In(b, x) { assert a[0].Has(x); assert In(a, x); }
    var k := IntervalInOne(b, a[0].start, a[0].end);
    assert b[0].Has(b[0].start) && In(b, b[0].start);
    var j :| 0 <= j < |a| && a[j].Has(b[0].start);
  }

  lemma TailCover(a: seq<PhysRange>)
    requires Normal(a) && a != []
    ensures forall x :: In(a[1..], x) <==> In(a, x) && !a[0].Has(x)
  {
    forall x ensures In(a[1..], x) <==> In(a, x) && !a[0].Has(x) {
      if In(a[1..], x) {
        var i :| 0 <= i < |a[1..]| && a[1..][i].Has(x);
        assert a[i + 1].Has(x);
      }
      if In(a, x) && !a[0].Has(x) {
        var i :| 0 <= i < |a| && a[i].Has(x);
        assert a[1..][i - 1].Has(x);
      }
    }
  }

  // ---------------------------------------------------------------------------------------
  // Sorting by start address (stable)
  // ---------------------------------------------------------------------------------------

  ghost predicate SortedByStart(rs: seq<PhysRange>) {
    forall i, j :: 0 <= i < j < |rs| ==> rs[i].start <= rs[j].start
  }

  function Insert(r: PhysRange, rs: seq<PhysRange>): seq<PhysRange> {
    if rs == [] || r.start <= rs[0].start then [r] + rs else [rs[0]] + Insert(r, rs[1..])
  }

  function SortByStart(rs: seq<PhysRange>): seq<PhysRange> {
    if rs == [] then [] else Insert(rs[0], SortByStart(rs[1..]))
  }

  lemma {:induction false} InsertPermutes(r: PhysRange, rs: seq<PhysRange>)
    ensures multiset(Insert(r, rs)) == multiset(rs) + multiset{r}
    decreases |rs|
  {
    if rs != [] && r.start > rs[0].start {
      InsertPermutes(r, rs[1..]);
      assert rs == [rs[0]] + rs[1..];
    }
  }

  lemma {:induction false} InsertSorts(r: PhysRange, rs: seq<PhysRange>)
    requires SortedByStart(rs)
    ensures SortedByStart(Insert(r, rs))
    decreases |rs|
  {
    if rs != [] && r.start > rs[0].start {
      var t := Insert(r, rs[1..]);
      InsertSorts(r, rs[1..]);
      forall i | 0 <= i < |t| ensures rs[0].start <= t[i].start { InsertFrom(r, rs[1..], i); }
    }
  }

  lemma {:induction false} InsertFrom(r: PhysRange, rs: seq<PhysRange>, i: int)
    requires 0 <= i < |Insert(r, rs)|
    ensures Insert(r, rs)[i] == r || exists j :: 0 <= j < |rs| && Insert(r, rs)[i] == rs[j]
    decreases |rs|
  {
    if rs != [] && r.start > rs[0].start {
      if i > 0 { InsertFrom(r, rs[1..], i - 1); }
    } else if i > 0 {
      assert Insert(r, rs)[i] == rs[i - 1];
    }
  }

  lemma {:induction false} SortIsSortedPermutation(rs: seq<PhysRange>)
    ensures multiset(SortByStart(rs)) == multiset(rs) && SortedByStart(SortByStart(rs))
    decreases |rs|
  {
    if rs != [] {
      hide SortedByStart, Insert;
      SortIsSortedPermutation(rs[1..]);
      InsertPermutes(rs[0], SortByStart(rs[1..]));
      InsertSorts(rs[0], SortByStart(rs[1..]));
      HeadAndTail(rs);
    }
  }

  lemma HeadAndTail(rs: seq<PhysRange>)
    requires rs != []
    ensures multiset(rs) == multiset{rs[0]} + multiset(rs[1..])
  {
    assert rs == [rs[0]] + rs[1..];
  }

  lemma SameElements(a: seq<PhysRange>, b: seq<PhysRange>)
    requires multiset(a) == multiset(b)
    ensures SameCover(a, b)
  {
    forall x ensures In(a, x) <==> In(b, x) {
      if In(a, x) { var i :| 0 <= i < |a| && a[i].Has(x); assert a[i] in multiset(b); assert a[i] in b; }
      if In(b, x) { var i :| 0 <= i < |b| && b[i].Has(x); assert b[i] in multiset(a); assert b[i] in a; }
    }
  }

  /** Sorting what is already strictly ascending changes nothing. */
  lemma {:induction false} SortNormal(rs: seq<PhysRange>)
    requires Normal(rs)
    ensures SortByStart(rs) == rs
    decreases |rs|
  {
    if rs != [] {
      SortNormal(rs[1..]);
      assert rs[1..] != [] ==> rs[0].start <= rs[1..][0].start;
      assert rs == [rs[0]] + rs[1..];
    }
  }

  /** Covering one range more. */
  lemma InSnoc(rs: seq<PhysRange>, r: PhysRange)
    ensures forall x :: In(rs + [r], x) <==> In(rs, x) || r.Has(x)
  {
    forall x ensures In(rs + [r], x) <==> In(rs, x) || r.Has(x) {
      if In(rs, x) { var i :| 0 <= i < |rs| && rs[i].Has(x); assert (rs + [r])[i].Has(x); }
      if r.Has(x) { assert (rs + [r])[|rs|].Has(x); }
    }
  }

  lemma InOne()
    ensures forall r: PhysRange, x :: In([r], x) <==> r.Has(x)
  {
    forall r: PhysRange, x ensures In([r], x) <==> r.Has(x) { assert [r][0] == r; }
  }

  lemma InTake(rs: seq<PhysRange>, k: nat)
    requires k < |rs|
    ensures forall x :: In(rs[..k + 1], x) <==> In(rs[..k], x) || rs[k].Has(x)
  {
    TakeSnoc(rs, k);
    InSnoc(rs[..k], rs[k]);
  }

  lemma TakeSnoc(rs: seq<PhysRange>, k: nat)
    requires k < |rs|
    ensures rs[..k + 1] == rs[..k] + [rs[k]]
  {
  }

  lemma InAll(rs: seq<PhysRange>)
    ensures rs[..|rs|] == rs && rs[..0] == [] && forall x :: !In(rs[..0], x)
  {
  }

  /** Extending the last range of a normal sequence by one that overlaps or touches it. */
  lemma MergeLast(rs: seq<PhysRange>, r: PhysRange, end: int)
    requires Normal(rs) && rs != [] && rs[|rs| - 1].start <= r.start <= rs[|rs| - 1].end
    requires end == if rs[|rs| - 1].end >= r.end then rs[|rs| - 1].end else r.end
    ensures var ns := rs[|rs| - 1 := Span(rs[|rs| - 1].start, end)];
      Normal(ns) && forall x :: In(ns, x) <==> In(rs, x) || r.Has(x)
  {
    var p, k := rs[|rs| - 1], |rs| - 1;
    var merged := Span(p.start, end);
    assert rs == rs[..k] + [p] && rs[k := merged] == rs[..k] + [merged];
    InSnoc(rs[..k], p);
    InSnoc(rs[..k], merged);
  }

  lemma PushRight(rs: seq<PhysRange>, r: PhysRange)
    requires Normal(rs) && (rs == [] || rs[|rs| - 1].end < r.start)
    ensures Normal(rs + [r]) && forall x :: In(rs + [r], x) <==> In(rs, x) || r.Has(x)
  {
    InSnoc(rs, r);
  }

  /** Merge `range` into the last range if it overlaps or touches it, else append it. */
  method Absorb(normalized: seq<PhysRange>, range: PhysRange) returns (r: seq<PhysRange>)
    requires Normal(normalized) && (normalized == [] || normalized[|normalized| - 1].start <= range.start)
    ensures Normal(r) && r != [] && r[|r| - 1].start <= range.start
    ensures forall x :: In(r, x) <==> In(normalized, x) || range.Has(x)
  {
    if normalized != [] && range.start <= normalized[|normalized| - 1].end {
      var last := |normalized| - 1;
      var previous := normalized[last];
      var end := if previous.end >= range.end then previous.end else range.end;
      MergeLast(normalized, range, end);
      r := normalized[last := Span(previous.start, end)];
    } else {
      PushRight(normalized, range);
      r := normalized + [range];
    }
  }

  /** Sort ranges and merge those which overlap or directly touch. */
  method NormalizeRanges(ranges: seq<PhysRange>) returns (normalized: seq<PhysRange>)
    ensures Normal(normalized) && SameCover(normalized, ranges)
  {
    var sorted := SortByStart(ranges);
    SortIsSortedPermutation(ranges);
    SameElements(sorted, ranges);
    InAll(sorted);
    normalized := [];
    for k := 0 to |sorted|
      invariant Normal(normalized) && SameCover(normalized, sorted[..k])
      invariant normalized != [] ==> k > 0 && normalized[|normalized| - 1].start <= sorted[k - 1].start
    {
      InTake(sorted, k);
      normalized := Absorb(normalized, sorted[k]);
    }
  }

  /** Two inputs covering the same addresses have the same normal form, whatever their order and overlaps. */
  lemma NormalizationDependsOnCoverOnly(a: seq<PhysRange>, na: seq<PhysRange>, b: seq<PhysRange>, nb: seq<PhysRange>)
    requires SameCover(a, b)
    requires Normal(na) && SameCover(na, a) && Normal(nb) && SameCover(nb, b)
    ensures na == nb
  {
    NormalIsCanonical(na, nb);
  }

  // ---------------------------------------------------------------------------------------
  // Usable memory
  // ---------------------------------------------------------------------------------------

  ghost predicate Within(rs: seq<PhysRange>, bounds: PhysRange) {
    forall i :: 0 <= i < |rs| ==> bounds.start <= rs[i].start && rs[i].end <= bounds.end
  }

  /** Appending ranges that start behind everything so far. */
  lemma NormalConcat(a: seq<PhysRange>, b: seq<PhysRange>, e: int)
    requires Normal(a) && Normal(b)
    requires (forall i :: 0 <= i < |a| ==> a[i].end <= e) && (forall j :: 0 <= j < |b| ==> e < b[j].start)
    ensures Normal(a + b) && forall x :: In(a + b, x) <==> In(a, x) || In(b, x)
  {
    InConcat(a, b);
  }

  /** The part of a fragment on either side of a reserved range. */
  function Cut(fragment: PhysRange, reserved: PhysRange): (pieces: seq<PhysRange>)
    ensures Normal(pieces) && Within(pieces, fragment)
    ensures forall x :: In(pieces, x) <==> fragment.Has(x) && !reserved.Has(x)
  {
    if reserved.end <= fragment.start || reserved.start >= fragment.end then
      InSnoc([], fragment);
      [] + [fragment]
    else
      var left := if fragment.start < reserved.start
        then [Span(fragment.start, if reserved.start <= fragment.end then reserved.start else fragment.end)] else [];
      var right := if reserved.end < fragment.end
        then [Span(if reserved.end >= fragment.start then reserved.end else fragment.start, fragment.end)] else [];
      InOne();
      InConcat(left, right);
      left + right
  }

  /** Remove one reserved range from every fragment. */
  method SubtractOne(fragments: seq<PhysRange>, reserved: PhysRange, ghost bounds: PhysRange) returns (next: seq<PhysRange>)
    requires Normal(fragments) && Within(fragments, bounds)
    ensures Normal(next) && Within(next, bounds)
    ensures forall x :: In(next, x) <==> In(fragments, x) && !reserved.Has(x)
  {
    InAll(fragments);
    next := [];
    for k := 0 to |fragments|
      invariant Normal(next) && Within(next, bounds)
      invariant forall x :: In(next, x) <==> In(fragments[..k], x) && !reserved.Has(x)
      invariant forall i :: 0 <= i < |next| ==> k > 0 && next[i].end <= fragments[k - 1].end
    {
      InTake(fragments, k);
      var pieces := Cut(fragments[k], reserved);
      NormalConcat(next, pieces, if k == 0 then fragments[0].start - 1 else fragments[k - 1].end);
      next := next + pieces;
    }
  }

  /** What remains of one memory range after subtracting all reserved ranges. */
  lemma OneFragment(r: PhysRange)
    ensures Normal([r]) && Within([r], r)
  {
  }

  method SubtractAll(memory: PhysRange, reserved: seq<PhysRange>) returns (fragments: seq<PhysRange>)
    ensures Normal(fragments) && forall x :: In(fragments, x) <==> memory.Has(x) && !In(reserved, x)
    ensures Within(fragments, memory)
  {
    hide Normal, Within;
    fragments := [memory];
    OneFragment(memory);
    InAll(reserved);
    InSnoc([], memory);
    assert [] + [memory] == [memory];
    for k := 0 to |reserved|
      invariant Normal(fragments) && Within(fragments, memory)
      invariant forall x :: In(fragments, x) <==> memory.Has(x) && !In(reserved[..k], x)
    {
      InTake(reserved, k);
      fragments := SubtractOne(fragments, reserved[k], memory);
    }
  }

  /** Every byte of the page holding `x` is covered. */
  ghost predicate PageIn(rs: seq<PhysRange>, x: int) {
    forall y :: Page(x) <= y < Page(x) + PAGE_SIZE ==> In(rs, y)
  }

  /** The complete pages inside one fragment. */
  function WholePages(f: PhysRange): (r: Result<PhysRange>)
    ensures r.Ok? ==> r.value.start % PAGE_SIZE == 0 && r.value.end % PAGE_SIZE == 0 && f.start <= r.value.start && r.value.end <= f.end
    ensures forall x :: (r.Ok? && r.value.Has(x)) <==> f.start <= Page(x) && Page(x) + PAGE_SIZE <= f.end
  {
    WholePagesExact(f.start, f.end);
    var start := AlignUp(f.start);
    if start.Err? then Err(AddressOverflow)
    else
      AlignDownIsPage(f.start + (PAGE_SIZE - 1));
      AlignDownIsPage(f.end);
      var end := AlignDown(f.end);
      if start.value < end then Ok(Span(start.value, end)) else Err(EmptyRange)
  }

  lemma WholePagesExact(s: int, e: int)
    ensures var s', e' := Page(s + (PAGE_SIZE - 1)), Page(e); s' % PAGE_SIZE == 0 && e' % PAGE_SIZE == 0 && s <= s' && e' <= e
    ensures forall x :: Page(s + (PAGE_SIZE - 1)) <= x < Page(e) <==> s <= Page(x) && Page(x) + PAGE_SIZE <= e
    ensures s + (PAGE_SIZE - 1) >= TOP > e ==> forall x :: !(s <= Page(x) && Page(x) + PAGE_SIZE <= e)
  {
    forall x ensures Page(s + (PAGE_SIZE - 1)) <= x < Page(e) <==> s <= Page(x) && Page(x) + PAGE_SIZE <= e { WholePage(s, e, x); }
    forall x | s + (PAGE_SIZE - 1) >= TOP > e ensures !(s <= Page(x) && Page(x) + PAGE_SIZE <= e) { WholePage(s, e, x); }
  }

  lemma WholePage(s: int, e: int, x: int)
    ensures Page(s + (PAGE_SIZE - 1)) <= x <==> s <= Page(x)
    ensures x < Page(e) <==> Page(x) + PAGE_SIZE <= e
    ensures s + (PAGE_SIZE - 1) >= TOP > e ==> !(s <= Page(x) && Page(x) + PAGE_SIZE <= e)
  {
  }

  /** Whole pages of a normal sequence are the whole pages of its members. */
  lemma PageInSnoc(rs: seq<PhysRange>, f: PhysRange)
    requires Normal(rs + [f])
    ensures forall x :: PageIn(rs + [f], x) <==> PageIn(rs, x) || (f.start <= Page(x) && Page(x) + PAGE_SIZE <= f.end)
  {
    InSnoc(rs, f);
    forall x ensures PageIn(rs + [f], x) <==> PageIn(rs, x) || (f.start <= Page(x) && Page(x) + PAGE_SIZE <= f.end) {
      if PageIn(rs + [f], x) {
        var i := IntervalInOne(rs + [f], Page(x), Page(x) + PAGE_SIZE);
        if i < |rs| {
          forall y | Page(x) <= y < Page(x) + PAGE_SIZE ensures In(rs, y) { assert rs[i].Has(y); }
        }
      }
    }
  }

  /** The pages of `usable` are exactly the whole pages of `all`, the fragments seen so far. */
  ghost predicate PagesOf(usable: seq<PhysRange>, all: seq<PhysRange>) {
    && Normal(all) && Normal(usable) && PageAligned(usable)
    && (forall x :: In(usable, x) <==> PageIn(all, x))
    && (forall i :: 0 <= i < |usable| ==> all != [] && usable[i].end <= all[|all| - 1].end)
  }

  ghost predicate PageAligned(rs: seq<PhysRange>) {
    forall i :: 0 <= i < |rs| ==> rs[i].start % PAGE_SIZE == 0 && rs[i].end % PAGE_SIZE == 0
  }

  /** Append the whole pages of each fragment. */
  method PushPages(usable: seq<PhysRange>, fragments: seq<PhysRange>, ghost all: seq<PhysRange>) returns (r: seq<PhysRange>)
    requires PagesOf(usable, all) && Normal(all + fragments)
    ensures PagesOf(r, all + fragments)
  {
    r := usable;
    assert all + fragments[..0] == all;
    for k := 0 to |fragments|
      invariant PagesOf(r, all + fragments[..k])
    {
      r := PushFragment(r, fragments[k], all + fragments[..k]) by { assert all + fragments[..k] + [fragments[k]] <= all + fragments; }
      assert all + fragments[..k] + [fragments[k]] == all + fragments[..k + 1];
    }
    assert fragments[..|fragments|] == fragments;
  }

  method PushFragment(usable: seq<PhysRange>, fragment: PhysRange, ghost all: seq<PhysRange>) returns (r: seq<PhysRange>)
    requires PagesOf(usable, all) && Normal(all + [fragment])
    ensures PagesOf(r, all + [fragment])
  {
    PageInSnoc(all, fragment);
    assert all != [] ==> (all + [fragment])[|all| - 1].end < (all + [fragment])[|all|].start;
    var pages := WholePages(fragment);
    r := usable;
    if pages.Ok? {
      InSnoc(usable, pages.value);
      r := usable + [pages.value];
    }
  }

  /** All bytes of the page holding `x` are RAM and none is reserved. */
  ghost predicate UsablePage(memory: seq<PhysRange>, reserved: seq<PhysRange>, x: int) {
    forall y :: Page(x) <= y < Page(x) + PAGE_SIZE ==> In(memory, y) && !In(reserved, y)
  }

  /** Subtract reserved byte ranges from RAM and return only complete pages: a page is in the
      result exactly when it is usable. */
  method UsableMemoryRanges(memory: seq<PhysRange>, reserved: seq<PhysRange>) returns (usable: seq<PhysRange>)
    ensures Normal(usable) && PageAligned(usable)
    ensures forall x :: In(usable, x) <==> UsablePage(memory, reserved, x)
  {
    var mem := NormalizeRanges(memory);
    var res := NormalizeRanges(reserved);
    usable := SubtractNormalized(mem, res);
    assert forall x :: UsablePage(mem, res, x) <==> UsablePage(memory, reserved, x);
    SortNormal(usable);
    usable := SortByStart(usable);
  }

  method SubtractNormalized(mem: seq<PhysRange>, res: seq<PhysRange>) returns (usable: seq<PhysRange>)
    requires Normal(mem)
    ensures Normal(usable) && PageAligned(usable)
    ensures forall x :: In(usable, x) <==> UsablePage(mem, res, x)
  {
    hide Normal, PageAligned, PagesOf, Remaining, UsablePage;
    usable := [];
    ghost var all: seq<PhysRange> := [];
    InAll(mem);
    NoPages(res);
    for k := 0 to |mem|
      invariant PagesOf(usable, all) && Remaining(all, mem[..k], res)
    {
      TakeSnoc(mem, k);
      NormalTake(mem, k + 1);
      usable, all := PushRange(usable, mem[k], res, mem[..k], all);
    }
    ExactPages(usable, all, mem, res);
  }

  /** `all` is what remains of `mem` without `res`. */
  ghost predicate Remaining(all: seq<PhysRange>, mem: seq<PhysRange>, res: seq<PhysRange>) {
    && (forall x :: In(all, x) <==> In(mem, x) && !In(res, x))
    && (forall i :: 0 <= i < |all| ==> mem != [] && all[i].end <= mem[|mem| - 1].end)
  }

  /** Process one more memory range `m` after those in `mem`. */
  method PushRange(usable: seq<PhysRange>, m: PhysRange, res: seq<PhysRange>, ghost mem: seq<PhysRange>, ghost all: seq<PhysRange>)
    returns (r: seq<PhysRange>, ghost all': seq<PhysRange>)
    requires PagesOf(usable, all) && Remaining(all, mem, res) && Normal(mem + [m])
    ensures PagesOf(r, all') && Remaining(all', mem + [m], res)
  {
    var fragments := SubtractAll(m, res);
    all' := Extend(all, fragments, mem, m, res);
    r := PushPages(usable, fragments, all);
  }

  lemma Extend(all: seq<PhysRange>, fragments: seq<PhysRange>, mem: seq<PhysRange>, m: PhysRange, res: seq<PhysRange>)
    returns (all': seq<PhysRange>)
    requires Normal(all) && Remaining(all, mem, res) && Normal(mem + [m])
    requires Normal(fragments) && Within(fragments, m) && forall x :: In(fragments, x) <==> m.Has(x) && !In(res, x)
    ensures all' == all + fragments && Normal(all') && Remaining(all', mem + [m], res)
  {
    all' := all + fragments;
    InSnoc(mem, m);
    var ms := mem + [m];
    assert mem != [] ==> ms[|mem| - 1].end < ms[|mem|].start;
    NormalConcat(all, fragments, m.start - 1);
  }

  lemma NormalTake(rs: seq<PhysRange>, k: nat)
    requires Normal(rs) && k <= |rs|
    ensures Normal(rs[..k])
  {
  }

  lemma NoPages(res: seq<PhysRange>)
    ensures PagesOf([], []) && Remaining([], [], res)
  {
    forall x ensures !PageIn([], x) { assert !In([], Page(x)); }
  }

  lemma ExactPages(usable: seq<PhysRange>, all: seq<PhysRange>, memory: seq<PhysRange>, reserved: seq<PhysRange>)
    requires PagesOf(usable, all) && Remaining(all, memory, reserved)
    ensures Normal(usable) && PageAligned(usable) && forall x :: In(usable, x) <==> UsablePage(memory, reserved, x)
  {
    forall x ensures PageIn(all, x) <==> UsablePage(memory, reserved, x) {}
  }

  lemma InConcat(a: seq<PhysRange>, b: seq<PhysRange>)
    ensures forall x :: In(a + b, x) <==> In(a, x) || In(b, x)
  {
    forall x ensures In(a + b, x) <==> In(a, x) || In(b, x) {
      if In(a, x) { var i :| 0 <= i < |a| && a[i].Has(x); assert (a + b)[i].Has(x); }
      if In(b, x) { var i :| 0 <= i < |b| && b[i].Has(x); assert (a + b)[|a| + i].Has(x); }
    }
  }
}
