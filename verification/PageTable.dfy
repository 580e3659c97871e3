/** Sv39 page tables (section 4.4 of the RISC-V Privileged Architecture): three levels of 512
    entries, intermediate tables allocated on demand. */
module PageTables {
  import opened Guards
  import opened Bits
  import opened FrameAllocator

  const PAGE: nat := 4096
  const ENTRIES: nat := 512

  // ---------------------------------------------------------------------------------------
  // Virtual addresses
  // ---------------------------------------------------------------------------------------

  /** The three table indices of a virtual address, which name a page. */
  datatype Key = Key(l2: int, l1: int, l0: int) {
    predicate Valid() { 0 <= l2 < ENTRIES && 0 <= l1 < ENTRIES && 0 <= l0 < ENTRIES }
  }

  /** Addresses the MMU accepts: 39 bits, sign-extended to 64. */
  predicate SignExtended(va: nat) { va < 0x40_0000_0000 || 0xFFFF_FFC0_0000_0000 <= va < 0x1_0000_0000_0000_0000 }

  function Vpn(va: nat, level: nat): nat
    requires level <= 2
  {
    And(Shr(va, 12 + 9 * level), 0x1FF)
  }

  /** The digits of an address in base 512, above its page offset. */
  function Digits(va: nat): Key {
    Key(va / 0x4000_0000 % 512, va / 0x20_0000 % 512, va / 4096 % 512)
  }

  ghost predicate IsKey(k: Key, va: nat) {
    forall n {:trigger Open(OnKeys, n)} :: Open(OnKeys, n) ==> k == Digits(va)
  }

  /** The page of an address: its `Digits`, whose arithmetic is shown only where `KeyDigits` asks for it. */
  ghost function KeyOf(va: nat): Key {
    assert IsKey(Digits(va), va);
    var k :| IsKey(k, va);
    k
  }

  lemma KeyDigits(va: nat)
    ensures KeyOf(va) == Digits(va) && KeyOf(va).Valid()
  {
    assert Open(OnKeys, 0);
  }

  function Offset(va: nat): nat { And(va, 0xFFF) }

  /** `(l2 << 30) | (l1 << 21) | (l0 << 12) | offset` */
  function FromParts(l2: nat, l1: nat, l0: nat, offset: nat): nat {
    Or(Or(Or(Shl(l2, 30), Shl(l1, 21)), Shl(l0, 12)), offset)
  }

  /** Shifting and masking extracts exactly these digits. */
  lemma VpnIsDigit(va: nat)
    ensures Key(Vpn(va, 2), Vpn(va, 1), Vpn(va, 0)) == KeyOf(va) == Digits(va) && Offset(va) == va % 4096
  {
    KeyDigits(va);
    Pow2Values();
    ShrIsDiv(va, 30, 0x4000_0000);
    ShrIsDiv(va, 21, 0x20_0000);
    ShrIsDiv(va, 12, 4096);
    MaskLow(va / 0x4000_0000, 9, 512);
    MaskLow(va / 0x20_0000, 9, 512);
    MaskLow(va / 4096, 9, 512);
    MaskLow(va, 12, 4096);
  }

  lemma FromPartsIsSum(l2: nat, l1: nat, l0: nat, offset: nat)
    requires l1 < 512 && l0 < 512 && offset < 4096
    ensures FromParts(l2, l1, l0, offset) == l2 * 0x4000_0000 + l1 * 0x20_0000 + l0 * 4096 + offset
  {
    hide Or, Shl;
    ShiftSums(l2, l1, l0);
    OrShifted(l2, l1 * 0x20_0000, 30, 0x4000_0000) by { Pow2Values(); }
    OrShifted(l2 * 512 + l1, l0 * 4096, 21, 0x20_0000) by { Pow2Values(); }
    OrShifted((l2 * 512 + l1) * 512 + l0, offset, 12, 4096) by { Pow2Values(); }
  }

  lemma ShiftSums(l2: nat, l1: nat, l0: nat)
    ensures Shl(l2, 30) == l2 * 0x4000_0000 && Shl(l1, 21) == l1 * 0x20_0000 && Shl(l0, 12) == l0 * 4096
  {
    Pow2Values();
    ShlIsMul(l2, 30, 0x4000_0000);
    ShlIsMul(l1, 21, 0x20_0000);
    ShlIsMul(l0, 12, 4096);
  }

  lemma OrShifted(a: nat, f: nat, k: nat, m: nat)
    requires m == Pow2(k) && f < m
    ensures Or(a * m, f) == a * m + f
  {
    OrDisjoint(a, f, k);
  }

  /** The parts come back out of the address they were put into ... */
  lemma PartsRoundTrip(l2: nat, l1: nat, l0: nat, offset: nat, va: nat)
    requires l2 < 512 && l1 < 512 && l0 < 512 && offset < 4096 && va == FromParts(l2, l1, l0, offset)
    ensures Vpn(va, 2) == l2 && Vpn(va, 1) == l1 && Vpn(va, 0) == l0 && Offset(va) == offset
  {
    hide FromParts, Vpn, Offset;
    FromPartsIsSum(l2, l1, l0, offset);
    SumDigits(l2, l1, l0, offset);
    VpnIsDigit(va);
  }

  lemma SumDigits(l2: nat, l1: nat, l0: nat, o: nat)
    requires l2 < 512 && l1 < 512 && l0 < 512 && o < 4096
    ensures var va := l2 * 0x4000_0000 + l1 * 0x20_0000 + l0 * 4096 + o;
      va / 0x4000_0000 % 512 == l2 && va / 0x20_0000 % 512 == l1 && va / 4096 % 512 == l0 && va % 4096 == o
  {
    var va := l2 * 0x4000_0000 + l1 * 0x20_0000 + l0 * 4096 + o;
    DivModUnique(va, 4096, l2 * 262144 + l1 * 512 + l0, o);
    DivModUnique(va, 0x20_0000, l2 * 512 + l1, l0 * 4096 + o);
    DivModUnique(va, 0x4000_0000, l2, l1 * 0x20_0000 + l0 * 4096 + o);
    DivModUnique(l2 * 262144 + l1 * 512 + l0, 512, l2 * 512 + l1, l0);
    DivModUnique(l2 * 512 + l1, 512, l2, l1);
  }

  /** ... and an address is rebuilt from its parts up to its 25 unused high bits. */
  lemma AddressRoundTrip(va: nat)
    ensures FromParts(Vpn(va, 2), Vpn(va, 1), Vpn(va, 0), Offset(va)) == va % 0x80_0000_0000
  {
    VpnIsDigit(va);
    FromPartsIsSum(va / 0x4000_0000 % 512, va / 0x20_0000 % 512, va / 4096 % 512, va % 4096);
    DigitSum(va);
  }

  lemma DigitSum(va: nat)
    ensures va / 0x4000_0000 % 512 * 0x4000_0000 + va / 0x20_0000 % 512 * 0x20_0000 + va / 4096 % 512 * 4096 + va % 4096
         == va % 0x80_0000_0000
  {
    var p := va / 4096;
    var q := p / 512;
    var r := q / 512;
    assert va == p * 4096 + va % 4096 && p == q * 512 + p % 512 && q == r * 512 + q % 512 && r == r / 512 * 512 + r % 512;
    DivModUnique(va, 0x20_0000, q, p % 512 * 4096 + va % 4096);
    DivModUnique(va, 0x4000_0000, r, q % 512 * 0x20_0000 + p % 512 * 4096 + va % 4096);
    DivModUnique(va, 0x80_0000_0000, r / 512, r % 512 * 0x4000_0000 + q % 512 * 0x20_0000 + p % 512 * 4096 + va % 4096);
  }

  /** Two addresses with the same key lie on the same page of the 2^39-byte address space. */
  lemma KeyInjective(a: nat, b: nat)
    requires KeyOf(a) == KeyOf(b)
    ensures a % 0x80_0000_0000 / 4096 == b % 0x80_0000_0000 / 4096
  {
    KeyDigits(a);
    KeyDigits(b);
    PageDigits(a);
    PageDigits(b);
  }

  lemma PageDigits(va: nat)
    ensures va % 0x80_0000_0000 / 4096 == (va / 0x4000_0000 % 512 * 512 + va / 0x20_0000 % 512) * 512 + va / 4096 % 512
  {
    DigitSum(va);
  }

  // ---------------------------------------------------------------------------------------
  // Entries
  // ---------------------------------------------------------------------------------------

  const VALID: nat := 1

  function NewLeaf(addr: nat, flags: nat): nat { Or(Or(Shl(Shr(addr, 12), 10), flags), VALID) }
  /** The entry `NewLeaf` computes, in arithmetic form. */
  function LeafOf(addr: nat, flags: nat): nat { addr / 4096 * 1024 + (if flags % 2 == 1 then flags else flags + 1) }

  function NewBranch(addr: nat): nat { Or(Shl(Shr(addr, 12), 10), VALID) }
  predicate IsValid(e: nat) { And(e, VALID) == VALID }
  predicate IsLeaf(e: nat) { And(e, 14) != 0 }  // READ | WRITE | EXECUTE
  function Ppn(e: nat): nat { Shl(Shr(e, 10), 12) }

  lemma EntryArithmetic(e: nat)
    ensures IsValid(e) <==> e % 2 == 1
    ensures IsLeaf(e) <==> e / 2 % 8 != 0
    ensures Ppn(e) == e / 1024 * 4096
  {
    Pow2Values();
    MaskLow(e, 1, 2);
    ShrIsDiv(e, 10, 1024);
    ShlIsMul(e / 1024, 12, 4096);
    AndEven(e, 7);
    MaskLow(e / 2, 3, 8);
  }

  lemma LeafFacts(addr: nat, flags: nat)
    requires flags < 1024
    ensures var e := LeafOf(addr, flags);
      && e == NewLeaf(addr, flags) && IsValid(e) && Ppn(e) == addr / PAGE * PAGE && (IsLeaf(e) <==> IsLeaf(flags))
      && e % 1024 == (if flags % 2 == 1 then flags else flags + 1)
  {
    hide IsValid, IsLeaf, Ppn, NewLeaf;
    var p, f := addr / 4096, if flags % 2 == 1 then flags else flags + 1;
    assert LeafOf(addr, flags) == p * 1024 + f;
    LeafValue(addr, flags);
    EntryArithmetic(LeafOf(addr, flags));
    EntryArithmetic(flags);
    EntryDigits(p, f);
  }

  lemma LeafPermits(addr: nat, flags: nat)
    requires flags < 1024
    ensures Permits(LeafOf(addr, flags)) <==> Permits(flags)
  {
    hide IsLeaf;
    LeafFacts(addr, flags);
    EntryArithmetic(LeafOf(addr, flags));
    EntryArithmetic(flags);
  }

  /** What an entry allows, by the permission bits of the privileged architecture. */
  datatype Access = Access(read: bool, write: bool, execute: bool, user: bool)

  function Rights(e: nat): Access { Access(And(e, 2) != 0, And(e, 4) != 0, And(e, 8) != 0, And(e, 16) != 0) }

  lemma RightsAreBits(e: nat)
    ensures Rights(e) == Access(Bit(e, 1), Bit(e, 2), Bit(e, 3), Bit(e, 4))
  {
    assert Pow2(1) == 2 && Pow2(2) == 4 && Pow2(3) == 8 && Pow2(4) == 16;
    hide And, Bit, Pow2;
    AndPow2(e, 1);
    AndPow2(e, 2);
    AndPow2(e, 3);
    AndPow2(e, 4);
  }

  /** A leaf allows what its flags say. */
  lemma LeafRights(addr: nat, flags: nat)
    requires flags < 1024
    ensures Rights(LeafOf(addr, flags)) == Rights(flags)
  {
    hide Rights;
    RightsAreBits(LeafOf(addr, flags));
    RightsAreBits(flags);
    LeafBit(addr, flags, 1);
    LeafBit(addr, flags, 2);
    LeafBit(addr, flags, 3);
    LeafBit(addr, flags, 4);
  }

  lemma LeafBit(addr: nat, flags: nat, k: nat)
    requires flags < 1024 && 0 < k < 10
    ensures Bit(LeafOf(addr, flags), k) <==> Bit(flags, k)
  {
    var f := if flags % 2 == 1 then flags else flags + 1;
    assert f / 2 == flags / 2;
    Pow2Values();
    BitOfSum(f, addr / 4096, 10, 1024, k);
  }

  /** The MMU takes the page to the one at `phys`, allowing just `a`. */
  ghost predicate Grants(w: Walked, phys: int, a: Access) {
    w.Leaf? && w.level == 0 && w.entry % 2 == 1 && w.entry / 1024 * 4096 == phys && Rights(w.entry) == a
  }

  /** What is mapped is granted. */
  lemma MappedGrants(root: Table, mem: Frames, s: Shape, k: Key, phys: nat, flags: nat)
    requires Rep(root, mem, s) && k.Valid() && k in s.mapped && s.mapped[k] == LeafOf(phys, flags)
    requires flags < 1024 && Permits(flags)
    ensures Grants(Walk(root, mem, k), phys / 4096 * 4096, Rights(flags))
  {
    hide Rep, Walk, Rights, Permits;
    WalkIsMapping(root, mem, s, k);
    LeafPermits(phys, flags);
    LeafRights(phys, flags);
    EntryDigits(phys / 4096, if flags % 2 == 1 then flags else flags + 1);
  }

  lemma EntryDigits(p: nat, f: nat)
    requires f < 1024
    ensures var e := p * 1024 + f; e / 1024 == p && e % 1024 == f && e % 2 == f % 2 && e / 2 % 8 == f / 2 % 8
  {
    var e, h := p * 1024 + f, f / 2;
    DivModUnique(e, 1024, p, f);
    DivModUnique(e, 2, p * 512 + h, f % 2);
    DivModUnique(p * 512 + h, 8, p * 64 + h / 8, h % 8);
  }

  lemma LeafValue(addr: nat, flags: nat)
    requires flags < 1024
    ensures NewLeaf(addr, flags) == LeafOf(addr, flags)
  {
    PpnField(addr);
    OrShifted(addr / 4096, flags, 10, 1024) by { Pow2Values(); }
    SetLowBit(addr / 4096 * 1024 + flags);
  }

  lemma PpnField(addr: nat)
    ensures Shl(Shr(addr, 12), 10) == addr / 4096 * 1024
  {
    Pow2Values();
    ShrIsDiv(addr, 12, 4096);
    ShlIsMul(addr / 4096, 10, 1024);
  }

  lemma SetLowBit(x: nat)
    ensures Or(x, 1) == if x % 2 == 1 then x else x + 1
  {
    if x > 0 {
      OrZero(x / 2);
      assert 1 / 2 == 0;
    }
  }

  // ---------------------------------------------------------------------------------------
  // The three-level walk
  // ---------------------------------------------------------------------------------------

  type Table = t: seq<nat> | |t| == ENTRIES witness seq(ENTRIES, _ => 0)

  /** Tables in physical memory, by frame address. */
  type Frames = map<int, Table>

  datatype Walked = Fault | Leaf(entry: nat, level: nat)

  /** What the MMU finds for a page: it follows branch entries and stops at a leaf. */
  function Walk(root: Table, mem: Frames, k: Key): Walked
    requires k.Valid()
  {
    var e2 := root[k.l2];
    if !IsValid(e2) then Fault
    else if IsLeaf(e2) then Leaf(e2, 2)
    else if Ppn(e2) !in mem then Fault
    else
      var e1 := mem[Ppn(e2)][k.l1];
      if !IsValid(e1) then Fault
      else if IsLeaf(e1) then Leaf(e1, 1)
      else if Ppn(e1) !in mem then Fault
      else
        var e0 := mem[Ppn(e1)][k.l0];
        if IsValid(e0) && IsLeaf(e0) then Leaf(e0, 0) else Fault
  }

  // ---------------------------------------------------------------------------------------
  // Representation of a set of mappings
  // ---------------------------------------------------------------------------------------

  datatype Key2 = Key2(l2: int, l1: int)

  /** Where the tables are: `l1` by L2 index, `l0` by L2 and L1 index; and what is mapped. */
  datatype Shape = Shape(l1: map<int, int>, l0: map<Key2, int>, mapped: map<Key, nat>)

  // The entry tests in arithmetic form (see `EntryArithmetic` and `BranchIs`).
  predicate Present(e: int) { e % 2 == 1 }
  predicate Permits(e: int) { e / 2 % 8 != 0 }
  function Branch(a: int): int { a / 4096 * 1024 + 1 }
  predicate Aligned(a: int) { a >= 0 && a % PAGE == 0 }

  ghost predicate RootOk(root: Table, l1: map<int, int>) {
    forall i :: 0 <= i < ENTRIES ==> if i in l1 then root[i] == Branch(l1[i]) else !Present(root[i])
  }

  ghost predicate MidOk(mem: Frames, l1: map<int, int>, l0: map<Key2, int>) {
    && (forall i :: i in l1 ==> 0 <= i < ENTRIES && l1[i] in mem && Aligned(l1[i]))
    && (forall i, j :: i in l1 && 0 <= j < ENTRIES ==>
          if Key2(i, j) in l0 then mem[l1[i]][j] == Branch(l0[Key2(i, j)]) else !Present(mem[l1[i]][j]))
  }

  ghost predicate LowOk(mem: Frames, l0: map<Key2, int>, mapped: map<Key, nat>) {
    && (forall p :: p in l0 ==> 0 <= p.l1 < ENTRIES && l0[p] in mem && Aligned(l0[p]))
    && (forall p, h :: p in l0 && 0 <= h < ENTRIES ==>
          if Key(p.l2, p.l1, h) in mapped then mem[l0[p]][h] == mapped[Key(p.l2, p.l1, h)] else !Present(mem[l0[p]][h]))
  }

  ghost predicate Nested(s: Shape) {
    && (forall p :: p in s.l0 ==> p.l2 in s.l1)
    && (forall k :: k in s.mapped ==> k.Valid() && Key2(k.l2, k.l1) in s.l0 && Present(s.mapped[k]))
  }

  ghost predicate Injective<K(!new)>(m: map<K, int>) {
    forall x, y :: x in m && y in m && m[x] == m[y] ==> x == y
  }

  lemma InjectiveAdd<K(!new)>(m: map<K, int>, k: K, v: int)
    requires Injective(m) && v !in m.Values
    ensures Injective(m[k := v])
  {
  }

  /** No frame serves as two tables. */
  ghost predicate Distinct(l1: map<int, int>, l0: map<Key2, int>) {
    && Injective(l1) && Injective(l0)
    && (forall i, p :: i in l1 && p in l0 ==> l1[i] != l0[p])
  }

  /** The tables represent `s`.  The clauses are guarded by `OnTables` so that proofs which only pass
      the invariant along do not have to look at them. */
  ghost predicate Rep(root: Table, mem: Frames, s: Shape) {
    forall n {:trigger Open(OnTables, n)} :: Open(OnTables, n) ==> Clauses(root, mem, s)
  }

  ghost predicate Clauses(root: Table, mem: Frames, s: Shape) {
    && RootOk(root, s.l1) && MidOk(mem, s.l1, s.l0) && LowOk(mem, s.l0, s.mapped)
    && Nested(s) && Distinct(s.l1, s.l0)
    && mem.Keys == s.l1.Values + s.l0.Values
  }

  lemma BranchIs(a: nat)
    requires a % PAGE == 0
    ensures NewBranch(a) == Branch(a)
  {
    PpnField(a);
    OrShifted(a / 4096, 1, 10, 1024) by { Pow2Values(); }
  }

  lemma RootEntry(root: Table, l1: map<int, int>, i: nat)
    requires RootOk(root, l1) && i < ENTRIES
    ensures IsValid(root[i]) <==> i in l1
  {
    EntryArithmetic(root[i]);
    if i in l1 { BranchPresent(l1[i]); }
  }

  lemma LowEntry(mem: Frames, s: Shape, k: Key)
    requires LowOk(mem, s.l0, s.mapped) && k.Valid() && Key2(k.l2, k.l1) in s.l0 && k !in s.mapped
    ensures s.l0[Key2(k.l2, k.l1)] in mem && !IsValid(mem[s.l0[Key2(k.l2, k.l1)]][k.l0])
  {
    var p := Key2(k.l2, k.l1);
    assert k == Key(p.l2, p.l1, k.l0);
    EntryArithmetic(mem[s.l0[p]][k.l0]);
  }

  /** Following a branch entry of the root, and testing the entry it leads to. */
  lemma MidEntry(root: Table, mem: Frames, s: Shape, p: Key2)
    requires Clauses(root, mem, s) && p.l2 in s.l1 && 0 <= p.l1 < ENTRIES
    ensures Ppn(root[p.l2]) == s.l1[p.l2] && s.l1[p.l2] in mem
    ensures IsValid(mem[s.l1[p.l2]][p.l1]) <==> p in s.l0
    ensures p in s.l0 ==> Ppn(mem[s.l1[p.l2]][p.l1]) == s.l0[p] && s.l0[p] in mem
  {
    BranchEntry(s.l1[p.l2]);
    EntryArithmetic(root[p.l2]);
    assert p == Key2(p.l2, p.l1);
    EntryArithmetic(mem[s.l1[p.l2]][p.l1]);
    if p in s.l0 { BranchEntry(s.l0[p]); }
  }

  /** The walk computes exactly the mapping; an entry without permissions is no leaf, so the walk faults on it. */
  lemma WalkIsMapping(root: Table, mem: Frames, s: Shape, k: Key)
    requires Rep(root, mem, s) && k.Valid()
    ensures Walk(root, mem, k) == if k in s.mapped && Permits(s.mapped[k]) then Leaf(s.mapped[k], 0) else Fault
  {
    assert Open(OnTables, 0);
    var p := Key2(k.l2, k.l1);
    var e2 := root[k.l2];
    EntryArithmetic(e2);
    if k.l2 in s.l1 {
      BranchEntry(s.l1[k.l2]);
      var e1 := mem[s.l1[k.l2]][k.l1];
      EntryArithmetic(e1);
      if p in s.l0 {
        BranchEntry(s.l0[p]);
        EntryArithmetic(mem[s.l0[p]][k.l0]);
        assert k == Key(p.l2, p.l1, k.l0);
      }
    }
  }

  lemma BranchPresent(a: int)
    ensures Present(Branch(a))
  {
    Bits.DivModUnique(Branch(a), 2, a / 4096 * 512, 1);
  }

  lemma BranchEntry(a: int)
    requires Aligned(a)
    ensures var e := Branch(a); e % 2 == 1 && e / 2 % 8 == 0 && e / 1024 * 4096 == a
  {
    EntryDigits(a / 4096, 1);
  }

  lemma ValuesAdd<K>(m: map<K, int>, k: K, v: int)
    requires k !in m
    ensures m[k := v].Values == m.Values + {v}
  {
    var m' := m[k := v];
    forall x ensures x in m'.Values <==> x in m.Values + {v} {
      if x in m.Values { var y :| y in m && m[y] == x; assert m'[y] == x; }
      if x == v { assert m'[k] == v; }
    }
  }

  lemma FreshFrame(mem: Frames, s: Shape, f: int)
    requires mem.Keys == s.l1.Values + s.l0.Values && f !in mem
    ensures (forall i :: i in s.l1 ==> s.l1[i] != f) && (forall p :: p in s.l0 ==> s.l0[p] != f)
  {
    forall i | i in s.l1 ensures s.l1[i] != f { assert s.l1[i] in s.l1.Values; }
    forall p | p in s.l0 ensures s.l0[p] != f { assert s.l0[p] in s.l0.Values; }
  }

  function Zeros(): Table { seq(ENTRIES, _ => 0) }

  /** Hang a zeroed table below root entry `i`. */
  lemma AddMid(root: Table, mem: Frames, s: Shape, i: int, f: int)
    requires Clauses(root, mem, s) && 0 <= i < ENTRIES && i !in s.l1 && f !in mem && Aligned(f)
    ensures Clauses(root[i := Branch(f)], mem[f := Zeros()], s.(l1 := s.l1[i := f]))
  {
    hide MidOk, LowOk;
    FreshFrame(mem, s, f);
    ValuesAdd(s.l1, i, f);
    InjectiveAdd(s.l1, i, f);
    AddMidMid(mem, s, i, f);
    FrameLow(mem, mem[f := Zeros()], s.l0, s.mapped, f);
  }

  lemma AddMidMid(mem: Frames, s: Shape, i: int, f: int)
    requires MidOk(mem, s.l1, s.l0) && Nested(s) && 0 <= i < ENTRIES && i !in s.l1 && f !in mem && Aligned(f)
    ensures MidOk(mem[f := Zeros()], s.l1[i := f], s.l0)
  {
    assert forall j :: Key2(i, j) !in s.l0;
  }

  /** Tables other than `t` are not affected by writing `t`. */
  lemma FrameLow(mem: Frames, mem': Frames, l0: map<Key2, int>, mapped: map<Key, nat>, t: int)
    requires LowOk(mem, l0, mapped) && forall p :: p in l0 ==> l0[p] != t
    requires forall a :: a in mem && a != t ==> a in mem' && mem'[a] == mem[a]
    ensures LowOk(mem', l0, mapped)
  {
  }

  lemma FrameMid(mem: Frames, mem': Frames, l1: map<int, int>, l0: map<Key2, int>, t: int)
    requires MidOk(mem, l1, l0) && forall i :: i in l1 ==> l1[i] != t
    requires forall a :: a in mem && a != t ==> a in mem' && mem'[a] == mem[a]
    ensures MidOk(mem', l1, l0)
  {
  }

  /** Hang a zeroed table below entry `p.l1` of an existing L1 table. */
  lemma AddLow(root: Table, mem: Frames, s: Shape, p: Key2, f: int)
    requires Clauses(root, mem, s) && p.l2 in s.l1 && 0 <= p.l1 < ENTRIES && p !in s.l0 && f !in mem && Aligned(f)
    ensures var t := s.l1[p.l2];
      Clauses(root, mem[f := Zeros()][t := mem[t][p.l1 := Branch(f)]], s.(l0 := s.l0[p := f]))
  {
    var t := s.l1[p.l2];
    FreshFrame(mem, s, f);
    AddLowShape(mem, s, p, f);
    var mem1 := mem[f := Zeros()];
    AddLowMid(mem, s.l1, s.l0, p, f);
    AddLowLow(mem, s, p, f);
    FrameLow(mem1, mem1[t := mem[t][p.l1 := Branch(f)]], s.l0[p := f], s.mapped, t);
  }

  lemma AddLowShape(mem: Frames, s: Shape, p: Key2, f: int)
    requires Nested(s) && Distinct(s.l1, s.l0) && mem.Keys == s.l1.Values + s.l0.Values
    requires p.l2 in s.l1 && 0 <= p.l1 < ENTRIES && p !in s.l0 && f !in mem
    ensures Nested(s.(l0 := s.l0[p := f])) && Distinct(s.l1, s.l0[p := f])
    ensures mem.Keys + {f} == s.l1.Values + s.l0[p := f].Values
  {
    FreshFrame(mem, s, f);
    ValuesAdd(s.l0, p, f);
    InjectiveAdd(s.l0, p, f);
  }

  lemma AddLowMid(mem: Frames, l1: map<int, int>, l0: map<Key2, int>, p: Key2, f: int)
    requires MidOk(mem, l1, l0) && p.l2 in l1 && 0 <= p.l1 < ENTRIES && p !in l0 && f !in mem && Aligned(f)
    requires Injective(l1)
    ensures var t := l1[p.l2]; MidOk(mem[f := Zeros()][t := mem[t][p.l1 := Branch(f)]], l1, l0[p := f])
  {
    var t := l1[p.l2];
    var mem', l0' := mem[f := Zeros()][t := mem[t][p.l1 := Branch(f)]], l0[p := f];
    forall i, j | i in l1 && 0 <= j < ENTRIES
      ensures if Key2(i, j) in l0' then mem'[l1[i]][j] == Branch(l0'[Key2(i, j)]) else !Present(mem'[l1[i]][j])
    {
      assert if Key2(i, j) in l0 then mem[l1[i]][j] == Branch(l0[Key2(i, j)]) else !Present(mem[l1[i]][j]);
    }
  }

  lemma AddLowLow(mem: Frames, s: Shape, p: Key2, f: int)
    requires LowOk(mem, s.l0, s.mapped) && Nested(s) && 0 <= p.l1 < ENTRIES && p !in s.l0 && f !in mem && Aligned(f)
    ensures LowOk(mem[f := Zeros()], s.l0[p := f], s.mapped)
  {
    assert forall h :: Key(p.l2, p.l1, h) !in s.mapped;
  }

  /** Write a leaf into an existing L0 table. */
  lemma AddLeaf(root: Table, mem: Frames, s: Shape, k: Key, e: nat)
    requires Clauses(root, mem, s) && k.Valid() && Key2(k.l2, k.l1) in s.l0 && Present(e)
    ensures var t := s.l0[Key2(k.l2, k.l1)];
      Clauses(root, mem[t := mem[t][k.l0 := e]], s.(mapped := s.mapped[k := e]))
  {
    hide MidOk, LowOk;
    var t := s.l0[Key2(k.l2, k.l1)];
    FrameMid(mem, mem[t := mem[t][k.l0 := e]], s.l1, s.l0, t);
    AddLeafLow(mem, s.l0, s.mapped, k, e);
  }

  lemma AddLeafLow(mem: Frames, l0: map<Key2, int>, mapped: map<Key, nat>, k: Key, e: nat)
    requires LowOk(mem, l0, mapped) && k.Valid() && Key2(k.l2, k.l1) in l0
    requires Injective(l0)
    ensures var t := l0[Key2(k.l2, k.l1)]; LowOk(mem[t := mem[t][k.l0 := e]], l0, mapped[k := e])
  {
    var t := l0[Key2(k.l2, k.l1)];
    var mem', mapped' := mem[t := mem[t][k.l0 := e]], mapped[k := e];
    forall p, h | p in l0 && 0 <= h < ENTRIES
      ensures if Key(p.l2, p.l1, h) in mapped' then mem'[l0[p]][h] == mapped'[Key(p.l2, p.l1, h)] else !Present(mem'[l0[p]][h])
    {
      assert if Key(p.l2, p.l1, h) in mapped then mem[l0[p]][h] == mapped[Key(p.l2, p.l1, h)] else !Present(mem[l0[p]][h]);
    }
  }

  // ---------------------------------------------------------------------------------------
  // Counting tables
  // ---------------------------------------------------------------------------------------

  ghost function L2s(ks: set<Key>): set<int> { set k | k in ks :: k.l2 }
  ghost function Pairs(ks: set<Key>): set<Key2> { set k | k in ks :: Key2(k.l2, k.l1) }

  /** The number of intermediate tables a set of pages needs. */
  ghost function TableCount(ks: set<Key>): nat { |L2s(ks)| + |Pairs(ks)| }

  /** There is no table that no page needs. */
  ghost predicate Tight(s: Shape) {
    s.l1.Keys == L2s(s.mapped.Keys) && s.l0.Keys == Pairs(s.mapped.Keys)
  }

  lemma TightAdd(s: Shape, s': Shape, k: Key)
    requires Tight(s) && s'.mapped.Keys == s.mapped.Keys + {k}
    requires s'.l1.Keys == s.l1.Keys + {k.l2} && s'.l0.Keys == s.l0.Keys + {Key2(k.l2, k.l1)}
    ensures Tight(s')
  {
  }

  /** Mapping one more page takes exactly the tables `Needed` counts. */
  lemma NeededIsIncrement(s: Shape, k: Key)
    requires Tight(s)
    ensures TableCount(s.mapped.Keys + {k}) == TableCount(s.mapped.Keys) + Needed(s, k)
  {
    AddPage(s.mapped.Keys, k);
    AddSize(L2s(s.mapped.Keys), k.l2);
    AddSize(Pairs(s.mapped.Keys), Key2(k.l2, k.l1));
  }

  lemma AddPage(ks: set<Key>, k: Key)
    ensures L2s(ks + {k}) == L2s(ks) + {k.l2} && Pairs(ks + {k}) == Pairs(ks) + {Key2(k.l2, k.l1)}
  {
  }

  lemma AddSize<T>(a: set<T>, x: T)
    ensures |a + {x}| == |a| + if x in a then 0 else 1
  {
    if x in a { assert a + {x} == a; }
  }

  lemma TableCountMonotone(a: set<Key>, b: set<Key>)
    requires a <= b
    ensures TableCount(a) <= TableCount(b)
  {
    SubsetSize(L2s(a), L2s(b));
    SubsetSize(Pairs(a), Pairs(b));
  }

  lemma SubsetSize<T>(a: set<T>, b: set<T>)
    requires a <= b
    ensures |a| <= |b|
  {
    assert b == a + (b - a);
  }

  lemma {:induction false} InjectiveSize<K(!new)>(m: map<K, int>)
    requires Injective(m)
    ensures |m.Values| == |m.Keys|
    decreases |m.Keys|
  {
    if m != map[] {
      var k :| k in m;
      var m' := m - {k};
      assert m'.Keys == m.Keys - {k};
      InjectiveSize(m');
      assert k !in m' && m == m'[k := m[k]];
      ValuesAdd(m', k, m[k]);
      assert m[k] !in m'.Values;
    }
  }

  lemma DistinctSize(l1: map<int, int>, l0: map<Key2, int>)
    requires Distinct(l1, l0)
    ensures |l1.Values + l0.Values| == |l1.Keys| + |l0.Keys|
  {
    InjectiveSize(l1);
    InjectiveSize(l0);
    ValuesDisjoint(l1, l0);
    DisjointSize(l1.Values, l0.Values);
  }

  lemma DisjointSize(a: set<int>, b: set<int>)
    requires a !! b
    ensures |a + b| == |a| + |b|
  {
  }

  lemma ValuesDisjoint(l1: map<int, int>, l0: map<Key2, int>)
    requires forall i, p :: i in l1 && p in l0 ==> l1[i] != l0[p]
    ensures l1.Values !! l0.Values
  {
    forall x | x in l1.Values ensures x !in l0.Values {
      var i := KeyFor(l1, x);
      NotValue(l0, x);
    }
  }

  lemma KeyFor<K>(m: map<K, int>, x: int) returns (k: K)
    requires x in m.Values
    ensures k in m && m[k] == x
  {
    k :| k in m && m[k] == x;
  }

  lemma NotValue(m: map<Key2, int>, x: int)
    requires forall p :: p in m ==> m[p] != x
    ensures x !in m.Values
  {
  }

  /** Frames in use are exactly the distinct L2 indices plus the distinct (L2, L1) pairs mapped. */
  lemma TablesAreMinimal(root: Table, mem: Frames, s: Shape)
    requires Rep(root, mem, s) && Tight(s)
    ensures |mem.Keys| == TableCount(s.mapped.Keys)
  {
    assert Open(OnTables, 0);
    DistinctSize(s.l1, s.l0);
  }

  // ---------------------------------------------------------------------------------------
  // Mapping a page
  // ---------------------------------------------------------------------------------------

  /** What a walk that ends at `entry` in a lowest-level table finds. */
  function Found(entry: nat): Walked { if Permits(entry) then Leaf(entry, 0) else Fault }

  /** Adding one mapping changes the translation of exactly one page. */
  lemma MapChangesOnePage(root: Table, mem: Frames, s: Shape, root': Table, mem': Frames, s': Shape, k: Key, entry: nat, va: nat)
    requires Rep(root, mem, s) && Rep(root', mem', s') && s'.mapped == s.mapped[k := entry]
    ensures KeyOf(va).Valid()
    ensures Walk(root', mem', KeyOf(va)) == if KeyOf(va) == k then Found(entry) else Walk(root, mem, KeyOf(va))
  {
    KeyDigits(va);
    WalkIsMapping(root, mem, s, KeyOf(va));
    WalkIsMapping(root', mem', s', KeyOf(va));
  }

  /** How many tables mapping page `k` takes. */
  ghost function Needed(s: Shape, k: Key): nat {
    (if k.l2 in s.l1 then 0 else 1) + (if Key2(k.l2, k.l1) in s.l0 then 0 else 1)
  }

  /** The frames that can still be handed out. */
  ghost function FreeFrames(alloc: PageFrameAllocator): set<int>
    reads alloc
  {
    alloc.Managed - alloc.Outstanding
  }

  /** `alloc_frame().unwrap()` */
  method TakeFrame(alloc: PageFrameAllocator) returns (frame: nat)
    requires alloc.Valid() && FreeFrames(alloc) != {}
    modifies alloc
    ensures alloc.Valid() && Aligned(frame) && frame in old(FreeFrames(alloc))
    ensures alloc.Outstanding == old(alloc.Outstanding) + {frame}
  {
    var r := alloc.Alloc();
    frame := r.value;
  }

  /** Zero a frame and hang it below root entry `i` as an L1 table. */
  method HangMid(root: Table, mem: Frames, ghost s: Shape, i: nat, frame: nat) returns (root': Table, mem': Frames, ghost s': Shape)
    requires Rep(root, mem, s) && i < ENTRIES && i !in s.l1 && frame !in mem && Aligned(frame)
    ensures Rep(root', mem', s') && mem'.Keys == mem.Keys + {frame}
    ensures s' == s.(l1 := s'.l1) && s'.l1.Keys == s.l1.Keys + {i}
  {
    assert Open(OnTables, 0);
    BranchIs(frame);
    AddMid(root, mem, s, i, frame);
    mem' := mem[frame := Zeros()];
    root' := root[i := NewBranch(frame)];
    s' := s.(l1 := s.l1[i := frame]);
  }

  /** Zero a frame and hang it below an L1 table as an L0 table. */
  method HangLow(root: Table, mem: Frames, ghost s: Shape, p: Key2, frame: nat) returns (mem': Frames, ghost s': Shape)
    requires Rep(root, mem, s) && p.l2 in s.l1 && 0 <= p.l1 < ENTRIES && p !in s.l0 && frame !in mem && Aligned(frame)
    ensures Rep(root, mem', s') && mem'.Keys == mem.Keys + {frame}
    ensures s' == s.(l0 := s'.l0) && s'.l0.Keys == s.l0.Keys + {p}
  {
    hide LowOk, Ppn, NewBranch, Branch;
    assert Open(OnTables, 0);
    BranchIs(frame);
    AddLow(root, mem, s, p, frame);
    MidEntry(root, mem, s, p);
    var table := Ppn(root[p.l2]);
    var entries := mem[table];
    mem' := mem[frame := Zeros()][table := entries[p.l1 := NewBranch(frame)]];
    s' := s.(l0 := s.l0[p := frame]);
  }

  /** Make sure root entry `i` leads to an L1 table. */
  method EnsureMid(root: Table, mem: Frames, ghost s: Shape, i: nat, alloc: PageFrameAllocator)
    returns (root': Table, mem': Frames, ghost s': Shape)
    requires Rep(root, mem, s) && i < ENTRIES && alloc.Valid() && mem.Keys <= alloc.Outstanding
    requires i !in s.l1 ==> FreeFrames(alloc) != {}
    modifies alloc
    ensures Rep(root', mem', s') && alloc.Valid() && s' == s.(l1 := s'.l1) && s'.l1.Keys == s.l1.Keys + {i}
    ensures |FreeFrames(alloc)| == |old(FreeFrames(alloc))| - if i in s.l1 then 0 else 1
    ensures Grown(mem.Keys, old(alloc.Outstanding), mem'.Keys, alloc.Outstanding) && mem'.Keys <= alloc.Outstanding
  {
    root', mem', s' := root, mem, s;
    GrownNot(mem.Keys, alloc.Outstanding);
    var present := HasMid(root, mem, s, i);
    if !present {
      var frame := TakeFrame(alloc);
      GrownBy(mem.Keys, old(alloc.Outstanding), frame);
      OneLess(alloc.Managed, old(alloc.Outstanding), frame);
      root', mem', s' := HangMid(root, mem, s, i, frame);
    }
  }

  /** Is root entry `i` valid? */
  method HasMid(root: Table, ghost mem: Frames, ghost s: Shape, i: nat) returns (r: bool)
    requires Rep(root, mem, s) && i < ENTRIES
    ensures r <==> i in s.l1
  {
    assert Open(OnTables, 0);
    RootEntry(root, s.l1, i);
    r := IsValid(root[i]);
  }

  /** Is the L1 entry of `p` valid? */
  method HasLow(root: Table, mem: Frames, ghost s: Shape, p: Key2) returns (r: bool)
    requires Rep(root, mem, s) && p.l2 in s.l1 && 0 <= p.l1 < ENTRIES
    ensures r <==> p in s.l0
  {
    assert Open(OnTables, 0);
    MidEntry(root, mem, s, p);
    r := IsValid(mem[Ppn(root[p.l2])][p.l1]);
  }

  /** Make sure entry `p.l1` of an existing L1 table leads to an L0 table. */
  method EnsureLow(root: Table, mem: Frames, ghost s: Shape, p: Key2, alloc: PageFrameAllocator)
    returns (mem': Frames, ghost s': Shape)
    requires Rep(root, mem, s) && p.l2 in s.l1 && 0 <= p.l1 < ENTRIES && alloc.Valid() && mem.Keys <= alloc.Outstanding
    requires p !in s.l0 ==> FreeFrames(alloc) != {}
    modifies alloc
    ensures Rep(root, mem', s') && alloc.Valid() && s' == s.(l0 := s'.l0) && s'.l0.Keys == s.l0.Keys + {p}
    ensures |FreeFrames(alloc)| == |old(FreeFrames(alloc))| - if p in s.l0 then 0 else 1
    ensures Grown(mem.Keys, old(alloc.Outstanding), mem'.Keys, alloc.Outstanding) && mem'.Keys <= alloc.Outstanding
  {
    mem', s' := mem, s;
    GrownNot(mem.Keys, alloc.Outstanding);
    var present := HasLow(root, mem, s, p);
    if !present {
      var frame := TakeFrame(alloc);
      GrownBy(mem.Keys, old(alloc.Outstanding), frame);
      OneLess(alloc.Managed, old(alloc.Outstanding), frame);
      mem', s' := HangLow(root, mem, s, p, frame);
    }
  }

  /** Make sure both tables on the way to page `k` exist. */
  method EnsureTables(root: Table, mem: Frames, ghost s: Shape, k: Key, alloc: PageFrameAllocator)
    returns (root': Table, mem': Frames, ghost s': Shape)
    requires Rep(root, mem, s) && k.Valid() && alloc.Valid() && mem.Keys <= alloc.Outstanding
    requires Needed(s, k) <= |FreeFrames(alloc)|
    modifies alloc
    ensures Rep(root', mem', s') && alloc.Valid() && s'.mapped == s.mapped
    ensures s'.l1.Keys == s.l1.Keys + {k.l2} && s'.l0.Keys == s.l0.Keys + {Key2(k.l2, k.l1)}
    ensures |FreeFrames(alloc)| == |old(FreeFrames(alloc))| - Needed(s, k)
    ensures Grown(mem.Keys, old(alloc.Outstanding), mem'.Keys, alloc.Outstanding) && mem'.Keys <= alloc.Outstanding
  {
    root', mem', s' := EnsureMid(root, mem, s, k.l2, alloc);
    ghost var m1, o1 := mem'.Keys, alloc.Outstanding;
    mem', s' := EnsureLow(root', mem', s', Key2(k.l2, k.l1), alloc);
    GrownTwice(mem.Keys, old(alloc.Outstanding), m1, o1, mem'.Keys, alloc.Outstanding);
  }

  /** Write the leaf entry of page `k`, which must not be valid yet. */
  method SetLeaf(root: Table, mem: Frames, ghost s: Shape, k: Key, entry: nat) returns (mem': Frames, ghost s': Shape)
    requires Rep(root, mem, s) && k.Valid() && Key2(k.l2, k.l1) in s.l0 && k !in s.mapped && Present(entry)
    ensures Rep(root, mem', s') && mem'.Keys == mem.Keys && s' == s.(mapped := s.mapped[k := entry])
  {
    assert Open(OnTables, 0);
    AddLeaf(root, mem, s, k, entry);
    MidEntry(root, mem, s, Key2(k.l2, k.l1));
    var table := Ppn(mem[Ppn(root[k.l2])][k.l1]);
    var entries := mem[table];
    LowEntry(mem, s, k);
    assert !IsValid(entries[k.l0]);  // the assertion made by the code
    mem' := mem[table := entries[k.l0 := entry]];
    s' := s.(mapped := s.mapped[k := entry]);
  }

  method MapPage(root: Table, mem: Frames, ghost s: Shape, k: Key, entry: nat, alloc: PageFrameAllocator)
    returns (root': Table, mem': Frames, ghost s': Shape)
    requires Rep(root, mem, s) && Tight(s) && alloc.Valid() && mem.Keys <= alloc.Outstanding
    requires k.Valid() && k !in s.mapped && Present(entry)
    requires Needed(s, k) <= |FreeFrames(alloc)|
    modifies alloc
    ensures Rep(root', mem', s') && Tight(s') && alloc.Valid() && s'.mapped == s.mapped[k := entry]
    ensures |FreeFrames(alloc)| == |old(FreeFrames(alloc))| - Needed(s, k)
    ensures Grown(mem.Keys, old(alloc.Outstanding), mem'.Keys, alloc.Outstanding) && mem'.Keys <= alloc.Outstanding
  {
    root', mem', s' := EnsureTables(root, mem, s, k, alloc);
    mem', s' := SetLeaf(root', mem', s', k, entry);
    TightAdd(s, s', k);
  }

  /** The table indices and the leaf entry of a mapping request. */
  method Request(virt: nat, phys: nat, flags: nat) returns (k: Key, entry: nat)
    requires flags < 1024
    ensures k == KeyOf(virt) && k.Valid() && entry == LeafOf(phys, flags) && Present(entry)
  {
    VpnIsDigit(virt);
    KeyDigits(virt);
    LeafFacts(phys, flags);
    EntryArithmetic(flags);
    EntryArithmetic(LeafOf(phys, flags));
    k := Key(Vpn(virt, 2), Vpn(virt, 1), Vpn(virt, 0));
    entry := NewLeaf(phys, flags);
  }

  class PageTable {
    var root: Table
    var mem: Frames       // the page frames that hold lower-level tables
    ghost var shape: Shape

    ghost predicate Valid()
      reads this
    {
      Rep(root, mem, shape) && Tight(shape)
    }

    /** The MMU's view of a virtual address: bits 63-39 must equal bit 38, or it faults at once. */
    ghost function Translate(va: nat): Walked
      reads this
    {
      KeyDigits(va);
      if SignExtended(va) then Walk(root, mem, KeyOf(va)) else Fault
    }

    constructor ()
      ensures Valid() && shape == Shape(map[], map[], map[]) && mem == map[]
    {
      root, mem := Zeros(), map[];
      shape := Shape(map[], map[], map[]);
    }

    /** Map `virt` to `phys`, allocating intermediate tables on demand: exactly one page changes. */
    method Map(virt: nat, phys: nat, flags: nat, alloc: PageFrameAllocator)
      requires Valid() && alloc.Valid() && mem.Keys <= alloc.Outstanding
      requires flags < 1024 && KeyOf(virt) !in shape.mapped
      requires Needed(shape, KeyOf(virt)) <= |FreeFrames(alloc)|
      modifies this, alloc
      ensures Valid() && alloc.Valid() && mem.Keys <= alloc.Outstanding
      ensures shape.mapped == old(shape.mapped)[KeyOf(virt) := LeafOf(phys, flags)]
      ensures forall va: nat ::
        Translate(va) == if KeyOf(va) == KeyOf(virt) && SignExtended(va) then Found(LeafOf(phys, flags)) else old(Translate(va))
      ensures SignExtended(virt) && IsLeaf(flags) ==> Grants(Translate(virt), phys / 4096 * 4096, Rights(flags))
      ensures |FreeFrames(alloc)| == |old(FreeFrames(alloc))| - old(Needed(shape, KeyOf(virt)))
      ensures Grown(old(mem.Keys), old(alloc.Outstanding), mem.Keys, alloc.Outstanding)
    {
      hide Rep, Walk, Tight, KeyOf, LeafOf, SignExtended, Found, Grants, Rights, IsLeaf;
      var k, entry := Request(virt, phys, flags);
      ghost var r, m, s := root, mem, shape;
      MapKey(k, entry, alloc);
      forall va: nat ensures Translate(va) == if KeyOf(va) == k && SignExtended(va) then Found(entry) else old(Translate(va)) {
        MapChangesOnePage(r, m, s, root, mem, shape, k, entry, va);
      }
      KeyDigits(virt);
      EntryArithmetic(flags);
      if IsLeaf(flags) { MappedGrants(root, mem, shape, k, phys, flags); }
    }

    method MapKey(k: Key, entry: nat, alloc: PageFrameAllocator)
      requires Valid() && alloc.Valid() && mem.Keys <= alloc.Outstanding
      requires k.Valid() && k !in shape.mapped && Present(entry)
      requires Needed(shape, k) <= |FreeFrames(alloc)|
      modifies this, alloc
      ensures Valid() && alloc.Valid() && mem.Keys <= alloc.Outstanding
      ensures shape.mapped == old(shape.mapped)[k := entry]
      ensures |FreeFrames(alloc)| == |old(FreeFrames(alloc))| - old(Needed(shape, k))
      ensures Grown(old(mem.Keys), old(alloc.Outstanding), mem.Keys, alloc.Outstanding)
    {
      hide Rep, Tight;
      var r, m, s := MapPage(root, mem, shape, k, entry, alloc);
      Store(r, m, s);
    }

    method Store(r: Table, m: Frames, ghost s: Shape)
      requires Rep(r, m, s) && Tight(s)
      modifies this
      ensures Valid() && mem == m && shape == s
    {
      root, mem, shape := r, m, s;
    }
  }

  /** The tables in use grew from `keys` to `keys'`, taking exactly those frames from the allocator. */
  ghost predicate Grown(keys: set<int>, out: set<int>, keys': set<int>, out': set<int>) {
    forall x :: (x in keys ==> x in keys') && (x in keys' && x in out ==> x in keys) && (x in out' <==> x in out || x in keys')
  }

  lemma OneLess(managed: set<int>, out: set<int>, f: int)
    requires f in managed - out
    ensures |managed - (out + {f})| == |managed - out| - 1
  {
    assert managed - (out + {f}) == managed - out - {f};
  }

  lemma GrownTwice(k0: set<int>, o0: set<int>, k1: set<int>, o1: set<int>, k2: set<int>, o2: set<int>)
    requires Grown(k0, o0, k1, o1) && Grown(k1, o1, k2, o2)
    ensures Grown(k0, o0, k2, o2)
  {
  }

  lemma GrownNot(keys: set<int>, out: set<int>)
    requires keys <= out
    ensures Grown(keys, out, keys, out)
  {
  }

  lemma GrownBy(keys: set<int>, out: set<int>, f: int)
    requires keys <= out && f !in out
    ensures Grown(keys, out, keys + {f}, out + {f})
  {
  }
}
