/** The machine-word operators used by the kernel (`&`, `|`, shifts, trailing-zero count),
    defined bit by bit on natural numbers, with the arithmetic laws the other modules rely on. */
module Bits {

  function Pow2(k: nat): (r: nat)
    ensures r > 0
  {
    if k == 0 then 1 else 2 * Pow2(k - 1)
  }

  /** Bit `k` of `w`. */
  predicate Bit(w: nat, k: nat) {
    if k == 0 then w % 2 == 1 else Bit(w / 2, k - 1)
  }

  /** `x & y` */
  function And(x: nat, y: nat): nat {
    if x == 0 || y == 0 then 0
    else 2 * And(x / 2, y / 2) + (if x % 2 == 1 && y % 2 == 1 then 1 else 0)
  }

  /** `x | y` */
  function Or(x: nat, y: nat): nat {
    if x == 0 then y
    else 2 * Or(x / 2, y / 2) + (if x % 2 == 1 || y % 2 == 1 then 1 else 0)
  }

  /** `x << k` and `x >> k` without a word bound. */
  function Shl(x: nat, k: nat): nat { if k == 0 then x else 2 * Shl(x, k - 1) }
  function Shr(x: nat, k: nat): nat { if k == 0 then x else Shr(x / 2, k - 1) }

  /** `!x` in a word whose values lie below `top`, a power of two. */
  function Not(x: nat, top: nat): nat
    requires x < top
  {
    top - 1 - x
  }

  /** The number of zero bits below the lowest set bit. */
  function TrailingZeros(w: nat): nat
    requires w > 0
  {
    if w % 2 == 1 then 0 else 1 + TrailingZeros(w / 2)
  }

  // ---------------------------------------------------------------------------------------
  // Laws
  // ---------------------------------------------------------------------------------------

  lemma {:induction false} BitOfAnd(x: nat, y: nat, k: nat)
    ensures Bit(And(x, y), k) <==> Bit(x, k) && Bit(y, k)
  {
    if x == 0 || y == 0 { BitOfZero(k); }
    else if k > 0 { BitOfAnd(x / 2, y / 2, k - 1); }
  }

  lemma {:induction false} AndBelow(x: nat, y: nat)
    ensures And(x, y) <= x
  {
    if x > 0 && y > 0 { AndBelow(x / 2, y / 2); }
  }

  lemma {:induction false} BitOfOr(x: nat, y: nat, k: nat)
    ensures Bit(Or(x, y), k) <==> Bit(x, k) || Bit(y, k)
  {
    if x == 0 { BitOfZero(k); }
    else if k > 0 { BitOfOr(x / 2, y / 2, k - 1); }
  }

  lemma {:induction false} BitOfZero(k: nat)
    ensures !Bit(0, k)
  {
    if k > 0 { BitOfZero(k - 1); }
  }

  lemma {:induction false} BitOfPow2(j: nat, k: nat)
    ensures Bit(Pow2(j), k) <==> j == k
  {
    if j == 0 && k > 0 { BitOfZero(k - 1); }
    else if j > 0 && k > 0 { BitOfPow2(j - 1, k - 1); }
  }

  lemma {:induction false} BitOfNot(x: nat, width: nat, top: nat, k: nat)
    requires x < top == Pow2(width)
    ensures Bit(Not(x, top), k) <==> k < width && !Bit(x, k)
    decreases k
  {
    if width == 0 { BitOfZero(k); }
    else if k > 0 {
      NotHalves(x, top);
      BitOfNot(x / 2, width - 1, top / 2, k - 1);
    }
  }

  lemma NotHalves(x: nat, top: nat)
    requires x < top && top % 2 == 0
    ensures Not(x, top) / 2 == Not(x / 2, top / 2)
  {
  }

  /** A word made of a low part and a high part. */
  lemma {:induction false} BitOfSum(lo: nat, hi: nat, n: nat, m: nat, k: nat)
    requires m == Pow2(n) && lo < m
    ensures Bit(lo + m * hi, k) <==> if k < n then Bit(lo, k) else Bit(hi, k - n)
    decreases n, k
  {
    if n > 0 {
      var h := Pow2(n - 1);
      var x := lo + m * hi;
      assert m * hi == 2 * (h * hi);
      assert x / 2 == lo / 2 + h * hi && x % 2 == lo % 2;
      if k > 0 { BitOfSum(lo / 2, hi, n - 1, h, k - 1); }
    }
  }

  lemma {:induction false} AndPow2(x: nat, k: nat)
    ensures And(x, Pow2(k)) != 0 <==> Bit(x, k)
  {
    if k == 0 {
      assert And(x, 1) == x % 2 by { assert And(x / 2, 0) == 0; }
    } else {
      AndPow2(x / 2, k - 1);
      AndEven(x, Pow2(k - 1));
    }
  }

  /** A word below `2^width` has no bit at or above `width`. */
  lemma {:induction false} HighBitsClear(x: nat, width: nat, k: nat)
    requires x < Pow2(width) && width <= k
    ensures !Bit(x, k)
  {
    if width == 0 { BitOfZero(k); }
    else { HighBitsClear(x / 2, width - 1, k - 1); }
  }

  /** Conversely, with no bit at or above `width` the word is below `2^width`. */
  lemma {:induction false} BelowPow2(x: nat, width: nat)
    requires forall k :: k >= width ==> !Bit(x, k)
    ensures x < Pow2(width)
    decreases width, x
  {
    if width == 0 {
      if x > 0 { var k := SomeBit(x); }
    } else {
      forall k | k >= width - 1 ensures !Bit(x / 2, k) { assert !Bit(x, k + 1); }
      BelowPow2(x / 2, width - 1);
    }
  }

  lemma {:induction false} SomeBit(x: nat) returns (k: nat)
    requires x > 0
    ensures Bit(x, k)
  {
    if x % 2 == 1 { k := 0; } else { k := SomeBit(x / 2); k := k + 1; }
  }

  /** A word is determined by its bits. */
  lemma {:induction false} SameBits(x: nat, y: nat)
    requires forall k :: Bit(x, k) == Bit(y, k)
    ensures x == y
  {
    if x == 0 && y > 0 {
      var k := SomeBit(y);
      BitOfZero(k);
    } else if x > 0 && y == 0 {
      var k := SomeBit(x);
      BitOfZero(k);
    } else if x > 0 {
      assert Bit(x, 0) == Bit(y, 0);
      forall k: nat ensures Bit(x / 2, k) == Bit(y / 2, k) { assert Bit(x, k + 1) == Bit(y, k + 1); }
      SameBits(x / 2, y / 2);
    }
  }

  lemma {:induction false} TrailingZerosIsLowestBit(w: nat)
    requires w > 0
    ensures Bit(w, TrailingZeros(w))
    ensures forall k :: 0 <= k < TrailingZeros(w) ==> !Bit(w, k)
  {
    if w % 2 == 0 {
      TrailingZerosIsLowestBit(w / 2);
      forall k | 0 <= k < TrailingZeros(w) ensures !Bit(w, k) {
        if k > 0 { assert !Bit(w / 2, k - 1); }
      }
    }
  }

  /** Shifting is multiplication and division by `2^k`. */
  lemma {:induction false} ShlIsMul(x: nat, k: nat, m: nat)
    requires m == Pow2(k)
    ensures Shl(x, k) == x * m
    decreases k
  {
    if k > 0 { ShlIsMul(x, k - 1, m / 2); }
  }

  lemma {:induction false} ShrIsDiv(x: nat, k: nat, m: nat)
    requires m == Pow2(k)
    ensures Shr(x, k) == x / m
    decreases k
  {
    if k > 0 {
      ShrIsDiv(x / 2, k - 1, m / 2);
      HalfDiv(x, m / 2);
    }
  }

  lemma HalfDiv(x: nat, m: nat)
    requires m > 0
    ensures x / (2 * m) == x / 2 / m
  {
    var h, q := x / 2, (x / 2) / m;
    assert h == q * m + h % m;
    DivModUnique(x, 2 * m, q, 2 * (h % m) + x % 2);
  }

  /** Masking with `2^k - 1` keeps the remainder modulo `2^k`. */
  lemma {:induction false} MaskLow(x: nat, k: nat, m: nat)
    requires m == Pow2(k)
    ensures And(x, m - 1) == x % m
    decreases k
  {
    if k > 0 {
      var h: nat := m / 2;
      MaskLow(x / 2, k - 1, h);
      HalfMod(x, h);
      MaskStep(x, h);
    }
  }

  lemma MaskStep(x: nat, m: nat)
    requires m > 0
    ensures And(x, 2 * m - 1) == 2 * And(x / 2, m - 1) + x % 2
  {
    assert (2 * m - 1) / 2 == m - 1 && (2 * m - 1) % 2 == 1;
  }

  lemma HalfMod(x: nat, m: nat)
    requires m > 0
    ensures x % (2 * m) == 2 * ((x / 2) % m) + x % 2
  {
    var h, q := x / 2, (x / 2) / m;
    assert h == q * m + h % m;
    var r := 2 * (h % m) + x % 2;
    assert x == q * (2 * m) + r && 0 <= r < 2 * m;
    DivModUnique(x, 2 * m, q, r);
  }

  lemma DivModUnique(x: int, m: int, q: int, r: int)
    requires m > 0 && 0 <= r < m && x == q * m + r
    ensures x / m == q && x % m == r
  {
    var d := q - x / m;
    assert r - x % m == -d * m;
    assert d >= 1 ==> d * m >= m;
    assert d <= -1 ==> -d * m >= m;
  }

  /** Masking with `!(2^k - 1)` rounds a `width`-bit word down to a multiple of `2^k`. */
  lemma MaskHigh(x: nat, k: nat, m: nat, width: nat, top: nat)
    requires m == Pow2(k) && x < top == Pow2(width) && k <= width
    ensures m <= top && And(x, Not(m - 1, top)) == x - x % m
  {
    MaskClears(x, k, m, width, top);
    ClearLowRounds(x, k, m);
  }

  /** `x` with its `k` low bits cleared. */
  function ClearLow(x: nat, k: nat): nat { if k == 0 then x else 2 * ClearLow(x / 2, k - 1) }

  lemma {:induction false} ClearLowRounds(x: nat, k: nat, m: nat)
    requires m == Pow2(k)
    ensures ClearLow(x, k) + x % m == x
    decreases k
  {
    if k > 0 {
      ClearLowRounds(x / 2, k - 1, m / 2);
      HalfMod(x, m / 2);
    }
  }

  lemma {:induction false} MaskClears(x: nat, k: nat, m: nat, width: nat, top: nat)
    requires m == Pow2(k) && x < top == Pow2(width) && k <= width
    ensures m <= top && And(x, Not(m - 1, top)) == ClearLow(x, k)
    decreases k
  {
    hide And;
    Pow2Monotone(k, width);
    if k == 0 {
      MaskAll(x, width, top);
    } else {
      var h, t := Pow2(k - 1), Pow2(width - 1);
      assert m == 2 * h && top == 2 * t;
      hide Pow2, Not;
      MaskClears(x / 2, k - 1, h, width - 1, t);
      NotEven(h, t);
      AndEven(x, Not(h - 1, t));
    }
  }

  lemma NotEven(m: nat, top: nat)
    requires 0 < m <= top
    ensures Not(2 * m - 1, 2 * top) == 2 * Not(m - 1, top)
  {
  }

  lemma MaskAll(x: nat, width: nat, top: nat)
    requires x < top == Pow2(width)
    ensures And(x, top - 1) == x == x - x % 1
  {
    MaskLow(x, width, top);
    DivModUnique(x, top, 0, x);
  }

  lemma AndEven(x: nat, y: nat)
    ensures And(x, 2 * y) == 2 * And(x / 2, y)
  {
    var z := 2 * y;
    assert z / 2 == y && z % 2 == 0;
    assert x == 0 || y == 0 ==> And(x / 2, y) == 0;
  }

  /** Or-ing a value below `2^k` into a multiple of `2^k` is addition. */
  lemma {:induction false} OrDisjoint(a: nat, f: nat, k: nat)
    requires f < Pow2(k)
    ensures Or(a * Pow2(k), f) == a * Pow2(k) + f
  {
    if k == 0 {
      OrZero(a);
    } else if a > 0 {
      var x := a * Pow2(k);
      assert x == 2 * (a * Pow2(k - 1)) by { assert Pow2(k) == 2 * Pow2(k - 1); }
      assert x > 0;
      OrDisjoint(a, f / 2, k - 1);
    }
  }

  lemma {:induction false} OrZero(a: nat)
    ensures Or(a, 0) == a
  {
    if a > 0 { OrZero(a / 2); }
  }

  lemma {:induction false} Pow2Adds(j: nat, k: nat)
    ensures Pow2(j + k) == Pow2(j) * Pow2(k)
  {
    if j > 0 { Pow2Adds(j - 1, k); }
  }

  lemma {:induction false} Pow2Monotone(j: nat, k: nat)
    requires j <= k
    ensures Pow2(j) <= Pow2(k)
  {
    if j < k { Pow2Monotone(j, k - 1); }
  }

  lemma Pow2Of64()
    ensures Pow2(64) == 0x1_0000_0000_0000_0000
  {
    Pow2Values();
  }

  lemma Pow2Values()
    ensures Pow2(3) == 8 && Pow2(9) == 512 && Pow2(10) == 1024 && Pow2(12) == 4096
    ensures Pow2(21) == 0x20_0000 && Pow2(30) == 0x4000_0000 && Pow2(32) == 0x1_0000_0000
    ensures Pow2(39) == 0x80_0000_0000 && Pow2(64) == 0x1_0000_0000_0000_0000
  {
    assert Pow2(12) == 4096;
    assert Pow2(21) == 0x20_0000;
    assert Pow2(30) == 0x4000_0000;
    assert Pow2(39) == 0x80_0000_0000;
    assert Pow2(48) == 0x1_0000_0000_0000;
    assert Pow2(56) == 0x100_0000_0000_0000;
  }
}
