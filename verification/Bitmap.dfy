/** The bitmap shared by the filesystem and the frame allocator: `len` bits packed into 32-bit
    words, presented as a set of indices below `len`. */
module Bitmaps {
  import opened Bits
  import opened Options

  const WORD_TOP: nat := 0x1_0000_0000

  type u32 = w: int | 0 <= w < WORD_TOP

  datatype Result<+T> = Ok(value: T) | InvalidWordCount(expected: nat, actual: nat)

  // ---------------------------------------------------------------------------------------
  // One word
  // ---------------------------------------------------------------------------------------

  lemma ShiftedOne(b: nat)
    requires b < 32
    ensures Shl(1, b) == Pow2(b) < WORD_TOP
  {
    ShlIsMul(1, b, Pow2(b));
    Pow2Monotone(b + 1, 32);
    Word32();
  }

  lemma NoHighBits(w: u32)
    ensures forall k: nat :: k >= 32 ==> !Bit(w, k)
  {
    forall k: nat | k >= 32 ensures !Bit(w, k) { Word32(); HighBitsClear(w, 32, k); }
  }

  lemma Word32()
    ensures Pow2(32) == WORD_TOP
  {
    Pow2Values();
  }

  /** `w | (1 << b)` */
  lemma OrBit(w: u32, b: nat)
    requires b < 32
    ensures Or(w, Shl(1, b)) < WORD_TOP && forall k: nat :: Bit(Or(w, Shl(1, b)), k) <==> Bit(w, k) || k == b
  {
    ShiftedOne(b);
    NoHighBits(w);
    var r := Or(w, Pow2(b));
    forall k: nat ensures Bit(r, k) <==> Bit(w, k) || k == b {
      BitOfOr(w, Pow2(b), k);
      BitOfPow2(b, k);
    }
    Word32();
    BelowPow2(r, 32);
  }

  /** `w & !(1 << b)` */
  lemma AndNotBit(w: u32, b: nat)
    requires b < 32
    ensures Shl(1, b) < WORD_TOP && And(w, Not(Shl(1, b), WORD_TOP)) < WORD_TOP
    ensures forall k: nat :: Bit(And(w, Not(Shl(1, b), WORD_TOP)), k) <==> Bit(w, k) && k != b
  {
    ShiftedOne(b);
    NoHighBits(w);
    Word32();
    var n := Not(Pow2(b), WORD_TOP);
    var r := And(w, n);
    forall k: nat ensures Bit(r, k) <==> Bit(w, k) && k != b {
      BitOfAnd(w, n, k);
      BitOfNot(Pow2(b), 32, WORD_TOP, k);
      BitOfPow2(b, k);
    }
    BelowPow2(r, 32);
  }

  /** `w & (1 << b) > 0` */
  lemma TestBit(w: u32, b: nat)
    requires b < 32
    ensures And(w, Shl(1, b)) > 0 <==> Bit(w, b)
  {
    ShiftedOne(b);
    var r := And(w, Pow2(b));
    BitOfAnd(w, Pow2(b), b);
    BitOfPow2(b, b);
    if r > 0 {
      var k := SomeBit(r);
      BitOfAnd(w, Pow2(b), k);
      BitOfPow2(b, k);
    } else {
      BitOfZero(b);
    }
  }

  /** `w & ((1 << n) - 1)` */
  lemma KeepLow(w: u32, n: nat)
    requires n < 32
    ensures Shl(1, n) > 0 && And(w, Shl(1, n) - 1) < WORD_TOP
    ensures forall k: nat :: Bit(And(w, Shl(1, n) - 1), k) <==> Bit(w, k) && k < n
  {
    ShiftedOne(n);
    NoHighBits(w);
    var m := Pow2(n) - 1;
    var r := And(w, m);
    forall k: nat ensures Bit(r, k) <==> Bit(w, k) && k < n {
      BitOfAnd(w, m, k);
      BitOfNot(0, n, Pow2(n), k);
      BitOfZero(k);
    }
    Word32();
    BelowPow2(r, 32);
  }

  /** Clearing the lowest set bit makes the word smaller. */
  lemma DropLowest(w: u32)
    requires w > 0
    ensures TrailingZeros(w) < 32 && Bit(w, TrailingZeros(w))
    ensures forall k: nat :: Bit(w, k) ==> TrailingZeros(w) <= k
    ensures Shl(1, TrailingZeros(w)) < WORD_TOP && And(w, Not(Shl(1, TrailingZeros(w)), WORD_TOP)) < w
  {
    var t := TrailingZeros(w);
    TrailingZerosIsLowestBit(w);
    NoHighBits(w);
    AndNotBit(w, t);
    AndBelow(w, Not(Shl(1, t), WORD_TOP));
  }

  /** `(!w).trailing_zeros()` is the lowest clear bit of a word that is not full. */
  lemma LowestClear(w: u32)
    requires w != WORD_TOP - 1
    ensures Not(w, WORD_TOP) > 0 && TrailingZeros(Not(w, WORD_TOP)) < 32
    ensures !Bit(w, TrailingZeros(Not(w, WORD_TOP)))
    ensures forall k: nat :: k < TrailingZeros(Not(w, WORD_TOP)) ==> Bit(w, k)
  {
    var n: u32 := Not(w, WORD_TOP);
    TrailingZerosIsLowestBit(n);
    NoHighBits(n);
    Word32();
    forall k: nat ensures Bit(n, k) <==> k < 32 && !Bit(w, k) { BitOfNot(w, 32, WORD_TOP, k); }
  }

  lemma FullWord(k: nat)
    requires k < 32
    ensures Bit(WORD_TOP - 1, k)
  {
    Word32();
    BitOfNot(0, 32, WORD_TOP, k);
    BitOfZero(k);
  }

  // ---------------------------------------------------------------------------------------
  // Many words
  // ---------------------------------------------------------------------------------------

  function WordCount(len: nat): nat { (len + 31) / 32 }

  /** Bit `i` of a word sequence. */
  ghost predicate At(words: seq<u32>, i: nat)
    requires i < 32 * |words|
  {
    Bit(words[i / 32], i % 32)
  }

  ghost function Ones(words: seq<u32>, len: nat): set<nat>
    requires len <= 32 * |words|
  {
    set i: nat | i < len && At(words, i)
  }

  /** Exactly the words needed, with padding bits clear. */
  ghost predicate Packed(words: seq<u32>, len: nat) {
    && |words| == WordCount(len)
    && forall i: nat :: len <= i < 32 * |words| ==> !At(words, i)
  }

  /** Changing bits of one word. */
  lemma UpdateWord(words: seq<u32>, j: nat, w: u32, i: nat)
    requires j < |words| && i < 32 * |words|
    ensures At(words[j := w], i) <==> if i / 32 == j then Bit(w, i % 32) else At(words, i)
  {
  }

  /** Packed words are determined by the set they stand for. */
  lemma PackedIsCanonical(a: seq<u32>, b: seq<u32>, len: nat)
    requires Packed(a, len) && Packed(b, len) && Ones(a, len) == Ones(b, len)
    ensures a == b
  {
    forall j | 0 <= j < |a| ensures a[j] == b[j] {
      forall k: nat ensures Bit(a[j], k) == Bit(b[j], k) {
        if k < 32 {
          var i: nat := 32 * j + k;
          assert i / 32 == j && i % 32 == k;
          assert At(a, i) == At(b, i) by {
            if i < len { assert i in Ones(a, len) <==> i in Ones(b, len); }
          }
        } else {
          NoHighBits(a[j]);
          NoHighBits(b[j]);
        }
      }
      SameBits(a[j], b[j]);
    }
  }

  /** A bitmap is owned by value by whatever structure contains it, so it is a value here and
      updating it yields the new value. */
  datatype Bitmap = Bitmap(len: nat, words: seq<u32>) {
    ghost predicate Valid() { Packed(words, len) }

    /** The set of bits that are set. */
    ghost function Set(): set<nat>
      requires Valid()
    {
      Ones(words, len)
    }

    /** `self.words[arr_index] |= 1 << bit_index` */
    function SetBit(index: nat): (b: Bitmap)
      requires Valid() && index < len
      ensures b.Valid() && b.len == len && b.Set() == Set() + {index}
    {
      OrBit(words[index / 32], index % 32);
      var b := Bitmap(len, words[index / 32 := Or(words[index / 32], Shl(1, index % 32))]);
      SetBitIs(this, b, index);
      b
    }

    /** `self.words[arr_index] &= !(1 << bit_index)` */
    function Unset(index: nat): (b: Bitmap)
      requires Valid() && index < len
      ensures b.Valid() && b.len == len && b.Set() == Set() - {index}
    {
      AndNotBit(words[index / 32], index % 32);
      var b := Bitmap(len, words[index / 32 := And(words[index / 32], Not(Shl(1, index % 32), WORD_TOP))]);
      UnsetIs(this, b, index);
      b
    }

    predicate IsSet(index: nat)
      requires Valid() && index < len
      ensures IsSet(index) <==> index in Set()
    {
      TestBit(words[index / 32], index % 32);
      And(words[index / 32], Shl(1, index % 32)) > 0
    }

    /** The lowest clear bit, if there is one. */
    method FindFree() returns (r: Option<nat>)
      requires Valid()
      ensures r.Some? ==> r.value < len && r.value !in Set() && forall i: nat :: i < r.value ==> i in Set()
      ensures r.None? ==> forall i: nat :: i < len ==> i in Set()
    {
      for j := 0 to |words|
        invariant forall i: nat :: i < 32 * j ==> At(words, i)
      {
        if words[j] != WORD_TOP - 1 {
          LowestClear(words[j]);
          var res := TrailingZeros(Not(words[j], WORD_TOP));
          var index := j * 32 + res;
          assert index / 32 == j && index % 32 == res;
          forall i: nat | i < index ensures At(words, i) {
            if i >= 32 * j { assert i / 32 == j && i % 32 < res; }
          }
          return if index < len then Some(index) else None;
        }
        forall i: nat | i < 32 * (j + 1) ensures At(words, i) {
          if i >= 32 * j { FullWord(i % 32); assert i / 32 == j; }
        }
      }
      return None;
    }

    /** Hand out all set bits in ascending order and clear them. */
    method DrainOnes() returns (ones: seq<nat>, b: Bitmap)
      requires Valid()
      ensures b.Valid() && b.len == len && b.Set() == {}
      ensures forall i :: i in ones <==> i in Set()
      ensures forall a, b :: 0 <= a < b < |ones| ==> ones[a] < ones[b]
    {
      var ws := words;
      ones := [];
      for j := 0 to |words|
        invariant |ws| == |words| && Drained(words, ws, ones, 32 * j)
      {
        ones, ws := DrainWord(words, ws, j, ones);
      }
      b := Bitmap(len, ws);
    }
  }

  lemma SetBitIs(b: Bitmap, b': Bitmap, index: nat)
    requires b.Valid() && index < b.len && b'.len == b.len
    requires Or(b.words[index / 32], Shl(1, index % 32)) < WORD_TOP
    requires b'.words == b.words[index / 32 := Or(b.words[index / 32], Shl(1, index % 32))]
    ensures b'.Valid() && b'.Set() == b.Set() + {index}
  {
    OrBit(b.words[index / 32], index % 32);
    forall i: nat | i < 32 * |b.words| ensures At(b'.words, i) <==> At(b.words, i) || i == index {
      UpdateWord(b.words, index / 32, b'.words[index / 32], i);
    }
  }

  lemma UnsetIs(b: Bitmap, b': Bitmap, index: nat)
    requires b.Valid() && index < b.len && b'.len == b.len
    requires Shl(1, index % 32) < WORD_TOP && And(b.words[index / 32], Not(Shl(1, index % 32), WORD_TOP)) < WORD_TOP
    requires b'.words == b.words[index / 32 := And(b.words[index / 32], Not(Shl(1, index % 32), WORD_TOP))]
    ensures b'.Valid() && b'.Set() == b.Set() - {index}
  {
    AndNotBit(b.words[index / 32], index % 32);
    forall i: nat | i < 32 * |b.words| ensures At(b'.words, i) <==> At(b.words, i) && i != index {
      UpdateWord(b.words, index / 32, b'.words[index / 32], i);
    }
  }

  /** A bitmap of `len` clear bits. */
  function NewBitmap(len: nat): (b: Bitmap)
    ensures b.Valid() && b.len == len && b.Set() == {}
  {
    var words: seq<u32> := seq(WordCount(len), _ => 0);
    ZeroWords(words);
    Bitmap(len, words)
  }

  lemma ZeroWords(words: seq<u32>)
    requires forall j :: 0 <= j < |words| ==> words[j] == 0
    ensures forall i: nat :: i < 32 * |words| ==> !At(words, i)
  {
    forall i: nat | i < 32 * |words| ensures !At(words, i) { BitOfZero(i % 32); }
  }

  /** Adopt raw words, masking the padding bits of the last one. */
  method FromWords(len: nat, words: seq<u32>) returns (r: Result<Bitmap>)
    ensures r.Ok? <==> |words| == WordCount(len)
    ensures r.Ok? ==> r.value.Valid() && r.value.len == len && r.value.Set() == Ones(words, len)
    ensures !r.Ok? ==> r == InvalidWordCount(WordCount(len), |words|)
  {
    hide And, Shl;
    if |words| != WordCount(len) {
      return InvalidWordCount(WordCount(len), |words|);
    }
    var masked := words;
    var remainder := len % 32;
    if remainder != 0 {
      var last := |words| - 1;
      KeepLow(words[last], remainder);
      masked := words[last := And(words[last], Shl(1, remainder) - 1)];
      forall i: nat | i < 32 * |words| ensures At(masked, i) <==> At(words, i) && i < len {
        UpdateWord(words, last, masked[last], i);
      }
    }
    return Ok(Bitmap(len, masked));
  }

  /** Drain word `j`. */
  method DrainWord(ghost before: seq<u32>, words: seq<u32>, j: nat, soFar: seq<nat>) returns (ones: seq<nat>, ws: seq<u32>)
    requires j < |words| == |before| && Drained(before, words, soFar, 32 * j)
    ensures |ws| == |before| && Drained(before, ws, ones, 32 * (j + 1))
  {
    hide And, Not, Shl, TrailingZeros, Bit;
    ones, ws := soFar, words;
    while ws[j] != 0
      invariant |ws| == |before| && Drained(before, ws, ones, 32 * j)
      decreases ws[j]
    {
      DropLowest(ws[j]);
      DrainStep(before, ws, ones, j);
      var trailing := TrailingZeros(ws[j]);
      ws := ws[j := And(ws[j], Not(Shl(1, trailing), WORD_TOP))];
      ones := ones + [j * 32 + trailing];
    }
    forall i: nat | i < 32 * (j + 1) ensures !At(ws, i) {
      if i >= 32 * j { assert i / 32 == j; BitOfZero(i % 32); }
    }
  }

  /** Midway through draining: `ones` ascends, holds exactly the bits cleared so far, and lies below
      whatever is still set; nothing below `from` is. */
  ghost predicate Drained(before: seq<u32>, words: seq<u32>, ones: seq<nat>, from: nat)
    requires |before| == |words|
  {
    && (forall i: nat :: i < 32 * |words| && At(words, i) ==> At(before, i) && from <= i)
    && (forall i :: i in ones ==> i < 32 * |words| && At(before, i) && !At(words, i))
    && (forall i: nat :: i < 32 * |words| && At(before, i) && !At(words, i) ==> i in ones)
    && (forall a, b :: 0 <= a < b < |ones| ==> ones[a] < ones[b])
    && (forall a, i: nat :: 0 <= a < |ones| && i < 32 * |words| && At(words, i) ==> ones[a] < i)
  }

  lemma DrainStep(before: seq<u32>, words: seq<u32>, ones: seq<nat>, j: nat)
    requires |before| == |words| && j < |words| && words[j] != 0 && Drained(before, words, ones, 32 * j)
    ensures var t := TrailingZeros(words[j]);
      && Shl(1, t) < WORD_TOP && And(words[j], Not(Shl(1, t), WORD_TOP)) < WORD_TOP
      && Drained(before, words[j := And(words[j], Not(Shl(1, t), WORD_TOP))], ones + [j * 32 + t], 32 * j)
  {
    DropLowest(words[j]);
    var t := TrailingZeros(words[j]);
    AndNotBit(words[j], t);
    var index := j * 32 + t;
    assert index / 32 == j && index % 32 == t && At(words, index);
    var next := words[j := And(words[j], Not(Shl(1, t), WORD_TOP))];
    forall i: nat | i < 32 * |words|
      ensures At(next, i) <==> At(words, i) && i != index
      ensures At(next, i) ==> index < i
    {
      UpdateWord(words, j, next[j], i);
    }
  }
}
