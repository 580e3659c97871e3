/** Little-endian codecs for everything the filesystem stores. */
module Codec {
  import opened Bits

  type byte = b: int | 0 <= b < 256

  const U32_LIMIT: int := 0x1_0000_0000

  // ---------------------------------------------------------------------------------------
  // Integers
  // ---------------------------------------------------------------------------------------

  /** 256 to the power `n`. */
  function Limit(n: nat): (r: nat)
    ensures r > 0
  {
    if n == 0 then 1 else 256 * Limit(n - 1)
  }

  lemma Limits()
    ensures Limit(4) == U32_LIMIT && Limit(8) == U32_LIMIT * U32_LIMIT
  {
    assert Limit(2) == 0x1_0000 && Limit(4) == 256 * 256 * Limit(2);
    assert Limit(6) == 256 * 256 * Limit(4) && Limit(8) == 256 * 256 * Limit(6);
  }

  /** `to_le_bytes` for an `n`-byte integer. */
  function LE(v: int, n: nat): (s: seq<byte>)
    ensures |s| == n
    decreases n
  {
    if n == 0 then [] else [v % 256] + LE(v / 256, n - 1)
  }

  /** `from_le_bytes` */
  function FromLE(s: seq<byte>): (v: int)
    ensures 0 <= v
  {
    if s == [] then 0 else s[0] + 256 * FromLE(s[1..])
  }

  lemma {:induction false} FromLEOfLE(v: int, n: nat)
    requires 0 <= v < Limit(n)
    ensures FromLE(LE(v, n)) == v
  {
    if n > 0 {
      FromLEOfLE(v / 256, n - 1);
      assert LE(v, n)[1..] == LE(v / 256, n - 1);
    }
  }

  lemma {:induction false} FromLEBelow(s: seq<byte>)
    ensures FromLE(s) < Limit(|s|)
  {
    if s != [] { FromLEBelow(s[1..]); }
  }

  /** Byte `k` of an integer is its digit `k` to the base 256, least significant first. */
  lemma {:induction false} LEByte(v: int, n: nat, k: nat)
    requires k < n
    ensures LE(v, n)[k] == v / Limit(k) % 256
    decreases k
  {
    if k > 0 {
      LEByte(v / 256, n - 1, k - 1);
      DivTwice(v, Limit(k - 1));
    }
  }

  lemma DivTwice(v: int, m: int)
    requires m > 0
    ensures v / (256 * m) == v / 256 / m
  {
    var q := v / 256 / m;
    var r := v / 256 - q * m;
    assert v == 256 * (q * m + r) + v % 256 && 0 <= r < m;
    assert v == q * (256 * m) + (256 * r + v % 256);
    DivModUnique(v, 256 * m, q, 256 * r + v % 256);
  }

  /** The first `n` bytes weighted with the powers of 256. */
  function Weighted(s: seq<byte>, n: nat): int
    requires n <= |s|
  {
    if n == 0 then 0 else Weighted(s, n - 1) + s[n - 1] * Limit(n - 1)
  }

  lemma {:induction false} FromLEIsWeighted(s: seq<byte>, n: nat)
    requires n <= |s|
    ensures FromLE(s[..n]) == Weighted(s, n)
  {
    if n > 0 {
      FromLEIsWeighted(s, n - 1);
      FromLESnoc(s[..n - 1], s[n - 1]);
      assert s[..n] == s[..n - 1] + [s[n - 1]];
    }
  }

  lemma {:induction false} FromLESnoc(s: seq<byte>, b: byte)
    ensures FromLE(s + [b]) == FromLE(s) + b * Limit(|s|)
  {
    if s == [] {
      assert ([] + [b])[1..] == [];
    } else {
      FromLESnoc(s[1..], b);
      assert (s + [b])[1..] == s[1..] + [b];
      assert 256 * (b * Limit(|s| - 1)) == b * Limit(|s|);
    }
  }

  function Join4(a: int, b: int, c: int, d: int): int { a + 0x100 * b + 0x1_0000 * c + 0x100_0000 * d }

  /** The four bytes from `at` on are those of `v`, least significant first. */
  ghost predicate Stored32(s: seq<byte>, at: int, v: int) {
    0 <= at && at + 4 <= |s| && v == Join4(s[at], s[at + 1], s[at + 2], s[at + 3])
  }

  lemma FourBytes(s: seq<byte>, at: int)
    requires 0 <= at && at + 4 <= |s|
    ensures Stored32(s, at, FromLE(s[at..at + 4]))
  {
    var w := s[at..at + 4];
    assert w[..4] == w;
    FromLEIsWeighted(w, 4);
    assert Limit(1) == 0x100 && Limit(2) == 0x1_0000 && Limit(3) == 0x100_0000;
    var a: int, b: int, c: int, d: int := w[0], w[1], w[2], w[3];
    assert Weighted(w, 2) == a + b * 0x100 by { assert Weighted(w, 1) == a; }
    assert Weighted(w, 4) == Weighted(w, 2) + c * 0x1_0000 + d * 0x100_0000;
  }

  lemma EightBytes(s: seq<byte>)
    requires 8 <= |s|
    ensures FromLE(s[..8]) == Join4(s[0], s[1], s[2], s[3]) + 0x1_0000_0000 * Join4(s[4], s[5], s[6], s[7])
  {
    FourBytes(s, 0);
    assert s[0..0 + 4] == s[..4];
    FromLEIsWeighted(s, 4);
    FromLEIsWeighted(s, 8);
    Limits();
    assert Limit(5) == 0x100_0000_0000 && Limit(6) == 0x1_0000_0000_0000 && Limit(7) == 0x100_0000_0000_0000;
    hide Limit, FromLE;
    var a: int, b: int, c: int, d: int := s[4], s[5], s[6], s[7];
    assert Weighted(s, 6) == Weighted(s, 4) + a * 0x1_0000_0000 + b * 0x100_0000_0000 by {
      assert Weighted(s, 5) == Weighted(s, 4) + a * 0x1_0000_0000;
    }
    assert Weighted(s, 8) == Weighted(s, 6) + c * 0x1_0000_0000_0000 + d * 0x100_0000_0000_0000 by {
      assert Weighted(s, 7) == Weighted(s, 6) + c * 0x1_0000_0000_0000;
    }
  }

  // ---------------------------------------------------------------------------------------
  // Runs of 32-bit words
  // ---------------------------------------------------------------------------------------

  ghost predicate Words(vs: seq<int>) { forall i :: 0 <= i < |vs| ==> 0 <= vs[i] < U32_LIMIT }

  function EncodeWords(vs: seq<int>): (s: seq<byte>)
    ensures |s| == 4 * |vs|
  {
    if vs == [] then [] else EncodeWords(vs[..|vs| - 1]) + LE(vs[|vs| - 1], 4)
  }

  /** Word `k` of a buffer. */
  function WordAt(s: seq<byte>, k: int): (v: int)
    requires 0 <= k && 4 * k + 4 <= |s|
    ensures 0 <= v < U32_LIMIT
  {
    Limits();
    FromLEBelow(s[4 * k..4 * k + 4]);
    FromLE(s[4 * k..4 * k + 4])
  }

  function DecodeWords(s: seq<byte>, n: nat): (vs: seq<int>)
    requires 4 * n <= |s|
    ensures |vs| == n && Words(vs) && forall k :: 0 <= k < n ==> vs[k] == WordAt(s, k)
  {
    seq(n, k requires 0 <= k < n => WordAt(s, k))
  }

  /** Word `k` of encoded words, whatever follows them. */
  lemma {:induction false} WordOfEncoded(vs: seq<int>, rest: seq<byte>, k: int)
    requires Words(vs) && 0 <= k < |vs|
    ensures WordAt(EncodeWords(vs) + rest, k) == vs[k]
    decreases |vs|
  {
    var n := |vs| - 1;
    assert EncodeWords(vs) + rest == EncodeWords(vs[..n]) + (LE(vs[n], 4) + rest);
    if k < n {
      WordOfEncoded(vs[..n], LE(vs[n], 4) + rest, k);
    } else {
      WordBetween(EncodeWords(vs[..n]), vs[n], rest, n);
    }
  }

  lemma WordBetween(before: seq<byte>, v: int, rest: seq<byte>, k: int)
    requires 0 <= v < U32_LIMIT && |before| == 4 * k
    ensures WordAt(before + (LE(v, 4) + rest), k) == v
  {
    assert (before + (LE(v, 4) + rest))[4 * k..4 * k + 4] == LE(v, 4);
    Limits();
    FromLEOfLE(v, 4);
  }

  lemma WordsRoundTrip(vs: seq<int>, rest: seq<byte>)
    requires Words(vs)
    ensures DecodeWords(EncodeWords(vs) + rest, |vs|) == vs
  {
    forall k | 0 <= k < |vs| ensures DecodeWords(EncodeWords(vs) + rest, |vs|)[k] == vs[k] {
      WordOfEncoded(vs, rest, k);
    }
  }

  // ---------------------------------------------------------------------------------------
  // Cursors
  // ---------------------------------------------------------------------------------------

  /** Overwrite part of a buffer. */
  function Splice(buf: seq<byte>, at: int, s: seq<byte>): (r: seq<byte>)
    requires 0 <= at && at + |s| <= |buf|
    ensures |r| == |buf| && r[at..at + |s|] == s
    ensures forall i :: 0 <= i < |buf| && !(at <= i < at + |s|) ==> r[i] == buf[i]
  {
    buf[..at] + s + buf[at + |s|..]
  }

  lemma SpliceTwice(buf: seq<byte>, at: int, s: seq<byte>, t: seq<byte>)
    requires 0 <= at && at + |s| + |t| <= |buf|
    ensures Splice(Splice(buf, at, s), at + |s|, t) == Splice(buf, at, s + t)
  {
  }

  lemma NoWords(buf: seq<byte>, at: int, vs: seq<int>)
    requires 0 <= at <= |buf|
    ensures Splice(buf, at, EncodeWords(vs[..0])) == buf
  {
  }

  lemma NextWord(buf: seq<byte>, at: int, vs: seq<int>, k: int)
    requires 0 <= at && at + 4 * |vs| <= |buf| && 0 <= k < |vs|
    ensures Splice(Splice(buf, at, EncodeWords(vs[..k])), at + 4 * k, LE(vs[k], 4)) == Splice(buf, at, EncodeWords(vs[..k + 1]))
  {
    assert vs[..k + 1][..k] == vs[..k];
    SpliceTwice(buf, at, EncodeWords(vs[..k]), LE(vs[k], 4));
  }

  lemma WordsStored(buf: seq<byte>, at: int, vs: seq<int>)
    requires 0 <= at && at + 4 * |vs| <= |buf| && Words(vs)
    ensures forall k :: 0 <= k < |vs| ==> Stored32(Splice(buf, at, EncodeWords(vs)), at + 4 * k, vs[k])
  {
    hide Splice, Stored32, WordAt, EncodeWords, FromLE;
    var s := Splice(buf, at, EncodeWords(vs));
    assert EncodeWords(vs) + [] == EncodeWords(vs);
    forall k | 0 <= k < |vs| ensures Stored32(s, at + 4 * k, vs[k]) {
      WordOfEncoded(vs, [], k);
      WordOfSlice(s, at, |vs|, k);
      FourBytes(s, at + 4 * k);
    }
  }

  class ByteWriter {
    var bytes: seq<byte>
    var pos: nat

    constructor At(bytes: seq<byte>, pos: nat)
      ensures this.bytes == bytes && this.pos == pos
    {
      this.bytes, this.pos := bytes, pos;
    }

    method WriteBytes(value: seq<byte>)
      requires pos + |value| <= |bytes|
      modifies this
      ensures bytes == Splice(old(bytes), old(pos), value) && pos == old(pos) + |value|
    {
      bytes := Splice(bytes, pos, value);
      pos := pos + |value|;
    }

    /** `write_u8`, `write_u32`, `write_u64`: an integer of `n` bytes. */
    method WriteInt(value: int, n: nat)
      requires pos + n <= |bytes|
      modifies this
      ensures bytes == Splice(old(bytes), old(pos), LE(value, n)) && pos == old(pos) + n
    {
      WriteBytes(LE(value, n));
    }

    /** `write_u32` for each of `vs`. */
    method WriteWords(vs: seq<int>)
      requires pos + 4 * |vs| <= |bytes|
      modifies this
      ensures bytes == Splice(old(bytes), old(pos), EncodeWords(vs)) && pos == old(pos) + 4 * |vs|
      ensures Words(vs) ==> forall k :: 0 <= k < |vs| ==> Stored32(bytes, old(pos) + 4 * k, vs[k])
      ensures forall i :: 0 <= i < |bytes| && !(old(pos) <= i < pos) ==> bytes[i] == old(bytes)[i]
    {
      hide Splice, LE, EncodeWords, Stored32;
      NoWords(bytes, pos, vs);
      for k := 0 to |vs|
        invariant |bytes| == |old(bytes)| && pos == old(pos) + 4 * k
        invariant bytes == Splice(old(bytes), old(pos), EncodeWords(vs[..k]))
      {
        NextWord(old(bytes), old(pos), vs, k);
        WriteInt(vs[k], 4);
      }
      assert vs[..|vs|] == vs;
      if Words(vs) { WordsStored(old(bytes), old(pos), vs); }
    }
  }

  lemma SliceOfSlice(s: seq<byte>, a: int, b: int, c: int, d: int)
    requires 0 <= a <= b <= |s| && 0 <= c <= d <= b - a
    ensures s[a..b][c..d] == s[a + c..a + d]
  {
    forall i | 0 <= i < d - c ensures s[a..b][c..d][i] == s[a + c..a + d][i] {
      assert s[a..b][c + i] == s[a + (c + i)];
    }
  }

  lemma WordOfSlice(bytes: seq<byte>, pos: nat, n: nat, k: nat)
    requires pos + 4 * n <= |bytes| && k < n
    ensures WordAt(bytes[pos..pos + 4 * n], k) == FromLE(bytes[pos + 4 * k..pos + 4 * k + 4])
  {
    SliceOfSlice(bytes, pos, pos + 4 * n, 4 * k, 4 * k + 4);
  }

  class ByteReader {
    const bytes: seq<byte>
    var pos: nat

    constructor At(bytes: seq<byte>, pos: nat)
      ensures this.bytes == bytes && this.pos == pos
    {
      this.bytes, this.pos := bytes, pos;
    }

    method ReadBytes(len: nat) returns (r: seq<byte>)
      requires pos + len <= |bytes|
      modifies this
      ensures r == bytes[old(pos)..old(pos) + len] && pos == old(pos) + len
    {
      r := bytes[pos..pos + len];
      pos := pos + len;
    }

    method ReadInt(n: nat) returns (v: int)
      requires pos + n <= |bytes|
      modifies this
      ensures v == FromLE(bytes[old(pos)..old(pos) + n]) && pos == old(pos) + n
    {
      var s := ReadBytes(n);
      v := FromLE(s);
    }

    /** `read_u32`, `n` times. */
    method ReadWords(n: nat) returns (vs: seq<int>)
      requires pos + 4 * n <= |bytes|
      modifies this
      ensures vs == DecodeWords(bytes[old(pos)..old(pos) + 4 * n], n) && pos == old(pos) + 4 * n
    {
      vs := [];
      ghost var s := bytes[pos..pos + 4 * n];
      for k := 0 to n
        invariant pos == old(pos) + 4 * k && |vs| == k && forall j :: 0 <= j < k ==> vs[j] == WordAt(s, j)
      {
        WordOfSlice(bytes, old(pos), n, k);
        var v := ReadInt(4);
        vs := vs + [v];
      }
    }
  }
}
