/** Fixed-width integers, byte strings and the big-integer conversions the node uses. */
module Bytes {
  type byte = x: int | 0 <= x < 256
  type uint8 = x: int | 0 <= x < 256
  type uint64 = x: int | 0 <= x < TWO_64

  const TWO_63 := 0x8000_0000_0000_0000
  const TWO_64 := 0x1_0000_0000_0000_0000
  const TWO_256 := 0x1_0000_0000_0000_0000_0000_0000_0000_0000_0000_0000_0000_0000_0000_0000_0000_0000

  /** Go's conversion of a uint64 to int64 (and, on 64-bit machines, to int). */
  function ToInt64(u: uint64): int
  {
    if u < TWO_63 then u else u - TWO_64
  }

  /** Go's unsigned 64-bit addition. */
  function Wrap64(n: nat): uint64
  {
    if n < TWO_64 then n else n % TWO_64
  }

  function Abs(n: int): nat
  {
    if n < 0 then -n else n
  }

  function Pow256(n: nat): (p: nat)
    ensures p > 0
  {
    if n == 0 then 1 else 256 * Pow256(n - 1)
  }

  /** A byte string read as a little-endian number. */
  function BytesToBigInt(b: seq<byte>): nat
  {
    if b == [] then 0 else b[0] + 256 * BytesToBigInt(b[1..])
  }

  /** A byte string read as a big-endian number. */
  function BigEndian(b: seq<byte>): nat
  {
    if b == [] then 0 else 256 * BigEndian(b[..|b| - 1]) + b[|b| - 1]
  }

  /** The low `n` bytes of `v`, least significant first. */
  function LowBytes(n: nat, v: nat): (b: seq<byte>)
    ensures |b| == n
  {
    if n == 0 then [] else [v % 256] + LowBytes(n - 1, v / 256)
  }

  /** Little-endian bytes of a big integer in a buffer of `n` bytes: the sign is lost, high bytes are cut. */
  function BigIntToBytes(n: nat, v: int): (b: seq<byte>)
    ensures |b| == n
  {
    LowBytes(n, Abs(v))
  }

  /** The low `n` bytes of `v`, most significant first. */
  function FixedBE(n: nat, v: nat): (b: seq<byte>)
    ensures |b| == n
  {
    if n == 0 then [] else FixedBE(n - 1, v / 256) + [v % 256]
  }

  /** Go's big.Int.Bytes: the absolute value, most significant byte first, without leading zeros. */
  function MinimalBE(v: nat): seq<byte>
  {
    if v == 0 then [] else MinimalBE(v / 256) + [v % 256]
  }

  function SwapEndianness(b: seq<byte>): (r: seq<byte>)
    ensures |r| == |b|
    ensures forall i :: 0 <= i < |b| ==> r[i] == b[|b| - 1 - i]
  {
    if b == [] then [] else SwapEndianness(b[1..]) + [b[0]]
  }

  lemma {:induction false} LowBytesValue(n: nat, v: nat)
    ensures BytesToBigInt(LowBytes(n, v)) == v % Pow256(n)
  {
    if n == 0 {
      assert v % 1 == 0;
    } else {
      LowBytesValue(n - 1, v / 256);
      assert LowBytes(n, v)[1..] == LowBytes(n - 1, v / 256);
      ModSplit(v, Pow256(n - 1));
    }
  }

  lemma ModSplit(v: nat, p: nat)
    requires p > 0
    ensures v % (256 * p) == v % 256 + 256 * (v / 256 % p)
  {
    var q, r := v / 256 / p, v / 256 % p;
    assert v / 256 == p * q + r;
    assert v == (256 * p) * q + (256 * r + v % 256) by {
      assert v == 256 * (p * q + r) + v % 256;
      assert 256 * (p * q) == (256 * p) * q;
    }
    assert 0 <= 256 * r + v % 256 < 256 * p;
    ModUnique(v, 256 * p, q, 256 * r + v % 256);
  }

  lemma MulMonotone(m: nat, a: nat, b: nat)
    requires a <= b
    ensures m * a <= m * b
  {
    assert m * b == m * a + m * (b - a);
  }

  lemma ModUnique(v: nat, m: nat, q: nat, r: nat)
    requires v == m * q + r && r < m
    ensures v % m == r
  {
    var q' := v / m;
    assert v == m * q' + v % m;
    if q' < q {
      MulMonotone(m, q' + 1, q);
    } else if q < q' {
      MulMonotone(m, q + 1, q');
    }
  }

  lemma SmallMod(v: nat, m: nat)
    requires v < m
    ensures v % m == v
  {
    ModUnique(v, m, 0, v);
  }

  /** A byte string of fixed length is the encoding of the number it denotes. */
  lemma {:induction false} LowBytesOfValue(b: seq<byte>)
    ensures LowBytes(|b|, BytesToBigInt(b)) == b
    ensures BytesToBigInt(b) < Pow256(|b|)
  {
    if b != [] {
      LowBytesOfValue(b[1..]);
      var v := BytesToBigInt(b);
      assert v % 256 == b[0] && v / 256 == BytesToBigInt(b[1..]);
      assert b == [b[0]] + b[1..];
    }
  }

  lemma {:induction false} FixedBERoundTrip(n: nat, v: nat)
    requires v < Pow256(n)
    ensures BigEndian(FixedBE(n, v)) == v
  {
    if n > 0 {
      FixedBERoundTrip(n - 1, v / 256);
      var b := FixedBE(n, v);
      assert b[..|b| - 1] == FixedBE(n - 1, v / 256);
    }
  }

  lemma {:induction false} FixedBEOfValue(b: seq<byte>)
    ensures FixedBE(|b|, BigEndian(b)) == b
    ensures BigEndian(b) < Pow256(|b|)
  {
    if b != [] {
      var front := b[..|b| - 1];
      FixedBEOfValue(front);
      var v := BigEndian(b);
      assert v % 256 == b[|b| - 1] && v / 256 == BigEndian(front);
      assert b == front + [b[|b| - 1]];
    }
  }

  /** big.Int.SetBytes undoes big.Int.Bytes on every non-negative number; no byte is spent on leading zeros. */
  lemma {:induction false} MinimalBERoundTrip(v: nat)
    ensures BigEndian(MinimalBE(v)) == v
    ensures MinimalBE(v) != [] ==> MinimalBE(v)[0] != 0
  {
    if v != 0 {
      MinimalBERoundTrip(v / 256);
      var b := MinimalBE(v);
      assert b[..|b| - 1] == MinimalBE(v / 256);
    }
  }

  /** Swapping the byte order turns a big-endian reading into a little-endian one. */
  lemma {:induction false} SwapReadsBigEndian(b: seq<byte>)
    ensures BytesToBigInt(SwapEndianness(b)) == BigEndian(b)
  {
    if b != [] {
      var last := |b| - 1;
      SwapReadsBigEndian(b[..last]);
      var s := SwapEndianness(b);
      assert s[0] == b[last];
      assert s[1..] == SwapEndianness(b[..last]);
    }
  }

  lemma {:induction false} SwapTwice(b: seq<byte>)
    ensures SwapEndianness(SwapEndianness(b)) == b
  {
    var r := SwapEndianness(SwapEndianness(b));
    forall i | 0 <= i < |b| ensures r[i] == b[i] {}
  }

  lemma Pow256Values()
    ensures Pow256(8) == TWO_64
    ensures Pow256(32) == TWO_256
  {
    assert Pow256(4) == 0x1_0000_0000;
    assert Pow256(8) == TWO_64;
    assert Pow256(12) == 0x1_0000_0000_0000_0000_0000_0000;
    assert Pow256(16) == 0x1_0000_0000_0000_0000_0000_0000_0000_0000;
    assert Pow256(20) == 0x1_0000_0000_0000_0000_0000_0000_0000_0000_0000_0000;
    assert Pow256(24) == 0x1_0000_0000_0000_0000_0000_0000_0000_0000_0000_0000_0000_0000;
    assert Pow256(28) == 0x1_0000_0000_0000_0000_0000_0000_0000_0000_0000_0000_0000_0000_0000_0000;
  }
}
