/** Bytes, machine widths and the little-endian numbers that the file and wire formats share. */
module Bytes {
  type byte = x: int | 0 <= x < 256

  const TWO_32 := 0x1_0000_0000
  const TWO_64 := 0x1_0000_0000_0000_0000

  type uint32 = x: int | 0 <= x < TWO_32
  type uint64 = x: int | 0 <= x < TWO_64

  function Pow2(n: nat): (p: nat)
    ensures p > 0
  {
    if n == 0 then 1 else 2 * Pow2(n - 1)
  }

  function Pow256(n: nat): (p: nat)
    ensures p > 0
  {
    if n == 0 then 1 else 256 * Pow256(n - 1)
  }

  /** A hash, or any other 256-bit value, as its bytes. */
  type Bytes32 = s: seq<byte> | |s| == 32 witness ToLE(0, 32)

  /** The number whose little-endian bytes are `bs`. */
  function FromLE(bs: seq<byte>): nat {
    if bs == [] then 0 else bs[0] + 256 * FromLE(bs[1..])
  }

  /** The low `n` bytes of `v`, lowest first. */
  function ToLE(v: nat, n: nat): (bs: seq<byte>)
    ensures |bs| == n
  {
    if n == 0 then [] else [v % 256] + ToLE(v / 256, n - 1)
  }

  lemma {:induction false} FromToLE(v: nat, n: nat)
    requires v < Pow256(n)
    ensures FromLE(ToLE(v, n)) == v
  {
    if n > 0 {
      FromToLE(v / 256, n - 1);
      assert ToLE(v, n)[1..] == ToLE(v / 256, n - 1);
    }
  }

  lemma {:induction false} ToFromLE(bs: seq<byte>)
    ensures FromLE(bs) < Pow256(|bs|) && ToLE(FromLE(bs), |bs|) == bs
  {
    if bs != [] {
      ToFromLE(bs[1..]);
      assert bs == [bs[0]] + bs[1..];
    }
  }

  lemma FromLE2(bs: seq<byte>)
    requires |bs| == 2
    ensures FromLE(bs) == bs[0] + (bs[1] as int) * 0x100
  {
    assert FromLE(bs[1..][1..]) == 0;
  }

  lemma FromLE4(bs: seq<byte>)
    requires |bs| == 4
    ensures FromLE(bs) == bs[0] + (bs[1] as int) * 0x100 + (bs[2] as int) * 0x1_0000 + (bs[3] as int) * 0x100_0000
  {
    FromLE2(bs[2..]);
    assert bs[1..][1..] == bs[2..];
  }

  lemma Widths()
    ensures Pow256(1) == 0x100 && Pow256(2) == 0x1_0000 && Pow256(4) == TWO_32 && Pow256(8) == TWO_64
  {
    assert Pow256(0) == 1;
    assert Pow256(1) == 0x100;
    assert Pow256(2) == 0x1_0000;
    assert Pow256(3) == 0x100_0000;
    assert Pow256(4) == TWO_32;
    assert Pow256(5) == 0x100_0000_0000;
    assert Pow256(6) == 0x1_0000_0000_0000;
    assert Pow256(7) == 0x100_0000_0000_0000;
  }

  /** A quotient and a remainder are what division gives. */
  lemma ModIs(v: nat, m: nat, q: nat, r: nat)
    requires 0 <= r < m && v == m * q + r
    ensures v % m == r && v / m == q
  {
    var x, y := v / m, v % m;
    assert v == m * x + y && 0 <= y < m;
    Apart(m, q, x);
    Apart(m, x, q);
  }

  /** Multiples of `m` that differ are at least `m` apart. */
  lemma Apart(m: nat, a: nat, b: nat)
    ensures a < b ==> m * a + m <= m * b
  {
    if a < b {
      assert m * b == m * a + m + m * (b - a - 1);
    }
  }
}
