/** Bytes and big-endian integers, as the wire formats use them. */
module Bytes {
  import opened Bits

  type Byte = b: int | 0 <= b < 256

  type Buf = seq<Byte>

  function Pow256(n: nat): (p: nat)
    ensures p >= 1
  {
    if n == 0 then 1 else 256 * Pow256(n - 1)
  }

  /** The low `n` bytes of `v`, most significant first. */
  function ToBigEndian(v: nat, n: nat): (s: Buf)
    ensures |s| == n
    decreases n
  {
    if n == 0 then [] else ToBigEndian(v / 256, n - 1) + [v % 256]
  }

  function FromBigEndian(s: Buf): (v: nat)
    ensures v < Pow256(|s|)
  {
    if s == [] then 0 else 256 * FromBigEndian(s[..|s| - 1]) + s[|s| - 1]
  }

  /** The byte order: byte `i` has the weight of the bytes behind it. */
  lemma {:induction false} BigEndianBytes(v: nat, n: nat, i: nat)
    requires i < n
    ensures ToBigEndian(v, n)[i] == v / Pow256(n - 1 - i) % 256
    decreases n
  {
    if i < n - 1 {
      BigEndianBytes(v / 256, n - 1, i);
      DivideTwice(v, Pow256(n - 2 - i));
    }
  }

  lemma DivideTwice(v: nat, d: nat)
    requires d > 0
    ensures v / 256 / d == v / (256 * d)
  {
    var q := v / 256 / d;
    var r := v / 256 % d;
    assert v == 256 * (q * d + r) + v % 256;
    assert 256 * (q * d) == q * (256 * d);
    assert 256 * r + v % 256 < 256 * d;
    QuotientAndRemainder(v, 256 * d, q, 256 * r + v % 256);
  }

  lemma {:induction false} BigEndianRoundTrip(v: nat, n: nat)
    requires v < Pow256(n)
    ensures FromBigEndian(ToBigEndian(v, n)) == v
    decreases n
  {
    if n > 0 {
      BigEndianRoundTrip(v / 256, n - 1);
      var s := ToBigEndian(v, n);
      assert s[..n - 1] == ToBigEndian(v / 256, n - 1);
    }
  }

  lemma {:induction false} BigEndianExact(s: Buf)
    ensures ToBigEndian(FromBigEndian(s), |s|) == s
    decreases |s|
  {
    if s != [] {
      BigEndianExact(s[..|s| - 1]);
      assert s == s[..|s| - 1] + [s[|s| - 1]];
    }
  }

  /** The integer in the `n` bytes at the front of a buffer. */
  function Get(s: Buf, n: nat): nat
    requires n <= |s|
  {
    FromBigEndian(s[..n])
  }

  lemma Widths()
    ensures Pow256(1) == 0x100 && Pow256(2) == 0x1_0000
    ensures Pow256(4) == 0x1_0000_0000 && Pow256(8) == 0x1_0000_0000_0000_0000
  {
    assert Pow256(3) == 256 * Pow256(2);
    assert Pow256(4) == 256 * Pow256(3);
    assert Pow256(5) == 256 * Pow256(4);
    assert Pow256(6) == 256 * Pow256(5);
    assert Pow256(7) == 256 * Pow256(6);
  }
}
