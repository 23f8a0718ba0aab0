/** Byte-string helpers shared by MGF1 and the OAEP encoder and decoder. */
module Bytes {

  const TwoTo32: nat := 0x1_0000_0000

  /** A run of `n` zero bytes, such as the padding string PS. */
  function Zeros(n: nat): (r: seq<bv8>)
    ensures |r| == n
    ensures forall i :: 0 <= i < n ==> r[i] == 0
  {
    seq(n, _ => 0)
  }

  /** Byte-wise exclusive or of two strings of the same length. */
  function Xor(a: seq<bv8>, b: seq<bv8>): (r: seq<bv8>)
    requires |a| == |b|
    ensures |r| == |a|
    ensures forall i :: 0 <= i < |r| ==> r[i] == a[i] ^ b[i]
  {
    seq(|a|, i requires 0 <= i < |a| => a[i] ^ b[i])
  }

  /** Masking twice with the same mask gives the original string back. */
  lemma XorInvolution(a: seq<bv8>, mask: seq<bv8>)
    requires |a| == |mask|
    ensures Xor(Xor(a, mask), mask) == a
  {
    var r := Xor(Xor(a, mask), mask);
    forall i | 0 <= i < |a|
      ensures r[i] == a[i]
    {
      assert r[i] == (a[i] ^ mask[i]) ^ mask[i];
    }
  }

  /** A number below 256 survives the round trip through a byte. */
  lemma ByteValue(x: int)
    requires 0 <= x < 0x100
    ensures (x as bv8) as int == x % 0x100
  {
  }

  lemma SmallMod(x: int)
    requires 0 <= x < 0x100
    ensures x % 0x100 == x
  {
  }

  /** 256^e. */
  function Pow256(e: nat): (r: nat)
    ensures r >= 1
  {
    if e == 0 then 1 else 0x100 * Pow256(e - 1)
  }

  /** The `len`-byte big-endian encoding of `x`, keeping its low `len` bytes
      (I2OSP(x, len) in RFC 8017 when x < 256^len). */
  function I2osp(x: nat, len: nat): (r: seq<bv8>)
    ensures |r| == len
  {
    if len == 0 then [] else I2osp(x / 0x100, len - 1) + [(x % 0x100) as bv8]
  }

  /** Two numbers whose low bytes encode alike agree modulo 256. */
  lemma LowByteInjective(x: nat, y: nat)
    ensures (x % 0x100) as bv8 == (y % 0x100) as bv8 ==> x % 0x100 == y % 0x100
  {
    var lx, ly := x % 0x100, y % 0x100;
    ByteValue(lx);
    ByteValue(ly);
    SmallMod(lx);
    SmallMod(ly);
  }

  /** Numbers below 256^len have distinct `len`-byte encodings. */
  lemma {:induction false} I2ospInjective(x: nat, y: nat, len: nat)
    requires x < Pow256(len) && y < Pow256(len)
    requires I2osp(x, len) == I2osp(y, len)
    ensures x == y
  {
    if len > 0 {
      var ex, ey := I2osp(x, len), I2osp(y, len);
      assert ex[len - 1] == ey[len - 1];
      LowByteInjective(x, y);
      assert ex[..len - 1] == ey[..len - 1];
      DivBound(x, Pow256(len - 1));
      DivBound(y, Pow256(len - 1));
      I2ospInjective(x / 0x100, y / 0x100, len - 1);
    }
  }

  lemma DivBound(x: nat, p: nat)
    requires x < 0x100 * p
    ensures x / 0x100 < p
  {
    assert 0x100 * (x / 0x100) <= x;
  }

  /** The four-byte big-endian encoding of an MGF1 counter. */
  function Be32(i: nat): (r: seq<bv8>)
    requires i < TwoTo32
    ensures |r| == 4
  {
    I2osp(i, 4)
  }

  /** Distinct counters below 2^32 give distinct encodings. */
  lemma Be32Injective(i: nat, j: nat)
    requires i < TwoTo32 && j < TwoTo32
    requires Be32(i) == Be32(j)
    ensures i == j
  {
    assert Pow256(4) == TwoTo32;
    I2ospInjective(i, j, 4);
  }
}
