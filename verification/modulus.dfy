/**
 The modulus byte length k. The encoder and decoder derive it from the
 number of hexadecimal digits of n: half the digit count, rounded up. This
 module shows that this is ceil(bitLength(n) / 8), the octet length of n
 that RFC 8017 uses, and that n then occupies exactly k bytes.
 */
module ModulusLength {
  import opened Bytes

  /** Number of hexadecimal digits in the printed form of n (at least one). */
  function HexDigits(n: nat): (d: nat)
    ensures d >= 1
  {
    if n < 16 then 1 else 1 + HexDigits(n / 16)
  }

  /** k as computed from the hexadecimal digit count d of n: d / 2 when d is
      even, d / 2 + 1 when it is odd. */
  function ByteLength(n: nat): nat
  {
    var d := HexDigits(n);
    if d % 2 == 1 then d / 2 + 1 else d / 2
  }

  /** Number of significant bits of n. */
  function BitLength(n: nat): nat
  {
    if n == 0 then 0 else 1 + BitLength(n / 2)
  }

  function Pow2(e: nat): (r: nat)
    ensures r >= 1
  {
    if e == 0 then 1 else 2 * Pow2(e - 1)
  }

  lemma {:induction false} Pow2Monotonic(a: nat, b: nat)
    requires a <= b
    ensures Pow2(a) <= Pow2(b)
    decreases b
  {
    if a < b {
      Pow2Monotonic(a, b - 1);
    }
  }

  lemma {:induction false} Pow256IsPow2(e: nat)
    ensures Pow256(e) == Pow2(8 * e)
  {
    if e > 0 {
      Pow256IsPow2(e - 1);
      var p := Pow2(8 * (e - 1));
      assert Pow2(8 * e) == 2 * Pow2(8 * e - 1);
      assert Pow2(8 * e - 1) == 2 * Pow2(8 * e - 2);
      assert Pow2(8 * e - 2) == 2 * Pow2(8 * e - 3);
      assert Pow2(8 * e - 3) == 2 * Pow2(8 * e - 4);
      assert Pow2(8 * e - 4) == 2 * Pow2(8 * e - 5);
      assert Pow2(8 * e - 5) == 2 * Pow2(8 * e - 6);
      assert Pow2(8 * e - 6) == 2 * Pow2(8 * e - 7);
      assert Pow2(8 * e - 7) == 2 * p;
    }
  }

  /** n has BitLength(n) significant bits: 2^(b-1) <= n < 2^b. */
  lemma {:induction false} BitLengthBounds(n: nat)
    requires n > 0
    ensures BitLength(n) >= 1
    ensures Pow2(BitLength(n) - 1) <= n < Pow2(BitLength(n))
  {
    if n > 1 {
      BitLengthBounds(n / 2);
    }
  }

  /** Four bits fewer for every hexadecimal digit dropped. */
  lemma BitLengthDiv16(n: nat)
    requires n >= 16
    ensures BitLength(n) == 4 + BitLength(n / 16)
  {
    assert BitLength(n) == 1 + BitLength(n / 2);
    assert BitLength(n / 2) == 1 + BitLength(n / 4);
    assert BitLength(n / 4) == 1 + BitLength(n / 8);
    assert BitLength(n / 8) == 1 + BitLength(n / 16);
  }

  /** The hexadecimal digit count is ceil(bitLength / 4). */
  lemma {:induction false} HexDigitsOfBits(n: nat)
    requires n > 0
    ensures HexDigits(n) == (BitLength(n) + 3) / 4
  {
    if n < 16 {
      BitLengthBounds(n);
      if BitLength(n) > 4 {
        Pow2Monotonic(4, BitLength(n) - 1);
      }
    } else {
      BitLengthDiv16(n);
      HexDigitsOfBits(n / 16);
    }
  }

  /** The digit-count computation of k agrees with ceil(bitLength(n) / 8). */
  lemma ByteLengthIsCeilBits(n: nat)
    requires n > 0
    ensures ByteLength(n) == (BitLength(n) + 7) / 8
  {
    HexDigitsOfBits(n);
  }

  /** n fits in ByteLength(n) bytes and in no fewer: 256^(k-1) <= n < 256^k. */
  lemma ByteLengthBounds(n: nat)
    requires n > 0
    ensures ByteLength(n) >= 1
    ensures Pow256(ByteLength(n) - 1) <= n < Pow256(ByteLength(n))
  {
    var b := BitLength(n);
    var k := ByteLength(n);
    ByteLengthIsCeilBits(n);
    BitLengthBounds(n);
    Pow256IsPow2(k - 1);
    Pow256IsPow2(k);
    Pow2Monotonic(8 * (k - 1), b - 1);
    Pow2Monotonic(b, 8 * k);
  }
}
