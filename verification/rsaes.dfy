/**
 RSAES-OAEP encryption and decryption around the EME-OAEP transform. The
 RSA primitive itself (modular exponentiation under (n, e) and (p, q, d)) is
 outside this model; it is a parameter, a pair of maps on byte strings.
 */
module Rsaes {
  import opened Hashing
  import opened Results
  import opened Mgf1
  import opened Oaep
  import opened ModulusLength

  /** The RSA primitive for one key pair: `encrypt` under the public key and
      `decrypt` under the private key, each on big-endian byte strings. */
  datatype Primitive = Primitive(encrypt: seq<bv8> -> seq<bv8>, decrypt: seq<bv8> -> seq<bv8>)

  /** The primitive takes every k-byte encoded message (its leading zero byte
      keeps it below the modulus) to a k-byte ciphertext that decrypts back
      to it. */
  ghost predicate InvertsOn(rsa: Primitive, k: nat)
  {
    forall em :: 0 < |em| == k && em[0] == 0 ==> |rsa.encrypt(em)| == k && rsa.decrypt(rsa.encrypt(em)) == em
  }

  /** Encrypts `m` under the key with modulus n: EME-OAEP encoding for the
      modulus length, then the primitive. */
  function Encrypt(hash: HashFunction, rsa: Primitive, n: nat, m: seq<bv8>, seed: seq<bv8>, tag: seq<bv8>): (r: Result<seq<bv8>>)
    requires |seed| == HLen
    ensures var k := ByteLength(n);
      r.Ok? <==> |m| <= MaxMessageLength(k) && |tag| <= MaxInput && k - HLen - 1 <= MaxMaskLength
    ensures |m| > MaxMessageLength(ByteLength(n)) ==> r == Err(MessageTooLong)
    ensures InvertsOn(rsa, ByteLength(n)) && r.Ok? ==> |r.value| == ByteLength(n)
  {
    var em :- Encode(hash, ByteLength(n), m, seed, tag);
    Ok(rsa.encrypt(em))
  }

  /** Decrypts ciphertext `c` under the key with primes p and q. A ciphertext
      of the wrong length is refused before the primitive is consulted. */
  function Decrypt(hash: HashFunction, rsa: Primitive, p: nat, q: nat, c: seq<bv8>, tag: seq<bv8>): (r: Result<seq<bv8>>)
    ensures var k := ByteLength(p * q);
      |c| != k || k < MinModulusLength ==> r == Err(CiphertextLength)
    ensures r.Ok? ==> |r.value| <= MaxMessageLength(ByteLength(p * q))
  {
    var k := ByteLength(p * q);
    if |c| != k || k < MinModulusLength then Err(CiphertextLength)
    else Decode(hash, k, rsa.decrypt(c), tag)
  }

  /** Round trip through the primitive: decrypting the encryption of `m`
      with the matching key and the same tag gives `m` back. */
  lemma DecryptEncrypt(hash: HashFunction, rsa: Primitive, p: nat, q: nat, m: seq<bv8>, seed: seq<bv8>, tag: seq<bv8>)
    requires |seed| == HLen
    requires InvertsOn(rsa, ByteLength(p * q))
    requires |m| <= MaxMessageLength(ByteLength(p * q)) && |tag| <= MaxInput
    requires ByteLength(p * q) - HLen - 1 <= MaxMaskLength
    ensures Encrypt(hash, rsa, p * q, m, seed, tag).Ok?
    ensures Decrypt(hash, rsa, p, q, Encrypt(hash, rsa, p * q, m, seed, tag).value, tag) == Ok(m)
  {
    var k := ByteLength(p * q);
    DecodeEncode(hash, k, m, seed, tag);
    var em := Encode(hash, k, m, seed, tag).value;
    assert rsa.decrypt(rsa.encrypt(em)) == em;
  }

  /** The encryption entry point's default seed is drawn once, when the
      function is defined, so every call made without a seed in one process
      uses the same `processSeed`. Such ciphertexts then reveal whether two
      messages are equal: they coincide exactly when the messages do. */
  lemma DefaultSeedRevealsEquality(hash: HashFunction, rsa: Primitive, n: nat, processSeed: seq<bv8>, m1: seq<bv8>, m2: seq<bv8>, tag: seq<bv8>)
    requires |processSeed| == HLen
    requires InvertsOn(rsa, ByteLength(n))
    requires Encrypt(hash, rsa, n, m1, processSeed, tag).Ok? && Encrypt(hash, rsa, n, m2, processSeed, tag).Ok?
    ensures Encrypt(hash, rsa, n, m1, processSeed, tag) == Encrypt(hash, rsa, n, m2, processSeed, tag) <==> m1 == m2
  {
    var k := ByteLength(n);
    if Encrypt(hash, rsa, n, m1, processSeed, tag) == Encrypt(hash, rsa, n, m2, processSeed, tag) {
      var em1 := Encode(hash, k, m1, processSeed, tag).value;
      var em2 := Encode(hash, k, m2, processSeed, tag).value;
      assert rsa.decrypt(rsa.encrypt(em1)) == em1;
      assert rsa.decrypt(rsa.encrypt(em2)) == em2;
      DecodeEncode(hash, k, m1, processSeed, tag);
      DecodeEncode(hash, k, m2, processSeed, tag);
    }
  }

  /** With the seed drawn afresh for each call, two encryptions of the same
      message under different seeds are different ciphertexts. */
  lemma FreshSeedsGiveDistinctCiphertexts(hash: HashFunction, rsa: Primitive, n: nat, m: seq<bv8>, seed1: seq<bv8>, seed2: seq<bv8>, tag: seq<bv8>)
    requires |seed1| == HLen && |seed2| == HLen && seed1 != seed2
    requires InvertsOn(rsa, ByteLength(n))
    requires Encrypt(hash, rsa, n, m, seed1, tag).Ok?
    ensures Encrypt(hash, rsa, n, m, seed1, tag) != Encrypt(hash, rsa, n, m, seed2, tag)
  {
    var k := ByteLength(n);
    if Encrypt(hash, rsa, n, m, seed1, tag) == Encrypt(hash, rsa, n, m, seed2, tag) {
      var em1 := Encode(hash, k, m, seed1, tag).value;
      var em2 := Encode(hash, k, m, seed2, tag).value;
      assert rsa.decrypt(rsa.encrypt(em1)) == em1;
      assert rsa.decrypt(rsa.encrypt(em2)) == em2;
      EncodeDeterminesSeed(hash, k, m, seed1, seed2, tag);
    }
  }
}
