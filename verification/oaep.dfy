/**
 EME-OAEP encoding and decoding (RFC 8017, sections 7.1.1 step 2 and 7.1.2
 step 3) for a modulus of `k` bytes:

   DB = lHash ‖ PS ‖ 0x01 ‖ M            (k - HLen - 1 bytes)
   maskedDB   = DB   XOR MGF1(seed, k - HLen - 1)
   maskedSeed = seed XOR MGF1(maskedDB, HLen)
   EM = 0x00 ‖ maskedSeed ‖ maskedDB      (k bytes)
 */
module Oaep {
  import opened Bytes
  import opened Hashing
  import opened Results
  import opened Mgf1

  /** Longest message that fits a `k`-byte modulus; negative when none does. */
  function MaxMessageLength(k: nat): int
  {
    k - 2 * HLen - 2
  }

  /** Smallest modulus length the decoder accepts: room for the leading
      zero byte, the masked seed, the tag hash and the 0x01 separator. */
  const MinModulusLength: nat := 2 * HLen + 2

  /** The data block DB = lHash ‖ PS ‖ 0x01 ‖ M, where PS is the zero run that
      brings DB to k - HLen - 1 bytes. */
  function DataBlock(lHash: DigestValue, k: nat, m: seq<bv8>): (db: seq<bv8>)
    requires |m| <= MaxMessageLength(k)
    ensures |db| == k - HLen - 1
    ensures db[..HLen] == lHash
    ensures forall i :: HLen <= i < |db| - |m| - 1 ==> db[i] == 0
    ensures db[|db| - |m| - 1] == 1
    ensures db[|db| - |m|..] == m
  {
    var db := lHash + Zeros(MaxMessageLength(k) - |m|) + [1] + m;
    assert db[|db| - |m|..] == m;
    db
  }

  /** The index of the first non-zero byte of `db` at or after `from`, or
      |db| when there is none. */
  function SkipZeros(db: seq<bv8>, from: nat): (i: nat)
    requires from <= |db|
    ensures from <= i <= |db|
    ensures forall j :: from <= j < i ==> db[j] == 0
    ensures i < |db| ==> db[i] != 0
    decreases |db| - from
  {
    if from == |db| || db[from] != 0 then from else SkipZeros(db, from + 1)
  }

  /** Recovers M from an unmasked data block: the first HLen bytes must be
      the tag hash, and the first non-zero byte after them must be 0x01. */
  function Unpad(db: seq<bv8>, lHash: DigestValue): (r: Result<seq<bv8>>)
    requires |db| >= HLen
    ensures r.Err? ==> r.error == DecryptionError
    ensures r.Ok? ==> |r.value| < |db| - HLen
  {
    if db[..HLen] != lHash then Err(DecryptionError)
    else
      var i := SkipZeros(db, HLen);
      if i == |db| || db[i] != 1 then Err(DecryptionError)
      else Ok(db[i + 1..])
  }

  /** Unpad accepts exactly the data blocks DataBlock builds, and returns the
      message they were built from. */
  lemma UnpadSpec(db: seq<bv8>, lHash: DigestValue, m: seq<bv8>)
    requires |db| >= HLen
    ensures Unpad(db, lHash) == Ok(m)
        <==> |m| < |db| - HLen && db == DataBlock(lHash, |db| + HLen + 1, m)
  {
    var k := |db| + HLen + 1;
    if Unpad(db, lHash) == Ok(m) {
      var i := SkipZeros(db, HLen);
      var built := DataBlock(lHash, k, m);
      assert |built| == |db|;
      forall j | 0 <= j < |db|
        ensures db[j] == built[j]
      {
        if j < HLen {
          assert db[j] == db[..HLen][j];
          assert built[j] == built[..HLen][j];
        } else if j > i {
          assert db[j] == m[j - i - 1];
          assert built[j] == built[|built| - |m|..][j - i - 1];
        }
      }
    }
    if |m| < |db| - HLen && db == DataBlock(lHash, k, m) {
      var sep := |db| - |m| - 1;
      var i := SkipZeros(db, HLen);
      assert i == sep;
      assert db[i + 1..] == db[|db| - |m|..];
    }
  }

  /** EME-OAEP encoding of message `m` under `tag` with the given seed:
      the k-byte encoded message EM. */
  function Encode(hash: HashFunction, k: nat, m: seq<bv8>, seed: seq<bv8>, tag: seq<bv8>): (r: Result<seq<bv8>>)
    requires |seed| == HLen
    ensures r.Ok? <==> |m| <= MaxMessageLength(k) && |tag| <= MaxInput && k - HLen - 1 <= MaxMaskLength
    ensures |m| > MaxMessageLength(k) ==> r == Err(MessageTooLong)
    ensures r.Ok? ==> |r.value| == k && r.value[0] == 0
  {
    if |m| > MaxMessageLength(k) then Err(MessageTooLong)
    else
      var lHash :- Digest(hash, tag);
      var db := DataBlock(lHash, k, m);
      var dbMask :- Mask(hash, seed, k - HLen - 1);
      var maskedDb := Xor(db, dbMask);
      // maskedDb is at most MaxMaskLength bytes, so this call cannot fail
      var seedMask := Mask(hash, maskedDb, HLen).value;
      var maskedSeed := Xor(seed, seedMask);
      Ok([0] + maskedSeed + maskedDb)
  }

  /** EME-OAEP decoding of an encoded message `em` for a k-byte modulus. */
  function Decode(hash: HashFunction, k: nat, em: seq<bv8>, tag: seq<bv8>): (r: Result<seq<bv8>>)
    ensures |em| != k || k < MinModulusLength ==> r == Err(CiphertextLength)
    ensures |em| == k >= MinModulusLength && |tag| <= MaxInput && em[0] != 0 ==> r == Err(DecryptionError)
    ensures |em| == k >= MinModulusLength && |tag| <= MaxInput && k - HLen - 1 <= MaxMaskLength && r.Err?
        ==> r == Err(DecryptionError)
    ensures r.Ok? ==> |r.value| <= MaxMessageLength(k)
  {
    if |em| != k || k < MinModulusLength then Err(CiphertextLength)
    else
      var lHash :- Digest(hash, tag);
      if em[0] != 0 then Err(DecryptionError)
      else
        var maskedSeed := em[1..1 + HLen];
        var maskedDb := em[1 + HLen..];
        var seedMask :- Mask(hash, maskedDb, HLen);
        var seed := Xor(maskedSeed, seedMask);
        var dbMask :- Mask(hash, seed, k - HLen - 1);
        var db := Xor(maskedDb, dbMask);
        Unpad(db, lHash)
  }

  /** A message of the largest length gets an empty padding string:
      DB is just lHash ‖ 0x01 ‖ M. */
  lemma LongestMessageHasNoPadding(lHash: DigestValue, k: nat, m: seq<bv8>)
    requires |m| == MaxMessageLength(k)
    ensures DataBlock(lHash, k, m) == lHash + [1] + m
  {
    assert Zeros(0) == [];
  }

  /** Round trip: decoding the encoding of `m`, under the same tag, gives `m`
      back, whatever the seed. */
  lemma DecodeEncode(hash: HashFunction, k: nat, m: seq<bv8>, seed: seq<bv8>, tag: seq<bv8>)
    requires |seed| == HLen
    requires |m| <= MaxMessageLength(k) && |tag| <= MaxInput && k - HLen - 1 <= MaxMaskLength
    ensures Encode(hash, k, m, seed, tag).Ok?
    ensures Decode(hash, k, Encode(hash, k, m, seed, tag).value, tag) == Ok(m)
  {
    var lHash := hash(tag);
    var db := DataBlock(lHash, k, m);
    var dbMask := Mask(hash, seed, k - HLen - 1).value;
    var maskedDb := Xor(db, dbMask);
    var seedMask := Mask(hash, maskedDb, HLen).value;
    var maskedSeed := Xor(seed, seedMask);
    var em := [0] + maskedSeed + maskedDb;
    assert Encode(hash, k, m, seed, tag) == Ok(em);
    assert em[1..1 + HLen] == maskedSeed;
    assert em[1 + HLen..] == maskedDb;
    XorInvolution(seed, seedMask);
    XorInvolution(db, dbMask);
    UnpadSpec(db, lHash, m);
  }

  /** The decoder accepts nothing but encodings: whenever it returns a
      message, the input is the encoding of that message under the same tag
      for some seed. */
  lemma DecodeOnlyAcceptsEncodings(hash: HashFunction, k: nat, em: seq<bv8>, tag: seq<bv8>)
    requires Decode(hash, k, em, tag).Ok?
    ensures exists seed :: |seed| == HLen && Encode(hash, k, Decode(hash, k, em, tag).value, seed, tag) == Ok(em)
  {
    var m := Decode(hash, k, em, tag).value;
    var lHash := hash(tag);
    var maskedSeed := em[1..1 + HLen];
    var maskedDb := em[1 + HLen..];
    var seedMask := Mask(hash, maskedDb, HLen).value;
    var seed := Xor(maskedSeed, seedMask);
    var dbMask := Mask(hash, seed, k - HLen - 1).value;
    var db := Xor(maskedDb, dbMask);
    assert Unpad(db, lHash) == Ok(m);
    UnpadSpec(db, lHash, m);
    XorInvolution(maskedDb, dbMask);
    XorInvolution(maskedSeed, seedMask);
    assert em == [0] + maskedSeed + maskedDb;
    assert Encode(hash, k, m, seed, tag) == Ok(em);
  }

  /** Decoding under a tag whose hash differs from the encoding tag's hash
      fails with the opaque decryption error. */
  lemma WrongTagRejected(hash: HashFunction, k: nat, m: seq<bv8>, seed: seq<bv8>, tag: seq<bv8>, otherTag: seq<bv8>)
    requires |seed| == HLen
    requires |m| <= MaxMessageLength(k) && |tag| <= MaxInput && k - HLen - 1 <= MaxMaskLength
    requires |otherTag| <= MaxInput && hash(otherTag) != hash(tag)
    ensures Encode(hash, k, m, seed, tag).Ok?
    ensures Decode(hash, k, Encode(hash, k, m, seed, tag).value, otherTag) == Err(DecryptionError)
  {
    var db := DataBlock(hash(tag), k, m);
    var dbMask := Mask(hash, seed, k - HLen - 1).value;
    var maskedDb := Xor(db, dbMask);
    var seedMask := Mask(hash, maskedDb, HLen).value;
    var maskedSeed := Xor(seed, seedMask);
    var em := [0] + maskedSeed + maskedDb;
    assert Encode(hash, k, m, seed, tag) == Ok(em);
    assert em[1..1 + HLen] == maskedSeed;
    assert em[1 + HLen..] == maskedDb;
    XorInvolution(seed, seedMask);
    XorInvolution(db, dbMask);
    assert Xor(maskedDb, dbMask)[..HLen] != hash(otherTag);
  }

  /** Any encoding of `m` decodes to `m` under the same tag. */
  lemma EncodingDecodes(hash: HashFunction, k: nat, em: seq<bv8>, tag: seq<bv8>, m: seq<bv8>)
    ensures (exists seed :: |seed| == HLen && Encode(hash, k, m, seed, tag) == Ok(em))
        ==> Decode(hash, k, em, tag) == Ok(m)
  {
    forall seed | |seed| == HLen && Encode(hash, k, m, seed, tag) == Ok(em)
      ensures Decode(hash, k, em, tag) == Ok(m)
    {
      DecodeEncode(hash, k, m, seed, tag);
    }
  }

  /** Decoding inverts encoding exactly: `em` decodes to `m` under `tag` if
      and only if `em` is the encoding of `m` under `tag` for some seed. */
  lemma DecodeIffEncoding(hash: HashFunction, k: nat, em: seq<bv8>, tag: seq<bv8>, m: seq<bv8>)
    ensures Decode(hash, k, em, tag) == Ok(m)
        <==> exists seed :: |seed| == HLen && Encode(hash, k, m, seed, tag) == Ok(em)
  {
    if Decode(hash, k, em, tag) == Ok(m) {
      DecodeOnlyAcceptsEncodings(hash, k, em, tag);
    }
    EncodingDecodes(hash, k, em, tag, m);
  }

  /** The seed can be read back from an encoding: the encoded message
      determines the seed it was made with, so distinct seeds give distinct
      encodings of the same message. */
  lemma EncodeDeterminesSeed(hash: HashFunction, k: nat, m: seq<bv8>, seed: seq<bv8>, other: seq<bv8>, tag: seq<bv8>)
    requires |seed| == HLen && |other| == HLen
    requires |m| <= MaxMessageLength(k) && |tag| <= MaxInput && k - HLen - 1 <= MaxMaskLength
    requires Encode(hash, k, m, seed, tag) == Encode(hash, k, m, other, tag)
    ensures seed == other
  {
    RecoveredSeed(hash, k, m, seed, tag);
    RecoveredSeed(hash, k, m, other, tag);
  }

  /** Unmasking the seed field of an encoding with the mask of its data
      field gives the seed back. */
  lemma RecoveredSeed(hash: HashFunction, k: nat, m: seq<bv8>, seed: seq<bv8>, tag: seq<bv8>)
    requires |seed| == HLen
    requires |m| <= MaxMessageLength(k) && |tag| <= MaxInput && k - HLen - 1 <= MaxMaskLength
    ensures Encode(hash, k, m, seed, tag).Ok?
    ensures var em := Encode(hash, k, m, seed, tag).value;
      Xor(em[1..1 + HLen], Mask(hash, em[1 + HLen..], HLen).value) == seed
  {
    var db := DataBlock(hash(tag), k, m);
    var dbMask := Mask(hash, seed, k - HLen - 1).value;
    var maskedDb := Xor(db, dbMask);
    var seedMask := Mask(hash, maskedDb, HLen).value;
    var maskedSeed := Xor(seed, seedMask);
    var em := [0] + maskedSeed + maskedDb;
    assert Encode(hash, k, m, seed, tag) == Ok(em);
    assert em[1..1 + HLen] == maskedSeed;
    assert em[1 + HLen..] == maskedDb;
    XorInvolution(seed, seedMask);
  }
}
