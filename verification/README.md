# EME-OAEP encoding and decoding, modelled in Dafny

This project models the byte-level core of a small RSAES-OAEP implementation
(`src/oaep.py`): the mask generation function MGF1 (`mgf`), the OAEP encoding
steps of `oaep_encrypt` and the OAEP decoding steps of `oaep_decrypt`, as
defined in RFC 8017 (PKCS #1 v2.2), section 7.1.1 (encryption), section 7.1.2
(decryption) and Appendix B.2.1 (MGF1).

Byte strings are `seq<bv8>`. The source keeps the seed, the masks, DB and EM
as hexadecimal strings; a string of `2L` hex digits is modelled as an `L`-byte
sequence. The message, the tag and the ciphertext are already bytes. The
integer XOR followed by fixed-width formatting becomes a byte-wise XOR of
equal-length sequences.

The modules:

- `Results`: the failure kinds and a `Result` type. The source's length
  `IndexError`s become `HashInputTooLong`, `MaskTooLong`, `MessageTooLong` and
  `CiphertextLength`. Its three structural `ValueError`s in decoding are merged
  into one opaque `DecryptionError`.
- `Bytes`: zero runs, XOR, and the big-endian counter encoding `BE32`.
- `Hashing`: the digest. SHA-1 is abstract. A hash function is any function into
  20-byte digests (`HLen = 20`). `Digest` refuses inputs longer than 2^62 - 2
  bytes, as `get_hash` does.
- `Mgf1`: `Mask` (MGF1 as a function) and `MaskLoop` (the source's loop, proved
  equal to it).
- `Oaep`: `DataBlock`, `Unpad`, `Encode` (EM from message, seed and tag) and
  `Decode` (message from EM and tag), with the round-trip lemmas.
- `ModulusLength`: `k` computed from the hex digit count of `n`, as the source
  does it.
- `Rsaes`: encryption and decryption around the transform. The RSA primitive is
  an abstract pair of byte-string maps.

The hash, the seed and the RSA primitive are parameters. There is no I/O,
randomness or clock anywhere in the model.

The code departs from RFC 8017 on these points, among others:

- RFC 8017 limits the SHA-1 input to 2^61 - 1 octets. `get_hash`
  (`src/oaep.py:12`) allows up to 2^62 - 2 bytes, and `Hashing.MaxInput` uses
  that bound.
- RFC 8017 checks the label length first: step 1a of sections 7.1.1 and 7.1.2.
  The code checks the message length (`src/oaep.py:65`) or the ciphertext
  length (`src/oaep.py:101`) first. It refuses an over-long label only later,
  when it hashes it (`src/oaep.py:67`, `src/oaep.py:105`). So `Oaep.Encode`
  reports `MessageTooLong` and `Oaep.Decode` reports `CiphertextLength` ahead
  of `HashInputTooLong`. The model follows the code here.
- RFC 8017 section 7.1.2 reports every decoding failure as one "decryption
  error", and the note under step 3g asks that the failures be
  indistinguishable. The code raises an `IndexError` for a wrong ciphertext
  length (`src/oaep.py:102`) and for an over-long label (`src/oaep.py:13`). It
  raises three `ValueError`s with different messages for a non-zero leading
  byte (`src/oaep.py:108`), an lHash mismatch (`src/oaep.py:119`) and a missing
  0x01 separator (`src/oaep.py:124`). The model follows the code for the length
  failures: `CiphertextLength` and `HashInputTooLong` stay distinct errors. For
  the three structural failures it follows the RFC: they share the single
  `DecryptionError`.
- Step 2d of RFC 8017 section 7.1.1 asks for a fresh random seed of hLen
  octets for each encryption. The code evaluates its default seed only once
  (`src/oaep.py:50`), and it does not check the length of a seed that the
  caller supplies. The first point is under "## Findings". The second is
  under "## Left out", at `Oaep.Encode`.

## Model

| member | source | states |
|---|---|---|
| Hashing.Digest | src/oaep.py:6-15 | the digest succeeds exactly when the input is at most 2^62 - 2 bytes; it then has HLen = 20 bytes, and otherwise the failure is HashInputTooLong |
| Bytes.Be32Injective | src/oaep.py:45 | the 4-byte counter encoding `'%08x' % i` is injective on counters below 2^32 |
| Bytes.I2ospInjective | src/oaep.py:45 | numbers below 256^len have distinct `len`-byte big-endian encodings, so fixed-width formatting loses nothing |
| Bytes.XorInvolution | src/oaep.py:111-116 | XOR with the same mask twice restores the original string; decoding relies on this to undo the encoder's masking |
| Mgf1.Blocks | src/oaep.py:44-46 | concatenating `count` digests gives exactly count * HLen bytes |
| Mgf1.BlocksContent | src/oaep.py:44-46 | byte j of the concatenation is byte j mod HLen of Hash(seed ‖ BE32(j div HLen)) |
| Mgf1.Mask | src/oaep.py:27-47 | MGF1 fails with MaskTooLong exactly when maskLen > 2^32 * HLen; within that bound its only failure is HashInputTooLong, and only when a digest is needed; otherwise the mask has exactly maskLen bytes |
| Mgf1.MaskContent | src/oaep.py:41-47 | every mask byte j equals byte j mod HLen of Hash(seed ‖ BE32(j div HLen)), so the mask depends only on (seed, maskLen), byte for byte |
| Mgf1.MaskPrefix | src/oaep.py:44-47 | a shorter mask from the same seed is a prefix of a longer one: truncation only cuts the tail |
| Mgf1.WholeBlocks | src/oaep.py:41-43 | when maskLen is a multiple of HLen, the mask is exactly maskLen / HLen whole digests, with no truncation |
| Mgf1.MaskLoop | src/oaep.py:35-47 | the source's loop (rounds = maskLen div HLen, minus one when exact, then rounds + 1 digests, cut to maskLen) computes MGF1, including its failures |
| Oaep.DataBlock | src/oaep.py:67-72 | DB has exactly k - HLen - 1 bytes: lHash first, then zeros, then 0x01 just before M, then M |
| Oaep.LongestMessageHasNoPadding | src/oaep.py:68-71 | a message of the maximal length k - 2*HLen - 2 gets an empty PS: DB = lHash ‖ 0x01 ‖ M |
| Oaep.SkipZeros | src/oaep.py:120-122 | the scan stops at the first non-zero byte at or after its start, or at the end; every byte skipped is zero |
| Oaep.Unpad | src/oaep.py:117-127 | the data-block parser fails only with the opaque DecryptionError, and a recovered message is shorter than DB minus the hash |
| Oaep.UnpadSpec | src/oaep.py:117-127 | the parser returns M exactly when DB is the block lHash ‖ 0x00… ‖ 0x01 ‖ M that the encoder builds; it accepts nothing else |
| Oaep.Encode | src/oaep.py:63-79 | encoding succeeds exactly when the message has at most k - 2*HLen - 2 bytes, the tag fits the hash and the DB mask fits MGF1; a longer message gives MessageTooLong; EM has exactly k bytes and starts with 0x00 |
| Oaep.Decode | src/oaep.py:96-128 | wrong EM length or k < 2*HLen + 2 gives CiphertextLength; a non-zero leading byte gives DecryptionError; once the lengths and the tag are acceptable, every failure (leading byte, label hash, separator) is the same opaque DecryptionError; a recovered message is at most k - 2*HLen - 2 bytes |
| Oaep.DecodeEncode | src/oaep.py:109-128 | round trip: the encoding of M under any seed decodes to M under the same tag |
| Oaep.DecodeOnlyAcceptsEncodings | src/oaep.py:109-128 | whenever decoding returns M, the input is the encoding of M for some seed |
| Oaep.EncodingDecodes | src/oaep.py:73-79 | if EM is the encoding of M under a tag for some seed, EM decodes to M under that tag |
| Oaep.DecodeIffEncoding | src/oaep.py:73-79 | EM decodes to M under a tag if and only if EM is an encoding of M under that tag for some seed |
| Oaep.WrongTagRejected | src/oaep.py:117-119 | decoding under a tag whose hash differs from the encoding tag's hash fails with DecryptionError |
| Oaep.RecoveredSeed | src/oaep.py:109-113 | XOR of EM's seed field with the MGF1 mask of its DB field gives back the encoder's seed |
| Oaep.EncodeDeterminesSeed | src/oaep.py:73-79 | two encodings of the same message and tag are equal only when their seeds are equal |
| ModulusLength.HexDigitsOfBits | src/oaep.py:61 | n > 0 has ceil(bitLength(n) / 4) hexadecimal digits |
| ModulusLength.ByteLengthIsCeilBits | src/oaep.py:61-62 | k from the hex digit count (half the count, rounded up) equals ceil(bitLength(n) / 8) for every n > 0 |
| ModulusLength.ByteLengthBounds | src/oaep.py:98-99 | with that k, 256^(k-1) <= n < 256^k: n occupies exactly k bytes |
| Rsaes.Encrypt | src/oaep.py:50-82 | encryption succeeds under the same conditions as encoding for k computed from n; a long message gives MessageTooLong; the ciphertext has k bytes when the primitive is a k-byte permutation |
| Rsaes.Decrypt | src/oaep.py:100-104 | a ciphertext whose length is not k, or k < 2*HLen + 2, is refused with CiphertextLength whatever the primitive does |
| Rsaes.DecryptEncrypt | src/oaep.py:80-104 | with a primitive that inverts on k-byte encoded messages, decrypting the encryption of M with the same tag gives M |
| Rsaes.DefaultSeedRevealsEquality | src/oaep.py:50 | all calls that use the default seed share one seed, so two such ciphertexts are equal exactly when their messages are equal |
| Rsaes.FreshSeedsGiveDistinctCiphertexts | src/oaep.py:24 | with a fresh seed per call, encryptions of the same message under different seeds are different ciphertexts |

## Left out

- The RSA primitive (`encrypt`, `decrypt` and `generate_key` from the imported `rsa` module) is modular exponentiation in code that is not part of this model. It is the parameter `Rsaes.Primitive`. Its big-endian re-formatting to `2k` hex digits (`src/oaep.py:81`, `src/oaep.py:104`) is folded into that parameter.
- SHA-1 is abstract. Only its 20-byte output length and the wrapper's input bound are modelled. So no known-answer test vector can be stated.
- Tamper sensitivity (a flipped ciphertext bit is rejected with overwhelming probability) is a probabilistic property of the hash and is not modelled. The deterministic parts are: `Oaep.DecodeIffEncoding` says that only genuine encodings decode, and `Oaep.WrongTagRejected` covers a wrong tag.
- Randomness (`get_seed`, `secrets.token_hex`) is left out. The seed is an explicit parameter of every encoding.
- Hex-string plumbing is left out: the zero-prefixing of odd-length seed strings in `mgf`, the conversion of a `str` message or ciphertext to UTF-8 bytes, and the integer XOR with fixed-width formatting. The model works on byte sequences directly.
- Error messages and exception classes are not modelled. The three structural decoding failures are deliberately one opaque `DecryptionError`.
- Constant-time comparison and other timing behaviour are not modelled.
- The demonstration entry point `main` only does I/O and is not modelled.
- Oaep.Encode: requires a seed of exactly HLen = 20 bytes. The source does not check the length of a seed that the caller supplies.
- Rsaes.Encrypt: requires a seed of exactly HLen = 20 bytes, for the same reason.
- Rsaes.Decrypt: the primitive's output is passed to `Oaep.Decode`, which checks its length again. In the source, the formatting to `2k` hex digits cannot produce a shorter string. For a real primitive it cannot produce a longer one either, because the result is below n < 256^k (`ModulusLength.ByteLengthBounds`). A primitive that returns more than k bytes gets `CiphertextLength` here. In the source, the same output would fail the leading-byte test at `src/oaep.py:107` instead.

## Findings

| source | as written | input that shows it | evidently intended | confidence | as-written member | corrected member |
|---|---|---|---|---|---|---|
| src/oaep.py:50 | the default `seed=get_seed(20)` is evaluated once, when the function is defined, so every call without a seed reuses it | two calls `oaep_encrypt(n, e, m)` in one process with the same m: their ciphertexts are identical, and for different messages they differ | a fresh random seed for each call, as the parameter's documentation says ("默认随机生成", randomly generated by default) | high; not executed | Rsaes.DefaultSeedRevealsEquality | Rsaes.FreshSeedsGiveDistinctCiphertexts |
