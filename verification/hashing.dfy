/**
 The message digest used by OAEP, kept abstract: only its fixed output
 length HLen (20 bytes, a SHA-1 digest) and the input-length bound of the
 wrapper around it are modelled.
 */
module Hashing {
  import opened Results

  /** Length of a digest in bytes. */
  const HLen: nat := 20

  /** Longest input the digest wrapper accepts: 2^62 - 2 bytes. */
  const MaxInput: nat := 0x4000_0000_0000_0000 - 2

  /** A message digest: exactly HLen bytes. */
  type DigestValue = d: seq<bv8> | |d| == HLen
    witness seq(20, _ => 0)

  /** A hash function: any function into HLen-byte digests. */
  type HashFunction = seq<bv8> -> DigestValue

  /** The digest of `data`, refused when `data` is longer than MaxInput. */
  function Digest(hash: HashFunction, data: seq<bv8>): (r: Result<DigestValue>)
    ensures r.Ok? <==> |data| <= MaxInput
    ensures r.Ok? ==> r.value == hash(data)
    ensures r.Err? ==> r.error == HashInputTooLong
  {
    if |data| > MaxInput then Err(HashInputTooLong) else Ok(hash(data))
  }
}
