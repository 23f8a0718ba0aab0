/**
 MGF1, the mask generation function of RFC 8017 Appendix B.2.1: a seed is
 expanded into a mask of exactly the requested length by concatenating the
 digests Hash(seed ‖ BE32(0)), Hash(seed ‖ BE32(1)), ... and truncating.
 */
module Mgf1 {
  import opened Bytes
  import opened Hashing
  import opened Results

  /** Longest mask MGF1 produces: 2^32 digests. */
  const MaxMaskLength: nat := TwoTo32 * HLen

  /** Digest number `i` of the expansion: Hash(seed ‖ BE32(i)). */
  function Block(hash: HashFunction, seed: seq<bv8>, i: nat): (r: seq<bv8>)
    requires i < TwoTo32
    ensures |r| == HLen
  {
    hash(seed + Be32(i))
  }

  /** The first `count` digests of the expansion, concatenated. */
  function Blocks(hash: HashFunction, seed: seq<bv8>, count: nat): (r: seq<bv8>)
    requires count <= TwoTo32
    ensures |r| == count * HLen
    decreases count
  {
    if count == 0 then [] else Blocks(hash, seed, count - 1) + Block(hash, seed, count - 1)
  }

  /** Number of digests needed for a mask of `maskLen` bytes: ceil(maskLen / HLen). */
  function BlockCount(maskLen: nat): (c: nat)
    ensures c * HLen >= maskLen
    ensures c == 0 || (c - 1) * HLen < maskLen
  {
    (maskLen + HLen - 1) / HLen
  }

  /** MGF1(seed, maskLen). It fails when the mask is longer than 2^32 digests,
      and when at least one digest is needed but seed ‖ BE32(i) is longer than
      the digest accepts. */
  function Mask(hash: HashFunction, seed: seq<bv8>, maskLen: nat): (r: Result<seq<bv8>>)
    ensures r.Ok? <==> maskLen <= MaxMaskLength && (maskLen == 0 || |seed| + 4 <= MaxInput)
    ensures r == Err(MaskTooLong) <==> maskLen > MaxMaskLength
    ensures maskLen <= MaxMaskLength && r.Err? ==> r == Err(HashInputTooLong)
    ensures r.Ok? ==> |r.value| == maskLen
  {
    if maskLen > MaxMaskLength then Err(MaskTooLong)
    else if BlockCount(maskLen) > 0 && |seed| + 4 > MaxInput then Err(HashInputTooLong)
    else Ok(Blocks(hash, seed, BlockCount(maskLen))[..maskLen])
  }

  /** Byte `j` of the expansion is byte `j % HLen` of digest number `j / HLen`. */
  lemma {:induction false} BlocksContent(hash: HashFunction, seed: seq<bv8>, count: nat, j: nat)
    requires count <= TwoTo32
    requires j < count * HLen
    ensures j / HLen < count
    ensures Blocks(hash, seed, count)[j] == Block(hash, seed, j / HLen)[j % HLen]
    decreases count
  {
    if j < (count - 1) * HLen {
      BlocksContent(hash, seed, count - 1, j);
    } else {
      LastBlockIndex(j, count);
    }
  }

  lemma LastBlockIndex(j: nat, count: nat)
    requires 0 < count
    requires (count - 1) * HLen <= j < count * HLen
    ensures j / HLen == count - 1
    ensures j % HLen == j - (count - 1) * HLen
  {
  }

  /** Every byte of a mask is the corresponding byte of the digest of
      seed ‖ BE32(its block number): the mask is a function of (seed, maskLen)
      alone, fixed byte for byte. */
  lemma MaskContent(hash: HashFunction, seed: seq<bv8>, maskLen: nat, j: nat)
    requires Mask(hash, seed, maskLen).Ok?
    requires j < maskLen
    ensures j / HLen < TwoTo32
    ensures Mask(hash, seed, maskLen).value[j] == hash(seed + Be32(j / HLen))[j % HLen]
  {
    BlocksContent(hash, seed, BlockCount(maskLen), j);
  }

  /** A shorter mask from the same seed is a prefix of a longer one. */
  lemma MaskPrefix(hash: HashFunction, seed: seq<bv8>, short: nat, long: nat)
    requires short <= long
    requires Mask(hash, seed, long).Ok?
    ensures Mask(hash, seed, short).Ok?
    ensures Mask(hash, seed, short).value == Mask(hash, seed, long).value[..short]
  {
    var s := Mask(hash, seed, short).value;
    var l := Mask(hash, seed, long).value;
    forall j | 0 <= j < short
      ensures s[j] == l[j]
    {
      MaskContent(hash, seed, short, j);
      MaskContent(hash, seed, long, j);
    }
  }

  /** When maskLen is a multiple of HLen nothing is truncated: the mask is
      exactly maskLen / HLen whole digests. */
  lemma WholeBlocks(hash: HashFunction, seed: seq<bv8>, maskLen: nat)
    requires maskLen % HLen == 0
    requires Mask(hash, seed, maskLen).Ok?
    ensures maskLen / HLen <= TwoTo32
    ensures Mask(hash, seed, maskLen).value == Blocks(hash, seed, maskLen / HLen)
  {
    assert BlockCount(maskLen) == maskLen / HLen;
  }

  /** The round count of `mgf` in src/oaep.py, maskLen div HLen less one
      when the division is exact, is one short of ceil(maskLen / HLen). */
  lemma RoundsAreBlockCount(maskLen: nat)
    ensures maskLen / HLen - (if maskLen % HLen == 0 then 1 else 0) + 1 == BlockCount(maskLen)
  {
  }

  /** The expansion loop as `mgf` in src/oaep.py writes it: `rounds` is
      maskLen / HLen, less one when the division is exact, and rounds + 1
      digests are appended before the result is cut to maskLen bytes. */
  method MaskLoop(hash: HashFunction, seed: seq<bv8>, maskLen: nat) returns (r: Result<seq<bv8>>)
    ensures r == Mask(hash, seed, maskLen)
  {
    if maskLen > MaxMaskLength {
      return Err(MaskTooLong);
    }
    var rounds: int := maskLen / HLen;
    if maskLen % HLen == 0 {
      rounds := rounds - 1;
    }
    RoundsAreBlockCount(maskLen);
    var count: nat := rounds + 1;
    var t: seq<bv8> := [];
    var i: nat := 0;
    while i < count
      invariant count == BlockCount(maskLen)
      invariant i <= count <= TwoTo32
      invariant t == Blocks(hash, seed, i)
      invariant i > 0 ==> |seed| + 4 <= MaxInput
    {
      if |seed| + 4 > MaxInput {
        return Err(HashInputTooLong);
      }
      assert Blocks(hash, seed, i + 1) == t + Block(hash, seed, i);
      t := t + Block(hash, seed, i);
      i := i + 1;
    }
    return Ok(t[..maskLen]);
  }
}
