/** `line_fingerprint`: the 64-bit hash of one line, on machine words. */
module Fingerprint {
  import opened Bytes

  const LENGTH_FACTOR: bv64 := 0x9e37_79b1_85eb_ca87
  const BYTE_FACTOR: bv64 := 0x0000_0100_0000_01b3

  function MixByte(hash: bv64, b: byte): (r: bv64) {
    var mixed := (hash ^ (b as bv64)) * BYTE_FACTOR;
    mixed ^ (mixed >> 29)
  }

  function MixBytes(hash: bv64, bytes: Text): (r: bv64) {
    if bytes == [] then hash
    else MixByte(MixBytes(hash, bytes[..|bytes| - 1]), bytes[|bytes| - 1])
  }

  function MixStart(length: nat, seed: bv64): (r: bv64) {
    seed ^ (((length % 0x1_0000_0000_0000_0000) as bv64) * LENGTH_FACTOR)
  }

  function Finish(hash: bv64): (r: bv64) {
    hash ^ ((hash << 31) | (hash >> 33))
  }

  function Of(bytes: Text, seed: bv64): (r: bv64) {
    Finish(MixBytes(MixStart(|bytes|, seed), bytes))
  }

  /** The hash, computed byte by byte in place. */
  method Compute(bytes: Text, seed: bv64) returns (r: bv64)
    ensures r == Of(bytes, seed)
  {
    var start := MixStart(|bytes|, seed);
    var hash := start;
    for i := 0 to |bytes|
      invariant hash == MixBytes(start, bytes[..i])
    {
      MixSnoc(start, bytes, i);
      hash := MixByte(hash, bytes[i]);
    }
    assert bytes[..|bytes|] == bytes;
    r := Finish(hash);
  }

  lemma MixSnoc(start: bv64, bytes: Text, i: nat)
    requires i < |bytes|
    ensures MixBytes(start, bytes[..i + 1]) == MixByte(MixBytes(start, bytes[..i]), bytes[i])
  {
    assert bytes[..i + 1][..i] == bytes[..i];
  }

  /** The low `n` bits of a machine word, least significant first. */
  function Bits(x: bv64, n: nat): (r: seq<bool>)
    ensures |r| == n
  {
    if n == 0 then [] else [x & 1 == 1] + Bits(x >> 1, n - 1)
  }
}
