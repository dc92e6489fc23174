/**
 * The 16-byte digest the patch header carries. The patcher computes it with MD5;
 * MD5's rounds are not modelled. `Digest` is a deterministic stand-in of the same
 * width, and no proof relies on anything about it beyond its length and the fact
 * that it is a function of its input.
 */
module Checksum {
  import opened DataIO

  const DigestLength: nat := 16

  /** Stand-in for MessageDigest.getInstance("MD5").digest(data). */
  function Digest(data: seq<byte>): (d: seq<byte>)
    ensures |d| == DigestLength
    decreases |data|
  {
    if data == [] then seq(DigestLength, _ => 0)
    else
      var d := Digest(data[..|data| - 1]);
      var lane := (|data| - 1) % DigestLength;
      d[lane := ((d[lane] as int + data[|data| - 1] as int) % 0x100) as byte]
  }
}
