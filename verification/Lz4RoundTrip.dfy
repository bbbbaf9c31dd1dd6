/** LZ4_compress_fast followed by LZ4_decompress_safe. */
module Lz4RoundTrip {
  import opened Bytes
  import opened Lz4Encoder
  import opened Lz4Format
  import opened Lz4Search
  import Lz4Decoder
  import Lz4Lenient

  /** What was compressed, with any hash function, is decompressed into a buffer of just its length. */
  method RoundTrip(src: seq<byte>, hash: nat -> Slot, acceleration: int, fastDecLoop: bool)
    returns (r: int, back: array<byte>)
    requires |src| < LIMIT_64K
    ensures back.Length == |src| && r == |src| && back[..] == src
  {
    hide Decode, Conforming, Lz4Lenient.LenientDecode, Lz4Lenient.Acceptable;
    var dst := new byte[CompressBound(|src|)];
    var n := Compress(src, dst, hash, acceleration);
    var block := dst[..n];
    Lz4Lenient.ConformingIsAcceptable(block);
    back := new byte[|src|];
    r := Lz4Decoder.DecompressSafe(block, back, fastDecLoop);
    assert back[..] == back[..r];
  }
}
