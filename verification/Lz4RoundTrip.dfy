/** Compression followed by decompression, as the serializer and the loader use them. */
module Lz4RoundTrip {
  import opened Bytes
  import opened Lz4Format
  import Lz4Compress
  import Lz4Decompress

  /**
    For every input up to the maximum size, every output buffer the bound allows, and every
    restore buffer at least as long as the input, decompression returns the input's length and
    restores its bytes.
   */
  method RoundTrip(src: array<byte>, packed: array<byte>, restored: array<byte>, beyond: nat -> byte)
    returns (size: nat, r: int)
    requires src != packed && packed != restored && src != restored
    requires src.Length <= 0x7E00_0000
    requires packed.Length >= src.Length + src.Length / 255 + 16 && restored.Length >= src.Length
    modifies packed, restored
    ensures 0 < size <= src.Length + src.Length / 255 + 16
    ensures r == src.Length && restored[..r] == src[..]
  {
    hide Decode, Conforming;
    size := Lz4Compress.CompressDefault(src, packed);
    r := Lz4Decompress.DecompressSafe(packed, size, beyond, restored);
  }
}
