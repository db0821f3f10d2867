/** memcpy and LZ4_wildCopy over byte arrays. */
module Lz4Memory {
  import opened Bytes

  /** memcpy of n bytes; inside one array the regions must not overlap. */
  method Copy(dst: array<byte>, d: nat, src: array<byte>, s: nat, n: nat)
    requires d + n <= dst.Length && s + n <= src.Length
    requires src == dst ==> s + n <= d
    modifies dst
    ensures forall k {:trigger dst[k]} :: d <= k < d + n ==> dst[k] == src[k - d + s]
    ensures forall k {:trigger dst[k]} :: 0 <= k < d || d + n <= k < dst.Length ==> dst[k] == old(dst[k])
  {
    forall k | 0 <= k < n {
      dst[d + k] := src[s + k];
    }
  }

  /** The first index d + 8k, with k at least 1, that is not below e. */
  function WildEnd(d: nat, e: nat): (r: nat)
    ensures d + 8 <= r && e <= r
    ensures r == d + 8 || r < e + 8
    decreases e - d
  {
    if d + 8 < e then WildEnd(d + 8, e) else d + 8
  }

  /**
    Copies whole groups of eight bytes until e is reached, so it may write up to seven bytes
    past e, and always writes at least eight.
   */
  method WildCopy(dst: array<byte>, d: nat, src: array<byte>, s: nat, e: nat)
    requires WildEnd(d, e) <= dst.Length && WildEnd(d, e) - d + s <= src.Length
    requires src == dst ==> s + 8 <= d
    modifies dst
    ensures forall k {:trigger dst[k]} :: d <= k < WildEnd(d, e) ==> dst[k] == src[k - d + s]
    ensures forall k {:trigger dst[k]} :: 0 <= k < d || WildEnd(d, e) <= k < dst.Length ==> dst[k] == old(dst[k])
  {
    var i := 0;
    Copy(dst, d, src, s, 8);
    i := 8;
    while d + i < e
      invariant i >= 8 && WildEnd(d, e) == if d + i < e then WildEnd(d + i, e) else d + i
      invariant forall k {:trigger dst[k]} :: d <= k < d + i ==> dst[k] == src[k - d + s]
      invariant forall k {:trigger dst[k]} :: 0 <= k < d || d + i <= k < dst.Length ==> dst[k] == old(dst[k])
      decreases e - d - i
    {
      Copy(dst, d + i, src, s + i, 8);
      i := i + 8;
    }
  }

  /** Literals: n bytes from another buffer appended at d, copied in groups of eight. */
  method WildAppend(dst: array<byte>, d: nat, src: array<byte>, s: nat, n: nat)
    requires src != dst && d + n + 8 <= dst.Length && s + n + 8 <= src.Length
    modifies dst
    ensures dst[..d + n] == old(dst[..d]) + src[s..s + n]
  {
    WildCopy(dst, d, src, s, d + n);
  }
}
