/** 32-bit words. */
module Words32 {
  const TWO32: int := 0x1_0000_0000

  /** A 32-bit word; arithmetic wraps around. */
  type u32 = bv32

  function AsWord(n: nat): (w: u32)
    requires n < TWO32
  {
    n as u32
  }

  /** XXH_rotl32 by the amounts that XXH32 uses: what the two shifts leave has no bit in common. */
  lemma LeftRotations(x: u32)
    ensures x.RotateLeft(1) == (x << 1) | (x >> 31) && (x << 1) & (x >> 31) == 0
    ensures x.RotateLeft(7) == (x << 7) | (x >> 25) && (x << 7) & (x >> 25) == 0
    ensures x.RotateLeft(11) == (x << 11) | (x >> 21) && (x << 11) & (x >> 21) == 0
    ensures x.RotateLeft(12) == (x << 12) | (x >> 20) && (x << 12) & (x >> 20) == 0
    ensures x.RotateLeft(13) == (x << 13) | (x >> 19) && (x << 13) & (x >> 19) == 0
    ensures x.RotateLeft(17) == (x << 17) | (x >> 15) && (x << 17) & (x >> 15) == 0
    ensures x.RotateLeft(18) == (x << 18) | (x >> 14) && (x << 18) & (x >> 14) == 0
  {
  }

  /** right_rot by the amounts that SHA-256 uses. */
  lemma RightRotations(x: u32)
    ensures x.RotateRight(2) == (x >> 2) | (x << 30) && x.RotateRight(13) == (x >> 13) | (x << 19)
    ensures x.RotateRight(22) == (x >> 22) | (x << 10) && x.RotateRight(6) == (x >> 6) | (x << 26)
    ensures x.RotateRight(11) == (x >> 11) | (x << 21) && x.RotateRight(25) == (x >> 25) | (x << 7)
    ensures x.RotateRight(7) == (x >> 7) | (x << 25) && x.RotateRight(18) == (x >> 18) | (x << 14)
    ensures x.RotateRight(17) == (x >> 17) | (x << 15) && x.RotateRight(19) == (x >> 19) | (x << 13)
  {
  }
}
