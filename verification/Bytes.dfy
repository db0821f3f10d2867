/** Bytes, optional results and little-endian numbers, shared by every component. */
module Bytes {
  type byte = x: int | 0 <= x < 256

  datatype Option<+T> = None | Some(value: T)

  /** Two bytes, low byte first. */
  function LE16(lo: int, hi: int): (r: int) { lo + 0x100 * hi }

  /** Four bytes, low byte first. */
  function LE32(b0: int, b1: int, b2: int, b3: int): (r: int) { b0 + 0x100 * b1 + 0x1_0000 * b2 + 0x100_0000 * b3 }

  lemma Assoc<T>(a: seq<T>, b: seq<T>, c: seq<T>)
    ensures a + (b + c) == (a + b) + c
  {
  }

  /** A part of a part. */
  lemma SubSlice<T>(s: seq<T>, at: nat, end: nat, i: nat, n: nat)
    requires at <= end <= |s| && i + n <= end - at
    ensures s[at..end][i..i + n] == s[at + i..at + i + n]
  {
    var b, x, y := s[at..end], s[at + i..at + i + n], s[at..end][i..i + n];
    assert |x| == |y|;
    forall k | 0 <= k < n ensures x[k] == y[k] { assert y[k] == b[i + k] == s[at + (i + k)]; }
  }

  /** A 32-bit number in four bytes, low byte first. */
  function Bytes32(v: nat): (r: seq<byte>)
    requires v < 0x1_0000_0000
    ensures |r| == 4 && LE32(r[0], r[1], r[2], r[3]) == v
  {
    var v1 := v / 0x100;
    var v2 := v1 / 0x100;
    [v % 0x100, v1 % 0x100, v2 % 0x100, v2 / 0x100]
  }

  function Zeros(n: nat): (r: seq<byte>)
    ensures |r| == n && forall k :: 0 <= k < n ==> r[k] == 0
  {
    seq(n, _ => 0)
  }

  /** b with the bytes of m from off on. */
  function PutAt(b: seq<byte>, off: nat, m: seq<byte>): (r: seq<byte>)
    requires off + |m| <= |b|
    ensures |r| == |b|
  {
    b[..off] + m + b[off + |m|..]
  }

  function Min(a: nat, b: nat): (r: nat) { if a < b then a else b }

  function Pow2(n: nat): (r: nat) { if n == 0 then 1 else 2 * Pow2(n - 1) }

  /** memcpy of n bytes. */
  method CopyBytes(dst: array<byte>, at: nat, src: array<byte>, from: nat, n: nat)
    requires src != dst && at + n <= dst.Length && from + n <= src.Length
    modifies dst
    ensures dst[..] == PutAt(old(dst[..]), at, src[from..from + n])
  {
    forall k | 0 <= k < n { dst[at + k] := src[from + k]; }
  }
}
