/** SHA-256 as FIPS 180-4 has it: sections 4.1.2, 4.2.2, 5.1.1, 5.3.3 and 6.2. */
module Sha256Spec {
  import opened Bytes
  import opened Words32

  // ---------------------------------------------------------------- functions and constants

  function Ch(x: u32, y: u32, z: u32): (r: u32) { (x & y) ^ (!x & z) }

  function Maj(x: u32, y: u32, z: u32): (r: u32) { (x & y) ^ (x & z) ^ (y & z) }

  function BigSigma0(x: u32): (r: u32) { x.RotateRight(2) ^ x.RotateRight(13) ^ x.RotateRight(22) }

  function BigSigma1(x: u32): (r: u32) { x.RotateRight(6) ^ x.RotateRight(11) ^ x.RotateRight(25) }

  function Sigma0(x: u32): (r: u32) { x.RotateRight(7) ^ x.RotateRight(18) ^ (x >> 3) }

  function Sigma1(x: u32): (r: u32) { x.RotateRight(17) ^ x.RotateRight(19) ^ (x >> 10) }

  /** Section 4.2.2, in rows of eight. */
  const K: seq<seq<u32>> := [
    [0x428a2f98, 0x71374491, 0xb5c0fbcf, 0xe9b5dba5, 0x3956c25b, 0x59f111f1, 0x923f82a4, 0xab1c5ed5],
    [0xd807aa98, 0x12835b01, 0x243185be, 0x550c7dc3, 0x72be5d74, 0x80deb1fe, 0x9bdc06a7, 0xc19bf174],
    [0xe49b69c1, 0xefbe4786, 0x0fc19dc6, 0x240ca1cc, 0x2de92c6f, 0x4a7484aa, 0x5cb0a9dc, 0x76f988da],
    [0x983e5152, 0xa831c66d, 0xb00327c8, 0xbf597fc7, 0xc6e00bf3, 0xd5a79147, 0x06ca6351, 0x14292967],
    [0x27b70a85, 0x2e1b2138, 0x4d2c6dfc, 0x53380d13, 0x650a7354, 0x766a0abb, 0x81c2c92e, 0x92722c85],
    [0xa2bfe8a1, 0xa81a664b, 0xc24b8b70, 0xc76c51a3, 0xd192e819, 0xd6990624, 0xf40e3585, 0x106aa070],
    [0x19a4c116, 0x1e376c08, 0x2748774c, 0x34b0bcb5, 0x391c0cb3, 0x4ed8aa4a, 0x5b9cca4f, 0x682e6ff3],
    [0x748f82ee, 0x78a5636f, 0x84c87814, 0x8cc70208, 0x90befffa, 0xa4506ceb, 0xbef9a3f7, 0xc67178f2]]

  function KAt(t: nat): (k: u32)
    requires t < 64
  {
    K[t / 8][t % 8]
  }

  /** Eight words: a hash value, or the working variables a to h. */
  datatype Words = Words(a: u32, b: u32, c: u32, d: u32, e: u32, f: u32, g: u32, h: u32)

  const INITIAL := Words(0x6a09e667, 0xbb67ae85, 0x3c6ef372, 0xa54ff53a, 0x510e527f, 0x9b05688c, 0x1f83d9ab, 0x5be0cd19)

  // ---------------------------------------------------------------- padding

  function Word(b0: byte, b1: byte, b2: byte, b3: byte): (w: u32) { AsWord(LE32(b3, b2, b1, b0)) }

  /** The lowest n bytes of a number, high byte first. */
  function BigEndian(v: nat, n: nat): (r: seq<byte>)
    ensures |r| == n
  {
    if n == 0 then [] else BigEndian(v / 256, n - 1) + [v % 256]
  }

  lemma FourTimes(m: nat)
    ensures Pow2(m + 2) == 4 * Pow2(m)
  {
  }

  lemma NextPower(n: nat)
    requires n > 0
    ensures Pow2(8 * n) == 256 * Pow2(8 * (n - 1))
  {
    hide Pow2;
    var m: nat := 8 * n - 8;
    FourTimes(m);
    FourTimes(m + 2);
    FourTimes(m + 4);
    FourTimes(m + 6);
  }

  lemma AddMultiple(v: nat, w: nat)
    ensures (v + 256 * w) / 256 == v / 256 + w && (v + 256 * w) % 256 == v % 256
  {
  }

  lemma {:induction false} BigEndianCut(v: nat, k: nat, n: nat)
    ensures BigEndian(v + k * Pow2(8 * n), n) == BigEndian(v, n)
  {
    hide Pow2;
    if n > 0 {
      var w := k * Pow2(8 * (n - 1));
      assert k * Pow2(8 * n) == 256 * w by { NextPower(n); }
      AddMultiple(v, w);
      BigEndianCut(v / 256, k, n - 1);
    }
  }

  /** The number of zero bytes that make the padded message a multiple of 64 bytes. */
  function ZeroBytes(len: nat): (k: nat)
    ensures k < 64 && (len + 1 + k + 8) % 64 == 0
  {
    (119 - len % 64) % 64
  }

  /** Section 5.1.1.  The length in bits; beyond 64 bits, which the standard excludes, its lowest ones. */
  function Pad(m: seq<byte>): (r: seq<byte>)
    ensures |r| % 64 == 0
  {
    m + [0x80] + Zeros(ZeroBytes(|m|)) + BigEndian(|m| * 8, 8)
  }

  // ---------------------------------------------------------------- hashing

  /** The words 2, 7, 15 and 16 places before a word give it. */
  function Mix(w2: u32, w7: u32, w15: u32, w16: u32): (r: u32) { Sigma1(w2) + w7 + Sigma0(w15) + w16 }

  /** Section 6.2.2, step 1: word t of the message schedule of the block at `at`. */
  function Schedule(s: seq<byte>, at: nat, t: nat): (w: u32)
    requires at + 64 <= |s|
  {
    if t < 16 then Word(s[at + 4 * t], s[at + 4 * t + 1], s[at + 4 * t + 2], s[at + 4 * t + 3])
    else
      Mix(Schedule(s, at, t - 2), Schedule(s, at, t - 7), Schedule(s, at, t - 15), Schedule(s, at, t - 16))
  }

  lemma ScheduleStep(s: seq<byte>, at: nat, t: nat)
    requires at + 64 <= |s|
    ensures t < 16 ==>
      Schedule(s, at, t) == Word(s[at + 4 * t], s[at + 4 * t + 1], s[at + 4 * t + 2], s[at + 4 * t + 3])
    ensures t >= 16 ==> (Schedule(s, at, t) ==
      Mix(Schedule(s, at, t - 2), Schedule(s, at, t - 7), Schedule(s, at, t - 15), Schedule(s, at, t - 16)))
  {
    hide Mix, Word;
  }

  /** Step 3 for one t, given the constant and the word. */
  function Round(v: Words, k: u32, w: u32): (r: Words) {
    var t1 := v.h + BigSigma1(v.e) + Ch(v.e, v.f, v.g) + k + w;
    var t2 := BigSigma0(v.a) + Maj(v.a, v.b, v.c);
    Words(t1 + t2, v.a, v.b, v.c, v.d + t1, v.e, v.f, v.g)
  }

  function Rounds(v: Words, s: seq<byte>, at: nat, n: nat): (r: Words)
    requires at + 64 <= |s| && n <= 64
  {
    if n == 0 then v else Round(Rounds(v, s, at, n - 1), KAt(n - 1), Schedule(s, at, n - 1))
  }

  lemma NoRound(h: Words, s: seq<byte>, at: nat)
    requires at + 64 <= |s|
    ensures Rounds(h, s, at, 0) == h
  {
  }

  lemma OneRound(h: Words, s: seq<byte>, at: nat, n: nat)
    requires at + 64 <= |s| && n < 64
    ensures Rounds(h, s, at, n + 1) == Round(Rounds(h, s, at, n), KAt(n), Schedule(s, at, n))
  {
    hide Round, Schedule;
  }

  function Sum(x: Words, y: Words): (r: Words) {
    Words(x.a + y.a, x.b + y.b, x.c + y.c, x.d + y.d,
          x.e + y.e, x.f + y.f, x.g + y.g, x.h + y.h)
  }

  /** The hash value after one block. */
  function Compress(h: Words, s: seq<byte>, at: nat): (r: Words)
    requires at + 64 <= |s|
  {
    Sum(h, Rounds(h, s, at, 64))
  }

  /** The hash value after the first n blocks. */
  function Blocks(s: seq<byte>, n: nat): (r: Words)
    requires 64 * n <= |s|
  {
    if n == 0 then INITIAL else Compress(Blocks(s, n - 1), s, 64 * (n - 1))
  }

  function WordBytes(w: u32): (r: seq<byte>)
    ensures |r| == 4
  {
    BigEndian(w as int, 4)
  }

  function Output(h: Words): (r: seq<byte>)
    ensures |r| == 32
  {
    WordBytes(h.a) + WordBytes(h.b) + WordBytes(h.c) + WordBytes(h.d)
    + WordBytes(h.e) + WordBytes(h.f) + WordBytes(h.g) + WordBytes(h.h)
  }

  /** The message digest. */
  function Sha256(m: seq<byte>): (r: seq<byte>) { Output(Blocks(Pad(m), |Pad(m)| / 64)) }

  // ---------------------------------------------------------------- blocks are local

  lemma {:induction false} ScheduleSame(s: seq<byte>, i: nat, r: seq<byte>, j: nat, t: nat)
    requires i + 64 <= |s| && j + 64 <= |r| && s[i..i + 64] == r[j..j + 64]
    ensures Schedule(s, i, t) == Schedule(r, j, t)
  {
    hide Mix, Word;
    if t < 16 {
      var x, y := s[i..i + 64], r[j..j + 64];
      assert s[i + 4 * t] == x[4 * t] && s[i + 4 * t + 1] == x[4 * t + 1];
      assert s[i + 4 * t + 2] == x[4 * t + 2] && s[i + 4 * t + 3] == x[4 * t + 3];
      assert r[j + 4 * t] == y[4 * t] && r[j + 4 * t + 1] == y[4 * t + 1];
      assert r[j + 4 * t + 2] == y[4 * t + 2] && r[j + 4 * t + 3] == y[4 * t + 3];
    } else {
      ScheduleSame(s, i, r, j, t - 2);
      ScheduleSame(s, i, r, j, t - 7);
      ScheduleSame(s, i, r, j, t - 15);
      ScheduleSame(s, i, r, j, t - 16);
    }
  }

  lemma {:induction false} RoundsSame(v: Words, s: seq<byte>, i: nat, r: seq<byte>, j: nat, n: nat)
    requires i + 64 <= |s| && j + 64 <= |r| && s[i..i + 64] == r[j..j + 64] && n <= 64
    ensures Rounds(v, s, i, n) == Rounds(v, r, j, n)
  {
    hide Round, Schedule;
    if n > 0 {
      RoundsSame(v, s, i, r, j, n - 1);
      ScheduleSame(s, i, r, j, n - 1);
    }
  }

  lemma CompressSame(h: Words, s: seq<byte>, i: nat, r: seq<byte>, j: nat)
    requires i + 64 <= |s| && j + 64 <= |r| && s[i..i + 64] == r[j..j + 64]
    ensures Compress(h, s, i) == Compress(h, r, j)
  {
    hide Sum, Rounds;
    RoundsSame(h, s, i, r, j, 64);
  }

  /** What follows has no influence on the blocks before. */
  lemma {:induction false} BlocksPrefix(s: seq<byte>, more: seq<byte>, n: nat)
    requires 64 * n <= |s|
    ensures Blocks(s + more, n) == Blocks(s, n)
  {
    hide Compress;
    if n > 0 {
      BlocksPrefix(s, more, n - 1);
      assert (s + more)[64 * (n - 1)..64 * n] == s[64 * (n - 1)..64 * n];
      CompressSame(Blocks(s, n - 1), s + more, 64 * (n - 1), s, 64 * (n - 1));
    }
  }
}
