/** Blocks written out in bytes, and what they stand for. */
module Lz4Vectors {
  import opened Bytes
  import opened Lz4Format
  import opened Lz4Compress

  /** What LZ4_compress_default makes of 17 letters a: one of them, eleven more, and five literals. */
  const SEVENTEEN: seq<byte> := [0x17, 0x61, 0x01, 0x00, 0x50, 0x61, 0x61, 0x61, 0x61, 0x61]

  function Letters(n: nat): (r: seq<byte>)
    ensures |r| == n && forall k :: 0 <= k < n ==> r[k] == 0x61
  {
    seq(n, _ => 0x61)
  }

  lemma {:induction false} CopyLetters(n: nat, m: nat)
    requires n > 0
    ensures CopyMatch(Letters(n), 1, m) == Letters(n + m)
    decreases m
  {
    if m > 0 {
      assert Letters(n) + [0x61] == Letters(n + 1);
      CopyLetters(n + 1, m - 1);
    }
  }

  /** One letter, a match of m bytes at distance 1, and five letters. */
  lemma OneMatch(s: seq<byte>, m: nat, next: nat)
    requires ReadStep(s, 0) == Match(Letters(1), 1, m, next) && m >= 7 && next < |s|
    requires ReadStep(s, next) == Final(Letters(5)) && s[next] % 16 == 0
    ensures Conforming(s) && Decode(s, 0, []) == Some(Letters(m + 6))
  {
    hide ReadStep;
    CopyLetters(1, m);
    assert [] + Letters(1) == Letters(1) && Letters(1 + m) + Letters(5) == Letters(m + 6);
    assert Decode(s, next, Letters(1 + m)) == Some(Letters(m + 6));
    assert Strict(s, next, 1 + m, m + 6);
    assert Strict(s, 0, 0, m + 6);
  }

  /** Its last match ends just five bytes before the end. */
  lemma SeventeenLetters()
    ensures Conforming(SEVENTEEN) && Decode(SEVENTEEN, 0, []) == Some(Letters(17))
  {
    var s := SEVENTEEN;
    assert s[1..2] == Letters(1) && s[5..10] == Letters(5);
    assert ReadStep(s, 0) == Match(s[1..2], 1, 11, 4);
    assert ReadStep(s, 4) == Final(s[5..10]);
    hide ReadStep, Decode, Conforming;
    OneMatch(s, 11, 4);
  }

  /** A match of 4 + 15 + 255 + 3 bytes. */
  const LONG_MATCH: seq<byte> := [0x1F, 0x61, 0x01, 0x00, 0xFF, 0x03, 0x50, 0x61, 0x61, 0x61, 0x61, 0x61]

  lemma LongMatch()
    ensures Conforming(LONG_MATCH) && Decode(LONG_MATCH, 0, []) == Some(Letters(283))
  {
    var s := LONG_MATCH;
    assert s[1..2] == Letters(1) && s[7..12] == Letters(5);
    assert ReadRun(s, 5) == Some((3, 6)) && ReadRun(s, 4) == Some((258, 6));
    assert ReadStep(s, 0) == Match(s[1..2], 1, 277, 6);
    assert ReadStep(s, 6) == Final(s[7..12]);
    hide ReadStep, Decode, Conforming;
    OneMatch(s, 277, 6);
  }

  /** LZ4_compressBound around its limit, which is 0x7E00_0000. */
  lemma CompressBounds()
    ensures CompressBound(0) == 16 && CompressBound(254) == 270 && CompressBound(255) == 272
    ensures CompressBound(0x7E00_0000) == 2122219150 && CompressBound(0x7E00_0001) == 0
  {
  }

  /** Both tables take 16 KB. */
  lemma Tables()
    ensures TableSize(ByU16) == 8192 && EntryRange(ByU16) == 65536
    ensures TableSize(ByU32) == 4096 && EntryRange(ByU32) == 4294967296
  {
  }

  /** LZ4_hash4 and LZ4_hash5 of a one in front of zeros. */
  lemma Hashes(src: array<byte>, p: nat)
    requires p + 8 <= src.Length
    requires src[p] == 1 && src[p + 1] == src[p + 2] == src[p + 3] == src[p + 4] == 0
    ensures HashPosition(src, p, ByU16) == 5062 && HashPosition(src, p, ByU32) == 3313
  {
  }
}
