/** The streaming SHA-256 of lib/sha2/sha-256.c. */
module Sha256 {
  import opened Bytes
  import opened Words32
  import opened Sha256Spec

  const SIZE_OF_SHA_256_CHUNK := 64
  const SIZE_OF_SHA_256_HASH := 32
  const TOTAL_LEN_LEN := 8
  const TWO64: int := 0x1_0000_0000_0000_0000

  // ---------------------------------------------------------------- consume_chunk

  /** The last sixteen words of the schedule before word t, each at its number modulo 16. */
  ghost predicate Window(w: seq<u32>, s: seq<byte>, at: nat, t: nat)
    requires at + 64 <= |s|
  {
    |w| == 16 && forall u :: 0 <= u < t && t - 16 <= u ==> w[u % 16] == Schedule(s, at, u)
  }

  /** The order in which the source adds does not matter. */
  lemma Rearranged(w2: u32, w7: u32, w15: u32, w16: u32)
    ensures w16 + Sigma0(w15) + w7 + Sigma1(w2) == Mix(w2, w7, w15, w16)
  {
  }

  /** The indices the source uses are those of words t - 16, t - 15, t - 7 and t - 2. */
  lemma Indices(i: nat, j: nat)
    requires j < 16 && i > 0
    ensures var t := 16 * i + j; (t - 16) % 16 == j && (t - 15) % 16 == (j + 1) % 16
    ensures var t := 16 * i + j; (t - 7) % 16 == (j + 9) % 16 && (t - 2) % 16 == (j + 14) % 16
  {
    Multiple(i - 1, j);
    Multiple(i - 1, j + 1);
    Multiple(i - 1, j + 9);
    Multiple(i - 1, j + 14);
  }

  lemma Multiple(i: nat, k: nat)
    ensures (16 * i + k) % 16 == k % 16
  {
  }

  /** The next word replaces the oldest one. */
  lemma Slide(w: seq<u32>, s: seq<byte>, at: nat, t: nat, x: u32)
    requires at + 64 <= |s| && Window(w, s, at, t) && x == Schedule(s, at, t)
    ensures Window(w[t % 16 := x], s, at, t + 1)
  {
    forall u | 0 <= u < t && t - 15 <= u ensures u % 16 != t % 16 { OtherIndex(u, t); }
  }

  lemma OtherIndex(u: nat, t: nat)
    requires u < t && t - 15 <= u
    ensures u % 16 != t % 16
  {
  }

  /** Word t = 16 * i + j of the schedule, into the array of sixteen. */
  method NextWord(w: array<u32>, p: array<byte>, at: nat, i: nat, j: nat)
    requires w.Length == 16 && j < 16 && at + 64 <= p.Length && Window(w[..], p[..], at, 16 * i + j)
    modifies w
    ensures Window(w[..], p[..], at, 16 * i + j + 1) && w[j] == Schedule(p[..], at, 16 * i + j)
  {
    hide Schedule, Sigma0, Sigma1, Mix, Word;
    ghost var s, t, was := p[..], 16 * i + j, w[..];
    Multiple(i, j);
    ScheduleStep(s, at, t);
    var x: u32;
    if i == 0 {
      x := Word(p[at + 4 * j], p[at + 4 * j + 1], p[at + 4 * j + 2], p[at + 4 * j + 3]);
    } else {
      Indices(i, j);
      var w16, w15, w7, w2 := w[j], w[(j + 1) % 16], w[(j + 9) % 16], w[(j + 14) % 16];
      assert Schedule(s, at, t - 16) == was[j] && Schedule(s, at, t - 15) == was[(j + 1) % 16];
      assert Schedule(s, at, t - 7) == was[(j + 9) % 16] && Schedule(s, at, t - 2) == was[(j + 14) % 16];
      x := w16 + Sigma0(w15) + w7 + Sigma1(w2);
      Rearranged(w2, w7, w15, w16);
    }
    w[j] := x;
    assert w[..] == was[j := x];
    Slide(was, s, at, t, x);
  }

  /** consume_chunk: four times sixteen rounds over sixteen words at a time. */
  method ConsumeChunk(h: Words, p: array<byte>, at: nat) returns (r: Words)
    requires at + 64 <= p.Length
    ensures r == Compress(h, p[..], at)
  {
    hide *;
    ghost var s := p[..];
    var ah := h;
    var w := new u32[16](_ => 0);
    NoRound(h, s, at);
    NoWindow(w[..], s, at);
    for i := 0 to 4
      invariant w.Length == 16 && fresh(w) && p[..] == s
      invariant Window(w[..], s, at, 16 * i) && ah == Rounds(h, s, at, 16 * i)
    {
      for j := 0 to 16
        invariant w.Length == 16 && fresh(w) && p[..] == s
        invariant Window(w[..], s, at, 16 * i + j) && ah == Rounds(h, s, at, 16 * i + j)
      {
        NextWord(w, p, at, i, j);
        OneRound(h, s, at, 16 * i + j);
        ah := Round(ah, KAt(16 * i + j), w[j]);
      }
    }
    r := Sum(h, ah);
    AllRounds(h, s, at);
  }

  lemma NoWindow(w: seq<u32>, s: seq<byte>, at: nat)
    requires |w| == 16 && at + 64 <= |s|
    ensures Window(w, s, at, 0)
  {
  }

  lemma AllRounds(h: Words, s: seq<byte>, at: nat)
    requires at + 64 <= |s|
    ensures Compress(h, s, at) == Sum(h, Rounds(h, s, at, 64))
  {
  }

  // ---------------------------------------------------------------- streaming

  /** The hash value of c's whole blocks. */
  ghost function Hashed(c: seq<byte>): (h: Words) { Blocks(c, |c| / 64) }

  /** The bytes of c behind its whole blocks. */
  ghost function Rest(c: seq<byte>): (r: seq<byte>)
    ensures |r| == |c| % 64
  {
    c[64 * (|c| / 64)..]
  }

  lemma Divided(n: nat, q: nat, r: nat)
    requires n == 64 * q + r && r < 64
    ensures n / 64 == q && n % 64 == r
  {
  }

  /** A block that the bytes b complete. */
  lemma BlockDone(c: seq<byte>, b: seq<byte>, p: seq<byte>, at: nat)
    requires |c| % 64 + |b| == 64 && at + 64 <= |p| && p[at..at + 64] == Rest(c) + b
    ensures Hashed(c + b) == Compress(Hashed(c), p, at) && Rest(c + b) == []
  {
    hide Compress;
    var s, n := c + b, |c| / 64;
    Divided(|s|, n + 1, 0);
    BlocksPrefix(c, b, n);
    assert s[64 * n..64 * n + 64] == Rest(c) + b;
    CompressSame(Hashed(c), s, 64 * n, p, at);
  }

  /** Bytes that do not complete one. */
  lemma BlockGrows(c: seq<byte>, b: seq<byte>)
    requires |c| % 64 + |b| < 64
    ensures Hashed(c + b) == Hashed(c) && Rest(c + b) == Rest(c) + b
  {
    hide Blocks;
    var n := |c| / 64;
    Divided(|c + b|, n, |c| % 64 + |b|);
    BlocksPrefix(c, b, n);
    assert (c + b)[64 * n..] == c[64 * n..] + b;
  }

  lemma Further(c: seq<byte>, s: seq<byte>, i: nat, n: nat)
    requires i + n <= |s|
    ensures c + s[..i] + s[i..i + n] == c + s[..i + n]
  {
  }

  /** The last byte of a number, and those in front of it. */
  lemma LastByte(v: nat, n: nat)
    ensures BigEndian(v, n + 1) == BigEndian(v / 256, n) + [v % 256] && BigEndian(v, 0) == []
  {
  }

  lemma LengthBytes(n: nat)
    ensures BigEndian(n * 8, 8) == BigEndian(n / 32, 7) + [n * 8 % 256]
  {
    assert n * 8 / 256 == n / 32;
    LastByte(n * 8, 7);
  }

  lemma Wrapped(a: nat, b: nat)
    ensures (a % TWO64 + b) % TWO64 == (a + b) % TWO64
  {
  }

  /** struct Sha_256 */
  class Sha_256 {
    var hash: array<byte>
    const chunk: array<byte>
    var chunkPos: nat
    var spaceLeft: nat
    var totalLen: nat
    var h: Words
    /** What has been written. */
    ghost var content: seq<byte>

    /** All whole blocks of c are hashed, and the rest is in the chunk. */
    ghost predicate Holds(c: seq<byte>)
      reads `chunkPos, `spaceLeft, `h, chunk
    {
      && chunk.Length == SIZE_OF_SHA_256_CHUNK && chunkPos == |c| % 64 && spaceLeft == 64 - chunkPos
      && h == Hashed(c) && chunk[..chunkPos] == Rest(c)
    }

    ghost predicate Valid()
      reads this, chunk
    {
      && Holds(content) && totalLen == |content| % TWO64
      && hash.Length == SIZE_OF_SHA_256_HASH && hash != chunk
    }

    /** sha_256_init on a new structure. */
    constructor (hash: array<byte>)
      requires hash.Length == SIZE_OF_SHA_256_HASH
      ensures Valid() && content == [] && this.hash == hash && fresh(this) && fresh(chunk)
    {
      this.hash := hash;
      chunk := new byte[64](_ => 0);
      chunkPos, spaceLeft, totalLen, h, content := 0, SIZE_OF_SHA_256_CHUNK, 0, INITIAL, [];
    }

    /** The part of the data that the chunk has room for. */
    method Fill(data: array<byte>, p: nat, n: nat, ghost c: seq<byte>)
      requires Holds(c) && p + n <= data.Length && data != chunk && 0 < n <= spaceLeft
      modifies `chunkPos, `spaceLeft, `h, chunk
      ensures Holds(c + data[p..p + n])
    {
      hide Compress, Hashed, Rest;
      ghost var b := data[p..p + n];
      CopyBytes(chunk, chunkPos, data, p, n);
      spaceLeft := spaceLeft - n;
      if spaceLeft == 0 {
        assert chunk[0..64] == Rest(c) + b;
        BlockDone(c, b, chunk[..], 0);
        h := ConsumeChunk(h, chunk, 0);
        chunkPos, spaceLeft := 0, SIZE_OF_SHA_256_CHUNK;
        Divided(|c + b|, |c| / 64 + 1, 0);
      } else {
        BlockGrows(c, b);
        Divided(|c + b|, |c| / 64, |c| % 64 + n);
        chunkPos := chunkPos + n;
      }
    }

    /** A whole chunk of the data, when none is begun. */
    method Direct(data: array<byte>, p: nat, ghost c: seq<byte>)
      requires Holds(c) && p + 64 <= data.Length && chunkPos == 0
      modifies `h
      ensures Holds(c + data[p..p + 64])
    {
      hide Compress, Hashed, Rest;
      ghost var b := data[p..p + 64];
      assert Rest(c) + b == b;
      BlockDone(c, b, data[..], p);
      h := ConsumeChunk(h, data, p);
      Divided(|c + b|, |c| / 64 + 1, 0);
    }

    /** sha_256_write, with the bytes data[from..from + len0]. */
    method Write(data: array<byte>, from: nat, len0: nat)
      requires Valid() && from + len0 <= data.Length && data != chunk
      modifies `chunkPos, `spaceLeft, `h, `totalLen, `content, chunk
      ensures Valid() && content == old(content) + data[from..from + len0]
    {
      hide Holds;
      ghost var c, s := content, data[from..from + len0];
      Wrapped(|c|, len0);
      assert c + s[..0] == c;
      totalLen := (totalLen + len0) % TWO64;
      var p: nat, len: nat := from, len0;
      while len > 0
        invariant len <= len0 && p == from + len0 - len && data[from..from + len0] == s && |s| == len0
        invariant Holds(c + s[..p - from]) && totalLen == (|c| + len0) % TWO64
        decreases len
      {
        var n := Advance(data, p, len, c + s[..p - from]);
        ghost var i: nat := p - from;
        SubSlice(data[..], from, from + len0, i, n);
        Further(c, s, i, n);
        p, len := p + n, len - n;
      }
      assert s[..p - from] == s;
      content := c + s;
    }

    /** One round of that loop; how far it comes. */
    method Advance(data: array<byte>, p: nat, len: nat, ghost c: seq<byte>) returns (n: nat)
      requires Holds(c) && 0 < len && p + len <= data.Length && data != chunk
      modifies `chunkPos, `spaceLeft, `h, chunk
      ensures 0 < n <= len && Holds(c + data[p..p + n])
    {
      hide Hashed, Rest;
      if spaceLeft == SIZE_OF_SHA_256_CHUNK && len >= SIZE_OF_SHA_256_CHUNK {
        Direct(data, p, c);
        n := SIZE_OF_SHA_256_CHUNK;
      } else {
        n := Min(len, spaceLeft);
        Fill(data, p, n, c);
      }
    }

    /** The length in bits, in the last eight bytes of the chunk: the lowest byte first, then what is left of it. */
    method PutLength(pos: nat)
      requires chunk.Length == 64 && pos == 56 && totalLen < TWO64
      modifies chunk
      ensures chunk[..] == old(chunk[..pos]) + BigEndian(totalLen * 8, 8)
    {
      hide BigEndian;
      ghost var d := chunk[..pos];
      LengthBytes(totalLen);
      var len := totalLen;
      chunk[pos + 7] := len * 8 % 256;
      len := len / 32;
      var i: int := 6;
      while i >= 0
        invariant -1 <= i <= 6 && chunk[..pos] == d
        invariant BigEndian(totalLen / 32, 7) == BigEndian(len, i + 1) + chunk[pos + i + 1..pos + 7]
        invariant chunk[pos + 7] == totalLen * 8 % 256
      {
        ghost var was := chunk[pos + i + 1..pos + 7];
        LastByte(len, i);
        chunk[pos + i] := len % 256;
        assert chunk[pos + i..pos + 7] == [len % 256] + was;
        len := len / 256;
        i := i - 1;
      }
      LastByte(len, 0);
      assert chunk[..] == d + chunk[pos..pos + 7] + [chunk[pos + 7]];
    }

    /** memset of n zero bytes. */
    method Clear(pos: nat, n: nat)
      requires pos + n <= chunk.Length
      modifies chunk
      ensures chunk[..pos + n] == old(chunk[..pos]) + Zeros(n)
    {
      forall k | 0 <= k < n { chunk[pos + k] := 0; }
    }

    /**
      The one-bit, and a block that ends before the length, if there is no room for that; d is what is
      hashed or in the chunk.
     */
    method Begin() returns (pos: nat, left: nat, ghost d: seq<byte>)
      requires Valid()
      modifies `h, chunk
      ensures pos + left == 64 && TOTAL_LEN_LEN <= left && chunk[..pos] == Rest(d) && h == Hashed(d)
      ensures Pad(content) == d + (Zeros(left - TOTAL_LEN_LEN) + BigEndian(|content| * 8, 8))
    {
      hide Compress, Hashed, Rest, BigEndian, Pad;
      ghost var c, rest := content, chunk[..chunkPos];
      pos, left := chunkPos, spaceLeft;
      chunk[pos] := 0x80;
      pos, left := pos + 1, left - 1;
      assert chunk[..pos] == rest + [0x80];
      if left < TOTAL_LEN_LEN {
        Clear(pos, left);
        ghost var b := [0x80] + Zeros(left);
        assert chunk[0..64] == rest + b;
        BlockDone(c, b, chunk[..], 0);
        h := ConsumeChunk(h, chunk, 0);
        pos, left, d := 0, SIZE_OF_SHA_256_CHUNK, c + b;
        PadsTwo(c);
      } else {
        BlockGrows(c, [0x80]);
        d := c + [0x80];
        PadsOne(c);
      }
    }

    /** The last block, or the last two. */
    method Finish()
      requires Valid()
      modifies `h, chunk
      ensures h == Blocks(Pad(content), |Pad(content)| / 64)
    {
      hide Compress, Rest, BigEndian, Blocks, Pad;
      SameLength(|content|);
      var pos, left, d := Begin();
      var zeros := left - TOTAL_LEN_LEN;
      ghost var b := Zeros(zeros) + BigEndian(|content| * 8, 8);
      Clear(pos, zeros);
      assert chunk[..56] == Rest(d) + Zeros(zeros);
      PutLength(pos + zeros);
      assert chunk[0..64] == Rest(d) + b;
      BlockDone(d, b, chunk[..], 0);
      h := ConsumeChunk(h, chunk, 0);
    }

    /** sha_256_close: the digest of all that was written. */
    method Close() returns (r: array<byte>)
      requires Valid()
      modifies `h, chunk, hash
      ensures r == hash && hash[..] == Sha256Spec.Sha256(content)
    {
      assert hash.Length == 32;
      hide *;
      Finish();
      ghost var none := hash[..0];
      PutFour(0, h.a, h.b, h.c, h.d);
      PutFour(16, h.e, h.f, h.g, h.h);
      r := hash;
      assert hash[..] == hash[..32];
      DigestIs(content, h, none);
    }

    method PutFour(j: nat, w0: u32, w1: u32, w2: u32, w3: u32)
      requires j + 16 <= hash.Length
      modifies hash
      ensures hash[..j + 16] == old(hash[..j]) + WordBytes(w0) + WordBytes(w1) + WordBytes(w2) + WordBytes(w3)
    {
      hide *;
      PutWord(j, w0);
      PutWord(j + 4, w1);
      PutWord(j + 8, w2);
      PutWord(j + 12, w3);
    }

    method PutWord(j: nat, word: u32)
      requires j + 4 <= hash.Length
      modifies hash
      ensures hash[..j + 4] == old(hash[..j]) + WordBytes(word)
    {
      hide *;
      ghost var d := hash[..j];
      var b3, b2, b1, b0 := Digits(word);
      hash[j], hash[j + 1], hash[j + 2], hash[j + 3] := b3, b2, b1, b0;
      assert hash[..j + 4] == d + [b3, b2, b1, b0];
    }
  }

  lemma DigestIs(c: seq<byte>, h: Words, none: seq<byte>)
    requires |none| == 0 && h == Blocks(Pad(c), |Pad(c)| / 64)
    ensures Sha256Spec.Sha256(c) == none + WordBytes(h.a) + WordBytes(h.b) + WordBytes(h.c) + WordBytes(h.d)
      + WordBytes(h.e) + WordBytes(h.f) + WordBytes(h.g) + WordBytes(h.h)
  {
    hide WordBytes, Blocks, Pad;
    assert none + WordBytes(h.a) == WordBytes(h.a);
  }

  lemma ZeroBytesIs(n: nat)
    ensures ZeroBytes(n) == if n % 64 < 56 then 55 - n % 64 else 63 - n % 64 + 56
  {
  }

  lemma PadWith(c: seq<byte>, z: seq<byte>)
    requires z == Zeros(ZeroBytes(|c|))
    ensures Pad(c) == c + [0x80] + z + BigEndian(|c| * 8, 8)
  {
    hide BigEndian, ZeroBytes, Zeros;
  }

  /** Padding that ends in the block where it begins. */
  lemma PadsOne(c: seq<byte>)
    requires |c| % 64 < 56
    ensures Pad(c) == c + [0x80] + (Zeros(55 - |c| % 64) + BigEndian(|c| * 8, 8))
  {
    hide *;
    var z := Zeros(55 - |c| % 64);
    ZeroBytesIs(|c|);
    PadWith(c, z);
    Assoc(c + [0x80], z, BigEndian(|c| * 8, 8));
  }

  /** Padding that ends in the next one. */
  lemma PadsTwo(c: seq<byte>)
    requires |c| % 64 >= 56
    ensures Pad(c) == c + ([0x80] + Zeros(63 - |c| % 64)) + (Zeros(56) + BigEndian(|c| * 8, 8))
  {
    hide BigEndian, ZeroBytes, Pad;
    var z, length := Zeros(63 - |c| % 64), BigEndian(|c| * 8, 8);
    ZeroBytesIs(|c|);
    assert Zeros(63 - |c| % 64 + 56) == z + Zeros(56);
    hide Zeros;
    PadWith(c, z + Zeros(56));
    Assoc(c, [0x80], z);
    Assoc(c + [0x80], z, Zeros(56));
    Assoc(c + [0x80] + z, Zeros(56), length);
  }

  /** The bytes of a word, high one first. */
  method Digits(word: u32) returns (b3: byte, b2: byte, b1: byte, b0: byte)
    ensures WordBytes(word) == [b3, b2, b1, b0]
  {
    hide *;
    var w: nat := word as int;
    FourBytes(word, w);
    b3, b2, b1, b0 := w / 0x100_0000, w / 0x1_0000 % 256, w / 256 % 256, w % 256;
  }

  lemma FourBytes(word: u32, w: nat)
    requires word as int == w
    ensures WordBytes(word) == [w / 0x100_0000, w / 0x1_0000 % 256, w / 256 % 256, w % 256]
  {
    hide BigEndian;
    FourDigits(w);
  }

  lemma FourDigits(w: nat)
    requires w < TWO32
    ensures BigEndian(w, 4) == [w / 0x100_0000, w / 0x1_0000 % 256, w / 256 % 256, w % 256]
  {
    var w1, w2, w3 := w / 256, w / 0x1_0000, w / 0x100_0000;
    assert w1 / 256 == w2 && w2 / 256 == w3;
    assert BigEndian(w3, 1) == [w3];
    assert BigEndian(w2, 2) == [w3, w2 % 256];
    assert BigEndian(w1, 3) == [w3, w2 % 256, w1 % 256];
  }

  lemma Pow2Of64()
    ensures Pow2(64) == TWO64
  {
    assert Pow2(8) == 0x100;
    assert Pow2(16) == 0x1_0000;
    assert Pow2(24) == 0x100_0000;
    assert Pow2(32) == 0x1_0000_0000;
    assert Pow2(40) == 0x100_0000_0000;
    assert Pow2(48) == 0x1_0000_0000_0000;
    assert Pow2(56) == 0x100_0000_0000_0000;
  }

  /** The length that is kept modulo 2^64 gives the same eight bytes. */
  lemma SameLength(n: nat)
    ensures BigEndian(n % TWO64 * 8, 8) == BigEndian(n * 8, 8)
  {
    var q := n / TWO64;
    Pow2Of64();
    assert n * 8 == n % TWO64 * 8 + (8 * q) * TWO64;
    BigEndianCut(n % TWO64 * 8, 8 * q, 8);
  }

  /** calc_sha_256 */
  method CalcSha256(hash: array<byte>, input: array<byte>, len: nat)
    requires hash.Length == SIZE_OF_SHA_256_HASH && hash != input && len <= input.Length
    modifies hash
    ensures hash[..] == Sha256Spec.Sha256(input[..len])
  {
    hide *;
    var s := new Sha_256(hash);
    s.Write(input, 0, len);
    assert [] + input[0..len] == input[..len];
    var r := s.Close();
  }
}
