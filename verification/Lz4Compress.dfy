/** LZ4_compress_default: the hash-table block compressor of lib/lz4/lz4.c. */
module Lz4Compress {
  import opened Bytes
  import opened Lz4Format
  import opened Lz4Memory
  import opened Lz4Encoding

  const LZ4_MAX_INPUT_SIZE := 0x7E00_0000
  const LZ4_64KLIMIT := 0x1_0000 + (MFLIMIT - 1)
  const LZ4_MINLENGTH := MFLIMIT + 1
  const SKIP_TRIGGER := 6

  datatype TableType = ByU32 | ByU16

  /** Number of hash table entries. */
  function TableSize(t: TableType): (r: nat) {
    if t.ByU16? then 8192 else 4096
  }

  /** Values that fit in an entry. */
  function EntryRange(t: TableType): (r: nat) {
    if t.ByU16? then 0x1_0000 else 0x1_0000_0000
  }

  function Read32(src: array<byte>, p: nat): (r: nat)
    requires p + 4 <= src.Length
    reads src
  {
    LE32(src[p], src[p + 1], src[p + 2], src[p + 3])
  }

  /** LZ4_hash4 for byU16 and LZ4_hash5 for byU32, as on a little-endian 64-bit machine. */
  function HashPosition(src: array<byte>, p: nat, t: TableType): (h: nat)
    requires p + 8 <= src.Length
    ensures h < TableSize(t)
    reads src
  {
    if t.ByU16? then
      (Read32(src, p) * 2654435761) % 0x1_0000_0000 / 0x8_0000
    else
      var b4: int := src[p + 4];
      var low40 := Read32(src, p) + 0x1_0000_0000 * b4;
      (low40 * 0x100_0000 * 889523592379) % 0x1_0000_0000_0000_0000 / 0x10_0000_0000_0000
  }

  function CompressBound(n: nat): (r: nat) {
    if n > LZ4_MAX_INPUT_SIZE then 0 else n + n / 255 + 16
  }

  /** Every position in the table comes before `limit`. */
  ghost predicate EntriesBefore(table: array<nat>, limit: nat)
    reads table
  {
    forall h :: 0 <= h < table.Length ==> table[h] < limit
  }

  method PutPosition(table: array<nat>, h: nat, p: nat, t: TableType)
    requires h < table.Length && p < EntryRange(t)
    modifies table
    ensures table[h] == p
    ensures forall i :: 0 <= i < table.Length && i != h ==> table[i] == old(table[i])
  {
    table[h] := p % EntryRange(t);
  }

  /** Index of the first byte that differs in two 8-byte words that are not equal. */
  method NbCommonBytes(src: array<byte>, a: nat, b: nat) returns (r: nat)
    requires a + 8 <= src.Length && b + 8 <= src.Length
    requires src[a..a + 8] != src[b..b + 8]
    ensures r < 8 && src[a + r] != src[b + r] && src[a..a + r] == src[b..b + r]
  {
    r := 0;
    while src[a + r] == src[b + r]
      invariant r < 8 && src[a..a + r] == src[b..b + r]
      decreases 8 - r
    {
      r := r + 1;
      assert src[a..a + r] == src[a..a + r - 1] + [src[a + r - 1]];
      assert src[b..b + r] == src[b..b + r - 1] + [src[b + r - 1]];
    }
  }

  /** The k bytes at a and at b are the same. */
  ghost predicate Common(s: seq<byte>, a: nat, b: nat, k: nat) {
    a + k <= |s| && b + k <= |s| && s[a..a + k] == s[b..b + k]
  }

  lemma CommonGrows(s: seq<byte>, a: nat, b: nat, i: nat, k: nat)
    requires Common(s, a, b, i) && Common(s, a + i, b + i, k)
    ensures Common(s, a, b, i + k)
  {
    assert s[a..a + (i + k)] == s[a..a + i] + s[a + i..a + i + k];
    assert s[b..b + (i + k)] == s[b..b + i] + s[b + i..b + i + k];
  }

  /** Length of the common run at pStart and pMatch, not going past the limit. */
  method Count(src: array<byte>, pStart: nat, pMatch: nat, limit: nat) returns (r: nat)
    requires pMatch < pStart <= limit <= src.Length
    ensures pStart + r <= limit && Common(src[..], pStart, pMatch, r)
    ensures pStart + r < limit ==> src[pStart + r] != src[pMatch + r]
  {
    hide Common;
    r := 0;
    assert Common(src[..], pStart, pMatch, 0) by { CommonNothing(src[..], pStart, pMatch); }
    while pStart + r < limit - 7
      invariant pStart + r <= limit && Common(src[..], pStart, pMatch, r)
    {
      var same, more := CountWord(src, pStart + r, pMatch + r);
      CommonGrows(src[..], pStart, pMatch, r, more);
      r := r + more;
      if !same { return; }
    }
    var more := CountTail(src, pStart + r, pMatch + r, limit);
    CommonGrows(src[..], pStart, pMatch, r, more);
    r := r + more;
  }

  lemma CommonPrefix(s: seq<byte>, a: nat, b: nat, k: nat, j: nat)
    requires Common(s, a, b, k) && j <= k
    ensures Common(s, a, b, j)
  {
    assert s[a..a + k][..j] == s[a..a + j];
    assert s[b..b + k][..j] == s[b..b + j];
  }

  lemma CommonOne(s: seq<byte>, a: nat, b: nat)
    requires a < |s| && b < |s| && s[a] == s[b]
    ensures Common(s, a, b, 1)
  {
  }

  lemma CommonNothing(s: seq<byte>, a: nat, b: nat)
    requires a <= |s| && b <= |s|
    ensures Common(s, a, b, 0)
  {
  }

  /** Compares one machine word. */
  method CountWord(src: array<byte>, a: nat, b: nat) returns (same: bool, more: nat)
    requires a + 8 <= src.Length && b + 8 <= src.Length
    ensures Common(src[..], a, b, more)
    ensures if same then more == 8 else more < 8 && src[a + more] != src[b + more]
  {
    same := src[a..a + 8] == src[b..b + 8];
    if same {
      more := 8;
    } else {
      more := NbCommonBytes(src, a, b);
    }
  }

  lemma Read32Equal(src: array<byte>, a: nat, b: nat)
    requires a + 4 <= src.Length && b + 4 <= src.Length
    requires Read32(src, a) == Read32(src, b)
    ensures src[a] == src[b] && src[a + 1] == src[b + 1] && src[a + 2] == src[b + 2] && src[a + 3] == src[b + 3]
  {
    assert src[a + 3] == src[b + 3];
    assert src[a + 2] == src[b + 2];
    assert src[a + 1] == src[b + 1];
  }

  lemma CommonFour(src: array<byte>, a: nat, b: nat)
    requires a + 4 <= src.Length && b + 4 <= src.Length && Read32(src, a) == Read32(src, b)
    ensures Common(src[..], a, b, 4)
  {
    Read32Equal(src, a, b);
  }

  /** At most seven bytes are left: four, two and one at a time. */
  method CountTail(src: array<byte>, a: nat, b: nat, limit: nat) returns (r: nat)
    requires b < a <= limit <= src.Length && limit <= a + 7
    ensures a + r <= limit && Common(src[..], a, b, r)
    ensures a + r < limit ==> src[a + r] != src[b + r]
  {
    hide Common, Read32;
    if a < limit - 3 && Read32(src, b) == Read32(src, a) {
      CommonFour(src, a, b);
      var more := CountUpToThree(src, a + 4, b + 4, limit);
      CommonGrows(src[..], a, b, 4, more);
      r := 4 + more;
    } else {
      r := CountUpToThree(src, a, b, limit);
    }
  }

  method CountUpToThree(src: array<byte>, a: nat, b: nat, limit: nat) returns (r: nat)
    requires b < a <= limit <= src.Length
    requires limit <= a + 3 || Read32(src, b) != Read32(src, a)
    ensures a + r <= limit && Common(src[..], a, b, r)
    ensures a + r < limit ==> src[a + r] != src[b + r]
  {
    r := 0;
    if a < limit - 1 && LE16(src[b], src[b + 1]) == LE16(src[a], src[a + 1]) {
      assert src[b + 1] == src[a + 1];
      r := 2;
    }
    if a + r < limit && src[b + r] == src[a + r] {
      r := r + 1;
    }
  }

  // ---------------------------------------------------------------- writing one sequence

  lemma {:induction false} RunShape(v: nat, r: seq<byte>)
    requires |r| == v / 255 + 1 && r[|r| - 1] == v % 255
    requires forall k :: 0 <= k < |r| - 1 ==> r[k] == 255
    ensures r == Run(v)
    decreases v
  {
    if v >= 255 {
      assert r[0] == 255;
      RunShape(v - 255, r[1..]);
    }
  }

  /** A literal-length run, one byte at a time. */
  method WriteRun(dst: array<byte>, op0: nat, v: nat) returns (op: nat)
    requires op0 + v / 255 + 1 <= dst.Length
    modifies dst
    ensures op == op0 + v / 255 + 1 && dst[..op] == old(dst[..op0]) + Run(v)
  {
    op := op0;
    var len := v;
    while len >= 255
      invariant op0 <= op && op + len / 255 + 1 == op0 + v / 255 + 1
      invariant v - len == 255 * (op - op0)
      invariant dst[..op0] == old(dst[..op0])
      invariant forall k :: op0 <= k < op ==> dst[k] == 255
    {
      dst[op] := 255;
      op, len := op + 1, len - 255;
    }
    dst[op] := len;
    op := op + 1;
    RunShape(v, dst[op0..op]);
    assert dst[..op] == dst[..op0] + dst[op0..op];
  }

  method Write32Ones(dst: array<byte>, op: nat)
    requires op + 4 <= dst.Length
    modifies dst
    ensures forall k :: op <= k < op + 4 ==> dst[k] == 255
    ensures forall k :: 0 <= k < op || op + 4 <= k < dst.Length ==> dst[k] == old(dst[k])
  {
    dst[op], dst[op + 1], dst[op + 2], dst[op + 3] := 255, 255, 255, 255;
  }

  /** A match-length run, with four-byte stores of 0xFFFFFFFF that may overshoot. */
  method WriteMatchRun(dst: array<byte>, op0: nat, v: nat) returns (op: nat)
    requires op0 + v / 255 + 4 <= dst.Length
    modifies dst
    ensures op == op0 + v / 255 + 1 && dst[..op] == old(dst[..op0]) + Run(v)
  {
    op := op0;
    var matchCode := v;
    Write32Ones(dst, op);
    while matchCode >= 4 * 255
      invariant op0 <= op && v - matchCode == 255 * (op - op0)
      invariant op + matchCode / 255 == op0 + v / 255
      invariant dst[..op0] == old(dst[..op0])
      invariant forall k :: op0 <= k < op + 4 ==> dst[k] == 255
    {
      op := op + 4;
      Write32Ones(dst, op);
      matchCode := matchCode - 4 * 255;
    }
    op := op + matchCode / 255;
    dst[op] := matchCode % 255;
    op := op + 1;
    RunShape(v, dst[op0..op]);
    assert dst[..op] == dst[..op0] + dst[op0..op];
  }

  /** Token and literal length for ll literals. */
  method WriteLiteralHeader(dst: array<byte>, op0: nat, ll: nat) returns (op: nat)
    requires op0 + ll / 255 + 2 <= dst.Length
    modifies dst
    ensures op <= op0 + ll / 255 + 2
    ensures dst[..op] == old(dst[..op0]) + [Nibble(ll) * 16] + LengthBytes(ll)
  {
    ghost var d := dst[..op0];
    op := op0 + 1;
    if ll >= RUN_MASK {
      dst[op0] := RUN_MASK * 16;
      assert dst[..op] == d + [Nibble(ll) * 16];
      op := WriteRun(dst, op, ll - RUN_MASK);
    } else {
      dst[op0] := ll * 16;
      assert dst[..op] == d + [Nibble(ll) * 16];
    }
  }

  lemma LiteralBytesSplit(d: seq<byte>, l: seq<byte>)
    ensures d + [Nibble(|l|) * 16] + LengthBytes(|l|) + l == d + LiteralBytes(l, 0)
  {
  }

  /** The literals before a match, copied eight bytes at a time. */
  method EncodeLiterals(src: array<byte>, anchor: nat, ip: nat, dst: array<byte>, op0: nat) returns (op: nat)
    requires src != dst && anchor <= ip && ip + 8 <= src.Length
    requires op0 + 2 + (ip - anchor) / 255 + (ip - anchor) + 8 <= dst.Length
    modifies dst
    ensures op <= dst.Length && dst[..op] == old(dst[..op0]) + LiteralBytes(src[anchor..ip], 0)
  {
    hide LengthBytes, LiteralBytes, Nibble;
    var litLength := ip - anchor;
    op := WriteLiteralHeader(dst, op0, litLength);
    ghost var d := dst[..op];
    WildAppend(dst, op, src, anchor, litLength);
    op := op + litLength;
    LiteralBytesSplit(old(dst[..op0]), src[anchor..ip]);
  }

  /** The final literals, copied exactly. */
  method EncodeLastLiterals(src: array<byte>, anchor: nat, dst: array<byte>, op0: nat) returns (op: nat)
    requires src != dst && anchor <= src.Length
    requires op0 + 2 + (src.Length - anchor) / 255 + (src.Length - anchor) <= dst.Length
    modifies dst
    ensures op <= dst.Length && dst[..op] == old(dst[..op0]) + LiteralBytes(src[anchor..], 0)
  {
    hide LengthBytes, LiteralBytes, Nibble;
    var lastRun := src.Length - anchor;
    op := WriteLiteralHeader(dst, op0, lastRun);
    ghost var d := dst[..op];
    Copy(dst, op, src, anchor, lastRun);
    op := op + lastRun;
    assert dst[..op] == d + src[anchor..];
    LiteralBytesSplit(old(dst[..op0]), src[anchor..]);
  }

  /** Offset, match length, and the match half of the token. */
  method EncodeMatch(src: array<byte>, ip0: nat, m: nat, dst: array<byte>, token: nat, op0: nat)
    returns (ip: nat, op: nat)
    requires src != dst && m < ip0 <= src.Length - MFLIMIT && ip0 - m <= MAX_DISTANCE
    requires Common(src[..], ip0, m, MINMATCH)
    requires token < op0 && op0 + 6 + (src.Length - ip0) / 255 <= dst.Length && dst[token] % 16 == 0
    modifies dst
    ensures ip0 + MINMATCH <= ip <= src.Length - LASTLITERALS
    ensures Common(src[..], ip0, m, ip - ip0)
    ensures ip < src.Length - LASTLITERALS ==> src[ip] != src[ip - (ip0 - m)]
    ensures op <= dst.Length && dst[..op] ==
      old(dst[..op0])[token := old(dst[token]) + Nibble(ip - ip0 - MINMATCH)] + MatchBytes(ip0 - m, ip - ip0)
  {
    hide Common;
    ghost var d := dst[..op0];
    var offset := ip0 - m;
    var matchCode := Count(src, ip0 + MINMATCH, m + MINMATCH, src.Length - LASTLITERALS);
    CommonGrows(src[..], ip0, m, MINMATCH, matchCode);
    ip := ip0 + MINMATCH + matchCode;
    op := WriteOffsetAndLength(dst, token, op0, offset, matchCode);
  }

  method WriteOffsetAndLength(dst: array<byte>, token: nat, op0: nat, offset: nat, matchCode0: nat) returns (op: nat)
    requires offset <= MAX_DISTANCE
    requires token < op0 && op0 + 6 + matchCode0 / 255 <= dst.Length && dst[token] % 16 == 0
    modifies dst
    ensures op <= dst.Length && dst[..op] ==
      old(dst[..op0])[token := old(dst[token]) + Nibble(matchCode0)] + MatchBytes(offset, MINMATCH + matchCode0)
  {
    ghost var d := dst[..op0];
    dst[op0], dst[op0 + 1] := offset % 256, offset / 256 % 256;
    op := op0 + 2;
    var matchCode := matchCode0;
    if matchCode >= ML_MASK {
      dst[token] := dst[token] + ML_MASK;
      assert dst[..op] == d[token := d[token] + Nibble(matchCode0)] + [offset % 256, offset / 256];
      matchCode := matchCode - ML_MASK;
      op := WriteMatchRun(dst, op, matchCode);
    } else {
      dst[token] := dst[token] + matchCode;
      assert dst[..op] == d[token := d[token] + Nibble(matchCode0)] + [offset % 256, offset / 256];
    }
  }

  // ---------------------------------------------------------------- finding matches

  /** Sizes for which every position of the input fits in the table. */
  ghost predicate Fits(src: array<byte>, table: array<nat>, t: TableType) {
    && table.Length == TableSize(t)
    && LZ4_MINLENGTH <= src.Length <= LZ4_MAX_INPUT_SIZE
    && (t.ByU16? ==> src.Length < LZ4_64KLIMIT)
  }

  /** A usable match for position ip. */
  ghost predicate MatchAt(src: array<byte>, ip: nat, m: nat)
    reads src
  {
    m < ip <= src.Length - MFLIMIT && ip - m <= MAX_DISTANCE && Common(src[..], ip, m, MINMATCH)
  }

  /**
    Walks forward from ip0, with growing steps, until the table proposes a position with the
    same four bytes; gives up when the next position would be too close to the end.
   */
  method FindMatch(src: array<byte>, table: array<nat>, t: TableType, ip0: nat, forwardH0: nat)
    returns (found: bool, ip: nat, m: nat)
    requires Fits(src, table, t) && 1 <= ip0 <= src.Length - MFLIMIT + 1
    requires forwardH0 < table.Length && EntriesBefore(table, ip0)
    modifies table
    ensures found ==> ip0 <= ip && MatchAt(src, ip, m) && EntriesBefore(table, ip + 1)
  {
    hide HashPosition, Common, Read32;
    var mflimitPlusOne := src.Length - MFLIMIT + 1;
    var forwardIp: nat, forwardH: nat := ip0, forwardH0;
    var step, searchMatchNb := 1, Shl6(1);
    found, ip, m := false, 0, 0;
    while true
      invariant ip0 <= forwardIp <= mflimitPlusOne && forwardH < table.Length
      invariant step >= 1 && searchMatchNb >= 64
      invariant EntriesBefore(table, forwardIp)
      decreases mflimitPlusOne - forwardIp
    {
      var h := forwardH;
      ip := forwardIp;
      forwardIp := forwardIp + step;
      step := searchMatchNb / 64;
      searchMatchNb := searchMatchNb + 1;
      if forwardIp > mflimitPlusOne { return; }
      m := table[h];
      forwardH := HashPosition(src, forwardIp, t);
      PutPosition(table, h, ip, t);
      if !((if t.ByU16? then false else m + MAX_DISTANCE < ip) || Read32(src, m) != Read32(src, ip)) {
        CommonFour(src, ip, m);
        found := true;
        return;
      }
    }
  }

  function Shl6(v: nat): (r: nat) { v * 64 }

  /** Extends the match backwards over the pending literals. */
  method CatchUp(src: array<byte>, anchor: nat, ip0: nat, m0: nat) returns (ip: nat, m: nat)
    requires anchor <= ip0 && MatchAt(src, ip0, m0)
    ensures anchor <= ip <= ip0 && ip0 - ip == m0 - m
    ensures MatchAt(src, ip, m) && Common(src[..], ip, m, ip0 - ip + MINMATCH)
  {
    hide Common;
    ip, m := ip0, m0;
    while ip > anchor && m > 0 && src[ip - 1] == src[m - 1]
      invariant anchor <= ip <= ip0 && ip0 - ip == m0 - m
      invariant Common(src[..], ip, m, ip0 - ip + MINMATCH)
    {
      ip, m := ip - 1, m - 1;
      CommonOne(src[..], ip, m);
      CommonGrows(src[..], ip, m, 1, ip0 - (ip + 1) + MINMATCH);
    }
    CommonPrefix(src[..], ip, m, ip0 - ip + MINMATCH, MINMATCH);
  }

  lemma CommonAt(s: seq<byte>, a: nat, b: nat, k: nat, i: nat)
    requires Common(s, a, b, k) && i < k
    ensures s[a + i] == s[b + i]
  {
    assert s[a..a + k][i] == s[b..b + k][i];
  }

  /** The run the encoder counts reaches past the bytes the search had compared. */
  lemma CountReaches(s: seq<byte>, a: nat, b: nat, known: nat, counted: nat, limit: nat)
    requires Common(s, a, b, known) && a + known <= limit <= |s|
    requires a + counted < limit && b + counted < |s| ==> s[a + counted] != s[b + counted]
    ensures known <= counted
  {
    if counted < known {
      CommonAt(s, a, b, known, counted);
    }
  }

  // ---------------------------------------------------------------- the main loop

  /** The output so far, d, encodes the input before the anchor. */
  ghost predicate Emitted(qs: seq<Sequence>, s: seq<byte>, anchor: nat, d: seq<byte>) {
    && anchor <= |s| && Valid(qs, |s|)
    && Expand(qs, |s|) == s[..anchor] && EncodeAll(qs, |s|) == d
  }

  lemma Room(qs: seq<Sequence>, s: seq<byte>, anchor: nat, d: seq<byte>)
    requires Emitted(qs, s, anchor, d)
    ensures 255 * |d| <= 256 * anchor
  {
    EncodedCost(qs, |s|);
  }

  /** Writing one more sequence extends what has been emitted up to the end of its match. */
  lemma SequenceDone(qs: seq<Sequence>, s: seq<byte>, anchor: nat, d: seq<byte>, ip: nat, offset: nat,
                     end: nat, d1: seq<byte>, d2: seq<byte>)
    requires Emitted(qs, s, anchor, d) && anchor <= ip < end
    requires 1 <= offset <= ip && offset <= MAX_DISTANCE && ip + MINMATCH <= end
    requires ip + MFLIMIT <= |s| && end + LASTLITERALS <= |s|
    requires Common(s, ip, ip - offset, end - ip)
    requires d1 == d + LiteralBytes(s[anchor..ip], 0)
    requires d1[|d|] % 16 == 0
    requires d2 == d1[|d| := d1[|d|] + Nibble(end - ip - MINMATCH)] + MatchBytes(offset, end - ip)
    ensures Emitted(qs + [Sequence(s[anchor..ip], offset, end - ip)], s, end, d2)
  {
    hide LiteralBytes, MatchBytes, CopyMatch, Common, Nibble;
    var q := Sequence(s[anchor..ip], offset, end - ip);
    var qs' := qs + [q];
    assert qs'[..|qs'| - 1] == qs;
    assert s[..anchor] + q.literals == s[..ip];
    CommonIsMatch(s, ip, offset, end);
    TokenNibble(d, q.literals, Nibble(end - ip - MINMATCH));
  }

  /** A common run at distance `offset` is what copying the match appends. */
  lemma CommonIsMatch(s: seq<byte>, ip: nat, offset: nat, end: nat)
    requires 1 <= offset <= ip <= end && Common(s, ip, ip - offset, end - ip)
    ensures s[..end] == CopyMatch(s[..ip], offset, end - ip)
  {
    var r := s[..end];
    assert r[..ip] == s[..ip];
    forall j, k | ip <= k < |r| && j == k - offset ensures r[k] == r[j] {
      assert s[ip..ip + (end - ip)][k - ip] == s[ip - offset..ip - offset + (end - ip)][k - ip];
    }
    CopyMatchUnique(s[..ip], offset, r);
  }

  /** Adding the match nibble to the token gives the header of the whole sequence. */
  lemma TokenNibble(d: seq<byte>, l: seq<byte>, nib: nat)
    requires nib < 16
    ensures var d1 := d + LiteralBytes(l, 0);
      d1[|d|] % 16 == 0 && d1[|d| := d1[|d|] + nib] == d + LiteralBytes(l, nib)
  {
    var d1 := d + LiteralBytes(l, 0);
    assert d1[|d|] == Nibble(|l|) * 16;
  }

  /** Worst case at a match: the header, the literals and all transient stores still fit. */
  lemma RoomForMatch(qs: seq<Sequence>, s: seq<byte>, anchor: nat, d: seq<byte>, ip: nat, op: nat)
    requires Emitted(qs, s, anchor, d) && anchor <= ip <= |s|
    requires op == |d + LiteralBytes(s[anchor..ip], 0)|
    ensures op + 6 + (|s| - ip) / 255 <= |s| + |s| / 255 + 16
  {
    hide LiteralBytes;
    Room(qs, s, anchor, d);
    LiteralBytesLength(s[anchor..ip], 0);
  }

  /** Writes offset and length of one sequence whose literals are already written. */
  method EmitOne(src: array<byte>, dst: array<byte>, anchor: nat, ip0: nat, m: nat, token: nat, op0: nat,
                 ghost known: nat, ghost qs0: seq<Sequence>)
    returns (ip: nat, op: nat, ghost qs: seq<Sequence>)
    requires src != dst && src.Length <= LZ4_MAX_INPUT_SIZE && dst.Length >= CompressBound(src.Length)
    requires anchor <= ip0 && MatchAt(src, ip0, m) && token < op0 <= dst.Length
    requires Emitted(qs0, src[..], anchor, dst[..token])
    requires dst[..op0] == dst[..token] + LiteralBytes(src[..][anchor..ip0], 0)
    requires ip0 <= known <= src.Length - MFLIMIT && Common(src[..], ip0, m, known - ip0 + MINMATCH)
    modifies dst
    ensures op <= dst.Length && Emitted(qs, src[..], ip, dst[..op])
    ensures known + MINMATCH <= ip <= src.Length - LASTLITERALS
  {
    hide LiteralBytes, MatchBytes, Common, Emitted, Nibble;
    ghost var s, d, d1 := src[..], dst[..token], dst[..op0];
    RoomForMatch(qs0, s, anchor, d, ip0, op0);
    TokenNibble(d, s[anchor..ip0], 0);
    assert dst[token] == d1[token];
    ip, op := EncodeMatch(src, ip0, m, dst, token, op0);
    assert src[..] == s;
    CountReaches(s, ip0, m, known - ip0 + MINMATCH, ip - ip0, |s| - LASTLITERALS);
    SequenceDone(qs0, s, anchor, d, ip0, ip0 - m, ip, d1, dst[..op]);
    qs := qs0 + [Sequence(s[anchor..ip0], ip0 - m, ip - ip0)];
  }

  /** Records the end of a match in the table and looks for another match right there. */
  method NextMatch(src: array<byte>, table: array<nat>, t: TableType, ip: nat) returns (again: bool, m: nat)
    requires Fits(src, table, t) && 4 <= ip <= src.Length - MFLIMIT && EntriesBefore(table, ip)
    modifies table
    ensures EntriesBefore(table, ip + 1)
    ensures again ==> MatchAt(src, ip, m)
  {
    hide HashPosition, Common, Read32;
    var h := HashPosition(src, ip - 2, t);
    PutPosition(table, h, ip - 2, t);
    h := HashPosition(src, ip, t);
    m := table[h];
    PutPosition(table, h, ip, t);
    again := m + MAX_DISTANCE >= ip && Read32(src, m) == Read32(src, ip);
    if again { CommonFour(src, ip, m); }
  }

  /**
    From an accepted match on: writes its offset and length, and as long as the table has a
    match right where the last one ended, goes on with sequences that have no literals.
    The literals of the first sequence are already written, its token is at |d|.
   */
  method EmitMatches(src: array<byte>, dst: array<byte>, table: array<nat>, t: TableType,
                     anchor: nat, ip0: nat, m0: nat, op0: nat,
                     ghost searched: nat, token0: nat, ghost qs0: seq<Sequence>)
    returns (ip: nat, op: nat, ghost qs: seq<Sequence>)
    requires src != dst && Fits(src, table, t) && dst.Length >= CompressBound(src.Length)
    requires anchor <= ip0 && MatchAt(src, ip0, m0) && token0 < op0 <= dst.Length
    requires Emitted(qs0, src[..], anchor, dst[..token0])
    requires dst[..op0] == dst[..token0] + LiteralBytes(src[..][anchor..ip0], 0)
    requires ip0 <= searched <= src.Length - MFLIMIT && EntriesBefore(table, searched + 1)
    requires Common(src[..], ip0, m0, searched - ip0 + MINMATCH)
    modifies dst, table
    ensures op <= dst.Length && Emitted(qs, src[..], ip, dst[..op])
    ensures searched + MINMATCH <= ip <= src.Length - LASTLITERALS
    ensures ip <= src.Length - MFLIMIT ==> EntriesBefore(table, ip + 1)
  {
    hide LiteralBytes, Common, Emitted;
    ip, op, qs := ip0, op0, qs0;
    ghost var s := src[..];
    var token: nat, m: nat, last: nat := token0, m0, anchor;
    ghost var known := searched;
    while true
      invariant token < op <= dst.Length && last <= ip <= known <= src.Length - MFLIMIT
      invariant MatchAt(src, ip, m) && Common(s, ip, m, known - ip + MINMATCH)
      invariant Emitted(qs, s, last, dst[..token])
      invariant dst[..op] == dst[..token] + LiteralBytes(s[last..ip], 0)
      invariant searched <= known && EntriesBefore(table, known + 1)
      decreases src.Length - ip
    {
      ip, op, qs := EmitOne(src, dst, last, ip, m, token, op, known, qs);
      last := ip;
      if ip >= src.Length - MFLIMIT + 1 { return; }
      var again;
      again, m := NextMatch(src, table, t, ip);
      if !again { return; }
      token := op;
      known := ip;
      op := EmptyLiterals(src, dst, last, token, qs);
    }
  }

  /** A token for a sequence without literals. */
  method EmptyLiterals(src: array<byte>, dst: array<byte>, anchor: nat, token: nat, ghost qs: seq<Sequence>)
    returns (op: nat)
    requires src != dst && src.Length <= LZ4_MAX_INPUT_SIZE && dst.Length >= CompressBound(src.Length)
    requires token <= dst.Length && Emitted(qs, src[..], anchor, dst[..token])
    modifies dst
    ensures op == token + 1 <= dst.Length && dst[..token] == old(dst[..token])
    ensures dst[..op] == dst[..token] + LiteralBytes(src[..][anchor..anchor], 0)
  {
    Room(qs, src[..], anchor, dst[..token]);
    ghost var d := dst[..token];
    dst[token] := 0;
    op := token + 1;
    assert dst[..token] == d;
    assert src[..][anchor..anchor] == [];
  }

  /** Searches, catches up and writes pending literals: up to the token of the next match. */
  method NextSequence(src: array<byte>, dst: array<byte>, table: array<nat>, t: TableType,
                      anchor: nat, ip0: nat, forwardH: nat, op0: nat, ghost qs: seq<Sequence>)
    returns (found: bool, ip: nat, m: nat, op: nat, ghost searched: nat)
    requires src != dst && Fits(src, table, t) && dst.Length >= CompressBound(src.Length)
    requires anchor <= ip0 && 1 <= ip0 <= src.Length - MFLIMIT + 1 && op0 <= dst.Length
    requires forwardH < table.Length && EntriesBefore(table, ip0)
    requires Emitted(qs, src[..], anchor, dst[..op0])
    modifies dst, table
    ensures dst[..op0] == old(dst[..op0])
    ensures found ==> anchor <= ip && MatchAt(src, ip, m) && op0 < op <= dst.Length
    ensures found ==> dst[..op] == dst[..op0] + LiteralBytes(src[..][anchor..ip], 0)
    ensures found ==> ip0 <= searched && ip <= searched <= src.Length - MFLIMIT && EntriesBefore(table, searched + 1)
    ensures found ==> Common(src[..], ip, m, searched - ip + MINMATCH)
  {
    hide LiteralBytes, Common, Emitted;
    ghost var s, d := src[..], dst[..op0];
    op := op0;
    found, ip, m := FindMatch(src, table, t, ip0, forwardH);
    searched := ip;
    if !found { return; }
    ip, m := CatchUp(src, anchor, ip, m);
    RoomForLiterals(qs, s, anchor, d, ip);
    assert dst[..op0] == d;
    op := EncodeLiterals(src, anchor, ip, dst, op0);
    assert src[anchor..ip] == s[anchor..ip];
    assert dst[..op][..op0] == d;
    assert dst[..op0] == d;
  }

  lemma RoomForLiterals(qs: seq<Sequence>, s: seq<byte>, anchor: nat, d: seq<byte>, ip: nat)
    requires Emitted(qs, s, anchor, d) && anchor <= ip <= |s| - MFLIMIT
    ensures |d| + 2 + (ip - anchor) / 255 + (ip - anchor) + 8 <= |s| + |s| / 255 + 16
  {
    Room(qs, s, anchor, d);
  }

  /** The compressor proper, for inputs long enough to hold a match. */
  method CompressMatches(src: array<byte>, dst: array<byte>, table: array<nat>, t: TableType)
    returns (anchor: nat, op: nat, ghost qs: seq<Sequence>)
    requires src != dst && Fits(src, table, t) && dst.Length >= CompressBound(src.Length)
    requires forall h :: 0 <= h < table.Length ==> table[h] == 0
    modifies dst, table
    ensures op <= dst.Length && Emitted(qs, src[..], anchor, dst[..op])
  {
    hide LiteralBytes, Common, HashPosition;
    var ip: nat;
    anchor, op, qs := 0, 0, [];
    var h := HashPosition(src, 0, t);
    PutPosition(table, h, 0, t);
    ip := 1;
    var forwardH: nat := HashPosition(src, ip, t);
    assert Emitted(qs, src[..], anchor, dst[..op]);
    while true
      invariant op <= dst.Length && anchor <= ip && 1 <= ip <= src.Length - MFLIMIT + 1
      invariant forwardH < table.Length && EntriesBefore(table, ip)
      invariant Emitted(qs, src[..], anchor, dst[..op])
      decreases src.Length - ip
    {
      hide Emitted;
      var token := op;
      var found, m;
      ghost var searched;
      ghost var was := ip;
      found, ip, m, op, searched := NextSequence(src, dst, table, t, anchor, ip, forwardH, token, qs);
      if !found { return anchor, token, qs; }
      ip, op, qs := EmitMatches(src, dst, table, t, anchor, ip, m, op, searched, token, qs);
      anchor := ip;
      if ip >= src.Length - MFLIMIT + 1 { return; }
      ip := ip + 1;
      forwardH := HashPosition(src, ip, t);
    }
  }

  lemma RoomForLast(qs: seq<Sequence>, s: seq<byte>, anchor: nat, d: seq<byte>)
    requires Emitted(qs, s, anchor, d)
    ensures |d| + 2 + (|s| - anchor) / 255 + (|s| - anchor) <= |s| + |s| / 255 + 16
  {
    Room(qs, s, anchor, d);
  }

  /** LZ4_compress_generic without an output limit: 0 for a size the table cannot index. */
  method CompressGeneric(src: array<byte>, dst: array<byte>, table: array<nat>, t: TableType) returns (r: nat)
    requires src != dst && table.Length == TableSize(t) && dst.Length >= CompressBound(src.Length)
    requires forall h :: 0 <= h < table.Length ==> table[h] == 0
    modifies dst, table
    ensures r == 0 <==> src.Length > 0x7E00_0000 || (t.ByU16? && src.Length >= 0x1_0000 + 11)
    ensures r <= dst.Length
    ensures r > 0 ==> r <= src.Length + src.Length / 255 + 16
    ensures r > 0 ==> Conforming(dst[..r]) && Decode(dst[..r], 0, []) == Some(src[..])
  {
    hide LiteralBytes, Decode, Conforming;
    if src.Length > LZ4_MAX_INPUT_SIZE { return 0; }
    if t.ByU16? && src.Length >= LZ4_64KLIMIT { return 0; }
    var anchor, op := 0, 0;
    ghost var qs: seq<Sequence> := [];
    if src.Length >= LZ4_MINLENGTH {
      anchor, op, qs := CompressMatches(src, dst, table, t);
    }
    ghost var s, d, last := src[..], dst[..op], src[anchor..];
    RoomForLast(qs, s, anchor, d);
    r := EncodeLastLiterals(src, anchor, dst, op);
    assert s == s[..anchor] + last;
    EncodedBlockConforms(qs, |s|, last);
    EncodedBlockBound(qs, |s|, last);
  }

  lemma EncodedBlockBound(qs: seq<Sequence>, n: nat, last: seq<byte>)
    requires Valid(qs, n) && |Expand(qs, n)| + |last| == n
    ensures |EncodeAll(qs, n) + LiteralBytes(last, 0)| <= n + n / 255 + 2
  {
    EncodedCost(qs, n);
    LiteralBytesLength(last, 0);
  }

  /**
    LZ4_compress_default with an output buffer of at least LZ4_compressBound bytes.  Returns
    the block's size, never more than the bound, or 0 exactly for inputs over the maximum.
    The block decodes to the input and keeps the end-of-block rules, whatever the hash does.
   */
  method CompressDefault(src: array<byte>, dst: array<byte>) returns (r: nat)
    requires src != dst && dst.Length >= CompressBound(src.Length)
    modifies dst
    ensures r == 0 <==> src.Length > 0x7E00_0000
    ensures r > 0 ==> r <= src.Length + src.Length / 255 + 16 <= dst.Length
    ensures r > 0 ==> Conforming(dst[..r]) && Decode(dst[..r], 0, []) == Some(src[..])
  {
    hide Decode, Conforming;
    var t := if src.Length < LZ4_64KLIMIT then ByU16 else ByU32;
    var table := new nat[TableSize(t)](_ => 0);
    r := CompressGeneric(src, dst, table, t);
  }
}
