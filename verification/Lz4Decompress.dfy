/** LZ4_decompress_safe: the fast block decoder of lib/lz4/lz4.c, against the format. */
module Lz4Decompress {
  import opened Bytes
  import opened Lz4Format
  import opened Lz4Memory

  /** Byte i of the block, or whatever follows the block in memory. */
  function Fetch(src: array<byte>, srcSize: nat, beyond: nat -> byte, i: nat): (r: byte)
    requires srcSize <= src.Length
    reads src
  {
    if i < srcSize then src[i] else beyond(i)
  }

  /** What the format reads where the shortcut applies. */
  lemma ShortcutStep(s: seq<byte>, i: nat)
    requires i + 17 <= |s| && s[i] < 0xF0 && s[i] % 16 != ML_MASK
    ensures var ll := s[i] / 16;
      ReadStep(s, i) ==
        Match(s[i + 1..i + 1 + ll], LE16(s[i + 1 + ll], s[i + 2 + ll]), s[i] % 16 + MINMATCH, i + 3 + ll)
  {
  }

  /** A match of up to 18 bytes in three fixed-size moves. */
  method CopyEighteen(dst: array<byte>, op: nat, off: nat)
    requires 8 <= off <= op && op + 18 <= dst.Length
    modifies dst
    ensures forall k {:trigger dst[k]} :: op <= k < op + 18 ==> dst[k] == dst[k - off]
    ensures forall k {:trigger dst[k]} :: 0 <= k < op ==> dst[k] == old(dst[k])
  {
    var m := op - off;
    Copy(dst, op, dst, m, 8);
    Copy(dst, op + 8, dst, m + 8, 8);
    Copy(dst, op + 16, dst, m + 16, 2);
  }

  /** The copies of the shortcut: 16 bytes for ll literals, 18 for a match of ml. */
  method ShortcutCopy(src: array<byte>, ip: nat, dst: array<byte>, op: nat, ll: nat, off: nat, ml: nat)
    requires src != dst && ll <= 14 && ml <= 18
    requires ip + 16 <= src.Length && op + 32 <= dst.Length && 8 <= off <= op + ll
    modifies dst
    ensures dst[..op + ll + ml] == CopyMatch(old(dst[..op]) + src[ip..ip + ll], off, ml)
  {
    ghost var out := dst[..op] + src[ip..ip + ll];
    Copy(dst, op, src, ip, 16);
    assert dst[..op + ll] == out;
    CopyEighteen(dst, op + ll, off);
    ghost var r := dst[..op + ll + ml];
    assert r[..|out|] == out;
    CopyMatchUnique(out, off, r);
  }

  /**
    The speculative shortcut: at most 14 literals and a match of at most 18 bytes that does not
    overlap its own first 8 bytes, copied with fixed-size moves.  ip0 is just past the token.
   */
  method Shortcut(src: array<byte>, srcSize: nat, dst: array<byte>, ip0: nat, op0: nat, token: byte)
    returns (taken: bool, ip: nat, op: nat)
    requires srcSize <= src.Length && src != dst
    requires 1 <= ip0 && op0 <= dst.Length
    requires ip0 <= srcSize ==> token == src[ip0 - 1]
    modifies dst
    ensures !taken ==> ip == ip0 && op == op0 && dst[..] == old(dst[..])
    ensures taken ==> ip0 < ip <= srcSize && op0 <= op <= dst.Length
    ensures taken ==>
      var st := ReadStep(src[..srcSize], ip0 - 1);
      && st.Match? && st.next == ip && 1 <= st.offset <= op0 + |st.literals|
      && op == op0 + |st.literals| + st.length
      && dst[..op] == CopyMatch(old(dst[..op0]) + st.literals, st.offset, st.length)
  {
    hide ReadStep, CopyMatch;
    ip, op, taken := ip0, op0, false;
    if ip + 14 + 2 <= srcSize && op + 14 + 18 <= dst.Length && token < 0xF0 && token % 16 != ML_MASK {
      var ll: nat := token / 16;
      var off: nat := LE16(src[ip + ll], src[ip + ll + 1]);
      if off >= 8 && op + ll - off >= 0 {
        var ml: nat := token % 16 + MINMATCH;
        ShortcutStep(src[..srcSize], ip0 - 1);
        ShortcutCopy(src, ip, dst, op, ll, off, ml);
        assert src[..srcSize][ip0..ip0 + ll] == src[ip0..ip0 + ll];
        op := op + ll + ml;
        ip := ip + ll + 2;
        taken := true;
      }
    }
  }

  /**
    Decodes the literal length.  Either it is the length the format gives, or the loop has
    stopped early, which only happens when the literals cannot fit in the block.
   */
  method ReadLiteralLength(src: array<byte>, srcSize: nat, beyond: nat -> byte, ip0: nat, token: byte)
    returns (length: nat, ip: nat)
    requires srcSize <= src.Length
    ensures ip >= ip0
    ensures var want := ReadLength(src[..srcSize], ip0, token / 16);
      || want == Some((length, ip))
      || (ip + length > srcSize && (want == None || want.value.0 + want.value.1 > srcSize))
  {
    ip := ip0;
    length := token / 16;
    if length == RUN_MASK {
      ghost var s := src[..srcSize];
      while true
        invariant ip0 <= ip && length >= 15
        invariant length == 15 || ip + 15 < srcSize
        invariant ReadRun(s, ip0) ==
          match ReadRun(s, ip) { case None => None case Some(p) => Some((length - 15 + p.0, p.1)) }
        decreases srcSize - ip
      {
        var b := Fetch(src, srcSize, beyond, ip);
        ReadRunAdvances(s, ip);
        ReadRunAdvances(s, ip + 1);
        ip := ip + 1;
        length := length + b;
        if !(ip < srcSize - RUN_MASK && b == 255) { break; }
      }
    }
  }

  /** Decodes the match length; fails exactly when its bytes reach into the last five. */
  method ReadMatchLength(src: array<byte>, srcSize: nat, ip0: nat, token: byte)
    returns (ok: bool, length: nat, ip: nat)
    requires srcSize <= src.Length && ip0 + LASTLITERALS < srcSize
    ensures var want := ReadLength(src[..srcSize], ip0, token % 16);
      if ok then want == Some((length, ip)) && ip0 <= ip <= srcSize - LASTLITERALS
      else want == None || want.value.1 > srcSize - LASTLITERALS
  {
    ip := ip0;
    length := token % 16;
    ok := true;
    if length == ML_MASK {
      ghost var s := src[..srcSize];
      var b: byte := 255;
      while b == 255
        invariant ip0 <= ip <= srcSize - LASTLITERALS
        invariant b == 255 ==> length >= 15
        invariant b == 255 ==> (ReadRun(s, ip0) ==
          match ReadRun(s, ip) { case None => None case Some(p) => Some((length - 15 + p.0, p.1)) })
        invariant b != 255 ==> length >= 15 && ReadRun(s, ip0) == Some((length - 15, ip))
        decreases srcSize - ip, b
      {
        ReadRunAdvances(s, ip);
        b := src[ip];
        ip := ip + 1;
        if ip > srcSize - LASTLITERALS { ok := false; return; }
        length := length + b;
      }
    }
  }

  const INC32TABLE: seq<int> := [0, 1, 2, 1, 0, 4, 4, 4]
  const DEC64TABLE: seq<int> := [0, 0, 0, -1, -4, 1, 2, 3]

  /** d is a positive multiple of p. */
  ghost predicate Multiple(d: nat, p: nat) {
    0 < p <= d && (d == p || Multiple(d - p, p))
  }

  /** How far back the copy may read once eight bytes of the match are in place. */
  ghost predicate KeepsPeriod(offset: nat, distance: nat) {
    if offset == 0 then distance == 8
    else if offset < 8 then 8 <= distance <= offset + 8 && Multiple(distance, offset)
    else distance == offset
  }

  lemma DistanceIsMultiple(offset: nat)
    requires 0 < offset < 8
    ensures Multiple(8 + offset - INC32TABLE[offset] + DEC64TABLE[offset], offset)
  {
    assert Multiple(offset, offset);
    assert Multiple(2 * offset, offset);
    assert Multiple(3 * offset, offset);
    assert Multiple(4 * offset, offset);
    if offset == 1 {
      assert Multiple(6, 1);
      assert Multiple(8, 1);
    }
  }

  /**
    The first eight bytes of a match.  Returns where the copy goes on reading: a distance of at
    least eight, and for an overlapping match a multiple of its offset.
   */
  method CopyFirstEight(dst: array<byte>, op: nat, offset: nat) returns (distance: nat)
    requires op + 8 <= dst.Length && offset <= op
    requires offset == 0 ==> forall k :: op <= k < op + 4 ==> dst[k] == 0
    modifies dst
    ensures 8 <= distance <= op + 8
    ensures KeepsPeriod(offset, distance)
    ensures forall k :: op <= k < op + 8 ==> dst[k] == if offset == 0 then 0 else dst[k - offset]
    ensures forall k :: 0 <= k < op || op + 8 <= k < dst.Length ==> dst[k] == old(dst[k])
  {
    var m: int := op - offset;
    if offset < 8 {
      dst[op] := dst[m];
      dst[op + 1] := dst[m + 1];
      dst[op + 2] := dst[m + 2];
      dst[op + 3] := dst[m + 3];
      m := m + INC32TABLE[offset];
      Copy(dst, op + 4, dst, m, 4);
      m := m - DEC64TABLE[offset];
    } else {
      Copy(dst, op, dst, m, 8);
      m := m + 8;
    }
    distance := op + 8 - m;
    if 0 < offset < 8 { DistanceIsMultiple(offset); }
  }

  /** The rest of a match that ends close to the end of the output buffer. */
  method CopyNearEnd(dst: array<byte>, op: nat, distance: nat, cpy: nat)
    requires 8 <= distance <= op && op <= dst.Length - 4 && cpy + LASTLITERALS <= dst.Length
    modifies dst
    ensures forall k {:trigger dst[k]} :: op <= k < cpy ==> dst[k] == dst[k - distance]
    ensures forall k {:trigger dst[k]} :: 0 <= k < op ==> dst[k] == old(dst[k])
  {
    var o, m := op, op - distance;
    var oCopyLimit := dst.Length - (WILDCOPYLENGTH - 1);
    if o < oCopyLimit {
      WildCopy(dst, o, dst, m, oCopyLimit);
      m := m + (oCopyLimit - o);
      o := oCopyLimit;
    }
    while o < cpy
      invariant op <= o <= dst.Length && m == o - distance
      invariant forall k {:trigger dst[k]} :: op <= k < o ==> dst[k] == dst[k - distance]
      invariant forall k {:trigger dst[k]} :: 0 <= k < op ==> dst[k] == old(dst[k])
    {
      dst[o] := dst[m];
      o, m := o + 1, m + 1;
    }
  }

  /** The rest of a match of `length` bytes at op, read `distance` bytes back. */
  method CopyRest(dst: array<byte>, op: nat, distance: nat, length: nat) returns (ok: bool)
    requires op + MFLIMIT <= dst.Length && 8 <= distance <= op + 8 && length >= MINMATCH
    modifies dst
    ensures ok <==> op + length + LASTLITERALS <= dst.Length
    ensures ok ==> forall k {:trigger dst[k]} :: op + 8 <= k < op + length ==> dst[k] == dst[k - distance]
    ensures forall k {:trigger dst[k]} :: 0 <= k < op + 8 ==> dst[k] == old(dst[k])
  {
    var oend := dst.Length;
    var cpy := op + length;
    var o := op + 8;
    if cpy > oend - 12 {
      if cpy > oend - LASTLITERALS { return false; }
      CopyNearEnd(dst, o, distance, cpy);
    } else {
      var m := o - distance;
      Copy(dst, o, dst, m, 8);
      if length > 16 { WildCopy(dst, o + 8, dst, m + 8, cpy); }
    }
    ok := true;
  }

  /** Within a stretch of period p, going a multiple of p back finds the same byte. */
  lemma {:induction false} PeriodsBack(r: seq<byte>, from: nat, p: nat, d: nat)
    requires 0 < p <= from && Multiple(d, p) && from <= |r| && d <= |r| - from + p
    requires Repeats(r, from, p)
    ensures r[|r| - d] == r[|r| - p]
    decreases d
  {
    if d == p {
    } else {
      assert r[|r| - d + p] == r[|r| - d];
      PeriodsBack(r, from, p, d - p);
    }
  }

  /** Reading a multiple of the offset back keeps the offset's period. */
  lemma {:induction false} DistanceKeepsPeriod(r: seq<byte>, from: nat, offset: nat, d: nat)
    requires 0 < offset <= from && from + 8 <= |r|
    requires Multiple(d, offset) && d <= offset + 8
    requires Repeats(r[..from + 8], from, offset)
    requires forall j, k {:trigger r[j], r[k]} :: from + 8 <= k < |r| && j == k - d ==> r[k] == r[j]
    ensures Repeats(r, from, offset)
    decreases |r|
  {
    if |r| == from + 8 {
      assert r[..from + 8] == r;
    } else {
      var k := |r| - 1;
      var s := r[..k];
      assert s[..from + 8] == r[..from + 8];
      DistanceKeepsPeriod(s, from, offset, d);
      PeriodsBack(s, from, offset, d);
      assert r == s + [r[k]];
    }
  }

  /**
    The copy of one match.  Succeeds exactly when it leaves the last five bytes free, and then
    has appended the match the format describes, overlapping or not.
   */
  method AppendMatch(dst: array<byte>, op: nat, offset: nat, length: nat) returns (ok: bool)
    requires op + MFLIMIT <= dst.Length && offset <= op && length >= MINMATCH
    requires offset == 0 ==> forall k :: op <= k < op + 4 ==> dst[k] == 0
    modifies dst
    ensures ok <==> op + length + LASTLITERALS <= dst.Length
    ensures ok ==> dst[..op + length] == CopyMatch(old(dst[..op]), offset, length)
  {
    ghost var out := dst[..op];
    var distance := CopyFirstEight(dst, op, offset);
    ghost var eight := dst[..op + 8];
    ok := CopyRest(dst, op, distance, length);
    if ok {
      ghost var r := dst[..op + length];
      assert if |r| <= |eight| then r == eight[..|r|] else r[..|eight|] == eight;
      MatchCopied(out, r, eight, offset, distance);
    }
  }

  /** Distances at least eight back from `eight` on, after its first bytes have the period. */
  lemma MatchCopied(out: seq<byte>, r: seq<byte>, eight: seq<byte>, offset: nat, distance: nat)
    requires offset <= |out| && |out| + 8 == |eight| && |out| <= |r|
    requires KeepsPeriod(offset, distance)
    requires eight[..|out|] == out && Repeats(eight, |out|, offset)
    requires if |r| <= |eight| then r == eight[..|r|] else r[..|eight|] == eight
    requires forall j, k {:trigger r[j], r[k]} :: |eight| <= k < |r| && j == k - distance ==> r[k] == r[j]
    ensures r == CopyMatch(out, offset, |r| - |out|)
  {
    if |r| <= |eight| {
      assert r == eight[..|r|];
    } else if offset == 0 {
      ZerosSpread(r, |out|);
    } else if offset < 8 {
      DistanceKeepsPeriod(r, |out|, offset, distance);
    } else {
      FarRepeats(r, |out|, eight, offset);
    }
    PrefixOfPrefix(r, eight, out);
    CopyMatchUnique(out, offset, r);
  }

  lemma PrefixOfPrefix(r: seq<byte>, eight: seq<byte>, out: seq<byte>)
    requires |out| <= |eight| && |out| <= |r| && eight[..|out|] == out
    requires if |r| <= |eight| then r == eight[..|r|] else r[..|eight|] == eight
    ensures r[..|out|] == out
  {
    if |r| <= |eight| {
      assert eight[..|r|][..|out|] == eight[..|out|];
    } else {
      assert r[..|eight|][..|out|] == r[..|out|];
    }
  }

  lemma FarRepeats(r: seq<byte>, from: nat, eight: seq<byte>, offset: nat)
    requires 8 <= offset <= from && |eight| == from + 8 < |r|
    requires r[..|eight|] == eight && Repeats(eight, from, offset)
    requires forall j, k {:trigger r[j], r[k]} :: |eight| <= k < |r| && j == k - offset ==> r[k] == r[j]
    ensures Repeats(r, from, offset)
  {
    forall j, k | from <= k < |r| && j == k - offset ensures r[k] == r[j] {
      if k < |eight| {
        assert eight[k] == eight[j] && eight[k] == r[k] && eight[j] == r[j];
      }
    }
  }

  lemma {:induction false} ZerosSpread(r: seq<byte>, from: nat)
    requires from + 8 <= |r|
    requires Repeats(r[..from + 8], from, 0)
    requires forall j, k {:trigger r[j], r[k]} :: from + 8 <= k < |r| && j == k - 8 ==> r[k] == r[j]
    ensures Repeats(r, from, 0)
    decreases |r|
  {
    if |r| == from + 8 {
      assert r[..from + 8] == r;
    } else {
      var s := r[..|r| - 1];
      assert s[..from + 8] == r[..from + 8];
      ZerosSpread(s, from);
      assert r[|r| - 1] == r[|r| - 9] == s[|r| - 9];
      assert r == s + [r[|r| - 1]];
    }
  }

  method WriteLE32(dst: array<byte>, op: nat, v: nat)
    requires op + 4 <= dst.Length && v < 0x1_0000
    modifies dst
    ensures v == 0 ==> forall k :: op <= k < op + 4 ==> dst[k] == 0
    ensures forall k :: 0 <= k < op || op + 4 <= k < dst.Length ==> dst[k] == old(dst[k])
  {
    dst[op], dst[op + 1], dst[op + 2], dst[op + 3] := v % 256, v / 256, 0, 0;
  }

  /** What the end-of-block rules leave after one sequence. */
  lemma StrictStep(s: seq<byte>, i: nat, o: nat, n: nat)
    requires Strict(s, i, o, n)
    ensures var st := ReadStep(s, i);
      && !st.Malformed?
      && (st.Final? ==> o + |st.literals| == n)
      && (st.Match? ==>
        && 1 <= st.offset <= o + |st.literals|
        && o + |st.literals| + MFLIMIT <= n
        && o + |st.literals| + st.length + LASTLITERALS <= n
        && st.next + 1 + LASTLITERALS <= |s|)
  {
    ReadStepAdvances(s, i);
    var st := ReadStep(s, i);
    if st.Match? {
      StrictLeavesRoom(s, st.next, o + |st.literals| + st.length, n);
    }
  }

  datatype Status = More | Done | Error

  /**
    The literals of a sequence.  `More` leaves room for a match, `Done` ends the block.
    ip is where the token is, j is where the literals are, ll is how many the loop has counted.
   */
  method CopyLiterals(src: array<byte>, srcSize: nat, dst: array<byte>, op: nat, j: nat, ll: nat)
    returns (status: Status)
    requires srcSize <= src.Length && src != dst && op <= dst.Length
    modifies dst
    ensures status == (
      if op + ll > dst.Length - MFLIMIT || j + ll > srcSize - (2 + 1 + LASTLITERALS)
      then if j + ll != srcSize || op + ll > dst.Length then Error else Done
      else More)
    ensures !status.Error? ==> dst[..op + ll] == old(dst[..op]) + src[j..j + ll]
  {
    var cpy := op + ll;
    ghost var out := dst[..op];
    if cpy > dst.Length - MFLIMIT || j + ll > srcSize - (2 + 1 + LASTLITERALS) {
      if j + ll != srcSize || cpy > dst.Length { return Error; }
      Copy(dst, op, src, j, ll);
      status := Done;
    } else {
      WildAppend(dst, op, src, j, ll);
      status := More;
    }
    assert dst[..op + ll] == out + src[j..j + ll];
  }

  /** One turn of the decoder's main loop, for the sequence whose token is at ip0. */
  method DecodeSequence(src: array<byte>, srcSize: nat, beyond: nat -> byte, dst: array<byte>, ip0: nat, op0: nat)
    returns (status: Status, ip: nat, op: nat)
    requires srcSize <= src.Length && src != dst && ip0 <= srcSize && op0 <= dst.Length
    modifies dst
    ensures status.More? ==>
      var st := ReadStep(src[..srcSize], ip0);
      && st.Match? && ip0 < ip <= srcSize && st.next == ip && st.offset <= op0 + |st.literals|
      && op == op0 + |st.literals| + st.length <= dst.Length
      && dst[..op] == CopyMatch(old(dst[..op0]) + st.literals, st.offset, st.length)
    ensures status.Done? ==>
      var st := ReadStep(src[..srcSize], ip0);
      && st.Final? && op <= dst.Length && dst[..op] == old(dst[..op0]) + st.literals
    ensures status.Error? ==> forall n: nat | Strict(src[..srcSize], ip0, op0, n) :: n > dst.Length
  {
    var token := Fetch(src, srcSize, beyond, ip0);
    ip := ip0 + 1;
    var taken;
    taken, ip, op := Shortcut(src, srcSize, dst, ip, op0, token);
    if taken { return More, ip, op; }
    status, ip, op := DecodeLong(src, srcSize, beyond, dst, ip0, op0, token);
  }

  /** If the rules hold, the literals fit and leave room for the next sequence or end the block. */
  lemma LiteralsMustFit(s: seq<byte>, i: nat, o: nat, n: nat, j: nat, ll: nat)
    requires Strict(s, i, o, n)
    requires i < |s| ==>
      var want := ReadLength(s, i + 1, s[i] / 16);
      || want == Some((ll, j))
      || (j + ll > |s| && (want == None || want.value.0 + want.value.1 > |s|))
    ensures o + ll <= n
    ensures j + ll == |s| || (o + ll + MFLIMIT <= n && j + ll + 2 + 1 + LASTLITERALS <= |s|)
  {
    StrictStep(s, i, o, n);
    ReadRunAdvances(s, j + ll + 2);
  }

  lemma SliceOfPrefix(a: seq<byte>, n: nat, i: nat, j: nat)
    requires i <= j <= n <= |a|
    ensures a[..n][i..j] == a[i..j]
  {
  }

  lemma LongStep(s: seq<byte>, i: nat, j: nat, ll: nat)
    requires i < |s| && ReadLength(s, i + 1, s[i] / 16) == Some((ll, j))
    ensures ReadStep(s, i) == ReadTail(s, s[i] % 16, j, ll)
  {
  }

  /** The same turn when the shortcut does not apply. */
  method DecodeLong(src: array<byte>, srcSize: nat, beyond: nat -> byte, dst: array<byte>,
                    ip0: nat, op0: nat, token: byte)
    returns (status: Status, ip: nat, op: nat)
    requires srcSize <= src.Length && src != dst && ip0 <= srcSize && op0 <= dst.Length
    requires token == Fetch(src, srcSize, beyond, ip0)
    modifies dst
    ensures status.More? ==>
      var st := ReadStep(src[..srcSize], ip0);
      && st.Match? && ip0 < ip <= srcSize && st.next == ip && st.offset <= op0 + |st.literals|
      && op == op0 + |st.literals| + st.length <= dst.Length
      && dst[..op] == CopyMatch(old(dst[..op0]) + st.literals, st.offset, st.length)
    ensures status.Done? ==>
      var st := ReadStep(src[..srcSize], ip0);
      && st.Final? && op <= dst.Length && dst[..op] == old(dst[..op0]) + st.literals
    ensures status.Error? ==> forall n: nat | Strict(src[..srcSize], ip0, op0, n) :: n > dst.Length
  {
    hide Strict, ReadStep, ReadRun, ReadLength, CopyMatch;
    ghost var s := src[..srcSize];
    op := op0;
    var ll;
    ll, ip := ReadLiteralLength(src, srcSize, beyond, ip0 + 1, token);
    status := CopyLiterals(src, srcSize, dst, op, ip, ll);
    if status.Error? {
      forall n: nat | Strict(s, ip0, op0, n) ensures n > dst.Length {
        LiteralsMustFit(s, ip0, op0, n, ip, ll);
      }
      return;
    }
    LongStep(s, ip0, ip, ll);
    assert s == src[..srcSize];
    SliceOfPrefix(src[..], srcSize, ip, ip + ll);
    ip, op := ip + ll, op + ll;
    if status.Done? { return; }
    status, ip, op := DecodeMatch(src, srcSize, dst, ip, op, token);
    forall n: nat | Strict(s, ip0, op0, n) ensures status.Error? ==> n > dst.Length {
      StrictStep(s, ip0, op0, n);
    }
  }

  /** Offset, match length and copy.  ip0 is where the offset is. */
  method DecodeMatch(src: array<byte>, srcSize: nat, dst: array<byte>, ip0: nat, op0: nat, token: byte)
    returns (status: Status, ip: nat, op: nat)
    requires srcSize <= src.Length && src != dst
    requires ip0 + 2 + 1 + LASTLITERALS <= srcSize && op0 + MFLIMIT <= dst.Length
    modifies dst
    ensures var offset := LE16(src[ip0], src[ip0 + 1]);
      var want := ReadLength(src[..srcSize], ip0 + 2, token % 16);
      && !status.Done?
      && (status.More? ==>
        && want.Some? && ip == want.value.1 && ip0 < ip <= srcSize && offset <= op0
        && op == op0 + MINMATCH + want.value.0 <= dst.Length
        && dst[..op] == CopyMatch(old(dst[..op0]), offset, MINMATCH + want.value.0))
      && (status.Error? ==>
        || offset > op0 || want == None || want.value.1 > srcSize - LASTLITERALS
        || op0 + MINMATCH + want.value.0 + LASTLITERALS > dst.Length)
  {
    var offset: nat := LE16(src[ip0], src[ip0 + 1]);
    ip, op := ip0 + 2, op0;
    if op - offset < 0 { return Error, ip, op; }
    ghost var out := dst[..op];
    WriteLE32(dst, op, offset);
    assert dst[..op] == out;
    var ok, length;
    ok, length, ip := ReadMatchLength(src, srcSize, ip, token);
    if !ok { return Error, ip, op; }
    length := length + MINMATCH;
    ok := AppendMatch(dst, op, offset, length);
    if !ok { return Error, ip, op; }
    op := op + length;
    status := More;
  }

  lemma DecodeStep(s: seq<byte>, i: nat, out: seq<byte>)
    requires ReadStep(s, i).Match? && ReadStep(s, i).offset <= |out| + |ReadStep(s, i).literals|
    ensures var st := ReadStep(s, i);
      Decode(s, i, out) == Decode(s, st.next, CopyMatch(out + st.literals, st.offset, st.length))
  {
    ReadStepAdvances(s, i);
  }

  lemma DecodeFinal(s: seq<byte>, i: nat, out: seq<byte>)
    requires ReadStep(s, i).Final?
    ensures Decode(s, i, out) == Some(out + ReadStep(s, i).literals)
  {
  }

  lemma StrictNext(s: seq<byte>, i: nat, o: nat, n: nat)
    requires Strict(s, i, o, n) && ReadStep(s, i).Match?
    ensures var st := ReadStep(s, i); Strict(s, st.next, o + |st.literals| + st.length, n)
  {
    ReadStepAdvances(s, i);
  }

  /**
    Decodes a block of srcSize bytes into dst.  Whatever the input, a block that is accepted
    has produced exactly the bytes of its byte-at-a-time interpretation, and every block that
    keeps the end-of-block rules and fits is accepted.  Nothing depends on `beyond`, the bytes
    that follow the block.
   */
  method DecompressSafe(src: array<byte>, srcSize: nat, beyond: nat -> byte, dst: array<byte>) returns (r: int)
    requires srcSize <= src.Length && src != dst
    modifies dst
    ensures 0 <= r ==> r <= dst.Length && Decode(src[..srcSize], 0, []) == Some(dst[..r])
    ensures Conforming(src[..srcSize]) && |Decode(src[..srcSize], 0, []).value| <= dst.Length ==>
      r == |Decode(src[..srcSize], 0, []).value|
  {
    hide Decode, ReadStep, Strict, CopyMatch;
    ghost var s := src[..srcSize];
    ghost var want := Decode(s, 0, []);
    if dst.Length == 0 {
      EmptyBlock(s);
      return if srcSize == 1 && src[0] == 0 then 0 else -1;
    }
    ghost var fits := Conforming(s) && |want.value| <= dst.Length;
    var ip: nat, op: nat := 0, 0;
    assert dst[..0] == [];
    while true
      invariant ip <= srcSize && op <= dst.Length
      invariant Decode(s, ip, dst[..op]) == want
      invariant fits ==> Strict(s, ip, op, |want.value|)
      decreases srcSize - ip
    {
      var status;
      ghost var i, out := ip, dst[..op];
      status, ip, op := DecodeSequence(src, srcSize, beyond, dst, ip, op);
      if status.More? { DecodeStep(s, i, out); }
      if fits && status.More? { StrictNext(s, i, |out|, |want.value|); }
      if status.Done? {
        DecodeFinal(s, i, out);
        if fits { StrictStep(s, i, |out|, |want.value|); }
        return op;
      }
      if status.Error? { return -1 - ip; }
    }
  }

  /** Only one block keeps the rules and stands for no bytes at all. */
  lemma EmptyBlock(s: seq<byte>)
    ensures Conforming(s) && Decode(s, 0, []) == Some([]) <==> s == [0]
  {
    if Conforming(s) && Decode(s, 0, []) == Some([]) {
      StrictStep(s, 0, 0, 0);
    }
    if s == [0] {
      assert ReadStep(s, 0) == Final([]);
    }
  }
}
