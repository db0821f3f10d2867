/** The packed stream format of Cap'n Proto: what lib/capnp/capn-stream.c writes and reads. */
module CapnPacking {
  import opened Bytes

  // ---------------------------------------------------------------- one tagged word

  /** Bit i of the tag is set when byte i of the word is not zero. */
  function TagOf(w: seq<byte>): (r: nat) {
    if w == [] then 0 else (if w[0] != 0 then 1 else 0) + 2 * TagOf(w[1..])
  }

  function NonZero(w: seq<byte>): (r: seq<byte>) {
    if w == [] then [] else (if w[0] != 0 then [w[0]] else []) + NonZero(w[1..])
  }

  /** How many of the n low bits of h are set. */
  function Ones(h: nat, n: nat): (r: nat) {
    if n == 0 then 0 else h % 2 + Ones(h / 2, n - 1)
  }

  /** n bytes: one taken from b for each set bit of h, a zero for each clear bit. */
  function Spread(h: nat, n: nat, b: seq<byte>): (r: seq<byte>)
    requires Ones(h, n) <= |b|
  {
    if n == 0 then []
    else if h % 2 == 1 then [b[0]] + Spread(h / 2, n - 1, b[1..])
    else [0] + Spread(h / 2, n - 1, b)
  }

  lemma {:induction false} SpreadLength(h: nat, n: nat, b: seq<byte>)
    requires Ones(h, n) <= |b|
    ensures |Spread(h, n, b)| == n
  {
    if n > 0 {
      if h % 2 == 1 { SpreadLength(h / 2, n - 1, b[1..]); } else { SpreadLength(h / 2, n - 1, b); }
    }
  }

  lemma TagSplit(w: seq<byte>)
    requires w != []
    ensures TagOf(w) / 2 == TagOf(w[1..]) && (TagOf(w) % 2 == 1 <==> w[0] != 0)
  {
  }

  /** Spreading the nonzero bytes by the tag gives the word back. */
  lemma {:induction false} SpreadTag(w: seq<byte>, rest: seq<byte>)
    ensures Ones(TagOf(w), |w|) == |NonZero(w)| <= |w|
    ensures Spread(TagOf(w), |w|, NonZero(w) + rest) == w
    ensures TagOf(w) < Pow2(|w|)
  {
    if w != [] {
      hide TagOf;
      SpreadTag(w[1..], rest);
      TagSplit(w);
      var b := NonZero(w) + rest;
      if w[0] != 0 {
        assert b[1..] == NonZero(w[1..]) + rest;
      } else {
        assert NonZero(w) == NonZero(w[1..]);
      }
    }
  }

  /** Only the zero word has tag 0, and only a word without zero bytes has all bits set. */
  lemma {:induction false} TagExtremes(w: seq<byte>)
    ensures TagOf(w) == 0 <==> |NonZero(w)| == 0
    ensures |NonZero(w)| == 0 <==> (forall k :: 0 <= k < |w| ==> w[k] == 0)
    ensures TagOf(w) == Pow2(|w|) - 1 <==> |NonZero(w)| == |w|
    ensures |NonZero(w)| == |w| <==> (forall k :: 0 <= k < |w| ==> w[k] != 0)
    ensures |NonZero(w)| <= |w| && TagOf(w) < Pow2(|w|)
    ensures |NonZero(w)| == |w| ==> NonZero(w) == w
  {
    if w != [] {
      TagExtremes(w[1..]);
      assert forall k :: 0 < k < |w| ==> w[k] == w[1..][k - 1];
      assert w == [w[0]] + w[1..];
    }
  }

  // ---------------------------------------------------------------- packing

  ghost predicate ZeroWord(s: seq<byte>, i: nat)
    requires 8 * i + 8 <= |s|
  {
    forall k :: 8 * i <= k < 8 * i + 8 ==> s[k] == 0
  }

  /** Number of leading zero words, at most n. */
  ghost function ZeroRun(s: seq<byte>, n: nat): (r: nat)
    requires 8 * n <= |s|
    ensures r <= n
  {
    if n == 0 || !ZeroWord(s, 0) then 0 else 1 + ZeroRun(s[8..], n - 1)
  }

  /** Number of leading words without a zero byte, at most n. */
  ghost function FullRun(s: seq<byte>, n: nat): (r: nat)
    requires 8 * n <= |s|
    ensures r <= n
  {
    if n == 0 || |NonZero(s[..8])| != 8 then 0 else 1 + FullRun(s[8..], n - 1)
  }

  /** Number of words the group at the start of s takes. */
  ghost function GroupWords(s: seq<byte>): (r: nat)
    requires 8 <= |s| && |s| % 8 == 0
    ensures 1 <= r && 8 * r <= |s|
  {
    var nz := |NonZero(s[..8])|;
    if nz == 0 then 1 + ZeroRun(s[8..], Min(|s| / 8, 256) - 1)
    else if nz == 8 then 1 + FullRun(s[8..], Min(|s| / 8 - 1, 256))
    else 1
  }

  /** The bytes of one group.  The count of raw words is one byte, so 256 becomes 0. */
  ghost function GroupBytes(s: seq<byte>): (r: seq<byte>)
    requires 8 <= |s| && |s| % 8 == 0
  {
    var w, n := s[..8], GroupWords(s);
    TagExtremes(w);
    if |NonZero(w)| == 0 then [0, (n - 1) % 256]
    else if |NonZero(w)| == 8 then [0xFF] + w + [(n - 1) % 256] + s[8..8 * n]
    else [TagByte(w)] + NonZero(w)
  }

  lemma Pow2Eight()
    ensures Pow2(8) == 256
  {
    assert Pow2(4) == 16;
  }

  function TagByte(w: seq<byte>): (r: byte)
    requires |w| == 8
  {
    TagExtremes(w);
    Pow2Eight();
    TagOf(w)
  }

  lemma WholeWords(a: nat, n: nat)
    requires a % 8 == 0 && 8 * n <= a
    ensures (a - 8 * n) % 8 == 0
  {
  }

  /** All but the first n words. */
  function Drop(s: seq<byte>, n: nat): (r: seq<byte>)
    requires |s| % 8 == 0 && 8 * n <= |s|
    ensures |r| % 8 == 0 && |r| == |s| - 8 * n && r == s[8 * n..]
  {
    WholeWords(|s|, n);
    s[8 * n..]
  }

  ghost function Pack(s: seq<byte>): (r: seq<byte>)
    requires |s| % 8 == 0
    decreases |s|
  {
    if s == [] then [] else GroupBytes(s) + Pack(Drop(s, GroupWords(s)))
  }

  // ---------------------------------------------------------------- unpacking

  /**
    Everything a packed input yields when `raw` bytes of a raw run are still to come: raw bytes
    as far as they are there, then every group that is there completely.
   */
  ghost function Unpack(raw: nat, p: seq<byte>): (r: seq<byte>)
    decreases |p|, raw
  {
    if raw > 0 then
      if |p| <= raw then p else p[..raw] + Unpack(0, p[raw..])
    else if |p| < 2 then []
    else if p[0] == 0xFF then
      if |p| < 10 then [] else p[1..9] + Unpack(8 * (p[9] as int), p[10..])
    else if p[0] == 0 then
      Zeros(8 * (p[1] as int + 1)) + Unpack(0, p[2..])
    else
      var sz := Ones(p[0], 8);
      if |p| < 1 + sz then [] else Spread(p[0], 8, p[1..1 + sz]) + Unpack(0, p[1 + sz..])
  }

  /** No 257 words in a row without a zero byte. */
  ghost predicate NoLongRun(s: seq<byte>) {
    forall i: nat :: 8 * i + 8 * 257 <= |s| ==> !FullWords(s, i, 257)
  }

  ghost predicate FullWords(s: seq<byte>, i: nat, n: nat)
    requires 8 * i + 8 * n <= |s|
  {
    forall k :: 8 * i <= k < 8 * i + 8 * n ==> s[k] != 0
  }

  /** Every count byte is the number it stands for. */
  ghost predicate CountsFit(s: seq<byte>)
    requires |s| % 8 == 0
    decreases |s|
  {
    s == [] || (GroupWords(s) <= 256 && CountsFit(Drop(s, GroupWords(s))))
  }

  lemma {:induction false} FullRunIs(s: seq<byte>, n: nat)
    requires 8 * n <= |s|
    ensures var r := FullRun(s, n); FullWords(s, 0, r) && (r < n ==> !FullWords(s, r, 1))
    decreases n
  {
    if n > 0 {
      TagExtremes(s[..8]);
      assert forall k :: 0 <= k < 8 ==> s[..8][k] == s[k];
      if |NonZero(s[..8])| == 8 {
        FullRunIs(s[8..], n - 1);
        var r := FullRun(s, n);
        forall k | 0 <= k < 8 * r ensures s[k] != 0 {
          if k >= 8 { assert s[8..][k - 8] != 0; }
        }
        if r < n {
          var k :| 8 * (r - 1) <= k < 8 * (r - 1) + 8 && s[8..][k] == 0;
          assert s[k + 8] == 0;
        }
      }
    }
  }

  lemma {:induction false} ZeroRunIs(s: seq<byte>, n: nat)
    requires 8 * n <= |s|
    ensures var r := ZeroRun(s, n); s[..8 * r] == Zeros(8 * r) && (r < n ==> !ZeroWord(s, r))
    decreases n
  {
    if n > 0 && ZeroWord(s, 0) {
      ZeroRunIs(s[8..], n - 1);
      var r := ZeroRun(s, n);
      assert s[..8 * r] == s[..8] + s[8..][..8 * (r - 1)];
      if r < n {
        var k :| 8 * (r - 1) <= k < 8 * (r - 1) + 8 && s[8..][k] != 0;
        assert s[k + 8] != 0;
      }
    }
  }

  /** What the group at the start of s looks like, by its first word. */
  lemma GroupIs(s: seq<byte>)
    requires 8 <= |s| && |s| % 8 == 0
    ensures var n, w := GroupWords(s), s[..8];
      && (|NonZero(w)| == 0 ==> n <= 256 && s[..8 * n] == Zeros(8 * n) && (n < 256 && 8 * n < |s| ==> !ZeroWord(s, n)))
      && (|NonZero(w)| == 8 ==> n <= 257 && FullWords(s, 0, n) && (n < 257 && 8 * n < |s| ==> !FullWords(s, n, 1)))
      && (0 < |NonZero(w)| < 8 ==> n == 1)
      && (|NonZero(w)| != 8 ==> !FullWords(s, 0, 1))
  {
    var w, n := s[..8], GroupWords(s);
    TagExtremes(w);
    assert forall k :: 0 <= k < 8 ==> w[k] == s[k];
    if |NonZero(w)| == 0 {
      ZeroRunIs(s[8..], Min(|s| / 8, 256) - 1);
      assert s[..8 * n] == w + s[8..][..8 * (n - 1)];
      if n < 256 && 8 * n < |s| {
        assert n - 1 < Min(|s| / 8, 256) - 1;
        var k :| 8 * (n - 1) <= k < 8 * (n - 1) + 8 && s[8..][k] != 0;
        assert s[k + 8] != 0;
      }
    } else if |NonZero(w)| == 8 {
      var m := Min(|s| / 8 - 1, 256);
      FullRunIs(s[8..], m);
      forall k | 0 <= k < 8 * n ensures s[k] != 0 {
        if k >= 8 { assert s[8..][k - 8] != 0; }
      }
      if n < 257 && 8 * n < |s| {
        assert n - 1 < m;
        var k :| 8 * (n - 1) <= k < 8 * (n - 1) + 8 && s[8..][k] == 0;
        assert s[k + 8] == 0;
      }
    }
  }

  /** A full run shows in the rest of the words, and the other way round. */
  lemma FullWordsShift(s: seq<byte>, n: nat, i: nat, m: nat)
    requires 8 * n <= |s| && 8 * i + 8 * m <= |s| - 8 * n
    ensures FullWords(s[8 * n..], i, m) <==> FullWords(s, n + i, m)
  {
    var t := s[8 * n..];
    if !FullWords(t, i, m) {
      var k :| 8 * i <= k < 8 * i + 8 * m && t[k] == 0;
      assert s[8 * n + k] == 0;
    }
    if !FullWords(s, n + i, m) {
      var k :| 8 * (n + i) <= k < 8 * (n + i) + 8 * m && s[k] == 0;
      assert t[k - 8 * n] == 0;
    }
  }

  /** A long full run cannot begin inside a group of at most 256 words. */
  lemma NoRunFromGroup(s: seq<byte>, i: nat)
    requires 8 <= |s| && |s| % 8 == 0 && i < GroupWords(s) <= 256
    requires 8 * i + 8 * 257 <= |s|
    ensures !FullWords(s, i, 257)
  {
    var n := GroupWords(s);
    GroupIs(s);
    if |NonZero(s[..8])| == 8 {
      var k :| 8 * n <= k < 8 * n + 8 && s[k] == 0;
      assert 8 * i <= k < 8 * i + 8 * 257;
    } else if |NonZero(s[..8])| == 0 {
      assert s[..8 * n][8 * i] == 0;
    } else {
      var k :| 0 <= k < 8 && s[k] == 0;
    }
  }

  /** The counts are right exactly when no 257 words in a row are free of zero bytes. */
  lemma {:induction false} CountsFitIff(s: seq<byte>)
    requires |s| % 8 == 0
    ensures CountsFit(s) <==> NoLongRun(s)
    decreases |s|
  {
    if s != [] {
      hide GroupWords, FullWords;
      var n := GroupWords(s);
      var t := Drop(s, n);
      CountsFitIff(t);
      if NoLongRun(s) {
        forall i: nat | 8 * i + 8 * 257 <= |t| ensures !FullWords(t, i, 257) {
          FullWordsShift(s, n, i, 257);
        }
        GroupFits(s);
      } else if n <= 256 {
        var i: nat :| 8 * i + 8 * 257 <= |s| && FullWords(s, i, 257);
        if i >= n {
          FullWordsShift(s, n, i - n, 257);
        } else {
          NoRunFromGroup(s, i);
        }
      }
    }
  }

  lemma GroupFits(s: seq<byte>)
    requires 8 <= |s| && |s| % 8 == 0
    ensures GroupWords(s) <= 257 && (GroupWords(s) == 257 ==> FullWords(s, 0, 257))
  {
    GroupIs(s);
  }

  // ---------------------------------------------------------------- round trip

  lemma RawRun(raw: nat, p: seq<byte>)
    requires raw <= |p|
    ensures Unpack(raw, p) == p[..raw] + Unpack(0, p[raw..])
  {
    if raw == 0 {
      assert p[..0] == [] && p[0..] == p;
    } else if |p| == raw {
      assert p[raw..] == [] && p[..raw] == p;
    }
  }

  /** Part of a raw run. */
  lemma RawPart(raw: nat, p: seq<byte>, n: nat)
    requires n <= raw && n <= |p|
    ensures Unpack(raw, p) == p[..n] + Unpack(raw - n, p[n..])
  {
    if raw <= |p| {
      RawRun(raw, p);
      RawRun(raw - n, p[n..]);
      assert p[n..][raw - n..] == p[raw..];
      assert p[..raw] == p[..n] + p[n..][..raw - n];
      Assoc(p[..n], p[n..][..raw - n], Unpack(0, p[raw..]));
    } else {
      assert p == p[..n] + p[n..];
    }
  }

  lemma UnpackZeros(c: byte, p: seq<byte>)
    ensures Unpack(0, [0, c] + p) == Zeros(8 * (c as int + 1)) + Unpack(0, p)
  {
    var q := [0, c] + p;
    assert q[2..] == p;
  }

  lemma UnpackFull(w: seq<byte>, c: byte, run: seq<byte>, p: seq<byte>)
    requires |w| == 8 && |run| == 8 * (c as int)
    ensures Unpack(0, [0xFF] + w + [c] + run + p) == w + run + Unpack(0, p)
  {
    var q := [0xFF] + w + [c] + run + p;
    assert q[1..9] == w && q[9] == c && q[10..] == run + p;
    RawRun(8 * (c as int), run + p);
    assert (run + p)[..|run|] == run && (run + p)[|run|..] == p;
    assert w + (run + Unpack(0, p)) == w + run + Unpack(0, p);
  }

  lemma UnpackTagged(w: seq<byte>, p: seq<byte>)
    requires |w| == 8 && 0 < |NonZero(w)| < 8
    ensures Unpack(0, [TagByte(w)] + NonZero(w) + p) == w + Unpack(0, p)
  {
    var nz := NonZero(w);
    var q := [TagByte(w)] + nz + p;
    TagExtremes(w);
    Pow2Eight();
    SpreadTag(w, []);
    assert nz + [] == nz;
    assert q[1..1 + |nz|] == nz && q[1 + |nz|..] == p;
  }

  lemma GroupBytesIs(s: seq<byte>)
    requires 8 <= |s| && |s| % 8 == 0
    ensures var n, w := GroupWords(s), s[..8];
      && (|NonZero(w)| == 0 ==> GroupBytes(s) == [0, (n - 1) % 256])
      && (|NonZero(w)| == 8 ==> GroupBytes(s) == [0xFF] + w + [(n - 1) % 256] + s[8..8 * n])
      && (0 < |NonZero(w)| < 8 ==> n == 1 && GroupBytes(s) == [TagByte(w)] + NonZero(w))
  {
    TagExtremes(s[..8]);
  }

  /** One group, packed and unpacked. */
  lemma UnpackGroup(s: seq<byte>, p: seq<byte>)
    requires 8 <= |s| && |s| % 8 == 0 && GroupWords(s) <= 256
    ensures Unpack(0, GroupBytes(s) + p) == s[..8 * GroupWords(s)] + Unpack(0, p)
  {
    hide Unpack, GroupBytes, GroupWords, TagByte, FullWords;
    var n, w := GroupWords(s), s[..8];
    GroupIs(s);
    GroupBytesIs(s);
    TagExtremes(w);
    if |NonZero(w)| == 0 {
      UnpackZeros(n - 1, p);
    } else if |NonZero(w)| == 8 {
      UnpackFull(w, n - 1, s[8..8 * n], p);
      assert w + s[8..8 * n] == s[..8 * n];
    } else {
      UnpackTagged(w, p);
    }
  }

  /** Unpacking a packed message gives the message back, whatever follows it. */
  lemma {:induction false} PackRoundTrip(s: seq<byte>, p: seq<byte>)
    requires |s| % 8 == 0 && NoLongRun(s)
    ensures Unpack(0, Pack(s) + p) == s + Unpack(0, p)
    decreases |s|
  {
    CountsFitIff(s);
    RoundTripByGroups(s, p);
  }

  lemma {:induction false} RoundTripByGroups(s: seq<byte>, p: seq<byte>)
    requires |s| % 8 == 0 && CountsFit(s)
    ensures Unpack(0, Pack(s) + p) == s + Unpack(0, p)
    decreases |s|
  {
    hide Unpack, GroupBytes, GroupWords;
    if s == [] {
      assert Pack(s) + p == p;
    } else {
      var n := GroupWords(s);
      var t := Drop(s, n);
      RoundTripByGroups(t, p);
      UnpackGroup(s, Pack(t) + p);
      Assoc(GroupBytes(s), Pack(t), p);
      Assoc(s[..8 * n], t, Unpack(0, p));
      assert s == s[..8 * n] + t;
    }
  }

  // ---------------------------------------------------------------- where it fails

  /** A tag that is not all ones leaves a zero byte in the word. */
  lemma {:induction false} SpreadHasZero(h: nat, n: nat, b: seq<byte>)
    requires Ones(h, n) <= |b| && h < Pow2(n) - 1
    ensures exists k :: 0 <= k < |Spread(h, n, b)| && Spread(h, n, b)[k] == 0
    decreases n
  {
    var r := Spread(h, n, b);
    if h % 2 == 1 {
      SpreadHasZero(h / 2, n - 1, b[1..]);
      var k :| 0 <= k < |Spread(h / 2, n - 1, b[1..])| && Spread(h / 2, n - 1, b[1..])[k] == 0;
      assert r[k + 1] == 0;
    } else {
      assert r[0] == 0;
    }
  }

  /** Reading a byte other than 0 and 0xFF as a tag yields a word with a zero byte. */
  lemma TagLeavesZero(p: seq<byte>) returns (k: nat)
    requires |p| >= 9 && p[0] != 0 && p[0] != 0xFF
    ensures k < 8 && k < |Unpack(0, p)| && Unpack(0, p)[k] == 0
  {
    Pow2Eight();
    OnesBound(p[0], 8);
    var b := p[1..1 + Ones(p[0], 8)];
    SpreadLength(p[0], 8, b);
    SpreadHasZero(p[0], 8, b);
    var w := Spread(p[0], 8, b);
    assert Unpack(0, p) == w + Unpack(0, p[1 + Ones(p[0], 8)..]);
    k :| 0 <= k < |w| && w[k] == 0;
  }

  lemma WrappedBytes(s: seq<byte>, n: nat)
    requires 8 <= |s| && |s| % 8 == 0 && GroupWords(s) == n && n == 257 && |NonZero(s[..8])| == 8
    ensures Pack(s) == [0xFF] + s[..8] + [0] + (s[8..8 * n] + Pack(Drop(s, n)))
  {
    hide Pack, NonZero, GroupBytes, GroupWords;
    GroupBytesIs(s);
    PackUnfold(s);
    Assoc([0xFF] + s[..8] + [0], s[8..8 * n], Pack(Drop(s, n)));
  }

  lemma LongGroupIsFull(s: seq<byte>)
    requires 8 <= |s| && |s| % 8 == 0 && GroupWords(s) == 257
    ensures |NonZero(s[..8])| == 8 && FullWords(s, 0, 257)
  {
    TagExtremes(s[..8]);
    GroupIs(s);
  }

  lemma PackUnfold(s: seq<byte>)
    requires 8 <= |s| && |s| % 8 == 0
    ensures Pack(s) == GroupBytes(s) + Pack(Drop(s, GroupWords(s)))
  {
  }

  const ALL_ONES: seq<byte> := [0xFF, 0xFF, 0xFF, 0xFF, 0xFF, 0xFF, 0xFF, 0xFF]

  /** The first group whose count does not fit goes on with a word of ones only. */
  ghost predicate OnesLeftBehind(s: seq<byte>)
    requires |s| % 8 == 0
    decreases |s|
  {
    && s != []
    && if GroupWords(s) == 257 then s[8..16] == ALL_ONES else OnesLeftBehind(Drop(s, GroupWords(s)))
  }

  /** Reading 0xFF as a tag takes the eight bytes behind it for the word. */
  lemma TagShifts(p: seq<byte>)
    requires |p| >= 10 && p[0] == 0xFF
    ensures |Unpack(0, p)| >= 8 && Unpack(0, p)[..8] == p[1..9]
  {
  }

  lemma ShiftedAllOnes(p: seq<byte>)
    requires |p| >= 9 && p[0] == 0xFF && p[1..9] == p[..8]
    ensures p[..8] == ALL_ONES
  {
    assert forall j, k {:trigger p[j], p[k]} :: 0 <= j < 8 && k == j + 1 ==> p[k] == p[1..9][j] == p[..8][j] == p[j];
    assert p[1] == p[0] && p[2] == p[1] && p[3] == p[2] && p[4] == p[3];
    assert p[5] == p[4] && p[6] == p[5] && p[7] == p[6];
  }

  /** Behind a group whose count wrapped to 0, its raw words are read as tags. */
  lemma ReadAsTags(s: seq<byte>) returns (rest: seq<byte>)
    requires 8 <= |s| && |s| % 8 == 0 && GroupWords(s) == 257
    ensures |rest| >= 2048 && rest[..2048] == s[8..2056] && Unpack(0, Pack(s)) == s[..8] + Unpack(0, rest)
    ensures forall k :: 0 <= k < 8 * 257 ==> s[k] != 0
  {
    hide GroupWords, Pack, Unpack;
    var n := GroupWords(s);
    LongGroupIsFull(s);
    WrappedBytes(s, n);
    var w := s[..8];
    rest := s[8..8 * n] + Pack(Drop(s, n));
    UnpackFull(w, 0, [], rest);
    assert [0xFF] + w + [0] + [] + rest == [0xFF] + w + [0] + rest && w + [] == w;
  }

  lemma WrappedGroup(s: seq<byte>)
    requires 8 <= |s| && |s| % 8 == 0 && GroupWords(s) == 257 && s[8..16] != ALL_ONES
    ensures Unpack(0, Pack(s)) != s
  {
    hide GroupWords, Pack, Unpack;
    var rest := ReadAsTags(s);
    FirstBytes(rest, s);
    if Unpack(0, Pack(s)) == s {
      assert Unpack(0, rest) == (s[..8] + Unpack(0, rest))[8..] == s[8..];
      TagsDiffer(s[8..], rest);
    }
  }

  /** Full words that are read as tags come out different, unless all ones. */
  lemma TagsDiffer(b: seq<byte>, rest: seq<byte>)
    requires |b| >= 8 && |rest| >= 10 && rest[..8] == b[..8] && b[..8] != ALL_ONES
    requires forall k :: 0 <= k < 8 ==> b[k] != 0
    ensures Unpack(0, rest) != b
  {
    hide Unpack;
    assert rest[0] == rest[..8][0] == b[..8][0] == b[0];
    if b[0] != 0xFF {
      var k := TagLeavesZero(rest);
    } else if Unpack(0, rest) == b {
      TagShifts(rest);
      ShiftedAllOnes(rest);
    }
  }

  lemma FirstBytes(rest: seq<byte>, s: seq<byte>)
    requires |s| >= 2056 && |rest| >= 2048 && rest[..2048] == s[8..2056]
    ensures rest[..8] == s[8..16] == s[8..][..8]
  {
    assert rest[..8] == rest[..2048][..8];
  }

  lemma {:induction false} OnesBound(h: nat, n: nat)
    ensures Ones(h, n) <= n
  {
    if n > 0 { OnesBound(h / 2, n - 1); }
  }

  /**
    The long runs are exactly what breaks the round trip, unless the first raw word that the
    wrapped count leaves behind is all ones.
   */
  lemma {:induction false} RoundTripIff(s: seq<byte>)
    requires |s| % 8 == 0 && !OnesLeftBehind(s)
    ensures Unpack(0, Pack(s)) == s <==> NoLongRun(s)
    decreases |s|
  {
    if NoLongRun(s) {
      PackRoundTrip(s, []);
      assert Pack(s) + [] == Pack(s) && s + Unpack(0, []) == s;
    } else {
      CountsFitIff(s);
      CountDoesNotFit(s);
    }
  }

  lemma {:induction false} CountDoesNotFit(s: seq<byte>)
    requires |s| % 8 == 0 && !CountsFit(s) && !OnesLeftBehind(s)
    ensures Unpack(0, Pack(s)) != s
    decreases |s|
  {
    hide Unpack, GroupBytes, FullWords, GroupWords;
    var n := GroupWords(s);
    GroupFits(s);
    if GroupWords(s) == 257 {
      WrappedGroup(s);
    } else {
      var t := Drop(s, n);
      CountDoesNotFit(t);
      UnpackGroup(s, Pack(t));
      assert (s[..8 * n] + Unpack(0, Pack(t)))[8 * n..] == Unpack(0, Pack(t));
    }
  }

  lemma RunIsOneGroup(s: seq<byte>)
    requires |s| == 8 * 257 && FullWords(s, 0, 257)
    ensures GroupWords(s) == 257
  {
    TagExtremes(s[..8]);
    GroupIs(s);
  }

  /** The shortest message that does not survive: 257 words of ones. */
  lemma LongRunBreaks()
    ensures var s := seq(8 * 257, _ => 1 as byte); |s| % 8 == 0 && Unpack(0, Pack(s)) != s
  {
    var s: seq<byte> := seq(8 * 257, _ => 1 as byte);
    assert FullWords(s, 0, 257);
    RunIsOneGroup(s);
    assert s[8] == 1 && ALL_ONES[0] == 0xFF;
    RoundTripIff(s);
  }
}
