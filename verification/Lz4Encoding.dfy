/** The bytes an encoder writes for a list of sequences, and what they decode to. */
module Lz4Encoding {
  import opened Bytes
  import opened Lz4Format

  /** Literals, then a match: `length` bytes from `offset` back. */
  datatype Sequence = Sequence(literals: seq<byte>, offset: nat, length: nat)

  ghost predicate Encodable(q: Sequence) {
    1 <= q.offset <= MAX_DISTANCE && q.length >= MINMATCH
  }

  function Nibble(v: nat): (r: nat)
    ensures r < 16
  {
    if v < 15 then v else 15
  }

  function Run(v: nat): (r: seq<byte>) {
    if v < 255 then [v] else [255] + Run(v - 255)
  }

  function LengthBytes(v: nat): (r: seq<byte>) {
    if v < 15 then [] else Run(v - 15)
  }

  /** Token and literal length. */
  function HeaderBytes(ll: nat, nibble: nat): (r: seq<byte>)
    requires nibble < 16
    ensures |r| >= 1
  {
    [Nibble(ll) * 16 + nibble] + LengthBytes(ll)
  }

  /** Token, literal length, literals: the part of a sequence before its match. */
  function LiteralBytes(literals: seq<byte>, nibble: nat): (r: seq<byte>)
    requires nibble < 16
    ensures |r| >= 1
  {
    HeaderBytes(|literals|, nibble) + literals
  }

  function MatchBytes(offset: nat, length: nat): (r: seq<byte>)
    requires offset <= MAX_DISTANCE && length >= MINMATCH
  {
    [offset % 256, offset / 256] + LengthBytes(length - MINMATCH)
  }

  ghost function EncodeSequence(q: Sequence): (r: seq<byte>)
    requires Encodable(q)
    ensures |r| >= 1
  {
    LiteralBytes(q.literals, Nibble(q.length - MINMATCH)) + MatchBytes(q.offset, q.length)
  }

  /** A list an encoder may emit for n bytes: offsets stay inside, the end rules hold. */
  ghost predicate Valid(qs: seq<Sequence>, n: nat)
    decreases |qs|, 0
  {
    qs == [] ||
    var q, init := qs[|qs| - 1], qs[..|qs| - 1];
    && Valid(init, n) && Encodable(q)
    && q.offset <= |Expand(init, n)| + |q.literals|
    && |Expand(init, n)| + |q.literals| + MFLIMIT <= n
    && |Expand(init, n)| + |q.literals| + q.length + LASTLITERALS <= n
  }

  /** The bytes the list stands for. */
  ghost function Expand(qs: seq<Sequence>, n: nat): (r: seq<byte>)
    requires Valid(qs, n)
    decreases |qs|
  {
    if qs == [] then []
    else
      var q, init := qs[|qs| - 1], qs[..|qs| - 1];
      CopyMatch(Expand(init, n) + q.literals, q.offset, q.length)
  }

  ghost function EncodeAll(qs: seq<Sequence>, n: nat): (r: seq<byte>)
    requires Valid(qs, n)
    decreases |qs|
  {
    if qs == [] then []
    else EncodeAll(qs[..|qs| - 1], n) + EncodeSequence(qs[|qs| - 1])
  }

  lemma {:induction false} ReadRunOfRun(p: seq<byte>, v: nat, r: seq<byte>)
    ensures ReadRun(p + Run(v) + r, |p|) == Some((v, |p| + |Run(v)|))
    decreases v
  {
    var s := p + Run(v) + r;
    if v < 255 {
      assert s[|p|] == v;
    } else {
      assert s[|p|] == 255;
      ReadRunOfRun(p + [255], v - 255, r);
      assert p + [255] + Run(v - 255) + r == s;
    }
  }

  lemma ReadLengthBytes(p: seq<byte>, v: nat, r: seq<byte>)
    ensures ReadLength(p + LengthBytes(v) + r, |p|, Nibble(v)) == Some((v, |p| + |LengthBytes(v)|))
  {
    if v >= 15 { ReadRunOfRun(p, v - 15, r); }
  }

  /** The reader sees the literals of an encoded sequence where the encoder put them. */
  lemma ReadLiteralBytes(p: seq<byte>, l: seq<byte>, nibble: nat, r: seq<byte>)
    requires nibble < 16
    ensures var s := p + LiteralBytes(l, nibble) + r;
      var j := |p| + |LiteralBytes(l, nibble)|;
      && j <= |s| && s[..j] == p + LiteralBytes(l, nibble) && s[j..] == r
      && ReadStep(s, |p|) == ReadTail(s, nibble, j - |l|, |l|) && s[j - |l|..j] == l && s[|p|] % 16 == nibble
  {
    hide ReadStep, ReadTail, ReadLength, Nibble, LengthBytes;
    var s := p + LiteralBytes(l, nibble) + r;
    ReadHeader(p, l, nibble, l + r);
    assert p + HeaderBytes(|l|, nibble) + (l + r) == s;
    var j := |p| + |LiteralBytes(l, nibble)|;
    assert s[..j] == p + LiteralBytes(l, nibble) && s[j..] == r;
    assert s[j - |l|..j] == l;
  }

  lemma ReadHeader(p: seq<byte>, l: seq<byte>, nibble: nat, rest: seq<byte>)
    requires nibble < 16
    ensures var s := p + HeaderBytes(|l|, nibble) + rest;
      && s[|p|] % 16 == nibble
      && ReadStep(s, |p|) == ReadTail(s, nibble, |p| + |HeaderBytes(|l|, nibble)|, |l|)
  {
    hide ReadTail, LengthBytes, ReadLength;
    var token: byte := Nibble(|l|) * 16 + nibble;
    var s := p + HeaderBytes(|l|, nibble) + rest;
    ReadLengthBytes(p + [token], |l|, rest);
    assert p + [token] + LengthBytes(|l|) + rest == s;
    assert s[|p|] == token;
    assert token / 16 == Nibble(|l|) && token % 16 == nibble;
  }

  lemma ReadMatchBytes(s: seq<byte>, j: nat, offset: nat, length: nat, r: seq<byte>)
    requires offset <= MAX_DISTANCE && length >= MINMATCH
    requires j <= |s| && s[j..] == MatchBytes(offset, length) + r
    ensures j + 2 <= |s| && LE16(s[j], s[j + 1]) == offset
    ensures ReadLength(s, j + 2, Nibble(length - MINMATCH)) ==
      Some((length - MINMATCH, j + |MatchBytes(offset, length)|))
  {
    hide ReadLength, LengthBytes, Nibble;
    var off: seq<byte> := [offset % 256, offset / 256];
    assert s[j..][0] == off[0] && s[j..][1] == off[1];
    ReadLengthBytes(s[..j] + off, length - MINMATCH, r);
    assert s == s[..j] + s[j..];
    assert s[..j] + off + LengthBytes(length - MINMATCH) + r == s;
  }

  lemma ReadSequence(p: seq<byte>, q: Sequence, r: seq<byte>)
    requires Encodable(q)
    ensures ReadStep(p + EncodeSequence(q) + r, |p|)
            == Match(q.literals, q.offset, q.length, |p| + |EncodeSequence(q)|)
  {
    hide LiteralBytes, MatchBytes, ReadStep, ReadLength, Nibble;
    var nib := Nibble(q.length - MINMATCH);
    var head := LiteralBytes(q.literals, nib);
    var r' := MatchBytes(q.offset, q.length) + r;
    ReadLiteralBytes(p, q.literals, nib, r');
    assert p + head + r' == p + EncodeSequence(q) + r;
    ReadMatchBytes(p + head + r', |p| + |head|, q.offset, q.length, r);
  }

  lemma ReadLast(p: seq<byte>, l: seq<byte>)
    ensures ReadStep(p + LiteralBytes(l, 0), |p|) == Final(l)
    ensures (p + LiteralBytes(l, 0))[|p|] % 16 == 0
  {
    ReadLiteralBytes(p, l, 0, []);
    assert p + LiteralBytes(l, 0) + [] == p + LiteralBytes(l, 0);
  }

  lemma DecodeLast(p: seq<byte>, l: seq<byte>, out: seq<byte>, n: nat)
    requires |out| + |l| == n
    ensures var s := p + LiteralBytes(l, 0);
      Decode(s, |p|, out) == Some(out + l) && Strict(s, |p|, |out|, n)
  {
    ReadLast(p, l);
  }

  lemma {:induction false} ExpandLength(qs: seq<Sequence>, n: nat)
    requires Valid(qs, n)
    ensures |Expand(qs, n)| <= n
    ensures qs != [] ==> var q, init := qs[|qs| - 1], qs[..|qs| - 1];
      |Expand(qs, n)| == |Expand(init, n)| + |q.literals| + q.length
  {
    if qs != [] {
      var q, init := qs[|qs| - 1], qs[..|qs| - 1];
      CopyMatchLength(Expand(init, n) + q.literals, q.offset, q.length);
    }
  }

  lemma {:induction false} ValidPrefix(qs: seq<Sequence>, n: nat, k: nat)
    requires Valid(qs, n) && k <= |qs|
    ensures Valid(qs[..k], n)
    ensures EncodeAll(qs[..k], n) <= EncodeAll(qs, n)
    decreases |qs|
  {
    if k == |qs| {
      assert qs[..k] == qs;
    } else {
      var init := qs[..|qs| - 1];
      ValidPrefix(init, n, k);
      assert init[..k] == qs[..k];
    }
  }

  /**
    From sequence k on, the encoded list decodes to the rest of what it stands for, and keeps
    the end-of-block rules.
   */
  lemma {:induction false} DecodeFrom(qs: seq<Sequence>, n: nat, last: seq<byte>, k: nat)
    requires Valid(qs, n) && k <= |qs| && |Expand(qs, n)| + |last| == n
    ensures Valid(qs[..k], n)
    ensures var s := EncodeAll(qs, n) + LiteralBytes(last, 0);
      var i := |EncodeAll(qs[..k], n)|;
      && Decode(s, i, Expand(qs[..k], n)) == Some(Expand(qs, n) + last)
      && Strict(s, i, |Expand(qs[..k], n)|, n)
    decreases |qs| - k
  {
    hide Decode, Strict, LiteralBytes, Expand, EncodeAll, ReadStep;
    var s := EncodeAll(qs, n) + LiteralBytes(last, 0);
    ValidPrefix(qs, n, k);
    if k == |qs| {
      assert qs[..k] == qs;
      DecodeLast(EncodeAll(qs, n), last, Expand(qs, n), n);
    } else {
      DecodeFrom(qs, n, last, k + 1);
      ValidPrefix(qs, n, k + 1);
      DecodeOne(qs[..k + 1], n, s, Expand(qs, n) + last);
      assert qs[..k + 1][..k] == qs[..k];
    }
  }

  /** If the block decodes from the end of a list, it decodes from before its last sequence. */
  lemma DecodeOne(qs: seq<Sequence>, n: nat, s: seq<byte>, all: seq<byte>)
    requires Valid(qs, n) && qs != [] && EncodeAll(qs, n) <= s
    requires Decode(s, |EncodeAll(qs, n)|, Expand(qs, n)) == Some(all)
    requires Strict(s, |EncodeAll(qs, n)|, |Expand(qs, n)|, n)
    ensures var init := qs[..|qs| - 1];
      && Decode(s, |EncodeAll(init, n)|, Expand(init, n)) == Some(all)
      && Strict(s, |EncodeAll(init, n)|, |Expand(init, n)|, n)
  {
    hide ReadStep, CopyMatch, EncodeSequence;
    var q, init := qs[|qs| - 1], qs[..|qs| - 1];
    var r := s[|EncodeAll(qs, n)|..];
    assert s == EncodeAll(init, n) + EncodeSequence(q) + r;
    ReadSequence(EncodeAll(init, n), q, r);
    ExpandLength(qs, n);
  }

  /** A valid list with the remaining bytes as literals is a conforming block for both. */
  lemma EncodedBlockConforms(qs: seq<Sequence>, n: nat, last: seq<byte>)
    requires Valid(qs, n) && |Expand(qs, n)| + |last| == n
    ensures var s := EncodeAll(qs, n) + LiteralBytes(last, 0);
      Decode(s, 0, []) == Some(Expand(qs, n) + last) && Conforming(s)
  {
    hide Strict, Decode, LiteralBytes;
    DecodeFrom(qs, n, last, 0);
    assert qs[..0] == [];
  }

  lemma {:induction false} RunLength(v: nat)
    ensures |Run(v)| == v / 255 + 1
  {
    if v >= 255 { RunLength(v - 255); }
  }

  lemma LiteralBytesLength(l: seq<byte>, nibble: nat)
    requires nibble < 16
    ensures |l| + 1 <= |LiteralBytes(l, nibble)| <= |l| + 2 + |l| / 255
    ensures 255 * |LiteralBytes(l, nibble)| <= 256 * |l| + 510
    ensures |l| < 15 ==> |LiteralBytes(l, nibble)| == |l| + 1
  {
    if |l| >= 15 { RunLength(|l| - 15); }
  }

  /** One sequence costs at most one byte in 255 more than it covers. */
  lemma SequenceCost(q: Sequence)
    requires Encodable(q)
    ensures 255 * |EncodeSequence(q)| <= 256 * (|q.literals| + q.length)
  {
    LiteralBytesLength(q.literals, Nibble(q.length - MINMATCH));
    if q.length - MINMATCH >= 15 { RunLength(q.length - MINMATCH - 15); }
    if |q.literals| >= 15 { RunLength(|q.literals| - 15); }
  }

  /** The amortised form of the worst-case bound. */
  lemma {:induction false} EncodedCost(qs: seq<Sequence>, n: nat)
    requires Valid(qs, n)
    ensures 255 * |EncodeAll(qs, n)| <= 256 * |Expand(qs, n)|
    decreases |qs|
  {
    if qs != [] {
      EncodedCost(qs[..|qs| - 1], n);
      SequenceCost(qs[|qs| - 1]);
      ExpandLength(qs, n);
    }
  }
}
