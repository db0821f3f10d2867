/** The optimal parser of lib/lz4/lz4hc.c (levels 10 to 12), without an output limit. */
module Lz4Optimal {
  import opened Bytes
  import opened Lz4Format
  import opened Lz4Encoding
  import opened Lz4Compress

  const LZ4_OPT_NUM := 4096
  const TRAILING_LITERALS := 3

  // ---------------------------------------------------------------- one sequence

  /** The run of LZ4HC_encodeSequence: two bytes at a time, one more if need be, and the rest. */
  method WriteRunByTwo(dst: array<byte>, op0: nat, v: nat) returns (op: nat)
    requires op0 + v / 255 + 1 <= dst.Length
    modifies dst
    ensures op == op0 + v / 255 + 1 && dst[..op] == old(dst[..op0]) + Run(v)
  {
    op := op0;
    var length := v;
    while length >= 510
      invariant op0 <= op && op + length / 255 + 1 == op0 + v / 255 + 1 && v - length == 255 * (op - op0)
      invariant dst[..op0] == old(dst[..op0])
      invariant forall k :: op0 <= k < op ==> dst[k] == 255
    {
      dst[op] := 255;
      dst[op + 1] := 255;
      op, length := op + 2, length - 510;
    }
    if length >= 255 {
      length := length - 255;
      dst[op] := 255;
      op := op + 1;
    }
    dst[op] := length;
    op := op + 1;
    RunShape(v, dst[op0..op]);
    assert dst[..op] == dst[..op0] + dst[op0..op];
  }

  /** Offset, match length and the match half of the token. */
  method WriteMatch(dst: array<byte>, token: nat, op0: nat, offset: nat, length0: nat) returns (op: nat)
    requires offset <= MAX_DISTANCE
    requires token < op0 && op0 + 3 + length0 / 255 <= dst.Length && dst[token] % 16 == 0
    modifies dst
    ensures op <= dst.Length && dst[..op] ==
      old(dst[..op0])[token := old(dst[token]) + Nibble(length0)] + MatchBytes(offset, MINMATCH + length0)
  {
    ghost var d := dst[..op0];
    dst[op0], dst[op0 + 1] := offset % 256, offset / 256 % 256;
    op := op0 + 2;
    var length := length0;
    if length >= ML_MASK {
      dst[token] := dst[token] + ML_MASK;
      assert dst[..op] == d[token := d[token] + Nibble(length0)] + [offset % 256, offset / 256];
      length := length - ML_MASK;
      op := WriteRunByTwo(dst, op, length);
    } else {
      dst[token] := dst[token] + length;
      assert dst[..op] == d[token := d[token] + Nibble(length0)] + [offset % 256, offset / 256];
    }
  }

  /** A match of `length` bytes at p, `off` back, that the format allows for the input s. */
  ghost predicate Usable(s: seq<byte>, p: nat, length: nat, off: nat) {
    && MINMATCH <= length && 1 <= off <= p && off <= MAX_DISTANCE
    && p + MFLIMIT <= |s| && p + length + LASTLITERALS <= |s|
    && Common(s, p, p - off, length)
  }

  /** LZ4HC_encodeSequence: literals from the anchor to ip, and the match there. */
  method EncodeSequence(src: array<byte>, dst: array<byte>, ip0: nat, op0: nat, anchor: nat, matchLength: nat, off: nat,
                        ghost qs0: seq<Sequence>)
    returns (ip: nat, op: nat, ghost qs: seq<Sequence>)
    requires src != dst && src.Length <= LZ4_MAX_INPUT_SIZE && dst.Length >= CompressBound(src.Length)
    requires op0 <= dst.Length && anchor <= ip0 && Usable(src[..], ip0, matchLength, off)
    requires Emitted(qs0, src[..], anchor, dst[..op0])
    modifies dst
    ensures ip == ip0 + matchLength && op <= dst.Length && Emitted(qs, src[..], ip, dst[..op])
  {
    hide LiteralBytes, MatchBytes, Common, Emitted, Nibble;
    ghost var s, d := src[..], dst[..op0];
    RoomForLiterals(qs0, s, anchor, d, ip0);
    op := EncodeLiterals(src, anchor, ip0, dst, op0);
    ghost var d1 := dst[..op];
    assert s[anchor..ip0] == src[anchor..ip0];
    RoomForMatch(qs0, s, anchor, d, ip0, op);
    TokenNibble(d, s[anchor..ip0], 0);
    assert dst[op0] == d1[op0];
    op := WriteMatch(dst, op0, op, off, matchLength - MINMATCH);
    ip := ip0 + matchLength;
    SequenceDone(qs0, s, anchor, d, ip0, off, ip, d1, dst[..op]);
    qs := qs0 + [Sequence(s[anchor..ip0], off, matchLength)];
  }

  // ---------------------------------------------------------------- matches and prices

  /**
    LZ4HC_FindLongerMatch, whatever its hash chains hold: no match, or one longer than minLen that
    is in the input and ends in time.
   */
  method FindLongerMatch(src: array<byte>, p: nat, minLen: nat) returns (len: nat, off: nat)
    requires p + MFLIMIT <= src.Length
    ensures len == 0 || (minLen < len && Usable(src[..], p, len, off))
  {
    len, off := *, *;
    if MINMATCH <= len && minLen < len && 1 <= off <= p && off <= MAX_DISTANCE && p + len + LASTLITERALS <= src.Length {
      if src[p..p + len] == src[p - off..p - off + len] {
        assert src[..][p..p + len] == src[p..p + len] && src[..][p - off..p - off + len] == src[p - off..p - off + len];
        return;
      }
    }
    len, off := 0, 0;
  }

  function LiteralsPrice(litlen: nat): (price: nat) {
    if litlen >= RUN_MASK then litlen + 1 + (litlen - RUN_MASK) / 255 else litlen
  }

  function SequencePrice(litlen: nat, mlen: nat): (price: nat) {
    3 + LiteralsPrice(litlen) + if mlen >= ML_MASK + MINMATCH then 1 + (mlen - (ML_MASK + MINMATCH)) / 255 else 0
  }

  /** LZ4HC_optimal_t: the cheapest known way to a position: a literal, or a match that ends there. */
  datatype Opt = Opt(price: int, off: nat, mlen: nat, litlen: nat)

  function Literal(litlen: nat, price: int): (r: Opt) { Opt(price, 0, 1, litlen) }

  /** A step of mlen positions from p on: a literal, or a match. */
  ghost predicate Step(s: seq<byte>, p: nat, e: Opt) {
    e.mlen == 1 || Usable(s, p, e.mlen, e.off)
  }

  /** An entry for position pos (counted from base) leads back to an earlier one; the first has none. */
  ghost predicate Entry(s: seq<byte>, base: nat, pos: nat, e: Opt) {
    if pos == 0 then e.mlen == 1 else e.mlen <= pos && Step(s, base + pos - e.mlen, e)
  }

  /** The table is filled in up to the literals behind the last match. */
  ghost predicate Table(s: seq<byte>, base: nat, opt: array<Opt>, last: nat)
    reads opt
  {
    && opt.Length == LZ4_OPT_NUM + TRAILING_LITERALS && 1 <= last < LZ4_OPT_NUM && base + last + LASTLITERALS <= |s|
    && forall pos :: 0 <= pos <= last + TRAILING_LITERALS ==> Entry(s, base, pos, opt[pos])
  }

  lemma ShorterMatch(s: seq<byte>, p: nat, len: nat, off: nat, k: nat)
    requires Usable(s, p, len, off) && MINMATCH <= k <= len
    ensures Usable(s, p, k, off)
  {
    CommonPrefix(s, p, p - off, len, k);
  }

  /** The prices of the first positions: literals, then every length of the first match. */
  method InitPrices(opt: array<Opt>, llen: nat, matchML: nat, offset: nat, ghost s: seq<byte>, ghost base: nat)
    requires opt.Length == LZ4_OPT_NUM + TRAILING_LITERALS && matchML < LZ4_OPT_NUM && Usable(s, base, matchML, offset)
    modifies opt
    ensures Table(s, base, opt, matchML)
  {
    hide Usable, LiteralsPrice, SequencePrice;
    assert MINMATCH <= matchML && base + matchML + LASTLITERALS <= |s| by { MatchFits(s, base, matchML, offset); }
    for rPos := 0 to MINMATCH
      invariant forall pos :: 0 <= pos < rPos ==> Entry(s, base, pos, opt[pos])
    {
      opt[rPos] := Literal(llen + rPos, LiteralsPrice(llen + rPos));
    }
    for mlen := MINMATCH to matchML + 1
      invariant forall pos :: 0 <= pos < mlen ==> Entry(s, base, pos, opt[pos])
    {
      ShorterMatch(s, base, matchML, offset, mlen);
      opt[mlen] := Opt(SequencePrice(llen, mlen), offset, mlen, llen);
    }
    AddTrailing(opt, matchML, s, base);
  }

  lemma MatchFits(s: seq<byte>, p: nat, len: nat, off: nat)
    requires Usable(s, p, len, off)
    ensures MINMATCH <= len && p + len + LASTLITERALS <= |s|
  {
  }

  /** Three literals behind the last match. */
  method AddTrailing(opt: array<Opt>, last: nat, ghost s: seq<byte>, ghost base: nat)
    requires opt.Length == LZ4_OPT_NUM + TRAILING_LITERALS && 1 <= last < LZ4_OPT_NUM
    requires base + last + LASTLITERALS <= |s|
    requires forall pos :: 0 <= pos <= last ==> Entry(s, base, pos, opt[pos])
    modifies opt
    ensures Table(s, base, opt, last)
  {
    hide Usable, LiteralsPrice;
    for addLit := 1 to TRAILING_LITERALS + 1
      invariant forall pos :: 0 <= pos < last + addLit ==> Entry(s, base, pos, opt[pos])
    {
      opt[last + addLit] := Literal(addLit, opt[last].price + LiteralsPrice(addLit));
    }
  }

  /** Cheaper literals before a match found at cur. */
  method LiteralsBefore(opt: array<Opt>, cur: nat, last: nat, ghost s: seq<byte>, ghost base: nat)
    requires Table(s, base, opt, last) && 1 <= cur < last
    modifies opt
    ensures Table(s, base, opt, last)
  {
    hide Usable, LiteralsPrice;
    var baseLitlen := opt[cur].litlen;
    for litlen := 1 to MINMATCH
      invariant Table(s, base, opt, last)
    {
      var price := opt[cur].price - LiteralsPrice(baseLitlen) + LiteralsPrice(baseLitlen + litlen);
      var pos := cur + litlen;
      if price < opt[pos].price {
        opt[pos] := Literal(baseLitlen + litlen, price);
      }
    }
  }

  /** Every length of a match found at cur, where it is cheaper or new; the last position reached. */
  method UseMatch(opt: array<Opt>, cur: nat, last0: nat, matchML: nat, offset: nat, ghost s: seq<byte>, ghost base: nat)
    returns (last: nat)
    requires Table(s, base, opt, last0) && 1 <= cur < last0 && cur + matchML < LZ4_OPT_NUM
    requires Usable(s, base + cur, matchML, offset)
    modifies opt
    ensures last0 <= last && Table(s, base, opt, last)
  {
    hide Usable, LiteralsPrice, SequencePrice;
    MatchFits(s, base + cur, matchML, offset);
    last := last0;
    for ml := MINMATCH to matchML + 1
      invariant last == last0 || (ml == matchML + 1 && last == cur + matchML > last0)
      invariant opt.Length == LZ4_OPT_NUM + TRAILING_LITERALS
      invariant forall pos :: 0 <= pos && (pos <= last0 + TRAILING_LITERALS || pos < cur + ml) ==>
        Entry(s, base, pos, opt[pos])
    {
      var pos := cur + ml;
      var ll, price := 0, opt[cur].price + SequencePrice(0, ml);
      if opt[cur].mlen == 1 {
        ll := opt[cur].litlen;
        price := (if cur > ll then opt[cur - ll].price else 0) + SequencePrice(ll, ml);
      }
      if pos > last + TRAILING_LITERALS || price <= opt[pos].price {
        if ml == matchML && last < pos { last := pos; }
        ShorterMatch(s, base + cur, matchML, offset, ml);
        opt[pos] := Opt(price, offset, ml, ll);
      }
    }
    AddTrailing(opt, last, s, base);
  }

  /** What the search leaves: entries up to cur, and the step that is to be taken from there. */
  ghost predicate Found(s: seq<byte>, base: nat, opt: array<Opt>, cur: nat, last: nat, mlen: nat, off: nat)
    reads opt
  {
    && cur < opt.Length && 1 <= mlen && cur < last <= cur + mlen && base + cur + mlen + LASTLITERALS <= |s|
    && Step(s, base + cur, Opt(0, off, mlen, 0))
    && forall pos :: 0 <= pos <= cur ==> Entry(s, base, pos, opt[pos])
  }

  /**
    The further positions under the first match, until the table is settled or a match is long
    enough to be taken at once.
   */
  method Search(src: array<byte>, opt: array<Opt>, ip: nat, last0: nat, sufficientLen: nat, fullUpdate: bool)
    returns (cur: nat, last: nat, bestMlen: nat, bestOff: nat)
    requires Table(src[..], ip, opt, last0)
    modifies opt
    ensures Found(src[..], ip, opt, cur, last, bestMlen, bestOff)
  {
    hide Usable, LiteralsPrice, SequencePrice, Common;
    ghost var s := src[..];
    cur, last := 1, last0;
    while cur < last
      invariant 1 <= cur <= last && Table(s, ip, opt, last) && src[..] == s
      decreases LZ4_OPT_NUM - cur
    {
      if ip + cur > src.Length - MFLIMIT { break; }
      var skip := opt[cur + 1].price <= opt[cur].price;
      if fullUpdate { skip := skip && opt[cur + MINMATCH].price < opt[cur].price + 3; }
      if !skip {
        var len, off := FindLongerMatch(src, ip + cur, if fullUpdate then MINMATCH - 1 else last - cur);
        if len != 0 {
          MatchFits(s, ip + cur, len, off);
          if len > sufficientLen || len + cur >= LZ4_OPT_NUM {
            return cur, cur + 1, len, off;
          }
          LiteralsBefore(opt, cur, last, s, ip);
          last := UseMatch(opt, cur, last, len, off, s, ip);
        }
      }
      cur := cur + 1;
    }
    bestMlen, bestOff := opt[last].mlen, opt[last].off;
    StepBack(s, ip, opt[last], last);
    cur := last - bestMlen;
  }

  lemma StepBack(s: seq<byte>, base: nat, e: Opt, pos: nat)
    requires 1 <= pos && Entry(s, base, pos, e)
    ensures 1 <= e.mlen <= pos && Step(s, base + pos - e.mlen, Opt(0, e.off, e.mlen, 0))
  {
  }

  // ---------------------------------------------------------------- the chosen path

  /** From c the steps in t lead to end, without gap or overlap. */
  ghost predicate Forward(s: seq<byte>, base: nat, t: seq<Opt>, c: nat, end: nat)
    decreases end - c
  {
    c == end || (
      && c < end && c < |t| && 1 <= t[c].mlen <= end - c && Step(s, base + c, t[c])
      && Forward(s, base, t, c + t[c].mlen, end))
  }

  /** The way on from c does not depend on what lies before. */
  lemma {:induction false} ForwardUpdate(s: seq<byte>, base: nat, t: seq<Opt>, k: nat, e: Opt, c: nat, end: nat)
    requires k < c <= end && k < |t| && Forward(s, base, t, c, end)
    ensures Forward(s, base, t[k := e], c, end)
    decreases end - c
  {
    hide Step;
    if c < end { ForwardUpdate(s, base, t, k, e, c + t[c].mlen, end); }
  }

  /** Turns the entries that lead back from cur into steps that lead there from the start. */
  method Reverse(opt: array<Opt>, cur: nat, bestMlen: nat, bestOff: nat,
                 ghost s: seq<byte>, ghost base: nat, ghost last: nat)
    requires Found(s, base, opt, cur, last, bestMlen, bestOff)
    modifies opt
    ensures Forward(s, base, opt[..], 0, cur + bestMlen)
  {
    hide Usable;
    ghost var end := cur + bestMlen;
    var pos: nat, mlen: nat, off: nat := cur, bestMlen, bestOff;
    while true
      invariant pos <= cur < opt.Length && 1 <= mlen && pos + mlen <= end && Step(s, base + pos, Opt(0, off, mlen, 0))
      invariant Forward(s, base, opt[..], pos + mlen, end)
      invariant forall k :: 0 <= k <= pos ==> Entry(s, base, k, opt[k])
      decreases pos
    {
      var next, nextOff := opt[pos].mlen, opt[pos].off;
      ghost var was, e := opt[..], opt[pos].(mlen := mlen, off := off);
      if pos > 0 { StepBack(s, base, opt[pos], pos); }
      ForwardUpdate(s, base, was, pos, e, pos + mlen, end);
      opt[pos] := opt[pos].(mlen := mlen, off := off);
      assert opt[..] == was[pos := e];
      assert Forward(s, base, opt[..], pos, end);
      if next > pos { break; }
      mlen, off := next, nextOff;
      pos := pos - next;
    }
  }

  /** Encodes the matches of the path, up to the step that reaches last. */
  method EncodePath(src: array<byte>, dst: array<byte>, opt: array<Opt>, ip0: nat, last: nat, op0: nat, anchor0: nat,
                    ghost end: nat, ghost qs0: seq<Sequence>)
    returns (ip: nat, op: nat, anchor: nat, ghost qs: seq<Sequence>)
    requires src != dst && src.Length <= LZ4_MAX_INPUT_SIZE && dst.Length >= CompressBound(src.Length)
    requires op0 <= dst.Length && anchor0 <= ip0 && 1 <= last <= end && ip0 + end <= src.Length
    requires Forward(src[..], ip0, opt[..], 0, end) && Emitted(qs0, src[..], anchor0, dst[..op0])
    modifies dst
    ensures ip0 < ip <= ip0 + end && anchor <= ip && op <= dst.Length && Emitted(qs, src[..], anchor, dst[..op])
  {
    hide Usable, Emitted, Common;
    ghost var s, t := src[..], opt[..];
    ip, op, anchor, qs := ip0, op0, anchor0, qs0;
    var rPos := 0;
    while rPos < last
      invariant rPos <= end && ip == ip0 + rPos && anchor <= ip && op <= dst.Length
      invariant src[..] == s && Forward(s, ip0, t, rPos, end) && Emitted(qs, s, anchor, dst[..op])
      decreases end - rPos
    {
      var ml, offset := opt[rPos].mlen, opt[rPos].off;
      if ml == 1 {
        ip, rPos := ip + 1, rPos + 1;
      } else {
        rPos := rPos + ml;
        ip, op, qs := EncodeSequence(src, dst, ip, op, anchor, ml, offset, qs);
        anchor := ip;
      }
    }
  }

  // ---------------------------------------------------------------- the parser

  /** One round, from a position where a match was found: until the path is encoded. */
  method EncodeRound(src: array<byte>, dst: array<byte>, opt: array<Opt>, ip0: nat, op0: nat,
                     anchor0: nat, len: nat, off: nat,
                     sufficientLen: nat, fullUpdate: bool, ghost qs0: seq<Sequence>)
    returns (ip: nat, op: nat, anchor: nat, ghost qs: seq<Sequence>)
    requires src != dst && src.Length <= LZ4_MAX_INPUT_SIZE && dst.Length >= CompressBound(src.Length)
    requires opt.Length == LZ4_OPT_NUM + TRAILING_LITERALS && sufficientLen < LZ4_OPT_NUM
    requires op0 <= dst.Length && anchor0 <= ip0 && Usable(src[..], ip0, len, off)
    requires Emitted(qs0, src[..], anchor0, dst[..op0])
    modifies dst, opt
    ensures ip0 < ip <= src.Length && anchor <= ip && op <= dst.Length && Emitted(qs, src[..], anchor, dst[..op])
  {
    hide Emitted, Common, Found, Table, Forward;
    ghost var s, d := src[..], dst[..op0];
    MatchFits(s, ip0, len, off);
    if len > sufficientLen {
      ip, op, qs := EncodeSequence(src, dst, ip0, op0, anchor0, len, off, qs0);
      anchor := ip;
      return;
    }
    InitPrices(opt, ip0 - anchor0, len, off, s, ip0);
    assert src[..] == s && dst[..op0] == d;
    var cur, last, bestMlen, bestOff := Search(src, opt, ip0, len, sufficientLen, fullUpdate);
    FoundParts(s, ip0, opt, cur, last, bestMlen, bestOff);
    Reverse(opt, cur, bestMlen, bestOff, s, ip0, last);
    assert src[..] == s && dst[..op0] == d;
    ip, op, anchor, qs := EncodePath(src, dst, opt, ip0, last, op0, anchor0, cur + bestMlen, qs0);
  }

  lemma FoundParts(s: seq<byte>, base: nat, opt: array<Opt>, cur: nat, last: nat, mlen: nat, off: nat)
    requires Found(s, base, opt, cur, last, mlen, off)
    ensures 1 <= last <= cur + mlen && base + cur + mlen <= |s|
  {
  }

  /**
    LZ4HC_compress_optimal with room for the worst case: whatever matches the finder offers, and
    whatever the prices, the block decodes to the source, keeps the end rules and stays within the bound.
   */
  method CompressOptimal(src: array<byte>, dst: array<byte>, sufficientLen0: nat, fullUpdate: bool) returns (r: nat)
    requires src != dst && src.Length <= LZ4_MAX_INPUT_SIZE && dst.Length >= CompressBound(src.Length)
    modifies dst
    ensures 0 < r <= src.Length + src.Length / 255 + 16 <= dst.Length
    ensures Conforming(dst[..r]) && Decode(dst[..r], 0, []) == Some(src[..])
  {
    hide LiteralBytes, Decode, Conforming, Usable, Common;
    var opt := new Opt[LZ4_OPT_NUM + TRAILING_LITERALS](_ => Literal(0, 0));
    var sufficientLen := if sufficientLen0 >= LZ4_OPT_NUM then LZ4_OPT_NUM - 1 else sufficientLen0;
    var ip: nat, anchor: nat, op: nat := 0, 0, 0;
    ghost var qs: seq<Sequence>, s := [], src[..];
    assert Emitted(qs, s, anchor, dst[..op]);
    while ip <= src.Length - MFLIMIT
      invariant anchor <= ip <= src.Length && op <= dst.Length && src[..] == s
      invariant opt.Length == LZ4_OPT_NUM + TRAILING_LITERALS
      invariant Emitted(qs, s, anchor, dst[..op])
      decreases src.Length - ip
    {
      hide Emitted;
      var len, off := FindLongerMatch(src, ip, MINMATCH - 1);
      if len == 0 {
        ip := ip + 1;
      } else {
        ip, op, anchor, qs := EncodeRound(src, dst, opt, ip, op, anchor, len, off, sufficientLen, fullUpdate, qs);
      }
    }
    ghost var d, last := dst[..op], src[anchor..];
    RoomForLast(qs, s, anchor, d);
    r := EncodeLastLiterals(src, anchor, dst, op);
    assert s == s[..anchor] + last;
    EncodedBlockConforms(qs, |s|, last);
    EncodedBlockBound(qs, |s|, last);
  }
}
