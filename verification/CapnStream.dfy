/** struct capn_stream and its two operations, capn_deflate and capn_inflate. */
module CapnStream {
  import opened Bytes
  import opened CapnPacking

  const CAPN_MISALIGNED := -1
  const CAPN_NEED_MORE := -2

  lemma {:induction false} TagOfPrefix(w: seq<byte>, i: nat)
    requires i < |w|
    ensures TagOf(w[..i + 1]) == TagOf(w[..i]) + (if w[i] != 0 then Pow2(i) else 0)
    ensures NonZero(w[..i + 1]) == NonZero(w[..i]) + (if w[i] != 0 then [w[i]] else [])
    decreases i
  {
    var t := w[1..];
    if i == 0 {
      assert w[..1] == [w[0]] && w[..0] == [];
    } else {
      TagOfPrefix(t, i - 1);
      assert w[..i + 1][1..] == t[..i] && w[..i][1..] == t[..i - 1];
    }
  }

  lemma {:induction false} NonZeroPrefix(w: seq<byte>, i: nat)
    requires i <= |w|
    ensures |NonZero(w[..i])| <= |NonZero(w)|
    decreases i
  {
    if i > 0 {
      NonZeroPrefix(w[1..], i - 1);
      assert w[..i][1..] == w[1..][..i - 1];
    }
  }

  /** The leading full words end at the word of the first zero byte. */
  lemma {:induction false} FullRunEnds(s: seq<byte>, n: nat, p: nat)
    requires 8 * n <= |s| && p <= 8 * n
    requires forall k :: 0 <= k < p ==> s[k] != 0
    requires p < 8 * n ==> s[p] == 0
    ensures FullRun(s, n) == p / 8
    decreases n
  {
    if n > 0 {
      TagExtremes(s[..8]);
      if p < 8 {
        assert s[..8][p] == 0;
      } else {
        assert forall k :: 0 <= k < 8 ==> s[..8][k] == s[k];
        FullRunEnds(s[8..], n - 1, p - 8);
      }
    }
  }

  lemma {:induction false} ZeroRunEnds(s: seq<byte>, n: nat, r: nat)
    requires 8 * n <= |s| && r <= n
    requires forall i :: 0 <= i < r ==> ZeroWord(s, i)
    requires r < n ==> !ZeroWord(s, r)
    ensures ZeroRun(s, n) == r
    decreases n
  {
    if n > 0 && r > 0 {
      assert ZeroWord(s, 0);
      forall i | 0 <= i < r - 1 ensures ZeroWord(s[8..], i) {
        assert ZeroWord(s, i + 1);
      }
      if r < n {
        var k :| 8 * r <= k < 8 * r + 8 && s[k] != 0;
        assert s[8..][k - 8] != 0;
      }
      ZeroRunEnds(s[8..], n - 1, r - 1);
    }
  }

  /** What deflate has still to write. */
  ghost function ToCome(raw: nat, s: seq<byte>): (r: seq<byte>)
    requires raw <= |s| && (|s| - raw) % 8 == 0
  {
    s[..raw] + Pack(s[raw..])
  }

  lemma NothingPending(s: seq<byte>)
    requires |s| % 8 == 0
    ensures ToCome(0, s) == Pack(s) && (s == [] ==> Pack(s) == [])
  {
    assert s[0..] == s;
  }

  lemma SomeToCome(raw: nat, s: seq<byte>)
    requires raw <= |s| && (|s| - raw) % 8 == 0 && s != []
    ensures ToCome(raw, s) != []
  {
    if raw == 0 {
      NothingPending(s);
      GroupBytesIs(s);
      TagExtremes(s[..8]);
    }
  }

  lemma RawToCome(raw: nat, s: seq<byte>, n: nat, w: seq<byte>)
    requires raw <= |s| && (|s| - raw) % 8 == 0 && n <= raw
    ensures w + ToCome(raw, s) == (w + s[..n]) + ToCome(raw - n, s[n..])
    ensures |ToCome(raw, s)| == n + |ToCome(raw - n, s[n..])|
  {
    hide Pack;
    var t := s[n..];
    assert t[raw - n..] == s[raw..] && s[..raw] == s[..n] + t[..raw - n];
    var p := Pack(s[raw..]);
    Assoc(s[..n], t[..raw - n], p);
    Assoc(w, s[..n], t[..raw - n] + p);
  }

  /** The next group is what comes first. */
  lemma GroupToCome(s: seq<byte>, w: seq<byte>)
    requires 8 <= |s| && |s| % 8 == 0
    ensures var n := GroupWords(s);
      && Pack(s) == GroupBytes(s) + Pack(Drop(s, n))
      && w + Pack(s) == (w + GroupBytes(s)) + Pack(Drop(s, n))
  {
    assert Pack(s) == GroupBytes(s) + Pack(Drop(s, GroupWords(s)));
    hide GroupBytes, GroupWords, Pack;
    Assoc(w, GroupBytes(s), Pack(Drop(s, GroupWords(s))));
  }

  /** Behind a group that is written as a whole. */
  lemma GroupDone(s: seq<byte>, w: seq<byte>, t: seq<byte>)
    requires 8 <= |s| && |s| % 8 == 0 && 8 * GroupWords(s) <= |s| && t == s[8 * GroupWords(s)..] && |t| % 8 == 0
    ensures (w + GroupBytes(s)) + ToCome(0, t) == w + Pack(s)
    ensures |Pack(s)| == |GroupBytes(s)| + |ToCome(0, t)|
  {
    GroupToCome(s, w);
    NothingPending(t);
    hide GroupBytes, GroupWords, Pack, ToCome;
  }

  /** Behind a full word, its raw run comes first; the rest of the message follows. */
  lemma FullDone(s: seq<byte>, w: seq<byte>, w': seq<byte>, t: seq<byte>, raw: nat)
    requires 8 <= |s| && |s| % 8 == 0 && t == s[8..]
    requires raw == 8 * (GroupWords(s) - 1) && raw <= |t| && (|t| - raw) % 8 == 0
    requires w' + s[8..8 * GroupWords(s)] == w + GroupBytes(s) && |GroupBytes(s)| == 10 + raw
    ensures w' + ToCome(raw, t) == w + Pack(s) && |Pack(s)| == 10 + |ToCome(raw, t)|
  {
    GroupToCome(s, w);
    FullToCome(s, w, w', t, raw);
    hide GroupBytes, GroupWords, Pack, ToCome;
  }

  /** How much room each kind of group takes. */
  lemma GroupSize(s: seq<byte>)
    requires 8 <= |s| && |s| % 8 == 0
    ensures var n, nz := GroupWords(s), |NonZero(s[..8])|;
      && (nz == 0 ==> |GroupBytes(s)| == 2)
      && (nz == 8 ==> |GroupBytes(s)| == 10 + 8 * (n - 1))
      && (0 < nz < 8 ==> |GroupBytes(s)| == 1 + nz)
      && |GroupBytes(s)| <= |Pack(s)|
  {
    GroupToCome(s, []);
    hide GroupBytes, GroupWords, NonZero, Pack;
    GroupBytesIs(s);
  }

  /** Behind a full word, its raw run comes first. */
  lemma FullToCome(s: seq<byte>, w: seq<byte>, w': seq<byte>, t: seq<byte>, raw: nat)
    requires 8 <= |s| && |s| % 8 == 0 && t == s[8..]
    requires raw == 8 * (GroupWords(s) - 1) && raw <= |t| && (|t| - raw) % 8 == 0
    requires w' + s[8..8 * GroupWords(s)] == w + GroupBytes(s)
    ensures var rest := Pack(Drop(s, GroupWords(s)));
      w' + ToCome(raw, t) == (w + GroupBytes(s)) + rest && |ToCome(raw, t)| == raw + |rest|
  {
    hide Pack, GroupBytes, GroupWords;
    var n := GroupWords(s);
    assert t[..8 * (n - 1)] == s[8..8 * n] && t[8 * (n - 1)..] == s[8 * n..];
    Assoc(w', s[8..8 * n], Pack(Drop(s, n)));
  }

  /** What is written for a full word, and how many bytes will follow as they are. */
  lemma FullStep(s: seq<byte>, d: seq<byte>, raw: nat)
    requires 8 <= |s| && |s| % 8 == 0 && |NonZero(s[..8])| == 8
    requires raw == 8 * FullRun(s[8..], Min((|s| - 8) / 8, 256))
    ensures var n := GroupWords(s);
      && raw == 8 * (n - 1) && 8 * n <= |s| && (|s| - 8 - raw) % 8 == 0
      && d + [0xFF] + s[..8] + [(raw / 8) % 256] + s[8..8 * n] == d + GroupBytes(s)
  {
    var n := GroupWords(s);
    GroupBytesIs(s);
    FullGroupWords(s);
    hide *;
    WordsLeft(|s|, n);
    JoinFive(d, [0xFF], s[..8], [(n - 1) % 256], s[8..8 * n]);
  }

  /** The words of n bytes, at most 256. */
  function WordLimit(n: nat): (l: nat)
    requires n >= 8
    ensures 1 <= l <= 256 && 8 * l <= n
  {
    Min(n / 8, 256)
  }

  class Stream {
    var nextIn: array<byte>
    var inAt: nat
    var availIn: nat
    var nextOut: array<byte>
    var outAt: nat
    var availOut: nat
    var zeros: nat
    var raw: nat
    const inflateBuf: array<byte>
    var availBuf: nat

    /** A zero-initialised stream over the given buffers. */
    constructor (p: array<byte>, n: nat, q: array<byte>)
      requires p != q && n <= p.Length
      ensures Valid() && fresh(this) && fresh(inflateBuf)
      ensures nextIn == p && inAt == 0 && availIn == n && nextOut == q && outAt == 0 && availOut == q.Length
      ensures zeros == 0 && raw == 0 && availBuf == 0
    {
      nextIn, inAt, availIn := p, 0, n;
      nextOut, outAt, availOut := q, 0, q.Length;
      zeros, raw, availBuf := 0, 0, 0;
      inflateBuf := new byte[8](_ => 0);
    }

    ghost predicate Valid()
      reads this
    {
      && inAt + availIn <= nextIn.Length && outAt + availOut <= nextOut.Length
      && nextIn != nextOut && inflateBuf != nextIn && inflateBuf != nextOut
      && inflateBuf.Length == 8 && availBuf <= 8
    }

    /** The input not yet read. */
    ghost function Input(): (r: seq<byte>)
      requires inAt + availIn <= nextIn.Length
      reads `nextIn, `inAt, `availIn, nextIn
    {
      nextIn[inAt..inAt + availIn]
    }

    /** The output written so far, from the start of the buffer. */
    ghost function Written(): (r: seq<byte>)
      requires outAt <= nextOut.Length
      reads `nextOut, `outAt, nextOut
    {
      nextOut[..outAt]
    }

    // -------------------------------------------------------------- capn_deflate

    /** What deflate has still to write: the rest of a raw run, and the packed words behind it. */
    ghost function Outstanding(): (r: seq<byte>)
      requires inAt + availIn <= nextIn.Length && raw <= availIn && (availIn - raw) % 8 == 0
      reads `nextIn, `inAt, `availIn, `raw, nextIn
    {
      ToCome(raw, Input())
    }

    /** Size and tag of the word at nextIn. */
    method Inspect() returns (sz: nat, hdr: byte)
      requires Valid() && availIn >= 8
      ensures sz == |NonZero(Input()[..8])| <= 8 && hdr == TagOf(Input()[..8])
    {
      ghost var w := Input()[..8];
      var h := 0;
      sz := 0;
      var bit := 1;
      for i := 0 to 8
        invariant sz == |NonZero(w[..i])| && h == TagOf(w[..i]) && bit == Pow2(i) && sz <= i
      {
        TagOfPrefix(w, i);
        assert w[i] == nextIn[inAt + i];
        if nextIn[inAt + i] != 0 {
          sz := sz + 1;
          h := h + bit;
        }
        bit := 2 * bit;
      }
      assert w[..8] == w;
      TagExtremes(w);
      Pow2Eight();
      hdr := h;
    }

    method Put(b: byte)
      requires Valid() && availOut > 0
      modifies this`outAt, this`availOut, nextOut
      ensures Valid() && outAt == old(outAt) + 1 && availOut == old(availOut) - 1
      ensures Written() == old(Written()) + [b]
    {
      nextOut[outAt] := b;
      outAt, availOut := outAt + 1, availOut - 1;
    }

    /** memcpy of n input bytes to the output. */
    method Move(n: nat)
      requires Valid() && n <= availIn && n <= availOut
      modifies this`inAt, this`availIn, this`outAt, this`availOut, nextOut
      ensures Valid() && outAt == old(outAt) + n && availOut == old(availOut) - n
      ensures inAt == old(inAt) + n && availIn == old(availIn) - n && Input() == old(Input())[n..]
      ensures Written() == old(Written()) + old(Input())[..n]
    {
      ghost var b, input := nextOut[..], Input();
      SubSlice(nextIn[..], inAt, inAt + availIn, 0, n);
      SubSlice(nextIn[..], inAt, inAt + availIn, n, availIn - n);
      CopyBytes(nextOut, outAt, nextIn, inAt, n);
      PutEnd(b, outAt, input[..n]);
      outAt, availOut := outAt + n, availOut - n;
      inAt, availIn := inAt + n, availIn - n;
      assert Written() == nextOut[..][..outAt];
    }

    method Skip(n: nat)
      requires Valid() && n <= availIn
      modifies this`inAt, this`availIn
      ensures Valid() && inAt == old(inAt) + n && availIn == old(availIn) - n && Input() == old(Input())[n..]
    {
      inAt, availIn := inAt + n, availIn - n;
    }

    /** How many words the group of zero words at nextIn takes. */
    method CountZeroWords() returns (sz: nat)
      requires Valid() && availIn >= 8 && availIn % 8 == 0 && |NonZero(Input()[..8])| == 0
      ensures sz == GroupWords(Input())
    {
      hide NonZero, ZeroWord, Input;
      InputBytes();
      ghost var s := Input();
      ghost var t := s[8..];
      ZeroGroupWords(s);
      hide GroupWords, ZeroRun, WordLimit;
      var limit := WordLimit(availIn);
      sz := 1;
      while sz < limit && IsZeroWord(sz)
        invariant 1 <= sz <= limit && 8 * limit <= availIn
        invariant forall i :: 0 <= i < sz - 1 ==> ZeroWord(t, i)
      {
        ShiftZeroWord(s, sz);
        sz := sz + 1;
      }
      if sz < limit { ShiftZeroWord(s, sz); }
      ZeroRunEnds(t, limit - 1, sz - 1);
    }

    /** Zero words: the tag 0 and the number of further zero words. */
    method DeflateZeros()
      requires Valid() && availIn >= 8 && availIn % 8 == 0 && availOut >= 2 && |NonZero(Input()[..8])| == 0
      modifies this`inAt, this`availIn, this`outAt, this`availOut, nextOut
      ensures Valid() && availOut == old(availOut) - 2 && availIn < old(availIn) && availIn % 8 == 0
      ensures var s := old(Input()); Input() == s[8 * GroupWords(s)..] && Written() == old(Written()) + GroupBytes(s)
    {
      hide GroupWords, GroupBytes, NonZero, Written;
      GroupBytesIs(Input());
      var sz := CountZeroWords();
      WordsLeft(availIn, sz);
      ghost var d := Written();
      Put(0);
      Put((sz - 1) % 256);
      Skip(8 * sz);
      assert d + [0] + [(sz - 1) % 256] == d + [0, (sz - 1) % 256];
    }

    /** How many of the bytes at nextIn, at most n of them, come before the first zero; whole words only. */
    method CountRaw(n: nat) returns (r: nat)
      requires Valid() && 8 * n <= availIn
      ensures r == 8 * FullRun(Input(), n)
    {
      ghost var s := Input();
      var p := 0;
      while p < 8 * n && nextIn[inAt + p] != 0
        invariant p <= 8 * n && forall k :: 0 <= k < p ==> s[k] != 0
      {
        assert s[p] == nextIn[inAt + p];
        p := p + 1;
      }
      assert p < 8 * n ==> s[p] == nextIn[inAt + p];
      FullRunEnds(s, n, p);
      r := p - p % 8;
    }

    /** A word without zero bytes: tag, word, and the count of raw words that will follow. */
    method DeflateFull()
      requires Valid() && availIn >= 8 && availIn % 8 == 0 && availOut >= 10 && |NonZero(Input()[..8])| == 8
      modifies this`inAt, this`availIn, this`outAt, this`availOut, this`raw, nextOut
      ensures Valid() && availOut == old(availOut) - 10 && raw <= availIn && (availIn - raw) % 8 == 0
      ensures var s := old(Input()); var n := GroupWords(s);
        Input() == s[8..] && raw == 8 * (n - 1) && Written() + s[8..8 * n] == old(Written()) + GroupBytes(s)
    {
      hide GroupBytes, GroupWords, NonZero, FullRun, Written, Input;
      InputLength();
      ghost var s, d := Input(), Written();
      Put(0xFF);
      assert Input() == s;
      Move(8);
      raw := CountRaw(Min(availIn / 8, 256));
      Put((raw / 8) % 256);
      assert Input() == s[8..];
      FullStep(s, d, raw);
    }

    /** Any other word: the tag and the nonzero bytes. */
    method DeflateTagged(hdr: byte, ghost sz: nat)
      requires Valid() && availIn >= 8 && availIn % 8 == 0
      requires sz == |NonZero(Input()[..8])| && 0 < sz < 8 && hdr == TagOf(Input()[..8]) && availOut >= 1 + sz
      modifies this`inAt, this`availIn, this`outAt, this`availOut, nextOut
      ensures Valid() && availOut == old(availOut) - 1 - sz && availIn == old(availIn) - 8 && availIn % 8 == 0
      ensures var s := old(Input());
        Input() == s[8..] && GroupWords(s) == 1 && Written() == old(Written()) + GroupBytes(s)
    {
      hide GroupBytes, GroupWords, Written;
      ghost var s, d := Input(), Written();
      ghost var w := s[..8];
      GroupBytesIs(s);
      Put(hdr);
      for i := 0 to 8
        invariant Valid() && availIn == old(availIn) && inAt == old(inAt) && Input() == s
        invariant availOut + |NonZero(w[..i])| == old(availOut) - 1
        invariant Written() == d + [hdr] + NonZero(w[..i])
      {
        TagOfPrefix(w, i);
        NonZeroPrefix(w, i + 1);
        assert w[i] == nextIn[inAt + i];
        if nextIn[inAt + i] != 0 {
          Put(nextIn[inAt + i]);
        }
      }
      assert w[..8] == w;
      Skip(8);
    }

    /** One group, if there is room for its part before the raw run. */
    method DeflateGroup() returns (ok: bool)
      requires Valid() && raw == 0 && availIn >= 8 && availIn % 8 == 0
      modifies this`inAt, this`availIn, this`outAt, this`availOut, this`raw, nextOut
      ensures Valid()
      ensures ok ==> availIn < old(availIn) && raw <= availIn && (availIn - raw) % 8 == 0
      ensures ok ==> Written() + Outstanding() == old(Written()) + Pack(old(Input()))
      ensures ok ==> availOut - |Outstanding()| == old(availOut) - |Pack(old(Input()))|
      ensures !ok ==> availOut < |Pack(old(Input()))| && availOut == old(availOut)
    {
      hide GroupBytes, GroupWords, NonZero, Pack, ToCome, TagOf, Written, Ones, Drop, Input;
      InputLength();
      ghost var s, w := Input(), Written();
      var sz, hdr := Inspect();
      GroupSize(s);
      ok := true;
      if sz == 0 {
        if availOut < 2 { return false; }
        DeflateZeros();
        InputLength();
        GroupDone(s, w, Input());
      } else if sz == 8 {
        if availOut < 10 { return false; }
        DeflateFull();
        InputLength();
        FullDone(s, w, Written(), Input(), raw);
      } else {
        if availOut < 1 + sz { return false; }
        DeflateTagged(hdr, sz);
        InputLength();
        GroupDone(s, w, Input());
      }
    }

    /** Raw words, as many as are there and fit. */
    method DeflateRaw()
      requires Valid() && 0 < raw <= availIn && (availIn - raw) % 8 == 0 && availOut > 0
      modifies this`inAt, this`availIn, this`outAt, this`availOut, this`raw, nextOut
      ensures Valid() && availIn < old(availIn) && raw <= availIn && (availIn - raw) % 8 == 0
      ensures Written() + Outstanding() == old(Written() + Outstanding())
      ensures availOut - |Outstanding()| == old(availOut - |Outstanding()|)
    {
      hide ToCome, Written;
      var sz := Min(raw, Min(availIn, availOut));
      RawToCome(raw, Input(), sz, Written());
      Move(sz);
      raw := raw - sz;
    }

    /**
      capn_deflate.  With a whole number of input words and no raw run pending, it succeeds
      exactly when the output has room for the packed form, and then has written it.
     */
    method Deflate() returns (r: int)
      requires Valid() && raw == 0
      modifies this`inAt, this`availIn, this`outAt, this`availOut, this`raw, nextOut
      ensures Valid() && r in {0, -1, -2}
      ensures r == -1 <==> old(availIn) % 8 != 0
      ensures old(availIn) % 8 == 0 ==> (r == 0 <==> |Pack(old(Input()))| <= old(availOut))
      ensures r == 0 ==> availIn == 0 && raw == 0 && availOut == old(availOut) - |Pack(old(Input()))|
      ensures r == 0 ==> Written() == old(Written()) + Pack(old(Input()))
    {
      hide Pack, ToCome, Written;
      if availIn % 8 != 0 { return CAPN_MISALIGNED; }
      ghost var all := Pack(Input());
      ghost var d := Written();
      NothingPending(Input());
      while availIn != 0
        invariant Valid() && raw <= availIn && (availIn - raw) % 8 == 0
        invariant Written() + Outstanding() == d + all
        invariant availOut - |Outstanding()| == old(availOut) - |all|
        decreases availIn
      {
        if availOut == 0 { SomeToCome(raw, Input()); return CAPN_NEED_MORE; }
        if raw > 0 {
          DeflateRaw();
        } else {
          NothingPending(Input());
          var ok := DeflateGroup();
          if !ok { return CAPN_NEED_MORE; }
        }
      }
      NothingPending([]);
      assert Input() == [];
      r := 0;
    }

    // -------------------------------------------------------------- capn_inflate

    /**
      Everything the stream can still deliver if `more` were to follow its input: the pending
      word, the pending zeros, the pending raw bytes and then the groups of the input.
     */
    ghost function Pending(more: seq<byte>): (r: seq<byte>)
      requires Valid()
      reads this, nextIn, inflateBuf
    {
      inflateBuf[..availBuf] + Zeros(zeros) + Unpack(raw, Input() + more)
    }

    /** The first n bytes of the pending word go to the output. */
    method CopyBuf(n: nat)
      requires Valid() && n <= availBuf && n <= availOut
      modifies this`outAt, this`availOut, nextOut
      ensures Valid() && outAt == old(outAt) + n && availOut == old(availOut) - n
      ensures Written() == old(Written()) + inflateBuf[..n]
    {
      forall k | 0 <= k < n { nextOut[outAt + k] := inflateBuf[k]; }
      outAt, availOut := outAt + n, availOut - n;
    }

    /** The others move to the front. */
    method ShiftBuf(n: nat)
      requires Valid() && n <= availBuf
      modifies this`availBuf, inflateBuf
      ensures Valid() && availBuf == old(availBuf) - n && inflateBuf[..availBuf] == old(inflateBuf[..availBuf])[n..]
    {
      forall k | 0 <= k < availBuf - n { inflateBuf[k] := inflateBuf[k + n]; }
      availBuf := availBuf - n;
    }

    /** Delivers the pending word, or as much of it as fits, and keeps the rest. */
    method FlushBuf(ghost more: seq<byte>)
      requires Valid() && availOut > 0
      modifies this`outAt, this`availOut, this`availBuf, nextOut, inflateBuf
      ensures Valid() && availOut == old(availOut) - (outAt - old(outAt)) <= old(availOut)
      ensures availBuf == 0 || availOut == 0
      ensures Written() + Pending(more) == old(Written() + Pending(more))
    {
      hide Unpack, Zeros, Written;
      ghost var w, b, p := Written(), inflateBuf[..availBuf], Input() + more;
      ghost var rest := Zeros(zeros) + Unpack(raw, p);
      var n := Min(availBuf, availOut);
      CopyBuf(n);
      assert inflateBuf[..n] == b[..n];
      ShiftBuf(n);
      assert Input() + more == p;
      FlushLaw(w, b, n, rest);
      Assoc(b, Zeros(zeros), Unpack(raw, p));
      Assoc(b[n..], Zeros(zeros), Unpack(raw, p));
    }

    /** Pending zeros, as many as fit. */
    method InflateZeros(ghost more: seq<byte>)
      requires Valid() && availOut > 0 && zeros > 0 && availBuf == 0
      modifies this`outAt, this`availOut, this`zeros, nextOut
      ensures Valid() && availOut == old(availOut) - (outAt - old(outAt)) < old(availOut)
      ensures Written() + Pending(more) == old(Written() + Pending(more))
    {
      hide Unpack;
      ghost var w, p := Written(), Input() + more;
      var sz := Min(availOut, zeros);
      forall k | 0 <= k < sz { nextOut[outAt + k] := 0; }
      outAt, availOut := outAt + sz, availOut - sz;
      assert Written() == w + Zeros(sz);
      ZerosLaw(w, sz, zeros, Unpack(raw, p));
      zeros := zeros - sz;
      assert Input() + more == p && inflateBuf[..availBuf] == [];
    }

    /** Raw bytes, as many as are there and fit. */
    method InflateRaw(ghost more: seq<byte>)
      requires Valid() && availOut > 0 && zeros == 0 && availBuf == 0 && raw > 0 && availIn > 0
      modifies this`inAt, this`availIn, this`outAt, this`availOut, this`raw, nextOut
      ensures Valid() && availOut == old(availOut) - (outAt - old(outAt)) < old(availOut)
      ensures availIn <= old(availIn)
      ensures Written() + Pending(more) == old(Written() + Pending(more))
    {
      hide Unpack, Zeros, Written, Input;
      ghost var w, p, r := Written(), Input() + more, raw;
      var sz := Min(Min(availOut, raw), availIn);
      InputLength();
      RawPart(raw, p, sz);
      assert p[..sz] == Input()[..sz] && p[sz..] == Input()[sz..] + more;
      Move(sz);
      raw := raw - sz;
      Assoc(w, p[..sz], Unpack(raw, p[sz..]));
      assert inflateBuf[..availBuf] == [] && Zeros(zeros) == [];
      NoPrefix(Unpack(r, p));
      NoPrefix(Unpack(raw, p[sz..]));
    }

    /** The number of set bits of the tag. */
    method CountOnes(hdr: byte) returns (sz: nat)
      ensures sz == Ones(hdr, 8)
    {
      var h: nat := hdr;
      sz := 0;
      for i := 0 to 8
        invariant sz + Ones(h, 8 - i) == Ones(hdr, 8)
      {
        if h % 2 == 1 { sz := sz + 1; }
        h := h / 2;
      }
    }

    /** Fills the buffer with the word a tag stands for; its nonzero bytes are at nextIn. */
    method ReadTagged(hdr: byte, ghost sz: nat)
      requires Valid() && sz == Ones(hdr, 8) && sz <= availIn
      modifies this`inAt, this`availIn, this`availBuf, inflateBuf
      ensures Valid() && availBuf == 8 && availIn == old(availIn) - sz
      ensures inflateBuf[..8] == Spread(hdr, 8, old(Input())[..sz]) && Input() == old(Input())[sz..]
    {
      hide Input;
      InputBytes();
      ghost var b, input := Input()[..sz], Input();
      var h: nat, j: nat := hdr, 0;
      for i := 0 to 8
        invariant j + Ones(h, 8 - i) == sz
        invariant |b[j..]| == Ones(h, 8 - i)
        invariant inflateBuf[..i] + Spread(h, 8 - i, b[j..]) == Spread(hdr, 8, b)
        modifies inflateBuf
      {
        ghost var got := inflateBuf[..i];
        if h % 2 == 1 {
          inflateBuf[i] := nextIn[inAt + j];
          assert nextIn[inAt + j] == b[j] && b[j..][1..] == b[j + 1..];
          SpreadStep(got, b[j], Spread(h / 2, 7 - i, b[j + 1..]));
          j := j + 1;
        } else {
          inflateBuf[i] := 0;
          SpreadStep(got, 0, Spread(h / 2, 7 - i, b[j..]));
        }
        assert inflateBuf[..i + 1] == got + [inflateBuf[i]];
        h := h / 2;
      }
      availBuf := 8;
      Skip(j);
    }

    lemma InputBytes()
      requires Valid()
      ensures |Input()| == availIn
      ensures forall k {:trigger Input()[k]} :: 0 <= k < availIn ==> Input()[k] == nextIn[inAt + k]
    {
    }

    /** The eight bytes after a full tag. */
    method ReadWord()
      requires Valid() && availIn >= 10
      modifies this`availBuf, inflateBuf
      ensures Valid() && availBuf == 8 && inflateBuf[..8] == Input()[1..9]
    {
      ghost var w := Input()[1..9];
      assert forall k :: 0 <= k < 8 ==> w[k] == nextIn[inAt + 1 + k];
      forall k | 0 <= k < 8 { inflateBuf[k] := nextIn[inAt + 1 + k]; }
      assert forall k :: 0 <= k < 8 ==> inflateBuf[k] == w[k];
      assert Input()[1..9] == w;
      availBuf := 8;
    }

    /** What is pending, when some of its parts are empty. */
    lemma PendingParts(more: seq<byte>)
      requires Valid()
      ensures availBuf == 0 && zeros == 0 ==> Pending(more) == Unpack(raw, Input() + more)
      ensures availBuf == 0 ==> Pending(more) == Zeros(zeros) + Unpack(raw, Input() + more)
      ensures zeros == 0 ==> Pending(more) == inflateBuf[..availBuf] + Unpack(raw, Input() + more)
    {
      hide Unpack, Input;
      var u := Unpack(raw, Input() + more);
      assert availBuf == 0 ==> inflateBuf[..availBuf] == [];
      assert zeros == 0 ==> Zeros(zeros) == [];
    }

    /** Reads the next group's tag; fails, leaving all as it was, when the group is not complete. */
    method ReadGroup(ghost more: seq<byte>) returns (ok: bool)
      requires Valid() && availBuf == 0 && zeros == 0 && raw == 0 && availIn >= 2
      modifies this`inAt, this`availIn, this`zeros, this`raw, this`availBuf, inflateBuf
      ensures Valid()
      ensures Pending(more) == old(Pending(more)) && (ok ==> availIn < old(availIn))
      ensures !ok ==> Unpack(0, Input()) == [] && availBuf == 0 && zeros == 0 && raw == 0 && availIn == old(availIn)
    {
      hide Unpack, Spread, Ones, Zeros, Input, Pending;
      PendingParts(more);
      ghost var input := Input();
      var hdr := nextIn[inAt];
      InputBytes();
      GroupLaws(input, more);
      if hdr == 0xFF {
        if availIn < 10 { return false; }
        ReadWord();
        raw := (nextIn[inAt + 9] as int) * 8;
        Skip(10);
      } else if hdr == 0 {
        zeros := (nextIn[inAt + 1] as int + 1) * 8;
        Skip(2);
      } else {
        var sz := CountOnes(hdr);
        if availIn < 1 + sz { return false; }
        Skip(1);
        ReadTagged(hdr, sz);
        BehindTag(input, sz);
      }
      PendingParts(more);
      ok := true;
    }

    /**
      capn_inflate.  Writes everything the stream can deliver, up to the room there is, and
      keeps the rest pending, for whatever may later be appended to its input: the output does
      not depend on how it is cut into windows.  It asks for more exactly when there is room
      left in the middle of a group.
     */
    method Inflate(ghost more: seq<byte>) returns (r: int)
      requires Valid()
      modifies this`inAt, this`availIn, this`outAt, this`availOut, this`zeros, this`raw, this`availBuf
      modifies nextOut, inflateBuf
      ensures Valid() && r in {0, -2}
      ensures outAt >= old(outAt) && availOut == old(availOut) - (outAt - old(outAt))
      ensures Written() + Pending(more) == old(Written() + Pending(more))
      ensures availOut > 0 ==> Pending([]) == []
      ensures r == -2 <==> availOut > 0 && (availIn > 0 || raw > 0)
    {
      hide Unpack, Written;
      while availOut != 0
        invariant Valid() && outAt >= old(outAt) && availOut == old(availOut) - (outAt - old(outAt))
        invariant Written() + Pending(more) == old(Written() + Pending(more))
        decreases availIn + availOut
      {
        FlushBuf(more);
        if availOut == 0 { return 0; }
        if zeros > 0 {
          InflateZeros(more);
        } else if raw > 0 {
          if availIn == 0 { NothingYet(); return CAPN_NEED_MORE; }
          InflateRaw(more);
        } else {
          if availIn == 0 { NothingYet(); return 0; }
          if availIn < 2 { NothingYet(); return CAPN_NEED_MORE; }
          var ok := ReadGroup(more);
          if !ok { NoMore(); return CAPN_NEED_MORE; }
        }
      }
      r := 0;
    }

    lemma NothingYet()
      requires Valid() && availBuf == 0 && zeros == 0 && availIn < (if raw > 0 then 1 else 2)
      ensures Pending([]) == []
    {
      assert Input() + [] == Input();
    }

    lemma NoMore()
      requires Valid() && availBuf == 0 && zeros == 0 && raw == 0 && Unpack(0, Input()) == []
      ensures Pending([]) == []
    {
      assert Input() + [] == Input();
    }

    lemma InputLength()
      requires Valid()
      ensures |Input()| == availIn
    {
    }

    predicate IsZeroWord(i: nat)
      requires Valid() && 8 * i + 8 <= availIn
      reads this, nextIn
      ensures IsZeroWord(i) <==> ZeroWord(Input(), i)
    {
      assert Input()[8 * i..8 * i + 8] == nextIn[inAt + 8 * i..inAt + 8 * i + 8];
      ZeroWordSlice(Input(), i);
      nextIn[inAt + 8 * i..inAt + 8 * i + 8] == [0, 0, 0, 0, 0, 0, 0, 0]
    }
  }

  lemma FlushLaw(w: seq<byte>, b: seq<byte>, n: nat, rest: seq<byte>)
    requires n <= |b|
    ensures (w + b[..n]) + (b[n..] + rest) == w + (b + rest)
  {
    assert b == b[..n] + b[n..];
  }

  lemma ZerosLaw(w: seq<byte>, n: nat, m: nat, rest: seq<byte>)
    requires n <= m
    ensures (w + Zeros(n)) + ([] + Zeros(m - n) + rest) == w + ([] + Zeros(m) + rest)
  {
    assert Zeros(m) == Zeros(n) + Zeros(m - n);
  }

  lemma NoPrefix(u: seq<byte>)
    ensures [] + [] + u == u
  {
  }

  /** What reading one complete group does to the pending bytes. */
  lemma GroupLaws(s: seq<byte>, more: seq<byte>)
    requires |s| >= 2
    ensures s[0] == 0xFF ==> if |s| < 10 then Unpack(0, s) == [] else
      Unpack(0, s + more) == s[1..9] + Unpack(8 * (s[9] as int), s[10..] + more)
    ensures s[0] == 0 ==> Unpack(0, s + more) == Zeros(8 * (s[1] as int + 1)) + Unpack(0, s[2..] + more)
    ensures s[0] != 0xFF && s[0] != 0 ==> var sz := Ones(s[0], 8);
      if |s| < 1 + sz then Unpack(0, s) == [] else
      Unpack(0, s + more) == Spread(s[0], 8, s[1..1 + sz]) + Unpack(0, s[1 + sz..] + more)
  {
    hide Spread, Ones, Zeros;
    var p := s + more;
    assert p[0] == s[0] && p[1] == s[1] && p[2..] == s[2..] + more;
    if |s| >= 10 { assert p[1..9] == s[1..9] && p[9] == s[9] && p[10..] == s[10..] + more; }
    var sz := Ones(s[0], 8);
    if |s| >= 1 + sz { assert p[1..1 + sz] == s[1..1 + sz] && p[1 + sz..] == s[1 + sz..] + more; }
  }

  lemma PutEnd(b: seq<byte>, off: nat, m: seq<byte>)
    requires off + |m| <= |b|
    ensures PutAt(b, off, m)[..off + |m|] == b[..off] + m
  {
  }

  lemma WordsLeft(m: nat, n: nat)
    requires m % 8 == 0 && 8 * n <= m
    ensures (m - 8 * n) % 8 == 0
  {
  }

  lemma BehindTag(s: seq<byte>, n: nat)
    requires |s| >= 1 + n
    ensures s[1..][..n] == s[1..1 + n] && s[1..][n..] == s[1 + n..]
  {
  }

  lemma SpreadStep(got: seq<byte>, x: byte, rest: seq<byte>)
    ensures got + ([x] + rest) == (got + [x]) + rest
  {
  }

  lemma JoinFive(a: seq<byte>, b: seq<byte>, c: seq<byte>, d: seq<byte>, e: seq<byte>)
    ensures a + b + c + d + e == a + (b + c + d + e)
  {
  }

  lemma ZeroGroupWords(s: seq<byte>)
    requires 8 <= |s| && |s| % 8 == 0 && |NonZero(s[..8])| == 0
    ensures GroupWords(s) == 1 + ZeroRun(s[8..], WordLimit(|s|) - 1)
  {
  }

  lemma FullGroupWords(s: seq<byte>)
    requires 8 <= |s| && |s| % 8 == 0 && |NonZero(s[..8])| == 8
    ensures GroupWords(s) == 1 + FullRun(s[8..], Min(|s| / 8 - 1, 256))
  {
  }

  lemma ZeroWordSlice(s: seq<byte>, i: nat)
    requires 8 * i + 8 <= |s|
    ensures ZeroWord(s, i) <==> s[8 * i..8 * i + 8] == [0, 0, 0, 0, 0, 0, 0, 0]
  {
    var w := s[8 * i..8 * i + 8];
    assert forall k :: 0 <= k < 8 ==> w[k] == s[8 * i + k];
    assert forall k :: 8 * i <= k < 8 * i + 8 ==> s[k] == w[k - 8 * i];
  }

  lemma ShiftZeroWord(s: seq<byte>, i: nat)
    requires 1 <= i && 8 * i + 8 <= |s|
    ensures ZeroWord(s, i) <==> ZeroWord(s[8..], i - 1)
  {
    assert forall k :: 8 * i <= k < 8 * i + 8 ==> s[k] == s[8..][k - 8];
    assert forall k :: 8 * (i - 1) <= k < 8 * (i - 1) + 8 ==> s[8..][k] == s[k + 8];
  }
}
