/** The stream framing of a message (lib/capnp/capn-malloc.c, unpacked). */
module CapnFraming {
  import opened Bytes
  import opened CapnWords

  const MAX32: int := 0xFFFF_FFFF
  const MAX_WORDS: int := 0xFFF_FFFF // INT_MAX / 8

  /** Segments of whole words that a C int can measure. */
  ghost predicate Sized(segs: seq<seq<byte>>) {
    forall i :: 0 <= i < |segs| ==> |segs[i]| % 8 == 0 && |segs[i]| < 0x8000_0000
  }

  /** The sizes in words of the first n segments. */
  ghost function Sizes(segs: seq<seq<byte>>, n: nat): (r: seq<byte>)
    requires Sized(segs) && n <= |segs|
    ensures |r| == 4 * n
  {
    if n == 0 then [] else Sizes(segs, n - 1) + Bytes32(|segs[n - 1]| / 8)
  }

  function Total(segs: seq<seq<byte>>, n: nat): (r: nat)
    requires n <= |segs|
  {
    if n == 0 then 0 else Total(segs, n - 1) + |segs[n - 1]|
  }

  function Body(segs: seq<seq<byte>>, n: nat): (r: seq<byte>)
    requires n <= |segs|
    ensures |r| == Total(segs, n)
  {
    if n == 0 then [] else Body(segs, n - 1) + segs[n - 1]
  }

  function HeaderSize(n: nat): (r: nat)
    ensures r >= 4 + 4 * n
  {
    4 * ((2 + n) / 2 * 2)
  }

  lemma HeaderSizes(n: nat)
    ensures HeaderSize(n) == if n % 2 == 0 then 8 + 4 * n else 4 + 4 * n
  {
  }

  function Padding(n: nat): (r: seq<byte>) {
    if n % 2 == 0 then [0, 0, 0, 0] else []
  }

  ghost function Header(segs: seq<seq<byte>>): (r: seq<byte>)
    requires Sized(segs) && 1 <= |segs| < TWO32
    ensures |r| == HeaderSize(|segs|)
  {
    HeaderSizes(|segs|);
    Bytes32(|segs| - 1) + Sizes(segs, |segs|) + Padding(|segs|)
  }

  /** The framed message. */
  ghost function Frame(segs: seq<seq<byte>>): (r: seq<byte>)
    requires Sized(segs) && 1 <= |segs| < TWO32
  {
    Header(segs) + Body(segs, |segs|)
  }

  // ---------------------------------------------------------------- reading

  /** Overrun: the header's padding would be stored past the 1024 words kept for it. */
  datatype Result = Parsed(segs: seq<seq<byte>>) | Failed | Overrun

  function Num(b: seq<byte>, off: nat): (r: nat)
    requires off + 4 <= |b|
    ensures r < TWO32
  {
    LE32(b[off], b[off + 1], b[off + 2], b[off + 3])
  }

  /** The bytes of the segments before the n-th by the header b, if they are small enough. */
  function Announced(b: seq<byte>, n: nat): (r: Option<nat>)
    requires 4 + 4 * n <= |b|
  {
    if n == 0 then Some(0)
    else match Announced(b, n - 1)
      case None => None
      case Some(total) =>
        var w := Num(b, 4 * n);
        if w > MAX_WORDS || MAX32 - total < 8 * w then None else Some(total + 8 * w)
  }

  /** The contents of the first n segments, which start at offset `at`. */
  function Cut(b: seq<byte>, at: nat, n: nat): (r: seq<seq<byte>>)
    requires 4 + 4 * n <= |b| && Announced(b, n).Some? && at + Announced(b, n).value <= |b|
    ensures |r| == n
  {
    if n == 0 then [] else
      Cut(b, at, n - 1) + [b[at + Announced(b, n - 1).value..at + Announced(b, n).value]]
  }

  function Parse(b: seq<byte>): (r: Result) {
    if |b| < 4 || Num(b, 0) > 1023 then Failed
    else
      var n := Num(b, 0) + 1;
      if |b| < HeaderSize(n) then Failed
      else if n == 1024 then Overrun
      else
        match Announced(b, n)
        case None => Failed
        case Some(total) => if |b| < HeaderSize(n) + total then Failed else Parsed(Cut(b, HeaderSize(n), n))
  }

  /** A prefix of the sizes that does not fit spoils the whole. */
  lemma {:induction false} AnnouncedNone(b: seq<byte>, i: nat, n: nat)
    requires i <= n && 4 + 4 * n <= |b| && Announced(b, i).None?
    ensures Announced(b, n).None?
  {
    if i < n { AnnouncedNone(b, i, n - 1); }
  }

  lemma {:induction false} AnnouncedGrows(b: seq<byte>, i: nat, n: nat)
    requires i <= n && 4 + 4 * n <= |b| && Announced(b, n).Some?
    ensures Announced(b, i).Some? && Announced(b, i).value <= Announced(b, n).value <= MAX32
    ensures i < n ==> Announced(b, i + 1) == Some(Announced(b, i).value + 8 * Num(b, 4 + 4 * i))
    ensures i < n ==> Num(b, 4 + 4 * i) <= MAX_WORDS
  {
    if i == n {
      if n > 0 { AnnouncedGrows(b, n - 1, n - 1); }
    } else if i < n - 1 {
      AnnouncedGrows(b, i, n - 1);
    }
  }

  /** A segment of more than INT_MAX / 8 words is refused. */
  lemma TooLarge(b: seq<byte>, i: nat, n: nat)
    requires i < n && 4 + 4 * n <= |b| && Num(b, 4 + 4 * i) > 0xFFF_FFFF
    ensures Announced(b, n).None?
  {
    hide Num;
    AnnouncedNone(b, i + 1, n);
  }

  // ---------------------------------------------------------------- round trip

  lemma NumAt(b: seq<byte>, off: nat, v: nat)
    requires v < TWO32 && off + 4 <= |b| && b[off..off + 4] == Bytes32(v)
    ensures Num(b, off) == v
  {
    var m := b[off..off + 4];
    assert m[0] == b[off] && m[1] == b[off + 1] && m[2] == b[off + 2] && m[3] == b[off + 3];
  }

  lemma {:induction false} SizeAt(segs: seq<seq<byte>>, n: nat, i: nat)
    requires Sized(segs) && i < n <= |segs|
    ensures Sizes(segs, n)[4 * i..4 * i + 4] == Bytes32(|segs[i]| / 8)
    decreases n
  {
    if i < n - 1 {
      SizeAt(segs, n - 1, i);
      var s := Sizes(segs, n - 1);
      assert (s + Bytes32(|segs[n - 1]| / 8))[4 * i..4 * i + 4] == s[4 * i..4 * i + 4];
    }
  }

  lemma {:induction false} BodyAt(segs: seq<seq<byte>>, n: nat, i: nat)
    requires i < n <= |segs|
    ensures Total(segs, i) + |segs[i]| == Total(segs, i + 1) <= Total(segs, n)
    ensures Body(segs, n)[Total(segs, i)..Total(segs, i + 1)] == segs[i]
    decreases n
  {
    if i < n - 1 {
      BodyAt(segs, n - 1, i);
      assert Body(segs, n)[Total(segs, i)..Total(segs, i + 1)] == Body(segs, n - 1)[Total(segs, i)..Total(segs, i + 1)];
    }
  }

  lemma {:induction false} TotalWords(segs: seq<seq<byte>>, n: nat)
    requires Sized(segs) && n <= |segs|
    ensures Total(segs, n) % 8 == 0
  {
    if n > 0 { TotalWords(segs, n - 1); }
  }

  /** The numbers of a framed message. */
  lemma FrameNumbers(segs: seq<seq<byte>>, rest: seq<byte>, b: seq<byte>)
    requires Sized(segs) && 1 <= |segs| < TWO32 && b == Frame(segs) + rest
    ensures |b| >= HeaderSize(|segs|) + Total(segs, |segs|) && HeaderSize(|segs|) >= 4 + 4 * |segs|
    ensures Num(b, 0) == |segs| - 1
    ensures forall i :: 0 <= i < |segs| ==> Num(b, 4 + 4 * i) == |segs[i]| / 8
    ensures b[HeaderSize(|segs|)..HeaderSize(|segs|) + Total(segs, |segs|)] == Body(segs, |segs|)
  {
    hide Bytes32, Num, Body, Total, Sizes;
    var n, h, w := |segs|, Header(segs), Sizes(segs, |segs|);
    HeaderParts(segs);
    Within(h, Body(segs, n), rest, b, 0, 4);
    NumAt(b, 0, n - 1);
    forall i | 0 <= i < n ensures Num(b, 4 + 4 * i) == |segs[i]| / 8 {
      SizeAt(segs, n, i);
      Slices(h, 4, 4 + 4 * n, 4 * i, 4 * i + 4);
      Within(h, Body(segs, n), rest, b, 4 + 4 * i, 4 + 4 * i + 4);
      NumAt(b, 4 + 4 * i, |segs[i]| / 8);
    }
  }

  lemma HeaderParts(segs: seq<seq<byte>>)
    requires Sized(segs) && 1 <= |segs| < TWO32
    ensures Header(segs)[0..4] == Bytes32(|segs| - 1) && Header(segs)[4..4 + 4 * |segs|] == Sizes(segs, |segs|)
  {
    hide Bytes32, Sizes;
  }

  lemma Within(h: seq<byte>, body: seq<byte>, rest: seq<byte>, b: seq<byte>, x: nat, y: nat)
    requires b == h + body + rest && x <= y <= |h|
    ensures b[x..y] == h[x..y] && b[|h|..|h| + |body|] == body
  {
  }

  lemma Slices(b: seq<byte>, lo: nat, hi: nat, x: nat, y: nat)
    requires x <= y && lo + y <= hi <= |b|
    ensures b[lo..hi][x..y] == b[lo + x..lo + y]
  {
    var l, r := b[lo..hi][x..y], b[lo + x..lo + y];
    forall k | 0 <= k < |l| ensures l[k] == r[k] {
    }
  }

  /** What the header announces is what the segments hold, as long as it fits 32 bits. */
  lemma {:induction false} AnnouncedIs(segs: seq<seq<byte>>, b: seq<byte>, n: nat)
    requires Sized(segs) && n <= |segs| && 4 + 4 * n <= |b|
    requires forall i :: 0 <= i < n ==> Num(b, 4 + 4 * i) == |segs[i]| / 8
    ensures Announced(b, n) == if Total(segs, n) <= 0xFFFF_FFFF then Some(Total(segs, n)) else None
  {
    if n > 0 {
      AnnouncedIs(segs, b, n - 1);
      assert Num(b, 4 + 4 * (n - 1)) == |segs[n - 1]| / 8;
    }
  }

  lemma {:induction false} CutIs(segs: seq<seq<byte>>, b: seq<byte>, at: nat, n: nat)
    requires Sized(segs) && n <= |segs| && 4 + 4 * |segs| <= |b| && Total(segs, |segs|) <= MAX32
    requires forall i :: 0 <= i < |segs| ==> Num(b, 4 + 4 * i) == |segs[i]| / 8
    requires at + Total(segs, |segs|) <= |b| && b[at..at + Total(segs, |segs|)] == Body(segs, |segs|)
    requires Announced(b, n).Some? && at + Announced(b, n).value <= |b|
    ensures Cut(b, at, n) == segs[..n]
    decreases n
  {
    hide Num, Body, Sized, Announced, Total;
    if n > 0 {
      AnnouncedIs(segs, b, n - 1);
      AnnouncedIs(segs, b, n);
      BodyAt(segs, |segs|, n - 1);
      CutIs(segs, b, at, n - 1);
      var t0, t1 := Total(segs, n - 1), Total(segs, n);
      Slices(b, at, at + Total(segs, |segs|), t0, t1);
      assert segs[..n] == segs[..n - 1] + [segs[n - 1]];
    }
  }

  /**
    Reading back a framed message, whatever follows it, gives its segments exactly when there are
    fewer than 1024 of them and their sizes add up to a 32-bit number.
   */
  lemma FrameThenParse(segs: seq<seq<byte>>, rest: seq<byte>)
    requires Sized(segs) && 1 <= |segs| < TWO32
    ensures Parse(Frame(segs) + rest) == Parsed(segs) <==> |segs| < 1024 && Total(segs, |segs|) <= 0xFFFF_FFFF
    ensures Parse(Frame(segs) + rest) == Overrun <==> |segs| == 1024
  {
    var b, n := Frame(segs) + rest, |segs|;
    FrameNumbers(segs, rest, b);
    if n < 1024 {
      AnnouncedIs(segs, b, n);
      if Total(segs, n) <= MAX32 {
        CutIs(segs, b, HeaderSize(n), n);
        assert segs[..n] == segs;
      }
    }
  }
}
