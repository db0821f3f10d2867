/** Writing a message to memory and reading it back (lib/capnp/capn-malloc.c, unpacked). */
module CapnMalloc {
  import opened Bytes
  import opened CapnWords
  import opened CapnPointer
  import opened CapnMemory
  import opened CapnTree
  import opened CapnSession
  import opened CapnBuilder
  import F = CapnFraming

  /** The contents of the segments. */
  ghost function Segments(mem: Mem): (r: seq<seq<byte>>)
    ensures |r| == |mem| && forall i :: 0 <= i < |mem| ==> r[i] == mem[i].bytes
  {
    seq(|mem|, i requires 0 <= i < |mem| => mem[i].bytes)
  }

  lemma SegmentsSized(mem: Mem)
    requires CapnPointer.Sized(mem)
    ensures F.Sized(Segments(mem))
  {
  }

  /** b with four bytes at off replaced by a number, low byte first. */
  function Put32(b: seq<byte>, off: nat, v: nat): (r: seq<byte>)
    requires off + 4 <= |b| && v < TWO32
    ensures |r| == |b|
  {
    b[..off] + Bytes32(v) + b[off + 4..]
  }

  lemma Put32Parts(b: seq<byte>, off: nat, v: nat)
    requires off + 4 <= |b| && v < TWO32
    ensures var r := Put32(b, off, v);
      r[..off] == b[..off] && r[off..off + 4] == Bytes32(v) && r[off + 4..] == b[off + 4..]
  {
    hide Bytes32;
  }

  method Store32(p: array<byte>, off: nat, v: nat)
    requires off + 4 <= p.Length && v < TWO32
    modifies p
    ensures p[..] == Put32(old(p[..]), off, v)
  {
    var b := Bytes32(v);
    p[off] := b[0];
    p[off + 1] := b[1];
    p[off + 2] := b[2];
    p[off + 3] := b[3];
  }

  /** b starts with a header whose first i sizes are filled in. */
  ghost predicate HeaderSoFar(b: seq<byte>, segs: seq<seq<byte>>, i: nat)
    requires F.Sized(segs) && i <= |segs| && 1 <= |segs| < TWO32
  {
    var n := |segs|;
    && |b| >= F.HeaderSize(n) >= 4 + 4 * n && b[..4] == Bytes32(n - 1) && b[4..4 + 4 * i] == F.Sizes(segs, i)
    && b[4 + 4 * n..F.HeaderSize(n)] == F.Padding(n)
  }

  lemma HeaderStart(b: seq<byte>, segs: seq<seq<byte>>)
    requires F.Sized(segs) && 1 <= |segs| < TWO32 && |b| >= F.HeaderSize(|segs|)
    requires b[..4] == Bytes32(|segs| - 1)
    requires b[4 + 4 * |segs|..F.HeaderSize(|segs|)] == F.Padding(|segs|)
    ensures HeaderSoFar(b, segs, 0)
  {
    hide F.HeaderSize, Bytes32, F.Sized;
  }

  /** For an even number of segments the zero in the last place is padding. */
  lemma PaddingStored(b: seq<byte>, n: nat, h: nat)
    requires h == F.HeaderSize(n) && h <= |b|
    requires b[h - 4..h] == [0, 0, 0, 0]
    ensures b[4 + 4 * n..h] == F.Padding(n)
  {
    hide F.HeaderSize;
    F.HeaderSizes(n);
  }

  lemma ZeroBytes()
    ensures Bytes32(0) == [0, 0, 0, 0]
  {
  }

  lemma HeaderStep(b: seq<byte>, segs: seq<seq<byte>>, i: nat)
    requires F.Sized(segs) && i < |segs| < TWO32 && HeaderSoFar(b, segs, i)
    ensures HeaderSoFar(Put32(b, 4 + 4 * i, |segs[i]| / 8), segs, i + 1)
  {
    hide Bytes32, F.Padding, Put32, F.HeaderSize;
    var n, off := |segs|, 4 + 4 * i;
    var r := Put32(b, off, |segs[i]| / 8);
    Put32Parts(b, off, |segs[i]| / 8);
    assert r[..4] == r[..off][..4] && b[..4] == b[..off][..4];
    assert r[4..off] == r[..off][4..off] && b[4..off] == b[..off][4..off];
    assert r[4..off + 4] == r[4..off] + r[off..off + 4];
    TailSlice(r, b, off + 4, 4 + 4 * n, F.HeaderSize(n));
  }

  lemma TailSlice(a: seq<byte>, b: seq<byte>, at: nat, x: nat, y: nat)
    requires |a| == |b| && at <= x <= y <= |a| && a[at..] == b[at..]
    ensures a[x..y] == b[x..y]
  {
    F.Slices(a, at, |a|, x - at, y - at);
    F.Slices(b, at, |b|, x - at, y - at);
  }

  lemma HeaderDone(b: seq<byte>, segs: seq<seq<byte>>)
    requires F.Sized(segs) && 1 <= |segs| < TWO32 && HeaderSoFar(b, segs, |segs|)
    ensures b[..F.HeaderSize(|segs|)] == F.Header(segs)
  {
    hide Bytes32, F.Padding, F.Sizes;
    var n := |segs|;
    assert b[..F.HeaderSize(n)] == b[..4] + b[4..4 + 4 * n] + b[4 + 4 * n..F.HeaderSize(n)];
  }

  /** The count, and a zero in the last place. */
  method HeaderBegin(p: array<byte>, n: nat, ghost segs: seq<seq<byte>>)
    requires F.Sized(segs) && 1 <= n == |segs| < TWO32 && p.Length >= F.HeaderSize(n)
    modifies p
    ensures HeaderSoFar(p[..], segs, 0)
  {
    hide *;
    HeaderBegun(p[..], segs, F.HeaderSize(n));
    Store32(p, 0, n - 1);
    Store32(p, F.HeaderSize(n) - 4, 0);
  }

  lemma Prefix(a: seq<byte>, r: seq<byte>, n: nat)
    requires 4 <= n <= |a| && |a| == |r| && a[..n] == r[..n]
    ensures r[..4] == a[..4] == a[0..4] == a[0..0 + 4]
  {
    assert r[..4] == r[..n][..4] && a[..4] == a[..n][..4];
  }

  lemma HeaderBegun(b: seq<byte>, segs: seq<seq<byte>>, h: nat)
    requires F.Sized(segs) && 1 <= |segs| < TWO32 && h == F.HeaderSize(|segs|) <= |b|
    ensures HeaderSoFar(Put32(Put32(b, 0, |segs| - 1), h - 4, 0), segs, 0)
  {
    hide *;
    var n := |segs|;
    var a := Put32(b, 0, n - 1);
    var r := Put32(a, h - 4, 0);
    Put32Parts(b, 0, n - 1);
    Put32Parts(a, h - 4, 0);
    ZeroBytes();
    Prefix(a, r, h - 4);
    PaddingStored(r, n, h);
    HeaderStart(r, segs);
  }

  /** header_render: the header of the segments from seg on; the bytes they hold, or None. */
  method HeaderRender(c: Capn, seg0: Segment?, p: array<byte>) returns (datasz: Option<nat>)
    requires Ready(c) && 1 <= |c.segs| && p !in Arrays(c.segs) && p.Length >= F.HeaderSize(|c.segs|)
    requires (seg0 == null || seg0 == c.segs[0]) && F.Sized(Segments(MemOf(c))) && |MemOf(c)| == |c.segs| < TWO32
    modifies p
    ensures Ready(c) && MemOf(c) == old(MemOf(c))
    ensures seg0 != null ==> p[..F.HeaderSize(|c.segs|)] == F.Header(Segments(MemOf(c)))
    ensures datasz == if seg0 == null then None else Some(F.Total(Segments(MemOf(c)), |c.segs|))
  {
    hide Ready, MemOf, Bytes32, HeaderSoFar, F.Padding, F.Header, F.Sized, F.HeaderSize, Put32;
    SegmentFacts(c, c.segs[0]);
    ghost var segs, n := Segments(MemOf(c)), |c.segs|;
    HeaderBegin(p, c.segnum, segs);
    var seg, i, total := seg0, 0, 0;
    while i < c.segnum
      invariant i <= n == c.segnum
      invariant (if seg0 == null then seg == null && i == 0 else seg == if i < n then c.segs[i] else null)
      invariant Ready(c) && MemOf(c) == old(MemOf(c)) && HeaderSoFar(p[..], segs, i) && total == F.Total(segs, i)
    {
      if seg == null { return None; }
      SegmentFacts(c, seg);
      NextInList(c, i);
      total := total + seg.len;
      HeaderStep(p[..], segs, i);
      Store32(p, 4 + 4 * i, seg.len / 8);
      seg, i := seg.next, i + 1;
    }
    if seg != null { return None; }
    HeaderDone(p[..], segs);
    datasz := Some(total);
  }

  // ---------------------------------------------------------------- capn_write_mem

  /** memcpy of a segment's allocated bytes to p at off. */
  method CopyOut(s: Segment, p: array<byte>, off: nat)
    requires s.len <= s.data.Length && off + s.len <= p.Length && p != s.data
    modifies p
    ensures p[..] == PutAt(old(p[..]), off, s.data[..s.len])
  {
    forall k | 0 <= k < s.len { p[off + k] := s.data[k]; }
  }

  /** b is `was` but for the contents of the first i segments at h. */
  ghost predicate BodySoFar(b: seq<byte>, was: seq<byte>, h: nat, segs: seq<seq<byte>>, i: nat)
    requires i <= |segs|
  {
    var at := h + F.Total(segs, i);
    && |b| == |was| && at <= |b|
    && b[..h] == was[..h] && b[h..at] == F.Body(segs, i) && b[at..] == was[at..]
  }

  lemma CopiedOne(b: seq<byte>, was: seq<byte>, h: nat, segs: seq<seq<byte>>, i: nat)
    requires i < |segs| && BodySoFar(b, was, h, segs, i) && h + F.Total(segs, i) + |segs[i]| <= |b|
    ensures BodySoFar(PutAt(b, h + F.Total(segs, i), segs[i]), was, h, segs, i + 1)
  {
    var o := h + F.Total(segs, i);
    var e := o + |segs[i]|;
    var r := PutAt(b, o, segs[i]);
    assert r[..h] == b[..h] && r[h..o] == b[h..o] && r[o..e] == segs[i];
    assert r[h..e] == r[h..o] + r[o..e];
    assert r[e..] == b[e..] == b[o..][e - o..] == was[o..][e - o..] == was[e..];
  }

  /** Copies the contents of all segments behind the header of size h. */
  method WriteBody(c: Capn, seg0: Segment?, p: array<byte>, h: nat)
    requires Ready(c) && 1 <= |c.segs| == |MemOf(c)| && p !in Arrays(c.segs) && seg0 == c.segs[0]
    requires h + F.Total(Segments(MemOf(c)), |c.segs|) <= p.Length
    modifies p
    ensures Ready(c) && MemOf(c) == old(MemOf(c))
    ensures BodySoFar(p[..], old(p[..]), h, Segments(MemOf(c)), |c.segs|)
  {
    hide Ready, MemOf, PutAt, BodySoFar, F.Total;
    ghost var segs, n, i := Segments(MemOf(c)), |c.segs|, 0;
    var seg, at := seg0, h;
    BodyEmpty(p[..], h, segs);
    while seg != null
      invariant i <= n && seg == if i < n then c.segs[i] else null
      invariant Ready(c) && MemOf(c) == old(MemOf(c)) && at == h + F.Total(segs, i)
      invariant BodySoFar(p[..], old(p[..]), h, segs, i)
      decreases n - i
    {
      SegmentFacts(c, seg);
      NextInList(c, i);
      F.BodyAt(segs, n, i);
      CopiedOne(p[..], old(p[..]), h, segs, i);
      SegmentBytes(c, seg);
      CopyOut(seg, p, at);
      at := at + seg.len;
      seg := seg.next;
      i := i + 1;
    }
  }

  lemma BodyEmpty(b: seq<byte>, h: nat, segs: seq<seq<byte>>)
    requires h <= |b|
    ensures BodySoFar(b, b, h, segs, 0) && F.Total(segs, 0) == 0
  {
  }

  lemma SegmentBytes(c: Capn, s: Segment)
    requires Ready(c) && s in c.segs
    ensures s.id < |MemOf(c)| && s.len <= s.data.Length && MemOf(c)[s.id].bytes == s.data[..s.len]
  {
  }

  lemma FrameSize(mem: Mem)
    requires WellFormed(mem) && |mem| >= 1
    ensures F.Sized(Segments(mem))
    ensures |F.Frame(Segments(mem))| == F.HeaderSize(|mem|) + F.Total(Segments(mem), |mem|)
  {
    SegmentsSized(mem);
  }

  lemma FrameDone(a: seq<byte>, b: seq<byte>, segs: seq<seq<byte>>)
    requires F.Sized(segs) && 1 <= |segs| < TWO32
    requires var h := F.HeaderSize(|segs|); h <= |a| && a[..h] == F.Header(segs) && BodySoFar(b, a, h, segs, |segs|)
    ensures var n := |F.Frame(segs)|; n <= |b| && b[..n] == F.Frame(segs) && b[n..] == a[n..]
  {
    hide F.Header, F.Body, F.Total, F.Sized, F.HeaderSize;
    var h, e := F.HeaderSize(|segs|), F.HeaderSize(|segs|) + F.Total(segs, |segs|);
    assert b[..e] == b[..h] + b[h..e];
  }

  /**
    capn_write_mem: the framed message at the start of p and its length, or -1 if there is no
    message, its first segment has no room for a root, or p is too small.  The root slot is
    allocated if it was not there.
   */
  method WriteMem(c: Capn, p: array<byte>) returns (r: int)
    requires Ready(c) && |c.segs| + 1 < TWO32 && p !in Arrays(c.segs)
    modifies c, c.segs`next, c.segs`link, c.segs`parent, c.segs`red, c.segs`len, p
    ensures Ready(c) && Extends(old(MemOf(c)), MemOf(c)) && |MemOf(c)| == |old(c.segs)|
    ensures F.Sized(Segments(MemOf(c))) && |MemOf(c)| < TWO32
    ensures |MemOf(c)| == 0 ==> r == -1
    ensures |MemOf(c)| > 0 ==>
      r == if MemOf(c)[0].cap < 8 || |F.Frame(Segments(MemOf(c)))| > p.Length then -1 else |F.Frame(Segments(MemOf(c)))|
    ensures r >= 0 ==> |MemOf(c)| > 0 && r <= p.Length && p[..r] == F.Frame(Segments(MemOf(c)))
  {
    hide Ready, MemOf, BodySoFar, F.Header, F.Frame, F.HeaderSize, F.Sized, F.Total, Segments;
    MemFacts(c);
    if c.segnum == 0 { return -1; }
    var root := CapnBuilder.Root(c);
    MemFacts(c);
    FrameSize(MemOf(c));
    var headersz := F.HeaderSize(c.segnum);
    if p.Length < headersz { return -1; }
    var datasz := HeaderRender(c, root.seg, p);
    if datasz.None? { return -1; }
    if p.Length < headersz + datasz.value { return -1; }
    ghost var a := p[..];
    WriteBody(c, root.seg, p, headersz);
    FrameDone(a, p[..], Segments(MemOf(c)));
    return headersz + datasz.value;
  }

  lemma MemFacts(c: Capn)
    requires Ready(c)
    ensures WellFormed(MemOf(c)) && |MemOf(c)| == |c.segs| == c.segnum && F.Sized(Segments(MemOf(c)))
  {
    hide Segments;
    SegmentsSized(MemOf(c));
  }

  // ---------------------------------------------------------------- capn_init_mem

  /** The header words, in bytes per segment, and their sum; false if they do not fit 32 bits. */
  method ReadSizes(p: array<byte>, segnum: nat, hdr: array<nat>) returns (ok: bool, total: nat)
    requires 4 + 4 * segnum <= p.Length && segnum <= hdr.Length
    modifies hdr
    ensures ok == F.Announced(p[..], segnum).Some?
    ensures ok ==> Some(total) == F.Announced(p[..], segnum)
    ensures ok ==> forall j :: 0 <= j < segnum ==> hdr[j] == 8 * F.Num(p[..], 4 + 4 * j)
  {
    hide F.Num;
    total := 0;
    for i := 0 to segnum
      invariant Some(total) == F.Announced(p[..], i)
      invariant forall j :: 0 <= j < i ==> hdr[j] == 8 * F.Num(p[..], 4 + 4 * j)
    {
      var n := F.Num(p[..], 4 + 4 * i);
      if n > F.MAX_WORDS || F.MAX32 - total < n * 8 {
        F.AnnouncedNone(p[..], i + 1, segnum);
        return false, 0;
      }
      hdr[i] := n * 8;
      total := total + hdr[i];
    }
    ok := true;
  }

  lemma BuffersLoaded(segs: seq<Segment>, s: Segment)
    requires Buffers(segs) && s.data !in Arrays(segs) && s !in segs
    requires s.len == s.data.Length < 0x8000_0000 && s.len % 8 == 0
    ensures Buffers(segs + [s]) && Contents(segs + [s]) == Contents(segs) + [Seg(s.data[..], s.data.Length)]
  {
    assert forall i :: 0 <= i < |segs| ==> segs[i].data in Arrays(segs);
    assert s.data[..s.len] == s.data[..];
    assert (segs + [s])[..|segs|] == segs;
  }

  /** A segment with n bytes of p. */
  method LoadSegment(p: array<byte>, off: nat, n: nat) returns (s: Segment)
    requires off + n <= p.Length
    ensures fresh(s) && fresh(s.data) && s.data[..] == p[off..off + n]
  {
    s := new Segment(n);
    forall k | 0 <= k < n { s.data[k] := p[off + k]; }
  }

  /** Appends a segment whose whole buffer is in use. */
  method AppendLoaded(c: Capn, s: Segment)
    requires Ready(c) && |c.segs| + 1 < TWO32 && s !in c.segs && s.data !in Arrays(c.segs)
    requires s.data.Length < 0x8000_0000 && s.data.Length % 8 == 0
    modifies c, c.segs`next, c.segs`link, c.segs`parent, c.segs`red, s
    ensures Ready(c) && c.segs == old(c.segs) + [s]
    ensures MemOf(c) == old(MemOf(c)) + [Seg(s.data[..], s.data.Length)]
  {
    hide Capn.Valid;
    ghost var segs, mem := c.segs, Contents(c.segs);
    s.len := s.data.Length;
    c.AppendSegment(s);
    MemIs(segs, mem);
    BuffersLoaded(segs, s);
  }

  /** The segments of a message of n segments, all full. */
  ghost predicate Loaded(mem: Mem, segs: seq<seq<byte>>) {
    |mem| == |segs| && forall i :: 0 <= i < |mem| ==> mem[i] == Seg(segs[i], |segs[i]|)
  }

  /** Segments with the given contents, full, and not sharing buffers. */
  ghost predicate Holding(all: seq<Segment>, cut: seq<seq<byte>>)
    reads Arrays(all)
  {
    && |all| == |cut|
    && (forall j :: 0 <= j < |all| ==> all[j].data[..] == cut[j])
    && (forall j, k :: 0 <= j < k < |all| ==> all[j] != all[k] && all[j].data != all[k].data)
  }

  /** The segments of p, all read, before they are appended. */
  method LoadSegments(p: array<byte>, at: nat, segnum: nat, hdr: array<nat>) returns (all: seq<Segment>)
    requires 4 + 4 * segnum <= p.Length && segnum <= hdr.Length
    requires F.Announced(p[..], segnum).Some? && at + F.Announced(p[..], segnum).value <= p.Length
    requires forall j :: 0 <= j < segnum ==> hdr[j] == 8 * F.Num(p[..], 4 + 4 * j)
    ensures |all| == segnum && fresh(all) && fresh(Arrays(all)) && Holding(all, F.Cut(p[..], at, segnum))
    ensures Words(F.Cut(p[..], at, segnum))
  {
    hide F.Num, Holding, F.Cut, F.Announced, Arrays;
    all := [];
    var data := at;
    CutStart(p[..], at);
    for i := 0 to segnum
      invariant |all| == i && fresh(all) && fresh(Arrays(all))
      invariant F.Announced(p[..], i).Some? && data == at + F.Announced(p[..], i).value <= p.Length
      invariant Holding(all, F.Cut(p[..], at, i))
      invariant Words(F.Cut(p[..], at, i))
    {
      CutNext(p[..], at, i, segnum);
      all := LoadNext(all, p, data, hdr[i], F.Cut(p[..], at, i));
      data := data + hdr[i];
    }
  }

  /** Contents that a segment can have. */
  ghost predicate Words(cut: seq<seq<byte>>) { forall s :: s in cut ==> |s| % 8 == 0 && |s| < 0x8000_0000 }

  lemma CutStart(b: seq<byte>, at: nat)
    requires 4 <= |b| && at <= |b|
    ensures F.Announced(b, 0) == Some(0) && Holding([], F.Cut(b, at, 0)) && Words(F.Cut(b, at, 0)) && Arrays([]) == {}
  {
  }

  lemma CutNext(b: seq<byte>, at: nat, i: nat, n: nat)
    requires i < n && 4 + 4 * n <= |b| && F.Announced(b, n).Some? && at + F.Announced(b, n).value <= |b|
    requires F.Announced(b, i).Some? && at + F.Announced(b, i).value <= |b|
    ensures var w, t := 8 * F.Num(b, 4 + 4 * i), at + F.Announced(b, i).value;
      && F.Announced(b, i + 1) == Some(F.Announced(b, i).value + w) && t + w <= |b|
      && F.Cut(b, at, i + 1) == F.Cut(b, at, i) + [b[t..t + w]] && w % 8 == 0 && w < 0x8000_0000
      && (Words(F.Cut(b, at, i)) ==> Words(F.Cut(b, at, i + 1)))
  {
    hide F.Num;
    F.AnnouncedGrows(b, i, n);
    F.AnnouncedGrows(b, i + 1, n);
  }

  method LoadNext(all: seq<Segment>, p: array<byte>, off: nat, n: nat, ghost cut: seq<seq<byte>>)
    returns (more: seq<Segment>)
    requires off + n <= p.Length && Holding(all, cut)
    ensures |more| == |all| + 1 && more[..|all|] == all && fresh(more[|all|])
    ensures Arrays(more) == Arrays(all) + {more[|all|].data} && fresh(more[|all|].data)
    ensures Holding(more, cut + [p[off..off + n]])
  {
    var s := LoadSegment(p, off, n);
    assert s !in all && s.data !in Arrays(all);
    more := all + [s];
  }

  /** Appends loaded segments to an empty message. */
  method AppendAll(c: Capn, all: seq<Segment>, ghost cut: seq<seq<byte>>)
    requires Ready(c) && MemOf(c) == [] && c.segs == [] && |all| < TWO32 && Holding(all, cut)
    requires Words(cut)
    modifies c, all
    ensures Ready(c) && Loaded(MemOf(c), cut)
  {
    hide Ready, MemOf, Holding;
    HoldingParts(all, cut);
    assert all[..0] == [] && cut[..0] == [];
    for i := 0 to |all|
      invariant Ready(c) && c.segs == all[..i] && Loaded(MemOf(c), cut[..i]) && Holding(all, cut)
    {
      AppendNext(c, all, i, cut);
    }
    assert all[..|all|] == all && cut[..|cut|] == cut;
  }

  lemma HoldingParts(all: seq<Segment>, cut: seq<seq<byte>>)
    requires Holding(all, cut)
    ensures |all| == |cut|
  {
  }

  lemma Snoc<T>(q: seq<T>, i: nat)
    requires i < |q|
    ensures q[..i] + [q[i]] == q[..i + 1]
  {
  }

  method AppendNext(c: Capn, all: seq<Segment>, i: nat, ghost cut: seq<seq<byte>>)
    requires Ready(c) && i < |all| < TWO32 && c.segs == all[..i] && Holding(all, cut) && Loaded(MemOf(c), cut[..i])
    requires Words(cut)
    modifies c, all
    ensures Ready(c) && c.segs == all[..i + 1] && Holding(all, cut) && Loaded(MemOf(c), cut[..i + 1])
  {
    hide Ready, MemOf;
    assert all[i].data[..] == cut[i] && cut[i] in cut;
    assert all[i] !in all[..i] && all[i].data !in Arrays(all[..i]);
    AppendLoaded(c, all[i]);
    Snoc(all, i);
    Snoc(cut, i);
  }

  lemma EmptyReady(c: Capn)
    requires c.Valid() && c.segs == []
    ensures Ready(c) && MemOf(c) == []
  {
  }

  /**
    capn_init_mem: a message with the segments that p frames, or null if p is too short or
    announces too much.  `overrun` when the header does not fit the buffer it is copied to, where
    the model stops.
   */
  method InitMem(p: array<byte>) returns (c: Capn?, overrun: bool)
    ensures overrun == F.Parse(p[..]).Overrun?
    ensures match F.Parse(p[..])
      case Parsed(segs) => c != null && fresh(c) && Ready(c) && Loaded(MemOf(c), segs)
      case Failed => c == null
      case Overrun => c == null
  {
    hide Ready, MemOf, F.Num, Loaded, F.Cut, Holding;
    if p.Length < 4 { return null, false; }
    var segnum := F.Num(p[..], 0);
    if segnum > 1023 { return null, false; }
    segnum := segnum + 1;
    if p.Length < F.HeaderSize(segnum) { return null, false; }
    var hdr := new nat[1024];
    if F.HeaderSize(segnum) - 4 > 4 * hdr.Length { return null, true; }
    var ok, total := ReadSizes(p, segnum, hdr);
    if !ok { return null, false; }
    if p.Length < F.HeaderSize(segnum) + total { return null, false; }
    var all := LoadSegments(p, F.HeaderSize(segnum), segnum, hdr);
    c := new Capn();
    overrun := false;
    EmptyReady(c);
    AppendAll(c, all, F.Cut(p[..], F.HeaderSize(segnum), segnum));
  }

  /**
    What WriteMem leaves at the start of p, InitMem reads: exactly for fewer than 1024 segments of
    32-bit size in all.
   */
  lemma WrittenIsRead(mem: Mem, b: seq<byte>, r: nat)
    requires WellFormed(mem) && |mem| >= 1 && F.Sized(Segments(mem)) && r <= |b| && b[..r] == F.Frame(Segments(mem))
    ensures F.Parse(b) == F.Parsed(Segments(mem)) <==> |mem| < 1024 && F.Total(Segments(mem), |mem|) <= 0xFFFF_FFFF
  {
    hide F.Parse, F.Frame, F.Total, F.Sized;
    F.FrameThenParse(Segments(mem), b[r..]);
    assert b == b[..r] + b[r..];
  }
}
