/** Allocating, writing and reading in the segments of a message (lib/capnp/capn.c). */
module CapnBuilder {
  import opened Bytes
  import opened CapnWords
  import opened CapnPointer
  import opened CapnMemory
  import opened CapnTree
  import opened CapnSession

  ghost function Arrays(segs: seq<Segment>): (r: set<array<byte>>) {
    set s | s in segs :: s.data
  }

  /** Segments with buffers of their own, filled in words, the rest of them zero. */
  ghost predicate Buffers(segs: seq<Segment>)
    reads segs`len, Arrays(segs)
  {
    && (forall i :: 0 <= i < |segs| ==> segs[i].len <= segs[i].data.Length < 0x8000_0000 && segs[i].len % 8 == 0)
    && (forall i, j :: 0 <= i < j < |segs| ==> segs[i].data != segs[j].data)
    && (forall i, k :: 0 <= i < |segs| && segs[i].len <= k < segs[i].data.Length ==> segs[i].data[k] == 0)
  }

  /** The allocated bytes of the segments. */
  ghost function Contents(segs: seq<Segment>): (m: Mem)
    requires Buffers(segs)
    reads segs`len, Arrays(segs)
    ensures |m| == |segs|
    ensures forall i :: 0 <= i < |segs| ==> m[i] == Seg(segs[i].data[..segs[i].len], segs[i].data.Length)
  {
    if segs == [] then [] else
      var n := |segs| - 1;
      assert forall s :: s in segs[..n] ==> s in segs;
      Contents(segs[..n]) + [Seg(segs[n].data[..segs[n].len], segs[n].data.Length)]
  }

  ghost predicate Ready(c: Capn)
    reads c, c.segs`id, c.segs`next, c.segs`capn, c.segs`len, c.segs`parent, c.segs`link, c.segs`red, Arrays(c.segs)
  {
    c.Valid() && Buffers(c.segs) && |c.segs| < TWO32
  }

  /** The allocated bytes of a message. */
  ghost function MemOf(c: Capn): (r: Mem)
    requires Ready(c)
    reads c, c.segs`id, c.segs`next, c.segs`capn, c.segs`len, c.segs`parent, c.segs`link, c.segs`red, Arrays(c.segs)
  {
    Contents(c.segs)
  }

  /** What a segment of the message looks like there. */
  lemma SegmentFacts(c: Capn, s: Segment)
    requires Ready(c) && s in c.segs
    ensures WellFormed(MemOf(c)) && |MemOf(c)| == |c.segs| == c.segnum
    ensures s.id < |c.segs| && c.segs[s.id] == s && s.capn == c
    ensures |MemOf(c)[s.id].bytes| == s.len && MemOf(c)[s.id].cap == s.data.Length && s.len % 8 == 0
    ensures s.len <= s.data.Length < 0x8000_0000
    ensures forall i :: 0 <= i < |c.segs| ==> c.segs[i].id == i
  {
  }

  /** Stores a word: eight bytes, low one first. */
  method Store(s: Segment, off: nat, w: Word)
    requires off + 8 <= s.data.Length && Fits(w)
    modifies s.data
    ensures s.data[..] == PutWord(old(s.data[..]), off, w)
  {
    var lo, hi := Bytes32(w.lo), Bytes32(w.hi);
    s.data[off] := lo[0];
    s.data[off + 1] := lo[1];
    s.data[off + 2] := lo[2];
    s.data[off + 3] := lo[3];
    s.data[off + 4] := hi[0];
    s.data[off + 5] := hi[1];
    s.data[off + 6] := hi[2];
    s.data[off + 7] := hi[3];
  }

  lemma MemIs(segs: seq<Segment>, m: Mem)
    requires Buffers(segs) && |m| == |segs|
    requires forall i :: 0 <= i < |segs| ==>
      m[i].bytes == segs[i].data[..segs[i].len] && m[i].cap == segs[i].data.Length
    ensures Contents(segs) == m
  {
  }

  /** Stores a word in the allocated part of a segment. */
  method StoreAt(c: Capn, s: Segment, off: nat, w: Word)
    requires Ready(c) && s in c.segs && off + 8 <= s.len && Fits(w)
    modifies s.data
    ensures Ready(c) && MemOf(c) == Poke(old(MemOf(c)), s.id, off, w)
  {
    hide WordAt, Bytes32, WordBytes, Index;
    ghost var was, m := s.data[..], Poke(MemOf(c), s.id, off, w);
    Store(s, off, w);
    PutPrefix(was, s.len, off, w);
    assert forall k :: s.len <= k < s.data.Length ==> s.data[k] == s.data[..][k] == was[k];
    MemIs(c.segs, m);
  }

  lemma PutPrefix(b: seq<byte>, n: nat, off: nat, w: Word)
    requires off + 8 <= n <= |b| && Fits(w)
    ensures PutWord(b, off, w)[..n] == PutWord(b[..n], off, w)
  {
  }

  /** Hands out the next n bytes of a segment. */
  method Extend(c: Capn, s: Segment, n: nat)
    requires Ready(c) && s in c.segs && s.len + n <= s.data.Length && n % 8 == 0
    modifies s`len
    ensures Ready(c) && MemOf(c) == Grow(old(MemOf(c)), s.id, n) && s.len == old(s.len) + n
  {
    hide Index;
    ghost var m := Grow(MemOf(c), s.id, n);
    s.len := s.len + n;
    assert s.data[..s.len] == old(s.data[..s.len]) + Zeros(n);
    MemIs(c.segs, m);
  }

  /** new_data: room for sz bytes in the first segment that has it, or in a new one. */
  method NewData(c: Capn, sz: nat) returns (ps: Segment?, off: nat)
    requires Ready(c) && sz % 8 == 0 && sz < 0x7FFF_0000 && |c.segs| + 1 < TWO32
    modifies c, c.segs`next, c.segs`link, c.segs`parent, c.segs`red, c.segs`len
    ensures Ready(c) && old(c.segs) <= c.segs && fresh(c.segs[|old(c.segs)|..])
    ensures match CapnMemory.NewData(old(MemOf(c)), c.creates, sz)
      case Full => ps == null && c.segs == old(c.segs) && MemOf(c) == old(MemOf(c))
      case Allocated(m, i, o) => ps != null && ps in c.segs && ps.id == i && off == o && MemOf(c) == m
    ensures fresh(Arrays(c.segs) - old(Arrays(c.segs)))
  {
    hide Ready, MemOf, Grow;
    var s := c.seglist;
    ghost var mem, i := MemOf(c), 0;
    ListFacts(c);
    while s != null
      invariant i <= |c.segs| && s == if i < |c.segs| then c.segs[i] else null
      invariant Ready(c) && c.segs == old(c.segs) && MemOf(c) == mem
      invariant FirstFit(mem, sz, 0) == FirstFit(mem, sz, i)
      decreases |c.segs| - i
    {
      SegmentFacts(c, s);
      if s.len + sz <= s.data.Length {
        off := s.len;
        Extend(c, s, sz);
        return s, off;
      }
      NextInList(c, i);
      s := s.next;
      i := i + 1;
    }
    if !c.creates { return null, 0; }
    s := AddSegment(c, sz);
    return s, 0;
  }

  /** A new segment that holds sz bytes. */
  method AddSegment(c: Capn, sz: nat) returns (s: Segment)
    requires Ready(c) && sz % 8 == 0 && sz < 0x7FFF_0000 && |c.segs| + 1 < TWO32
    modifies c, c.segs`next, c.segs`link, c.segs`parent, c.segs`red
    ensures Ready(c) && fresh(s) && fresh(s.data) && c.segs == old(c.segs) + [s] && s.id == |c.segs| - 1
    ensures MemOf(c) == old(MemOf(c)) + [Seg(Zeros(sz), CreateCap(sz))]
  {
    hide Capn.Valid, Index, Buffers, Contents, Capn.Listed;
    ghost var segs := c.segs;
    s := LinkNew(c, CreateCap(sz));
    s.len := sz;
    Ids(c);
    assert c.segs[|segs|] == s;
    RoundedUp(sz + 80);
    BuffersMore(segs, s, sz);
  }

  /** An empty segment at the end of the list. */
  method LinkNew(c: Capn, cap: nat) returns (s: Segment)
    requires c.Valid() && Buffers(c.segs)
    modifies c, c.segs`next, c.segs`link, c.segs`parent, c.segs`red
    ensures c.Valid() && fresh(s) && fresh(s.data) && c.segs == old(c.segs) + [s] && s !in old(c.segs)
    ensures s.data !in Arrays(old(c.segs))
    ensures s.len == 0 && s.data.Length == cap && forall k :: 0 <= k < cap ==> s.data[k] == 0
    ensures Buffers(old(c.segs)) && Contents(old(c.segs)) == old(Contents(c.segs))
  {
    hide Capn.Valid, Index, Capn.Listed, InOrder, Buffers, Contents;
    ghost var segs, mem := c.segs, Contents(c.segs);
    s := new Segment(cap);
    assert s !in segs;
    assert s.data !in Arrays(segs);
    assert Buffers(segs) && Contents(segs) == mem;
    c.AppendSegment(s);
    assert Buffers(segs) && Contents(segs) == mem;
    assert s.data.Length == cap && forall k :: 0 <= k < cap ==> s.data[k] == 0;
  }

  lemma ListFacts(c: Capn)
    requires Ready(c)
    ensures c.seglist == if c.segs == [] then null else c.segs[0]
    ensures forall i :: 0 <= i < |c.segs| ==> c.segs[i].id == i
    ensures |MemOf(c)| == |c.segs|
  {
  }

  lemma NextInList(c: Capn, i: nat)
    requires Ready(c) && i < |c.segs|
    ensures c.segs[i].next == if i + 1 < |c.segs| then c.segs[i + 1] else null
  {
  }

  lemma Ids(c: Capn)
    requires c.Valid()
    ensures forall i :: 0 <= i < |c.segs| ==> c.segs[i].id == i && c.segs[i].capn == c
    ensures c.segnum == |c.segs|
  {
  }

  lemma BuffersMore(segs: seq<Segment>, s: Segment, sz: nat)
    requires Buffers(segs) && s.data !in Arrays(segs) && s !in segs && s.len == sz && sz % 8 == 0
    requires sz <= s.data.Length < 0x8000_0000
    requires forall k :: 0 <= k < s.data.Length ==> s.data[k] == 0
    ensures Buffers(segs + [s]) && Contents(segs + [s]) == Contents(segs) + [Seg(Zeros(sz), s.data.Length)]
  {
    assert forall i :: 0 <= i < |segs| ==> segs[i].data in Arrays(segs);
    assert s.data[..sz] == Zeros(sz);
    assert (segs + [s])[..|segs|] == segs;
  }

  // ---------------------------------------------------------------- pointers

  const NEED_TO_COPY := 1

  /** p with its segment's number; a segment of no or another message counts as none of c's. */
  function Abs(c: Capn, p: Ptr<Segment?>): (r: Ptr<nat>)
    reads c`segnum, p.seg, c
  {
    var i := if p.seg == null || p.seg.capn != c then c.segnum else p.seg.id;
    Numbered(p, i)
  }

  function Numbered(p: Ptr<Segment?>, i: nat): (r: Ptr<nat>) {
    Ptr(p.kind, p.hasTag, p.member, p.composite, p.datasz, p.ptrs, p.len, p.data, i)
  }

  lemma AbsTags(c: Capn, p: Ptr<Segment?>)
    ensures Encodable(Abs(c, p)) == Encodable(p) && Start(Abs(c, p)) == Start(p) && Empty(Abs(c, p)) == Empty(p)
    ensures Size(Abs(c, p)) == Size(p)
    ensures Encodable(p) ==> forall off :: TagWord(Abs(c, p), off) == TagWord(p, off)
    ensures Encodable(p) && p.kind.List? && p.composite ==> ElementWord(Abs(c, p)) == ElementWord(p)
  {
  }

  /** write_ptr_tag at an offset of the message. */
  method WritePtrTag(c: Capn, s: Segment, d: nat, p: Ptr<Segment?>, off: int)
    requires Ready(c) && s in c.segs && d + 8 <= s.len && Encodable(p)
    modifies s.data
    ensures Ready(c) && s.id < |old(MemOf(c))| && d + 8 <= |old(MemOf(c))[s.id].bytes|
    ensures MemOf(c) == Poke(old(MemOf(c)), s.id, d, TagWord(p, off))
  {
    hide Ready, MemOf, TagWord, Encodable;
    SegmentFacts(c, s);
    StoreAt(c, s, d, TagWord(p, off));
  }

  /** write_far_ptr and write_double_far */
  method WriteFarPtr(c: Capn, s: Segment, d: nat, double: bool, seg: Segment, tgt: nat)
    requires Ready(c) && s in c.segs && d + 8 <= s.len
    requires seg in c.segs && tgt % 8 == 0 && tgt + 8 <= TWO32
    modifies s.data
    ensures Ready(c) && s.id < |old(MemOf(c))| && d + 8 <= |old(MemOf(c))[s.id].bytes| && seg.id < TWO32
    ensures MemOf(c) == Poke(old(MemOf(c)), s.id, d, FarWord(tgt, double, seg.id))
  {
    hide Ready, MemOf, FarWord;
    SegmentFacts(c, s);
    SegmentFacts(c, seg);
    StoreAt(c, s, d, FarWord(tgt, double, seg.id));
  }

  /**
    write_ptr: makes the slot at d of segment s lead to p.  0 if that was done, NEED_TO_COPY if p is
    not an object of this message that can be pointed to, -1 if there is no room for landing pads.
   */
  method WritePtr(c: Capn, s: Segment, d: nat, p: Ptr<Segment?>) returns (r: int)
    requires Ready(c) && WellFormed(MemOf(c)) && |c.segs| + 1 < TWO32 && s in c.segs && Slot(MemOf(c), s.id, d)
    requires p.seg != null && p.seg.capn == c ==> p.seg in c.segs
    requires Encodable(Abs(c, p))
    requires Empty(Abs(c, p)) || Abs(c, p).seg >= |MemOf(c)| || p.member || InPlace(MemOf(c), Abs(c, p))
    modifies c, c.segs`next, c.segs`link, c.segs`parent, c.segs`red, c.segs`len, Arrays(c.segs)
    ensures Ready(c) && old(c.segs) <= c.segs
    ensures fresh(c.segs[|old(c.segs)|..]) && fresh(Arrays(c.segs) - old(Arrays(c.segs)))
    ensures match old(Write(MemOf(c), c.creates, s.id, d, Abs(c, p)))
      case Done(m) => r == 0 && MemOf(c) == m
      case NeedToCopy => r == 1 && MemOf(c) == old(MemOf(c))
      case NoRoom => r == -1 && MemOf(c) == old(MemOf(c))
    ensures r == 0 && !Empty(p) ==>
      old(InPlace(MemOf(c), Abs(c, p))) && Laid(old(MemOf(c)), MemOf(c), c.creates, s.id, d, old(Abs(c, p)))
  {
    hide Ready, MemOf, TagWord, Encodable, PutWord, WordAt, FarWord, Poke, Grow, Fits, Laid;
    SegmentFacts(c, s);
    AbsTags(c, p);
    LaidAfter(c, s, d, p);
    var pdata := Start(p);
    if p.kind.Null? || (p.kind.Struct? && p.datasz == 0 && p.ptrs == 0) {
      WritePtrTag(c, s, d, p, 0);
      return 0;
    } else if p.seg == null || p.seg.capn != c || p.member {
      return NEED_TO_COPY;
    }
    SegmentFacts(c, p.seg);
    if p.seg == s {
      WritePtrTag(c, s, d, p, WordsBetween(d, pdata));
      return 0;
    } else if p.hasTag {
      WriteFarPtr(c, s, d, false, p.seg, TagOffset(p));
      return 0;
    } else if p.seg.len + 8 <= p.seg.data.Length {
      var t := p.seg.len;
      Extend(c, p.seg, 8);
      WritePtrTag(c, p.seg, t, p, WordsBetween(t, pdata));
      WriteFarPtr(c, s, d, false, p.seg, t);
      return 0;
    } else {
      r := WriteDouble(c, s, d, p);
    }
  }

  lemma LaidAfter(c: Capn, s: Segment, d: nat, p: Ptr<Segment?>)
    requires Ready(c) && WellFormed(MemOf(c)) && s in c.segs && Slot(MemOf(c), s.id, d) && Encodable(Abs(c, p))
    requires Empty(Abs(c, p)) || Abs(c, p).seg >= |MemOf(c)| || p.member || InPlace(MemOf(c), Abs(c, p))
    ensures var v := Abs(c, p); !Empty(v) && v.seg < |MemOf(c)| && !p.member ==>
      && InPlace(MemOf(c), v)
      && var w := Write(MemOf(c), c.creates, s.id, d, v); w.Done? ==> Laid(MemOf(c), w.mem, c.creates, s.id, d, v)
  {
    hide Ready, MemOf, Write, Laid, Encodable, Empty;
    var v := Abs(c, p);
    if !Empty(v) && v.seg < |MemOf(c)| && !p.member { WriteLayout(MemOf(c), c.creates, s.id, d, v); }
  }

  /** write_ptr's last resort: two words in any segment. */
  method WriteDouble(c: Capn, s: Segment, d: nat, p: Ptr<Segment?>) returns (r: int)
    requires Ready(c) && WellFormed(MemOf(c)) && |c.segs| + 1 < TWO32 && s in c.segs && Slot(MemOf(c), s.id, d)
    requires p.seg != null && p.seg in c.segs && p.seg != s && Encodable(Abs(c, p)) && InPlace(MemOf(c), Abs(c, p))
    modifies c, c.segs`next, c.segs`link, c.segs`parent, c.segs`red, c.segs`len, Arrays(c.segs)
    ensures Ready(c) && old(c.segs) <= c.segs
    ensures fresh(c.segs[|old(c.segs)|..]) && fresh(Arrays(c.segs) - old(Arrays(c.segs)))
    ensures match old(Pads(MemOf(c), c.creates, s.id))
      case Full => r == -1 && MemOf(c) == old(MemOf(c))
      case Allocated(m1, s2, t) => r == 0 && WroteDouble(MemOf(c), m1, s.id, d, old(Abs(c, p)), s2, t)
  {
    hide Ready, MemOf, TagWord, Encodable, PutWord, WordAt, FarWord, Poke, Grow, Fits;
    SegmentFacts(c, s);
    SegmentFacts(c, p.seg);
    AbsTags(c, p);
    var seg, t := PadRoom(c, s);
    if seg == null { return -1; }
    StoreDouble(c, s, d, p, seg, t);
    return 0;
  }

  /** Sixteen bytes, if possible in segment s. */
  method PadRoom(c: Capn, s: Segment) returns (seg: Segment?, t: nat)
    requires Ready(c) && |c.segs| + 1 < TWO32 && s in c.segs && s.id < |MemOf(c)|
    modifies c, c.segs`next, c.segs`link, c.segs`parent, c.segs`red, c.segs`len
    ensures Ready(c) && old(c.segs) <= c.segs
    ensures fresh(c.segs[|old(c.segs)|..]) && fresh(Arrays(c.segs) - old(Arrays(c.segs)))
    ensures s in c.segs && s.id == old(s.id) && s.len >= old(s.len)
    ensures match old(Pads(MemOf(c), c.creates, s.id))
      case Full => seg == null && MemOf(c) == old(MemOf(c))
      case Allocated(m1, s2, o) =>
        seg != null && seg in c.segs && seg.id == s2 && t == o && t % 8 == 0 && t + 16 <= seg.len && MemOf(c) == m1
  {
    hide Ready, MemOf, Poke, Grow;
    SegmentFacts(c, s);
    PadsFacts(MemOf(c), c.creates, s.id);
    seg, t := s, s.len;
    if s.len + 16 <= s.data.Length {
      Extend(c, s, 16);
    } else {
      seg, t := NewData(c, 16);
      SegmentFacts(c, s);
      if seg == null { return; }
    }
    SegmentFacts(c, s);
    SegmentFacts(c, seg);
    assert s == c.segs[old(s.id)];
  }

  ghost predicate WroteDouble(m: Mem, m1: Mem, s: nat, d: nat, p: Ptr<nat>, s2: nat, t: nat) {
    && s < |m1| && d + 8 <= |m1[s].bytes| && s2 < |m1| && s2 < TWO32 && t + 16 <= |m1[s2].bytes| < TWO32 && t % 8 == 0
    && p.seg < TWO32 && 0 <= Start(p) < 0x8000_0000 && Start(p) % 8 == 0 && Encodable(p)
    && m == DoubleFar(m1, s, d, p, s2, t)
  }

  method StoreDouble(c: Capn, s: Segment, d: nat, p: Ptr<Segment?>, seg: Segment, t: nat)
    requires Ready(c) && s in c.segs && d + 8 <= s.len && seg in c.segs && t + 16 <= seg.len && t % 8 == 0
    requires p.seg != null && p.seg in c.segs && Encodable(p) && 0 <= Start(p) < 0x8000_0000 && Start(p) % 8 == 0
    modifies s.data, seg.data
    ensures Ready(c) && WroteDouble(MemOf(c), old(MemOf(c)), s.id, d, Abs(c, p), seg.id, t)
  {
    hide Ready, MemOf, TagWord, Encodable, PutWord, WordAt, FarWord, Poke, Fits;
    SegmentFacts(c, s);
    SegmentFacts(c, seg);
    SegmentFacts(c, p.seg);
    AbsTags(c, p);
    WriteFarPtr(c, seg, t, false, p.seg, Start(p));
    WritePtrTag(c, seg, t + 8, p, 0);
    WriteFarPtr(c, s, d, true, seg, t);
  }

  // ---------------------------------------------------------------- reading

  /** A pointer as far as its kind: the other fields of a null pointer mean nothing. */
  ghost predicate Matches(c: Capn, r: Ptr<Segment?>, v: Ptr<nat>)
    reads c, r.seg
  {
    if v.kind.Null? then r.kind.Null? else r.seg != null && r.seg in c.segs && Abs(c, r) == v
  }

  /** lookup_far; `s` is null if the segment is unknown, `r` is zero and d kept if the word lies beyond it. */
  method LookupFarPtr(c: Capn, hint: Segment, d0: nat, val: Word) returns (s: Segment?, d: nat, r: Word)
    requires Ready(c) && hint in c.segs
    ensures Ready(c) && MemOf(c) == old(MemOf(c))
    ensures match LookupFar(MemOf(c), val)
      case NoSegment => s == null
      case Broken => s != null && s in c.segs && d == d0 && r == Word(0, 0)
      case Target(i, o, w) => s != null && s in c.segs && s.id == i && d == o && r == w
  {
    hide Ready, MemOf, WordAt;
    var off := FarOff(val);
    s := Lookup(c, hint, val.hi);
    d, r := d0, Word(0, 0);
    if s == null { return; }
    if off + 8 > s.len { return; }
    d := off;
    r := Load(c, s, off);
  }

  method Lookup(c: Capn, hint: Segment, id: nat) returns (s: Segment?)
    requires Ready(c) && hint in c.segs
    ensures Ready(c) && MemOf(c) == old(MemOf(c))
    ensures id < |MemOf(c)| ==> s != null && s in c.segs && s.id == id && s.len == |MemOf(c)[id].bytes|
    ensures id >= |MemOf(c)| ==> s == null
  {
    hide Capn.Valid;
    SegmentFacts(c, hint);
    ghost var steps;
    s, steps := c.LookupSegment(hint, id);
    if s != null { SegmentFacts(c, s); }
  }

  method Load(c: Capn, s: Segment, off: nat) returns (w: Word)
    requires Ready(c) && s in c.segs && off + 8 <= s.len
    ensures Ready(c) && MemOf(c) == old(MemOf(c))
    ensures s.id < |MemOf(c)| && off + 8 <= |MemOf(c)[s.id].bytes| && w == WordAt(MemOf(c)[s.id].bytes, off)
  {
    SegmentFacts(c, s);
    w := WordAt(s.data[off..off + 8], 0);
    WordAtSame(s.data[off..off + 8], s.data[off..off + 8], 0);
    LoadedWord(s.data[..s.len], off);
    assert s.data[off..off + 8] == s.data[..s.len][off..off + 8];
  }

  lemma LoadedWord(b: seq<byte>, off: nat)
    requires off + 8 <= |b|
    ensures WordAt(b[off..off + 8], 0) == WordAt(b, off)
  {
  }

  /** lookup_double, with the offset before which the object's words are counted. */
  method LookupDoublePtr(c: Capn, hint: Segment, d0: nat, val: Word) returns (s: Segment?, d: int, r: Word)
    requires Ready(c) && hint in c.segs
    ensures Ready(c) && MemOf(c) == old(MemOf(c))
    ensures match LookupDouble(MemOf(c), val)
      case NoSegment => s == null
      case Broken => s != null && s in c.segs && d == d0 && r == Word(0, 0)
      case Target(i, o, w) => s != null && s in c.segs && s.id == i && d == o && r == w
  {
    hide Ready, MemOf, WordAt, Fits;
    var off := FarOff(val);
    s := Lookup(c, hint, val.hi);
    d, r := d0, Word(0, 0);
    if s == null { return; }
    if off + 16 > s.len { return; }
    var far := Load(c, s, off);
    var tag := Load(c, s, off + 8);
    if far.lo % 8 != FAR_PTR || tag.lo > LIST_PTR { return; }
    s := Lookup(c, s, far.hi);
    if s == null { return; }
    d := -8;
    r := Word(far.lo / 8 * 4 + tag.lo, tag.hi);
  }

  /** The object that a resolved pointer word val, seen from offset d of segment s, leads to. */
  method DecodePtr(c: Capn, s: Segment, d: int, val: Word, far: bool) returns (r: Ptr<Segment?>)
    requires Ready(c) && s in c.segs && s.id < |MemOf(c)|
    ensures Ready(c) && MemOf(c) == old(MemOf(c)) && Matches(c, r, Decode(MemOf(c), s.id, d, val, far))
  {
    hide Ready, MemOf, WordAt, Times, SignedOff, CompositeList;
    SegmentFacts(c, s);
    var none := Ptr(Null, false, false, false, 0, 0, 0, 0, null);
    var e := d + SignedOff(val.lo) * 8 + 8;
    if e < 0 { return none; }
    match val.lo % 4 {
      case 0 =>
        r := Ptr(if val == Word(0, 0) then Null else Struct, far, false, false,
          val.hi % 0x1_0000 * 8, val.hi / 0x1_0000, 0, e, s);
        if r.data + r.datasz + 8 * r.ptrs > s.len { r := none; }
      case 1 =>
        var n := val.hi / 8;
        r := Ptr(List, far, false, false, 0, 0, n, e, s);
        var end := e;
        match val.hi % 8 {
          case 1 =>
            r := r.(kind := BitList, datasz := BitBytes(n));
            end := e + r.datasz;
          case 2 =>
            r := r.(datasz := 1);
            end := e + n;
          case 3 =>
            r := r.(datasz := 2);
            end := e + n * 2;
          case 4 =>
            r := r.(datasz := 4);
            end := e + n * 4;
          case 5 =>
            r := r.(datasz := 8);
            end := e + n * 8;
          case 6 =>
            r := r.(kind := PtrList);
            end := e + n * 8;
          case 7 =>
            r := DecodeList(c, s, e, n, far);
            return;
          case _ =>
        }
        SizeOfPlain(val.hi % 8, n, far, e, s.id);
        if end > s.len { r := none; }
      case _ =>
        r := none;
    }
  }

  lemma SizeOfPlain(code: nat, n: nat, far: bool, d: nat, s: nat)
    requires code < 7
    ensures Size(PlainList(code, n, far, d, s)) == match code
      case 1 => BitBytes(n)
      case 2 => n
      case 3 => n * 2
      case 4 => n * 4
      case 5 => n * 8
      case 6 => n * 8
      case _ => 0
  {
  }

  /** read_ptr's composite lists: n words of elements behind the word at e. */
  method DecodeList(c: Capn, s: Segment, e: nat, n: nat, far: bool) returns (r: Ptr<Segment?>)
    requires Ready(c) && s in c.segs && s.id < |MemOf(c)|
    ensures Ready(c) && MemOf(c) == old(MemOf(c))
    ensures Matches(c, r, CompositeList(MemOf(c)[s.id].bytes, n, far, e, s.id))
  {
    hide Ready, MemOf, WordAt;
    SegmentFacts(c, s);
    var none := Ptr(Null, false, false, false, 0, 0, 0, 0, null);
    if e + 8 > s.len { return none; }
    var w := Load(c, s, e);
    SegmentFacts(c, s);
    r := Ptr(List, far, false, true, w.hi % 0x1_0000 * 8, w.hi / 0x1_0000, w.lo / 4, e + 8, s);
    if Times(r.len, r.datasz + 8 * r.ptrs) != n * 8 { return none; }
    if e + 8 + n * 8 > s.len { return none; }
  }

  /**
    read_ptr.  None stands for the access to a null segment that follows when a far pointer on the
    way names a segment the message does not have.
   */
  method ReadPtr(c: Capn, s0: Segment, d0: nat) returns (r: Option<Ptr<Segment?>>)
    requires Ready(c) && s0 in c.segs && s0.id < |MemOf(c)| && d0 + 8 <= |MemOf(c)[s0.id].bytes|
    ensures Ready(c) && MemOf(c) == old(MemOf(c)) && r.Some? == Read(MemOf(c), s0.id, d0).Some?
    ensures r.Some? ==> Matches(c, r.value, Read(MemOf(c), s0.id, d0).value)
  {
    hide Ready, MemOf, WordAt, Decode, LookupFar, LookupDouble, Fits;
    SegmentFacts(c, s0);
    var s: Segment?, d: int, far := s0, d0, false;
    var val := Load(c, s0, d0);
    if val.lo % 8 == FAR_PTR {
      s, d, val := LookupFarPtr(c, s0, d0, val);
      far := val.lo / 4 == 0;
    } else if val.lo % 8 == DOUBLE_PTR {
      s, d, val := LookupDoublePtr(c, s0, d0, val);
    }
    if s == null { return None; }
    SegmentFacts(c, s);
    var q := DecodePtr(c, s, d, val, far);
    r := Some(q);
    ZeroIsNull(MemOf(c), s.id, d, far);
  }

  lemma ZeroIsNull(mem: Mem, s: nat, d: int, far: bool)
    requires s < |mem|
    ensures Decode(mem, s, d, Word(0, 0), far) == NullPtr()
  {
  }

  // ---------------------------------------------------------------- new objects

  function TagSize(tagged: bool): (r: nat) { if tagged then 8 else 0 }

  /** new_object without its tag: where the block lies, and whether it starts with room for a tag. */
  method NewBlockFor(c: Capn, seg: Segment, bytes: nat) returns (s: Segment?, o: nat, tagged: bool)
    requires Ready(c) && |c.segs| + 1 < TWO32 && seg in c.segs && bytes % 8 == 0 && bytes < 0x7FFE_0000
    modifies c, c.segs`next, c.segs`link, c.segs`parent, c.segs`red, c.segs`len
    ensures Ready(c) && old(c.segs) <= c.segs
    ensures fresh(c.segs[|old(c.segs)|..]) && fresh(Arrays(c.segs) - old(Arrays(c.segs)))
    ensures s == null ==> !c.creates && MemOf(c) == old(MemOf(c))
    ensures s != null ==> s in c.segs && s.id < |MemOf(c)| && o % 8 == 0
    ensures s != null ==> o + bytes + TagSize(tagged) <= s.len && Blank(MemOf(c), s.id, o, bytes + TagSize(tagged))
    ensures s != null ==> NewBlock(old(MemOf(c)), MemOf(c), s.id, o, bytes + TagSize(tagged))
    ensures if bytes == 0 || old(seg.len) + bytes <= seg.data.Length
      then s == seg && o == old(seg.len) && !tagged else s != null ==> tagged
  {
    hide Ready, MemOf, Grow, NewBlock, Blank, Allocates, FirstFit;
    SegmentFacts(c, seg);
    ghost var mem := MemOf(c);
    if bytes == 0 {
      EmptyBlock(mem, seg.id);
      return seg, seg.len, false;
    }
    if seg.len + bytes <= seg.data.Length {
      s, o, tagged := seg, seg.len, false;
      GrowFacts(mem, s.id, bytes);
      AllocatedBlock(mem, Allocated(Grow(mem, s.id, bytes), s.id, o), bytes);
      Extend(c, seg, bytes);
    } else {
      tagged := true;
      s, o := NewData(c, bytes + 8);
      if s == null { return; }
      NewDataFacts(mem, c.creates, bytes + 8);
      AllocatedBlock(mem, CapnMemory.NewData(mem, c.creates, bytes + 8), bytes + 8);
    }
    SegmentFacts(c, s);
  }

  /**
    new_object: zeroed memory for p, in p's segment if there is room, else behind a tag in another.
   */
  method NewObject(c: Capn, p: Ptr<Segment?>, bytes: nat) returns (q: Ptr<Segment?>)
    requires Ready(c) && |c.segs| + 1 < TWO32 && (p.seg != null ==> p.seg in c.segs) && bytes < 0x7FFD_0000
    requires Encodable(p) && !p.kind.Null? && !p.hasTag
    modifies c, c.segs`next, c.segs`link, c.segs`parent, c.segs`red, c.segs`len, Arrays(c.segs)
    ensures Ready(c) && old(c.segs) <= c.segs
    ensures fresh(c.segs[|old(c.segs)|..]) && fresh(Arrays(c.segs) - old(Arrays(c.segs)))
    ensures q.kind.Null? ==> (p.seg == null || !c.creates) && MemOf(c) == old(MemOf(c))
    ensures !q.kind.Null? ==> Moved(p, q) && Placed(old(MemOf(c)), c, p, q, Round8(bytes))
    ensures p.seg != null ==> if bytes == 0 || old(p.seg.len) + Round8(bytes) <= p.seg.data.Length
      then q.seg == p.seg && q.data == old(p.seg.len) && !q.hasTag else !q.kind.Null? ==> q.hasTag
  {
    hide Ready, MemOf, Encodable, Blank, NewBlock, Placed;
    q := Ptr(Null, false, false, false, 0, 0, 0, 0, null);
    if p.seg == null { return; }
    ghost var mem := MemOf(c);
    var s, o, tagged := NewBlockFor(c, p.seg, Round8(bytes));
    if s == null { return; }
    if tagged {
      q := PutTag(c, s, o, p, Round8(bytes), mem);
    } else {
      q := p.(seg := s, data := o);
      PlacedHere(mem, c, s, o, p, Round8(bytes));
    }
  }

  /** The tag in front of an object that lies elsewhere. */
  method PutTag(c: Capn, s: Segment, o: nat, p: Ptr<Segment?>, n: nat, ghost mem: Mem) returns (q: Ptr<Segment?>)
    requires Ready(c) && s in c.segs && s.id < |MemOf(c)| && Encodable(p) && o % 8 == 0 && o + n + 8 <= s.len
    requires NewBlock(mem, MemOf(c), s.id, o, n + 8) && Blank(MemOf(c), s.id, o, n + 8)
    modifies s.data
    ensures Ready(c) && q == p.(seg := s, data := o + 8, hasTag := true) && Placed(mem, c, p, q, n)
  {
    hide Ready, MemOf, TagWord, Encodable, Poke, Blank, NewBlock;
    ghost var m1 := MemOf(c);
    SegmentFacts(c, s);
    WritePtrTag(c, s, o, p, 0);
    PokeInBlock(mem, m1, s.id, o, n + 8, TagWord(p, 0));
    q := p.(seg := s, data := o + 8, hasTag := true);
  }

  lemma PlacedHere(mem: Mem, c: Capn, s: Segment, o: nat, p: Ptr<Segment?>, n: nat)
    requires Ready(c) && s in c.segs && s.id < |MemOf(c)| && Encodable(p) && !p.hasTag && o % 8 == 0
    requires NewBlock(mem, MemOf(c), s.id, o, n) && Blank(MemOf(c), s.id, o, n)
    ensures Placed(mem, c, p, p.(seg := s, data := o), n)
  {
    hide Ready, MemOf, Encodable, Blank, NewBlock;
  }

  /** q is like p, but elsewhere. */
  predicate Moved(p: Ptr<Segment?>, q: Ptr<Segment?>) { q == p.(seg := q.seg, data := q.data, hasTag := q.hasTag) }

  /** q is p with n zero bytes of new memory, behind a tag if it says so. */
  ghost predicate Placed(mem: Mem, c: Capn, p: Ptr<Segment?>, q: Ptr<Segment?>, n: nat)
    requires Ready(c) && Encodable(p)
    reads c, c.segs`id, c.segs`next, c.segs`capn, c.segs`len, c.segs`parent, c.segs`link, c.segs`red
    reads Arrays(c.segs), q.seg
  {
    && q.seg != null && q.seg in c.segs && q.data % 8 == 0 && q.data >= TagSize(q.hasTag)
    && Moved(p, q)
    && NewBlock(mem, MemOf(c), q.seg.id, q.data - TagSize(q.hasTag), n + TagSize(q.hasTag))
    && Blank(MemOf(c), q.seg.id, q.data, n)
    && (q.hasTag ==> WordAt(MemOf(c)[q.seg.id].bytes, q.data - 8) == TagWord(p, 0))
  }

  /** r is an object of its own: pointers to it can be written, and its fields are all zero. */
  ghost predicate IsNew(mem: Mem, c: Capn, r: Ptr<Segment?>)
    requires Ready(c)
    reads c, c.segs`id, c.segs`next, c.segs`capn, c.segs`len, c.segs`parent, c.segs`link, c.segs`red
    reads Arrays(c.segs), r.seg
  {
    && r.seg != null && r.seg in c.segs && 0 <= Front(r)
    && NewObjectAt(mem, MemOf(c), Abs(c, r))
  }

  lemma PlacedIsNew(mem: Mem, c: Capn, p: Ptr<Segment?>, q: Ptr<Segment?>, n: nat)
    requires Ready(c) && Encodable(p) && !p.composite && !p.kind.Null? && !p.member
    requires Placed(mem, c, p, q, n) && Size(p) <= n
    ensures IsNew(mem, c, q)
  {
    hide Ready, MemOf, Times, WordAt, Encodable, TagWord;
    SegmentFacts(c, q.seg);
    AbsTags(c, q);
    SameTags(p, q);
  }

  /** Where a pointer leads does not matter to its tag. */
  lemma SameTags(p: Ptr<Segment?>, q: Ptr<Segment?>)
    requires Moved(p, q)
    ensures Encodable(q) == Encodable(p) && Size(q) == Size(p)
    ensures Encodable(p) ==> TagWord(q, 0) == TagWord(p, 0)
    ensures Encodable(p) && p.kind.List? && p.composite ==> ElementWord(q) == ElementWord(p)
  {
  }

  function Cut19(n: nat): (r: nat) { n % 0x8_0000 }

  lemma CutWords(n: nat)
    ensures Cut19(Round8(n)) % 8 == 0 && Cut19(Round8(n)) < 0x8_0000
    ensures (Cut19(Round8(n)) == Round8(n) <==> n <= 0x7_FFF8)
  {
    var k := Round8(n);
    assert k == 8 * (k / 8);
    assert k % 0x8_0000 == 8 * (k / 8 % 0x1_0000);
  }

  /** capn_new_struct: the sizes are cut to the 19 and 16 bits they have in the pointer. */
  method NewStruct(c: Capn, seg: Segment?, datasz: nat, ptrs: nat) returns (r: Ptr<Segment?>)
    requires Ready(c) && |c.segs| + 1 < TWO32 && (seg != null ==> seg in c.segs)
    requires datasz < 0x7FFF_FFF9 && ptrs < 0x8000_0000
    modifies c, c.segs`next, c.segs`link, c.segs`parent, c.segs`red, c.segs`len, Arrays(c.segs)
    ensures Ready(c) && old(c.segs) <= c.segs
    ensures fresh(c.segs[|old(c.segs)|..]) && fresh(Arrays(c.segs) - old(Arrays(c.segs)))
    ensures r.kind.Null? ==> (seg == null || !c.creates) && MemOf(c) == old(MemOf(c))
    ensures !r.kind.Null? ==> IsNew(old(MemOf(c)), c, r) && r.kind.Struct?
    ensures !r.kind.Null? ==> r.datasz == Cut19(Round8(datasz)) && r.ptrs == ptrs % 0x1_0000
    ensures !r.kind.Null? ==> (r.datasz == Round8(datasz) <==> datasz <= 0x7_FFF8)
    ensures !r.kind.Null? ==> (r.ptrs == ptrs <==> ptrs < 0x1_0000)
  {
    hide Ready, MemOf, IsNew, Placed;
    CutWords(datasz);
    var p := Ptr(Struct, false, false, false, Cut19(Round8(datasz)), ptrs % 0x1_0000, 0, 0, seg);
    r := NewObject(c, p, p.datasz + 8 * p.ptrs);
    if !r.kind.Null? { PlacedIsNew(old(MemOf(c)), c, p, r, Round8(p.datasz + 8 * p.ptrs)); }
  }

  /**
    capn_new_list1.  The size in bytes has 19 bits in the pointer, and what they hold is allocated:
    from 2^22 - 7 bits on that is less than the list needs.
   */
  method NewList1(c: Capn, seg: Segment?, sz: nat) returns (r: Ptr<Segment?>)
    requires Ready(c) && |c.segs| + 1 < TWO32 && (seg != null ==> seg in c.segs)
    requires sz < 0x7FFF_FFF9
    modifies c, c.segs`next, c.segs`link, c.segs`parent, c.segs`red, c.segs`len, Arrays(c.segs)
    ensures Ready(c) && old(c.segs) <= c.segs
    ensures fresh(c.segs[|old(c.segs)|..]) && fresh(Arrays(c.segs) - old(Arrays(c.segs)))
    ensures r.kind.Null? ==> (seg == null || !c.creates) && MemOf(c) == old(MemOf(c))
    ensures !r.kind.Null? ==> IsNew(old(MemOf(c)), c, r) && r.kind.BitList? && r.len == sz
    ensures !r.kind.Null? ==> r.datasz == Size(r) && (8 * r.datasz >= sz <==> sz <= 8 * 0x7_FFFF)
  {
    hide Ready, MemOf, IsNew, Placed;
    var p := Ptr(BitList, false, false, false, BitBytes(sz), 0, sz, 0, seg);
    r := NewObject(c, p, p.datasz);
    if !r.kind.Null? { PlacedIsNew(old(MemOf(c)), c, p, r, Round8(p.datasz)); }
  }

  /** capn_new_ptr_list */
  method NewPtrList(c: Capn, seg: Segment?, sz: nat) returns (r: Ptr<Segment?>)
    requires Ready(c) && |c.segs| + 1 < TWO32 && (seg != null ==> seg in c.segs)
    requires sz * 8 < 0x7FFD_0000
    modifies c, c.segs`next, c.segs`link, c.segs`parent, c.segs`red, c.segs`len, Arrays(c.segs)
    ensures Ready(c) && old(c.segs) <= c.segs
    ensures fresh(c.segs[|old(c.segs)|..]) && fresh(Arrays(c.segs) - old(Arrays(c.segs)))
    ensures r.kind.Null? ==> (seg == null || !c.creates) && MemOf(c) == old(MemOf(c))
    ensures !r.kind.Null? ==> IsNew(old(MemOf(c)), c, r) && r.kind.PtrList? && r.len == sz
  {
    hide Ready, MemOf, IsNew, Placed;
    var p := Ptr(PtrList, false, false, false, 0, 0, sz, 0, seg);
    r := NewObject(c, p, sz * 8);
    if !r.kind.Null? { PlacedIsNew(old(MemOf(c)), c, p, r, Round8(sz * 8)); }
  }

  /** The size of an element of a list that is not composite. */
  function ElementSize(datasz: nat): (r: nat) {
    if datasz > 4 then 8 else if datasz > 2 then 4 else datasz
  }

  /** The sizes from 0 to 8, and what they are rounded to. */
  lemma ElementSizes()
    ensures ElementSize(0) == 0 && ElementSize(1) == 1 && ElementSize(2) == 2 && ElementSize(3) == 4
    ensures ElementSize(4) == 4 && ElementSize(5) == 8
    ensures ElementSize(6) == 8 && ElementSize(7) == 8 && ElementSize(8) == 8
  {
  }

  predicate StructElements(datasz: nat, ptrs: nat) { ptrs != 0 || datasz > 8 }

  /** The bytes from one element of a list to the next. */
  function ListStep(datasz: nat, ptrs: nat): (r: nat) {
    if StructElements(datasz, ptrs) then Cut19(Round8(datasz)) + 8 * (ptrs % 0x1_0000) else ElementSize(datasz)
  }

  /** Elements with pointers or more than a word of data are structs; others have one of the five sizes. */
  lemma ListSteps(datasz: nat, ptrs: nat)
    ensures StructElements(datasz, ptrs) <==> ptrs > 0 || datasz >= 9
    ensures datasz < 0x8_0000 && ptrs < 0x1_0000 && (ptrs > 0 || datasz >= 9) && datasz % 8 == 0 ==>
      ListStep(datasz, ptrs) == datasz + 8 * ptrs
    ensures ListStep(0, 0x1_0000) == 0 && ListStep(9, 0) == 16 && ListStep(1, 1) == 16
    ensures ListStep(3, 0) == 4 && ListStep(5, 0) == 8
  {
  }

  /** capn_new_list, for sizes that a C int can hold; struct elements are cut as in NewStruct. */
  method NewList(c: Capn, seg: Segment?, sz: nat, datasz: nat, ptrs: nat) returns (r: Ptr<Segment?>)
    requires Ready(c) && |c.segs| + 1 < TWO32 && (seg != null ==> seg in c.segs)
    requires datasz < 0x7FFF_FFF9 && ptrs < 0x8000_0000 && sz < 0x8000_0000
    requires Times(sz, ListStep(datasz, ptrs)) < 0x7FFC_0000
    requires StructElements(datasz, ptrs) && ListStep(datasz, ptrs) == 0 ==> sz < TWO30
    modifies c, c.segs`next, c.segs`link, c.segs`parent, c.segs`red, c.segs`len, Arrays(c.segs)
    ensures Ready(c) && old(c.segs) <= c.segs
    ensures fresh(c.segs[|old(c.segs)|..]) && fresh(Arrays(c.segs) - old(Arrays(c.segs)))
    ensures r.kind.Null? ==> (seg == null || !c.creates) && MemOf(c) == old(MemOf(c))
    ensures !r.kind.Null? ==> IsNew(old(MemOf(c)), c, r) && r.kind.List? && r.len == sz
    ensures !r.kind.Null? ==> (r.composite <==> StructElements(datasz, ptrs))
    ensures !r.kind.Null? && r.composite ==> r.datasz == Cut19(Round8(datasz)) && r.ptrs == ptrs % 0x1_0000
    ensures !r.kind.Null? && !r.composite ==> r.datasz == ElementSize(datasz)
  {
    hide Ready, MemOf, IsNew, Placed, Times, Cut19;
    if ptrs != 0 || datasz > 8 {
      CutWords(datasz);
      r := NewComposite(c, seg, sz, Cut19(Round8(datasz)), ptrs % 0x1_0000);
    } else {
      var p := Ptr(List, false, false, false, ElementSize(datasz), 0, sz, 0, seg);
      r := NewObject(c, p, Times(sz, p.datasz));
      if !r.kind.Null? { PlacedIsNew(old(MemOf(c)), c, p, r, Round8(Times(sz, p.datasz))); }
    }
  }

  /** capn_new_list's composite lists: the element word comes first. */
  method NewComposite(c: Capn, seg: Segment?, sz: nat, datasz: nat, ptrs: nat) returns (r: Ptr<Segment?>)
    requires Ready(c) && |c.segs| + 1 < TWO32 && (seg != null ==> seg in c.segs)
    requires datasz % 8 == 0 && datasz < 0x8_0000 && ptrs < 0x1_0000 && (datasz + ptrs == 0 ==> sz < TWO30)
    requires sz < 0x8000_0000 && Times(sz, datasz + 8 * ptrs) < 0x7FFC_0000
    modifies c, c.segs`next, c.segs`link, c.segs`parent, c.segs`red, c.segs`len, Arrays(c.segs)
    ensures Ready(c) && old(c.segs) <= c.segs
    ensures fresh(c.segs[|old(c.segs)|..]) && fresh(Arrays(c.segs) - old(Arrays(c.segs)))
    ensures r.kind.Null? ==> (seg == null || !c.creates) && MemOf(c) == old(MemOf(c))
    ensures !r.kind.Null? ==> IsNew(old(MemOf(c)), c, r) && r.kind.List? && r.len == sz && r.composite
    ensures !r.kind.Null? ==> r.datasz == datasz && r.ptrs == ptrs
  {
    hide Ready, MemOf, IsNew, Placed, Times, ElementWord, Poke;
    var p := Ptr(List, false, false, true, datasz, ptrs, sz, 0, seg);
    CompositeFits(sz, datasz / 8, ptrs);
    r := NewObject(c, p, Times(sz, datasz + 8 * ptrs) + 8);
    if !r.kind.Null? {
      ghost var mem1 := MemOf(c);
      PlacedParts(old(MemOf(c)), c, p, r);
      StoreAt(c, r.seg, r.data, ElementWord(r));
      CompositeIsNew(old(MemOf(c)), mem1, c, p, r);
      r := r.(data := r.data + 8);
    }
  }

  lemma CompositeFits(n: nat, a: nat, b: nat)
    requires Times(n, 8 * a + 8 * b) < 0x7FFC_0000 && (a + b > 0 || n < TWO30)
    ensures Times(n, a + b) < TWO29 && n < TWO30 && Times(n, 8 * a + 8 * b) % 8 == 0
  {
    Distribute(n, a, b);
    if a + b > 0 { assert n * 1 <= n * (a + b); }
  }

  lemma PlacedParts(mem: Mem, c: Capn, p: Ptr<Segment?>, q: Ptr<Segment?>)
    requires Ready(c) && Encodable(p) && p.kind.List? && p.composite && Size(p) % 8 == 0
    requires Placed(mem, c, p, q, Round8(Size(p) + 8))
    ensures q.seg != null && q.seg in c.segs && q.data + 8 <= q.seg.len && Encodable(q) && q.kind.List? && q.composite
    ensures q.seg.id < |MemOf(c)| && q.data % 8 == 0 && q.data >= TagSize(q.hasTag)
    ensures q.data + 8 <= |MemOf(c)[q.seg.id].bytes|
    ensures NewBlock(mem, MemOf(c), q.seg.id, q.data - TagSize(q.hasTag), Size(p) + 8 + TagSize(q.hasTag))
    ensures Blank(MemOf(c), q.seg.id, q.data, Size(p) + 8)
    ensures q.hasTag ==> WordAt(MemOf(c)[q.seg.id].bytes, q.data - 8) == TagWord(p, 0)
  {
    hide Ready, MemOf, Times, WordAt;
    SegmentFacts(c, q.seg);
  }

  lemma CompositeIsNew(mem: Mem, mem1: Mem, c: Capn, p: Ptr<Segment?>, q: Ptr<Segment?>)
    requires Ready(c) && Encodable(p) && p.kind.List? && p.composite && !p.member
    requires q.seg != null && q.seg in c.segs && Moved(p, q)
    requires q.data % 8 == 0 && q.data >= TagSize(q.hasTag) && Size(p) % 8 == 0
    requires NewBlock(mem, mem1, q.seg.id, q.data - TagSize(q.hasTag), Size(p) + 8 + TagSize(q.hasTag))
    requires Blank(mem1, q.seg.id, q.data, Size(p) + 8)
    requires q.hasTag ==> WordAt(mem1[q.seg.id].bytes, q.data - 8) == TagWord(p, 0)
    requires MemOf(c) == Poke(mem1, q.seg.id, q.data, ElementWord(q))
    ensures IsNew(mem, c, q.(data := q.data + 8))
  {
    hide Ready, MemOf, Times, WordAt, TagWord, ElementWord, Encodable, NewBlock, Blank, NewObjectAt, Poke;
    SegmentFacts(c, q.seg);
    var r := q.(data := q.data + 8);
    AbsTags(c, r);
    SameTags(p, q);
    SameTags(q, r);
    CompositeNew(mem, mem1, Abs(c, r));
  }

  /** capn_root: the slot at the start of segment 0, which is made if there is none. */
  method Root(c: Capn) returns (r: Ptr<Segment?>)
    requires Ready(c) && |c.segs| + 1 < TWO32
    modifies c, c.segs`next, c.segs`link, c.segs`parent, c.segs`red, c.segs`len
    ensures Ready(c) && old(c.segs) <= c.segs
    ensures fresh(c.segs[|old(c.segs)|..]) && fresh(Arrays(c.segs) - old(Arrays(c.segs)))
    ensures Extends(old(MemOf(c)), MemOf(c))
    ensures |MemOf(c)| == if |old(c.segs)| == 0 && c.creates then 1 else |old(c.segs)|
    ensures r.kind.Null? <==> |MemOf(c)| == 0 || MemOf(c)[0].cap < 8
    ensures |old(c.segs)| == 0 && c.creates ==> !r.kind.Null?
    ensures r.kind.Null? ==> r.seg == null
    ensures !r.kind.Null? ==> r == Ptr(PtrList, false, false, false, 0, 0, 1, 0, r.seg) && r.seg == c.segs[0]
    ensures !r.kind.Null? ==> Slot(MemOf(c), 0, 0)
  {
    hide Ready, MemOf, Grow;
    ListFacts(c);
    ghost var mem := MemOf(c);
    var seg := FirstSegment(c);
    if seg == null {
      NewDataFacts(mem, c.creates, 8);
      var off: nat;
      seg, off := NewData(c, 8);
      assert seg != null ==> MemOf(c) == CapnMemory.NewData(mem, c.creates, 8).mem;
    }
    r := Ptr(Null, false, false, false, 0, 0, 0, 0, null);
    if seg == null { return; }
    SegmentFacts(c, seg);
    if seg.data.Length < 8 { return; }
    if seg.len < 8 {
      GrowFacts(MemOf(c), seg.id, 8);
      Extend(c, seg, 8 - seg.len);
      SegmentFacts(c, seg);
    }
    r := Ptr(PtrList, false, false, false, 0, 0, 1, 0, seg);
  }

  method FirstSegment(c: Capn) returns (s: Segment?)
    requires Ready(c)
    ensures Ready(c) && MemOf(c) == old(MemOf(c))
    ensures if c.segs == [] then s == null else s == c.segs[0] && s in c.segs
  {
    ghost var steps;
    s, steps := c.LookupSegment(null, 0);
  }

  // ---------------------------------------------------------------- a pointer written and read back

  /**
    write_ptr and then read_ptr at the same slot: the object comes back, wherever it lies and however
    the pointer was written.  A message that makes segments never lacks room for the pointer.
   */
  method WriteAndRead(c: Capn, s: Segment, d: nat, p: Ptr<Segment?>) returns (r: int, q: Option<Ptr<Segment?>>)
    requires Ready(c) && |c.segs| + 1 < TWO32 && s in c.segs && Slot(MemOf(c), s.id, d)
    requires p.seg != null && p.seg in c.segs && SlotClear(s.id, d, Abs(c, p)) && Good(MemOf(c), Abs(c, p))
    modifies c, c.segs`next, c.segs`link, c.segs`parent, c.segs`red, c.segs`len, Arrays(c.segs)
    ensures Ready(c) && old(c.segs) <= c.segs
    ensures fresh(c.segs[|old(c.segs)|..]) && fresh(Arrays(c.segs) - old(Arrays(c.segs)))
    ensures r == 0 || (r == -1 && !c.creates && MemOf(c) == old(MemOf(c)))
    ensures r == 0 ==> ExtendsBut(old(MemOf(c)), MemOf(c), s.id, d) && q.Some?
    ensures r == 0 ==> if Empty(p) then q.value.kind.Null? else q.value == Clip(p).(hasTag := q.value.hasTag)
  {
    hide *;
    AbsOf(c, p);
    SegmentFacts(c, s);
    ghost var mem, v := MemOf(c), Abs(c, p);
    ReadBack(mem, c.creates, s.id, d, v);
    q := None;
    r := WritePtr(c, s, d, p);
    if r != 0 { return; }
    SlotParts(MemOf(c), s.id, d);
    q := ReadPtr(c, s, d);
    AbsOf(c, p);
    SameObject(c, p, q.value, Read(MemOf(c), s.id, d).value);
  }

  lemma SlotParts(mem: Mem, s: nat, d: nat)
    requires Slot(mem, s, d)
    ensures s < |mem| && d + 8 <= |mem[s].bytes|
  {
  }

  lemma AbsOf(c: Capn, p: Ptr<Segment?>)
    requires Ready(c) && p.seg != null && p.seg in c.segs
    ensures Abs(c, p) == Numbered(p, p.seg.id)
  {
    SegmentFacts(c, p.seg);
  }

  /** Segments are known by their numbers. */
  lemma SameObject(c: Capn, p: Ptr<Segment?>, q: Ptr<Segment?>, v: Ptr<nat>)
    requires Ready(c) && p.seg != null && p.seg in c.segs && Matches(c, q, v)
    requires var a := Abs(c, p);
      if Empty(a) then v == NullPtr() else v == Clip(a).(hasTag := v.hasTag)
    ensures if Empty(p) then q.kind.Null? else q == Clip(p).(hasTag := q.hasTag)
  {
    hide Ready;
    AbsTags(c, p);
    SegmentFacts(c, p.seg);
    if !Empty(p) { SegmentFacts(c, q.seg); }
  }

  lemma NoSegments(c: Capn)
    requires c.Valid() && c.segs == []
    ensures Ready(c) && MemOf(c) == [] && Arrays(c.segs) == {} && 3 < TWO32
  {
  }

  lemma NewStructFacts(mem: Mem, c: Capn, p: Ptr<Segment?>, s: Segment)
    requires Ready(c) && IsNew(mem, c, p) && s in c.segs && |mem| == 1 && Slot(mem, s.id, 0)
    ensures |c.segs| <= 2 && p.seg != null && Slot(MemOf(c), s.id, 0) && p.seg in c.segs
    ensures SlotClear(s.id, 0, Abs(c, p)) && Good(MemOf(c), Abs(c, p))
  {
    hide Ready, MemOf, Good, SlotClear;
    SegmentFacts(c, s);
    NewIsClear(mem, MemOf(c), Abs(c, p), s.id, 0);
  }

  /** A fresh message whose root slot is there, and a new struct in it. */
  method RootAndStruct(datasz: nat, ptrs: nat) returns (c: Capn, s: Segment, p: Ptr<Segment?>)
    requires datasz < 0x7FFF_FFF9 && ptrs < 0x8000_0000
    ensures fresh(c) && fresh(c.segs) && fresh(Arrays(c.segs)) && c.creates
    ensures Ready(c) && |c.segs| + 1 < TWO32 && s in c.segs && Slot(MemOf(c), s.id, 0)
    ensures p.kind.Struct? && p.datasz == Cut19(Round8(datasz)) && p.ptrs == ptrs % 0x1_0000
    ensures p.seg != null && p.seg in c.segs && SlotClear(s.id, 0, Abs(c, p)) && Good(MemOf(c), Abs(c, p))
  {
    hide Ready, MemOf, Good, SlotClear, Slot, IsNew, Abs, Round8, Cut19;
    c := new Capn();
    NoSegments(c);
    var root := Root(c);
    assert c.segs[0..] == c.segs && Arrays(c.segs) - {} == Arrays(c.segs);
    ListFacts(c);
    s := root.seg;
    SegmentFacts(c, s);
    ghost var mem, segs, arrays := MemOf(c), c.segs, Arrays(c.segs);
    p := NewStruct(c, s, datasz, ptrs);
    assert c.segs == segs + c.segs[|segs|..];
    assert forall a :: a in Arrays(c.segs) ==> a in arrays || a in Arrays(c.segs) - arrays;
    NewStructFacts(mem, c, p, s);
  }

  /**
    From nothing: a message, its root, a struct, the root set to it and read.  The struct comes back
    with its segment, offset and sizes, or as null if it has no fields.
   */
  method RootRoundTrip(datasz: nat, ptrs: nat) returns (c: Capn, p: Ptr<Segment?>, q: Option<Ptr<Segment?>>)
    requires datasz < 0x7FFF_FFF9 && ptrs < 0x8000_0000
    ensures Ready(c) && p.seg != null && p.seg in c.segs && q.Some?
    ensures p.kind.Struct? && p.datasz == Cut19(Round8(datasz)) && p.ptrs == ptrs % 0x1_0000
    ensures p.datasz == p.ptrs == 0 ==> q.value.kind.Null?
    ensures p.datasz + p.ptrs > 0 ==> q.value.kind.Struct? && q.value.seg == p.seg && q.value.data == p.data
    ensures p.datasz + p.ptrs > 0 ==> q.value.datasz == p.datasz && q.value.ptrs == p.ptrs
  {
    hide Ready, MemOf, Good, SlotClear, Slot, Abs, Round8, Cut19, ExtendsBut, Arrays;
    var s: Segment, r: int;
    c, s, p := RootAndStruct(datasz, ptrs);
    r, q := WriteAndRead(c, s, 0, p);
  }
}
