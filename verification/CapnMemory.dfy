/** What allocating and write_ptr do to the bytes of a message (lib/capnp/capn.c). */
module CapnMemory {
  import opened Bytes
  import opened CapnWords
  import opened CapnPointer

  predicate SameSizes(a: Mem, b: Mem) {
    |a| == |b| && forall j :: 0 <= j < |a| ==> |a[j].bytes| == |b[j].bytes| && a[j].cap == b[j].cap
  }

  function Poke(mem: Mem, i: nat, off: nat, w: Word): (m: Mem)
    requires i < |mem| && off + 8 <= |mem[i].bytes| && Fits(w)
    ensures SameSizes(mem, m) && WordAt(m[i].bytes, off) == w
  {
    mem[i := mem[i].(bytes := PutWord(mem[i].bytes, off, w))]
  }

  function Grow(mem: Mem, i: nat, n: nat): (r: Mem)
    requires i < |mem|
  {
    mem[i := mem[i].(bytes := mem[i].bytes + Zeros(n))]
  }

  /** The first segment from i on that has room for n more bytes. */
  function FirstFit(mem: Mem, n: nat, i: nat): (r: nat)
    requires i <= |mem|
    ensures i <= r <= |mem|
    ensures r < |mem| ==> |mem[r].bytes| + n <= mem[r].cap
    ensures forall j :: i <= j < r ==> |mem[j].bytes| + n > mem[j].cap
    decreases |mem| - i
  {
    if i == |mem| || |mem[i].bytes| + n <= mem[i].cap then i else FirstFit(mem, n, i + 1)
  }

  /** The room in a segment that create() makes for n bytes: whole pages, less the struct. */
  function CreateCap(n: nat): (cap: nat)
    ensures n <= cap
  {
    var sz := n + 80;
    (if sz < 4096 then 4096 else (sz + 4095) / 4096 * 4096) - 80
  }

  /** A new segment and the struct in front of it (80 bytes) take the least number of whole pages. */
  lemma WholePages(n: nat)
    ensures var pages := CreateCap(n) + 80; pages % 4096 == 0 && n + 80 <= pages < n + 80 + 4096
  {
    var sz := n + 80;
    if sz >= 4096 { Multiple4096((sz + 4095) / 4096); }
  }

  lemma Multiple4096(k: nat)
    ensures k * 4096 % 4096 == 0
  {
  }

  datatype Allocation = Allocated(mem: Mem, seg: nat, off: nat) | Full

  /** new_data; `creates` says whether the message can make segments. */
  function NewData(mem: Mem, creates: bool, n: nat): (r: Allocation) {
    var i := FirstFit(mem, n, 0);
    if i < |mem| then Allocated(Grow(mem, i, n), i, |mem[i].bytes|)
    else if creates then Allocated(mem + [Seg(Zeros(n), CreateCap(n))], i, 0)
    else Full
  }

  datatype Outcome = Done(mem: Mem) | NeedToCopy | NoRoom

  /** A slot for a pointer. */
  ghost predicate Slot(mem: Mem, s: nat, d: nat) {
    s < |mem| && d % 8 == 0 && d + 8 <= |mem[s].bytes|
  }

  /** p starts at a word of its segment, behind a tag if it has one. */
  ghost predicate InPlace(mem: Mem, p: Ptr<nat>) {
    && p.seg < |mem| && Start(p) % 8 == 0 && 0 <= Start(p) <= |mem[p.seg].bytes| < 0x8000_0000
    && (p.hasTag ==> Start(p) >= 8)
  }

  lemma GoodIsPlaced(mem: Mem, p: Ptr<nat>)
    requires WellFormed(mem) && Good(mem, p)
    ensures Encodable(p) && InPlace(mem, p)
  {
    hide Times, WordAt, TagWord, ElementWord, Encodable;
  }

  /** Where the tag in front of p is. */
  function TagOffset<S>(p: Ptr<S>): (t: nat)
    requires Start(p) % 8 == 0 && Start(p) >= 8
    ensures t % 8 == 0 && t + 8 == Start(p)
  {
    Start(p) - 8
  }

  /** write_ptr: a segment of no or another message is numbered |mem| or more. */
  ghost function Write(mem: Mem, creates: bool, s: nat, d: nat, p: Ptr<nat>): (r: Outcome)
    requires WellFormed(mem) && Slot(mem, s, d) && Encodable(p)
    requires Empty(p) || p.seg >= |mem| || p.member || InPlace(mem, p)
  {
    if Empty(p) then Done(Poke(mem, s, d, TagWord(p, 0)))
    else if p.seg >= |mem| || p.member then NeedToCopy
    else if p.seg == s then Done(Poke(mem, s, d, TagWord(p, WordsBetween(d, Start(p)))))
    else if p.hasTag then Done(Poke(mem, s, d, FarWord(TagOffset(p), false, p.seg)))
    else if |mem[p.seg].bytes| + 8 <= mem[p.seg].cap then
      var t := |mem[p.seg].bytes|;
      Done(LandingPad(Grow(mem, p.seg, 8), s, d, p, t))
    else
      match Pads(mem, creates, s)
      case Full => NoRoom
      case Allocated(m1, s2, t) =>
        PadsFacts(mem, creates, s);
        Done(DoubleFar(m1, s, d, p, s2, t))
  }

  /** A tag at t of the object's segment, and a far pointer to it. */
  ghost function LandingPad(m1: Mem, s: nat, d: nat, p: Ptr<nat>, t: nat): (r: Mem)
    requires s < |m1| && d + 8 <= |m1[s].bytes| && p.seg < |m1| && p.seg < TWO32 && Encodable(p)
    requires t % 8 == 0 && t + 8 <= |m1[p.seg].bytes| && t + 8 < TWO32
  {
    var m2 := Poke(m1, p.seg, t, TagWord(p, WordsBetween(t, Start(p))));
    Poke(m2, s, d, FarWord(t, false, p.seg))
  }

  /** The words from the end of a pointer at d to an object at start. */
  function WordsBetween(d: nat, start: int): (r: int) { (start - d - 8) / 8 }

  /** A far pointer and a tag at t of segment s2, and a double far pointer to them. */
  ghost function DoubleFar(m1: Mem, s: nat, d: nat, p: Ptr<nat>, s2: nat, t: nat): (r: Mem)
    requires s < |m1| && d + 8 <= |m1[s].bytes| && s2 < |m1| && s2 < TWO32 && t + 16 <= |m1[s2].bytes| < TWO32
    requires t % 8 == 0
    requires p.seg < TWO32 && 0 <= Start(p) < 0x8000_0000 && Start(p) % 8 == 0 && Encodable(p)
  {
    var m2 := Poke(m1, s2, t, FarWord(Start(p), false, p.seg));
    var m3 := Poke(m2, s2, t + 8, TagWord(p, 0));
    Poke(m3, s, d, FarWord(t, true, s2))
  }

  /** Room for the two words of a double far pointer, if possible in the slot's segment. */
  function Pads(mem: Mem, creates: bool, s: nat): (r: Allocation)
    requires s < |mem|
  {
    if |mem[s].bytes| + 16 <= mem[s].cap then Allocated(Grow(mem, s, 16), s, |mem[s].bytes|)
    else NewData(mem, creates, 16)
  }

  /** They go to the end of the slot's segment even if they fill it, and elsewhere only when it is too full. */
  lemma PadsPlace(mem: Mem, creates: bool, s: nat, bytes: seq<byte>)
    requires s < |mem| && WellFormed(mem) && mem[s].bytes == bytes
    ensures mem[s].cap == |bytes| + 16 ==>
      Pads(mem, creates, s) == Allocated(mem[s := Seg(bytes + Zeros(16), |bytes| + 16)], s, |bytes|)
    ensures mem[s].cap == |bytes| + 8 && Pads(mem, creates, s).Allocated? ==> Pads(mem, creates, s).seg != s
  {
  }

  // ---------------------------------------------------------------- frames

  /** mem2 has all of mem, at the same place, and maybe more. */
  ghost predicate Extends(mem: Mem, mem2: Mem) {
    && |mem| <= |mem2|
    && forall i :: 0 <= i < |mem| ==> mem[i].bytes <= mem2[i].bytes && mem[i].cap == mem2[i].cap
  }

  /** The same but for the word at d of segment s. */
  ghost predicate ExtendsBut(mem: Mem, mem2: Mem, s: nat, d: nat) {
    && |mem| <= |mem2|
    && (forall i :: 0 <= i < |mem| ==> |mem[i].bytes| <= |mem2[i].bytes| && mem[i].cap == mem2[i].cap)
    && (forall i, k :: 0 <= i < |mem| && 0 <= k < |mem[i].bytes| && !(i == s && d <= k < d + 8) ==>
      mem2[i].bytes[k] == mem[i].bytes[k])
  }

  /** The bytes that an allocation adds are zero, and it keeps the message well formed. */
  ghost predicate Allocates(mem: Mem, a: Allocation, n: nat)
    requires a.Allocated?
  {
    && a.seg < |a.mem| && a.off + n == |a.mem[a.seg].bytes| && a.off % 8 == 0
    && a.mem[a.seg].bytes[a.off..] == Zeros(n)
    && Extends(mem, a.mem) && |a.mem| <= |mem| + 1
    && (a.seg < |mem| ==> a.off == |mem[a.seg].bytes|)
    && (forall i :: 0 <= i < |mem| && i != a.seg ==> a.mem[i] == mem[i])
    && Sized(a.mem)
  }

  lemma GrowFacts(mem: Mem, i: nat, n: nat)
    requires WellFormed(mem) && i < |mem| && |mem[i].bytes| + n <= mem[i].cap && n % 8 == 0
    ensures Allocates(mem, Allocated(Grow(mem, i, n), i, |mem[i].bytes|), n)
  {
  }

  lemma NewDataFacts(mem: Mem, creates: bool, n: nat)
    requires WellFormed(mem) && n % 8 == 0 && n < 0x7FFF_0000
    ensures var a := NewData(mem, creates, n); a.Allocated? ==> Allocates(mem, a, n)
  {
    var i := FirstFit(mem, n, 0);
    if i < |mem| {
      GrowFacts(mem, i, n);
    } else {
      RoundedUp(n + 80);
    }
  }

  lemma RoundedUp(sz: nat)
    ensures sz <= (sz + 4095) / 4096 * 4096 <= sz + 4095
  {
  }

  lemma PadsFacts(mem: Mem, creates: bool, s: nat)
    requires WellFormed(mem) && s < |mem|
    ensures var a := Pads(mem, creates, s); a.Allocated? ==> Allocates(mem, a, 16)
  {
    if |mem[s].bytes| + 16 <= mem[s].cap { GrowFacts(mem, s, 16); } else { NewDataFacts(mem, creates, 16); }
  }

  lemma PokeNew(mem: Mem, m1: Mem, i: nat, off: nat, w: Word)
    requires Extends(mem, m1) && i < |m1| && off + 8 <= |m1[i].bytes| && Fits(w)
    requires i < |mem| ==> off >= |mem[i].bytes|
    ensures Extends(mem, Poke(m1, i, off, w))
  {
    hide WordAt;
    var m := Poke(m1, i, off, w);
    if i < |mem| {
      var b := m[i].bytes;
      assert forall k :: 0 <= k < |mem[i].bytes| ==> mem[i].bytes[k] == m1[i].bytes[k] && b[k] == m1[i].bytes[k];
    }
  }

  lemma PokeSlot(mem: Mem, m1: Mem, s: nat, d: nat, w: Word)
    requires Extends(mem, m1) && s < |mem| && d + 8 <= |mem[s].bytes| && Fits(w)
    ensures ExtendsBut(mem, Poke(m1, s, d, w), s, d)
  {
    hide WordAt;
  }

  lemma PokeWord(m: Mem, i: nat, off: nat, w: Word, j: nat, o: nat)
    requires i < |m| && off + 8 <= |m[i].bytes| && Fits(w) && j < |m| && o + 8 <= |m[j].bytes|
    requires i == j ==> off + 8 <= o || o + 8 <= off
    ensures WordAt(Poke(m, i, off, w)[j].bytes, o) == WordAt(m[j].bytes, o)
  {
    var b := Poke(m, i, off, w)[j].bytes;
    WordAtSame(m[j].bytes, b, o);
  }

  // ---------------------------------------------------------------- what write_ptr achieves

  /** The slot is not one of the tags in front of p's data. */
  predicate SlotClear(s: nat, d: nat, p: Ptr<nat>) {
    p.seg != s || d + 8 <= Start(p) - (if p.hasTag then 8 else 0) || p.data <= d
  }

  /** Words side by side are apart, and so are a slot and the tag or the data that begin behind it or end before it. */
  lemma SideBySide(s: nat, d: nat, p: Ptr<nat>)
    ensures WordClear(s, d, s, d + 8) && WordClear(s, d + 8, s, d) && WordClear(s, d, s + 1, d)
    ensures p.data == d ==> SlotClear(p.seg, d, p)
    ensures Start(p) == d + (if p.hasTag then 16 else 8) ==> SlotClear(p.seg, d, p)
  {
  }

  lemma WordKept(mem: Mem, m2: Mem, s: nat, d: nat, i: nat, o: nat)
    requires ExtendsBut(mem, m2, s, d) && i < |mem| && o + 8 <= |mem[i].bytes|
    requires i == s ==> o + 8 <= d || d + 8 <= o
    ensures WordAt(m2[i].bytes, o) == WordAt(mem[i].bytes, o)
  {
    hide WordAt;
    WordAtSame(mem[i].bytes, m2[i].bytes, o);
  }

  lemma GoodKept(mem: Mem, m2: Mem, s: nat, d: nat, p: Ptr<nat>)
    requires Good(mem, p) && ExtendsBut(mem, m2, s, d) && SlotClear(s, d, p)
    ensures Good(m2, p)
  {
    if p.composite { WordKept(mem, m2, s, d, p.seg, p.data - 8); }
    if p.hasTag { WordKept(mem, m2, s, d, p.seg, Start(p) - 8); }
    hide WordAt, TagWord, ElementWord, Times, Encodable, ExtendsBut;
    assert |m2[p.seg].bytes| >= |mem[p.seg].bytes| by { LongerSegment(mem, m2, s, d, p.seg); }
  }

  lemma LongerSegment(mem: Mem, m2: Mem, s: nat, d: nat, i: nat)
    requires ExtendsBut(mem, m2, s, d) && i < |mem|
    ensures |m2| >= |mem| && |m2[i].bytes| >= |mem[i].bytes|
  {
  }

  /** The slot leads to p, and what is read there can be written again. */
  ghost predicate LeadsTo(m: Mem, s: nat, d: nat, p: Ptr<nat>) {
    && s < |m| && d + 8 <= |m[s].bytes| && Read(m, s, d).Some?
    && var q := Read(m, s, d).value; Good(m, q) && q == Clip(p).(hasTag := q.hasTag)
  }

  lemma SameShape<S>(p: Ptr<S>, tag: bool)
    requires Encodable(p)
    ensures var q := p.(hasTag := tag);
      && Encodable(q) && Size(q) == Size(p) && Start(q) == Start(p)
      && (p.kind.List? && p.composite ==> ElementWord(q) == ElementWord(p))
  {
    hide Times, StructWord;
  }

  lemma GoodClipped(m: Mem, p: Ptr<nat>)
    requires Good(m, p)
    ensures Good(m, Clip(p).(hasTag := false))
  {
    var q := Clip(p).(hasTag := false);
    if p.kind.List? && !p.composite {
      hide Times, WordAt, TagWord, ElementWord;
      ClipShrinks(p.len, p.datasz + 8 * p.ptrs);
    } else if p.kind.BitList? {
      hide Times, WordAt, TagWord, ElementWord, BitBytes;
      ClippedBits(p.len);
    } else {
      assert q == p.(hasTag := false);
      SameShape(p, false);
      hide Times, WordAt, TagWord, ElementWord;
    }
  }

  lemma WordsApart(mem: Mem, p: Ptr<nat>, d: nat)
    requires InPlace(mem, p) && d % 8 == 0 && d < 0x8000_0000
    ensures Apart(p, d, WordsBetween(d, Start(p)))
  {
  }

  lemma NearForm(mem: Mem, s: nat, d: nat, p: Ptr<nat>)
    requires WellFormed(mem) && Slot(mem, s, d) && Good(mem, p) && !Empty(p) && SlotClear(s, d, p) && p.seg == s
    ensures var m := Poke(mem, s, d, TagWord(p, WordsBetween(d, Start(p))));
      ExtendsBut(mem, m, s, d) && LeadsTo(m, s, d, p) && |m| == |mem| && Sized(m)
  {
    hide WordAt, TagWord, Good, Read, Times, Encodable, WordsBetween;
    GoodIsPlaced(mem, p);
    var off := WordsBetween(d, Start(p));
    var m := Poke(mem, s, d, TagWord(p, off));
    PokeSlot(mem, mem, s, d, TagWord(p, off));
    GoodKept(mem, m, s, d, p);
    WordsApart(mem, p, d);
    NearReads(m, d, p, off);
    GoodClipped(m, p);
  }

  lemma TagForm(mem: Mem, s: nat, d: nat, p: Ptr<nat>)
    requires InPlace(mem, p) && p.hasTag && p.seg != s
    requires WellFormed(mem) && Slot(mem, s, d) && Good(mem, p) && !Empty(p)
    ensures var m := Poke(mem, s, d, FarWord(TagOffset(p), false, p.seg));
      ExtendsBut(mem, m, s, d) && LeadsTo(m, s, d, p) && |m| == |mem| && Sized(m)
  {
    hide WordAt, TagWord, Good, Read, Times, Encodable;
    var far := FarWord(TagOffset(p), false, p.seg);
    var m := Poke(mem, s, d, far);
    PokeSlot(mem, mem, s, d, far);
    GoodKept(mem, m, s, d, p);
    TagThere(m, p);
    FarReads(m, s, d, p, TagOffset(p), 0);
  }

  lemma TagThere(m: Mem, p: Ptr<nat>)
    requires Good(m, p) && p.hasTag
    ensures Encodable(p) && p.seg < |m| && 8 <= Start(p) <= |m[p.seg].bytes|
    ensures WordAt(m[p.seg].bytes, Start(p) - 8) == TagWord(p, 0)
  {
    hide Times, WordAt, TagWord, ElementWord, Encodable;
  }

  lemma PadForm(mem: Mem, s: nat, d: nat, p: Ptr<nat>)
    requires WellFormed(mem) && Slot(mem, s, d) && Good(mem, p) && !Empty(p) && p.seg != s
    requires Encodable(p) && p.seg < |mem| && |mem[p.seg].bytes| + 8 <= mem[p.seg].cap
    ensures var m := LandingPad(Grow(mem, p.seg, 8), s, d, p, |mem[p.seg].bytes|);
      ExtendsBut(mem, m, s, d) && LeadsTo(m, s, d, p) && |m| == |mem| && Sized(m)
  {
    hide WordAt, TagWord, Good, Read, Times, Encodable, WordsBetween;
    GoodIsPlaced(mem, p);
    var t := |mem[p.seg].bytes|;
    var off := WordsBetween(t, Start(p));
    GrowFacts(mem, p.seg, 8);
    var m1 := Grow(mem, p.seg, 8);
    var m2 := Poke(m1, p.seg, t, TagWord(p, off));
    PokeNew(mem, m1, p.seg, t, TagWord(p, off));
    var far := FarWord(t, false, p.seg);
    var m := Poke(m2, s, d, far);
    PokeSlot(mem, m2, s, d, far);
    GoodKept(mem, m, s, d, p);
    PokeWord(m2, s, d, far, p.seg, t);
    WordsApart(mem, p, t);
    FarReads(m, s, d, p, t, off);
  }

  lemma DoubleForm(mem: Mem, s: nat, d: nat, p: Ptr<nat>, a: Allocation)
    requires WellFormed(mem) && Slot(mem, s, d) && Good(mem, p) && !Empty(p) && p.seg != s
    requires a.Allocated? && Allocates(mem, a, 16) && Encodable(p) && InPlace(mem, p)
    ensures var m := DoubleFar(a.mem, s, d, p, a.seg, a.off);
      ExtendsBut(mem, m, s, d) && LeadsTo(m, s, d, p) && |m| <= |mem| + 1 && Sized(m)
  {
    hide WordAt, TagWord, Good, Read, Times, Encodable, FarWord, ExtendsBut, PutWord, Zeros, Empty;
    var m1, s2, t := a.mem, a.seg, a.off;
    var far, tag, double := FarWord(Start(p), false, p.seg), TagWord(p, 0), FarWord(t, true, s2);
    var m2 := Poke(m1, s2, t, far);
    PokeNew(mem, m1, s2, t, far);
    var m3 := Poke(m2, s2, t + 8, tag);
    PokeNew(mem, m2, s2, t + 8, tag);
    var m := Poke(m3, s, d, double);
    PokeSlot(mem, m3, s, d, double);
    GoodKept(mem, m, s, d, p);
    PokeWord(m2, s2, t + 8, tag, s2, t);
    PokeWord(m3, s, d, double, s2, t);
    PokeWord(m3, s, d, double, s2, t + 8);
    DoubleReads(m, s, d, p, s2, t);
    GoodClipped(m, p);
  }

  ghost predicate Wrote(mem: Mem, m2: Mem, s: nat, d: nat, p: Ptr<nat>)
    requires s < |mem| && d + 8 <= |mem[s].bytes|
  {
    && ExtendsBut(mem, m2, s, d) && |m2| <= |mem| + 1 && Sized(m2)
    && if Empty(p) then Read(m2, s, d) == Some(NullPtr()) else LeadsTo(m2, s, d, p)
  }

  /**
    write_ptr then read_ptr: whichever form was chosen, the slot leads to the object, nothing
    allocated before changed but the slot, and segments still end at words.  A list longer than
    the 29-bit count comes back shortened; an empty struct comes back as a null pointer.
   */
  lemma WriteThenRead(mem: Mem, creates: bool, s: nat, d: nat, p: Ptr<nat>)
    requires WellFormed(mem) && Slot(mem, s, d) && SlotClear(s, d, p)
    requires if Empty(p) then Encodable(p) else Good(mem, p) && Encodable(p) && InPlace(mem, p)
    ensures Write(mem, creates, s, d, p).Done? ==> Wrote(mem, Write(mem, creates, s, d, p).mem, s, d, p)
    ensures Write(mem, creates, s, d, p) != NeedToCopy
  {
    hide LeadsTo, Good, InPlace, WordAt, TagWord, Times, Encodable, ExtendsBut, Poke, Grow, LandingPad, DoubleFar,
      WordsBetween, FarWord, Sized, Read, Empty;
    if Empty(p) {
      EmptyForm(mem, s, d, p);
    } else {
      MemberOf(mem, p);
      if p.seg == s {
        NearForm(mem, s, d, p);
      } else if p.hasTag {
        TagForm(mem, s, d, p);
      } else if |mem[p.seg].bytes| + 8 <= mem[p.seg].cap {
        PadForm(mem, s, d, p);
      } else if Pads(mem, creates, s).Allocated? {
        PadsFacts(mem, creates, s);
        DoubleForm(mem, s, d, p, Pads(mem, creates, s));
      }
    }
  }

  lemma MemberOf(mem: Mem, p: Ptr<nat>)
    requires WellFormed(mem) && Good(mem, p)
    ensures p.seg < |mem| && !p.member && Start(p) % 8 == 0 && 0 <= Start(p) < 0x8000_0000
    ensures (p.hasTag ==> Start(p) >= 8)
  {
    GoodIsPlaced(mem, p);
  }

  lemma EmptyForm(mem: Mem, s: nat, d: nat, p: Ptr<nat>)
    requires WellFormed(mem) && Slot(mem, s, d) && Empty(p) && Encodable(p)
    ensures var m := Poke(mem, s, d, TagWord(p, 0));
      ExtendsBut(mem, m, s, d) && |m| == |mem| && Sized(m) && Read(m, s, d) == Some(NullPtr())
  {
    hide TagWord, Encodable, Empty;
    PokeSlot(mem, mem, s, d, TagWord(p, 0));
    EmptyReads(Poke(mem, s, d, TagWord(p, 0)), s, d, p);
  }

  lemma ClippedOrNot(p: Ptr<nat>)
    ensures Clip(p) == p <==> (Counted(p) ==> p.len < TWO29)
  {
  }

  /** What is read back is the object, tag or not, exactly when the count fits its 29 bits. */
  lemma WholeIff(mem: Mem, creates: bool, s: nat, d: nat, p: Ptr<nat>)
    requires WellFormed(mem) && Slot(mem, s, d) && SlotClear(s, d, p) && !Empty(p)
    requires Good(mem, p) && Encodable(p) && InPlace(mem, p)
    ensures var w := Write(mem, creates, s, d, p); w.Done? ==>
      && Slot(w.mem, s, d) && Read(w.mem, s, d).Some?
      && (Read(w.mem, s, d).value.(hasTag := p.hasTag) == p <==> (Counted(p) ==> p.len < TWO29))
  {
    hide Good, InPlace, Encodable, ExtendsBut, Read, Empty, Write;
    WriteThenRead(mem, creates, s, d, p);
    ClippedOrNot(p);
  }

  /** A message that makes segments has room for every pointer. */
  lemma NoRoomIff(mem: Mem, creates: bool, s: nat, d: nat, p: Ptr<nat>)
    requires WellFormed(mem) && Slot(mem, s, d) && Encodable(p)
    requires Empty(p) || p.seg >= |mem| || p.member || InPlace(mem, p)
    ensures Write(mem, creates, s, d, p).NoRoom? ==> !creates
  {
    hide TagWord, Encodable, Poke, Grow, LandingPad, DoubleFar;
  }

  /** What the slot holds after a successful write. */
  lemma ReadBack(mem: Mem, creates: bool, s: nat, d: nat, p: Ptr<nat>)
    requires WellFormed(mem) && Slot(mem, s, d) && SlotClear(s, d, p) && Good(mem, p)
    ensures Encodable(p) && InPlace(mem, p)
    ensures var w := Write(mem, creates, s, d, p);
      && (w.Done? || (w.NoRoom? && !creates))
      && (w.Done? ==>
        && ExtendsBut(mem, w.mem, s, d) && Slot(w.mem, s, d) && Read(w.mem, s, d).Some?
        && var v := Read(w.mem, s, d).value;
          if Empty(p) then v == NullPtr() else v == Clip(p).(hasTag := v.hasTag))
  {
    hide Good, InPlace, Encodable, Read, Empty, Write;
    GoodIsPlaced(mem, p);
    WriteThenRead(mem, creates, s, d, p);
    NoRoomIff(mem, creates, s, d, p);
  }

  /** The message of one segment that holds a slot and a list of 2^29 bytes behind it. */
  function HalfGigabyte(): (mem: Mem) { [Seg(Zeros(TWO29 + 8), TWO29 + 8)] }

  const LONG_LIST: Ptr<nat> := Ptr(List, false, false, false, 1, 0, TWO29, 8, 0)

  lemma LongListGood()
    ensures WellFormed(HalfGigabyte()) && Slot(HalfGigabyte(), 0, 0) && SlotClear(0, 0, LONG_LIST) && !Empty(LONG_LIST)
    ensures Good(HalfGigabyte(), LONG_LIST) && Encodable(LONG_LIST) && InPlace(HalfGigabyte(), LONG_LIST)
  {
    hide WordAt, TagWord, ElementWord;
    assert Size(LONG_LIST) == TWO29;
  }

  /** Written and read back, the list is without any element. */
  lemma LongListLost(creates: bool)
    ensures WellFormed(HalfGigabyte()) && Good(HalfGigabyte(), LONG_LIST) && InPlace(HalfGigabyte(), LONG_LIST)
    ensures var w := Write(HalfGigabyte(), creates, 0, 0, LONG_LIST);
      && w.Done? && Slot(w.mem, 0, 0) && Read(w.mem, 0, 0).Some?
      && Read(w.mem, 0, 0).value.(hasTag := false) == LONG_LIST.(len := 0)
  {
    LongListGood();
    hide Good, InPlace, Encodable, ExtendsBut, Read, Poke, TagWord, HalfGigabyte;
    WriteThenRead(HalfGigabyte(), creates, 0, 0, LONG_LIST);
  }

  // ---------------------------------------------------------------- the words that are written

  /** w is a tag for p as if it stood `off` words before the object. */
  ghost predicate TagIs(p: Ptr<nat>, off: int, w: Word)
    requires Encodable(p)
  {
    Tagged(p, w) && SignedOff(w.lo) == off
  }

  /**
    What write_ptr leaves in the words of the message, in numbers: a tag in the slot, a far word (its
    low three bits are 2) to a tag, or a double far word (6) to a far word and a tag.
   */
  ghost predicate Laid(mem: Mem, m: Mem, creates: bool, s: nat, d: nat, p: Ptr<nat>)
    requires WellFormed(mem) && Slot(mem, s, d) && Encodable(p) && InPlace(mem, p)
  {
    && Slot(m, s, d)
    && var v := WordAt(m[s].bytes, d);
      if p.seg == s then TagIs(p, (Start(p) - d - 8) / 8, v)
      else if p.hasTag then v == Word(Start(p) - 8 + 2, p.seg)
      else if |mem[p.seg].bytes| + 8 <= mem[p.seg].cap then
        var t := |mem[p.seg].bytes|;
        && v == Word(t + 2, p.seg) && Slot(m, p.seg, t)
        && TagIs(p, (Start(p) - t - 8) / 8, WordAt(m[p.seg].bytes, t))
      else
        var a := Pads(mem, creates, s);
        && a.Allocated? && v == Word(a.off + 6, a.seg) && Slot(m, a.seg, a.off) && Slot(m, a.seg, a.off + 8)
        && WordAt(m[a.seg].bytes, a.off) == Word(Start(p) + 2, p.seg)
        && TagIs(p, 0, WordAt(m[a.seg].bytes, a.off + 8))
  }

  lemma TagFits(mem: Mem, p: Ptr<nat>, d: nat)
    requires InPlace(mem, p) && Encodable(p) && !Empty(p) && d % 8 == 0 && d < 0x8000_0000
    ensures var off := WordsBetween(d, Start(p)); off == (Start(p) - d - 8) / 8 && TagIs(p, off, TagWord(p, off))
    ensures TagIs(p, 0, TagWord(p, 0))
  {
    hide TagWord, Encodable, Tagged, SignedOff;
    WordsApart(mem, p, d);
    TagFields(p, WordsBetween(d, Start(p)));
    TagFields(p, 0);
  }

  lemma PadLaid(mem: Mem, creates: bool, s: nat, d: nat, p: Ptr<nat>)
    requires WellFormed(mem) && Slot(mem, s, d) && Encodable(p) && !Empty(p) && InPlace(mem, p)
    requires p.seg != s && !p.hasTag && |mem[p.seg].bytes| + 8 <= mem[p.seg].cap
    ensures Laid(mem, LandingPad(Grow(mem, p.seg, 8), s, d, p, |mem[p.seg].bytes|), creates, s, d, p)
  {
    hide TagWord, Encodable, TagIs, WordAt, PutWord, Empty, Zeros;
    var t := |mem[p.seg].bytes|;
    var off := WordsBetween(t, Start(p));
    TagFits(mem, p, t);
    var m2 := Poke(Grow(mem, p.seg, 8), p.seg, t, TagWord(p, off));
    PokeWord(m2, s, d, FarWord(t, false, p.seg), p.seg, t);
  }

  lemma DoubleLaid(mem: Mem, creates: bool, s: nat, d: nat, p: Ptr<nat>)
    requires WellFormed(mem) && Slot(mem, s, d) && Encodable(p) && !Empty(p) && InPlace(mem, p)
    requires p.seg != s && !p.hasTag && |mem[p.seg].bytes| + 8 > mem[p.seg].cap && Pads(mem, creates, s).Allocated?
    requires Allocates(mem, Pads(mem, creates, s), 16)
    ensures var a := Pads(mem, creates, s);
      Laid(mem, DoubleFar(a.mem, s, d, p, a.seg, a.off), creates, s, d, p)
  {
    hide TagWord, Encodable, TagIs, WordAt, PutWord, Empty, Zeros, Pads;
    var a := Pads(mem, creates, s);
    TagFits(mem, p, 0);
    var far, tag, double := FarWord(Start(p), false, p.seg), TagWord(p, 0), FarWord(a.off, true, a.seg);
    var m2 := Poke(a.mem, a.seg, a.off, far);
    var m3 := Poke(m2, a.seg, a.off + 8, tag);
    PokeWord(m2, a.seg, a.off + 8, tag, a.seg, a.off);
    PokeWord(m3, s, d, double, a.seg, a.off);
    PokeWord(m3, s, d, double, a.seg, a.off + 8);
  }

  /** Whichever form is chosen, the words are those. */
  lemma WriteLayout(mem: Mem, creates: bool, s: nat, d: nat, p: Ptr<nat>)
    requires WellFormed(mem) && Slot(mem, s, d) && Encodable(p) && !Empty(p) && InPlace(mem, p) && !p.member
    ensures var w := Write(mem, creates, s, d, p); w.Done? ==> Laid(mem, w.mem, creates, s, d, p)
  {
    hide TagWord, Encodable, TagIs, WordAt, PutWord, Empty, LandingPad, DoubleFar, Pads, Grow;
    TagFits(mem, p, d);
    if p.seg != s && !p.hasTag {
      if |mem[p.seg].bytes| + 8 <= mem[p.seg].cap {
        PadLaid(mem, creates, s, d, p);
      } else if Pads(mem, creates, s).Allocated? {
        PadsFacts(mem, creates, s);
        DoubleLaid(mem, creates, s, d, p);
      }
    }
  }

  // ---------------------------------------------------------------- other pointers

  predicate WordClear(s: nat, d: nat, i: nat, o: int) { i != s || o + 8 <= d || d + 8 <= o }

  /** The slot (s, d) is none of the words read_ptr looks at from (s2, d2). */
  ghost predicate ReadClear(mem: Mem, s2: nat, d2: nat, s: nat, d: nat)
    requires s2 < |mem| && d2 + 8 <= |mem[s2].bytes|
  {
    var val, r := WordAt(mem[s2].bytes, d2), Read(mem, s2, d2);
    && WordClear(s, d, s2, d2)
    && (val.lo % 8 == FAR_PTR || val.lo % 8 == DOUBLE_PTR ==> WordClear(s, d, val.hi, FarOff(val)))
    && (val.lo % 8 == DOUBLE_PTR ==> WordClear(s, d, val.hi, FarOff(val) + 8))
    && (r.Some? && r.value.composite ==> WordClear(s, d, r.value.seg, r.value.data - 8))
  }

  lemma FollowKept(mem: Mem, m2: Mem, s: nat, d: nat, s2: nat, d2: nat)
    requires ExtendsBut(mem, m2, s, d) && s2 < |mem| && d2 + 8 <= |mem[s2].bytes| && ReadClear(mem, s2, d2, s, d)
    requires Follow(mem, s2, d2).Target?
    ensures Follow(m2, s2, d2) == Follow(mem, s2, d2) && WordAt(m2[s2].bytes, d2) == WordAt(mem[s2].bytes, d2)
  {
    hide WordAt, FarOff, Read;
    WordKept(mem, m2, s, d, s2, d2);
    var val := WordAt(mem[s2].bytes, d2);
    if val.lo % 8 == FAR_PTR {
      WordKept(mem, m2, s, d, val.hi, FarOff(val));
    } else if val.lo % 8 == DOUBLE_PTR {
      WordKept(mem, m2, s, d, val.hi, FarOff(val));
      WordKept(mem, m2, s, d, val.hi, FarOff(val) + 8);
    }
  }

  /** A write leaves every other pointer of the message leading where it led. */
  lemma ReadKept(mem: Mem, m2: Mem, s: nat, d: nat, s2: nat, d2: nat)
    requires ExtendsBut(mem, m2, s, d) && s2 < |mem| && d2 + 8 <= |mem[s2].bytes| && ReadClear(mem, s2, d2, s, d)
    requires Read(mem, s2, d2).Some? && !Read(mem, s2, d2).value.kind.Null?
    ensures Read(m2, s2, d2) == Read(mem, s2, d2)
  {
    hide WordAt, Follow, SignedOff, PlainList, Times;
    FollowKept(mem, m2, s, d, s2, d2);
    var p := Read(mem, s2, d2).value;
    ReadWithin(mem, s2, d2);
    if p.composite { WordKept(mem, m2, s, d, p.seg, p.data - 8); }
    LongerSegment(mem, m2, s, d, p.seg);
  }

  // ---------------------------------------------------------------- new objects

  function Round8(n: nat): (r: nat)
    ensures n <= r < n + 8 && r % 8 == 0 && (n % 8 == 0 ==> r == n)
  {
    (n + 7) / 8 * 8
  }

  /** n bytes at o of segment i were allocated on the way from mem to m2, behind what was there. */
  ghost predicate NewBlock(mem: Mem, m2: Mem, i: nat, o: nat, n: nat) {
    && Extends(mem, m2) && |m2| <= |mem| + 1 && i < |m2| && o + n <= |m2[i].bytes|
    && (i < |mem| ==> |mem[i].bytes| <= o)
  }

  /** Zero bytes from o on. */
  ghost predicate Blank(m: Mem, i: nat, o: nat, n: nat) {
    i < |m| && o + n <= |m[i].bytes| && forall k :: o <= k < o + n ==> m[i].bytes[k] == 0
  }

  lemma AllocatedBlock(mem: Mem, a: Allocation, n: nat)
    requires a.Allocated? && Allocates(mem, a, n)
    ensures NewBlock(mem, a.mem, a.seg, a.off, n) && Blank(a.mem, a.seg, a.off, n)
    ensures a.off % 8 == 0 && a.seg < |a.mem| && a.off + n == |a.mem[a.seg].bytes|
  {
    var b := a.mem[a.seg].bytes;
    assert forall k :: a.off <= k < |b| ==> b[k] == b[a.off..][k - a.off];
  }

  lemma EmptyBlock(mem: Mem, i: nat)
    requires i < |mem|
    ensures NewBlock(mem, mem, i, |mem[i].bytes|, 0) && Blank(mem, i, |mem[i].bytes|, 0)
  {
  }

  lemma PokeInBlock(mem: Mem, m1: Mem, i: nat, o: nat, n: nat, w: Word)
    requires NewBlock(mem, m1, i, o, n) && Blank(m1, i, o, n) && n >= 8 && Fits(w)
    ensures NewBlock(mem, Poke(m1, i, o, w), i, o, n) && Blank(Poke(m1, i, o, w), i, o + 8, n - 8)
  {
    hide WordAt;
    PokeNew(mem, m1, i, o, w);
  }

  /** Where p's memory begins: at its tag, if it has one. */
  function Front<S>(p: Ptr<S>): (r: int) { Start(p) - if p.hasTag then 8 else 0 }

  /** p is an object of its own in new memory, with all its fields zero. */
  ghost predicate NewObjectAt(mem: Mem, m2: Mem, p: Ptr<nat>)
    requires 0 <= Front(p)
  {
    && Good(m2, p) && Blank(m2, p.seg, p.data, Size(p))
    && NewBlock(mem, m2, p.seg, Front(p), p.data + Size(p) - Front(p))
  }

  /** A zeroed block becomes a composite list when its element word is stored. */
  lemma CompositeNew(mem: Mem, m1: Mem, p: Ptr<nat>)
    requires Encodable(p) && p.kind.List? && p.composite && !p.member && p.data % 8 == 0 && 0 <= Front(p)
    requires NewBlock(mem, m1, p.seg, Front(p), p.data + Size(p) - Front(p)) && Blank(m1, p.seg, Start(p), Size(p) + 8)
    requires p.hasTag ==> WordAt(m1[p.seg].bytes, Front(p)) == TagWord(p, 0)
    ensures NewObjectAt(mem, Poke(m1, p.seg, p.data - 8, ElementWord(p)), p)
  {
    hide Times, WordAt, TagWord, ElementWord, Encodable;
    PokeNew(mem, m1, p.seg, p.data - 8, ElementWord(p));
    if p.hasTag { PokeWord(m1, p.seg, p.data - 8, ElementWord(p), p.seg, Front(p)); }
  }

  /** So a slot that was there before is clear of its tags. */
  lemma NewIsClear(mem: Mem, m2: Mem, p: Ptr<nat>, s: nat, d: nat)
    requires 0 <= Front(p) && NewObjectAt(mem, m2, p) && s < |mem| && d + 8 <= |mem[s].bytes|
    ensures SlotClear(s, d, p)
  {
  }
}
