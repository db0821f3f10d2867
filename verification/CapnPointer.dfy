/** Pointers between the segments of a message: how read_ptr reads them (lib/capnp/capn.c). */
module CapnPointer {
  import opened Bytes
  import opened CapnWords

  /** The allocated bytes of a segment, and how many it can hold. */
  datatype Seg = Seg(bytes: seq<byte>, cap: nat)

  type Mem = seq<Seg>

  /** Segments are sized by a C int and allocated in words. */
  ghost predicate Sized(mem: Mem) {
    forall i :: 0 <= i < |mem| ==> |mem[i].bytes| <= mem[i].cap < 0x8000_0000 && |mem[i].bytes| % 8 == 0
  }

  /** Segments are numbered by 32 bits. */
  ghost predicate WellFormed(mem: Mem) { |mem| < TWO32 && Sized(mem) }

  datatype Kind = Null | Struct | List | PtrList | BitList

  /** struct capn_ptr; data is an offset into seg.  Only the kind of a null pointer means anything. */
  datatype Ptr<S> = Ptr(kind: Kind, hasTag: bool, member: bool, composite: bool,
                        datasz: nat, ptrs: nat, len: nat, data: nat, seg: S)

  function Times(n: nat, size: nat): (r: nat) { n * size }

  /** The words of a composite list's elements. */
  function ListWords<S>(p: Ptr<S>): (r: nat) { Times(p.len, p.datasz / 8 + p.ptrs) }

  /** The word in front of a composite list belongs to it. */
  function Start<S>(p: Ptr<S>): (r: int) { p.data - if p.composite then 8 else 0 }

  /** The bytes from p.data on. */
  function Size<S>(p: Ptr<S>): (r: nat) {
    match p.kind
    case Null => 0
    case Struct => p.datasz + 8 * p.ptrs
    case List => Times(p.len, p.datasz + 8 * p.ptrs)
    case PtrList => 8 * p.len
    case BitList => p.datasz
  }

  /** The bytes of a bit list as far as the 19 bits of datasz can count them. */
  function BitBytes(n: nat): (r: nat) { (n + 7) / 8 % 0x8_0000 }

  /** The counts of a pointer fit the fields of a tag. */
  predicate Encodable<S>(p: Ptr<S>) {
    match p.kind
    case Null => !p.composite
    case Struct => !p.composite && p.datasz % 8 == 0 && p.datasz < 0x8_0000 && p.ptrs < 0x1_0000 && p.len == 0
    case List =>
      if p.composite then
        && p.datasz % 8 == 0 && p.datasz < 0x8_0000 && p.ptrs < 0x1_0000
        && p.len < TWO30 && ListWords(p) < TWO29
      else p.datasz in {0, 1, 2, 4, 8} && p.ptrs == 0 && p.len < 0x8000_0000
    case PtrList => !p.composite && p.datasz == p.ptrs == 0 && p.len < TWO29
    case BitList => !p.composite && p.ptrs == 0 && p.datasz == BitBytes(p.len) && p.len < 0x8000_0000
  }

  /** A struct without fields has the same words as a null pointer. */
  predicate Empty<S>(p: Ptr<S>) { p.kind.Null? || (p.kind.Struct? && p.datasz == 0 && p.ptrs == 0) }

  /** A list whose element count need not fit the 29 bits it is written in. */
  predicate Counted<S>(p: Ptr<S>) { p.kind.BitList? || (p.kind.List? && !p.composite) }

  function Clip<S>(p: Ptr<S>): (r: Ptr<S>) {
    if Counted(p) then p.(len := p.len % TWO29) else p
  }

  function ListCode(datasz: nat): (r: nat) {
    match datasz
    case 8 => BYTE_8_LIST
    case 4 => BYTE_4_LIST
    case 2 => BYTE_2_LIST
    case 1 => BYTE_1_LIST
    case _ => VOID_LIST
  }

  /** The word of write_ptr_tag. */
  function TagWord<S>(p: Ptr<S>, off: int): (w: Word)
    requires Encodable(p)
    ensures Fits(w)
  {
    match p.kind
    case Null => Word(0, 0)
    case Struct => StructWord(off, p.datasz / 8, p.ptrs)
    case List =>
      if p.composite then ListWord(off, COMPOSITE_LIST, ListWords(p))
      else ListWord(off, ListCode(p.datasz), p.len % TWO29)
    case PtrList => ListWord(off, PTR_LIST, p.len)
    case BitList => ListWord(off, BIT_1_LIST, p.len % TWO29)
  }

  /** The word at the head of a composite list. */
  function ElementWord<S>(p: Ptr<S>): (w: Word)
    requires Encodable(p) && p.kind.List? && p.composite
    ensures Fits(w)
  {
    StructWord(p.len, p.datasz / 8, p.ptrs)
  }

  /** p denotes an object that lies in its segment, with the tags it says it has. */
  ghost predicate Good(mem: Mem, p: Ptr<nat>) {
    && Encodable(p) && !p.kind.Null? && !p.member && p.seg < |mem|
    && p.data % 8 == 0 && 0 <= Start(p) && p.data + Size(p) <= |mem[p.seg].bytes|
    && (p.composite ==> WordAt(mem[p.seg].bytes, p.data - 8) == ElementWord(p))
    && (p.hasTag ==> Start(p) >= 8 && WordAt(mem[p.seg].bytes, Start(p) - 8) == TagWord(p, 0))
  }

  // ---------------------------------------------------------------- reading

  /** Where a far pointer leads: as if the word val stood at offset d of segment seg. */
  datatype Target = Target(seg: nat, d: int, val: Word) | Broken | NoSegment

  /** lookup_far */
  function LookupFar(mem: Mem, val: Word): (r: Target) {
    var off := FarOff(val);
    if val.hi >= |mem| then NoSegment
    else if off + 8 > |mem[val.hi].bytes| then Broken
    else Target(val.hi, off, WordAt(mem[val.hi].bytes, off))
  }

  /** lookup_double */
  function LookupDouble(mem: Mem, val: Word): (r: Target) {
    var off := FarOff(val);
    if val.hi >= |mem| then NoSegment
    else if off + 16 > |mem[val.hi].bytes| then Broken
    else
      var far, tag := WordAt(mem[val.hi].bytes, off), WordAt(mem[val.hi].bytes, off + 8);
      if far.lo % 8 != FAR_PTR || tag.lo > LIST_PTR then Broken
      else if far.hi >= |mem| then NoSegment
      else Target(far.hi, -8, Word(far.lo / 8 * 4 + tag.lo, tag.hi))
  }

  function Follow(mem: Mem, s: nat, d: nat): (r: Target)
    requires s < |mem| && d + 8 <= |mem[s].bytes|
  {
    var val := WordAt(mem[s].bytes, d);
    if val.lo % 8 == FAR_PTR then LookupFar(mem, val)
    else if val.lo % 8 == DOUBLE_PTR then LookupDouble(mem, val)
    else Target(s, d, val)
  }

  function NullPtr(): (r: Ptr<nat>) { Ptr(Null, false, false, false, 0, 0, 0, 0, 0) }

  function Within(b: seq<byte>, p: Ptr<nat>): (r: Ptr<nat>) {
    if p.data + Size(p) > |b| then NullPtr() else p
  }

  /** A list that is not composite, by its element code. */
  function PlainList(code: nat, n: nat, far: bool, d: nat, s: nat): (p: Ptr<nat>)
    ensures p.data == d && p.seg == s && !p.composite && !p.member && !p.kind.Null?
  {
    match code
    case 1 => Ptr(BitList, far, false, false, BitBytes(n), 0, n, d, s)
    case 2 => Ptr(List, far, false, false, 1, 0, n, d, s)
    case 3 => Ptr(List, far, false, false, 2, 0, n, d, s)
    case 4 => Ptr(List, far, false, false, 4, 0, n, d, s)
    case 5 => Ptr(List, far, false, false, 8, 0, n, d, s)
    case 6 => Ptr(PtrList, far, false, false, 0, 0, n, d, s)
    case _ => Ptr(List, far, false, false, 0, 0, n, d, s)
  }

  /** A composite list of `words` words whose element word is at d. */
  function CompositeList(b: seq<byte>, words: nat, far: bool, d: nat, s: nat): (r: Ptr<nat>) {
    if d + 8 > |b| then NullPtr()
    else
      var w := WordAt(b, d);
      var p := Ptr(List, far, false, true, w.hi % 0x1_0000 * 8, w.hi / 0x1_0000, w.lo / 4, d + 8, s);
      if Size(p) != 8 * words then NullPtr() else Within(b, p)
  }

  /** The object at d, by the rest of its pointer word. */
  function DecodeAt(b: seq<byte>, s: nat, d: nat, val: Word, far: bool): (r: Ptr<nat>) {
    if val.lo % 4 == STRUCT_PTR then
      if val == Word(0, 0) then NullPtr()
      else Within(b, Ptr(Struct, far, false, false, val.hi % 0x1_0000 * 8, val.hi / 0x1_0000, 0, d, s))
    else if val.lo % 4 == LIST_PTR then
      if val.hi % 8 == COMPOSITE_LIST then CompositeList(b, val.hi / 8, far, d, s)
      else Within(b, PlainList(val.hi % 8, val.hi / 8, far, d, s))
    else NullPtr()
  }

  /** The object a near pointer word val leads to from offset d of segment s. */
  function Decode(mem: Mem, s: nat, d: int, val: Word, far: bool): (r: Ptr<nat>)
    requires s < |mem|
  {
    var e := d + SignedOff(val.lo) * 8 + 8;
    if e < 0 then NullPtr() else DecodeAt(mem[s].bytes, s, e, val, far)
  }

  /** read_ptr; None when a far pointer names a segment that the message does not have. */
  function Read(mem: Mem, s: nat, d: nat): (r: Option<Ptr<nat>>)
    requires s < |mem| && d + 8 <= |mem[s].bytes|
  {
    match Follow(mem, s, d)
    case NoSegment => None
    case Broken => Some(NullPtr())
    case Target(s', d', val) =>
      var far := WordAt(mem[s].bytes, d).lo % 8 == FAR_PTR && val.lo / 4 == 0;
      Some(Decode(mem, s', d', val, far))
  }

  // ---------------------------------------------------------------- what is read back

  lemma ListCodes(datasz: nat)
    requires datasz in {0, 1, 2, 4, 8}
    ensures ListCode(datasz) == CodeNumber(datasz)
    ensures forall n: nat, far, d: nat, s: nat ::
      PlainList(ListCode(datasz), n, far, d, s) == Ptr(List, far, false, false, datasz, 0, n, d, s)
  {
  }

  /** A tag for p, as if it stood `off` words before the object, is decoded as p. */
  lemma DecodeTag(mem: Mem, p: Ptr<nat>, d: int, off: int, far: bool)
    requires Good(mem, p) && !Empty(p) && -TWO29 <= off < TWO29
    requires d + 8 * off + 8 == Start(p)
    ensures Decode(mem, p.seg, d, TagWord(p, off), far) == Clip(p).(hasTag := far)
  {
    hide OffBits, SignedOff, WordAt, ListCode, Times, DecodeAt, Good;
    GoodParts(mem, p);
    TagFields(p, off);
    var val := TagWord(p, off);
    if p.kind.List? && p.composite {
      DecodeComposite(mem, p, val, far);
    } else {
      DecodeSimple(mem, p, val, far);
    }
  }

  lemma GoodParts(mem: Mem, p: Ptr<nat>)
    requires Good(mem, p)
    ensures Encodable(p) && 0 <= Start(p) && p.seg < |mem|
  {
  }

  /** The element code of a list, by its element size. */
  function CodeNumber(datasz: nat): (r: nat) {
    if datasz == 0 then 0 else if datasz == 1 then 2 else if datasz == 2 then 3 else if datasz == 4 then 4 else 5
  }

  /** The fields of a tag, in numbers. */
  ghost predicate Tagged(p: Ptr<nat>, val: Word)
    requires Encodable(p)
  {
    match p.kind
    case Null => true
    case Struct => val.lo % 4 == 0 && val.hi % 0x1_0000 * 8 == p.datasz && val.hi / 0x1_0000 == p.ptrs
    case List =>
      && val.lo % 4 == 1
      && val.hi % 8 == (if p.composite then 7 else CodeNumber(p.datasz))
      && val.hi / 8 == (if p.composite then ListWords(p) else p.len % TWO29)
    case PtrList => val.lo % 4 == 1 && val.hi % 8 == 6 && val.hi / 8 == p.len
    case BitList => val.lo % 4 == 1 && val.hi % 8 == 1 && val.hi / 8 == p.len % TWO29
  }

  lemma TagFields(p: Ptr<nat>, off: int)
    requires Encodable(p) && !Empty(p) && -TWO29 <= off < TWO29
    ensures Tagged(p, TagWord(p, off)) && SignedOff(TagWord(p, off).lo) == off
    ensures TagWord(p, off).lo % 8 != 2 && TagWord(p, off).lo % 8 != 6
    ensures off == 0 ==> TagWord(p, off).lo <= 1
  {
    hide OffBits, SignedOff, ListCode, Times;
    OffsetKept(off, 0);
    OffsetKept(off, 1);
    match p.kind {
      case Struct =>
        Halves(p.datasz / 8, p.ptrs);
      case List =>
        if p.composite {
          Code(COMPOSITE_LIST, ListWords(p));
        } else {
          ListCodes(p.datasz);
          Code(ListCode(p.datasz), p.len % TWO29);
        }
      case PtrList =>
        Code(PTR_LIST, p.len);
      case BitList =>
        Code(BIT_1_LIST, p.len % TWO29);
    }
  }

  lemma ClipShrinks(n: nat, size: nat)
    ensures Times(n % TWO29, size) <= Times(n, size)
  {
    var k := n % TWO29;
    assert k <= n;
    assert n * size == k * size + (n - k) * size;
  }

  /** The bits beyond the 29 do not show in the bytes either. */
  lemma ClippedBits(n: nat)
    ensures BitBytes(n % TWO29) == BitBytes(n)
  {
    var a, b := n / TWO29, n % TWO29;
    assert n == TWO29 * a + b;
    assert (n + 7) / 8 == 0x8_0000 * (128 * a) + (b + 7) / 8;
    WholeTurns((b + 7) / 8, 128 * a);
  }

  lemma WholeTurns(x: nat, k: nat)
    ensures (0x8_0000 * k + x) % 0x8_0000 == x % 0x8_0000
  {
  }

  lemma DecodeSimple(mem: Mem, p: Ptr<nat>, val: Word, far: bool)
    requires Good(mem, p) && !Empty(p) && !p.composite && Tagged(p, val)
    ensures DecodeAt(mem[p.seg].bytes, p.seg, p.data, val, far) == Clip(p).(hasTag := far)
  {
    hide WordAt, Times, ListCode, CompositeList, BitBytes;
    if p.kind.List? {
      ListCodes(p.datasz);
      ClipShrinks(p.len, p.datasz);
    } else if p.kind.BitList? {
      ClippedBits(p.len);
    }
  }

  lemma DecodeComposite(mem: Mem, p: Ptr<nat>, val: Word, far: bool)
    requires Good(mem, p) && p.kind.List? && p.composite && Tagged(p, val)
    ensures DecodeAt(mem[p.seg].bytes, p.seg, p.data - 8, val, far) == p.(hasTag := far)
  {
    var w := ElementWord(p);
    Halves(p.datasz / 8, p.ptrs);
    ElementCount(p.len);
    assert p.datasz == 8 * (p.datasz / 8);
    Distribute(p.len, p.datasz / 8, p.ptrs);
    hide Times, OffBits;
  }

  lemma Distribute(n: nat, a: nat, b: nat)
    ensures Times(n, 8 * a + 8 * b) == 8 * Times(n, a + b)
  {
  }

  lemma ElementCount(n: nat)
    requires n < TWO30
    ensures OffBits(n) / 4 == n
  {
  }

  /** Whole words from the end of a pointer at d to the object. */
  ghost predicate Apart<S>(p: Ptr<S>, d: int, off: int) {
    d + 8 * off + 8 == Start(p) && -TWO29 <= off < TWO29
  }

  /** A near pointer. */
  lemma NearReads(mem: Mem, d: nat, p: Ptr<nat>, off: int)
    requires Good(mem, p) && !Empty(p) && Apart(p, d, off)
    requires d + 8 <= |mem[p.seg].bytes| && WordAt(mem[p.seg].bytes, d) == TagWord(p, off)
    ensures Read(mem, p.seg, d) == Some(Clip(p).(hasTag := false))
  {
    hide WordAt, Decode, Good, TagWord, FarOff;
    GoodParts(mem, p);
    TagFields(p, off);
    DecodeTag(mem, p, d, off, false);
  }

  /** A far pointer to a landing pad at offset t of the object's segment. */
  lemma FarReads(mem: Mem, s: nat, d: nat, p: Ptr<nat>, t: nat, off: int)
    requires Sized(mem) && p.seg < TWO32 && Good(mem, p) && !Empty(p) && Apart(p, t, off) && t % 8 == 0
    requires s < |mem| && d + 8 <= |mem[s].bytes| && t + 8 <= |mem[p.seg].bytes|
    requires WordAt(mem[s].bytes, d) == FarWord(t, false, p.seg)
    requires WordAt(mem[p.seg].bytes, t) == TagWord(p, off)
    ensures Read(mem, s, d) == Some(Clip(p).(hasTag := off == 0))
    ensures Good(mem, Clip(p).(hasTag := off == 0))
  {
    hide WordAt, Decode, TagWord, FarOff, FarWord, SignedOff, Good, Encodable, Empty;
    GoodParts(mem, p);
    TagFields(p, off);
    FarKept(t, false, p.seg);
    DecodeTag(mem, p, t, off, off == 0);
    OffZero(TagWord(p, off).lo);
    PadIsTag(mem, p, t, off);
  }

  /** read_ptr has no segment to go on with exactly when the far pointer names one that does not exist. */
  lemma FarFails(mem: Mem, s: nat, d: nat, off: nat, id: nat)
    requires s < |mem| && d + 8 <= |mem[s].bytes| && off % 8 == 0 && off + 8 <= TWO32 && id < TWO32
    requires WordAt(mem[s].bytes, d) == FarWord(off, false, id)
    ensures Read(mem, s, d).None? <==> id >= |mem|
  {
    hide WordAt, Decode;
    FarKept(off, false, id);
  }

  lemma PadIsTag(mem: Mem, p: Ptr<nat>, t: nat, off: int)
    requires Good(mem, p) && Apart(p, t, off)
    requires t + 8 <= |mem[p.seg].bytes| && WordAt(mem[p.seg].bytes, t) == TagWord(p, off)
    ensures Good(mem, Clip(p).(hasTag := off == 0))
  {
    hide WordAt, Encodable, TagWord, ElementWord, Size;
    ClippedTag(p, off == 0, off);
  }

  /** Clipping changes neither the tag nor where the object starts. */
  lemma ClippedTag(p: Ptr<nat>, tag: bool, off: int)
    requires Encodable(p)
    ensures var q := Clip(p).(hasTag := tag);
      && Encodable(q) && Size(q) <= Size(p) && Start(q) == Start(p) && TagWord(q, off) == TagWord(p, off)
      && (p.composite ==> p.kind.List? && ElementWord(q) == ElementWord(p))
  {
    hide StructWord, ListWord, Times, ListCode, BitBytes;
    if p.kind.BitList? {
      ClippedBits(p.len);
    } else if p.kind.List? && !p.composite {
      ClipShrinks(p.len, p.datasz);
    }
  }

  lemma OffZero(lo: nat)
    requires lo < TWO32
    ensures SignedOff(lo) == 0 <==> lo / 4 == 0
  {
  }

  /** A far pointer to a pair of words at offset t of any segment. */
  lemma DoubleReads(mem: Mem, s: nat, d: nat, p: Ptr<nat>, s2: nat, t: nat)
    requires Sized(mem) && p.seg < TWO32 && s2 < TWO32 && Good(mem, p) && !Empty(p) && t % 8 == 0
    requires s < |mem| && d + 8 <= |mem[s].bytes| && s2 < |mem| && t + 16 <= |mem[s2].bytes|
    requires WordAt(mem[s].bytes, d) == FarWord(t, true, s2)
    requires Start(p) % 8 == 0 && Start(p) < 0x8000_0000
    requires WordAt(mem[s2].bytes, t) == FarWord(Start(p), false, p.seg)
    requires WordAt(mem[s2].bytes, t + 8) == TagWord(p, 0)
    ensures Read(mem, s, d) == Some(Clip(p).(hasTag := false))
  {
    hide WordAt, Decode, TagWord, FarOff, FarWord, SignedOff, Good, Encodable, Empty;
    GoodParts(mem, p);
    TagFields(p, 0);
    FarKept(t, true, s2);
    FarKept(Start(p), false, p.seg);
    var k := Start(p) / 8;
    TagShift(p, k);
    DecodeTag(mem, p, -8, k, false);
    var tag := TagWord(p, 0);
    assert LookupDouble(mem, FarWord(t, true, s2)) == Target(p.seg, -8, TagWord(p, k));
  }

  lemma TagShift(p: Ptr<nat>, k: nat)
    requires Encodable(p) && !Empty(p) && k < TWO29
    ensures TagWord(p, k) == Word(4 * k + TagWord(p, 0).lo, TagWord(p, 0).hi)
  {
    hide ListCode, Times, BitBytes, OffBits;
    OffBitsOf(k);
    OffBitsOf(0);
  }

  lemma OffBitsOf(k: nat)
    requires k < TWO29
    ensures OffBits(k) == 4 * k
  {
  }

  /** An empty struct is written like a null pointer and read back as one. */
  lemma EmptyReads(mem: Mem, s: nat, d: nat, p: Ptr<nat>)
    requires s < |mem| && d + 8 <= |mem[s].bytes| && Encodable(p) && Empty(p)
    requires WordAt(mem[s].bytes, d) == TagWord(p, 0)
    ensures Read(mem, s, d) == Some(NullPtr())
  {
    hide WordAt;
  }

  /** Whatever the words of a message are, what is read lies in its segment. */
  lemma ReadWithin(mem: Mem, s: nat, d: nat)
    requires s < |mem| && d + 8 <= |mem[s].bytes|
    ensures var r := Read(mem, s, d);
      r.Some? && !r.value.kind.Null? ==>
        var p := r.value; p.seg < |mem| && 0 <= Start(p) && p.data + Size(p) <= |mem[p.seg].bytes|
  {
    hide WordAt, SignedOff, Times;
  }
}
