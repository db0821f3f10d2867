/** Messages written out in numbers, and what read_ptr finds in them. */
module CapnVectors {
  import opened Bytes
  import opened CapnWords
  import opened CapnPointer
  import opened CapnPacking
  import F = CapnFraming

  /** A struct pointer: k words on, with sizes in words. */
  lemma ReadsStruct(mem: Mem, s: nat, d: nat, k: nat, words: nat, ptrs: nat)
    requires s < |mem| && d + 8 <= |mem[s].bytes| && k < 0x2000_0000 && words < 0x1_0000 && ptrs < 0x1_0000
    requires WordAt(mem[s].bytes, d) == Word(4 * k, words + 0x1_0000 * ptrs) && k + words + ptrs > 0
    requires d + 8 * k + 8 + 8 * words + 8 * ptrs <= |mem[s].bytes|
    ensures Read(mem, s, d) == Some(Ptr(Struct, false, false, false, 8 * words, ptrs, 0, d + 8 * k + 8, s))
  {
    hide WordAt;
    Halves(words, ptrs);
    Low(k, 0);
    assert SignedOff(4 * k) == k;
  }

  /** A list pointer: elements of no, 1, 2, 4 or 8 bytes, bits, or pointers. */
  lemma ReadsList(mem: Mem, s: nat, d: nat, k: nat, code: nat, n: nat)
    requires s < |mem| && d + 8 <= |mem[s].bytes| && k < 0x2000_0000 && code < 7 && n < 0x2000_0000
    requires WordAt(mem[s].bytes, d) == Word(4 * k + 1, code + 8 * n)
    ensures var r, o := Read(mem, s, d), d + 8 * k + 8;
      r.Some? && (r.value.kind.Null? || r.value ==
      if code == 0 then Ptr(List, false, false, false, 0, 0, n, o, s)
      else if code == 1 then Ptr(BitList, false, false, false, (n + 7) / 8 % 0x8_0000, 0, n, o, s)
      else if code == 2 then Ptr(List, false, false, false, 1, 0, n, o, s)
      else if code == 3 then Ptr(List, false, false, false, 2, 0, n, o, s)
      else if code == 4 then Ptr(List, false, false, false, 4, 0, n, o, s)
      else if code == 5 then Ptr(List, false, false, false, 8, 0, n, o, s)
      else Ptr(PtrList, false, false, false, 0, 0, n, o, s))
    ensures d + 8 * k + 8 + 8 * n <= |mem[s].bytes| ==> !Read(mem, s, d).value.kind.Null?
  {
    hide WordAt, Times;
    Code(code, n);
    Low(k, 1);
    assert SignedOff(4 * k + 1) == k;
    ListFits(code, n, d + 8 * k + 8, s);
  }

  lemma ListFits(code: nat, n: nat, o: nat, s: nat)
    requires code < 7
    ensures Size(PlainList(code, n, false, o, s)) <= 8 * n
  {
  }

  const FAR_SLOT: seq<byte> := [2, 0, 0, 0, 1, 0, 0, 0]
  const FIVE_BYTES: seq<byte> := [1, 0, 0, 0, 42, 0, 0, 0, 9, 8, 7, 6, 5, 0, 0, 0]

  /** A far pointer (2) to a tag in the next segment, for a list of five bytes behind it. */
  lemma FarMessage()
    ensures Read([Seg(FAR_SLOT, 8), Seg(FIVE_BYTES, 16)], 0, 0) == Some(Ptr(List, true, false, false, 1, 0, 5, 8, 1))
  {
    hide WordAt;
    SmallWord(FAR_SLOT, 0, 2, 1);
    SmallWord(FIVE_BYTES, 0, 1, 42);
    FarToList([Seg(FAR_SLOT, 8), Seg(FIVE_BYTES, 16)]);
  }

  lemma FarToList(mem: Mem)
    requires |mem| == 2 && |mem[0].bytes| == 8 && |mem[1].bytes| == 16
    requires WordAt(mem[0].bytes, 0) == Word(2, 1) && WordAt(mem[1].bytes, 0) == Word(1, 42)
    ensures Read(mem, 0, 0) == Some(Ptr(List, true, false, false, 1, 0, 5, 8, 1))
  {
    hide WordAt;
  }

  const DOUBLE_SLOT: seq<byte> := [6, 0, 0, 0, 1, 0, 0, 0]
  const PADS: seq<byte> := [2, 0, 0, 0, 2, 0, 0, 0, 0, 0, 0, 0, 1, 0, 0, 0]
  const ONE_WORD: seq<byte> := [1, 2, 3, 4, 5, 6, 7, 8]

  /** A double far pointer (6) to a far word and the tag of a struct of one word in segment 2. */
  lemma DoubleFarMessage()
    ensures var mem := [Seg(DOUBLE_SLOT, 8), Seg(PADS, 16), Seg(ONE_WORD, 8)];
      Read(mem, 0, 0) == Some(Ptr(Struct, false, false, false, 8, 0, 0, 0, 2))
  {
    hide WordAt;
    DoubleWord();
    PadWords();
    DoubleToStruct([Seg(DOUBLE_SLOT, 8), Seg(PADS, 16), Seg(ONE_WORD, 8)]);
  }

  lemma DoubleWord()
    ensures WordAt(DOUBLE_SLOT, 0) == Word(6, 1)
  {
    SmallWord(DOUBLE_SLOT, 0, 6, 1);
  }

  /** A word of bytes that are zero but for the first and the fifth. */
  lemma SmallWord(b: seq<byte>, o: nat, lo: byte, hi: byte)
    requires o + 8 <= |b| && b[o] == lo && b[o + 1] == b[o + 2] == b[o + 3] == 0
    requires b[o + 4] == hi && b[o + 5] == b[o + 6] == b[o + 7] == 0
    ensures WordAt(b, o) == Word(lo as int, hi as int)
  {
  }

  lemma PadWords()
    ensures WordAt(PADS, 0) == Word(2, 2) && WordAt(PADS, 8) == Word(0, 1)
  {
    hide WordAt;
    SmallWord(PADS, 0, 2, 2);
    SmallWord(PADS, 8, 0, 1);
  }

  lemma DoubleToStruct(mem: Mem)
    requires |mem| == 3 && |mem[0].bytes| == 8 && |mem[1].bytes| == 16 && |mem[2].bytes| == 8
    requires WordAt(mem[0].bytes, 0) == Word(6, 1)
    requires WordAt(mem[1].bytes, 0) == Word(2, 2) && WordAt(mem[1].bytes, 8) == Word(0, 1)
    ensures Read(mem, 0, 0) == Some(Ptr(Struct, false, false, false, 8, 0, 0, 0, 2))
  {
    hide WordAt;
    assert Follow(mem, 0, 0) == Target(2, -8, Word(0, 1));
  }

  /** A composite list (7): four words, which are two elements of a data word and a pointer each. */
  lemma CompositeMessage(mem: Mem)
    requires |mem| == 1 && |mem[0].bytes| == 48
    requires WordAt(mem[0].bytes, 0) == Word(1, 7 + 8 * 4) && WordAt(mem[0].bytes, 8) == Word(4 * 2, 1 + 0x1_0000 * 1)
    ensures Read(mem, 0, 0) == Some(Ptr(List, false, false, true, 8, 1, 2, 16, 0))
  {
    hide WordAt;
    assert CompositeList(mem[0].bytes, 4, false, 8, 0) == Ptr(List, false, false, true, 8, 1, 2, 16, 0);
  }

  const BACKWARD: seq<byte> := [1, 2, 3, 4, 5, 6, 7, 8, 0xF8, 0xFF, 0xFF, 0xFF, 1, 0, 0, 0]

  /** Two words back, to a struct of one word in front of the pointer. */
  lemma BackwardMessage()
    ensures Read([Seg(BACKWARD, 16)], 0, 8) == Some(Ptr(Struct, false, false, false, 8, 0, 0, 0, 0))
  {
    assert WordAt(BACKWARD, 8) == Word(0xFFFF_FFF8, 1);
    hide WordAt;
    assert SignedOff(0xFFFF_FFF8) == -2;
  }

  // ---------------------------------------------------------------- framing

  lemma SmallNumber(v: nat)
    requires v < 256
    ensures Bytes32(v) == [v, 0, 0, 0]
  {
  }

  /** One segment of a word: the count less one, and the size in words. */
  lemma OneSegment(b: seq<byte>)
    requires |b| == 8
    ensures F.Sized([b]) && F.Frame([b]) == [0, 0, 0, 0] + [1, 0, 0, 0] + b
  {
    OnePart(b);
    OneHeader([b]);
    hide F.Sizes, F.Body, F.Sized, F.Header;
  }

  lemma OneHeader(segs: seq<seq<byte>>)
    requires |segs| == 1 && F.Sized(segs) && F.Sizes(segs, 1) == [1, 0, 0, 0]
    ensures F.Header(segs) == [0, 0, 0, 0] + [1, 0, 0, 0]
  {
    hide Bytes32, F.Sizes, F.Sized;
    SmallNumber(0);
  }

  lemma OnePart(b: seq<byte>)
    requires |b| == 8
    ensures F.Sized([b]) && F.Sizes([b], 1) == [1, 0, 0, 0] && F.Body([b], 1) == b
  {
    hide Bytes32;
    SmallNumber(1);
  }

  /** Two segments: four bytes more, so that the first segment starts at a word. */
  lemma TwoSegments(a: seq<byte>, b: seq<byte>)
    requires |a| == 8 && |b| == 16
    ensures F.Sized([a, b])
    ensures F.Frame([a, b]) == [1, 0, 0, 0] + ([1, 0, 0, 0] + [2, 0, 0, 0]) + [0, 0, 0, 0] + (a + b)
  {
    hide Bytes32;
    SmallNumber(1);
    SmallNumber(2);
    assert F.Sizes([a, b], 1) == [1, 0, 0, 0] && F.Body([a, b], 1) == a;
    assert F.Sizes([a, b], 2) == [1, 0, 0, 0] + [2, 0, 0, 0] && F.Body([a, b], 2) == a + b;
  }

  // ---------------------------------------------------------------- packing

  const TAGGED: seq<byte> := [8, 0, 0, 0, 3, 0, 2, 0]

  /** Bit i of the tag is for byte i: bytes 0, 4 and 6 make 0x51. */
  lemma TaggedWord()
    ensures Pack(TAGGED) == [0x51, 8, 3, 2]
  {
    assert NonZero(TAGGED) == [8, 3, 2] && TagOf(TAGGED) == 0x51;
    assert TAGGED[..8] == TAGGED;
    GroupIs(TAGGED);
    assert Drop(TAGGED, 1) == [];
  }

  /** Four zero words: their number less one behind a 0. */
  lemma ZeroWords()
    ensures Pack(Zeros(32)) == [0, 3]
  {
    var s: seq<byte> := Zeros(32);
    AllZero(s);
    assert Drop(s, 4) == [];
  }

  lemma AllZero(s: seq<byte>)
    requires s == Zeros(32)
    ensures GroupWords(s) == 4 && GroupBytes(s) == [0, 3]
  {
    TagExtremes(s[..8]);
    GroupIs(s);
    assert s[8..] == Zeros(24) && s[8..][8..] == Zeros(16) && Zeros(16)[8..] == Zeros(8) && Zeros(8)[8..] == [];
    assert ZeroRun(Zeros(8), 1) == 1 && ZeroRun(Zeros(16), 2) == 2 && ZeroRun(Zeros(24), 3) == 3;
  }

  /** Two words without a zero byte: 0xFF, the first one, the number of the others, and these as they are. */
  lemma TwoFullWords(s: seq<byte>)
    requires |s| == 16 && forall k :: 0 <= k < 16 ==> s[k] != 0
    ensures Pack(s) == [0xFF] + s[..8] + [1] + s[8..16]
  {
    FullGroup(s);
    hide GroupBytes, GroupWords;
    assert Drop(s, 2) == [] && Pack(Drop(s, 2)) == [];
    PackUnfold(s);
  }

  lemma FullGroup(s: seq<byte>)
    requires |s| == 16 && forall k :: 0 <= k < 16 ==> s[k] != 0
    ensures GroupWords(s) == 2 && GroupBytes(s) == [0xFF] + s[..8] + [1] + s[8..16]
  {
    hide TagOf, GroupBytes;
    TagExtremes(s[..8]);
    SecondFull(s[8..]);
    GroupBytesIs(s);
  }

  lemma SecondFull(b: seq<byte>)
    requires |b| == 8 && forall k :: 0 <= k < 8 ==> b[k] != 0
    ensures FullRun(b, 1) == 1
  {
    TagExtremes(b[..8]);
    assert b[..8] == b;
  }
}
