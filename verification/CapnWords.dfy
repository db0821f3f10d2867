/** 64-bit words of a Cap'n Proto segment and the fields of pointers (lib/capnp/capn.c). */
module CapnWords {
  import opened Bytes

  const TWO32: int := 0x1_0000_0000
  const TWO30: int := 0x4000_0000
  const TWO29: int := 0x2000_0000

  // The numbers by which the code knows the kinds of words; FarWord and Tagged have them written out.
  const STRUCT_PTR := 0
  const LIST_PTR := 1
  const FAR_PTR := 2
  const DOUBLE_PTR := 6

  const VOID_LIST := 0
  const BIT_1_LIST := 1
  const BYTE_1_LIST := 2
  const BYTE_2_LIST := 3
  const BYTE_4_LIST := 4
  const BYTE_8_LIST := 5
  const PTR_LIST := 6
  const COMPOSITE_LIST := 7

  /** A 64-bit word as its low and high halves. */
  datatype Word = Word(lo: nat, hi: nat)

  predicate Fits(w: Word) { w.lo < TWO32 && w.hi < TWO32 }

  function WordBytes(w: Word): (r: seq<byte>)
    requires Fits(w)
    ensures |r| == 8
  {
    Bytes32(w.lo) + Bytes32(w.hi)
  }

  function WordAt(b: seq<byte>, off: nat): (w: Word)
    requires off + 8 <= |b|
    ensures Fits(w)
  {
    Word(LE32(b[off], b[off + 1], b[off + 2], b[off + 3]), LE32(b[off + 4], b[off + 5], b[off + 6], b[off + 7]))
  }

  /** b with the word at off replaced. */
  function PutWord(b: seq<byte>, off: nat, w: Word): (r: seq<byte>)
    requires off + 8 <= |b| && Fits(w)
    ensures |r| == |b| && WordAt(r, off) == w
    ensures forall k :: 0 <= k < |b| && !(off <= k < off + 8) ==> r[k] == b[k]
  {
    var r := b[..off] + WordBytes(w) + b[off + 8..];
    var m := r[off..off + 8];
    assert m == WordBytes(w);
    assert forall k {:trigger m[k]} :: 0 <= k < 8 ==> r[off + k] == m[k];
    r
  }

  lemma WordAtSame(a: seq<byte>, b: seq<byte>, off: nat)
    requires off + 8 <= |a| && off + 8 <= |b| && a[off..off + 8] == b[off..off + 8]
    ensures WordAt(a, off) == WordAt(b, off)
  {
    var m := a[off..off + 8];
    assert forall k {:trigger m[k]} :: 0 <= k < 8 ==> a[off + k] == m[k] && b[off + k] == b[off..off + 8][k];
  }

  // ---------------------------------------------------------------- fields

  /** A signed count of words in the upper 30 bits of the low half. */
  function OffBits(off: int): (r: nat)
    ensures r < TWO32 && r % 8 != 2 && r % 8 != 6
  {
    4 * (off % TWO30)
  }

  function SignedOff(lo: nat): (r: int) {
    if lo / 4 < TWO29 then lo / 4 else lo / 4 - TWO30
  }

  lemma OffsetKept(off: int, tag: nat)
    requires -TWO29 <= off < TWO29 && tag < 2
    ensures var lo := OffBits(off) + tag;
      SignedOff(lo) == off && lo % 4 == tag && lo % 8 != 2 && lo % 8 != 6 && lo < TWO32
    ensures OffBits(off) + tag == 0 <==> off == 0 && tag == 0
  {
    var q := off % TWO30;
    assert q == if off < 0 then off + TWO30 else off;
    Low(q, tag);
  }

  lemma Low(q: nat, tag: nat)
    requires tag < 4
    ensures (4 * q + tag) / 4 == q && (4 * q + tag) % 4 == tag
    ensures (4 * q + tag) % 8 == tag || (4 * q + tag) % 8 == tag + 4
  {
    var h := q / 2;
    assert 4 * q + tag == 8 * h + (4 * (q % 2) + tag);
  }

  function StructWord(off: int, dataWords: nat, ptrs: nat): (w: Word)
    requires dataWords < 0x1_0000 && ptrs < 0x1_0000
    ensures Fits(w)
  {
    Word(OffBits(off), dataWords + 0x1_0000 * ptrs)
  }

  function ListWord(off: int, code: nat, count: nat): (w: Word)
    requires code < 8 && count < TWO29
    ensures Fits(w)
  {
    Word(OffBits(off) + 1, code + 8 * count)
  }

  /** A pointer to the word at byte `off` of segment id, or to the pair of words there. */
  function FarWord(off: nat, double: bool, id: nat): (w: Word)
    requires off % 8 == 0 && off + 8 <= TWO32 && id < TWO32
    ensures Fits(w)
  {
    Word(off + (if double then 6 else 2), id)
  }

  function FarOff(w: Word): (r: nat) { w.lo / 8 * 8 }

  /** Bits 0 and 1 say that it is far, bit 2 whether it is double, and the rest is where it leads. */
  lemma FarKept(off: nat, double: bool, id: nat)
    requires off % 8 == 0 && off + 8 <= TWO32 && id < TWO32
    ensures var w := FarWord(off, double, id);
      FarOff(w) == off && w.hi == id && w.lo % 4 == 2 && w.lo / 4 % 2 == if double then 1 else 0
    ensures FarWord(off, double, id).lo / 8 == off / 8 && FarWord(off, double, id).lo % 8 == if double then 6 else 2
  {
    FarBits(off / 8, if double then 1 else 0);
  }

  lemma FarBits(k: nat, b: nat)
    requires b < 2
    ensures var lo := 8 * k + (4 * b + 2); lo / 8 == k && lo % 8 == 4 * b + 2 && lo % 4 == 2 && lo / 4 % 2 == b
  {
    Low(2 * k + b, 2);
    assert (2 * k + b) % 2 == b;
  }

  lemma Halves(a: nat, b: nat)
    requires a < 0x1_0000
    ensures (a + 0x1_0000 * b) % 0x1_0000 == a && (a + 0x1_0000 * b) / 0x1_0000 == b
  {
  }

  lemma Code(code: nat, count: nat)
    requires code < 8
    ensures (code + 8 * count) % 8 == code && (code + 8 * count) / 8 == count
  {
  }
}
