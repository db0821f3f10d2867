/**
  The LZ4 block format, written down independently of the code in lib/lz4: a reader of one
  sequence, and a byte-at-a-time interpretation of a whole block.
 */
module Lz4Format {
  import opened Bytes

  // The numbers by which the code knows the format; the format itself is written without them.
  const MINMATCH := 4
  const WILDCOPYLENGTH := 8
  const LASTLITERALS := 5
  const MFLIMIT := 12
  const RUN_MASK := 15
  const ML_MASK := 15
  const MAX_DISTANCE := 65535

  /** A run of 255s closed by a smaller byte: its sum, and the index after it. */
  function ReadRun(s: seq<byte>, i: nat): (r: Option<(nat, nat)>)
    decreases |s| - i
  {
    if i >= |s| then None
    else if s[i] < 255 then Some((s[i], i + 1))
    else match ReadRun(s, i + 1)
      case None => None
      case Some(p) => Some((255 + p.0, p.1))
  }

  function ReadLength(s: seq<byte>, i: nat, nibble: nat): (r: Option<(nat, nat)>) {
    if nibble < 15 then Some((nibble, i))
    else match ReadRun(s, i)
      case None => None
      case Some(p) => Some((15 + p.0, p.1))
  }

  datatype Step =
    | Malformed
    | Final(literals: seq<byte>)
    | Match(literals: seq<byte>, offset: nat, length: nat, next: nat)

  /** Reads the sequence that starts at index i.  The last sequence stops after its literals. */
  function ReadStep(s: seq<byte>, i: nat): (r: Step) {
    if i >= |s| then Malformed
    else match ReadLength(s, i + 1, s[i] / 16)
      case None => Malformed
      case Some(lit) => ReadTail(s, s[i] % 16, lit.1, lit.0)
  }

  /** The part of a sequence from its literals on: ll literals at index j, then the match. */
  function ReadTail(s: seq<byte>, nibble: nat, j: nat, ll: nat): (r: Step) {
    if j + ll > |s| then Malformed
    else if j + ll == |s| then Final(s[j..j + ll])
    else if j + ll + 2 > |s| then Malformed
    else match ReadLength(s, j + ll + 2, nibble)
      case None => Malformed
      case Some(m) => Match(s[j..j + ll], LE16(s[j + ll], s[j + ll + 1]), 4 + m.0, m.1)
  }

  /**
    Appends m bytes, each the byte `offset` places before the end of the output so far.
    Offset 0, which the format leaves undefined, stands for a run of zeros.
   */
  function CopyMatch(out: seq<byte>, offset: nat, m: nat): (r: seq<byte>)
    requires offset <= |out|
    decreases m
  {
    if m == 0 then out
    else CopyMatch(out + [if offset == 0 then 0 else out[|out| - offset]], offset, m - 1)
  }

  lemma ReadRunAdvances(s: seq<byte>, i: nat)
    ensures ReadRun(s, i).Some? ==> i < ReadRun(s, i).value.1 <= |s|
    decreases |s| - i
  {
  }

  lemma ReadStepAdvances(s: seq<byte>, i: nat)
    ensures var st := ReadStep(s, i); st.Match? ==> i < st.next <= |s|
  {
    ReadRunAdvances(s, i + 1);
    if i < |s| && ReadLength(s, i + 1, s[i] / 16).Some? {
      var lit := ReadLength(s, i + 1, s[i] / 16).value;
      ReadRunAdvances(s, lit.1 + lit.0 + 2);
    }
  }

  /** The bytes a block stands for when read from index i with `out` already produced. */
  function Decode(s: seq<byte>, i: nat, out: seq<byte>): (r: Option<seq<byte>>)
    decreases |s| - i
  {
    ReadStepAdvances(s, i);
    match ReadStep(s, i)
    case Malformed => None
    case Final(l) => Some(out + l)
    case Match(l, offset, m, next) =>
      if offset > |out| + |l| then None
      else Decode(s, next, CopyMatch(out + l, offset, m))
  }

  /**
    The end-of-block rules every encoder must keep, for a block of n output bytes read from
    index i with o bytes already produced: a match starts at least 12 bytes and ends at least
    5 bytes before the end, and the last token announces no match.
   */
  ghost predicate Strict(s: seq<byte>, i: nat, o: nat, n: nat)
    decreases |s| - i
  {
    ReadStepAdvances(s, i);
    match ReadStep(s, i)
    case Malformed => false
    case Final(l) => o + |l| == n && s[i] % 16 == 0
    case Match(l, offset, m, next) =>
      && 1 <= offset <= o + |l|
      && o + |l| + 12 <= n
      && o + |l| + m + 5 <= n
      && Strict(s, next, o + |l| + m, n)
  }

  /** A block that decodes and keeps the end-of-block rules. */
  ghost predicate Conforming(s: seq<byte>) {
    Decode(s, 0, []).Some? && Strict(s, 0, 0, |Decode(s, 0, []).value|)
  }

  /** Such a block still has a token and five bytes to come after every match. */
  lemma {:induction false} StrictLeavesRoom(s: seq<byte>, i: nat, o: nat, n: nat)
    requires Strict(s, i, o, n) && o + 5 <= n
    ensures i + 1 + 5 <= |s|
    decreases |s| - i
  {
    ReadStepAdvances(s, i);
    match ReadStep(s, i)
    case Final(l) =>
      ReadRunAdvances(s, i + 1);
    case Match(l, offset, m, next) =>
      StrictLeavesRoom(s, next, o + |l| + m, n);
  }

  /** A sequence that repeats with the given distance from |out| on. */
  ghost predicate Repeats(r: seq<byte>, from: nat, offset: nat)
    requires offset <= from
  {
    if offset == 0 then forall k :: from <= k < |r| ==> r[k] == 0
    else forall j, k {:trigger r[j], r[k]} :: from <= k < |r| && j == k - offset ==> r[k] == r[j]
  }

  /** Any sequence that extends `out` and repeats with distance `offset` is the copied match. */
  lemma {:induction false} CopyMatchUnique(out: seq<byte>, offset: nat, r: seq<byte>)
    requires offset <= |out| <= |r|
    requires r[..|out|] == out
    requires Repeats(r, |out|, offset)
    ensures CopyMatch(out, offset, |r| - |out|) == r
    decreases |r| - |out|
  {
    if |r| == |out| {
    } else {
      var out' := out + [if offset == 0 then 0 else out[|out| - offset]];
      assert r[..|out'|] == out';
      CopyMatchUnique(out', offset, r);
    }
  }

  lemma {:induction false} CopyMatchLength(out: seq<byte>, offset: nat, m: nat)
    requires offset <= |out|
    ensures |CopyMatch(out, offset, m)| == |out| + m
    ensures CopyMatch(out, offset, m)[..|out|] == out
    ensures Repeats(CopyMatch(out, offset, m), |out|, offset)
    decreases m
  {
    if m == 0 {
    } else {
      var out' := out + [if offset == 0 then 0 else out[|out| - offset]];
      CopyMatchLength(out', offset, m - 1);
      var r := CopyMatch(out, offset, m);
      assert r[..|out'|] == out';
      assert r[..|out|] == out'[..|out|];
      assert r[|out|] == out'[|out|];
    }
  }
}
