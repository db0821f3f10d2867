/** Whole programs: padding, chunks and what runs (stim.c). */
module StimProgram {
  import opened Bytes
  import opened StimRecord

  const STIM_CHUNK_SIZE := 268435456
  const STIM_NUM_VECS_PER_BURST := 8

  /** The records of the first n vectors, one after another. */
  function Records(pins: seq<nat>, u: Unit, vs: seq<Vec>, n: nat): (r: seq<byte>)
    requires n <= |vs| && forall i :: 0 <= i < |vs| ==> Fits(vs[i], |pins|)
    ensures |r| == STIM_VEC_SIZE * n
  {
    if n == 0 then [] else Records(pins, u, vs, n - 1) + Record(pins, u, vs[n - 1])
  }

  lemma {:induction false} RecordAt(pins: seq<nat>, u: Unit, vs: seq<Vec>, n: nat, i: nat)
    requires i < n <= |vs| && forall i :: 0 <= i < |vs| ==> Fits(vs[i], |pins|)
    ensures Records(pins, u, vs, n)[STIM_VEC_SIZE * i..STIM_VEC_SIZE * i + STIM_VEC_SIZE] == Record(pins, u, vs[i])
    decreases n
  {
    hide Record, Fits;
    if i < n - 1 {
      RecordAt(pins, u, vs, n - 1, i);
      var r := Records(pins, u, vs, n - 1);
      assert (r + Record(pins, u, vs[n - 1]))[STIM_VEC_SIZE * i..STIM_VEC_SIZE * i + STIM_VEC_SIZE]
        == r[STIM_VEC_SIZE * i..STIM_VEC_SIZE * i + STIM_VEC_SIZE];
    }
  }

  /** The records of a prefix are a prefix of the records. */
  lemma {:induction false} RecordsPrefix(pins: seq<nat>, u: Unit, vs: seq<Vec>, ws: seq<Vec>, n: nat)
    requires n <= |vs| && n <= |ws| && vs[..n] == ws[..n]
    requires (forall i :: 0 <= i < |vs| ==> Fits(vs[i], |pins|)) && (forall i :: 0 <= i < |ws| ==> Fits(ws[i], |pins|))
    ensures Records(pins, u, vs, n) == Records(pins, u, ws, n)
  {
    if n > 0 {
      assert vs[..n - 1] == vs[..n][..n - 1] && ws[..n - 1] == ws[..n][..n - 1];
      assert vs[n - 1] == vs[..n][n - 1] && ws[n - 1] == ws[..n][n - 1];
      RecordsPrefix(pins, u, vs, ws, n - 1);
    }
  }

  lemma {:induction false} RecordsAppend(pins: seq<nat>, u: Unit, vs: seq<Vec>, a: nat, n: nat)
    requires a + n <= |vs| && forall i :: 0 <= i < |vs| ==> Fits(vs[i], |pins|)
    ensures Records(pins, u, vs, a) + Records(pins, u, vs[a..], n) == Records(pins, u, vs, a + n)
    decreases n
  {
    if n > 0 {
      RecordsAppend(pins, u, vs, a, n - 1);
      Assoc(Records(pins, u, vs, a), Records(pins, u, vs[a..], n - 1), Record(pins, u, vs[a + n - 1]));
    }
  }

  /** The vectors that the first n records run. */
  function ExecutedTotal(pins: seq<nat>, u: Unit, vs: seq<Vec>, n: nat): (r: nat)
    requires n <= |vs| && forall i :: 0 <= i < |vs| ==> Fits(vs[i], |pins|)
  {
    if n == 0 then 0 else ExecutedTotal(pins, u, vs, n - 1) + Executed(Record(pins, u, vs[n - 1]))
  }

  function UnrolledTotal(vs: seq<Vec>, n: nat): (r: nat)
    requires n <= |vs|
  {
    if n == 0 then 0 else UnrolledTotal(vs, n - 1) + Unrolled(vs[n - 1])
  }

  /** Those of the first n vectors that run once without being counted. */
  function UncountedTotal(vs: seq<Vec>, n: nat): (r: nat)
    requires n <= |vs|
  {
    if n == 0 then 0 else UncountedTotal(vs, n - 1) + Uncounted(vs[n - 1])
  }

  lemma {:induction false} AllCounted(vs: seq<Vec>, n: nat)
    requires n <= |vs|
    ensures UncountedTotal(vs, n) == 0 <==> forall i :: 0 <= i < n ==> 'C' in vs[i].str || vs[i].repeat > 0
  {
    if n > 0 { AllCounted(vs, n - 1); }
  }

  // ---------------------------------------------------------------- padding

  /** The vector that pads: an X for every pin. */
  function Nop(numPins: nat): (v: Vec)
    ensures Fits(v, numPins)
  {
    Vec(1, "V" + seq(numPins, _ => 'X'))
  }

  lemma NopIs(numPins: nat)
    ensures Nop(numPins).repeat == 1 && |Nop(numPins).str| == numPins + 1 && Nop(numPins).str[0] == 'V'
    ensures forall i :: 1 <= i <= numPins ==> Nop(numPins).str[i] == 'X'
  {
  }

  lemma NopIsIdle(pins: seq<nat>, u: Unit)
    ensures Opcode(pins, u, Nop(|pins|)) == 255 && Unrolled(Nop(|pins|)) == 1 && Uncounted(Nop(|pins|)) == 0
    ensures OperandOf(Record(pins, u, Nop(|pins|))) == 1
  {
    hide PackPins, WithOpcode, OpcodeOf, OperandOf, NibbleAt, InUnit;
    var s := Nop(|pins|).str;
    assert 'C' !in s;
    assert forall i :: 1 <= i < |s| ==> s[i] == 'X';
    OpcodePlaced(PackPins(pins, u, s, |pins|), Opcode(pins, u, Nop(|pins|)), 1);
  }

  /** A program with n NOP vectors behind it. */
  function Padded(vs: seq<Vec>, n: nat, numPins: nat): (r: seq<Vec>)
    ensures |r| == |vs| + n && r[..|vs|] == vs
    ensures forall i :: |vs| <= i < |r| ==> r[i] == Nop(numPins)
  {
    vs + seq(n, _ => Nop(numPins))
  }

  /**
    What a unit runs is what the program unrolls to, plus one vector for each NOP and for each vector
    that is repeated no times: the same number on both units.
   */
  lemma {:induction false} ExecutedIs(pins: seq<nat>, u: Unit, vs: seq<Vec>, n: nat, k: nat)
    requires forall i :: 0 <= i < |vs| ==> Fits(vs[i], |pins|)
    requires k <= |vs| + n
    ensures (forall i :: 0 <= i < |vs| + n ==> Fits(Padded(vs, n, |pins|)[i], |pins|))
    ensures ExecutedTotal(pins, u, Padded(vs, n, |pins|), k)
      == var m := Min(k, |vs|); UnrolledTotal(vs, m) + UncountedTotal(vs, m) + (k - m)
    decreases k
  {
    hide Executed, Unrolled, Uncounted, Record, Nop, Opcode, OperandOf, Min, Fits;
    var ps, m := Padded(vs, n, |pins|), Min(k, |vs|);
    SmallerOf(k, |vs|);
    forall i | 0 <= i < |ps| ensures Fits(ps[i], |pins|) {
      if i < |vs| { assert ps[i] == ps[..|vs|][i]; }
    }
    if k > 0 {
      ExecutedIs(pins, u, vs, n, k - 1);
      SmallerOf(k - 1, |vs|);
      ExecutedIsUnrolled(pins, u, ps[k - 1]);
      if k <= |vs| {
        assert ps[k - 1] == ps[..|vs|][k - 1];
      } else {
        NopIsIdle(pins, u);
      }
    }
  }

  lemma SmallerOf(a: nat, b: nat)
    ensures Min(a, b) == if a <= b then a else b
  {
  }

  /** calc_num_padding_vecs */
  method CalcNumPaddingVecs(numVecs: nat) returns (n: nat)
    ensures n < 8 && (numVecs + n) % 8 == 0
    ensures n == Padding(numVecs)
  {
    n := 0;
    if numVecs % STIM_NUM_VECS_PER_BURST != 0 {
      n := STIM_NUM_VECS_PER_BURST - numVecs % STIM_NUM_VECS_PER_BURST;
    }
  }

  /** The distance to the next multiple of 8. */
  function Padding(numVecs: nat): (r: nat) { (8 - numVecs % 8) % 8 }

  // ---------------------------------------------------------------- chunks

  const CHUNK_VECS := 2097152 // STIM_CHUNK_SIZE / STIM_VEC_SIZE

  function NumChunks(total: nat): (r: nat) { (total + CHUNK_VECS - 1) / CHUNK_VECS }

  /** All chunks but the last are full. */
  function ChunkVecs(total: nat, i: nat): (r: nat) {
    if CHUNK_VECS * (i + 1) <= total then CHUNK_VECS else if CHUNK_VECS * i <= total then total - CHUNK_VECS * i else 0
  }

  lemma {:induction false} ChunksCover(total: nat, i: nat)
    requires total > 0 && i < NumChunks(total)
    ensures 0 < ChunkVecs(total, i) <= 2097152 && CHUNK_VECS * i + ChunkVecs(total, i) <= total
    ensures i + 1 == NumChunks(total) <==> CHUNK_VECS * i + ChunkVecs(total, i) == total
    ensures i + 1 < NumChunks(total) ==> ChunkVecs(total, i) == 2097152 && CHUNK_VECS * (i + 1) < total
    ensures total % 8 == 0 ==> ChunkVecs(total, i) % 8 == 0
    ensures ChunkVecs(total, i) * 128 <= 268435456
  {
    ChunkCount(total);
    Multiple(i);
  }

  lemma ChunkCount(total: nat)
    ensures CHUNK_VECS * NumChunks(total) >= total
    ensures total > 0 ==> CHUNK_VECS * (NumChunks(total) - 1) < total
  {
  }

  lemma Multiple(i: nat)
    ensures (CHUNK_VECS * i) % 8 == 0
  {
    assert CHUNK_VECS * i == 8 * (262144 * i);
  }

  /** The vectors of the first n chunks together. */
  function ChunkSum(total: nat, n: nat): (r: nat) {
    if n == 0 then 0 else ChunkSum(total, n - 1) + ChunkVecs(total, n - 1)
  }

  lemma {:induction false} ChunkSumIs(total: nat, n: nat)
    requires total > 0 && n <= NumChunks(total)
    ensures ChunkSum(total, n) == if n == NumChunks(total) then total else CHUNK_VECS * n
  {
    if n > 0 {
      ChunkSumIs(total, n - 1);
      ChunksCover(total, n - 1);
    } else {
      ChunkCount(total);
    }
  }
}
