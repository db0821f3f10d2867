/** Compiling a dots program into chunks of records for each unit (stim.c, subvec.c). */
module StimCompiler {
  import opened Bytes
  import opened StimRecord
  import opened StimProgram
  import opened StimDots

  /** pack_subvecs_by_dut_io_id */
  method PackSubvec(packed: array<byte>, dutIoId: nat, subvec: Nibble)
    requires packed.Length == STIM_VEC_SIZE && dutIoId < DUT_TOTAL_NUM_PINS - 1
    modifies packed
    ensures packed[..] == PackPin(old(packed[..]), dutIoId, subvec)
  {
    var slot := dutIoId % DUT_NUM_PINS;
    var b := packed[slot / 2];
    if slot % 2 == 1 {
      b := subvec * 16 + b % 16;
    } else {
      b := b / 16 * 16 + subvec;
    }
    packed[slot / 2] := b;
  }

  /** pack_subvecs_with_opcode_and_operand */
  method PackOpcode(packed: array<byte>, opcode: byte, operand: nat)
    requires packed.Length == STIM_VEC_SIZE && operand <= MAX64
    modifies packed
    ensures packed[..] == WithOpcode(old(packed[..]), opcode, operand)
  {
    hide Bytes64, Bytes32, LE64;
    ghost var was := packed[..];
    packed[127] := opcode;
    for i := 100 to 127
      invariant packed[127] == opcode && forall j :: 0 <= j < 100 ==> packed[j] == was[j]
      invariant forall j :: 100 <= j < i ==> packed[j] == 0
    {
      packed[i] := 0;
    }
    var b := Bytes64(operand);
    for i := 0 to 8
      invariant packed[127] == opcode && forall j :: 0 <= j < 100 ==> packed[j] == was[j]
      invariant forall j, k {:trigger b[j], packed[k]} :: 0 <= j < i && k == 100 + j ==> packed[k] == b[j]
      invariant forall j :: 100 + i <= j < 127 ==> packed[j] == 0
    {
      packed[100 + i] := b[i];
    }
    OpcodeBytes(packed[..], was, b, opcode);
  }

  lemma OpcodeBytes(a: seq<byte>, was: seq<byte>, b: seq<byte>, opcode: byte)
    requires |a| == |was| == STIM_VEC_SIZE && |b| == 8 && a[127] == opcode
    requires forall j :: 0 <= j < 100 ==> a[j] == was[j]
    requires forall j, k {:trigger b[j], a[k]} :: 0 <= j < 8 && k == 100 + j ==> a[k] == b[j]
    requires forall j :: 108 <= j < 127 ==> a[j] == 0
    ensures a == was[..100] + b + Zeros(19) + [opcode]
  {
    var r := was[..100] + b + Zeros(19) + [opcode];
    forall k | 0 <= k < STIM_VEC_SIZE ensures a[k] == r[k] {
      if 100 <= k < 108 { assert r[k] == b[k - 100]; }
    }
  }

  /** Packs the unit's pins; whether all of them are don't-cares. */
  method PackAll(pins: seq<nat>, u: Unit, v: DotsVec, packed: array<byte>) returns (isNop: bool)
    requires packed.Length == STIM_VEC_SIZE && Pins(pins) && |v.str| == |pins| + 1
    requires |v.subvecs| == |pins| && forall i :: 0 <= i < |pins| ==> v.subvecs[i] == SubvecOf(v.str[i + 1])
    modifies packed
    ensures packed[..] == PackPins(pins, u, v.str, |pins|) && isNop == Idle(pins, u, v.str, |pins|)
  {
    hide SubvecOf, PackPin;
    for j := 0 to STIM_VEC_SIZE
      invariant forall k :: 0 <= k < j ==> packed[k] == 0xFF
    {
      packed[j] := 0xFF;
    }
    assert packed[..] == seq(STIM_VEC_SIZE, _ => 0xFF);
    isNop := true;
    for pinId := 0 to |pins|
      invariant packed[..] == PackPins(pins, u, v.str, pinId) && isNop == Idle(pins, u, v.str, pinId)
    {
      if InUnit(pins[pinId], u) {
        var subvec := v.subvecs[pinId];
        PackSubvec(packed, pins[pinId], subvec);
        if subvec != DUT_SUBVEC_X { isNop := false; }
      }
    }
  }

  /** One turn of stim_fill_chunk_by_dots: the record of a vector. */
  method PackVec(pins: seq<nat>, u: Unit, v: DotsVec, packed: array<byte>)
    requires packed.Length == STIM_VEC_SIZE && Pins(pins) && Fits(v.Value(), |pins|) && v.numSubvecs == |pins|
    requires !v.isExpanded && v.subvecs == [] && v.hasClk == HasClk(v.str)
    modifies packed, v
    ensures packed[..] == Record(pins, u, v.Value())
    ensures !v.isExpanded && v.subvecs == [] && v.hasClk == old(v.hasClk)
  {
    hide PackPins, Idle, WithOpcode;
    v.Expand();
    var isNop := PackAll(pins, u, v, packed);
    v.Unexpand();
    var opcode: byte := DUT_OPCODE_VEC;
    if v.hasClk {
      opcode := DUT_OPCODE_VECCLK;
    } else if v.repeat > 1 {
      opcode := DUT_OPCODE_VECLOOP;
    } else if isNop {
      opcode := DUT_OPCODE_NOP;
    }
    PackOpcode(packed, opcode, v.repeat);
  }

  class Chunk {
    const id: nat
    const unit: Unit
    const numVecs: nat
    const vecDataSize: nat
    var curVecId: nat
    var vecData: array?<byte>
    var isLoaded: bool
    var isFilled: bool

    /** create_vec_chunk: whole bursts. */
    constructor (id: nat, unit: Unit, numVecs: nat)
      requires numVecs > 0 && numVecs % STIM_NUM_VECS_PER_BURST == 0
      ensures this.id == id && this.unit == unit && this.numVecs == numVecs && Unloaded()
      ensures vecDataSize == STIM_VEC_SIZE * numVecs
    {
      this.id, this.unit, this.numVecs, vecDataSize := id, unit, numVecs, numVecs / 8 * 1024;
      curVecId, vecData, isLoaded, isFilled := 0, null, false, false;
    }

    ghost predicate Unloaded()
      reads this
    {
      curVecId == 0 && vecData == null && !isLoaded && !isFilled
    }

    /** stim_unload_chunk */
    method Unload()
      requires !isLoaded ==> Unloaded()
      modifies this
      ensures Unloaded()
    {
      if !isLoaded { return; }
      curVecId := 0;
      vecData := null;
      isLoaded := false;
      isFilled := false;
    }
  }

  lemma PutMore(b: seq<byte>, off: nat, m: seq<byte>, n: seq<byte>)
    requires off + |m| + |n| <= |b|
    ensures PutAt(PutAt(b, off, m), off + |m|, n) == PutAt(b, off, m + n)
  {
  }

  /** memcpy of a record */
  method CopyRecord(packed: array<byte>, data: array<byte>, off: nat)
    requires packed != data && off + packed.Length <= data.Length
    modifies data
    ensures data[..] == PutAt(old(data[..]), off, packed[..])
  {
    forall k | 0 <= k < packed.Length { data[off + k] := packed[k]; }
  }

  function Cursor(d: Dots, u: Unit): (r: nat)
    reads d`curA1, d`curA2
  {
    if u.A1? then d.curA1 else d.curA2
  }

  /** The vectors of a program fit its pins. */
  ghost predicate AllFit(vs: seq<Vec>, numPins: nat) {
    forall i :: 0 <= i < |vs| ==> Fits(vs[i], numPins)
  }

  /** A dots program that can be compiled. */
  ghost predicate Compilable(d: Dots)
    reads d`numDotsVecs, d`dotsVecs, d`curAppended, d.dotsVecs
  {
    d.Valid() && d.Clocked() && d.curAppended == d.numDotsVecs && Pins(d.pins) && AllFit(d.Pattern(), |d.pins|)
  }

  /** stim_fill_chunk_by_dots without data subvecs: as many records as the program still has and fit. */
  method FillChunkByDots(chunk: Chunk, data: array<byte>, d: Dots)
    requires !chunk.isFilled && chunk.vecData == data && data.Length == STIM_VEC_SIZE * chunk.numVecs
    requires chunk.curVecId <= chunk.numVecs && Compilable(d) && Cursor(d, chunk.unit) <= |d.Pattern()|
    modifies chunk`curVecId, chunk`isFilled, data, d`curA1, d`curA2, d.dotsVecs
    ensures Compilable(d)
    ensures var n := Min(chunk.numVecs - old(chunk.curVecId), |d.Pattern()| - old(Cursor(d, chunk.unit)));
      && chunk.curVecId == old(chunk.curVecId) + n && Cursor(d, chunk.unit) == old(Cursor(d, chunk.unit)) + n
      && data[..] == PutAt(old(data[..]), STIM_VEC_SIZE * old(chunk.curVecId),
                           Records(d.pins, chunk.unit, d.Pattern()[old(Cursor(d, chunk.unit))..], n))
    ensures chunk.unit.A1? ==> d.curA2 == old(d.curA2)
    ensures chunk.unit.A2? ==> d.curA1 == old(d.curA1)
    ensures chunk.isFilled == (chunk.curVecId + 1 >= chunk.numVecs)
  {
    hide Record, Records, PutAt, Fits, Compilable;
    var packed := new byte[STIM_VEC_SIZE];
    var u, cur := chunk.unit, Cursor(d, chunk.unit);
    ghost var c0, k0, was, vs, k := chunk.curVecId, cur, data[..], d.Pattern()[cur..], 0;
    CompilableParts(d, cur);
    NothingPut(was, STIM_VEC_SIZE * c0, d.pins, u, vs);
    while true
      invariant k <= |vs| && cur == k0 + k == Cursor(d, u) && chunk.curVecId == c0 + k <= chunk.numVecs
      invariant Compilable(d) && d.dotsVecs == old(d.dotsVecs) && AllFit(vs, |d.pins|)
      invariant data[..] == PutAt(was, STIM_VEC_SIZE * c0, Records(d.pins, u, vs, k))
      invariant u.A1? ==> d.curA2 == old(d.curA2)
      invariant u.A2? ==> d.curA1 == old(d.curA1)
      decreases |vs| - k
    {
      CompilableParts(d, k0);
      if cur >= d.numDotsVecs { break; }
      if chunk.curVecId >= chunk.numVecs { break; }
      OneMore(was, STIM_VEC_SIZE * c0, d.pins, u, vs, k);
      FillOne(chunk, data, d, packed);
      cur, k := cur + 1, k + 1;
    }
    CompilableParts(d, k0);
    chunk.isFilled := chunk.curVecId + 1 >= chunk.numVecs;
  }

  /** The next record into the chunk, and both cursors one on. */
  method FillOne(chunk: Chunk, data: array<byte>, d: Dots, packed: array<byte>)
    requires packed.Length == STIM_VEC_SIZE && packed != data && data.Length == STIM_VEC_SIZE * chunk.numVecs
    requires Compilable(d) && chunk.curVecId < chunk.numVecs && Cursor(d, chunk.unit) < |d.dotsVecs|
    modifies chunk`curVecId, data, packed, d`curA1, d`curA2, d.dotsVecs
    ensures Compilable(d) && chunk.curVecId == old(chunk.curVecId) + 1
    ensures Cursor(d, chunk.unit) == old(Cursor(d, chunk.unit)) + 1
    ensures chunk.unit.A1? ==> d.curA2 == old(d.curA2)
    ensures chunk.unit.A2? ==> d.curA1 == old(d.curA1)
    ensures var v := d.dotsVecs[old(Cursor(d, chunk.unit))];
      Fits(v.Value(), |d.pins|) &&
      data[..] == PutAt(old(data[..]), STIM_VEC_SIZE * old(chunk.curVecId), Record(d.pins, chunk.unit, v.Value()))
  {
    hide Record, Fits, Compilable, PutAt;
    var cur := Cursor(d, chunk.unit);
    PackNext(d, chunk.unit, cur, packed);
    CopyRecord(packed, data, chunk.curVecId * STIM_VEC_SIZE);
    chunk.curVecId := chunk.curVecId + 1;
    if chunk.unit.A1? { d.curA1 := cur + 1; } else { d.curA2 := cur + 1; }
  }

  lemma CompilableParts(d: Dots, k: nat)
    requires Compilable(d)
    ensures |d.dotsVecs| == |d.Pattern()| == d.numDotsVecs && AllFit(d.Pattern(), |d.pins|)
    ensures k <= |d.Pattern()| ==> AllFit(d.Pattern()[k..], |d.pins|)
  {
  }

  /** The record of the vector at the cursor. */
  method PackNext(d: Dots, u: Unit, cur: nat, packed: array<byte>)
    requires packed.Length == STIM_VEC_SIZE && Compilable(d) && cur < |d.dotsVecs|
    modifies packed, d.dotsVecs
    ensures Compilable(d) && |d.pins| + 1 == |d.dotsVecs[cur].str| && Fits(d.dotsVecs[cur].Value(), |d.pins|)
    ensures packed[..] == Record(d.pins, u, d.dotsVecs[cur].Value())
  {
    hide Record;
    var v := d.dotsVecs[cur];
    assert d.Pattern()[cur] == v.Value();
    assert forall j :: 0 <= j < |d.dotsVecs| && j != cur ==> d.dotsVecs[j] != v;
    PackVec(d.pins, u, v, packed);
  }

  lemma NothingPut(b: seq<byte>, off: nat, pins: seq<nat>, u: Unit, vs: seq<Vec>)
    requires off <= |b| && AllFit(vs, |pins|)
    ensures PutAt(b, off, Records(pins, u, vs, 0)) == b
  {
  }

  lemma OneMore(b: seq<byte>, off: nat, pins: seq<nat>, u: Unit, vs: seq<Vec>, k: nat)
    requires k < |vs| && AllFit(vs, |pins|) && off + STIM_VEC_SIZE * (k + 1) <= |b|
    ensures PutAt(PutAt(b, off, Records(pins, u, vs, k)), off + STIM_VEC_SIZE * k, Record(pins, u, vs[k]))
      == PutAt(b, off, Records(pins, u, vs, k + 1))
  {
    PutMore(b, off, Records(pins, u, vs, k), Record(pins, u, vs[k]));
  }
}
