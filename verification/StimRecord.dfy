/** The 128-byte record of a test vector: subvec nibbles, operand and opcode (subvec.c, stim.c). */
module StimRecord {
  import opened Bytes

  const STIM_VEC_SIZE := 128
  const DUT_NUM_PINS := 200
  const DUT_TOTAL_NUM_PINS := 400

  const DUT_SUBVEC_NONE := 0xF
  const DUT_SUBVEC_0 := 0
  const DUT_SUBVEC_1 := 1
  const DUT_SUBVEC_X := 2
  const DUT_SUBVEC_H := 3
  const DUT_SUBVEC_L := 4
  const DUT_SUBVEC_C := 5

  const DUT_OPCODE_NOP := 0xFF
  const DUT_OPCODE_VEC := 1
  const DUT_OPCODE_VECLOOP := 2
  const DUT_OPCODE_VECCLK := 3

  const MAX64: int := 0xFFFF_FFFF_FFFF_FFFF

  datatype Unit = A1 | A2

  /** A line of a dots program: a letter V and one character for each pin, and how often it runs. */
  datatype Vec = Vec(repeat: nat, str: string)

  type Nibble = x: int | 0 <= x < 16

  function SubvecOf(ch: char): (r: Nibble)
    ensures r < 6
  {
    match ch
    case '0' => DUT_SUBVEC_0
    case '1' => DUT_SUBVEC_1
    case 'H' => DUT_SUBVEC_H
    case 'L' => DUT_SUBVEC_L
    case 'C' => DUT_SUBVEC_C
    case _ => DUT_SUBVEC_X
  }

  predicate InUnit(id: nat, u: Unit) {
    if u.A1? then id < DUT_NUM_PINS else DUT_NUM_PINS <= id < DUT_TOTAL_NUM_PINS
  }

  predicate HasClk(str: string) { 'C' in str }

  /** The pins a stim can be made of: pack_subvecs_by_dut_io_id refuses the last id. */
  ghost predicate Pins(pins: seq<nat>) {
    forall i :: 0 <= i < |pins| ==> pins[i] < DUT_TOTAL_NUM_PINS - 1
  }

  ghost predicate DistinctPins(pins: seq<nat>) {
    Pins(pins) && forall i, j :: 0 <= i < j < |pins| ==> pins[i] != pins[j]
  }

  predicate Fits(v: Vec, numPins: nat) { |v.str| == numPins + 1 && v.repeat <= MAX64 }

  // ---------------------------------------------------------------- packing

  /** pack_subvecs_by_dut_io_id: odd ids have the high nibble of their byte. */
  function PackByte(b: byte, id: nat, subvec: Nibble): (r: byte) {
    if id % 2 == 1 then subvec * 16 + b % 16 else b / 16 * 16 + subvec
  }

  function PackPin(b: seq<byte>, id: nat, subvec: Nibble): (r: seq<byte>)
    requires |b| == STIM_VEC_SIZE
    ensures |r| == |b|
  {
    var slot := id % DUT_NUM_PINS;
    b[slot / 2 := PackByte(b[slot / 2], slot, subvec)]
  }

  /** The first n pins packed, as far as they are in the unit. */
  function PackPins(pins: seq<nat>, u: Unit, str: string, n: nat): (r: seq<byte>)
    requires n <= |pins| < |str|
    ensures |r| == STIM_VEC_SIZE
  {
    if n == 0 then seq(STIM_VEC_SIZE, _ => 0xFF)
    else
      var b := PackPins(pins, u, str, n - 1);
      if InUnit(pins[n - 1], u) then PackPin(b, pins[n - 1], SubvecOf(str[n])) else b
  }

  /** Whether the first n pins leave the unit alone. */
  predicate Idle(pins: seq<nat>, u: Unit, str: string, n: nat)
    requires n <= |pins| < |str|
  {
    forall i :: 0 <= i < n && InUnit(pins[i], u) ==> SubvecOf(str[i + 1]) == DUT_SUBVEC_X
  }

  function Opcode(pins: seq<nat>, u: Unit, v: Vec): (r: byte)
    requires |pins| < |v.str|
  {
    if HasClk(v.str) then DUT_OPCODE_VECCLK
    else if v.repeat > 1 then DUT_OPCODE_VECLOOP
    else if Idle(pins, u, v.str, |pins|) then DUT_OPCODE_NOP
    else DUT_OPCODE_VEC
  }

  function LE64(b: seq<byte>): (r: nat)
    requires |b| == 8
  {
    LE32(b[0], b[1], b[2], b[3]) + 0x1_0000_0000 * LE32(b[4], b[5], b[6], b[7])
  }

  function Bytes64(v: nat): (r: seq<byte>)
    requires v <= MAX64
    ensures |r| == 8 && LE64(r) == v
  {
    var lo, hi := v % 0x1_0000_0000, v / 0x1_0000_0000;
    Bytes32(lo) + Bytes32(hi)
  }

  /** pack_subvecs_with_opcode_and_operand: operand in bytes 100 to 107, opcode in byte 127. */
  function WithOpcode(b: seq<byte>, opcode: byte, operand: nat): (r: seq<byte>)
    requires |b| == STIM_VEC_SIZE && operand <= MAX64
    ensures |r| == STIM_VEC_SIZE
  {
    b[..100] + Bytes64(operand) + Zeros(19) + [opcode]
  }

  /** What a vector is compiled to for a unit. */
  function Record(pins: seq<nat>, u: Unit, v: Vec): (r: seq<byte>)
    requires Fits(v, |pins|)
    ensures |r| == STIM_VEC_SIZE
  {
    WithOpcode(PackPins(pins, u, v.str, |pins|), Opcode(pins, u, v), v.repeat)
  }

  // ---------------------------------------------------------------- decoding

  /** The subvec that a record has for a pin of its unit, numbered 0 to 199. */
  function NibbleAt(r: seq<byte>, slot: nat): (res: Nibble)
    requires |r| == STIM_VEC_SIZE && slot < DUT_NUM_PINS
  {
    if slot % 2 == 1 then r[slot / 2] / 16 else r[slot / 2] % 16
  }

  function OpcodeOf(r: seq<byte>): (res: byte)
    requires |r| == STIM_VEC_SIZE
  {
    r[127]
  }

  function OperandOf(r: seq<byte>): (res: nat)
    requires |r| == STIM_VEC_SIZE
  {
    LE64(r[100..108])
  }

  /** Packing a pin changes its nibble and no other. */
  lemma PackPinNibbles(b: seq<byte>, id: nat, subvec: Nibble, slot: nat)
    requires |b| == STIM_VEC_SIZE && slot < DUT_NUM_PINS
    ensures NibbleAt(PackPin(b, id, subvec), slot) == if slot == id % DUT_NUM_PINS then subvec else NibbleAt(b, slot)
  {
    var s := id % DUT_NUM_PINS;
    if slot / 2 == s / 2 && slot % 2 == s % 2 {
      assert slot == s;
    }
    NibbleKept(b[s / 2], s, subvec);
  }

  lemma NibbleKept(b: byte, id: nat, subvec: Nibble)
    ensures id % 2 == 1 ==> PackByte(b, id, subvec) / 16 == subvec && PackByte(b, id, subvec) % 16 == b % 16
    ensures id % 2 == 0 ==> PackByte(b, id, subvec) % 16 == subvec && PackByte(b, id, subvec) / 16 == b / 16
  {
  }

  /** With pins of different numbers every pin of the unit has its subvec, and the rest is NONE. */
  lemma {:induction false} PackedNibbles(pins: seq<nat>, u: Unit, str: string, n: nat, slot: nat)
    requires n <= |pins| < |str| && DistinctPins(pins) && slot < DUT_NUM_PINS
    ensures var r := NibbleAt(PackPins(pins, u, str, n), slot);
      && (forall i :: 0 <= i < n && InUnit(pins[i], u) && pins[i] % DUT_NUM_PINS == slot ==> r == SubvecOf(str[i + 1]))
      && ((forall i :: 0 <= i < n && InUnit(pins[i], u) ==> pins[i] % DUT_NUM_PINS != slot) ==> r == DUT_SUBVEC_NONE)
  {
    hide NibbleAt, PackPin, SubvecOf;
    if n == 0 {
      BlankNibble(slot);
    } else {
      PackedNibbles(pins, u, str, n - 1, slot);
      var b := PackPins(pins, u, str, n - 1);
      if InUnit(pins[n - 1], u) {
        PackPinNibbles(b, pins[n - 1], SubvecOf(str[n]), slot);
        forall i | 0 <= i < n - 1 && InUnit(pins[i], u)
          ensures pins[i] % DUT_NUM_PINS != pins[n - 1] % DUT_NUM_PINS
        {
          SlotsApart(pins[i], pins[n - 1], u);
        }
      }
    }
  }

  lemma BlankNibble(slot: nat)
    requires slot < DUT_NUM_PINS
    ensures NibbleAt(seq(STIM_VEC_SIZE, _ => 0xFF), slot) == DUT_SUBVEC_NONE
  {
  }

  lemma SlotsApart(a: nat, b: nat, u: Unit)
    requires InUnit(a, u) && InUnit(b, u) && a != b
    ensures a % DUT_NUM_PINS != b % DUT_NUM_PINS
  {
  }

  /** A record decodes to its vector, projected to the unit's pins. */
  lemma RecordDecodes(pins: seq<nat>, u: Unit, v: Vec)
    requires Fits(v, |pins|) && DistinctPins(pins)
    ensures var r := Record(pins, u, v);
      && (forall i :: 0 <= i < |pins| && InUnit(pins[i], u) ==>
        NibbleAt(r, pins[i] % DUT_NUM_PINS) == SubvecOf(v.str[i + 1]))
      && (forall s ::
        0 <= s < DUT_NUM_PINS && (forall i :: 0 <= i < |pins| && InUnit(pins[i], u) ==> pins[i] % DUT_NUM_PINS != s) ==>
        NibbleAt(r, s) == DUT_SUBVEC_NONE)
      && OpcodeOf(r) == Opcode(pins, u, v) && OperandOf(r) == v.repeat
  {
    var b, r := PackPins(pins, u, v.str, |pins|), Record(pins, u, v);
    OpcodePlaced(b, Opcode(pins, u, v), v.repeat);
    forall i | 0 <= i < |pins| && InUnit(pins[i], u)
      ensures NibbleAt(r, pins[i] % DUT_NUM_PINS) == SubvecOf(v.str[i + 1])
    {
      PackedNibbles(pins, u, v.str, |pins|, pins[i] % DUT_NUM_PINS);
    }
    forall s |
      0 <= s < DUT_NUM_PINS && (forall i :: 0 <= i < |pins| && InUnit(pins[i], u) ==> pins[i] % DUT_NUM_PINS != s)
      ensures NibbleAt(r, s) == DUT_SUBVEC_NONE
    {
      PackedNibbles(pins, u, v.str, |pins|, s);
    }
  }

  lemma OpcodePlaced(b: seq<byte>, opcode: byte, operand: nat)
    requires |b| == STIM_VEC_SIZE && operand <= MAX64
    ensures var r := WithOpcode(b, opcode, operand);
      && OpcodeOf(r) == opcode && OperandOf(r) == operand
      && forall s :: 0 <= s < DUT_NUM_PINS ==> NibbleAt(r, s) == NibbleAt(b, s)
  {
    var r := WithOpcode(b, opcode, operand);
    assert r[100..108] == Bytes64(operand);
    assert forall k :: 0 <= k < 100 ==> r[k] == b[k];
  }

  // ---------------------------------------------------------------- running

  /** The vectors that a record runs: a clocked one (3) two for each repeat, a loop (2) its operand, others one. */
  function Executed(r: seq<byte>): (res: nat)
    requires |r| == STIM_VEC_SIZE
  {
    if OpcodeOf(r) == 3 then 2 * OperandOf(r) else if OpcodeOf(r) == 2 then OperandOf(r) else 1
  }

  /** What get_num_unrolled_dots_vecs counts for a vector. */
  function Unrolled(v: Vec): (r: nat) { if HasClk(v.str) then 2 * v.repeat else v.repeat }

  /** A vector that is not counted, but runs. */
  function Uncounted(v: Vec): (r: nat) { if !HasClk(v.str) && v.repeat == 0 then 1 else 0 }

  /** A record runs what is counted for its vector, unless its repeat is 0 and it has no clock: then it runs once. */
  lemma ExecutedIsUnrolled(pins: seq<nat>, u: Unit, v: Vec)
    requires Fits(v, |pins|)
    ensures Executed(Record(pins, u, v)) == Unrolled(v) + Uncounted(v)
    ensures Executed(Record(pins, u, v)) == Unrolled(v) <==> HasClk(v.str) || v.repeat > 0
  {
    hide PackPins, WithOpcode, OpcodeOf, OperandOf, NibbleAt, Idle;
    OpcodePlaced(PackPins(pins, u, v.str, |pins|), Opcode(pins, u, v), v.repeat);
  }

  /** Clocked vectors count twice. */
  lemma UnrolledNumber(v: Vec)
    ensures Unrolled(v) == if 'C' in v.str then v.repeat + v.repeat else v.repeat
  {
  }

  // ---------------------------------------------------------------- the record in bytes

  /** What is excluded: pin 399, other numbers of pins in the vector, and repeats beyond 64 bits. */
  lemma Allowed(pins: seq<nat>, v: Vec)
    ensures Pins(pins) <==> forall i :: 0 <= i < |pins| ==> pins[i] <= 398
    ensures Fits(v, |pins|) <==> |v.str| == |pins| + 1 && v.repeat < 0x1_0000_0000_0000_0000
  {
  }

  /** The pins of the first unit are 0 to 199, those of the second 200 to 399. */
  predicate OnUnit(id: nat, u: Unit) { if u.A1? then id < 200 else 200 <= id < 400 }

  lemma UnitPins(id: nat, u: Unit)
    ensures InUnit(id, u) <==> OnUnit(id, u)
    ensures OnUnit(id, u) ==> id % DUT_NUM_PINS == id - (if u.A1? then 0 else 200)
  {
  }

  /** By the characters of the program: 0 and 1 are driven, H and L compared, X is neither, C is a clock. */
  lemma SubvecNumbers(ch: char)
    ensures ch == '0' ==> SubvecOf(ch) == 0
    ensures ch == '1' ==> SubvecOf(ch) == 1
    ensures ch == 'X' ==> SubvecOf(ch) == 2
    ensures ch == 'H' ==> SubvecOf(ch) == 3
    ensures ch == 'L' ==> SubvecOf(ch) == 4
    ensures ch == 'C' ==> SubvecOf(ch) == 5
    ensures ch !in "01HLC" ==> SubvecOf(ch) == 2
  {
  }

  /** Byte 127 is the opcode: clocked 3, repeated 2, nothing to do on the unit 255, otherwise 1. */
  lemma OpcodeByte(pins: seq<nat>, u: Unit, v: Vec)
    requires Fits(v, |pins|)
    ensures 'C' in v.str ==> Record(pins, u, v)[127] == 3
    ensures 'C' !in v.str && v.repeat > 1 ==> Record(pins, u, v)[127] == 2
    ensures 'C' !in v.str && v.repeat <= 1 ==> (Record(pins, u, v)[127] ==
      if forall i :: 0 <= i < |pins| && OnUnit(pins[i], u) ==> v.str[i + 1] !in "01HL" then 255 else 1)
  {
    hide PackPins, WithOpcode, OperandOf, NibbleAt, InUnit, OnUnit, SubvecOf;
    OpcodePlaced(PackPins(pins, u, v.str, |pins|), Opcode(pins, u, v), v.repeat);
    forall i | 0 <= i < |pins|
      ensures InUnit(pins[i], u) <==> OnUnit(pins[i], u)
      ensures 'C' !in v.str ==> (SubvecOf(v.str[i + 1]) == 2 <==> v.str[i + 1] !in "01HL")
    {
      UnitPins(pins[i], u);
      SubvecNumbers(v.str[i + 1]);
    }
  }

  /** Bytes 100 to 107 are the repeat, low byte first, and bytes 108 to 126 are 0. */
  lemma OperandBytes(pins: seq<nat>, u: Unit, v: Vec)
    requires Fits(v, |pins|)
    ensures var r := Record(pins, u, v);
      && v.repeat == (r[100] as int) + 0x100 * (r[101] as int)
        + 0x1_0000 * (r[102] as int) + 0x100_0000 * (r[103] as int)
        + 0x1_0000_0000 * (r[104] as int) + 0x100_0000_0000 * (r[105] as int)
        + 0x1_0000_0000_0000 * (r[106] as int) + 0x100_0000_0000_0000 * (r[107] as int)
      && forall k :: 108 <= k < 127 ==> r[k] == 0
  {
    hide PackPins, Opcode, Bytes64;
    var r, b := Record(pins, u, v), Bytes64(v.repeat);
    assert r[100..108] == b;
    assert forall k {:trigger b[k]} :: 0 <= k < 8 ==> r[100..108][k] == r[100 + k];
    assert b[0] == r[100] && b[1] == r[101] && b[2] == r[102] && b[3] == r[103];
    assert b[4] == r[104] && b[5] == r[105] && b[6] == r[106] && b[7] == r[107];
  }

  /** The first 100 bytes have two pins each, the even one in the low nibble; unused pins are 15. */
  lemma PinNibbles(pins: seq<nat>, u: Unit, v: Vec, slot: nat)
    requires Fits(v, |pins|) && DistinctPins(pins) && slot < 200
    ensures var r, id := Record(pins, u, v), slot + if u.A1? then 0 else 200;
      var nibble := if slot % 2 == 1 then r[slot / 2] / 16 else r[slot / 2] % 16;
      && (forall i :: 0 <= i < |pins| && pins[i] == id ==> nibble == SubvecOf(v.str[i + 1]))
      && (id !in pins ==> nibble == 15)
  {
    hide PackPins, WithOpcode, Opcode, SubvecOf, InUnit;
    PackedNibbles(pins, u, v.str, |pins|, slot);
    OpcodePlaced(PackPins(pins, u, v.str, |pins|), Opcode(pins, u, v), v.repeat);
    forall i | 0 <= i < |pins|
      ensures InUnit(pins[i], u) <==> OnUnit(pins[i], u)
      ensures OnUnit(pins[i], u) ==> pins[i] % DUT_NUM_PINS == pins[i] - (if u.A1? then 0 else 200)
    {
      UnitPins(pins[i], u);
    }
  }
}
