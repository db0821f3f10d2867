/** The digest of "abc", as the examples published with FIPS 180-4 have it. */
module Sha256Vectors {
  import opened Bytes
  import opened Words32
  import opened Sha256Spec

  const ABC: seq<byte> := [0x61, 0x62, 0x63]

  /** The padded message: one block. */
  function AbcBlock(): (s: seq<byte>)
    ensures |s| == 64
  {
    [0x61, 0x62, 0x63, 0x80] + Zeros(59) + [24]
  }

  lemma AbcPadded()
    ensures Pad(ABC) == AbcBlock()
  {
    assert BigEndian(24, 8) == [0, 0, 0, 0, 0, 0, 0, 24];
  }

  function W(t: nat): (w: u32) { Schedule(AbcBlock(), 0, t) }

  lemma FirstWord()
    ensures Word(0x61, 0x62, 0x63, 0x80) == 0x61626380
  {
    assert LE32(0x80, 0x63, 0x62, 0x61) == 0x61626380;
  }

  lemma ZeroWord()
    ensures Word(0, 0, 0, 0) == 0
  {
    hide AsWord;
    AsZero();
    assert LE32(0, 0, 0, 0) == 0;
  }

  lemma AsZero()
    ensures AsWord(0) == 0
  {
  }

  lemma LengthWord()
    ensures Word(0, 0, 0, 24) == 24
  {
    assert LE32(24, 0, 0, 0) == 24;
  }

  lemma First(t: nat)
    requires t < 16
    ensures W(t) == if t == 0 then 0x61626380 else if t == 15 then 24 else 0
  {
    hide Word;
    FirstWord();
    ZeroWord();
    LengthWord();
    ScheduleStep(AbcBlock(), 0, t);
  }

  lemma Next(t: nat)
    requires t >= 16
    ensures W(t) == Mix(W(t - 2), W(t - 7), W(t - 15), W(t - 16))
  {
    hide Schedule, Mix;
    ScheduleStep(AbcBlock(), 0, t);
  }

  lemma ScheduleFrom0()
    ensures [W(0), W(1), W(2), W(3), W(4), W(5), W(6), W(7)] == [
      0x61626380, 0x00000000, 0x00000000, 0x00000000, 0x00000000, 0x00000000, 0x00000000, 0x00000000]
  {
    hide W;
    First(0); First(1); First(2); First(3); First(4); First(5); First(6); First(7);
  }

  lemma ScheduleFrom8()
    ensures [W(8), W(9), W(10), W(11), W(12), W(13), W(14), W(15)] == [
      0x00000000, 0x00000000, 0x00000000, 0x00000000, 0x00000000, 0x00000000, 0x00000000, 0x00000018]
  {
    hide W;
    First(8); First(9); First(10); First(11); First(12); First(13); First(14); First(15);
  }

  lemma ScheduleFrom16()
    ensures [W(16), W(17), W(18), W(19), W(20), W(21), W(22), W(23)] == [
      0x61626380, 0x000f0000, 0x7da86405, 0x600003c6, 0x3e9d7b78, 0x0183fc00, 0x12dcbfdb, 0xe2e2c38e]
  {
    hide W;
    ScheduleFrom0();
    ScheduleFrom8();
    Next(16); Next(17); Next(18); Next(19);
    Next(20); Next(21); Next(22); Next(23);
  }

  lemma ScheduleFrom24()
    ensures [W(24), W(25), W(26), W(27), W(28), W(29), W(30), W(31)] == [
      0xc8215c1a, 0xb73679a2, 0xe5bc3909, 0x32663c5b, 0x9d209d67, 0xec8726cb, 0x702138a4, 0xd3b7973b]
  {
    hide W;
    ScheduleFrom8();
    ScheduleFrom16();
    Next(24); Next(25); Next(26); Next(27);
    Next(28); Next(29); Next(30); Next(31);
  }

  lemma ScheduleFrom32()
    ensures [W(32), W(33), W(34), W(35), W(36), W(37), W(38), W(39)] == [
      0x93f5997f, 0x3b68ba73, 0xaff4ffc1, 0xf10a5c62, 0x0a8b3996, 0x72af830a, 0x9409e33e, 0x24641522]
  {
    hide W;
    ScheduleFrom16();
    ScheduleFrom24();
    Next(32); Next(33); Next(34); Next(35);
    Next(36); Next(37); Next(38); Next(39);
  }

  lemma ScheduleFrom40()
    ensures [W(40), W(41), W(42), W(43), W(44), W(45), W(46), W(47)] == [
      0x9f47bf94, 0xf0a64f5a, 0x3e246a79, 0x27333ba3, 0x0c4763f2, 0x840abf27, 0x7a290d5d, 0x065c43da]
  {
    hide W;
    ScheduleFrom24();
    ScheduleFrom32();
    Next(40); Next(41); Next(42); Next(43);
    Next(44); Next(45); Next(46); Next(47);
  }

  lemma ScheduleFrom48()
    ensures [W(48), W(49), W(50), W(51), W(52), W(53), W(54), W(55)] == [
      0xfb3e89cb, 0xcc7617db, 0xb9e66c34, 0xa9993667, 0x84badedd, 0xc21462bc, 0x1487472c, 0xb20f7a99]
  {
    hide W;
    ScheduleFrom32();
    ScheduleFrom40();
    Next(48); Next(49); Next(50); Next(51);
    Next(52); Next(53); Next(54); Next(55);
  }

  lemma ScheduleFrom56()
    ensures [W(56), W(57), W(58), W(59), W(60), W(61), W(62), W(63)] == [
      0xef57b9cd, 0xebe6b238, 0x9fe3095e, 0x78bc8d4b, 0xa43fcf15, 0x668b2ff8, 0xeeaba2cc, 0x12b1edeb]
  {
    hide W;
    ScheduleFrom40();
    ScheduleFrom48();
    Next(56); Next(57); Next(58); Next(59);
    Next(60); Next(61); Next(62); Next(63);
  }

  function R(n: nat): (r: Words)
    requires n <= 64
  {
    Rounds(INITIAL, AbcBlock(), 0, n)
  }

  lemma Start()
    ensures R(0) == Words(
      0x6a09e667, 0xbb67ae85, 0x3c6ef372, 0xa54ff53a, 0x510e527f, 0x9b05688c, 0x1f83d9ab, 0x5be0cd19)
  {
  }

  lemma Step(n: nat)
    requires n < 64
    ensures R(n + 1) == Round(R(n), KAt(n), W(n))
  {
    hide Round, Schedule;
    OneRound(INITIAL, AbcBlock(), 0, n);
  }

  lemma After8()
    ensures R(8) == Words(
      0x85a07b5f, 0xe5030380, 0x2b4209f5, 0x04409a6a, 0x0c657a79, 0x9b27a401, 0x714260ad, 0x43ada245)
  {
    hide W, R;
    Start();
    ScheduleFrom0();
    Step(0); Step(1); Step(2); Step(3); Step(4); Step(5); Step(6); Step(7);
  }

  lemma After16()
    ensures R(16) == Words(
      0xb0fa238e, 0xc0645fde, 0xd932eb16, 0x87912990, 0x07590dcd, 0x0b92f20c, 0x745a48de, 0x1e578218)
  {
    hide W, R;
    After8();
    ScheduleFrom8();
    Step(8); Step(9); Step(10); Step(11); Step(12); Step(13); Step(14); Step(15);
  }

  lemma After24()
    ensures R(24) == Words(
      0xc5d53d8d, 0xa7a3623f, 0xc2606d6d, 0x9dc68b63, 0xaa47c347, 0x49f5114a, 0xe1257970, 0x8ada8930)
  {
    hide W, R;
    After16();
    ScheduleFrom16();
    Step(16); Step(17); Step(18); Step(19); Step(20); Step(21); Step(22); Step(23);
  }

  lemma After32()
    ensures R(32) == Words(
      0x73b33bf5, 0xea992a22, 0xa0060b30, 0x363482c9, 0xba591112, 0x0109ab3a, 0xade79437, 0x6112a3b7)
  {
    hide W, R;
    After24();
    ScheduleFrom24();
    Step(24); Step(25); Step(26); Step(27); Step(28); Step(29); Step(30); Step(31);
  }

  lemma After40()
    ensures R(40) == Words(
      0x79ea687a, 0x6dc57a8a, 0x34df1604, 0x41a65cb1, 0x1efbc0a0, 0xf0781bc8, 0xa507a53d, 0x0772a26b)
  {
    hide W, R;
    After32();
    ScheduleFrom32();
    Step(32); Step(33); Step(34); Step(35); Step(36); Step(37); Step(38); Step(39);
  }

  lemma After48()
    ensures R(48) == Words(
      0x4172328d, 0xa14c14b0, 0x72ab4b91, 0x26628815, 0xfecf0bc6, 0xd57b94a9, 0xb7755da1, 0xa80f11f0)
  {
    hide W, R;
    After40();
    ScheduleFrom40();
    Step(40); Step(41); Step(42); Step(43); Step(44); Step(45); Step(46); Step(47);
  }

  lemma After56()
    ensures R(56) == Words(
      0x38cc9913, 0x3ec45cdb, 0xf5702fdb, 0x101fd28f, 0x54cb266b, 0xe50e1b4f, 0x9f4787c3, 0x529e7d00)
  {
    hide W, R;
    After48();
    ScheduleFrom48();
    Step(48); Step(49); Step(50); Step(51); Step(52); Step(53); Step(54); Step(55);
  }

  lemma After64()
    ensures R(64) == Words(
      0x506e3058, 0xd39a2165, 0x04d24d6c, 0xb85e2ce9, 0x5ef50f24, 0xfb121210, 0x948d25b6, 0x961f4894)
  {
    hide W, R;
    After56();
    ScheduleFrom56();
    Step(56); Step(57); Step(58); Step(59); Step(60); Step(61); Step(62); Step(63);
  }

  lemma AbcHash()
    ensures Blocks(AbcBlock(), 1) == Words(
      0xba7816bf, 0x8f01cfea, 0x414140de, 0x5dae2223, 0xb00361a3, 0x96177a9c, 0xb410ff61, 0xf20015ad)
  {
    hide Rounds;
    After64();
    assert Blocks(AbcBlock(), 0) == INITIAL;
    assert R(64) == Rounds(INITIAL, AbcBlock(), 0, 64);
  }

  lemma Bytes4(w: u32, v: nat, b0: byte, b1: byte, b2: byte, b3: byte)
    requires w as int == v && v == LE32(b3, b2, b1, b0)
    ensures WordBytes(w) == [b0, b1, b2, b3]
  {
    hide BigEndian;
    BigEndian4(b0, b1, b2, b3);
  }

  lemma BigEndian4(b0: byte, b1: byte, b2: byte, b3: byte)
    ensures BigEndian(LE32(b3, b2, b1, b0), 4) == [b0, b1, b2, b3]
  {
    hide BigEndian;
    NoBytes();
    LastByte(0, b0, 0);
    LastByte(b0, b1, 1);
    LastByte(256 * b0 + b1, b2, 2);
    LastByte(256 * (256 * b0 + b1) + b2, b3, 3);
  }

  lemma NoBytes()
    ensures BigEndian(0, 0) == []
  {
  }

  lemma LastByte(v: nat, b: byte, n: nat)
    ensures BigEndian(256 * v + b, n + 1) == BigEndian(v, n) + [b]
  {
  }

  /** The digest of "abc", the usual one-block example. */
  lemma AbcDigest()
    ensures Sha256(ABC) ==
      [0xba, 0x78, 0x16, 0xbf] + [0x8f, 0x01, 0xcf, 0xea] + [0x41, 0x41, 0x40, 0xde] + [0x5d, 0xae, 0x22, 0x23]
      + [0xb0, 0x03, 0x61, 0xa3] + [0x96, 0x17, 0x7a, 0x9c] + [0xb4, 0x10, 0xff, 0x61] + [0xf2, 0x00, 0x15, 0xad]
  {
    hide Blocks, WordBytes, Pad;
    AbcPadded();
    AbcHash();
    Bytes4(0xba7816bf, 0xba7816bf, 0xba, 0x78, 0x16, 0xbf);
    Bytes4(0x8f01cfea, 0x8f01cfea, 0x8f, 0x01, 0xcf, 0xea);
    Bytes4(0x414140de, 0x414140de, 0x41, 0x41, 0x40, 0xde);
    Bytes4(0x5dae2223, 0x5dae2223, 0x5d, 0xae, 0x22, 0x23);
    Bytes4(0xb00361a3, 0xb00361a3, 0xb0, 0x03, 0x61, 0xa3);
    Bytes4(0x96177a9c, 0x96177a9c, 0x96, 0x17, 0x7a, 0x9c);
    Bytes4(0xb410ff61, 0xb410ff61, 0xb4, 0x10, 0xff, 0x61);
    Bytes4(0xf20015ad, 0xf20015ad, 0xf2, 0x00, 0x15, 0xad);
  }
}
