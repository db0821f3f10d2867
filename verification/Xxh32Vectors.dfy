/** A hash that is published with XXH32: two stripes, a word and three bytes. */
module Xxh32Vectors {
  import opened Bytes
  import opened Words32
  import opened Xxh32

  /** "Nobody inspects the spammish repetition" */
  const FIRST: seq<byte> := [0x4e, 0x6f, 0x62, 0x6f, 0x64, 0x79, 0x20, 0x69,
                             0x6e, 0x73, 0x70, 0x65, 0x63, 0x74, 0x73, 0x20]
  const SECOND: seq<byte> := [0x74, 0x68, 0x65, 0x20, 0x73, 0x70, 0x61, 0x6d,
                             0x6d, 0x69, 0x73, 0x68, 0x20, 0x72, 0x65, 0x70]
  const REST: seq<byte> := [0x65, 0x74, 0x69, 0x74, 0x69, 0x6f, 0x6e]

  lemma Words(w: u32, v: nat, b: seq<byte>, i: nat)
    requires i + 4 <= |b| && v == LE32(b[i], b[i + 1], b[i + 2], b[i + 3]) && AsWord(v) == w
    ensures Word(b, i) == w
  {
    hide AsWord;
  }

  lemma FirstWords()
    ensures [Word(FIRST, 0), Word(FIRST, 4), Word(FIRST, 8), Word(FIRST, 12)] == [
      0x6f626f4e, 0x69207964, 0x6570736e, 0x20737463]
  {
    hide Word;
    Words(0x6f626f4e, 0x6f626f4e, FIRST, 0);
    Words(0x69207964, 0x69207964, FIRST, 4);
    Words(0x6570736e, 0x6570736e, FIRST, 8);
    Words(0x20737463, 0x20737463, FIRST, 12);
  }

  lemma SecondWords()
    ensures [Word(SECOND, 0), Word(SECOND, 4), Word(SECOND, 8), Word(SECOND, 12)] == [
      0x20656874, 0x6d617073, 0x6873696d, 0x70657220]
  {
    hide Word;
    Words(0x20656874, 0x20656874, SECOND, 0);
    Words(0x6d617073, 0x6d617073, SECOND, 4);
    Words(0x6873696d, 0x6873696d, SECOND, 8);
    Words(0x70657220, 0x70657220, SECOND, 12);
  }

  lemma RestWord()
    ensures Word(REST, 0) == 0x74697465
  {
    hide Word;
    Words(0x74697465, 0x74697465, REST, 0);
  }

  lemma FirstStripe()
    ensures Stripe(Start(0), FIRST, 0) == Lanes(
      0x046a700a, 0xbfadf8e3, 0x5b32b4aa, 0x137e5555)
  {
    hide Word;
    FirstWords();
  }

  lemma SecondStripe()
    ensures Stripe(Lanes(0x046a700a, 0xbfadf8e3, 0x5b32b4aa, 0x137e5555), SECOND, 0) == Lanes(
      0x719a836e, 0x514c1de8, 0x97fa4ba2, 0x242a97a2)
  {
    hide Word;
    SecondWords();
  }

  lemma Merged()
    ensures AddLength(Merge(Lanes(0x719a836e, 0x514c1de8, 0x97fa4ba2, 0x242a97a2)), 39) == 0x8c86b554
  {
  }

  lemma Ending()
    ensures Avalanche(Tail(0x8c86b554, REST, 0)) == 0xe2293b2f
  {
    hide Word;
    RestWord();
    hide Tail;
    TailWord(0x8c86b554, REST, 0);
    TailByte(0x09b51544, REST, 4);
    TailByte(0xcdefd3c9, REST, 5);
    TailByte(0x3852087b, REST, 6);
    TailEnd(0xb3a7011b, REST);
  }

  lemma KnownHash()
    ensures Hash(FIRST + SECOND + REST, 0) == 0xe2293b2f
  {
    hide Stripe, Merge, AddLength, Avalanche, Tail, Start;
    var b, a := FIRST + SECOND + REST, Start(0);
    FirstStripe();
    SecondStripe();
    Merged();
    Ending();
    assert b[0..16] == FIRST[0..16] && b[16..32] == SECOND[0..16] && b[32..] == REST;
    StripeSame(a, b, 0, FIRST, 0);
    NoStripes(a, b);
    NextStripe(a, b, 0);
    StripeSame(Stripes(a, b, 1), b, 16, SECOND, 0);
    NextStripe(a, b, 1);
  }

  /** Where the seed goes. */
  lemma SeedStart()
    ensures Start(0x9e3779b1) == Lanes(0xc25abdd9, 0x24234428, 0x9e3779b1, 0x00000000)
    ensures Small(0x9e3779b1) == 0xb48de162
  {
  }

  /** Below 16 bytes the lanes are not used; the length is taken modulo 2^32. */
  lemma HeadNumbers(a: Lanes, seed: u32, n: nat)
    ensures n < 16 ==> Head(a, seed, n) == AddLength(Small(seed), n % 0x1_0000_0000)
    ensures n >= 16 ==> Head(a, seed, n) == AddLength(Merge(a), n % 0x1_0000_0000)
  {
  }
}
