/** The LZ4 frame format: what a frame for given blocks is, and how it is read (lib/lz4/lz4frame.c). */
module Lz4FrameFormat {
  import opened Bytes
  import opened Words32
  import opened Xxh32
  import Lz4Format

  const LZ4F_MAGICNUMBER := 0x184D_2204
  const LZ4F_BLOCKUNCOMPRESSED_FLAG := 0x8000_0000
  const MAX_FH_SIZE := 19
  const MIN_FH_SIZE := 7
  const MAX_BLOCK := 0x40_0000
  const TWO64: int := 0x1_0000_0000_0000_0000

  /** LZ4F_frameInfo_t of a frame with independent blocks. */
  datatype Info = Info(blockSizeID: nat, blockChecksum: bool, contentChecksum: bool, contentSize: nat, dictID: nat)

  /** The fields fit their C types, and the block size is one of the four (LZ4F_getBlockSize). */
  predicate ValidInfo(i: Info) {
    4 <= i.blockSizeID <= 7 && i.contentSize < TWO64 && i.dictID < TWO32
  }

  function BlockSize(id: nat): (r: nat)
    ensures 0x1_0000 <= r <= MAX_BLOCK
  {
    match id
    case 5 => 0x4_0000
    case 6 => 0x10_0000
    case 7 => 0x40_0000
    case _ => 0x1_0000
  }

  function Bytes64(v: nat): (r: seq<byte>)
    requires v < TWO64
    ensures |r| == 8
  {
    Bytes32(v % TWO32) + Bytes32(v / TWO32)
  }

  function Word32(s: seq<byte>): (r: nat)
    requires |s| >= 4
    ensures r < TWO32
  {
    LE32(s[0], s[1], s[2], s[3])
  }

  function Word64(s: seq<byte>): (r: nat)
    requires |s| >= 8
    ensures r < TWO64
  {
    Word32(s) + TWO32 * Word32(s[4..])
  }

  lemma WordOf32(v: nat, more: seq<byte>)
    requires v < TWO32
    ensures Word32(Bytes32(v) + more) == v && (Bytes32(v) + more)[4..] == more
  {
    hide Bytes32;
  }

  lemma WordOf64(v: nat, more: seq<byte>)
    requires v < TWO64
    ensures Word64(Bytes64(v) + more) == v && (Bytes64(v) + more)[8..] == more
  {
    hide Bytes32, Word32;
    var lo, hi := v % TWO32, v / TWO32;
    assert Bytes64(v) + more == Bytes32(lo) + (Bytes32(hi) + more);
    WordOf32(lo, Bytes32(hi) + more);
    WordOf32(hi, more);
    assert (Bytes64(v) + more)[8..] == more;
  }

  // ---------------------------------------------------------------- writing

  function Bit(b: bool): (r: nat) { if b then 1 else 0 }

  /** The FLG byte: version 1, independent blocks, and what else there is. */
  function Flags(i: Info): (r: byte) {
    64 + 32 + 16 * Bit(i.blockChecksum) + 8 * Bit(i.contentSize > 0) + 4 * Bit(i.contentChecksum) + Bit(i.dictID > 0)
  }

  function Descriptor(i: Info): (r: seq<byte>)
    requires ValidInfo(i)
    ensures |r| == 2 + 8 * Bit(i.contentSize > 0) + 4 * Bit(i.dictID > 0)
  {
    [Flags(i), i.blockSizeID * 16]
    + (if i.contentSize > 0 then Bytes64(i.contentSize) else [])
    + (if i.dictID > 0 then Bytes32(i.dictID) else [])
  }

  function HeaderChecksum(d: seq<byte>): (r: byte) { Checksum(d) / 256 % 256 }

  function Header(i: Info): (r: seq<byte>)
    requires ValidInfo(i)
    ensures MIN_FH_SIZE <= |r| <= MAX_FH_SIZE
  {
    Bytes32(LZ4F_MAGICNUMBER) + Descriptor(i) + [HeaderChecksum(Descriptor(i))]
  }

  /** What a block compressor does with a block; nothing if the result would not be smaller. */
  type Compressor = seq<byte> -> seq<byte>

  ghost predicate IsCompressor(f: Compressor) {
    forall b :: 0 < |b| <= MAX_BLOCK ==> |f(b)| < |b|
  }

  /** Whatever the compressor does return decodes to the block. */
  ghost predicate IsFaithful(f: Compressor) {
    forall b :: 0 < |b| <= MAX_BLOCK && f(b) != [] ==> Lz4Format.Decode(f(b), 0, []) == Some(b)
  }

  /** The data of a block: compressed if that is smaller, as it is otherwise. */
  function Body(f: Compressor, b: seq<byte>): (r: seq<byte>) {
    if f(b) == [] then b else f(b)
  }

  function SizeField(f: Compressor, b: seq<byte>): (r: nat) {
    if f(b) == [] then |b| + LZ4F_BLOCKUNCOMPRESSED_FLAG else |f(b)|
  }

  function ChecksumOf(present: bool, b: seq<byte>): (r: seq<byte>)
    ensures |r| == 4 * Bit(present)
  {
    if present then Bytes32(Checksum(b)) else []
  }

  ghost predicate IsBlock(f: Compressor, b: seq<byte>) {
    0 < |b| <= MAX_BLOCK && IsCompressor(f)
  }

  /** LZ4F_makeBlock: size, data, checksum. */
  ghost function Block(i: Info, f: Compressor, b: seq<byte>): (r: seq<byte>)
    requires IsBlock(f, b)
    ensures |r| == 4 + |Body(f, b)| + 4 * Bit(i.blockChecksum) && 0 < |Body(f, b)| <= |b|
  {
    Bytes32(SizeField(f, b)) + Body(f, b) + ChecksumOf(i.blockChecksum, Body(f, b))
  }

  function Flatten(bs: seq<seq<byte>>): (r: seq<byte>) {
    if bs == [] then [] else bs[0] + Flatten(bs[1..])
  }

  ghost predicate AreBlocks(bs: seq<seq<byte>>, size: nat) {
    forall k :: 0 <= k < |bs| ==> 0 < |bs[k]| <= size
  }

  ghost function Blocks(i: Info, f: Compressor, bs: seq<seq<byte>>): (r: seq<byte>)
    requires AreBlocks(bs, MAX_BLOCK) && IsCompressor(f)
  {
    if bs == [] then [] else Block(i, f, bs[0]) + Blocks(i, f, bs[1..])
  }

  /** End mark and content checksum. */
  function Suffix(i: Info, content: seq<byte>): (r: seq<byte>) {
    Bytes32(0) + ChecksumOf(i.contentChecksum, content)
  }

  lemma {:induction false} FlattenSnoc(bs: seq<seq<byte>>, b: seq<byte>)
    ensures Flatten(bs + [b]) == Flatten(bs) + b
  {
    if bs == [] {
      assert [b][1..] == [];
    } else {
      FlattenSnoc(bs[1..], b);
      assert (bs + [b])[1..] == bs[1..] + [b];
      Assoc(bs[0], Flatten(bs[1..]), b);
    }
  }

  lemma {:induction false} BlocksSnoc(i: Info, f: Compressor, bs: seq<seq<byte>>, b: seq<byte>)
    requires AreBlocks(bs, MAX_BLOCK) && IsBlock(f, b)
    ensures AreBlocks(bs + [b], MAX_BLOCK) && Blocks(i, f, bs + [b]) == Blocks(i, f, bs) + Block(i, f, b)
  {
    hide Block, IsCompressor;
    var all := bs + [b];
    assert AreBlocks(all, MAX_BLOCK);
    if bs == [] {
      assert [b][1..] == [];
    } else {
      BlocksSnoc(i, f, bs[1..], b);
      assert all[1..] == bs[1..] + [b];
      Assoc(Block(i, f, bs[0]), Blocks(i, f, bs[1..]), Block(i, f, b));
    }
  }

  // ---------------------------------------------------------------- full blocks

  /** The blocks of s if only its end may be shorter than the others. */
  function Chop(s: seq<byte>, size: nat): (r: seq<seq<byte>>)
    requires size > 0
  {
    if s == [] then [] else if |s| <= size then [s] else [s[..size]] + Chop(s[size..], size)
  }

  lemma ChopStep(b: seq<byte>, more: seq<byte>, size: nat)
    requires |b| == size > 0
    ensures Chop(b + more, size) == [b] + Chop(more, size)
  {
    var s := b + more;
    assert s[..size] == b && s[size..] == more;
    if more == [] { assert s == b; }
  }

  /** Full blocks and a rest are the only way to chop what they are the parts of. */
  lemma {:induction false} FullBlocks(bs: seq<seq<byte>>, rest: seq<byte>, size: nat)
    requires size > 0 && |rest| < size && forall k :: 0 <= k < |bs| ==> |bs[k]| == size
    ensures Chop(Flatten(bs) + rest, size) == if rest == [] then bs else bs + [rest]
  {
    if bs == [] {
      assert Flatten(bs) + rest == rest;
    } else {
      FullBlocks(bs[1..], rest, size);
      ChopStep(bs[0], Flatten(bs[1..]) + rest, size);
      Assoc(bs[0], Flatten(bs[1..]), rest);
      hide Chop, Flatten;
      assert bs == [bs[0]] + bs[1..];
      if rest != [] { assert [bs[0]] + (bs[1..] + [rest]) == bs + [rest]; }
    }
  }

  /** The frame for a content that is cut into full blocks. */
  ghost function Frame(i: Info, f: Compressor, content: seq<byte>): (r: seq<byte>)
    requires ValidInfo(i) && IsCompressor(f)
  {
    ChopSizes(content, BlockSize(i.blockSizeID));
    Header(i) + Blocks(i, f, Chop(content, BlockSize(i.blockSizeID))) + Suffix(i, content)
  }

  lemma {:induction false} ChopSizes(s: seq<byte>, size: nat)
    requires 0 < size <= MAX_BLOCK
    ensures AreBlocks(Chop(s, size), MAX_BLOCK) && Flatten(Chop(s, size)) == s
    decreases |s|
  {
    if |s| > size {
      ChopSizes(s[size..], size);
      assert s == s[..size] + s[size..];
    } else if s != [] {
      assert [s][1..] == [] && s + [] == s;
    }
  }

  // ---------------------------------------------------------------- reading

  /** LZ4F_decodeHeader for independent blocks: what the frame holds, and what follows the header. */
  function ReadHeader(s: seq<byte>): (r: Option<(Info, seq<byte>)>) {
    if |s| < MIN_FH_SIZE || Word32(s) != LZ4F_MAGICNUMBER then None
    else
      var flg, bd := s[4], s[5];
      var size := MIN_FH_SIZE + 8 * (flg / 8 % 2) + 4 * (flg % 2);
      if flg / 2 % 2 != 0 || flg / 64 != 1 || flg / 32 % 2 != 1 then None
      else if |s| < size then None
      else if bd / 128 != 0 || bd / 16 < 4 || bd % 16 != 0 then None
      else if HeaderChecksum(s[4..size - 1]) != s[size - 1] then None
      else Some((Info(bd / 16, flg / 16 % 2 == 1, flg / 4 % 2 == 1,
                      if flg / 8 % 2 == 1 then Word64(s[6..]) else 0,
                      if flg % 2 == 1 then Word32(s[size - 5..]) else 0), s[size..]))
  }

  datatype Parsed = Parsed(content: seq<byte>, rest: seq<byte>)

  /** The data of one block. */
  function ReadBody(size: nat, body: seq<byte>, blockSize: nat): (r: Option<seq<byte>>) {
    if size >= LZ4F_BLOCKUNCOMPRESSED_FLAG then Some(body)
    else match Lz4Format.Decode(body, 0, [])
      case None => None
      case Some(b) => if |b| <= blockSize then Some(b) else None
  }

  function DataSize(size: nat): (n: nat) { size % LZ4F_BLOCKUNCOMPRESSED_FLAG }

  /** One block: its data, and what follows it. */
  function ReadBlock(i: Info, s: seq<byte>): (r: Option<Parsed>)
    requires |s| >= 4
    ensures r.Some? ==> |r.value.rest| < |s|
  {
    var size, crc := Word32(s), 4 * Bit(i.blockChecksum);
    var n := DataSize(size);
    if n > BlockSize(i.blockSizeID) || |s| < 4 + n + crc then None
    else if i.blockChecksum && Word32(s[4 + n..]) != Checksum(s[4..4 + n]) then None
    else match ReadBody(size, s[4..4 + n], BlockSize(i.blockSizeID))
      case None => None
      case Some(b) => Some(Parsed(b, s[4 + n + crc..]))
  }

  /** Blocks up to the end mark, and what follows it. */
  function ReadBlocks(i: Info, s: seq<byte>): (r: Option<Parsed>)
    decreases |s|
  {
    if |s| < 4 then None
    else if DataSize(Word32(s)) == 0 then Some(Parsed([], s[4..]))
    else match ReadBlock(i, s)
      case None => None
      case Some(b) => match ReadBlocks(i, b.rest)
        case None => None
        case Some(p) => Some(Parsed(b.content + p.content, p.rest))
  }

  /** The size a frame announces, if any, is that of its content. */
  predicate SizeRight(i: Info, n: nat) { i.contentSize == 0 || i.contentSize == n % TWO64 }

  /** The announced size has to be right, and so has the checksum of the content. */
  function ReadSuffix(i: Info, p: Parsed): (r: Option<Parsed>) {
    if !SizeRight(i, |p.content|) then None
    else if !i.contentChecksum then Some(p)
    else if |p.rest| < 4 || Word32(p.rest) != Checksum(p.content) then None
    else Some(Parsed(p.content, p.rest[4..]))
  }

  /** A whole frame: its content, and what follows it. */
  function ReadFrame(s: seq<byte>): (r: Option<Parsed>) {
    match ReadHeader(s)
    case None => None
    case Some((i, body)) => match ReadBlocks(i, body)
      case None => None
      case Some(p) => ReadSuffix(i, p)
  }

  lemma FlagsRead(i: Info)
    ensures var flg := Flags(i);
      && flg / 64 == 1 && flg / 32 % 2 == 1 && flg / 2 % 2 == 0
      && flg / 16 % 2 == Bit(i.blockChecksum) && flg / 8 % 2 == Bit(i.contentSize > 0)
      && flg / 4 % 2 == Bit(i.contentChecksum) && flg % 2 == Bit(i.dictID > 0)
  {
  }

  lemma Parts(a: seq<byte>, d: seq<byte>, c: byte, more: seq<byte>)
    requires |a| == 4 && |d| >= 2
    ensures var s, size := (a + d + [c]) + more, |d| + 5;
      s[4] == d[0] && s[5] == d[1] && s[4..size - 1] == d && s[size - 1] == c && s[size..] == more
  {
  }

  lemma Fields(a: seq<byte>, d: seq<byte>, length: seq<byte>, dict: seq<byte>, c: byte, more: seq<byte>)
    requires |a| == 4 && |d| == 2
    ensures var s := (a + (d + length + dict) + [c]) + more;
      s[6..] == length + (dict + [c] + more) && s[6 + |length|..] == dict + ([c] + more)
  {
  }

  /** The header is read as it was written. */
  lemma HeaderReads(i: Info, more: seq<byte>)
    requires ValidInfo(i)
    ensures ReadHeader(Header(i) + more) == Some((i, more))
  {
    hide HeaderChecksum, Bytes32, Bytes64, Word32, Word64, Flags;
    var d := Descriptor(i);
    var c := HeaderChecksum(d);
    var s := Header(i) + more;
    var size := |d| + 5;
    FlagsRead(i);
    assert s == Bytes32(LZ4F_MAGICNUMBER) + (d + [c] + more);
    WordOf32(LZ4F_MAGICNUMBER, d + [c] + more);
    Parts(Bytes32(LZ4F_MAGICNUMBER), d, c, more);
    var length := if i.contentSize > 0 then Bytes64(i.contentSize) else [];
    var dict := if i.dictID > 0 then Bytes32(i.dictID) else [];
    Fields(Bytes32(LZ4F_MAGICNUMBER), d[..2], length, dict, c, more);
    assert d == d[..2] + length + dict;
    assert d[0] == Flags(i) && d[1] == i.blockSizeID * 16 && s == (Bytes32(LZ4F_MAGICNUMBER) + d + [c]) + more;
    hide Descriptor, Header;
    if i.dictID > 0 { WordOf32(i.dictID, [c] + more); }
    if i.contentSize > 0 { WordOf64(i.contentSize, dict + [c] + more); }
  }

  lemma ChecksumReads(b: seq<byte>, more: seq<byte>)
    ensures var s := ChecksumOf(true, b) + more; Word32(s) == Checksum(b) && s[4..] == more
  {
    hide Checksum;
    WordOf32(Checksum(b), more);
  }

  /** A block is read as it was written. */
  lemma BlockReads(i: Info, f: Compressor, b: seq<byte>, more: seq<byte>)
    requires IsBlock(f, b) && IsFaithful(f) && |b| <= BlockSize(i.blockSizeID)
    ensures var s := Block(i, f, b) + more;
      DataSize(Word32(s)) != 0 && ReadBlock(i, s) == Some(Parsed(b, more))
  {
    hide Bytes32, Word32, Checksum, Lz4Format.Decode;
    var size, body := SizeField(f, b), Body(f, b);
    var crc := ChecksumOf(i.blockChecksum, body);
    var s := Block(i, f, b) + more;
    BodyReads(f, b, BlockSize(i.blockSizeID));
    assert s == Bytes32(size) + (body + crc + more);
    WordOf32(size, body + crc + more);
    hide ReadBody, DataSize, SizeField, Body, IsFaithful, IsCompressor;
    BlockParts(Bytes32(size), body, crc, more);
    if i.blockChecksum { ChecksumReads(body, more); }
  }

  lemma BodyReads(f: Compressor, b: seq<byte>, blockSize: nat)
    requires IsBlock(f, b) && IsFaithful(f) && |b| <= blockSize
    ensures DataSize(SizeField(f, b)) == |Body(f, b)| > 0 && SizeField(f, b) < TWO32
    ensures ReadBody(SizeField(f, b), Body(f, b), blockSize) == Some(b)
  {
    hide Lz4Format.Decode;
  }

  lemma BlockParts(a: seq<byte>, body: seq<byte>, crc: seq<byte>, more: seq<byte>)
    requires |a| == 4
    ensures var s, n := (a + body + crc) + more, |body|;
      s[4..4 + n] == body && s[4 + n..] == crc + more && s[4 + n + |crc|..] == more
  {
  }

  lemma EndReads(i: Info, tail: seq<byte>)
    ensures ReadBlocks(i, Bytes32(0) + tail) == Some(Parsed([], tail))
  {
    hide Bytes32, Word32;
    WordOf32(0, tail);
  }

  lemma {:induction false} BlocksRead(i: Info, f: Compressor, bs: seq<seq<byte>>, tail: seq<byte>)
    requires IsCompressor(f) && IsFaithful(f) && AreBlocks(bs, BlockSize(i.blockSizeID))
    ensures ReadBlocks(i, Blocks(i, f, bs) + (Bytes32(0) + tail)) == Some(Parsed(Flatten(bs), tail))
    decreases |bs|
  {
    hide Block, Bytes32, Word32, IsFaithful, IsCompressor, ReadBlock;
    if bs == [] {
      EndReads(i, tail);
      assert Blocks(i, f, bs) + (Bytes32(0) + tail) == Bytes32(0) + tail;
    } else {
      BlocksRead(i, f, bs[1..], tail);
      BlockReads(i, f, bs[0], Blocks(i, f, bs[1..]) + (Bytes32(0) + tail));
      Assoc(Block(i, f, bs[0]), Blocks(i, f, bs[1..]), Bytes32(0) + tail);
    }
  }

  /** The size check, and the content checksum. */
  lemma SuffixReads(i: Info, content: seq<byte>, tail: seq<byte>)
    requires ValidInfo(i)
    ensures ReadSuffix(i, Parsed(content, ChecksumOf(i.contentChecksum, content) + tail)) ==
      if SizeRight(i, |content|) then Some(Parsed(content, tail)) else None
  {
    hide Word32, Checksum, SizeRight;
    if i.contentChecksum { ChecksumReads(content, tail); } else { assert [] + tail == tail; }
  }

  lemma Regroup(a: seq<byte>, b: seq<byte>, c: seq<byte>, d: seq<byte>, e: seq<byte>)
    ensures a + b + (c + d) + e == a + (b + (c + (d + e)))
  {
  }

  /**
    Whatever blocks a content is cut into, its frame is read back, exactly if the size it
    announces is right.
   */
  lemma FrameReads(i: Info, f: Compressor, bs: seq<seq<byte>>, tail: seq<byte>)
    requires ValidInfo(i) && IsCompressor(f) && IsFaithful(f) && AreBlocks(bs, BlockSize(i.blockSizeID))
    ensures var content := Flatten(bs);
      ReadFrame(Header(i) + Blocks(i, f, bs) + Suffix(i, content) + tail) ==
      if SizeRight(i, |content|) then Some(Parsed(content, tail)) else None
  {
    hide Block, Blocks, Header, ReadHeader, Bytes32, IsFaithful, IsCompressor, ReadBlocks, ReadSuffix, Flatten,
      ChecksumOf, SizeRight;
    var content := Flatten(bs);
    var crc := ChecksumOf(i.contentChecksum, content);
    var body := Blocks(i, f, bs) + (Bytes32(0) + (crc + tail));
    Regroup(Header(i), Blocks(i, f, bs), Bytes32(0), crc, tail);
    HeaderReads(i, body);
    BlocksRead(i, f, bs, crc + tail);
    SuffixReads(i, content, tail);
  }
}
