/** A frame written out in bytes, and the layout of the others. */
module Lz4FrameVectors {
  import opened Bytes
  import opened Words32
  import opened Xxh32
  import opened Lz4FrameFormat
  import Lz4Frame

  /** The sizes of blocks, in bytes. */
  lemma BlockSizes()
    ensures BlockSize(4) == 65536 && BlockSize(5) == 262144 && BlockSize(6) == 1048576 && BlockSize(7) == 4194304
  {
  }

  /** The default block size is the smallest. */
  lemma DefaultSize(i: Info)
    ensures i.blockSizeID == 0 ==> Lz4Frame.Normal(i) == i.(blockSizeID := 4)
    ensures i.blockSizeID != 0 ==> Lz4Frame.Normal(i) == i
  {
  }

  /** What LZ4F_compressBound says for blocks of 64 KB, without checksums and with both. */
  lemma Bounds()
    ensures var p := Lz4Frame.Preferences(Info(4, false, false, 0, 0), false);
      && Lz4Frame.CompressBound(0, p, 5) == 5 + 4 + 4
      && Lz4Frame.CompressBound(1, p, 65535) == 65536 + 4 + 4
      && Lz4Frame.CompressBound(65536, p, 70000) == 65536 + 4 + 4
    ensures var p := Lz4Frame.Preferences(Info(4, true, true, 0, 0), true);
      && Lz4Frame.CompressBound(0, p, 0) == 8
      && Lz4Frame.CompressBound(65537, p, 0) == 65537 + 2 * 8 + 8
    ensures Lz4Frame.CompressFrameBound(0, Info(4, false, false, 0, 0)) == 23
    ensures Lz4Frame.CompressFrameBound(65537, Info(4, true, true, 0, 0)) == 19 + 65537 + 2 * 8 + 8
  {
  }

  /** LZ4F_compressFrame puts the real size of the content where a size was announced, and no size where not. */
  lemma AnnouncedSize(srcSize: nat, id: nat)
    ensures Lz4Frame.FrameInfo(Info(0, false, false, 1, 0), srcSize, id).contentSize == srcSize
    ensures Lz4Frame.FrameInfo(Info(0, false, false, 0, 0), srcSize, id).contentSize == 0
    ensures Lz4Frame.FrameInfo(Info(0, true, false, 0, 3), srcSize, id) == Info(id, true, false, 0, 3)
  {
  }

  /** A size that is announced has to be that of the content, modulo 2^64. */
  lemma SizeChecked(i: Info, n: nat)
    ensures SizeRight(i, n) <==> i.contentSize == 0 || i.contentSize == n % 0x1_0000_0000_0000_0000
  {
  }

  /** The magic number, and the bits of the two bytes behind it. */
  lemma HeaderBits(i: Info)
    requires ValidInfo(i)
    ensures var h := Header(i); h[0] == 0x04 && h[1] == 0x22 && h[2] == 0x4D && h[3] == 0x18
    ensures var h := Header(i);
      && h[4] / 64 == 1 && h[4] / 32 % 2 == 1 && h[4] / 2 % 2 == 0
      && (h[4] / 16 % 2 == 1 <==> i.blockChecksum) && (h[4] / 8 % 2 == 1 <==> i.contentSize > 0)
      && (h[4] / 4 % 2 == 1 <==> i.contentChecksum) && (h[4] % 2 == 1 <==> i.dictID > 0)
      && h[5] == 16 * i.blockSizeID
  {
    hide Checksum, Bytes32, Bytes64, HeaderChecksum;
    var size := if i.contentSize > 0 then Bytes64(i.contentSize) else [];
    var dict := if i.dictID > 0 then Bytes32(i.dictID) else [];
    Magic();
    Behind(Bytes32(LZ4F_MAGICNUMBER), [Flags(i), i.blockSizeID * 16], size, dict, [HeaderChecksum(Descriptor(i))]);
    FlagBits(Bit(i.blockChecksum), Bit(i.contentSize > 0), Bit(i.contentChecksum), Bit(i.dictID > 0));
  }

  lemma FlagBits(a: nat, b: nat, c: nat, d: nat)
    requires a < 2 && b < 2 && c < 2 && d < 2
    ensures var f := 96 + 16 * a + 8 * b + 4 * c + d;
      && f / 64 == 1 && f / 32 % 2 == 1 && f / 16 % 2 == a && f / 8 % 2 == b
      && f / 4 % 2 == c && f / 2 % 2 == 0 && f % 2 == d
  {
  }

  /** The content size is in bytes 6 to 13, and the dictionary id behind it, low bytes first. */
  lemma HeaderFields(i: Info)
    requires ValidInfo(i)
    ensures var h := Header(i);
      && (i.contentSize > 0 ==> h[6..14] == Bytes64(i.contentSize))
      && (i.dictID > 0 ==> var at := if i.contentSize > 0 then 14 else 6; h[at..at + 4] == Bytes32(i.dictID))
  {
    hide Checksum, Bytes32, Bytes64, Flags, HeaderChecksum;
    var size := if i.contentSize > 0 then Bytes64(i.contentSize) else [];
    var dict := if i.dictID > 0 then Bytes32(i.dictID) else [];
    Behind(Bytes32(LZ4F_MAGICNUMBER), [Flags(i), i.blockSizeID * 16], size, dict, [HeaderChecksum(Descriptor(i))]);
  }

  lemma Behind(magic: seq<byte>, two: seq<byte>, size: seq<byte>, dict: seq<byte>, check: seq<byte>)
    requires |magic| == 4 && |two| == 2
    ensures var h := magic + (two + size + dict) + check;
      && h[0] == magic[0] && h[1] == magic[1] && h[2] == magic[2] && h[3] == magic[3]
      && h[4] == two[0] && h[5] == two[1] && h[6..6 + |size|] == size && h[6 + |size|..6 + |size| + |dict|] == dict
  {
  }

  /** The size field of a block: its highest bit says that the data is as it was. */
  lemma SizeFieldBits(f: Compressor, b: seq<byte>)
    requires IsBlock(f, b)
    ensures SizeField(f, b) / 0x8000_0000 == if f(b) == [] then 1 else 0
    ensures SizeField(f, b) % 0x8000_0000 == if f(b) == [] then |b| else |f(b)|
  {
  }

  /** A block is its size field, its data and maybe the hash of that. */
  lemma BlockLayout(i: Info, f: Compressor, b: seq<byte>)
    requires IsBlock(f, b)
    ensures var r, n := Block(i, f, b), |Body(f, b)|;
      && Body(f, b) == (if f(b) == [] then b else f(b))
      && |r| == 4 + n + (if i.blockChecksum then 4 else 0) && r[..4] == Bytes32(SizeField(f, b))
      && r[4..4 + n] == Body(f, b) && (i.blockChecksum ==> r[4 + n..] == Bytes32(Checksum(Body(f, b))))
  {
    hide Bytes32, Checksum, IsCompressor, SizeField;
  }

  /** The end mark is a size of 0; the hash of the content comes last. */
  lemma SuffixLayout(i: Info, content: seq<byte>)
    ensures var r := Suffix(i, content);
      && |r| == (if i.contentChecksum then 8 else 4) && r[..4] == Bytes32(0)
      && (i.contentChecksum ==> r[4..] == Bytes32(Checksum(content)))
  {
    hide Bytes32, Checksum;
  }

  const DESCRIPTOR: seq<byte> := [0x64, 0x40]

  lemma DescriptorHash()
    ensures Hash(DESCRIPTOR, 0) == 0x95c0a77c
  {
    var b := DESCRIPTOR;
    assert AddLength(Small(0), 2) == 0x165667b3;
    assert b[0..] == b;
    DescriptorTail();
    hide Tail, Avalanche, AddLength, Small;
    NoStripes(Start(0), b);
  }

  lemma DescriptorTail()
    ensures Avalanche(Tail(0x165667b3, DESCRIPTOR, 0)) == 0x95c0a77c
  {
    hide Tail;
    TailByte(0x165667b3, DESCRIPTOR, 0);
    TailByte(0x15743680, DESCRIPTOR, 1);
    TailEnd(0x0ea849d8, DESCRIPTOR);
  }

  lemma EmptyHash()
    ensures Hash([], 0) == 0x02cc5d05
  {
    var b: seq<byte> := [];
    assert Avalanche(0x165667b1) == 0x02cc5d05 && AddLength(Small(0), 0) == 0x165667b1;
    assert b[0..] == b;
    hide Tail, Avalanche, AddLength, Small;
    NoStripes(Start(0), b);
    TailEnd(0x165667b1, b);
  }

  lemma FourBytes(v: nat, b0: byte, b1: byte, b2: byte, b3: byte)
    requires v == LE32(b0, b1, b2, b3)
    ensures v < 0x1_0000_0000 && Bytes32(v) == [b0, b1, b2, b3]
  {
    var v2 := b2 + 0x100 * b3 as int;
    var v1 := b1 + 0x100 * v2;
    LowByte(b0, v1);
    LowByte(b1, v2);
    LowByte(b2, b3);
  }

  lemma LowByte(b: byte, q: nat)
    ensures (b + 0x100 * q) % 0x100 == b && (b + 0x100 * q) / 0x100 == q
  {
  }

  const HEADER: seq<byte> := [0x04, 0x22, 0x4D, 0x18, 0x64, 0x40, 0xA7]
  const NO_SIZE: seq<byte> := [0x00, 0x00, 0x00, 0x00]
  const NO_CONTENT: seq<byte> := [0x05, 0x5D, 0xCC, 0x02]

  lemma Magic()
    ensures Bytes32(0x184D_2204) == [0x04, 0x22, 0x4D, 0x18]
  {
    FourBytes(0x184D_2204, 0x04, 0x22, 0x4D, 0x18);
  }

  lemma EndMark()
    ensures Bytes32(0) == NO_SIZE
  {
  }

  lemma EmptyHashBytes()
    ensures Bytes32(0x02cc5d05) == NO_CONTENT
  {
    FourBytes(0x02cc5d05, 0x05, 0x5D, 0xCC, 0x02);
  }

  lemma HeaderByte(b: seq<byte>, v: nat)
    requires Checksum(b) == v
    ensures HeaderChecksum(b) == v / 256 % 256
  {
    hide Checksum;
  }

  lemma DescriptorCheck()
    ensures HeaderChecksum(DESCRIPTOR) == 0xA7
  {
    hide Checksum, Hash, HeaderChecksum;
    DescriptorHash();
    HashNumber(DESCRIPTOR, 0x95c0a77c, 0x95c0a77c);
    HeaderByte(DESCRIPTOR, 0x95c0a77c);
  }

  lemma EmptyCheck()
    ensures Checksum([]) == 0x02cc5d05
  {
    hide Checksum, Hash;
    EmptyHash();
    HashNumber([], 0x02cc5d05, 0x02cc5d05);
  }

  lemma EmptyDescriptor()
    ensures Descriptor(Info(4, false, true, 0, 0)) == DESCRIPTOR
  {
  }

  lemma EmptyHeader()
    ensures Header(Info(4, false, true, 0, 0)) == HEADER
  {
    hide Checksum, Bytes32, HeaderChecksum, Descriptor;
    Magic();
    DescriptorCheck();
    EmptyDescriptor();
    assert HEADER == [0x04, 0x22, 0x4D, 0x18] + DESCRIPTOR + [0xA7];
  }

  lemma SuffixIs(i: Info, v: nat, b: seq<byte>)
    requires i.contentChecksum && Checksum([]) == v && b == Bytes32(v)
    ensures Suffix(i, []) == Bytes32(0) + b
  {
    hide Checksum, Bytes32;
  }

  lemma EmptySuffix()
    ensures Suffix(Info(4, false, true, 0, 0), []) == NO_SIZE + NO_CONTENT
  {
    hide *;
    EmptyCheck();
    EndMark();
    EmptyHashBytes();
    SuffixIs(Info(4, false, true, 0, 0), 0x02cc5d05, NO_CONTENT);
  }

  /** The frame of no bytes, with a content checksum: header, end mark, checksum. */
  lemma EmptyFrame(f: Compressor)
    requires IsCompressor(f)
    ensures Frame(Info(4, false, true, 0, 0), f, []) == HEADER + (NO_SIZE + NO_CONTENT)
  {
    hide Header, Suffix, IsCompressor, Bytes32;
    var i := Info(4, false, true, 0, 0);
    EmptyHeader();
    EmptySuffix();
    assert Chop([], BlockSize(4)) == [] && Blocks(i, f, []) == [];
    assert HEADER + [] == HEADER;
  }

  lemma HashNumber(b: seq<byte>, w: u32, v: nat)
    requires Hash(b, 0) == w && w as int == v
    ensures Checksum(b) == v
  {
    hide Hash;
  }
}
